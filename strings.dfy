/** The parts of Python's `str` that the model needs: `strip`, `split`, `join`, prefix and suffix
    tests, `lower` on ASCII letters, and `int`/`str` between integers and decimal text. */
module Strings {
  import opened Wrappers

  /** `c.isspace()`: the characters Python's `str.strip()` removes by default. */
  predicate IsSpace(c: char)
  {
    ('\t' <= c <= '\r') || ('\U{1C}' <= c <= '\U{20}') || c == '\U{85}' || c == '\U{A0}' ||
    c == '\U{1680}' || ('\U{2000}' <= c <= '\U{200A}') || c == '\U{2028}' || c == '\U{2029}' ||
    c == '\U{202F}' || c == '\U{205F}' || c == '\U{3000}'
  }

  /** The number of leading characters of `s` that `drop` removes. */
  function SkipLeft(s: string, drop: char -> bool): (i: nat)
    ensures i <= |s|
    ensures forall j :: 0 <= j < i ==> drop(s[j])
    ensures i == |s| || !drop(s[i])
  {
    if s == [] || !drop(s[0]) then 0 else 1 + SkipLeft(s[1..], drop)
  }

  /** The length of `s` without the trailing characters that `drop` removes. */
  function SkipRight(s: string, drop: char -> bool): (j: nat)
    ensures j <= |s|
    ensures forall m :: j <= m < |s| ==> drop(s[m])
    ensures j == 0 || !drop(s[j - 1])
  {
    if s == [] || !drop(s[|s| - 1]) then |s| else SkipRight(s[..|s| - 1], drop)
  }

  /** `s.strip(chars)` where `drop` says which characters are in `chars`. */
  function StripBy(s: string, drop: char -> bool): (r: string)
    ensures exists i, j :: 0 <= i <= j <= |s| && r == s[i..j] &&
                           (forall m :: 0 <= m < i ==> drop(s[m])) &&
                           (forall m :: j <= m < |s| ==> drop(s[m]))
    ensures r == [] || (!drop(r[0]) && !drop(r[|r| - 1]))
  {
    var i := SkipLeft(s, drop);
    var t := s[i..];
    var j := SkipRight(t, drop);
    assert t[..j] == s[i..i + j];
    t[..j]
  }

  /** Stripping keeps only characters of `s`. */
  lemma StripByIn(s: string, drop: char -> bool)
    ensures forall m :: 0 <= m < |StripBy(s, drop)| ==> StripBy(s, drop)[m] in s
  {
    var r := StripBy(s, drop);
    var i, j :| 0 <= i <= j <= |s| && r == s[i..j];
    assert forall m :: 0 <= m < |r| ==> r[m] == s[i + m];
  }

  /** `s.strip()` */
  function Strip(s: string): string
  {
    StripBy(s, IsSpace)
  }

  /** A string whose first and last characters are not removed by `drop`. */
  predicate Clean(s: string, drop: char -> bool)
  {
    s == [] || (!drop(s[0]) && !drop(s[|s| - 1]))
  }

  /** Stripping removes exactly a removable prefix and suffix around a clean core. */
  lemma {:induction false} StripAround(p: string, x: string, q: string, drop: char -> bool)
    requires forall m :: 0 <= m < |p| ==> drop(p[m])
    requires forall m :: 0 <= m < |q| ==> drop(q[m])
    requires x != [] && Clean(x, drop)
    ensures StripBy(p + x + q, drop) == x
  {
    var s := p + x + q;
    assert s[|p|] == x[0];
    assert SkipLeft(s, drop) == |p| by {
      SkipLeftPrefix(s, |p|, drop);
    }
    var t := s[|p|..];
    assert t == x + q;
    assert t[|x| - 1] == x[|x| - 1];
    SkipRightSuffix(t, |x|, drop);
    assert t[..|x|] == x;
  }

  lemma {:induction false} SkipLeftPrefix(s: string, n: nat, drop: char -> bool)
    requires n < |s| && !drop(s[n]) && forall m :: 0 <= m < n ==> drop(s[m])
    ensures SkipLeft(s, drop) == n
  {
    if n > 0 {
      SkipLeftPrefix(s[1..], n - 1, drop);
    }
  }

  lemma {:induction false} SkipRightSuffix(s: string, n: nat, drop: char -> bool)
    requires 0 < n <= |s| && !drop(s[n - 1]) && forall m :: n <= m < |s| ==> drop(s[m])
    ensures SkipRight(s, drop) == n
  {
    if n < |s| {
      assert s[..|s| - 1][n - 1] == s[n - 1];
      SkipRightSuffix(s[..|s| - 1], n, drop);
    }
  }

  /** A clean string is left as it is. */
  lemma StripClean(x: string, drop: char -> bool)
    requires Clean(x, drop)
    ensures StripBy(x, drop) == x
  {
    if x != [] {
      assert [] + x + [] == x;
      StripAround([], x, [], drop);
    }
  }

  /** The position of the first `c` in `s`, as `s.find(c)`. */
  function IndexOf(s: string, c: char): (r: Option<nat>)
    ensures r.Some? ==> r.value < |s| && s[r.value] == c && c !in s[..r.value]
    ensures r.None? ==> c !in s
  {
    if s == [] then None
    else if s[0] == c then Some(0)
    else match IndexOf(s[1..], c)
      case None => None
      case Some(i) =>
        assert s[..i + 1] == [s[0]] + s[1..][..i];
        Some(i + 1)
  }

  lemma IndexOfAfter(a: string, c: char, b: string)
    requires c !in a
    ensures IndexOf(a + [c] + b, c) == Some(|a|)
  {
    var r := IndexOf(a + [c] + b, c);
    assert (a + [c] + b)[|a|] == c;
    assert (a + [c] + b)[..|a|] == a;
  }

  /** `sep.join(parts)` */
  function Join(parts: seq<string>, sep: string): string
  {
    if |parts| == 0 then ""
    else if |parts| == 1 then parts[0]
    else parts[0] + sep + Join(parts[1..], sep)
  }

  /** `s.split(sep)` for a one-character separator: the pieces between separators, in order. */
  function Split(s: string, sep: char): (parts: seq<string>)
    ensures |parts| >= 1
    ensures forall i :: 0 <= i < |parts| ==> sep !in parts[i]
    ensures Join(parts, [sep]) == s
    decreases |s|
  {
    match IndexOf(s, sep)
    case None => [s]
    case Some(i) =>
      var rest := Split(s[i + 1..], sep);
      assert s == s[..i] + [sep] + s[i + 1..];
      [s[..i]] + rest
  }

  /** Splitting undoes joining, when no part holds the separator. */
  lemma {:induction false} SplitJoin(parts: seq<string>, sep: char)
    requires |parts| >= 1 && forall i :: 0 <= i < |parts| ==> sep !in parts[i]
    ensures Split(Join(parts, [sep]), sep) == parts
  {
    if |parts| > 1 {
      var rest := Join(parts[1..], [sep]);
      assert IndexOf(parts[0], sep).None?;
      SplitFirst(parts[0], sep, rest);
      SplitJoin(parts[1..], sep);
      ConsTail(parts);
    }
  }

  /** Splitting at a separator splits the two sides independently. */
  lemma {:induction false} SplitAppend(a: string, sep: char, b: string)
    ensures Split(a + [sep] + b, sep) == Split(a, sep) + Split(b, sep)
    decreases |a|, 1
  {
    match IndexOf(a, sep)
    case None =>
      SplitFirst(a, sep, b);
    case Some(i) =>
      SplitAppendAt(a, sep, b, i);
  }

  lemma {:induction false} SplitAppendAt(a: string, sep: char, b: string, i: nat)
    requires IndexOf(a, sep) == Some(i)
    ensures Split(a + [sep] + b, sep) == Split(a, sep) + Split(b, sep)
    decreases |a|, 0
  {
    var t := a[i + 1..];
    SplitAfter(a, sep, b, i);
    SplitAppend(t, sep, b);
    ConsAssoc(a[..i], Split(t, sep), Split(b, sep));
  }

  lemma ConsTail<T>(s: seq<T>)
    requires s != []
    ensures s == [s[0]] + s[1..]
  {
  }

  lemma ConsAssoc<T>(x: T, p: seq<T>, q: seq<T>)
    ensures [x] + (p + q) == [x] + p + q
  {
  }

  /** A first side without the separator is the first piece. */
  lemma SplitFirst(a: string, sep: char, b: string)
    requires IndexOf(a, sep).None?
    ensures Split(a + [sep] + b, sep) == [a] + Split(b, sep)
    ensures Split(a, sep) == [a]
  {
    var s := a + [sep] + b;
    IndexOfAfter(a, sep, b);
    assert s[..|a|] == a && s[|a| + 1..] == b;
  }

  /** A separator at `i` in the first side cuts there, in both strings. */
  lemma SplitAfter(a: string, sep: char, b: string, i: nat)
    requires IndexOf(a, sep) == Some(i)
    ensures Split(a + [sep] + b, sep) == [a[..i]] + Split(a[i + 1..] + [sep] + b, sep)
    ensures Split(a, sep) == [a[..i]] + Split(a[i + 1..], sep)
  {
    var s := a + [sep] + b;
    assert s[..i] == a[..i];
    assert IndexOf(s, sep) == Some(i) by {
      assert s[i] == sep;
      assert s[..i] == a[..i];
    }
    assert s[i + 1..] == a[i + 1..] + [sep] + b;
  }

  lemma SplitNone(s: string, sep: char)
    requires sep !in s
    ensures Split(s, sep) == [s]
  {
  }

  predicate StartsWith(s: string, p: string)
  {
    |p| <= |s| && s[..|p|] == p
  }

  predicate EndsWith(s: string, p: string)
  {
    |p| <= |s| && s[|s| - |p|..] == p
  }

  /** `s.lower()` for ASCII letters; every other character is kept. */
  function AsciiLower(s: string): (r: string)
    ensures |r| == |s|
  {
    seq(|s|, i requires 0 <= i < |s| => if 'A' <= s[i] <= 'Z' then (s[i] as int + 32) as char else s[i])
  }

  predicate IsDigit(c: char)
  {
    '0' <= c <= '9'
  }

  predicate AllDigits(s: string)
  {
    forall i :: 0 <= i < |s| ==> IsDigit(s[i])
  }

  /** The value of a string of decimal digits. */
  function DigitsValue(s: string): nat
    requires AllDigits(s)
  {
    if s == [] then 0 else DigitsValue(s[..|s| - 1]) * 10 + (s[|s| - 1] as int - '0' as int)
  }

  /** `str(n)` for a natural number. */
  function NatToStr(n: nat): (r: string)
    ensures |r| >= 1 && AllDigits(r)
  {
    var d := ('0' as int + n % 10) as char;
    if n < 10 then [d] else NatToStr(n / 10) + [d]
  }

  /** `str(n)` */
  function IntToStr(n: int): (r: string)
    ensures |r| >= 1 && '_' !in r && forall i :: 0 <= i < |r| ==> !IsSpace(r[i])
  {
    if n < 0 then "-" + NatToStr(-n) else NatToStr(n)
  }

  /** `int(s)` on text: surrounding whitespace, an optional sign and at least one ASCII digit.
      Anything else raises `ValueError`, written `None` here. */
  function ParsePyInt(s: string): Option<int>
  {
    var t := Strip(s);
    if t == [] then None
    else
      var body := if t[0] == '-' || t[0] == '+' then t[1..] else t;
      if body != [] && AllDigits(body) then
        var v: int := DigitsValue(body);
        Some(if t[0] == '-' then -v else v)
      else None
  }

  lemma {:induction false} NatToStrValue(n: nat)
    ensures DigitsValue(NatToStr(n)) == n
  {
    var r := NatToStr(n);
    if n >= 10 {
      NatToStrValue(n / 10);
      assert r[..|r| - 1] == NatToStr(n / 10);
    }
  }

  /** `str(n)` has no surrounding whitespace. */
  lemma IntToStrClean(n: int)
    ensures StripBy(IntToStr(n), IsSpace) == IntToStr(n)
  {
    var r := IntToStr(n);
    assert !IsSpace(r[0]) && !IsSpace(r[|r| - 1]);
    StripClean(r, IsSpace);
  }

  /** `int(str(n)) == n` */
  lemma ParseIntToStr(n: int)
    ensures ParsePyInt(IntToStr(n)) == Some(n)
  {
    var r := IntToStr(n);
    IntToStrClean(n);
    if n < 0 {
      assert r[1..] == NatToStr(-n);
      NatToStrValue(-n);
    } else {
      NatToStrValue(n);
    }
  }
}
