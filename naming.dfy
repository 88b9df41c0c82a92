/** File names: the sanitised user name that prefixes every download, and the choice of a name
    that does not collide with the files already in a download directory. */
module Naming {
  import opened Wrappers
  import opened Seqs
  import opened Strings

  /** The characters kept in a safe user name: `c.isalnum() or c in ("_", "-", ".")`. Python's
      `isalnum` is Unicode-aware, so it is a parameter. */
  predicate Allowed(c: char, isAlnum: char -> bool)
  {
    isAlnum(c) || c == '_' || c == '-' || c == '.'
  }

  /** The characters stripped from both ends: `strip("._-")`. */
  predicate Edge(c: char)
  {
    c == '.' || c == '_' || c == '-'
  }

  /** A name made of allowed characters that does not start or end with `.`, `_` or `-`. */
  predicate Safe(name: string, isAlnum: char -> bool)
  {
    (forall i :: 0 <= i < |name| ==> Allowed(name[i], isAlnum)) &&
    (name == [] || (!Edge(name[0]) && !Edge(name[|name| - 1])))
  }

  /** `safe_username`: the stripped name, restricted to allowed characters, with `.`, `_` and
      `-` removed from both ends. The result is safe, and it is what is left of the allowed
      characters of the stripped name, in order, once a run of `.`, `_` and `-` is cut from
      each end. */
  function SafeUsername(username: string, isAlnum: char -> bool): (r: string)
    ensures Safe(r, isAlnum)
    ensures EdgeTrimmed(r, Filter(AllowedBy(isAlnum), Strip(username)))
  {
    var kept := Filter(AllowedBy(isAlnum), Strip(username));
    StripByIn(kept, Edge);
    var r := StripBy(kept, Edge);
    assert EdgeTrimmed(r, kept);
    r
  }

  /** `r` is `kept` with a run of `.`, `_` and `-` cut from each end. */
  ghost predicate EdgeTrimmed(r: string, kept: string)
  {
    exists i, j :: 0 <= i <= j <= |kept| && r == kept[i..j] &&
      (forall m :: 0 <= m < i ==> Edge(kept[m])) &&
      (forall m :: j <= m < |kept| ==> Edge(kept[m]))
  }

  /** `Allowed` as a filter condition. */
  function AllowedBy(isAlnum: char -> bool): char -> bool
  {
    c => Allowed(c, isAlnum)
  }

  /** A name that is already safe comes back unchanged, since `isalnum` holds for no
      whitespace. */
  lemma SafeUsernameKeepsSafe(name: string, isAlnum: char -> bool)
    requires forall c :: IsSpace(c) ==> !isAlnum(c)
    requires Safe(name, isAlnum)
    ensures SafeUsername(name, isAlnum) == name
  {
    StripClean(name, IsSpace);
    FilterAll(AllowedBy(isAlnum), name);
    StripClean(name, Edge);
  }

  /** Sanitising a safe name changes nothing. */
  lemma SafeUsernameIdempotent(username: string, isAlnum: char -> bool)
    requires forall c :: IsSpace(c) ==> !isAlnum(c)
    ensures SafeUsername(SafeUsername(username, isAlnum), isAlnum) == SafeUsername(username, isAlnum)
  {
    SafeUsernameKeepsSafe(SafeUsername(username, isAlnum), isAlnum);
  }

  /** A safe name holds no path separator, since neither `/` nor `\` is alphanumeric. */
  lemma SafeUsernameNoSeparator(username: string, isAlnum: char -> bool)
    requires !isAlnum('/') && !isAlnum('\\')
    ensures '/' !in SafeUsername(username, isAlnum) && '\\' !in SafeUsername(username, isAlnum)
  {
    var r := SafeUsername(username, isAlnum);
    assert !Allowed('/', isAlnum) && !Allowed('\\', isAlnum);
    assert forall c | c in r :: Allowed(c, isAlnum);
  }

  /** `name` matches the `glob` pattern `prefix*ext`. */
  predicate Matches(prefix: string, ext: string, name: string)
  {
    |prefix| + |ext| <= |name| && StartsWith(name, prefix) && EndsWith(name, ext)
  }

  /** `name[:-len(ext)]`, which is empty for an empty `ext`. */
  function DropSuffix(name: string, ext: string): string
  {
    if |ext| == 0 || |ext| >= |name| then "" else name[..|name| - |ext|]
  }

  /** The number a matching name stands for: 0 for the bare `prefix + ext`, otherwise the
      integer after the last `_` of a name starting with `prefix_`; `None` when neither applies
      or the text is not an integer. */
  function NumberOf(prefix: string, ext: string, name: string): Option<int>
  {
    if name == prefix + ext then Some(0)
    else
      var base := DropSuffix(name, ext);
      if StartsWith(base, prefix + "_") then
        var parts := Split(base, '_');
        ParsePyInt(parts[|parts| - 1])
      else None
  }

  /** The number a directory entry contributes, if it matches the pattern at all. */
  function NumberAt(prefix: string, ext: string, name: string): Option<int>
  {
    if Matches(prefix, ext, name) then NumberOf(prefix, ext, name) else None
  }

  /** The numbers `num` assigns to the entries of `listing`, in listing order: with
      `num = Pattern(prefix, ext)` this is `existing_numbers`. */
  function Scan(listing: seq<string>, num: string -> Option<int>): seq<int>
  {
    if listing == [] then []
    else
      var init := Scan(listing[..|listing| - 1], num);
      var n := num(listing[|listing| - 1]);
      if n.Some? then init + [n.value] else init
  }

  /** Every number an entry stands for is scanned, and nothing else is. */
  lemma {:induction false} ScanExactly(listing: seq<string>, num: string -> Option<int>)
    ensures forall j :: 0 <= j < |listing| && num(listing[j]).Some? ==> num(listing[j]).value in Scan(listing, num)
    ensures forall m | m in Scan(listing, num) :: exists j :: 0 <= j < |listing| && num(listing[j]) == Some(m)
  {
    if listing != [] {
      var init := listing[..|listing| - 1];
      ScanExactly(init, num);
      assert forall j :: 0 <= j < |init| ==> init[j] == listing[j];
    }
  }

  /** `max(xs)` */
  function Max(xs: seq<int>): (m: int)
    requires xs != []
    ensures m in xs && forall x | x in xs :: x <= m
  {
    if |xs| == 1 then xs[0]
    else
      var rest := Max(xs[..|xs| - 1]);
      assert forall x | x in xs :: x in xs[..|xs| - 1] || x == xs[|xs| - 1];
      if rest < xs[|xs| - 1] then xs[|xs| - 1] else rest
  }

  /** `(max(existing_numbers) + 1) if existing_numbers else 0` */
  function NextOf(listing: seq<string>, num: string -> Option<int>): int
  {
    var ns := Scan(listing, num);
    if ns == [] then 0 else Max(ns) + 1
  }

  /** No entry standing for a number gives number 0. */
  lemma NextOfZero(listing: seq<string>, num: string -> Option<int>)
    ensures (forall j :: 0 <= j < |listing| ==> num(listing[j]).None?) ==> NextOf(listing, num) == 0
  {
    ScanExactly(listing, num);
  }

  /** The number chosen is larger than every number an entry stands for. */
  lemma NextOfAbove(listing: seq<string>, num: string -> Option<int>)
    ensures forall j :: 0 <= j < |listing| && num(listing[j]).Some? ==> num(listing[j]).value < NextOf(listing, num)
  {
    ScanExactly(listing, num);
  }

  /** Once some entry stands for a number, the number chosen is one more than that of an
      entry: the largest. */
  lemma NextOfAttained(listing: seq<string>, num: string -> Option<int>)
    ensures (exists j :: 0 <= j < |listing| && num(listing[j]).Some?) ==>
      exists j :: 0 <= j < |listing| && num(listing[j]) == Some(NextOf(listing, num) - 1)
  {
    ScanExactly(listing, num);
  }

  /** The number chosen depends only on which names the directory holds, not on the order
      in which `glob` lists them. */
  lemma NextOfOrderFree(a: seq<string>, b: seq<string>, num: string -> Option<int>)
    requires forall x :: x in a <==> x in b
    ensures NextOf(a, num) == NextOf(b, num)
  {
    var na, nb := NextOf(a, num), NextOf(b, num);
    NextOfZero(a, num);
    NextOfZero(b, num);
    NextOfAbove(a, num);
    NextOfAbove(b, num);
    NextOfAttained(a, num);
    NextOfAttained(b, num);
    if exists j :: 0 <= j < |a| && num(a[j]).Some? {
      var j :| 0 <= j < |a| && num(a[j]) == Some(na - 1);
      assert a[j] in b;
      var k :| 0 <= k < |b| && b[k] == a[j];
      var j' :| 0 <= j' < |b| && num(b[j']) == Some(nb - 1);
      assert b[j'] in a;
      var k' :| 0 <= k' < |a| && a[k'] == b[j'];
    } else {
      forall k | 0 <= k < |b| ensures num(b[k]).None? {
        assert b[k] in a;
        var j :| 0 <= j < |a| && a[j] == b[k];
      }
    }
  }

  /** The number each directory entry stands for under the pattern `prefix*ext`. */
  function Pattern(prefix: string, ext: string): string -> Option<int>
  {
    name => NumberAt(prefix, ext, name)
  }

  /** `n` of `_next_file_path` for the directory `listing`. */
  function NextNumber(prefix: string, ext: string, listing: seq<string>): int
  {
    NextOf(listing, Pattern(prefix, ext))
  }

  /** `f"{prefix}{'' if n == 0 else f'_{n}'}{ext}"` */
  function NameFor(prefix: string, ext: string, n: int): string
  {
    prefix + (if n == 0 then "" else "_" + IntToStr(n)) + ext
  }

  /** The largest element found by a scan is the maximum. */
  lemma MaxUnique(xs: seq<int>, m: int)
    requires xs != []
    requires m in xs && forall x | x in xs :: x <= m
    ensures m == Max(xs)
  {
  }

  /** `max(xs)`, by a loop. */
  method MaxOf(xs: seq<int>) returns (m: int)
    requires xs != []
    ensures m == Max(xs)
  {
    m := xs[0];
    var i := 1;
    while i < |xs|
      invariant 1 <= i <= |xs|
      invariant m in xs[..i] && forall j :: 0 <= j < i ==> xs[j] <= m
    {
      if xs[i] > m {
        m := xs[i];
      }
      i := i + 1;
    }
    assert xs[..i] == xs;
    MaxUnique(xs, m);
  }

  /** `_next_file_path`: the entries of the directory matching `prefix*ext` are scanned in
      listing order. */
  method NextFilePath(prefix: string, ext: string, listing: seq<string>) returns (name: string)
    ensures name == NameFor(prefix, ext, NextNumber(prefix, ext, listing))
  {
    var numbers: seq<int> := [];
    var i := 0;
    while i < |listing|
      invariant 0 <= i <= |listing|
      invariant numbers == Scan(listing[..i], Pattern(prefix, ext))
    {
      var p := listing[i];
      assert listing[..i + 1][..i] == listing[..i];
      if Matches(prefix, ext, p) {
        var num := NumberOf(prefix, ext, p);
        if num.Some? {
          numbers := numbers + [num.value];
        }
      }
      i := i + 1;
    }
    assert listing[..i] == listing;
    var n := 0;
    if numbers != [] {
      var top := MaxOf(numbers);
      n := top + 1;
    }
    name := NameFor(prefix, ext, n);
  }

  /** The name chosen for number `n` matches the pattern and stands for `n` again. */
  lemma NameForNumber(prefix: string, ext: string, n: int)
    requires ext != ""
    ensures Matches(prefix, ext, NameFor(prefix, ext, n))
    ensures NumberOf(prefix, ext, NameFor(prefix, ext, n)) == Some(n)
  {
    var name := NameFor(prefix, ext, n);
    if n == 0 {
      assert name == prefix + ext;
    } else {
      var digits := IntToStr(n);
      var base := prefix + "_" + digits;
      assert name == base + ext;
      assert name[..|prefix|] == prefix;
      assert name[|name| - |ext|..] == ext;
      assert name != prefix + ext;
      assert DropSuffix(name, ext) == base;
      assert base[..|prefix + "_"|] == prefix + "_";
      SplitAppend(prefix, '_', digits);
      SplitNone(digits, '_');
      ParseIntToStr(n);
    }
  }

  /** The chosen name is never one of the names already in the directory. */
  lemma NextNameFresh(prefix: string, ext: string, listing: seq<string>)
    requires ext != ""
    ensures NameFor(prefix, ext, NextNumber(prefix, ext, listing)) !in listing
  {
    NameForNumber(prefix, ext, NextNumber(prefix, ext, listing));
    NextOfAbove(listing, Pattern(prefix, ext));
  }

  /** Saving a file under the chosen name moves the next choice on by exactly one, so
      successive downloads of one kind into one directory are numbered consecutively. */
  lemma NextAfterSave(prefix: string, ext: string, listing: seq<string>)
    requires ext != ""
    ensures NextNumber(prefix, ext, listing + [NameFor(prefix, ext, NextNumber(prefix, ext, listing))]) ==
      NextNumber(prefix, ext, listing) + 1
  {
    var n := NextNumber(prefix, ext, listing);
    var longer := listing + [NameFor(prefix, ext, n)];
    NameForNumber(prefix, ext, n);
    assert longer[..|listing|] == listing;
    var num := Pattern(prefix, ext);
    var ns := Scan(listing, num);
    assert Scan(longer, num) == ns + [n];
    ScanExactly(listing, num);
    NextOfAbove(listing, num);
    assert forall x | x in ns + [n] :: x <= n by {
      forall x | x in ns ensures x < n {
        var j :| 0 <= j < |listing| && num(listing[j]) == Some(x);
      }
    }
    MaxUnique(ns + [n], n);
  }

  /** An empty directory gets the bare name, then `_1`, then `_2`. */
  lemma FirstNames(prefix: string, ext: string)
    requires ext != ""
    ensures NextNumber(prefix, ext, []) == 0
    ensures NextNumber(prefix, ext, [NameFor(prefix, ext, 0)]) == 1
    ensures NextNumber(prefix, ext, [NameFor(prefix, ext, 0), NameFor(prefix, ext, 1)]) == 2
  {
    NextAfterSave(prefix, ext, []);
    NextAfterSave(prefix, ext, [NameFor(prefix, ext, 0)]);
    assert [NameFor(prefix, ext, 0)] + [NameFor(prefix, ext, 1)] == [NameFor(prefix, ext, 0), NameFor(prefix, ext, 1)];
  }
}
