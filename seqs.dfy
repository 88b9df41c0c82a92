/** Sequence helpers: list comprehensions with a condition, slicing and counting. */
module Seqs {
  import opened Wrappers

  /** `[x for x in s if f(x)]` */
  function Filter<T>(f: T -> bool, s: seq<T>): (r: seq<T>)
    ensures |r| <= |s|
    ensures forall x | x in r :: x in s && f(x)
    ensures forall x | x in s && f(x) :: x in r
  {
    if s == [] then [] else (if f(s[0]) then [s[0]] else []) + Filter(f, s[1..])
  }

  lemma {:induction false} FilterConcat<T>(f: T -> bool, a: seq<T>, b: seq<T>)
    ensures Filter(f, a + b) == Filter(f, a) + Filter(f, b)
  {
    if a == [] {
      assert a + b == b;
    } else {
      assert (a + b)[1..] == a[1..] + b;
      FilterConcat(f, a[1..], b);
    }
  }

  /** Filtering keeps a sequence whose every element passes. */
  lemma {:induction false} FilterAll<T>(f: T -> bool, s: seq<T>)
    requires forall x :: x in s ==> f(x)
    ensures Filter(f, s) == s
  {
    if s != [] {
      FilterAll(f, s[1..]);
    }
  }

  /** Filtering drops a sequence whose every element fails. */
  lemma {:induction false} FilterNone<T>(f: T -> bool, s: seq<T>)
    requires forall x :: x in s ==> !f(x)
    ensures Filter(f, s) == []
  {
    if s != [] {
      FilterNone(f, s[1..]);
    }
  }

  /** The first element that `Filter` keeps is the first element of `s` that passes. */
  lemma {:induction false} FilterHead<T>(f: T -> bool, s: seq<T>)
    requires Filter(f, s) != []
    ensures exists i :: 0 <= i < |s| && s[i] == Filter(f, s)[0] && f(s[i]) &&
                        forall j :: 0 <= j < i ==> !f(s[j])
  {
    if f(s[0]) {
      assert s[0] == Filter(f, s)[0];
    } else {
      FilterHead(f, s[1..]);
      var i :| 0 <= i < |s[1..]| && s[1..][i] == Filter(f, s[1..])[0] && f(s[1..][i]) &&
               forall j :: 0 <= j < i ==> !f(s[1..][j]);
      assert s[i + 1] == Filter(f, s)[0];
      forall j | 0 <= j < i + 1 ensures !f(s[j]) {
        if j > 0 { assert s[j] == s[1..][j - 1]; }
      }
    }
  }

  /** `s[:n]` for a non-negative `n`. */
  function Take<T>(s: seq<T>, n: nat): (r: seq<T>)
    ensures |r| == if n <= |s| then n else |s|
    ensures forall i :: 0 <= i < |r| ==> r[i] == s[i]
  {
    if n <= |s| then s[..n] else s
  }

  /** The first element, if any. */
  function First<T>(s: seq<T>): (r: Option<T>)
    ensures r.Some? <==> s != []
    ensures r.Some? ==> r.value == s[0]
  {
    if s == [] then None else Some(s[0])
  }

  /** The number of elements for which `f` holds. */
  function Count<T>(f: T -> bool, s: seq<T>): (n: nat)
    ensures n <= |s|
  {
    if s == [] then 0 else (if f(s[|s| - 1]) then 1 else 0) + Count(f, s[..|s| - 1])
  }

  /** The values `f` gives for the elements of `s`, in order, skipping `None`. */
  function Collect<T, U>(f: T -> Option<U>, s: seq<T>): seq<U>
  {
    if s == [] then []
    else
      var init := Collect(f, s[..|s| - 1]);
      match f(s[|s| - 1])
      case None => init
      case Some(y) => init + [y]
  }

  /** When `f` gives a value for every element, nothing is skipped. */
  lemma {:induction false} CollectAll<T, U>(f: T -> Option<U>, s: seq<T>, d: seq<U>)
    requires |s| == |d| && forall i :: 0 <= i < |s| ==> f(s[i]) == Some(d[i])
    ensures Collect(f, s) == d
  {
    if s != [] {
      var n := |s| - 1;
      assert forall i :: 0 <= i < n ==> s[..n][i] == s[i] && d[..n][i] == d[i];
      CollectAll(f, s[..n], d[..n]);
      assert d == d[..n] + [d[n]];
    }
  }

  /** One more element adds the value `f` gives for it, if any. */
  lemma CollectSnoc<T, U>(f: T -> Option<U>, s: seq<T>, x: T)
    ensures Collect(f, s + [x]) == Collect(f, s) + match f(x) case None => [] case Some(y) => [y]
  {
    assert (s + [x])[..|s|] == s;
  }

  /** One more element of a prefix. */
  lemma PrefixSnoc<T>(s: seq<T>, i: nat)
    requires i < |s|
    ensures s[..i + 1] == s[..i] + [s[i]] && s[..i + 1][..i] == s[..i]
  {
  }
}
