/** Python's ordering of strings (code point by code point, a proper prefix first) and `sorted()`
    on lists and sets of strings. */
module Sorting {

  /** `a < b` on Python strings. */
  predicate Less(a: string, b: string)
  {
    if a == [] then b != []
    else if b == [] then false
    else if a[0] != b[0] then a[0] < b[0]
    else Less(a[1..], b[1..])
  }

  lemma {:induction false} LessIrreflexive(a: string)
    ensures !Less(a, a)
  {
    if a != [] {
      LessIrreflexive(a[1..]);
    }
  }

  lemma {:induction false} LessTransitive(a: string, b: string, c: string)
    requires Less(a, b) && Less(b, c)
    ensures Less(a, c)
  {
    if a != [] && b != [] && c != [] && a[0] == b[0] && b[0] == c[0] {
      LessTransitive(a[1..], b[1..], c[1..]);
    }
  }

  lemma {:induction false} LessTotal(a: string, b: string)
    ensures a == b || Less(a, b) || Less(b, a)
  {
    if a != [] && b != [] && a[0] == b[0] {
      LessTotal(a[1..], b[1..]);
      if a[1..] == b[1..] {
        assert a == [a[0]] + a[1..] && b == [b[0]] + b[1..];
      }
    }
  }

  lemma LessAsymmetric(a: string, b: string)
    requires Less(a, b)
    ensures !Less(b, a)
  {
    if Less(b, a) {
      LessTransitive(a, b, a);
      LessIrreflexive(a);
    }
  }

  /** Every element is smaller than every later one (so no element repeats). */
  ghost predicate StrictlySorted(s: seq<string>)
  {
    forall i, j :: 0 <= i < j < |s| ==> Less(s[i], s[j])
  }

  /** No element is smaller than an earlier one. */
  ghost predicate Sorted(s: seq<string>)
  {
    forall i, j :: 0 <= i < j < |s| ==> !Less(s[j], s[i])
  }

  /** Insert `x` before the first element that is not smaller than `x`. */
  function Insert(s: seq<string>, x: string): (r: seq<string>)
    ensures multiset(r) == multiset(s) + multiset{x}
  {
    if s == [] || !Less(s[0], x) then [x] + s
    else
      assert s == [s[0]] + s[1..];
      [s[0]] + Insert(s[1..], x)
  }

  lemma {:induction false} InsertSorted(s: seq<string>, x: string)
    requires Sorted(s)
    ensures Sorted(Insert(s, x))
  {
    if s == [] || !Less(s[0], x) {
      if s != [] {
        forall y | y in multiset(s) ensures !Less(y, x) {
          var j :| 0 <= j < |s| && s[j] == y;
          if Less(y, x) {
            LessTotal(s[0], y);
            if Less(s[0], y) { LessTransitive(s[0], y, x); }
          }
        }
      }
      SortedCons(x, s);
    } else {
      SortedTail(s);
      InsertSorted(s[1..], x);
      var rest := Insert(s[1..], x);
      forall y | y in multiset(rest) ensures !Less(y, s[0]) {
        if y == x {
          LessAsymmetric(s[0], x);
        } else {
          assert y in multiset(s[1..]);
          var j :| 0 <= j < |s[1..]| && s[1..][j] == y;
          assert s[j + 1] == y;
        }
      }
      SortedCons(s[0], rest);
    }
  }

  lemma {:induction false} InsertStrict(s: seq<string>, x: string)
    requires StrictlySorted(s) && x !in s
    ensures StrictlySorted(Insert(s, x))
  {
    if s == [] || !Less(s[0], x) {
      if s != [] {
        LessTotal(x, s[0]);
        forall j | 0 < j < |s| ensures Less(x, s[j]) {
          LessTransitive(x, s[0], s[j]);
        }
      }
      SortedCons(x, s);
    } else {
      InsertStrict(s[1..], x);
      var rest := Insert(s[1..], x);
      forall j | 0 <= j < |rest| ensures Less(s[0], rest[j]) {
        var y := rest[j];
        assert y in multiset(rest);
        if y != x {
          assert y in multiset(s[1..]);
          var m :| 0 <= m < |s[1..]| && s[1..][m] == y;
          assert s[m + 1] == y;
        }
      }
      SortedCons(s[0], rest);
    }
  }

  /** Sortedness of `[x] + s` from that of `s` and `x` being below every element. */
  lemma SortedCons(x: string, s: seq<string>)
    ensures Sorted(s) && (forall y | y in multiset(s) :: !Less(y, x)) ==> Sorted([x] + s)
    ensures StrictlySorted(s) && (forall j :: 0 <= j < |s| ==> Less(x, s[j])) ==> StrictlySorted([x] + s)
  {
    if Sorted(s) && (forall y | y in multiset(s) :: !Less(y, x)) {
      forall j | 0 <= j < |s| ensures !Less(s[j], x) {
        assert s[j] in multiset(s);
      }
    }
  }

  /** `sorted(xs)` for a list of strings. */
  function SortSeq(xs: seq<string>): (r: seq<string>)
    ensures Sorted(r) && multiset(r) == multiset(xs)
  {
    if xs == [] then []
    else
      assert xs == xs[..|xs| - 1] + [xs[|xs| - 1]];
      var pre := SortSeq(xs[..|xs| - 1]);
      InsertSorted(pre, xs[|xs| - 1]);
      Insert(pre, xs[|xs| - 1])
  }

  /** Two sorted permutations of each other are equal: `sorted` has one possible answer. */
  lemma {:induction false} SortedUnique(a: seq<string>, b: seq<string>)
    requires Sorted(a) && Sorted(b) && multiset(a) == multiset(b)
    ensures a == b
  {
    if a != [] {
      assert |b| == |a| by { assert |multiset(b)| == |multiset(a)|; }
      assert a[0] == b[0] by {
        assert a[0] in multiset(b);
        assert b[0] in multiset(a);
        var i :| 0 <= i < |b| && b[i] == a[0];
        var j :| 0 <= j < |a| && a[j] == b[0];
        if a[0] != b[0] {
          LessTotal(a[0], b[0]);
        }
      }
      assert a == [a[0]] + a[1..] && b == [b[0]] + b[1..];
      assert multiset(a[1..]) == multiset(b[1..]) by {
        assert multiset(a) == multiset{a[0]} + multiset(a[1..]);
        assert multiset(b) == multiset{b[0]} + multiset(b[1..]);
        forall x ensures multiset(a[1..])[x] == multiset(b[1..])[x] {
          assert multiset(a)[x] == multiset(b)[x];
        }
      }
      SortedTail(a);
      SortedTail(b);
      SortedUnique(a[1..], b[1..]);
    }
  }

  lemma SortedTail(s: seq<string>)
    requires Sorted(s) && s != []
    ensures Sorted(s[1..])
  {
    forall i, j | 0 <= i < j < |s| - 1 ensures !Less(s[1..][j], s[1..][i]) {
      assert s[1..][j] == s[j + 1] && s[1..][i] == s[i + 1];
    }
  }

  /** A sorted list is its own `sorted()`. */
  lemma SortSeqSorted(xs: seq<string>)
    requires Sorted(xs)
    ensures SortSeq(xs) == xs
  {
    SortedUnique(SortSeq(xs), xs);
  }

  lemma StrictlySortedIsSorted(s: seq<string>)
    requires StrictlySorted(s)
    ensures Sorted(s)
  {
    forall i, j | 0 <= i < j < |s| ensures !Less(s[j], s[i]) {
      LessAsymmetric(s[i], s[j]);
    }
  }

  /** A strictly sorted list repeats nothing, so its length is the number of its elements. */
  lemma {:induction false} StrictlySortedCard(s: seq<string>)
    requires StrictlySorted(s)
    ensures |set x | x in s| == |s|
  {
    if s != [] {
      StrictlySortedCard(s[1..]);
      assert (set x | x in s) == {s[0]} + (set x | x in s[1..]);
      assert s[0] !in s[1..] by {
        forall j | 0 <= j < |s[1..]| ensures s[1..][j] != s[0] {
          assert Less(s[0], s[j + 1]);
          LessIrreflexive(s[0]);
        }
      }
    }
  }

  /** Every finite set of strings has a strictly sorted enumeration. */
  lemma {:induction false} SortedExists(s: set<string>)
    ensures exists r :: StrictlySorted(r) && (forall x :: x in r <==> x in s)
    decreases |s|
  {
    if s == {} {
      assert StrictlySorted([]) && forall x :: x in [] <==> x in s;
    } else {
      var x :| x in s;
      SortedExists(s - {x});
      var r :| StrictlySorted(r) && (forall y :: y in r <==> y in s - {x});
      var r' := Insert(r, x);
      InsertStrict(r, x);
      assert forall y :: y in r' <==> y in multiset(r');
      assert forall y :: y in r <==> y in multiset(r);
      assert StrictlySorted(r') && (forall y :: y in r' <==> y in s);
    }
  }

  /** `sorted(s)` for a set of strings: its elements, smallest first. */
  ghost function SortedOf(s: set<string>): (r: seq<string>)
    ensures StrictlySorted(r) && (forall x :: x in r <==> x in s) && |r| == |s|
  {
    SortedExists(s);
    var r :| StrictlySorted(r) && (forall x :: x in r <==> x in s);
    StrictlySortedCard(r);
    assert (set x | x in r) == s;
    r
  }

  /** Two strictly sorted enumerations of one set are equal. */
  lemma StrictlySortedUnique(a: seq<string>, b: seq<string>)
    requires StrictlySorted(a) && StrictlySorted(b) && forall x :: x in a <==> x in b
    ensures a == b
  {
    StrictlySortedIsSorted(a);
    StrictlySortedIsSorted(b);
    DistinctMultiset(a);
    DistinctMultiset(b);
    assert multiset(a) == multiset(b) by {
      forall x ensures multiset(a)[x] == multiset(b)[x] {
        if x in a { assert x in b; }
      }
    }
    SortedUnique(a, b);
  }

  /** In a strictly sorted list every element occurs once. */
  lemma {:induction false} DistinctMultiset(s: seq<string>)
    requires StrictlySorted(s)
    ensures forall x :: multiset(s)[x] == if x in s then 1 else 0
  {
    if s != [] {
      DistinctMultiset(s[1..]);
      assert s == [s[0]] + s[1..];
      assert s[0] !in s[1..] by {
        forall j | 0 <= j < |s[1..]| ensures s[1..][j] != s[0] {
          assert Less(s[0], s[j + 1]);
          LessIrreflexive(s[0]);
        }
      }
    }
  }

  /** `sorted(s)`: iterate the set and insert each element into a sorted list. */
  method SortSet(s: set<string>) returns (r: seq<string>)
    ensures r == SortedOf(s)
  {
    r := [];
    var rest := s;
    while rest != {}
      invariant rest <= s
      invariant StrictlySorted(r)
      invariant forall x :: x in r <==> x in s && x !in rest
      decreases |rest|
    {
      var x :| x in rest;
      var r' := Insert(r, x);
      InsertStrict(r, x);
      assert forall y :: y in r' <==> y in multiset(r');
      assert forall y :: y in r <==> y in multiset(r);
      r := r';
      rest := rest - {x};
    }
    StrictlySortedUnique(r, SortedOf(s));
  }
}
