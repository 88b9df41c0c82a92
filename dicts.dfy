/** Python dictionaries with string keys, kept in insertion order as a sequence of entries.
    A Python dict never holds a key twice; `UniqueKeys` states that, and `Put` preserves it. */
module OrderedDicts {
  import opened Wrappers

  datatype Entry<V> = Entry(key: string, value: V)

  type Dict<V> = seq<Entry<V>>

  function Keys<V>(d: Dict<V>): seq<string>
  {
    seq(|d|, i requires 0 <= i < |d| => d[i].key)
  }

  predicate UniqueKeys<V>(d: Dict<V>)
  {
    forall i, j :: 0 <= i < j < |d| ==> d[i].key != d[j].key
  }

  /** The position of the first entry with key `k`. */
  function Find<V>(d: Dict<V>, k: string): (r: Option<nat>)
    ensures r.Some? ==> r.value < |d| && d[r.value].key == k &&
                        forall j :: 0 <= j < r.value ==> d[j].key != k
    ensures r.None? ==> forall j :: 0 <= j < |d| ==> d[j].key != k
  {
    if d == [] then None
    else if d[0].key == k then Some(0)
    else match Find(d[1..], k)
      case None => None
      case Some(i) => Some(i + 1)
  }

  /** `k in d` */
  predicate HasKey<V>(d: Dict<V>, k: string)
  {
    Find(d, k).Some?
  }

  /** `d.get(k)`, reading the first entry with key `k`. */
  function Get<V>(d: Dict<V>, k: string): Option<V>
  {
    match Find(d, k)
    case Some(i) => Some(d[i].value)
    case None => None
  }

  /** `d.get(k, default)` */
  function GetOr<V>(d: Dict<V>, k: string, default: V): V
  {
    match Find(d, k)
    case Some(i) => d[i].value
    case None => default
  }

  /** `k in d` holds exactly when some entry carries the key. */
  lemma HasKeyIff<V>(d: Dict<V>, k: string)
    ensures HasKey(d, k) <==> k in Keys(d)
  {
    if HasKey(d, k) {
      assert Keys(d)[Find(d, k).value] == k;
    } else {
      assert forall i :: 0 <= i < |d| ==> Keys(d)[i] != k;
    }
  }

  /** In a dict with unique keys, `Get` finds the one entry that has the key. */
  lemma GetUnique<V>(d: Dict<V>, i: nat)
    requires UniqueKeys(d) && i < |d|
    ensures Get(d, d[i].key) == Some(d[i].value)
  {
  }

  /** `d[k] = v`: overwrite the value in place when `k` is present, append otherwise. */
  function Put<V>(d: Dict<V>, k: string, v: V): (r: Dict<V>)
    ensures Get(r, k) == Some(v)
    ensures forall k' :: k' != k ==> Get(r, k') == Get(d, k')
    ensures HasKey(d, k) ==> Keys(r) == Keys(d)
    ensures !HasKey(d, k) ==> r == d + [Entry(k, v)]
    ensures UniqueKeys(d) ==> UniqueKeys(r)
  {
    match Find(d, k)
    case Some(i) =>
      var r := d[i := Entry(k, v)];
      assert forall k' :: Find(r, k') == Find(d, k') by {
        forall k' ensures Find(r, k') == Find(d, k') {
          FindSameKeys(d, r, k');
        }
      }
      r
    case None =>
      var r := d + [Entry(k, v)];
      assert r[|d|].key == k;
      assert forall j :: 0 <= j < |d| ==> r[j] == d[j];
      assert Find(r, k) == Some(|d|);
      assert forall k' :: k' != k ==> Find(r, k') == Find(d, k') by {
        forall k' | k' != k ensures Find(r, k') == Find(d, k') {
          FindAppend(d, Entry(k, v), k');
        }
      }
      r
  }

  /** `Find` reads only the keys. */
  lemma FindSameKeys<V>(d: Dict<V>, d': Dict<V>, k: string)
    requires |d| == |d'| && forall i :: 0 <= i < |d| ==> d[i].key == d'[i].key
    ensures Find(d, k) == Find(d', k)
  {
  }

  /** Appending an entry with another key does not move the first entry with `k`. */
  lemma FindAppend<V>(d: Dict<V>, x: Entry<V>, k: string)
    requires x.key != k
    ensures Find(d + [x], k) == Find(d, k)
  {
    assert forall j :: 0 <= j < |d| ==> (d + [x])[j] == d[j];
  }

  /** `d.setdefault(k, v)`: add `k` with value `v` only when `k` is absent. */
  function SetDefault<V>(d: Dict<V>, k: string, v: V): (r: Dict<V>)
    ensures Get(r, k) == if HasKey(d, k) then Get(d, k) else Some(v)
    ensures forall k' :: k' != k ==> Get(r, k') == Get(d, k')
    ensures UniqueKeys(d) ==> UniqueKeys(r)
  {
    if HasKey(d, k) then d else Put(d, k, v)
  }

  /** Assign every entry of `e`, in order, into `d`: `for k, v in e.items(): d[k] = v`. */
  function PutAll<V>(d: Dict<V>, e: Dict<V>): Dict<V>
  {
    if e == [] then d
    else
      var last := e[|e| - 1];
      Put(PutAll(d, e[..|e| - 1]), last.key, last.value)
  }

  /** The position of the last entry of `e` with key `k`. */
  function FindLast<V>(e: Dict<V>, k: string): (r: Option<nat>)
    ensures r.Some? ==> r.value < |e| && e[r.value].key == k &&
                        forall j :: r.value < j < |e| ==> e[j].key != k
    ensures r.None? ==> forall j :: 0 <= j < |e| ==> e[j].key != k
  {
    if e == [] then None
    else if e[|e| - 1].key == k then Some(|e| - 1)
    else FindLast(e[..|e| - 1], k)
  }

  /** The value of the last entry of `e` with key `k`. */
  function LastValue<V>(e: Dict<V>, k: string): Option<V>
  {
    match FindLast(e, k)
    case Some(i) => Some(e[i].value)
    case None => None
  }

  /** Assigning a sequence of entries leaves every key with the value of its last assignment,
      so a later duplicate overrides an earlier one, and other keys keep their value. */
  lemma {:induction false} PutAllGet<V>(d: Dict<V>, e: Dict<V>, k: string)
    ensures Get(PutAll(d, e), k) == match FindLast(e, k)
                                    case Some(i) => Some(e[i].value)
                                    case None => Get(d, k)
  {
    if e != [] {
      var pre := e[..|e| - 1];
      PutAllGet(d, pre, k);
      if e[|e| - 1].key != k {
        assert FindLast(e, k) == FindLast(pre, k);
      }
    }
  }

  /** Every entry after `d[k] = v` was in `d` or is the new entry. */
  lemma PutEntries<V>(d: Dict<V>, k: string, v: V)
    ensures forall x | x in Put(d, k, v) :: x in d || x == Entry(k, v)
  {
    match Find(d, k)
    case Some(i) =>
      forall x | x in Put(d, k, v) ensures x in d || x == Entry(k, v) {
        var j :| 0 <= j < |d| && Put(d, k, v)[j] == x;
        if j != i {
          assert x == d[j];
        }
      }
    case None =>
  }

  /** Every entry after assigning all of `e` into `d` was in `d` or in `e`. */
  lemma {:induction false} PutAllEntries<V>(d: Dict<V>, e: Dict<V>)
    ensures forall x | x in PutAll(d, e) :: x in d || x in e
  {
    if e != [] {
      var pre := e[..|e| - 1];
      PutAllEntries(d, pre);
      PutEntries(PutAll(d, pre), e[|e| - 1].key, e[|e| - 1].value);
      assert forall x | x in pre :: x in e;
    }
  }

  /** Assignment keeps the keys unique. */
  lemma {:induction false} PutAllUnique<V>(d: Dict<V>, e: Dict<V>)
    requires UniqueKeys(d)
    ensures UniqueKeys(PutAll(d, e))
  {
    if e != [] {
      PutAllUnique(d, e[..|e| - 1]);
    }
  }

  /** Assigning entries whose keys are all new, and pairwise distinct, just appends them. */
  lemma {:induction false} PutAllFresh<V>(d: Dict<V>, e: Dict<V>)
    requires UniqueKeys(d + e)
    ensures PutAll(d, e) == d + e
  {
    if e != [] {
      var pre := e[..|e| - 1];
      var last := e[|e| - 1];
      assert d + e == (d + pre) + [last];
      assert UniqueKeys(d + pre) by {
        forall i, j | 0 <= i < j < |d + pre| ensures (d + pre)[i].key != (d + pre)[j].key {
          assert (d + pre)[i] == (d + e)[i] && (d + pre)[j] == (d + e)[j];
        }
      }
      PutAllFresh(d, pre);
      assert !HasKey(d + pre, last.key) by {
        forall j | 0 <= j < |d + pre| ensures (d + pre)[j].key != last.key {
          assert (d + pre)[j] == (d + e)[j];
          assert last == (d + e)[|d + e| - 1];
          assert j < |d + e| - 1;
        }
      }
    }
  }

  /** Assigning one more entry is one more `Put`. */
  lemma PutAllSnoc<V>(d: Dict<V>, e: Dict<V>, x: Entry<V>)
    ensures PutAll(d, e + [x]) == Put(PutAll(d, e), x.key, x.value)
  {
    assert (e + [x])[..|e|] == e;
  }
}
