/** JSON values as the decoded API response presents them to Python: dicts (ordered, string
    keys), lists, strings, integers, booleans and `None`. */
module Json {
  import opened Wrappers
  import opened OrderedDicts
  import opened Strings

  datatype Json =
    | Null
    | Bool(b: bool)
    | Int(i: int)
    | Str(s: string)
    | Arr(items: seq<Json>)
    | Obj(members: Dict<Json>)

  /** `bool(v)` */
  predicate Truthy(v: Json)
  {
    match v
    case Null => false
    case Bool(b) => b
    case Int(i) => i != 0
    case Str(s) => s != ""
    case Arr(xs) => xs != []
    case Obj(ms) => ms != []
  }

  /** `k in v` for a dict `v`. */
  predicate HasMember(v: Json, k: string)
  {
    v.Obj? && HasKey(v.members, k)
  }

  /** `v.get(k)` for a dict `v`. */
  function Member(v: Json, k: string): Option<Json>
  {
    if v.Obj? then Get(v.members, k) else None
  }

  /** `v.get(k, default)` for a dict `v`. */
  function MemberOr(v: Json, k: string, default: Json): Json
  {
    match Member(v, k)
    case Some(w) => w
    case None => default
  }

  /** A dict that has a member is truthy, and `get` finds exactly the members that exist. */
  lemma MemberTruthy(v: Json, k: string)
    ensures Member(v, k).Some? <==> HasMember(v, k)
    ensures HasMember(v, k) ==> Truthy(v)
  {
  }

  /** `int(v)`; `None` stands for the `TypeError` or `ValueError` Python raises. */
  function PyInt(v: Json): Option<int>
  {
    match v
    case Int(i) => Some(i)
    case Bool(b) => Some(if b then 1 else 0)
    case Str(s) => ParsePyInt(s)
    case _ => None
  }

  /** Every value of the tree, each node before its children, children left to right. */
  function PreOrder(v: Json): seq<Json>
  {
    match v
    case Obj(ms) => [v] + PreOrderEntries(ms)
    case Arr(xs) => [v] + PreOrderItems(xs)
    case _ => [v]
  }

  function PreOrderEntries(ms: Dict<Json>): seq<Json>
  {
    if ms == [] then [] else PreOrder(ms[0].value) + PreOrderEntries(ms[1..])
  }

  function PreOrderItems(xs: seq<Json>): seq<Json>
  {
    if xs == [] then [] else PreOrder(xs[0]) + PreOrderItems(xs[1..])
  }

  /** One step down the tree: into the member at a position of a dict, or an item of a list. */
  datatype Step = Field(index: nat) | Item(index: nat)

  /** The value reached from `v` along a path, if the path exists. */
  ghost function At(v: Json, p: seq<Step>): Option<Json>
    decreases p
  {
    if p == [] then Some(v)
    else match p[0]
      case Field(i) => if v.Obj? && i < |v.members| then At(v.members[i].value, p[1..]) else None
      case Item(i) => if v.Arr? && i < |v.items| then At(v.items[i], p[1..]) else None
  }

  lemma PreOrderEntriesIn(ms: Dict<Json>, w: Json)
    ensures w in PreOrderEntries(ms) <==> exists i :: 0 <= i < |ms| && w in PreOrder(ms[i].value)
  {
    if ms != [] {
      PreOrderEntriesIn(ms[1..], w);
      if exists i :: 0 <= i < |ms| && w in PreOrder(ms[i].value) {
        var i :| 0 <= i < |ms| && w in PreOrder(ms[i].value);
        if i > 0 { assert ms[1..][i - 1] == ms[i]; }
      }
      if exists i :: 0 <= i < |ms[1..]| && w in PreOrder(ms[1..][i].value) {
        var i :| 0 <= i < |ms[1..]| && w in PreOrder(ms[1..][i].value);
        assert ms[i + 1] == ms[1..][i];
      }
    }
  }

  lemma PreOrderItemsIn(xs: seq<Json>, w: Json)
    ensures w in PreOrderItems(xs) <==> exists i :: 0 <= i < |xs| && w in PreOrder(xs[i])
  {
    if xs != [] {
      PreOrderItemsIn(xs[1..], w);
      if exists i :: 0 <= i < |xs| && w in PreOrder(xs[i]) {
        var i :| 0 <= i < |xs| && w in PreOrder(xs[i]);
        if i > 0 { assert xs[1..][i - 1] == xs[i]; }
      }
      if exists i :: 0 <= i < |xs[1..]| && w in PreOrder(xs[1..][i]) {
        var i :| 0 <= i < |xs[1..]| && w in PreOrder(xs[1..][i]);
        assert xs[i + 1] == xs[1..][i];
      }
    }
  }

  /** The pre-order holds exactly the values reachable from the root. */
  lemma {:induction false} PreOrderReachable(v: Json, w: Json)
    ensures w in PreOrder(v) <==> exists p :: At(v, p) == Some(w)
  {
    if w in PreOrder(v) {
      PreOrderHasPath(v, w);
    }
    if exists p :: At(v, p) == Some(w) {
      var p :| At(v, p) == Some(w);
      PathInPreOrder(v, p, w);
    }
  }

  lemma {:induction false} PreOrderHasPath(v: Json, w: Json)
    requires w in PreOrder(v)
    ensures exists p :: At(v, p) == Some(w)
  {
    if w == v {
      assert At(v, []) == Some(w);
    } else {
      match v
      case Obj(ms) =>
        PreOrderEntriesIn(ms, w);
        var i :| 0 <= i < |ms| && w in PreOrder(ms[i].value);
        PreOrderHasPath(ms[i].value, w);
        var p :| At(ms[i].value, p) == Some(w);
        assert ([Field(i)] + p)[1..] == p;
        assert At(v, [Field(i)] + p) == Some(w);
      case Arr(xs) =>
        PreOrderItemsIn(xs, w);
        var i :| 0 <= i < |xs| && w in PreOrder(xs[i]);
        PreOrderHasPath(xs[i], w);
        var p :| At(xs[i], p) == Some(w);
        assert ([Item(i)] + p)[1..] == p;
        assert At(v, [Item(i)] + p) == Some(w);
    }
  }

  lemma {:induction false} PathInPreOrder(v: Json, p: seq<Step>, w: Json)
    requires At(v, p) == Some(w)
    ensures w in PreOrder(v)
    decreases p
  {
    if p != [] {
      match p[0]
      case Field(i) =>
        PathInPreOrder(v.members[i].value, p[1..], w);
        PreOrderEntriesIn(v.members, w);
      case Item(i) =>
        PathInPreOrder(v.items[i], p[1..], w);
        PreOrderItemsIn(v.items, w);
    }
  }
}
