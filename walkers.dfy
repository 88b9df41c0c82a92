/** The recursive scans over a decoded response: every value is visited depth first, a dict's
    members in order and a list's items in order. */
module Walkers {
  import opened Wrappers
  import opened OrderedDicts
  import opened Seqs
  import opened Json

  /** A dict that carries `image_versions2` or `video_versions`. */
  predicate IsMediaNode(v: Json)
  {
    HasMember(v, "image_versions2") || HasMember(v, "video_versions")
  }

  /** `_iter_media_nodes`: a matching dict is yielded and its members are scanned as well. */
  function MediaNodes(v: Json): seq<Json>
  {
    match v
    case Obj(ms) => (if IsMediaNode(v) then [v] else []) + MediaNodesEntries(ms)
    case Arr(xs) => MediaNodesItems(xs)
    case _ => []
  }

  function MediaNodesEntries(ms: Dict<Json>): seq<Json>
  {
    if ms == [] then [] else MediaNodes(ms[0].value) + MediaNodesEntries(ms[1..])
  }

  function MediaNodesItems(xs: seq<Json>): seq<Json>
  {
    if xs == [] then [] else MediaNodes(xs[0]) + MediaNodesItems(xs[1..])
  }

  /** The media nodes are exactly the media dicts of the pre-order, in pre-order. */
  lemma {:induction false} MediaNodesPreOrder(v: Json)
    ensures MediaNodes(v) == Filter(IsMediaNode, PreOrder(v))
  {
    match v
    case Obj(ms) =>
      MediaNodesEntriesPreOrder(ms);
      FilterConcat(IsMediaNode, [v], PreOrderEntries(ms));
    case Arr(xs) =>
      MediaNodesItemsPreOrder(xs);
      FilterConcat(IsMediaNode, [v], PreOrderItems(xs));
    case _ =>
  }

  lemma {:induction false} MediaNodesEntriesPreOrder(ms: Dict<Json>)
    ensures MediaNodesEntries(ms) == Filter(IsMediaNode, PreOrderEntries(ms))
  {
    if ms != [] {
      MediaNodesPreOrder(ms[0].value);
      MediaNodesEntriesPreOrder(ms[1..]);
      FilterConcat(IsMediaNode, PreOrder(ms[0].value), PreOrderEntries(ms[1..]));
    }
  }

  lemma {:induction false} MediaNodesItemsPreOrder(xs: seq<Json>)
    ensures MediaNodesItems(xs) == Filter(IsMediaNode, PreOrderItems(xs))
  {
    if xs != [] {
      MediaNodesPreOrder(xs[0]);
      MediaNodesItemsPreOrder(xs[1..]);
      FilterConcat(IsMediaNode, PreOrder(xs[0]), PreOrderItems(xs[1..]));
    }
  }

  /** A value is a media node exactly when it is a media dict reachable from the root. */
  lemma MediaNodesReachable(v: Json, w: Json)
    ensures w in MediaNodes(v) <==> IsMediaNode(w) && exists p :: At(v, p) == Some(w)
  {
    MediaNodesPreOrder(v);
    PreOrderReachable(v, w);
  }

  /** A dict whose keys include both `end_cursor` and `has_next_page`. */
  predicate IsPageInfo(v: Json)
  {
    HasMember(v, "end_cursor") && HasMember(v, "has_next_page")
  }

  /** `_find_page_info`: the dict itself when it matches, otherwise the first match among its
      members (a result counts only when it is truthy). */
  function FindPageInfo(v: Json): Option<Json>
  {
    match v
    case Obj(ms) => if IsPageInfo(v) then Some(v) else FindPageInfoEntries(ms)
    case Arr(xs) => FindPageInfoItems(xs)
    case _ => None
  }

  function FindPageInfoEntries(ms: Dict<Json>): Option<Json>
  {
    if ms == [] then None
    else
      var res := FindPageInfo(ms[0].value);
      if res.Some? && Truthy(res.value) then res else FindPageInfoEntries(ms[1..])
  }

  function FindPageInfoItems(xs: seq<Json>): Option<Json>
  {
    if xs == [] then None
    else
      var res := FindPageInfo(xs[0]);
      if res.Some? && Truthy(res.value) then res else FindPageInfoItems(xs[1..])
  }

  lemma PageInfoTruthy(v: Json)
    requires IsPageInfo(v)
    ensures Truthy(v)
  {
  }

  /** The page info found is the first page-info dict of the pre-order. */
  lemma {:induction false} FindPageInfoPreOrder(v: Json)
    ensures FindPageInfo(v) == First(Filter(IsPageInfo, PreOrder(v)))
  {
    match v
    case Obj(ms) =>
      FindPageInfoEntriesPreOrder(ms);
      FilterConcat(IsPageInfo, [v], PreOrderEntries(ms));
    case Arr(xs) =>
      FindPageInfoItemsPreOrder(xs);
      FilterConcat(IsPageInfo, [v], PreOrderItems(xs));
    case _ =>
  }

  lemma {:induction false} FindPageInfoEntriesPreOrder(ms: Dict<Json>)
    ensures FindPageInfoEntries(ms) == First(Filter(IsPageInfo, PreOrderEntries(ms)))
  {
    if ms != [] {
      FindPageInfoPreOrder(ms[0].value);
      FindPageInfoEntriesPreOrder(ms[1..]);
      FilterConcat(IsPageInfo, PreOrder(ms[0].value), PreOrderEntries(ms[1..]));
      var head := Filter(IsPageInfo, PreOrder(ms[0].value));
      if head != [] {
        assert head[0] in head;
        PageInfoTruthy(head[0]);
      }
    }
  }

  lemma {:induction false} FindPageInfoItemsPreOrder(xs: seq<Json>)
    ensures FindPageInfoItems(xs) == First(Filter(IsPageInfo, PreOrderItems(xs)))
  {
    if xs != [] {
      FindPageInfoPreOrder(xs[0]);
      FindPageInfoItemsPreOrder(xs[1..]);
      FilterConcat(IsPageInfo, PreOrder(xs[0]), PreOrderItems(xs[1..]));
      var head := Filter(IsPageInfo, PreOrder(xs[0]));
      if head != [] {
        assert head[0] in head;
        PageInfoTruthy(head[0]);
      }
    }
  }

  /** No page info exactly when no value of the tree is a page-info dict; otherwise the result is
      a page-info dict and no value before it in pre-order is one. */
  lemma FindPageInfoFirst(v: Json)
    ensures FindPageInfo(v).None? <==> forall w | w in PreOrder(v) :: !IsPageInfo(w)
    ensures FindPageInfo(v).Some? ==>
      exists i :: 0 <= i < |PreOrder(v)| && PreOrder(v)[i] == FindPageInfo(v).value &&
        IsPageInfo(PreOrder(v)[i]) && forall j :: 0 <= j < i ==> !IsPageInfo(PreOrder(v)[j])
  {
    FindPageInfoPreOrder(v);
    var found := Filter(IsPageInfo, PreOrder(v));
    if found != [] {
      FilterHead(IsPageInfo, PreOrder(v));
    }
  }

  /** `_iter_all_key_values`: the value under every member named `k`; such a value is not
      scanned further. */
  function KeyValues(v: Json, k: string): seq<Json>
  {
    match v
    case Obj(ms) => KeyValuesEntries(ms, k)
    case Arr(xs) => KeyValuesItems(xs, k)
    case _ => []
  }

  function KeyValuesEntries(ms: Dict<Json>, k: string): seq<Json>
  {
    if ms == [] then []
    else (if ms[0].key == k then [ms[0].value] else KeyValues(ms[0].value, k)) + KeyValuesEntries(ms[1..], k)
  }

  function KeyValuesItems(xs: seq<Json>, k: string): seq<Json>
  {
    if xs == [] then [] else KeyValues(xs[0], k) + KeyValuesItems(xs[1..], k)
  }

  /** `_iter_all_video_versions`: the same scan with the key fixed. */
  function VideoVersions(v: Json): seq<Json>
  {
    match v
    case Obj(ms) => VideoVersionsEntries(ms)
    case Arr(xs) => VideoVersionsItems(xs)
    case _ => []
  }

  function VideoVersionsEntries(ms: Dict<Json>): seq<Json>
  {
    if ms == [] then []
    else
      (if ms[0].key == "video_versions" then [ms[0].value] else VideoVersions(ms[0].value))
      + VideoVersionsEntries(ms[1..])
  }

  function VideoVersionsItems(xs: seq<Json>): seq<Json>
  {
    if xs == [] then [] else VideoVersions(xs[0]) + VideoVersionsItems(xs[1..])
  }

  lemma {:induction false} VideoVersionsAreKeyValues(v: Json)
    ensures VideoVersions(v) == KeyValues(v, "video_versions")
  {
    match v
    case Obj(ms) => VideoVersionsEntriesAreKeyValues(ms);
    case Arr(xs) => VideoVersionsItemsAreKeyValues(xs);
    case _ =>
  }

  lemma {:induction false} VideoVersionsEntriesAreKeyValues(ms: Dict<Json>)
    ensures VideoVersionsEntries(ms) == KeyValuesEntries(ms, "video_versions")
  {
    if ms != [] {
      VideoVersionsAreKeyValues(ms[0].value);
      VideoVersionsEntriesAreKeyValues(ms[1..]);
    }
  }

  lemma {:induction false} VideoVersionsItemsAreKeyValues(xs: seq<Json>)
    ensures VideoVersionsItems(xs) == KeyValuesItems(xs, "video_versions")
  {
    if xs != [] {
      VideoVersionsAreKeyValues(xs[0]);
      VideoVersionsItemsAreKeyValues(xs[1..]);
    }
  }

  /** A path from `v` that ends by stepping into a member named `k` whose value is `w`, and that
      passes through no other member named `k` on the way. */
  ghost predicate KeyHit(v: Json, p: seq<Step>, k: string, w: Json)
    decreases p
  {
    p != [] &&
    match p[0]
    case Field(i) =>
      v.Obj? && i < |v.members| &&
      if v.members[i].key == k then |p| == 1 && w == v.members[i].value
      else KeyHit(v.members[i].value, p[1..], k, w)
    case Item(i) => v.Arr? && i < |v.items| && KeyHit(v.items[i], p[1..], k, w)
  }

  lemma KeyValuesEntriesIn(ms: Dict<Json>, k: string, w: Json)
    ensures w in KeyValuesEntries(ms, k) <==>
      exists i :: 0 <= i < |ms| &&
        if ms[i].key == k then w == ms[i].value else w in KeyValues(ms[i].value, k)
  {
    if ms != [] {
      KeyValuesEntriesIn(ms[1..], k, w);
      if exists i :: 0 <= i < |ms| && if ms[i].key == k then w == ms[i].value else w in KeyValues(ms[i].value, k) {
        var i :| 0 <= i < |ms| && if ms[i].key == k then w == ms[i].value else w in KeyValues(ms[i].value, k);
        if i > 0 { assert ms[1..][i - 1] == ms[i]; }
      }
      if exists i :: 0 <= i < |ms[1..]| && if ms[1..][i].key == k then w == ms[1..][i].value else w in KeyValues(ms[1..][i].value, k) {
        var i :| 0 <= i < |ms[1..]| && if ms[1..][i].key == k then w == ms[1..][i].value else w in KeyValues(ms[1..][i].value, k);
        assert ms[i + 1] == ms[1..][i];
      }
    }
  }

  lemma KeyValuesItemsIn(xs: seq<Json>, k: string, w: Json)
    ensures w in KeyValuesItems(xs, k) <==> exists i :: 0 <= i < |xs| && w in KeyValues(xs[i], k)
  {
    if xs != [] {
      KeyValuesItemsIn(xs[1..], k, w);
      if exists i :: 0 <= i < |xs| && w in KeyValues(xs[i], k) {
        var i :| 0 <= i < |xs| && w in KeyValues(xs[i], k);
        if i > 0 { assert xs[1..][i - 1] == xs[i]; }
      }
      if exists i :: 0 <= i < |xs[1..]| && w in KeyValues(xs[1..][i], k) {
        var i :| 0 <= i < |xs[1..]| && w in KeyValues(xs[1..][i], k);
        assert xs[i + 1] == xs[1..][i];
      }
    }
  }

  /** The values found for `k` are exactly those at the first member named `k` along some path. */
  lemma KeyValuesPaths(v: Json, k: string, w: Json)
    ensures w in KeyValues(v, k) <==> exists p :: KeyHit(v, p, k, w)
  {
    if w in KeyValues(v, k) {
      KeyValuesHasPath(v, k, w);
    }
    if exists p :: KeyHit(v, p, k, w) {
      var p :| KeyHit(v, p, k, w);
      KeyHitFound(v, p, k, w);
    }
  }

  lemma {:induction false} KeyValuesHasPath(v: Json, k: string, w: Json)
    requires w in KeyValues(v, k)
    ensures exists p :: KeyHit(v, p, k, w)
  {
    match v
    case Obj(ms) =>
      KeyValuesEntriesIn(ms, k, w);
      var i :| 0 <= i < |ms| && if ms[i].key == k then w == ms[i].value else w in KeyValues(ms[i].value, k);
      if ms[i].key == k {
        assert KeyHit(v, [Field(i)], k, w);
      } else {
        KeyValuesHasPath(ms[i].value, k, w);
        var p :| KeyHit(ms[i].value, p, k, w);
        assert ([Field(i)] + p)[1..] == p;
        assert KeyHit(v, [Field(i)] + p, k, w);
      }
    case Arr(xs) =>
      KeyValuesItemsIn(xs, k, w);
      var i :| 0 <= i < |xs| && w in KeyValues(xs[i], k);
      KeyValuesHasPath(xs[i], k, w);
      var p :| KeyHit(xs[i], p, k, w);
      assert ([Item(i)] + p)[1..] == p;
      assert KeyHit(v, [Item(i)] + p, k, w);
  }

  lemma {:induction false} KeyHitFound(v: Json, p: seq<Step>, k: string, w: Json)
    requires KeyHit(v, p, k, w)
    ensures w in KeyValues(v, k)
    decreases p
  {
    match p[0]
    case Field(i) =>
      if v.members[i].key != k {
        KeyHitFound(v.members[i].value, p[1..], k, w);
      }
      KeyValuesEntriesIn(v.members, k, w);
    case Item(i) =>
      KeyHitFound(v.items[i], p[1..], k, w);
      KeyValuesItemsIn(v.items, k, w);
  }

  /** `_iter_carousel_media`: the items of every list stored under `carousel_media`; such a
      list is not scanned further, while any other value under that key is. */
  function CarouselMedia(v: Json): seq<Json>
  {
    match v
    case Obj(ms) => CarouselEntries(ms)
    case Arr(xs) => CarouselItems(xs)
    case _ => []
  }

  function CarouselEntries(ms: Dict<Json>): seq<Json>
  {
    if ms == [] then []
    else
      (if ms[0].key == "carousel_media" && ms[0].value.Arr? then ms[0].value.items
       else CarouselMedia(ms[0].value))
      + CarouselEntries(ms[1..])
  }

  function CarouselItems(xs: seq<Json>): seq<Json>
  {
    if xs == [] then [] else CarouselMedia(xs[0]) + CarouselItems(xs[1..])
  }

  /** A path from `v` that ends at an item of a list under a member named `carousel_media`,
      passing through no other such list on the way. */
  ghost predicate CarouselHit(v: Json, p: seq<Step>, w: Json)
    decreases p
  {
    p != [] &&
    match p[0]
    case Field(i) =>
      v.Obj? && i < |v.members| &&
      var e := v.members[i];
      if e.key == "carousel_media" && e.value.Arr? then
        |p| == 2 && p[1].Item? && p[1].index < |e.value.items| && w == e.value.items[p[1].index]
      else CarouselHit(e.value, p[1..], w)
    case Item(i) => v.Arr? && i < |v.items| && CarouselHit(v.items[i], p[1..], w)
  }

  lemma CarouselEntriesIn(ms: Dict<Json>, w: Json)
    ensures w in CarouselEntries(ms) <==>
      exists i :: 0 <= i < |ms| &&
        if ms[i].key == "carousel_media" && ms[i].value.Arr? then w in ms[i].value.items
        else w in CarouselMedia(ms[i].value)
  {
    if ms != [] {
      CarouselEntriesIn(ms[1..], w);
      if exists i :: 0 <= i < |ms| &&
          if ms[i].key == "carousel_media" && ms[i].value.Arr? then w in ms[i].value.items
          else w in CarouselMedia(ms[i].value) {
        var i :| 0 <= i < |ms| &&
          if ms[i].key == "carousel_media" && ms[i].value.Arr? then w in ms[i].value.items
          else w in CarouselMedia(ms[i].value);
        if i > 0 { assert ms[1..][i - 1] == ms[i]; }
      }
      if exists i :: 0 <= i < |ms[1..]| &&
          if ms[1..][i].key == "carousel_media" && ms[1..][i].value.Arr? then w in ms[1..][i].value.items
          else w in CarouselMedia(ms[1..][i].value) {
        var i :| 0 <= i < |ms[1..]| &&
          if ms[1..][i].key == "carousel_media" && ms[1..][i].value.Arr? then w in ms[1..][i].value.items
          else w in CarouselMedia(ms[1..][i].value);
        assert ms[i + 1] == ms[1..][i];
      }
    }
  }

  lemma CarouselItemsIn(xs: seq<Json>, w: Json)
    ensures w in CarouselItems(xs) <==> exists i :: 0 <= i < |xs| && w in CarouselMedia(xs[i])
  {
    if xs != [] {
      CarouselItemsIn(xs[1..], w);
      if exists i :: 0 <= i < |xs| && w in CarouselMedia(xs[i]) {
        var i :| 0 <= i < |xs| && w in CarouselMedia(xs[i]);
        if i > 0 { assert xs[1..][i - 1] == xs[i]; }
      }
      if exists i :: 0 <= i < |xs[1..]| && w in CarouselMedia(xs[1..][i]) {
        var i :| 0 <= i < |xs[1..]| && w in CarouselMedia(xs[1..][i]);
        assert xs[i + 1] == xs[1..][i];
      }
    }
  }

  /** The carousel items are exactly the items of the first carousel list along some path. */
  lemma CarouselPaths(v: Json, w: Json)
    ensures w in CarouselMedia(v) <==> exists p :: CarouselHit(v, p, w)
  {
    if w in CarouselMedia(v) {
      CarouselHasPath(v, w);
    }
    if exists p :: CarouselHit(v, p, w) {
      var p :| CarouselHit(v, p, w);
      CarouselHitFound(v, p, w);
    }
  }

  lemma {:induction false} CarouselHasPath(v: Json, w: Json)
    requires w in CarouselMedia(v)
    ensures exists p :: CarouselHit(v, p, w)
  {
    match v
    case Obj(ms) =>
      CarouselEntriesIn(ms, w);
      var i :| 0 <= i < |ms| &&
        if ms[i].key == "carousel_media" && ms[i].value.Arr? then w in ms[i].value.items
        else w in CarouselMedia(ms[i].value);
      if ms[i].key == "carousel_media" && ms[i].value.Arr? {
        var j :| 0 <= j < |ms[i].value.items| && ms[i].value.items[j] == w;
        assert CarouselHit(v, [Field(i), Item(j)], w);
      } else {
        CarouselHasPath(ms[i].value, w);
        var p :| CarouselHit(ms[i].value, p, w);
        assert ([Field(i)] + p)[1..] == p;
        assert CarouselHit(v, [Field(i)] + p, w);
      }
    case Arr(xs) =>
      CarouselItemsIn(xs, w);
      var i :| 0 <= i < |xs| && w in CarouselMedia(xs[i]);
      CarouselHasPath(xs[i], w);
      var p :| CarouselHit(xs[i], p, w);
      assert ([Item(i)] + p)[1..] == p;
      assert CarouselHit(v, [Item(i)] + p, w);
  }

  lemma {:induction false} CarouselHitFound(v: Json, p: seq<Step>, w: Json)
    requires CarouselHit(v, p, w)
    ensures w in CarouselMedia(v)
    decreases p
  {
    match p[0]
    case Field(i) =>
      var e := v.members[i];
      if !(e.key == "carousel_media" && e.value.Arr?) {
        CarouselHitFound(e.value, p[1..], w);
      }
      CarouselEntriesIn(v.members, w);
    case Item(i) =>
      CarouselHitFound(v.items[i], p[1..], w);
      CarouselItemsIn(v.items, w);
  }
}
