/** Link extraction from one decoded response: `extract_links` (every 1080x1080 image and the
    largest video of each media node) and `collect_links` (every image as before, and every video
    URL anywhere). A Python exception raised on the way is the result `Raised`. */
module Extraction {
  import opened Wrappers
  import opened OrderedDicts
  import opened Sorting
  import opened Json
  import opened Walkers

  datatype UrlSets = UrlSets(imgs: set<string>, vids: set<string>)

  /** `for x in v`: a list gives its items, a dict its keys, a string its characters; any other
      value raises `TypeError`. */
  function PyIter(v: Json): (r: Result<seq<Json>>)
    ensures r.Ok? <==> v.Arr? || v.Obj? || v.Str?
    ensures v.Arr? ==> r == Ok(v.items)
    ensures r.Ok? && !v.Arr? ==> forall i :: 0 <= i < |r.value| ==> r.value[i].Str?
    ensures v.Obj? ==>
      |r.value| == |v.members| && forall i :: 0 <= i < |v.members| ==> r.value[i].s == v.members[i].key
    ensures v.Str? ==> |r.value| == |v.s| && forall i :: 0 <= i < |v.s| ==> r.value[i].s == [v.s[i]]
  {
    match v
    case Arr(xs) => Ok(xs)
    case Obj(ms) => Ok(seq(|ms|, i requires 0 <= i < |ms| => Str(ms[i].key)))
    case Str(s) => Ok(seq(|s|, i requires 0 <= i < |s| => Str([s[i]])))
    case _ => Raised
  }

  /** Two partial results combined; an exception in either is the outcome. */
  function Union(a: Result<set<string>>, b: Result<set<string>>): Result<set<string>>
  {
    if a.Raised? || b.Raised? then Raised else Ok(a.value + b.value)
  }

  lemma UnionAssoc(acc: set<string>, a: Result<set<string>>, b: Result<set<string>>)
    ensures Union(Ok(acc), Union(a, b)) == Union(Union(Ok(acc), a), b)
  {
    if a.Ok? && b.Ok? {
      assert acc + (a.value + b.value) == acc + a.value + b.value;
    }
  }

  lemma UnionEmpty(acc: set<string>)
    ensures Union(Ok(acc), Ok({})) == Ok(acc)
  {
    assert acc + {} == acc;
  }

  /** The union of what `g` finds in each element, or `Raised` when `g` raises on any of them. */
  function Gather(xs: seq<Json>, g: Json -> Result<set<string>>): (r: Result<set<string>>)
    ensures r.Ok? <==> forall i :: 0 <= i < |xs| ==> g(xs[i]).Ok?
    ensures r.Ok? ==> forall u :: u in r.value <==> exists i :: 0 <= i < |xs| && u in g(xs[i]).value
    decreases |xs|
  {
    if xs == [] then Ok({}) else Union(Gather(xs[..|xs| - 1], g), g(xs[|xs| - 1]))
  }

  lemma GatherStep(xs: seq<Json>, i: nat, g: Json -> Result<set<string>>)
    requires i < |xs|
    ensures Gather(xs[..i + 1], g) == Union(Gather(xs[..i], g), g(xs[i]))
  {
    assert xs[..i + 1][..i] == xs[..i];
  }

  /** The loop `for x in xs: ... acc.add(...)` driven by what `g` finds in each element. */
  method GatherInto(xs: seq<Json>, g: Json -> Result<set<string>>, acc: set<string>)
    returns (r: Result<set<string>>)
    ensures r == Union(Ok(acc), Gather(xs, g))
  {
    var out := acc;
    var i := 0;
    assert xs[..0] == [];
    UnionEmpty(acc);
    while i < |xs|
      invariant 0 <= i <= |xs|
      invariant Union(Ok(acc), Gather(xs[..i], g)) == Ok(out)
    {
      var found := g(xs[i]);
      if found.Raised? {
        return Raised;
      }
      GatherStep(xs, i, g);
      UnionAssoc(acc, Gather(xs[..i], g), found);
      out := out + found.value;
      i := i + 1;
    }
    assert xs[..i] == xs;
    return Ok(out);
  }

  /** `node.get("image_versions2", {}).get("candidates", [])`, iterated. */
  function Candidates(node: Json): Result<seq<Json>>
  {
    var iv2 := MemberOr(node, "image_versions2", Obj([]));
    if iv2.Obj? then PyIter(MemberOr(iv2, "candidates", Arr([]))) else Raised
  }

  /** A `url` member, given that the member exists, added to a set of URLs. */
  function UrlOf(c: Json): Result<set<string>>
  {
    match Member(c, "url")
    case Some(Str(u)) => Ok({u})
    case _ => Raised
  }

  /** One image candidate: its `url` is kept when its width and height (missing means -1) are
      both 1080. */
  function CandidateImage(c: Json): Result<set<string>>
  {
    if !c.Obj? then Raised
    else
      var w := PyInt(MemberOr(c, "width", Int(-1)));
      var h := PyInt(MemberOr(c, "height", Int(-1)));
      if w.None? || h.None? then Raised
      else if w.value == 1080 && h.value == 1080 && HasMember(c, "url") then UrlOf(c)
      else Ok({})
  }

  /** The image URLs of one media node. */
  function NodeImages(node: Json): Result<set<string>>
  {
    match Candidates(node)
    case Raised => Raised
    case Ok(cs) => Gather(cs, CandidateImage)
  }

  /** A candidate that is kept as a 1080x1080 image with URL `u`. */
  ghost predicate Square(c: Json, u: string)
  {
    c.Obj? &&
    PyInt(MemberOr(c, "width", Int(-1))) == Some(1080) &&
    PyInt(MemberOr(c, "height", Int(-1))) == Some(1080) &&
    Member(c, "url") == Some(Str(u))
  }

  /** `node.get("video_versions") or []` */
  function VideoVersionsOr(node: Json): Json
  {
    match Member(node, "video_versions")
    case Some(v) => if Truthy(v) then v else Arr([])
    case None => Arr([])
  }

  /** `int(x.get("width", 0)) * int(x.get("height", 0))` */
  function Area(x: Json): Result<int>
  {
    if !x.Obj? then Raised
    else
      var w := PyInt(MemberOr(x, "width", Int(0)));
      var h := PyInt(MemberOr(x, "height", Int(0)));
      if w.None? || h.None? then Raised else Ok(w.value * h.value)
  }

  /** `max(xs, key=key)`: the index of the first entry of largest key, or `Raised` when the key
      of some entry cannot be computed. */
  function MaxBy(xs: seq<Json>, key: Json -> Result<int>): (r: Result<nat>)
    requires xs != []
    ensures r.Ok? ==> r.value < |xs| && key(xs[r.value]).Ok?
    decreases |xs|
  {
    if |xs| == 1 then (if key(xs[0]).Ok? then Ok(0) else Raised)
    else
      var init := MaxBy(xs[..|xs| - 1], key);
      var last := key(xs[|xs| - 1]);
      if init.Raised? || last.Raised? then Raised
      else if last.value > key(xs[init.value]).value then Ok(|xs| - 1)
      else init
  }

  /** `max` raises exactly when the key of some entry raises. */
  lemma {:induction false} MaxByOk(xs: seq<Json>, key: Json -> Result<int>)
    requires xs != []
    ensures MaxBy(xs, key).Ok? <==> forall j :: 0 <= j < |xs| ==> key(xs[j]).Ok?
    decreases |xs|
  {
    if |xs| > 1 {
      var init := xs[..|xs| - 1];
      MaxByOk(init, key);
      assert forall j :: 0 <= j < |init| ==> init[j] == xs[j];
    }
  }

  /** The entry `max` picks has the largest key, and every entry before it a strictly smaller
      one: it is the first entry of largest key. */
  lemma {:induction false} MaxByFirstMax(xs: seq<Json>, key: Json -> Result<int>)
    requires xs != [] && MaxBy(xs, key).Ok?
    ensures forall j :: 0 <= j < |xs| ==>
      key(xs[j]).Ok? && key(xs[j]).value <= key(xs[MaxBy(xs, key).value]).value
    ensures forall j :: 0 <= j < MaxBy(xs, key).value ==>
      key(xs[j]).value < key(xs[MaxBy(xs, key).value]).value
    decreases |xs|
  {
    MaxByOk(xs, key);
    if |xs| > 1 {
      var init := xs[..|xs| - 1];
      MaxByFirstMax(init, key);
      assert forall j :: 0 <= j < |init| ==> init[j] == xs[j];
    }
  }

  lemma MaxByStep(xs: seq<Json>, k: nat, key: Json -> Result<int>)
    requires 0 < k < |xs|
    ensures MaxBy(xs[..k + 1], key) ==
      var init := MaxBy(xs[..k], key);
      var last := key(xs[k]);
      if init.Raised? || last.Raised? then Raised
      else if last.value > key(xs[init.value]).value then Ok(k)
      else init
  {
    assert xs[..k + 1][..k] == xs[..k];
  }

  /** `max(xs, key=key)` as a loop: the running best is replaced only by a strictly larger key. */
  method MaxByLoop(xs: seq<Json>, key: Json -> Result<int>) returns (r: Result<nat>)
    requires xs != []
    ensures r == MaxBy(xs, key)
  {
    var first := key(xs[0]);
    if first.Raised? {
      MaxByOk(xs, key);
      return Raised;
    }
    assert xs[..1] == [xs[0]];
    var best, bestKey, k := 0, first.value, 1;
    while k < |xs|
      invariant 1 <= k <= |xs|
      invariant MaxBy(xs[..k], key) == Ok(best) && best < k && key(xs[best]) == Ok(bestKey)
    {
      var v := key(xs[k]);
      MaxByStep(xs, k, key);
      if v.Raised? {
        MaxByOk(xs, key);
        return Raised;
      }
      if v.value > bestKey {
        best, bestKey := k, v.value;
      }
      k := k + 1;
    }
    assert xs[..k] == xs;
    return Ok(best);
  }

  /** The video of one media node under `extract_links`: the largest entry of a non-empty
      `video_versions` list, kept when it has a `url`. */
  function NodeBestVideo(node: Json): (r: Result<set<string>>)
    ensures r.Ok? ==> |r.value| <= 1
  {
    var vvs := VideoVersionsOr(node);
    if vvs.Arr? && vvs.items != [] then
      match MaxBy(vvs.items, Area)
      case Raised => Raised
      case Ok(b) =>
        var best := vvs.items[b];
        if Truthy(best) && HasMember(best, "url") then UrlOf(best) else Ok({})
    else Ok({})
  }

  /** The URL sets `extract_links` builds. */
  function ExtractSets(data: Json): Result<UrlSets>
  {
    var nodes := MediaNodes(data);
    var imgs := Gather(nodes, NodeImages);
    var vids := Gather(nodes, NodeBestVideo);
    if imgs.Raised? || vids.Raised? then Raised else Ok(UrlSets(imgs.value, vids.value))
  }

  /** What `extract_links` returns: the sorted images followed by the sorted videos. */
  ghost function ExtractResult(data: Json): Result<seq<string>>
  {
    match ExtractSets(data)
    case Raised => Raised
    case Ok(found) => Ok(SortedOf(found.imgs) + SortedOf(found.vids))
  }

  /** The image loop of one media node. */
  method AddNodeImages(node: Json, imgs: set<string>) returns (r: Result<set<string>>)
    ensures r == Union(Ok(imgs), NodeImages(node))
  {
    var cands := Candidates(node);
    if cands.Raised? {
      return Raised;
    }
    r := GatherInto(cands.value, CandidateImage, imgs);
  }

  /** The video step of one media node under `extract_links`. */
  method AddBestVideo(node: Json, vids: set<string>) returns (r: Result<set<string>>)
    ensures r == Union(Ok(vids), NodeBestVideo(node))
  {
    var vvs := VideoVersionsOr(node);
    if vvs.Arr? && vvs.items != [] {
      var best := MaxByLoop(vvs.items, Area);
      if best.Raised? {
        return Raised;
      }
      var pick := vvs.items[best.value];
      if Truthy(pick) && HasMember(pick, "url") {
        match Member(pick, "url")
        case Some(Str(u)) => return Ok(vids + {u});
        case _ => return Raised;
      }
    }
    return Ok(vids);
  }

  method ExtractLinks(data: Json) returns (r: Result<seq<string>>)
    ensures r == ExtractResult(data)
  {
    var nodes := MediaNodes(data);
    var imgs: set<string> := {};
    var vids: set<string> := {};
    var i := 0;
    assert nodes[..0] == [];
    while i < |nodes|
      invariant 0 <= i <= |nodes|
      invariant Gather(nodes[..i], NodeImages) == Ok(imgs)
      invariant Gather(nodes[..i], NodeBestVideo) == Ok(vids)
    {
      var withImages := AddNodeImages(nodes[i], imgs);
      if withImages.Raised? {
        return Raised;
      }
      var withVideo := AddBestVideo(nodes[i], vids);
      if withVideo.Raised? {
        return Raised;
      }
      GatherStep(nodes, i, NodeImages);
      GatherStep(nodes, i, NodeBestVideo);
      imgs, vids := withImages.value, withVideo.value;
      i := i + 1;
    }
    assert nodes[..i] == nodes;
    var imgsSorted := SortSet(imgs);
    var vidsSorted := SortSet(vids);
    return Ok(imgsSorted + vidsSorted);
  }

  /** `if u: vids.add(u)` for the value `u` of a `url` lookup. */
  function TruthyUrl(u: Option<Json>): Result<set<string>>
  {
    match u
    case None => Ok({})
    case Some(x) =>
      if !Truthy(x) then Ok({})
      else if x.Str? then Ok({x.s})
      else Raised
  }

  /** An entry of a media node's `video_versions` list under `collect_links`. */
  function EntryUrl(v: Json): Result<set<string>>
  {
    if v.Obj? then TruthyUrl(Member(v, "url")) else Raised
  }

  /** A media node's own `video_url`, kept when it is a non-empty string. */
  function SingleVideoUrl(node: Json): set<string>
  {
    match Member(node, "video_url")
    case Some(Str(u)) => if u != "" then {u} else {}
    case _ => {}
  }

  /** All the videos of one media node under `collect_links`: every entry's URL and the node's
      own non-empty `video_url` string. */
  function NodeVideos(node: Json): Result<set<string>>
  {
    var vvs := VideoVersionsOr(node);
    var listed := if vvs.Arr? && vvs.items != [] then Gather(vvs.items, EntryUrl) else Ok({});
    Union(listed, Ok(SingleVideoUrl(node)))
  }

  /** An entry of a `video_versions` list found by the fallback scan; a non-dict is skipped. */
  function LenientUrl(v: Json): Result<set<string>>
  {
    TruthyUrl(if v.Obj? then Member(v, "url") else None)
  }

  /** A value found under `video_versions` by the fallback scan. */
  function ListedVideos(vlist: Json): Result<set<string>>
  {
    if vlist.Arr? then Gather(vlist.items, LenientUrl) else Ok({})
  }

  /** A value found under `video_url` by the second fallback scan. */
  function NonEmptyString(u: Json): Result<set<string>>
  {
    Ok(if u.Str? && u.s != "" then {u.s} else {})
  }

  /** The URL sets `collect_links` returns. */
  function CollectSets(data: Json): Result<UrlSets>
  {
    var nodes := MediaNodes(data);
    var imgs := Gather(nodes, NodeImages);
    var vids := Union(Union(Gather(nodes, NodeVideos), Gather(VideoVersions(data), ListedVideos)),
                      Gather(KeyValues(data, "video_url"), NonEmptyString));
    if imgs.Raised? || vids.Raised? then Raised else Ok(UrlSets(imgs.value, vids.value))
  }

  /** The video steps of one media node under `collect_links`. */
  method AddNodeVideos(node: Json, vids: set<string>) returns (r: Result<set<string>>)
    ensures r == Union(Ok(vids), NodeVideos(node))
  {
    var out := vids;
    var vvs := VideoVersionsOr(node);
    if vvs.Arr? && vvs.items != [] {
      var listed := GatherInto(vvs.items, EntryUrl, out);
      if listed.Raised? {
        return Raised;
      }
      out := listed.value;
    }
    ghost var mid := out;
    var single := Member(node, "video_url");
    if single.Some? && single.value.Str? && single.value.s != "" {
      out := out + {single.value.s};
    }
    assert out == mid + SingleVideoUrl(node);
    var listed := if vvs.Arr? && vvs.items != [] then Gather(vvs.items, EntryUrl) else Ok({});
    UnionAssoc(vids, listed, Ok(SingleVideoUrl(node)));
    UnionEmpty(vids);
    return Ok(out);
  }

  /** The fallback loop over every `video_versions` value of the response. */
  method AddListedVideos(vlists: seq<Json>, vids: set<string>) returns (r: Result<set<string>>)
    ensures r == Union(Ok(vids), Gather(vlists, ListedVideos))
  {
    var out := vids;
    var j := 0;
    assert vlists[..0] == [];
    UnionEmpty(vids);
    while j < |vlists|
      invariant 0 <= j <= |vlists|
      invariant Union(Ok(vids), Gather(vlists[..j], ListedVideos)) == Ok(out)
    {
      GatherStep(vlists, j, ListedVideos);
      UnionAssoc(vids, Gather(vlists[..j], ListedVideos), ListedVideos(vlists[j]));
      UnionEmpty(out);
      if vlists[j].Arr? {
        var listed := GatherInto(vlists[j].items, LenientUrl, out);
        if listed.Raised? {
          return Raised;
        }
        out := listed.value;
      }
      j := j + 1;
    }
    assert vlists[..j] == vlists;
    return Ok(out);
  }

  /** The sets the node loop of `collect_links` gathers, or `Raised`. */
  function NodeSets(nodes: seq<Json>): Result<UrlSets>
  {
    var imgs := Gather(nodes, NodeImages);
    var vids := Gather(nodes, NodeVideos);
    if imgs.Raised? || vids.Raised? then Raised else Ok(UrlSets(imgs.value, vids.value))
  }

  /** The loop of `collect_links` over the media nodes. */
  method CollectNodeLinks(nodes: seq<Json>) returns (r: Result<UrlSets>)
    ensures r == NodeSets(nodes)
  {
    var imgs: set<string> := {};
    var vids: set<string> := {};
    var i := 0;
    assert nodes[..0] == [];
    while i < |nodes|
      invariant 0 <= i <= |nodes|
      invariant Gather(nodes[..i], NodeImages) == Ok(imgs)
      invariant Gather(nodes[..i], NodeVideos) == Ok(vids)
    {
      var withImages := AddNodeImages(nodes[i], imgs);
      if withImages.Raised? {
        return Raised;
      }
      var withVideos := AddNodeVideos(nodes[i], vids);
      if withVideos.Raised? {
        return Raised;
      }
      GatherStep(nodes, i, NodeImages);
      GatherStep(nodes, i, NodeVideos);
      imgs, vids := withImages.value, withVideos.value;
      i := i + 1;
    }
    assert nodes[..i] == nodes;
    return Ok(UrlSets(imgs, vids));
  }

  method CollectLinks(data: Json) returns (r: Result<UrlSets>)
    ensures r == CollectSets(data)
  {
    var found := CollectNodeLinks(MediaNodes(data));
    if found.Raised? {
      return Raised;
    }
    var withListed := AddListedVideos(VideoVersions(data), found.value.vids);
    if withListed.Raised? {
      return Raised;
    }
    var withNamed := GatherInto(KeyValues(data, "video_url"), NonEmptyString, withListed.value);
    return Ok(UrlSets(found.value.imgs, withNamed.value));
  }
}
