/** What the two extraction modes find, stated without reference to how they iterate. */
module ExtractionProps {
  import opened Wrappers
  import opened OrderedDicts
  import opened Json
  import opened Walkers
  import opened Extraction

  /** Every URL `g` finds counts once; an element contributes at most one URL. */
  lemma {:induction false} GatherCard(xs: seq<Json>, g: Json -> Result<set<string>>)
    requires Gather(xs, g).Ok?
    requires forall x | x in xs :: g(x).Ok? ==> |g(x).value| <= 1
    ensures |Gather(xs, g).value| <= |xs|
    decreases |xs|
  {
    if xs != [] {
      var init := xs[..|xs| - 1];
      assert forall x | x in init :: x in xs;
      GatherCard(init, g);
    }
  }

  /** A candidate contributes exactly its own URL when it is a 1080x1080 candidate. */
  lemma CandidateImageSquare(c: Json, u: string)
    requires CandidateImage(c).Ok?
    ensures u in CandidateImage(c).value <==> Square(c, u)
  {
  }

  /** Some media node of `nodes` has a 1080x1080 candidate with URL `u`. */
  ghost predicate SquareIn(nodes: seq<Json>, u: string)
  {
    exists i, j :: 0 <= i < |nodes| && Candidates(nodes[i]).Ok? &&
      0 <= j < |Candidates(nodes[i]).value| && Square(Candidates(nodes[i]).value[j], u)
  }

  /** The images found in a sequence of media nodes are exactly the URLs of their 1080x1080
      candidates. */
  lemma NodeImagesExactly(nodes: seq<Json>, u: string)
    requires Gather(nodes, NodeImages).Ok?
    ensures u in Gather(nodes, NodeImages).value <==> SquareIn(nodes, u)
  {
    if u in Gather(nodes, NodeImages).value {
      var i :| 0 <= i < |nodes| && u in NodeImages(nodes[i]).value;
      var cs := Candidates(nodes[i]).value;
      var j :| 0 <= j < |cs| && u in CandidateImage(cs[j]).value;
      CandidateImageSquare(cs[j], u);
    }
    if SquareIn(nodes, u) {
      var i, j :| 0 <= i < |nodes| && Candidates(nodes[i]).Ok? &&
        0 <= j < |Candidates(nodes[i]).value| && Square(Candidates(nodes[i]).value[j], u);
      var cs := Candidates(nodes[i]).value;
      assert NodeImages(nodes[i]).Ok?;
      CandidateImageSquare(cs[j], u);
      assert u in NodeImages(nodes[i]).value;
    }
  }

  /** `extract_links` keeps an image URL exactly when it belongs to a 1080x1080 candidate of a
      media node. */
  lemma ExtractImages(data: Json, u: string)
    requires ExtractSets(data).Ok?
    ensures u in ExtractSets(data).value.imgs <==> SquareIn(MediaNodes(data), u)
  {
    NodeImagesExactly(MediaNodes(data), u);
  }

  /** Both modes keep the same images whenever neither raises. */
  lemma SameImages(data: Json)
    requires ExtractSets(data).Ok? && CollectSets(data).Ok?
    ensures ExtractSets(data).value.imgs == CollectSets(data).value.imgs
  {
  }

  /** `extract_links` keeps at most one video per media node. */
  lemma OneVideoPerNode(data: Json)
    requires ExtractSets(data).Ok?
    ensures |ExtractSets(data).value.vids| <= |MediaNodes(data)|
  {
    GatherCard(MediaNodes(data), NodeBestVideo);
  }

  /** Entry `b` of `xs` is the first entry of largest area. */
  ghost predicate FirstLargest(xs: seq<Json>, b: nat)
  {
    b < |xs| && Area(xs[b]).Ok? &&
    (forall j :: 0 <= j < |xs| ==> Area(xs[j]).Ok? && Area(xs[j]).value <= Area(xs[b]).value) &&
    (forall j :: 0 <= j < b ==> Area(xs[j]).value < Area(xs[b]).value)
  }

  lemma FirstLargestUnique(xs: seq<Json>, b: nat, b': nat)
    requires FirstLargest(xs, b) && FirstLargest(xs, b')
    ensures b == b'
  {
    assert Area(xs[b']).value <= Area(xs[b]).value && Area(xs[b]).value <= Area(xs[b']).value;
  }

  /** The video `extract_links` picks from one node: the URL of the first entry of largest area
      of its non-empty `video_versions` list. */
  ghost predicate Pick(node: Json, u: string)
  {
    var vvs := VideoVersionsOr(node);
    vvs.Arr? && exists b: nat :: FirstLargest(vvs.items, b) && Member(vvs.items[b], "url") == Some(Str(u))
  }

  lemma NodeBestVideoPick(node: Json, u: string)
    requires NodeBestVideo(node).Ok?
    ensures u in NodeBestVideo(node).value <==> Pick(node, u)
  {
    var vvs := VideoVersionsOr(node);
    if vvs.Arr? && vvs.items != [] {
      var b := MaxBy(vvs.items, Area).value;
      MaxByFirstMax(vvs.items, Area);
      assert FirstLargest(vvs.items, b);
      MemberTruthy(vvs.items[b], "url");
      if Pick(node, u) {
        var b': nat :| FirstLargest(vvs.items, b') && Member(vvs.items[b'], "url") == Some(Str(u));
        FirstLargestUnique(vvs.items, b, b');
      }
    }
  }

  /** Some media node of `nodes` has `u` as its pick. */
  ghost predicate PickIn(nodes: seq<Json>, u: string)
  {
    exists i :: 0 <= i < |nodes| && Pick(nodes[i], u)
  }

  /** The best videos of a sequence of media nodes are exactly their picks. */
  lemma NodeVideosExactly(nodes: seq<Json>, u: string)
    requires Gather(nodes, NodeBestVideo).Ok?
    ensures u in Gather(nodes, NodeBestVideo).value <==> PickIn(nodes, u)
  {
    if u in Gather(nodes, NodeBestVideo).value {
      var i :| 0 <= i < |nodes| && u in NodeBestVideo(nodes[i]).value;
      NodeBestVideoPick(nodes[i], u);
    }
    if PickIn(nodes, u) {
      var i :| 0 <= i < |nodes| && Pick(nodes[i], u);
      NodeBestVideoPick(nodes[i], u);
    }
  }

  /** `extract_links` keeps a video URL exactly when it is the pick of some media node. */
  lemma ExtractVideos(data: Json, u: string)
    requires ExtractSets(data).Ok?
    ensures u in ExtractSets(data).value.vids <==> PickIn(MediaNodes(data), u)
  {
    NodeVideosExactly(MediaNodes(data), u);
  }

  /** The videos of `collect_links` are those of the node loop and of the two fallback scans. */
  lemma CollectVideos(data: Json)
    requires CollectSets(data).Ok?
    ensures Gather(MediaNodes(data), NodeVideos).Ok?
    ensures Gather(VideoVersions(data), ListedVideos).Ok?
    ensures Gather(KeyValues(data, "video_url"), NonEmptyString).Ok?
    ensures CollectSets(data).value.vids ==
      Gather(MediaNodes(data), NodeVideos).value + Gather(VideoVersions(data), ListedVideos).value +
      Gather(KeyValues(data, "video_url"), NonEmptyString).value
  {
  }

  /** Every entry URL of one node's list is among the node's videos under `collect_links`. */
  lemma NodeVideosHasEntry(node: Json, items: seq<Json>, k: nat, u: string)
    requires NodeVideos(node).Ok?
    requires Member(node, "video_versions") == Some(Arr(items))
    requires k < |items| && Member(items[k], "url") == Some(Str(u)) && u != ""
    ensures u in NodeVideos(node).value
  {
    assert VideoVersionsOr(node) == Arr(items);
    assert EntryUrl(items[k]) == Ok({u});
  }

  /** `collect_links` keeps every non-empty pick of `extract_links`. */
  lemma CollectCoversExtract(data: Json, u: string)
    requires ExtractSets(data).Ok? && CollectSets(data).Ok?
    requires u in ExtractSets(data).value.vids && u != ""
    ensures u in CollectSets(data).value.vids
  {
    var nodes := MediaNodes(data);
    var i :| 0 <= i < |nodes| && u in NodeBestVideo(nodes[i]).value;
    var node := nodes[i];
    var items := VideoVersionsOr(node).items;
    var b := MaxBy(items, Area).value;
    assert Member(node, "video_versions") == Some(Arr(items));
    NodeVideosHasEntry(node, items, b, u);
    CollectVideos(data);
  }

  /** `collect_links` keeps the non-empty `url` of every entry of every non-empty
      `video_versions` list of every dict of the response. */
  lemma CollectHasListedUrls(data: Json, q: seq<Step>, o: Json, items: seq<Json>, k: nat, u: string)
    requires CollectSets(data).Ok?
    requires At(data, q) == Some(o) && Member(o, "video_versions") == Some(Arr(items))
    requires k < |items| && Member(items[k], "url") == Some(Str(u)) && u != ""
    ensures u in CollectSets(data).value.vids
  {
    MediaNodesReachable(data, o);
    var nodes := MediaNodes(data);
    var i :| 0 <= i < |nodes| && nodes[i] == o;
    NodeVideosHasEntry(o, items, k, u);
    CollectVideos(data);
  }

  /** `collect_links` keeps every non-empty string found under `video_url`, as the key-value
      scan reaches it. */
  lemma CollectHasVideoUrls(data: Json, p: seq<Step>, u: string)
    requires CollectSets(data).Ok?
    requires KeyHit(data, p, "video_url", Str(u)) && u != ""
    ensures u in CollectSets(data).value.vids
  {
    KeyHitFound(data, p, "video_url", Str(u));
    NonEmptyStringIn(KeyValues(data, "video_url"), u);
    CollectVideos(data);
  }

  lemma NonEmptyStringIn(named: seq<Json>, u: string)
    requires Str(u) in named && u != ""
    ensures u in Gather(named, NonEmptyString).value
  {
    var i :| 0 <= i < |named| && named[i] == Str(u);
    assert u in NonEmptyString(named[i]).value;
  }

  /** A dict holding the entry `k: w`; when a key repeats, any of its entries. */
  ghost predicate HasEntry(o: Json, k: string, w: Json)
  {
    o.Obj? && Entry(k, w) in o.members
  }

  /** A list with a dict entry whose `url` is `u`. */
  ghost predicate ListsUrl(w: Json, u: string)
  {
    w.Arr? && exists j :: 0 <= j < |w.items| && HasEntry(w.items[j], "url", Str(u))
  }

  /** A dict that names the video `u`: as its `video_url`, or as the `url` of an entry of its
      `video_versions` list. */
  ghost predicate VideoAt(o: Json, u: string)
  {
    HasEntry(o, "video_url", Str(u)) || exists w :: HasEntry(o, "video_versions", w) && ListsUrl(w, u)
  }

  /** Some dict of the response names the video `u`. */
  ghost predicate VideoSomewhere(data: Json, u: string)
  {
    exists p, o :: At(data, p) == Some(o) && VideoAt(o, u)
  }

  /** `v.get(k)` reads an entry of `v`. */
  lemma MemberEntry(v: Json, k: string, w: Json)
    requires Member(v, k) == Some(w)
    ensures HasEntry(v, k, w)
  {
    var i := Find(v.members, k).value;
    assert v.members[i] == Entry(k, w);
  }

  /** A value the key scan reaches is the value of an entry of some dict of `v`. */
  lemma {:induction false} KeyHitEntry(v: Json, p: seq<Step>, k: string, w: Json)
    requires KeyHit(v, p, k, w)
    ensures exists q, o :: At(v, q) == Some(o) && HasEntry(o, k, w)
    decreases p
  {
    match p[0]
    case Field(i) =>
      if v.members[i].key == k {
        assert v.members[i] == Entry(k, w);
        assert At(v, []) == Some(v);
      } else {
        KeyHitEntry(v.members[i].value, p[1..], k, w);
        var q, o :| At(v.members[i].value, q) == Some(o) && HasEntry(o, k, w);
        assert ([Field(i)] + q)[1..] == q;
        assert At(v, [Field(i)] + q) == Some(o);
      }
    case Item(i) =>
      KeyHitEntry(v.items[i], p[1..], k, w);
      var q, o :| At(v.items[i], q) == Some(o) && HasEntry(o, k, w);
      assert ([Item(i)] + q)[1..] == q;
      assert At(v, [Item(i)] + q) == Some(o);
  }

  /** A video of one media node is a non-empty URL the node names. */
  lemma NodeVideosSound(node: Json, u: string)
    requires NodeVideos(node).Ok? && u in NodeVideos(node).value
    ensures u != "" && VideoAt(node, u)
  {
    var vvs := VideoVersionsOr(node);
    if u in SingleVideoUrl(node) {
      MemberEntry(node, "video_url", Str(u));
    } else {
      var j :| 0 <= j < |vvs.items| && u in EntryUrl(vvs.items[j]).value;
      MemberEntry(node, "video_versions", vvs);
      MemberEntry(vvs.items[j], "url", Str(u));
      assert ListsUrl(vvs, u);
    }
  }

  /** A video of a list found under `video_versions` is the non-empty `url` of one of its
      entries. */
  lemma ListedVideosSound(w: Json, u: string)
    requires ListedVideos(w).Ok? && u in ListedVideos(w).value
    ensures u != "" && ListsUrl(w, u)
  {
    var j :| 0 <= j < |w.items| && u in LenientUrl(w.items[j]).value;
    MemberEntry(w.items[j], "url", Str(u));
  }

  /** A value the key scan finds under `k` is the value of a `k` entry of some dict. */
  lemma KeyValuesEntry(data: Json, k: string, w: Json)
    requires w in KeyValues(data, k)
    ensures exists q, o :: At(data, q) == Some(o) && HasEntry(o, k, w)
  {
    KeyValuesPaths(data, k, w);
    var p :| KeyHit(data, p, k, w);
    KeyHitEntry(data, p, k, w);
  }

  /** Every video `collect_links` returns is a non-empty URL that some dict of the response
      names, as its `video_url` or in its `video_versions` list. */
  lemma CollectSound(data: Json, u: string)
    requires CollectSets(data).Ok? && u in CollectSets(data).value.vids
    ensures u != "" && VideoSomewhere(data, u)
  {
    CollectVideos(data);
    var nodes, listed, named := MediaNodes(data), VideoVersions(data), KeyValues(data, "video_url");
    if u in Gather(nodes, NodeVideos).value {
      var i :| 0 <= i < |nodes| && u in NodeVideos(nodes[i]).value;
      NodeVideosSound(nodes[i], u);
      MediaNodesReachable(data, nodes[i]);
      var p :| At(data, p) == Some(nodes[i]);
    } else if u in Gather(listed, ListedVideos).value {
      var i :| 0 <= i < |listed| && u in ListedVideos(listed[i]).value;
      ListedVideosSound(listed[i], u);
      VideoVersionsAreKeyValues(data);
      KeyValuesEntry(data, "video_versions", listed[i]);
      var q, o :| At(data, q) == Some(o) && HasEntry(o, "video_versions", listed[i]);
      assert VideoAt(o, u);
    } else {
      var i :| 0 <= i < |named| && u in NonEmptyString(named[i]).value;
      assert named[i] == Str(u);
      KeyValuesEntry(data, "video_url", named[i]);
      var q, o :| At(data, q) == Some(o) && HasEntry(o, "video_url", named[i]);
      assert VideoAt(o, u);
    }
  }
}
