/** The end of `run`: the gathered sets are sorted, images before videos, cut to `max_items`,
    split back into the image and the video list, and the combined list is downloaded. */
module Run {
  import opened Wrappers
  import opened Seqs
  import opened Sorting
  import opened Json
  import opened Crawl
  import opened Download

  /** `s[:n]` for any integer `n`: a negative `n` leaves out that many elements at the end. */
  function PyPrefix<T>(s: seq<T>, n: int): (r: seq<T>)
    ensures r <= s
    ensures n >= 0 ==> |r| == if n <= |s| then n else |s|
    ensures n < 0 ==> |r| == if |s| + n > 0 then |s| + n else 0
  {
    if n >= 0 then Take(s, n) else if |s| + n > 0 then s[..|s| + n] else []
  }

  /** Membership in a set, as a filter condition: `u in all_imgs`. */
  function InSet(s: set<string>): string -> bool
  {
    u => u in s
  }

  /** `combined` and the two split lists written to the link files. */
  datatype Final = Final(combined: seq<string>, images: seq<string>, videos: seq<string>)

  /** The finalisation of `run` for the gathered `imgs` and `vids` and the cap `max_items`. */
  ghost function Finalised(imgs: set<string>, vids: set<string>, cap: Option<int>): Final
  {
    var all := SortedOf(imgs) + SortedOf(vids);
    var combined := if cap.Some? then PyPrefix(all, cap.value) else all;
    Final(combined, SortSeq(Filter(InSet(imgs), combined)), SortSeq(Filter(InSet(vids), combined)))
  }

  method Finalise(imgs: set<string>, vids: set<string>, cap: Option<int>) returns (f: Final)
    ensures f == Finalised(imgs, vids, cap)
  {
    var imgsSorted := SortSet(imgs);
    var vidsSorted := SortSet(vids);
    var combined := imgsSorted + vidsSorted;
    if cap.Some? {
      combined := PyPrefix(combined, cap.value);
    }
    var cappedImgs := Filter(InSet(imgs), combined);
    var cappedVids := Filter(InSet(vids), combined);
    f := Final(combined, SortSeq(cappedImgs), SortSeq(cappedVids));
  }

  /** Without a cap every link is kept; with a cap `n >= 0` exactly `min(n, |imgs| + |vids|)`
      are; either way `combined` starts the sorted images followed by the sorted videos. */
  lemma FinalisedLength(imgs: set<string>, vids: set<string>, cap: Option<int>)
    ensures var c := Finalised(imgs, vids, cap).combined;
      c <= SortedOf(imgs) + SortedOf(vids) &&
      (cap.None? ==> |c| == |imgs| + |vids|) &&
      (cap.Some? && cap.value >= 0 ==>
        |c| == if cap.value <= |imgs| + |vids| then cap.value else |imgs| + |vids|)
  {
  }

  /** `sorted([u for u in combined if u in s])` holds exactly the links of `combined` in `s`. */
  lemma SplitMembers(s: set<string>, combined: seq<string>)
    ensures forall u :: u in SortSeq(Filter(InSet(s), combined)) <==> u in combined && u in s
  {
    SortFilterMembers(InSet(s), combined);
  }

  lemma SortFilterMembers(f: string -> bool, c: seq<string>)
    ensures forall u :: u in SortSeq(Filter(f, c)) <==> u in c && f(u)
  {
    var kept := Filter(f, c);
    var r := SortSeq(kept);
    forall u ensures u in r <==> u in kept {
      assert u in r <==> u in multiset(r);
      assert u in kept <==> u in multiset(kept);
    }
  }

  /** The split lists are sorted and hold exactly the links of `combined` that are images,
      respectively videos. */
  lemma FinalisedSplit(imgs: set<string>, vids: set<string>, cap: Option<int>)
    ensures var f := Finalised(imgs, vids, cap);
      Sorted(f.images) && Sorted(f.videos) &&
      (forall u :: u in f.images <==> u in f.combined && u in imgs) &&
      (forall u :: u in f.videos <==> u in f.combined && u in vids)
  {
    var f := Finalised(imgs, vids, cap);
    SplitMembers(imgs, f.combined);
    SplitMembers(vids, f.combined);
  }

  lemma TakeSorted(s: seq<string>, n: nat)
    requires Sorted(s)
    ensures Sorted(Take(s, n))
  {
  }

  /** Filtering a sorted run of members followed by non-members keeps the run as it is. */
  lemma SplitRun(s: set<string>, a: seq<string>, b: seq<string>)
    requires Sorted(a)
    requires forall i :: 0 <= i < |a| ==> a[i] in s
    requires forall i :: 0 <= i < |b| ==> b[i] !in s
    ensures SortSeq(Filter(InSet(s), a + b)) == a
  {
    FilterConcat(InSet(s), a, b);
    FilterAll(InSet(s), a);
    FilterNone(InSet(s), b);
    assert Filter(InSet(s), a + b) == a;
    SortSeqSorted(a);
  }

  /** Filtering non-members followed by a sorted run of members keeps the run as it is. */
  lemma SplitRunAfter(s: set<string>, a: seq<string>, b: seq<string>)
    requires Sorted(b)
    requires forall i :: 0 <= i < |a| ==> a[i] !in s
    requires forall i :: 0 <= i < |b| ==> b[i] in s
    ensures SortSeq(Filter(InSet(s), a + b)) == b
  {
    FilterConcat(InSet(s), a, b);
    FilterNone(InSet(s), a);
    FilterAll(InSet(s), b);
    assert Filter(InSet(s), a + b) == b;
    SortSeqSorted(b);
  }

  /** When no link is both an image and a video, the image list is the first `n` sorted
      images and the video list holds the sorted videos that still fit under the cap. */
  lemma FinalisedDisjoint(imgs: set<string>, vids: set<string>, n: nat)
    requires imgs !! vids
    ensures var f := Finalised(imgs, vids, Some(n));
      f.images == Take(SortedOf(imgs), n) &&
      f.videos == (if n <= |imgs| then [] else Take(SortedOf(vids), n - |imgs|))
  {
    var si, sv := SortedOf(imgs), SortedOf(vids);
    var a := Take(si, n);
    var b := if n <= |imgs| then [] else Take(sv, n - |imgs|);
    assert PyPrefix(si + sv, n) == a + b;
    StrictlySortedIsSorted(si);
    StrictlySortedIsSorted(sv);
    TakeSorted(si, n);
    if n > |imgs| {
      TakeSorted(sv, n - |imgs|);
    }
    SplitRun(imgs, a, b);
    SplitRunAfter(vids, a, b);
  }

  /** What `run` leaves behind: the finalised lists and, when anything was downloaded, the
      number saved and the download directories afterwards. */
  datatype Outcome = Outcome(final: Final, count: nat, folders: Folders)

  /** The whole of `run`: crawl, finalise, then download `combined` unless it is empty; the
      i-th download request gets reply `transport(i)`. */
  ghost function RunResult(pages: seq<PostReply>, cap: Option<int>, prefix: string,
                           suffix: string -> string, transport: nat -> Reply, start: Folders): Result<Outcome>
  {
    match CrawlAll(pages, cap)
    case Raised => Raised
    case Ok(c) =>
      var f := Finalised(c.imgs, c.vids, cap);
      if f.combined == [] then Ok(Outcome(f, 0, start))
      else
        var d := DownloadAll(prefix, f.combined, suffix, transport, start);
        Ok(Outcome(f, d.count, d.folders))
  }

  /** `run(max_items)`. */
  method RunAll(pages: seq<PostReply>, cap: Option<int>, prefix: string,
                suffix: string -> string, transport: nat -> Reply, start: Folders) returns (r: Result<Outcome>)
    ensures r == RunResult(pages, cap, prefix, suffix, transport, start)
  {
    var crawled := CrawlLoop(pages, cap);
    if crawled.Raised? {
      return Raised;
    }
    var f := Finalise(crawled.value.imgs, crawled.value.vids, cap);
    if f.combined == [] {
      return Ok(Outcome(f, 0, start));
    }
    var count, folders := DownloadLinks(prefix, f.combined, suffix, transport, start);
    return Ok(Outcome(f, count, folders));
  }

  /** At most one file is saved per link of `combined`, so never more than `max_items`. */
  lemma RunDownloadsAtMostCap(pages: seq<PostReply>, cap: Option<int>, prefix: string,
                              suffix: string -> string, transport: nat -> Reply, start: Folders)
    requires RunResult(pages, cap, prefix, suffix, transport, start).Ok?
    ensures var o := RunResult(pages, cap, prefix, suffix, transport, start).value;
      o.count <= |o.final.combined| &&
      (cap.Some? && cap.value >= 0 ==> o.count <= cap.value)
  {
    var c := CrawlAll(pages, cap).value;
    var f := Finalised(c.imgs, c.vids, cap);
    FinalisedLength(c.imgs, c.vids, cap);
    if f.combined != [] {
      DownloadCount(prefix, f.combined, suffix, transport, start);
    }
  }
}
