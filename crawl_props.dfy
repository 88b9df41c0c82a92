/** Properties of the pagination loop. */
module CrawlProps {
  import opened Wrappers
  import opened Json
  import opened Extraction
  import opened Crawl

  /** What the j-th fetch adds: the links of a truthy page that `collect` reads, else nothing. */
  ghost function PageSets(pages: seq<PostReply>, j: nat, collect: Json -> Result<UrlSets>): UrlSets
  {
    var data := FetchAt(pages, j);
    if data.Some? && Truthy(data.value) && collect(data.value).Ok? then collect(data.value).value
    else UrlSets({}, {})
  }

  /** The union of what the fetches k up to (not including) n add. */
  ghost function Gathered(pages: seq<PostReply>, k: nat, n: nat, collect: Json -> Result<UrlSets>): UrlSets
    decreases n - k
  {
    if n <= k then UrlSets({}, {})
    else
      var here, rest := PageSets(pages, k, collect), Gathered(pages, k + 1, n, collect);
      UrlSets(here.imgs + rest.imgs, here.vids + rest.vids)
  }

  /** A link is gathered from fetches k..n-1 exactly when one of them adds it. */
  lemma {:induction false} GatheredIn(pages: seq<PostReply>, k: nat, n: nat,
                                      collect: Json -> Result<UrlSets>, u: string)
    ensures u in Gathered(pages, k, n, collect).imgs <==>
      exists j :: k <= j < n && u in PageSets(pages, j, collect).imgs
    ensures u in Gathered(pages, k, n, collect).vids <==>
      exists j :: k <= j < n && u in PageSets(pages, j, collect).vids
    decreases n - k
  {
    if k < n {
      GatheredIn(pages, k + 1, n, collect, u);
    }
  }

  /** How the loop ends, given that it does not raise: every request after the first carries the
      cursor of the page before it, the sets are what they started as plus exactly what the
      fetched pages yield, no request before the last had reached the cap, and the last request
      is the one where a stop condition holds. */
  ghost predicate Chained(pages: seq<PostReply>, k: nat, after: Json, cap: Option<int>,
                          imgs: set<string>, vids: set<string>, sent: seq<Json>,
                          collect: Json -> Result<UrlSets>, c: Crawled)
  {
    k < |c.sent| <= |pages| + 1 &&
    CursorChain(pages, k, after, sent, c) &&
    SetsChain(pages, k, cap, imgs, vids, collect, c) &&
    StopsAtLast(pages, cap, c)
  }

  /** Requests k on: the k-th sends `after`, each later one the cursor of the page before it. */
  ghost predicate CursorChain(pages: seq<PostReply>, k: nat, after: Json, sent: seq<Json>, c: Crawled)
  {
    k < |c.sent| && c.sent[..k] == sent && c.sent[k] == after &&
    forall i :: k <= i < |c.sent| - 1 ==>
      FetchAt(pages, i).Some? && NextCursor(FetchAt(pages, i).value) == Some(c.sent[i + 1])
  }

  /** Requests k on: each fetched truthy page is read, the sets end as `imgs` and `vids` plus
      what the fetched pages yield, and no request before the last had reached the cap. */
  ghost predicate SetsChain(pages: seq<PostReply>, k: nat, cap: Option<int>,
                            imgs: set<string>, vids: set<string>,
                            collect: Json -> Result<UrlSets>, c: Crawled)
  {
    (forall i :: k <= i < |c.sent| && FetchAt(pages, i).Some? && Truthy(FetchAt(pages, i).value) ==>
      collect(FetchAt(pages, i).value).Ok?) &&
    c.imgs == imgs + Gathered(pages, k, |c.sent|, collect).imgs &&
    c.vids == vids + Gathered(pages, k, |c.sent|, collect).vids &&
    forall i :: k < i < |c.sent| ==>
      !CapReached(imgs + Gathered(pages, k, i, collect).imgs, vids + Gathered(pages, k, i, collect).vids, cap)
  }

  /** The last request is one where the loop stops. */
  ghost predicate StopsAtLast(pages: seq<PostReply>, cap: Option<int>, c: Crawled)
  {
    |c.sent| > 0 &&
    var last := FetchAt(pages, |c.sent| - 1);
    last.None? || !Truthy(last.value) || CapReached(c.imgs, c.vids, cap) || NextCursor(last.value).None?
  }

  lemma {:induction false} CrawlFromChained(pages: seq<PostReply>, k: nat, after: Json,
                                            cap: Option<int>, imgs: set<string>, vids: set<string>,
                                            sent: seq<Json>, collect: Json -> Result<UrlSets>)
    requires k <= |pages| && k == |sent|
    requires CrawlFrom(pages, k, after, cap, imgs, vids, sent, collect).Ok?
    ensures Chained(pages, k, after, cap, imgs, vids, sent, collect,
                    CrawlFrom(pages, k, after, cap, imgs, vids, sent, collect).value)
    decreases |pages| - k
  {
    var data := FetchAt(pages, k);
    if data.None? || !Truthy(data.value) {
      ChainedStop(pages, k, after, cap, imgs, vids, sent, collect);
    } else {
      var found := collect(data.value).value;
      var imgs', vids' := imgs + found.imgs, vids + found.vids;
      if CapReached(imgs', vids', cap) || NextCursor(data.value).None? {
        ChainedStop(pages, k, after, cap, imgs, vids, sent, collect);
      } else {
        var next := NextCursor(data.value).value;
        CrawlFromChained(pages, k + 1, next, cap, imgs', vids', sent + [after], collect);
        ChainedStep(pages, k, after, cap, imgs, vids, sent, collect, found, next,
                    CrawlFrom(pages, k + 1, next, cap, imgs', vids', sent + [after], collect).value);
      }
    }
  }

  /** A request where the loop stops. */
  lemma ChainedStop(pages: seq<PostReply>, k: nat, after: Json,
                    cap: Option<int>, imgs: set<string>, vids: set<string>,
                    sent: seq<Json>, collect: Json -> Result<UrlSets>)
    requires k <= |pages| && k == |sent|
    requires CrawlFrom(pages, k, after, cap, imgs, vids, sent, collect).Ok?
    requires var data := FetchAt(pages, k);
      data.None? || !Truthy(data.value) ||
      CapReached(imgs + collect(data.value).value.imgs, vids + collect(data.value).value.vids, cap) ||
      NextCursor(data.value).None?
    ensures Chained(pages, k, after, cap, imgs, vids, sent, collect,
                    CrawlFrom(pages, k, after, cap, imgs, vids, sent, collect).value)
  {
    var c := CrawlFrom(pages, k, after, cap, imgs, vids, sent, collect).value;
    assert c.sent == sent + [after];
  }

  /** A request after which the loop goes on: the chain from the next request extends back. */
  lemma ChainedStep(pages: seq<PostReply>, k: nat, after: Json,
                    cap: Option<int>, imgs: set<string>, vids: set<string>,
                    sent: seq<Json>, collect: Json -> Result<UrlSets>,
                    found: UrlSets, next: Json, c: Crawled)
    requires k < |pages| && k == |sent|
    requires FetchAt(pages, k).Some? && Truthy(FetchAt(pages, k).value)
    requires collect(FetchAt(pages, k).value) == Ok(found)
    requires NextCursor(FetchAt(pages, k).value) == Some(next)
    requires !CapReached(imgs + found.imgs, vids + found.vids, cap)
    requires Chained(pages, k + 1, next, cap, imgs + found.imgs, vids + found.vids, sent + [after], collect, c)
    ensures Chained(pages, k, after, cap, imgs, vids, sent, collect, c)
  {
    CursorStep(pages, k, after, sent, next, c);
    SetsStep(pages, k, cap, imgs, vids, collect, found, c);
  }

  lemma CursorStep(pages: seq<PostReply>, k: nat, after: Json, sent: seq<Json>, next: Json, c: Crawled)
    requires k == |sent|
    requires FetchAt(pages, k).Some? && NextCursor(FetchAt(pages, k).value) == Some(next)
    requires CursorChain(pages, k + 1, next, sent + [after], c)
    ensures CursorChain(pages, k, after, sent, c)
  {
    assert c.sent[..k + 1] == sent + [after];
    assert c.sent[..k] == (sent + [after])[..k];
  }

  lemma SetsStep(pages: seq<PostReply>, k: nat, cap: Option<int>, imgs: set<string>,
                 vids: set<string>, collect: Json -> Result<UrlSets>, found: UrlSets, c: Crawled)
    requires k + 1 < |c.sent|
    requires FetchAt(pages, k).Some? && Truthy(FetchAt(pages, k).value)
    requires collect(FetchAt(pages, k).value) == Ok(found)
    requires !CapReached(imgs + found.imgs, vids + found.vids, cap)
    requires SetsChain(pages, k + 1, cap, imgs + found.imgs, vids + found.vids, collect, c)
    ensures SetsChain(pages, k, cap, imgs, vids, collect, c)
  {
    var n := |c.sent|;
    GatheredFirst(pages, k, n, collect, found);
    forall i | k < i < n
      ensures !CapReached(imgs + Gathered(pages, k, i, collect).imgs, vids + Gathered(pages, k, i, collect).vids, cap)
    {
      GatheredFirst(pages, k, i, collect, found);
    }
  }

  /** Peeling the first fetch off a gathered union, merged into the starting sets. */
  lemma GatheredFirst(pages: seq<PostReply>, k: nat, n: nat, collect: Json -> Result<UrlSets>, found: UrlSets)
    requires k < n
    requires FetchAt(pages, k).Some? && Truthy(FetchAt(pages, k).value)
    requires collect(FetchAt(pages, k).value) == Ok(found)
    ensures forall a: set<string> :: a + Gathered(pages, k, n, collect).imgs == (a + found.imgs) + Gathered(pages, k + 1, n, collect).imgs
    ensures forall a: set<string> :: a + Gathered(pages, k, n, collect).vids == (a + found.vids) + Gathered(pages, k + 1, n, collect).vids
  {
    assert PageSets(pages, k, collect) == found;
  }

  /** The loop as a whole: the first request has no cursor, each later one the cursor of the
      page before it, and at most one request more than the script has pages is made. */
  lemma CrawlAllChained(pages: seq<PostReply>, cap: Option<int>)
    requires CrawlAll(pages, cap).Ok?
    ensures var c := CrawlAll(pages, cap).value;
      Chained(pages, 0, Null, cap, {}, {}, [], CollectSets, c) && c.sent[0] == Null
  {
    CrawlFromChained(pages, 0, Null, cap, {}, {}, [], CollectSets);
  }

  /** A reply whose status is not 200, or whose body is not JSON, ends the loop: no request
      follows it. */
  lemma FailedReplyEndsCrawl(pages: seq<PostReply>, cap: Option<int>, k: nat)
    requires CrawlAll(pages, cap).Ok?
    requires k < |CrawlAll(pages, cap).value.sent|
    requires k >= |pages| || pages[k].status != 200 || pages[k].body.None?
    ensures k == |CrawlAll(pages, cap).value.sent| - 1
  {
    CrawlAllChained(pages, cap);
    assert FetchAt(pages, k).None?;
  }

  /** A failed or falsy first fetch (`None`, `{}`, `[]`) ends the loop with nothing gathered. */
  lemma FirstFetchStops(pages: seq<PostReply>, cap: Option<int>)
    requires FetchAt(pages, 0).None? || !Truthy(FetchAt(pages, 0).value)
    ensures CrawlAll(pages, cap) == Ok(Crawled({}, {}, [Null]))
  {
    assert [] + [Null] == [Null];
  }

  /** The cap is checked before the page info: a first page that reaches the cap ends the loop
      even when it announces a next page. */
  lemma CapBeforePageInfo(pages: seq<PostReply>, cap: Option<int>, found: UrlSets)
    requires FetchAt(pages, 0).Some? && Truthy(FetchAt(pages, 0).value)
    requires CollectSets(FetchAt(pages, 0).value) == Ok(found)
    requires CapReached(found.imgs, found.vids, cap)
    ensures CrawlAll(pages, cap) == Ok(Crawled(found.imgs, found.vids, [Null]))
  {
    assert {} + found.imgs == found.imgs && {} + found.vids == found.vids;
    assert [] + [Null] == [Null];
  }

  /** A request after the first carries a truthy cursor, so its variables include `after`. */
  lemma LaterRequestsCarryCursor(pages: seq<PostReply>, cap: Option<int>, username: string,
                                 count: int, i: nat)
    requires CrawlAll(pages, cap).Ok?
    requires 0 < i < |CrawlAll(pages, cap).value.sent|
    ensures var after := CrawlAll(pages, cap).value.sent[i];
      Member(Variables(username, after, count), "after") == Some(after)
  {
    CrawlAllChained(pages, cap);
    var c := CrawlAll(pages, cap).value;
    assert NextCursor(FetchAt(pages, i - 1).value) == Some(c.sent[i]);
  }

  /** The first request carries no cursor. */
  lemma FirstRequestHasNoCursor(username: string, count: int)
    ensures !HasMember(Variables(username, Null, count), "after")
  {
  }
}
