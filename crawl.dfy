/** The pagination loop of `run`: fetch a page, merge its links, and follow the page cursor
    until a fetch fails, the item cap is reached or the page info says there is no next page.
    The server is a finite script `pages`: `pages[k]` is the reply to the k-th request, read
    through `fetch_response`; a request past the end of the script fails. */
module Crawl {
  import opened Wrappers
  import opened OrderedDicts
  import opened Json
  import opened Walkers
  import opened Extraction

  /** `_variables(after, count)`: the GraphQL variables of one request. */
  function Variables(username: string, after: Json, count: int): (r: Json)
    ensures r.Obj? && UniqueKeys(r.members)
    ensures Member(r, "username") == Some(Str(username))
    ensures HasMember(r, "after") <==> Truthy(after)
    ensures Truthy(after) ==> Member(r, "after") == Some(after)
  {
    var base := BaseVariables(username, count);
    BaseVariablesSpec(username, count);
    Obj(if Truthy(after) then Put(base, "after", after) else base)
  }

  /** The variables every request carries, before the optional `after`. */
  function BaseVariables(username: string, count: int): Dict<Json>
  {
    var data := Obj([
      Entry("count", Int(count)),
      Entry("include_reel_media_seen_timestamp", Bool(true)),
      Entry("include_relationship_info", Bool(true)),
      Entry("latest_besties_reel_media", Bool(true)),
      Entry("latest_reel_media", Bool(true))]);
    [Entry("data", data),
     Entry("username", Str(username)),
     Entry("__relay_internal__pv__PolarisIsLoggedInrelayprovider", Bool(true))]
  }

  lemma BaseVariablesSpec(username: string, count: int)
    ensures var b := BaseVariables(username, count);
      UniqueKeys(b) && Get(b, "username") == Some(Str(username)) && !HasKey(b, "after")
  {
    var b := BaseVariables(username, count);
    assert b[0].key != b[1].key && b[0].key != b[2].key && b[1].key != b[2].key;
    assert b[0].key != "username" && b[1].key == "username";
    assert b[0].key != "after" && b[1].key != "after" && b[2].key != "after";
  }

  /** `fetch_response`: the decoded body of a reply with status 200, `None` for any other
      status or a body that is not JSON. */
  function Response(status: int, decoded: Option<Json>): (r: Option<Json>)
    ensures r.Some? <==> status == 200 && decoded.Some?
    ensures r.Some? ==> r == decoded
  {
    if status != 200 then None else decoded
  }

  /** The `after` of the next request when the page info of `data` allows one: `has_next_page`
      and `end_cursor` both truthy. */
  function NextCursor(data: Json): (r: Option<Json>)
    ensures r.Some? ==> Truthy(r.value)
    ensures r.Some? ==>
      FindPageInfo(data).Some? &&
      Truthy(MemberOr(FindPageInfo(data).value, "has_next_page", Null)) &&
      Member(FindPageInfo(data).value, "end_cursor") == Some(r.value)
    ensures (FindPageInfo(data).Some? &&
             Truthy(MemberOr(FindPageInfo(data).value, "has_next_page", Null)) &&
             Truthy(MemberOr(FindPageInfo(data).value, "end_cursor", Null))) ==>
      r == Some(MemberOr(FindPageInfo(data).value, "end_cursor", Null))
  {
    var pi := FindPageInfo(data);
    FindPageInfoFirst(data);
    assert pi.Some? ==> Truthy(pi.value) by {
      if pi.Some? { PageInfoTruthy(pi.value); }
    }
    var hasNext := pi.Some? && Truthy(pi.value) && Truthy(MemberOr(pi.value, "has_next_page", Null));
    var endCursor := if pi.Some? && Truthy(pi.value) then MemberOr(pi.value, "end_cursor", Null) else Null;
    if !hasNext || !Truthy(endCursor) then None else Some(endCursor)
  }

  /** `len(all_imgs) + len(all_vids) >= max_items` */
  predicate CapReached(imgs: set<string>, vids: set<string>, cap: Option<int>)
  {
    cap.Some? && |imgs| + |vids| >= cap.value
  }

  /** A reply to the GraphQL POST: its status code and its body decoded as JSON (`None` when
      the body is not JSON). */
  datatype PostReply = PostReply(status: int, body: Option<Json>)

  /** What `fetch_response` returns for the k-th request of the script. */
  function FetchAt(pages: seq<PostReply>, k: nat): Option<Json>
  {
    if k < |pages| then Response(pages[k].status, pages[k].body) else None
  }

  /** The state the loop ends in: the two URL sets and the cursor sent with each request. */
  datatype Crawled = Crawled(imgs: set<string>, vids: set<string>, sent: seq<Json>)

  /** The loop from its k-th request on, with cursor `after` and the sets gathered so far;
      `collect` gathers the links of one page (`collect_links`). */
  function CrawlFrom(pages: seq<PostReply>, k: nat, after: Json, cap: Option<int>,
                     imgs: set<string>, vids: set<string>, sent: seq<Json>,
                     collect: Json -> Result<UrlSets>): Result<Crawled>
    requires k <= |pages|
    decreases |pages| - k
  {
    var sent' := sent + [after];
    var data := FetchAt(pages, k);
    if data.None? || !Truthy(data.value) then Ok(Crawled(imgs, vids, sent'))
    else match collect(data.value)
      case Raised => Raised
      case Ok(found) =>
        var imgs', vids' := imgs + found.imgs, vids + found.vids;
        if CapReached(imgs', vids', cap) then Ok(Crawled(imgs', vids', sent'))
        else match NextCursor(data.value)
          case None => Ok(Crawled(imgs', vids', sent'))
          case Some(c) => CrawlFrom(pages, k + 1, c, cap, imgs', vids', sent', collect)
  }

  /** The whole loop: the first request carries no cursor. */
  function CrawlAll(pages: seq<PostReply>, cap: Option<int>): Result<Crawled>
  {
    CrawlFrom(pages, 0, Null, cap, {}, {}, [], CollectSets)
  }

  /** One round of the loop that neither stops nor raises hands on to the next request. */
  lemma CrawlStep(pages: seq<PostReply>, k: nat, after: Json, cap: Option<int>,
                  imgs: set<string>, vids: set<string>, sent: seq<Json>,
                  collect: Json -> Result<UrlSets>, found: UrlSets, c: Json)
    requires k < |pages| && FetchAt(pages, k).Some? && Truthy(FetchAt(pages, k).value)
    requires collect(FetchAt(pages, k).value) == Ok(found)
    requires !CapReached(imgs + found.imgs, vids + found.vids, cap)
    requires NextCursor(FetchAt(pages, k).value) == Some(c)
    ensures CrawlFrom(pages, k, after, cap, imgs, vids, sent, collect) ==
            CrawlFrom(pages, k + 1, c, cap, imgs + found.imgs, vids + found.vids, sent + [after], collect)
  {
  }

  method CrawlLoop(pages: seq<PostReply>, cap: Option<int>) returns (r: Result<Crawled>)
    ensures r == CrawlAll(pages, cap)
  {
    var allImgs: set<string> := {};
    var allVids: set<string> := {};
    var after := Null;
    var sent: seq<Json> := [];
    var k := 0;
    ghost var goal := CrawlAll(pages, cap);
    while true
      invariant k <= |pages|
      invariant goal == CrawlFrom(pages, k, after, cap, allImgs, allVids, sent, CollectSets)
      decreases |pages| - k
    {
      var data := FetchAt(pages, k);
      ghost var sent0, imgs0, vids0 := sent, allImgs, allVids;
      sent := sent + [after];
      if data.None? || !Truthy(data.value) {
        break;
      }
      var found := CollectLinks(data.value);
      if found.Raised? {
        return Raised;
      }
      allImgs := allImgs + found.value.imgs;
      allVids := allVids + found.value.vids;
      if cap.Some? && |allImgs| + |allVids| >= cap.value {
        break;
      }
      var pi := FindPageInfo(data.value);
      var hasNext := pi.Some? && Truthy(pi.value) && Truthy(MemberOr(pi.value, "has_next_page", Null));
      var endCursor := if pi.Some? && Truthy(pi.value) then MemberOr(pi.value, "end_cursor", Null) else Null;
      if !hasNext || !Truthy(endCursor) {
        break;
      }
      assert NextCursor(data.value) == Some(endCursor);
      CrawlStep(pages, k, after, cap, imgs0, vids0, sent0, CollectSets, found.value, endCursor);
      after := endCursor;
      k := k + 1;
      assert goal == CrawlFrom(pages, k, after, cap, allImgs, allVids, sent, CollectSets);
    }
    return Ok(Crawled(allImgs, allVids, sent));
  }
}
