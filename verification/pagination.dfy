/** The page loop of `get_all_articles`, driven by the finite sequence of
    responses its requests receive (each already passed through the retry
    wrapper). The loop itself has no bound: a next link without `page_info`
    leaves the request parameters as they were and the loop goes on, so the
    finite response sequence is what ends it in the model. */
module Pagination {
  import opened Wrappers
  import opened Shop
  import opened Http
  import opened LinkHeader

  /** Page size requested. */
  const PageLimit: int := 250

  /** The query parameters of one article-listing request. */
  datatype Params = Params(limit: int, pageInfo: Option<string>)

  /** Parameters of the first request: no cursor. */
  const FirstParams: Params := Params(PageLimit, None)

  /** `if page_info: params['page_info'] = page_info`: a present, non-empty
      cursor replaces the previous one; otherwise the parameters stay. */
  function Advance(params: Params, cursor: Option<string>): (next: Params)
    ensures next.limit == params.limit
    ensures cursor.Some? && cursor.value != "" ==> next.pageInfo == cursor
    ensures cursor.None? || cursor.value == "" ==> next == params
  {
    if cursor.Some? && cursor.value != "" then params.(pageInfo := cursor) else params
  }

  /** What the loop reads from one response: its status, what its `Link`
      header says about a next page, and the articles of its body. */
  datatype Page = Page(status: int, next: NextPage, articles: seq<Article>)

  /** The page view of a response. */
  function PageOf(r: Response): Page
  {
    Page(r.status, NextPageOf(r.link), r.articles)
  }

  /** The page views of a sequence of responses. */
  function PagesOf(rs: seq<Response>): (pages: seq<Page>)
    ensures |pages| == |rs|
    ensures forall i :: 0 <= i < |rs| ==> pages[i] == PageOf(rs[i])
  {
    seq(|rs|, i requires 0 <= i < |rs| => PageOf(rs[i]))
  }

  /** The loop asks for another page after this one. */
  predicate Continues(pg: Page)
  {
    pg.status == 200 && pg.next.Follow?
  }

  /** The articles of the successful pages among `pages`, in order. */
  function Gathered(pages: seq<Page>): seq<Article>
  {
    if |pages| == 0 then []
    else (if pages[0].status == 200 then pages[0].articles else []) + Gathered(pages[1..])
  }

  /** What the loop produced: the accumulated articles, the parameters of
      every request it sent (one per page consumed), and whether it left the
      loop by itself (`false`: the responses ran out first). */
  datatype Fetched = Fetched(articles: seq<Article>, sent: seq<Params>, complete: bool)

  /** The loop from a request with `params` on, over the pages its requests
      receive: one request per page consumed, the first with `params`; it
      stops by itself only after consuming a page, and otherwise consumes
      every page. A failed status ends it without an error. */
  function Fetch(pages: seq<Page>, params: Params): (f: Fetched)
    ensures |f.sent| <= |pages|
    ensures |pages| > 0 ==> |f.sent| > 0 && f.sent[0] == params
    ensures !f.complete ==> |f.sent| == |pages|
    decreases |pages|
  {
    if |pages| == 0 then Fetched([], [], false)
    else
      var pg := pages[0];
      if pg.status != 200 then Fetched([], [params], true)
      else
        match pg.next
        case Stop => Fetched(pg.articles, [params], true)
        case Follow(cursor) =>
          var rest := Fetch(pages[1..], Advance(params, cursor));
          Fetched(pg.articles + rest.articles, [params] + rest.sent, rest.complete)
  }

  /** Every consumed page but the last continues the loop. */
  lemma {:induction false} FetchContinuesBeforeLast(pages: seq<Page>, params: Params)
    ensures forall i :: 0 <= i < |Fetch(pages, params).sent| - 1 ==> Continues(pages[i])
    decreases |pages|
  {
    if |pages| > 0 && Continues(pages[0]) {
      FetchContinuesBeforeLast(pages[1..], Advance(params, pages[0].next.pageInfo));
      assert forall i :: 1 <= i < |Fetch(pages, params).sent| ==> pages[i] == pages[1..][i - 1];
    }
  }

  /** The loop leaves by itself exactly when the last page it consumed does
      not continue. */
  lemma {:induction false} FetchCompletes(pages: seq<Page>, params: Params)
    ensures var f := Fetch(pages, params);
            f.complete <==> |f.sent| > 0 && !Continues(pages[|f.sent| - 1])
    decreases |pages|
  {
    if |pages| > 0 && Continues(pages[0]) {
      var p := Advance(params, pages[0].next.pageInfo);
      var rest := Fetch(pages[1..], p);
      FetchCompletes(pages[1..], p);
      assert |rest.sent| > 0 ==> pages[1..][|rest.sent| - 1] == pages[|rest.sent|];
    }
  }

  /** `Gathered` over a page followed by others. */
  lemma GatheredCons(pg: Page, rest: seq<Page>)
    ensures Gathered([pg] + rest) == (if pg.status == 200 then pg.articles else []) + Gathered(rest)
  {
    assert ([pg] + rest)[1..] == rest;
  }

  /** The articles returned are those of the consumed successful pages, in
      order. */
  lemma {:induction false} FetchGathers(pages: seq<Page>, params: Params)
    ensures Fetch(pages, params).articles == Gathered(pages[..|Fetch(pages, params).sent|])
    decreases |pages|
  {
    if |pages| > 0 && Continues(pages[0]) {
      var p := Advance(params, pages[0].next.pageInfo);
      var rest := Fetch(pages[1..], p);
      FetchGathers(pages[1..], p);
      var k := |rest.sent|;
      assert pages[..k + 1] == [pages[0]] + pages[1..][..k];
      GatheredCons(pages[0], pages[1..][..k]);
    } else if |pages| > 0 {
      assert pages[..1] == [pages[0]] + [];
      GatheredCons(pages[0], []);
    }
  }

  /** Each request after the first carries the previous request's parameters
      advanced by the cursor of the page before it. */
  lemma {:induction false} FetchAdvances(pages: seq<Page>, params: Params)
    ensures var f := Fetch(pages, params);
            forall i :: 0 <= i < |f.sent| - 1 ==> pages[i].next.Follow? && f.sent[i + 1] == Advance(f.sent[i], pages[i].next.pageInfo)
    decreases |pages|
  {
    FetchContinuesBeforeLast(pages, params);
    if |pages| > 0 && Continues(pages[0]) {
      var p := Advance(params, pages[0].next.pageInfo);
      var rest := Fetch(pages[1..], p);
      FetchAdvances(pages[1..], p);
      var f := Fetch(pages, params);
      forall i | 0 <= i < |f.sent| - 1
        ensures f.sent[i + 1] == Advance(f.sent[i], pages[i].next.pageInfo)
      {
        if i > 0 {
          assert pages[i] == pages[1..][i - 1];
          assert f.sent[i] == rest.sent[i - 1] && f.sent[i + 1] == rest.sent[i];
        } else {
          assert f.sent[0] == params && f.sent[1] == rest.sent[0] == p;
        }
      }
    }
  }

  /** `get_all_articles` over the responses its requests receive. */
  function FetchAll(rs: seq<Response>): Fetched
  {
    Fetch(PagesOf(rs), FirstParams)
  }

  /** The page loop, in full: it consumes the pages up to and including the
      first that does not continue (a failed status or no next link), or all
      of them when every one continues; the articles are those of the
      consumed successful pages in order; the first request has no cursor
      and each later one carries the previous parameters advanced by the
      cursor of the page before it. */
  lemma FetchAllSpec(rs: seq<Response>)
    ensures var pages := PagesOf(rs);
            var f := FetchAll(rs);
            && |f.sent| <= |rs|
            && (|rs| > 0 ==> |f.sent| > 0 && f.sent[0] == FirstParams)
            && (forall i :: 0 <= i < |f.sent| - 1 ==> Continues(pages[i]))
            && (f.complete <==> |f.sent| > 0 && !Continues(pages[|f.sent| - 1]))
            && (!f.complete ==> |f.sent| == |rs|)
            && f.articles == Gathered(pages[..|f.sent|])
            && (forall i :: 0 <= i < |f.sent| - 1 ==> f.sent[i + 1] == Advance(f.sent[i], pages[i].next.pageInfo))
  {
    var pages := PagesOf(rs);
    FetchContinuesBeforeLast(pages, FirstParams);
    FetchCompletes(pages, FirstParams);
    FetchGathers(pages, FirstParams);
    FetchAdvances(pages, FirstParams);
  }

  /** The first page that does not continue decides where the loop ends: if
      it is at index `k`, exactly `k + 1` requests are sent and the loop
      returns the articles gathered so far, including that page's when its
      status is 200, without an error. */
  lemma {:induction false} FirstStopEndsLoop(pages: seq<Page>, params: Params, k: nat)
    requires k < |pages|
    requires forall i :: 0 <= i < k ==> Continues(pages[i])
    requires !Continues(pages[k])
    ensures |Fetch(pages, params).sent| == k + 1
    ensures Fetch(pages, params).complete
    ensures Fetch(pages, params).articles == Gathered(pages[..k + 1])
    decreases k
  {
    if k > 0 {
      var p := Advance(params, pages[0].next.pageInfo);
      FirstStopEndsLoop(pages[1..], p, k - 1);
      assert pages[..k + 1] == [pages[0]] + pages[1..][..k];
      GatheredCons(pages[0], pages[1..][..k]);
    } else {
      assert pages[..1] == [pages[0]] + [];
      GatheredCons(pages[0], []);
    }
  }

  /** The quirk of a next link without `page_info`: the loop goes on, and the
      request after it repeats the previous parameters, `page_info`
      included. */
  lemma CursorlessNextRepeatsRequest(pages: seq<Page>, params: Params, i: nat)
    requires i + 1 < |Fetch(pages, params).sent|
    requires pages[i].next == Follow(None)
    ensures Fetch(pages, params).sent[i + 1] == Fetch(pages, params).sent[i]
  {
    FetchAdvances(pages, params);
  }

  /** A single page with no `Link` header: the fetcher returns exactly that
      page's articles after one request. */
  lemma SinglePageNoCursor(r: Response)
    requires r.status == 200 && r.link == ""
    ensures FetchAll([r]) == Fetched(r.articles, [FirstParams], true)
  {
    assert !ContainsFrom("", RelNext, 0);
    assert PagesOf([r]) == [Page(200, Stop, r.articles)];
  }

  /** A failed first request ends the loop with no articles and no error. */
  lemma FailedFirstPage(rs: seq<Response>)
    requires |rs| > 0 && rs[0].status != 200
    ensures FetchAll(rs) == Fetched([], [FirstParams], true)
  {
  }

  /** A `Link` header naming a next page whose URI has no query yields a
      cursorless follow: the loop continues without a new `page_info`. */
  lemma {:induction false} NextWithoutPageInfo(uri: string)
    requires |uri| > 0 && '>' !in uri && '?' !in uri && '#' !in uri
    ensures NextPageOf("<" + uri + NextSuffix) == Follow(None)
  {
    var h := "<" + uri + NextSuffix;
    NextLinkOfSingle(uri);
    MatchImpliesRelNext(h);
    assert Query(uri) == "" by {
      assert IndexOf(uri, '#', 0).None?;
      assert IndexOf(uri, '?', 0).None?;
    }
    assert SplitOn("", '&') == [""] by {
      assert IndexOf("", '&', 0).None?;
    }
    assert FirstValue([""], PageInfoName) == None by {
      assert IndexOf("", '=', 0).None?;
      assert [""][1..] == [];
    }
  }
}
