/** The orchestration in `main` and `update_article`: build the replacement
    dictionary, resolve the blog, fetch its articles, rewrite each one, log
    every substitution and request an update for each changed article unless
    in dry-run mode. */
module Run {
  import opened Wrappers
  import opened Shop
  import opened Http
  import opened Replacements
  import opened Rewrite
  import opened Pagination
  import opened AuditLog
  import opened LinkHeader

  /** The run's settings: the store domain and the dry-run switch. */
  datatype Config = Config(store: string, dryRun: bool)

  /** A PUT to `blogs/{blog_id}/articles/{article_id}.json` whose payload is
      `{'article': {'body_html': ...}}`, the body given by its anchors. */
  datatype Update = Update(blogId: int, articleId: int, bodyHtml: seq<Anchor>)

  /** `update_article`: in dry-run mode no request is issued; otherwise one
      PUT carrying only the new body. Its response is only logged. */
  function UpdateArticle(dryRun: bool, blogId: int, articleId: int, body: seq<Anchor>): (puts: seq<Update>)
    ensures dryRun <==> puts == []
    ensures |puts| <= 1
    ensures forall u :: u in puts ==> u == Update(blogId, articleId, body)
  {
    if dryRun then [] else [Update(blogId, articleId, body)]
  }

  /** How an f-string renders an article handle: `None` when it is missing. */
  function HandleText(handle: Option<string>): string
  {
    match handle
    case Some(h) => h
    case None => "None"
  }

  /** `https://{store}/blogs/{blog_handle}/{handle}`. */
  function ArticleUrl(store: string, blogHandle: string, handle: Option<string>): string
  {
    "https://" + store + "/blogs/" + blogHandle + "/" + HandleText(handle)
  }

  /** What processing one or more articles produced: audit records in the
      order written, and update requests in the order issued. */
  datatype Effects = Effects(audit: seq<AuditRow>, puts: seq<Update>)

  /** Some anchor of the article's body is a broken link. */
  predicate NeedsFix(a: Article, m: map<string, string>)
  {
    exists i :: 0 <= i < |a.body| && Matches(a.body[i], m)
  }

  /** The rewrite pass of one article of the blog. */
  function PassOf(cfg: Config, blog: Blog, a: Article, m: map<string, string>): Pass
  {
    RewriteAnchors(ArticleUrl(cfg.store, blog.handle, a.handle), a.body, m)
  }

  /** One iteration of the article loop of `main`. The records are those of
      the rewrite pass, all carrying the article's URL; an update is issued
      exactly when the article needs a fix and the run is live, and it
      carries the rewritten body; an article needing no fix yields nothing. */
  function ProcessArticle(cfg: Config, blog: Blog, a: Article, m: map<string, string>): (e: Effects)
    ensures e.audit == PassOf(cfg, blog, a, m).audit
    ensures forall k :: 0 <= k < |e.audit| ==> e.audit[k].articleUrl == ArticleUrl(cfg.store, blog.handle, a.handle)
    ensures |e.puts| == (if !cfg.dryRun && NeedsFix(a, m) then 1 else 0)
    ensures forall u :: u in e.puts ==> u == Update(blog.id, a.id, PassOf(cfg, blog, a, m).anchors)
    ensures !NeedsFix(a, m) ==> e == Effects([], [])
  {
    var url := ArticleUrl(cfg.store, blog.handle, a.handle);
    var p := PassOf(cfg, blog, a, m);
    ChangedIffSomeMatch(url, a.body, m);
    AuditMatchesRewrites(url, a.body, m);
    if !p.changed then
      NoMatchNoChange(url, a.body, m);
      Effects(p.audit, [])
    else
      Effects(p.audit, UpdateArticle(cfg.dryRun, blog.id, a.id, p.anchors))
  }

  /** Number of articles that need a fix. */
  function FixCount(articles: seq<Article>, m: map<string, string>): nat
  {
    if |articles| == 0 then 0
    else FixCount(articles[..|articles| - 1], m) + (if NeedsFix(articles[|articles| - 1], m) then 1 else 0)
  }

  /** The records of the article loop, defined article by article: each
      article's pass records, in article order. */
  function Audits(cfg: Config, blog: Blog, articles: seq<Article>, m: map<string, string>): seq<AuditRow>
  {
    if |articles| == 0 then [] else PassOf(cfg, blog, articles[0], m).audit + Audits(cfg, blog, articles[1..], m)
  }

  /** The updates a live run issues, defined article by article: one for
      each article that needs a fix, in article order, carrying its
      rewritten body. */
  function FixUpdates(cfg: Config, blog: Blog, articles: seq<Article>, m: map<string, string>): seq<Update>
  {
    if |articles| == 0 then []
    else
      var a := articles[0];
      (if NeedsFix(a, m) then [Update(blog.id, a.id, PassOf(cfg, blog, a, m).anchors)] else [])
        + FixUpdates(cfg, blog, articles[1..], m)
  }

  /** Appending an article appends its records. */
  lemma {:induction false} AuditsSnoc(cfg: Config, blog: Blog, init: seq<Article>, a: Article, m: map<string, string>)
    ensures Audits(cfg, blog, init + [a], m) == Audits(cfg, blog, init, m) + PassOf(cfg, blog, a, m).audit
    decreases |init|
  {
    if |init| == 0 {
      assert init + [a] == [a];
      assert [a][1..] == [];
    } else {
      assert (init + [a])[1..] == init[1..] + [a];
      AuditsSnoc(cfg, blog, init[1..], a, m);
    }
  }

  /** Appending an article appends its update, when it needs a fix. */
  lemma {:induction false} FixUpdatesSnoc(cfg: Config, blog: Blog, init: seq<Article>, a: Article, m: map<string, string>)
    ensures FixUpdates(cfg, blog, init + [a], m)
         == FixUpdates(cfg, blog, init, m) + (if NeedsFix(a, m) then [Update(blog.id, a.id, PassOf(cfg, blog, a, m).anchors)] else [])
    decreases |init|
  {
    if |init| == 0 {
      assert init + [a] == [a];
      assert [a][1..] == [];
    } else {
      assert (init + [a])[1..] == init[1..] + [a];
      FixUpdatesSnoc(cfg, blog, init[1..], a, m);
    }
  }

  /** The article loop of `main`, in order. Its records are every article's
      pass records in article order; a dry run issues no update at all, and
      a live run issues exactly one per article that needs a fix, in article
      order, each carrying that article's rewritten body. */
  function ProcessArticles(cfg: Config, blog: Blog, articles: seq<Article>, m: map<string, string>): (e: Effects)
    ensures e.audit == Audits(cfg, blog, articles, m)
    ensures e.puts == (if cfg.dryRun then [] else FixUpdates(cfg, blog, articles, m))
    ensures !cfg.dryRun ==> |e.puts| == FixCount(articles, m)
    ensures forall u :: u in e.puts ==>
              exists a :: a in articles && NeedsFix(a, m) && u == Update(blog.id, a.id, PassOf(cfg, blog, a, m).anchors)
  {
    if |articles| == 0 then Effects([], [])
    else
      var init := articles[..|articles| - 1];
      var a := articles[|articles| - 1];
      assert articles == init + [a];
      AuditsSnoc(cfg, blog, init, a, m);
      FixUpdatesSnoc(cfg, blog, init, a, m);
      var e := ProcessArticles(cfg, blog, init, m);
      var x := ProcessArticle(cfg, blog, a, m);
      Effects(e.audit + x.audit, e.puts + x.puts)
  }

  /** The audit records of a run depend on the rules and articles only: a
      dry run records exactly what a live run would. */
  lemma {:induction false} DryRunAuditsLikeLive(store: string, blog: Blog, articles: seq<Article>, m: map<string, string>)
    ensures ProcessArticles(Config(store, true), blog, articles, m).audit
         == ProcessArticles(Config(store, false), blog, articles, m).audit
    decreases |articles|
  {
    if |articles| > 0 {
      DryRunAuditsLikeLive(store, blog, articles[..|articles| - 1], m);
    }
  }

  /** No article needing a fix means no record and no update. */
  lemma {:induction false} NothingToFix(cfg: Config, blog: Blog, articles: seq<Article>, m: map<string, string>)
    requires forall j :: 0 <= j < |articles| ==> !NeedsFix(articles[j], m)
    ensures ProcessArticles(cfg, blog, articles, m) == Effects([], [])
    decreases |articles|
  {
    if |articles| > 0 {
      NothingToFix(cfg, blog, articles[..|articles| - 1], m);
    }
  }

  /** `get_blog_info`: the first blog of a successful listing, or nothing. */
  function BlogInfo(r: Response): (b: Option<Blog>)
    ensures b.Some? <==> r.status == 200 && |r.blogs| > 0
    ensures b.Some? ==> b.value == r.blogs[0]
  {
    if r.status == 200 && |r.blogs| > 0 then Some(r.blogs[0]) else None
  }

  /** Why a run ends early: no usable blog (`sys.exit` at the blog test), or
      the given listing responses ran out while the page loop was still
      going, a run the source would carry on with further requests and that
      the model therefore does not complete. */
  datatype Exit = BlogUnresolved | ListingUnfinished

  /** What a completed run leaves behind: the log file, the updates issued
      and the fetch it worked from. */
  datatype Outcome = Outcome(log: seq<Line>, puts: seq<Update>, fetched: Fetched)

  /** `main` after the table is read, given the table rows, the response to
      the blog listing, the responses to the article-listing requests and
      the log file as found. It ends early, before touching the log, when no
      blog comes back or the first blog's id is 0 or its handle empty (the
      `not blog_id or not blog_handle` test). It also stops, before touching
      the log, when the responses run out before the page loop leaves by
      itself, since the source only reaches the log once the loop has left
      (`break`). Otherwise the log keeps what
      it held, gains a header only if it was empty, and ends with the
      records of every fetched article in order; the updates are those of
      the fetched articles that need a fix, and a dry run issues none. */
  function Main(cfg: Config, rows: seq<Row>, blogs: Response, pages: seq<Response>, existing: seq<Line>): (r: Result<Outcome, Exit>)
    ensures r.Failure? <==>
              || BlogInfo(blogs).None? || BlogInfo(blogs).value.id == 0 || BlogInfo(blogs).value.handle == ""
              || !FetchAll(pages).complete
    ensures r.Failure? ==>
              (r.error == BlogUnresolved <==> BlogInfo(blogs).None? || BlogInfo(blogs).value.id == 0 || BlogInfo(blogs).value.handle == "")
    ensures r.Success? ==> |existing| <= |r.value.log| && r.value.log[..|existing|] == existing
    ensures r.Success? ==> HeaderCount(r.value.log) == HeaderCount(existing) + (if |existing| == 0 then 1 else 0)
    ensures r.Success? && cfg.dryRun ==> r.value.puts == []
    ensures r.Success? ==> r.value.fetched == FetchAll(pages)
    ensures r.Success? ==>
              var records := Audits(cfg, BlogInfo(blogs).value, FetchAll(pages).articles, ReplacementMap(rows));
              && |r.value.log| == |existing| + |records| + (if |existing| == 0 then 1 else 0)
              && r.value.log[|r.value.log| - |records|..] == Entries(records)
    ensures r.Success? ==>
              r.value.puts == (if cfg.dryRun then [] else FixUpdates(cfg, BlogInfo(blogs).value, FetchAll(pages).articles, ReplacementMap(rows)))
  {
    var m := ReplacementMap(rows);
    match BlogInfo(blogs)
    case None => Failure(BlogUnresolved)
    case Some(blog) =>
      if blog.id == 0 || blog.handle == "" then Failure(BlogUnresolved)
      else
        var fetched := FetchAll(pages);
        if !fetched.complete then Failure(ListingUnfinished)
        else
          var e := ProcessArticles(cfg, blog, fetched.articles, m);
          Success(Outcome(Session(existing, e.audit), e.puts, fetched))
  }

  /** A last given response that is a 200 whose `Link` header names a next
      page without `page_info` leaves the page loop going, so the run does
      not reach the log: it neither records nor updates anything. */
  lemma CursorlessLastPageUnfinished(cfg: Config, rows: seq<Row>, blogs: Response, uri: string, articles: seq<Article>, existing: seq<Line>)
    requires |uri| > 0 && '>' !in uri && '?' !in uri && '#' !in uri
    requires BlogInfo(blogs).Some? && BlogInfo(blogs).value.id != 0 && BlogInfo(blogs).value.handle != ""
    ensures Main(cfg, rows, blogs, [Response(200, None, "<" + uri + NextSuffix, articles, [])], existing) == Failure(ListingUnfinished)
  {
    var r := Response(200, None, "<" + uri + NextSuffix, articles, []);
    NextWithoutPageInfo(uri);
    assert Continues(PageOf(r));
    FetchAllSpec([r]);
  }

  /** The example rule `/old-page -> /new-page` on an article whose only
      anchor is `/old-page` with text `Click here`: the anchor now points to
      `/new-page`, one record `(url, /old-page, /new-page, Click here)` is
      written, and one update is issued in a live run and none in a dry
      run. */
  lemma OldPageScenario(cfg: Config, blog: Blog, id: int, handle: string)
    ensures var m := ReplacementMap([Row("/old-page", "/new-page")]);
            var a := Article(id, "", Some(handle), [Anchor(Some("/old-page"), "Click here")]);
            var url := ArticleUrl(cfg.store, blog.handle, Some(handle));
            var e := ProcessArticle(cfg, blog, a, m);
            && PassOf(cfg, blog, a, m).anchors == [Anchor(Some("/new-page"), "Click here")]
            && e.audit == [AuditRow(url, "/old-page", "/new-page", "Click here")]
            && |e.puts| == (if cfg.dryRun then 0 else 1)
  {
    var rows := [Row("/old-page", "/new-page")];
    var m := ReplacementMap(rows);
    assert Survives(rows, 0) by {
      assert rows[..0] == [];
    }
    assert m == map["/old-page" := "/new-page"];
    var a := Article(id, "", Some(handle), [Anchor(Some("/old-page"), "Click here")]);
    assert Matches(a.body[0], m);
    assert a.body[..0] == [];
  }
}
