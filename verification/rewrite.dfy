/** One pass of the link fixer over the anchors of an article body: every
    anchor whose `href` is exactly a broken link gets the replacement, and one
    audit row is produced per substitution, in document order. */
module Rewrite {
  import opened Wrappers
  import opened Shop

  /** One row of the audit log, without its timestamp. */
  datatype AuditRow = AuditRow(articleUrl: string, oldLink: string, newLink: string, anchorText: string)

  /** The result of one pass over an article body: the rewritten anchors, the
      audit rows in the order written, and the `links_actualizados` flag. */
  datatype Pass = Pass(anchors: seq<Anchor>, audit: seq<AuditRow>, changed: bool)

  /** The anchor has an `href` that is exactly a key of the dictionary; no
      normalisation of any kind is applied. */
  predicate Matches(a: Anchor, m: map<string, string>)
  {
    a.href.Some? && a.href.value in m
  }

  /** The anchor with its `href` replaced by the dictionary's value. */
  function Replaced(a: Anchor, m: map<string, string>): Anchor
    requires Matches(a, m)
  {
    a.(href := Some(m[a.href.value]))
  }

  /** The audit row recorded for a matching anchor of the article at `url`. */
  function RowFor(url: string, a: Anchor, m: map<string, string>): AuditRow
    requires Matches(a, m)
  {
    AuditRow(url, a.href.value, m[a.href.value], a.text)
  }

  /** Number of anchors of `anchors` that match a key. */
  function MatchCount(anchors: seq<Anchor>, m: map<string, string>): nat
  {
    if |anchors| == 0 then 0
    else MatchCount(anchors[..|anchors| - 1], m) + (if Matches(anchors[|anchors| - 1], m) then 1 else 0)
  }

  /** The loop over `soup.find_all('a', href=True)` of one article at `url`:
      anchors are visited in document order; a matching anchor gets the value
      of its original `href` and one audit row, and raises `changed`. The
      pass keeps the number of anchors, writes one row per matching anchor,
      and is `changed` exactly when it wrote a row. */
  function RewriteAnchors(url: string, anchors: seq<Anchor>, m: map<string, string>): (p: Pass)
    ensures |p.anchors| == |anchors|
    ensures |p.audit| == MatchCount(anchors, m)
    ensures p.changed <==> |p.audit| > 0
  {
    if |anchors| == 0 then Pass([], [], false)
    else
      var p := RewriteAnchors(url, anchors[..|anchors| - 1], m);
      var a := anchors[|anchors| - 1];
      if Matches(a, m) then
        Pass(p.anchors + [Replaced(a, m)], p.audit + [RowFor(url, a, m)], true)
      else
        Pass(p.anchors + [a], p.audit, p.changed)
  }

  /** Unfolding of `RewriteAnchors` at the last anchor. */
  lemma RewriteLast(url: string, anchors: seq<Anchor>, m: map<string, string>)
    requires |anchors| > 0
    ensures var p := RewriteAnchors(url, anchors[..|anchors| - 1], m);
            var a := anchors[|anchors| - 1];
            RewriteAnchors(url, anchors, m)
              == if Matches(a, m) then Pass(p.anchors + [Replaced(a, m)], p.audit + [RowFor(url, a, m)], true)
                 else Pass(p.anchors + [a], p.audit, p.changed)
  {
  }

  /** Rewriting changes hrefs only: every anchor keeps its place and text; a
      matching anchor's `href` becomes the dictionary's value for its
      original `href`, and any other anchor is left exactly as it was. */
  lemma {:induction false} RewriteChangesOnlyHrefs(url: string, anchors: seq<Anchor>, m: map<string, string>)
    ensures var p := RewriteAnchors(url, anchors, m);
            && |p.anchors| == |anchors|
            && (forall i :: 0 <= i < |anchors| ==> p.anchors[i].text == anchors[i].text)
            && (forall i :: 0 <= i < |anchors| && Matches(anchors[i], m) ==> p.anchors[i].href == Some(m[anchors[i].href.value]))
            && (forall i :: 0 <= i < |anchors| && !Matches(anchors[i], m) ==> p.anchors[i] == anchors[i])
    decreases |anchors|
  {
    if |anchors| > 0 {
      var init := anchors[..|anchors| - 1];
      RewriteChangesOnlyHrefs(url, init, m);
      RewriteLast(url, anchors, m);
      assert forall i :: 0 <= i < |init| ==> anchors[i] == init[i];
    }
  }

  /** Audit rows match rewrites one for one, in document order: the row of
      the matching anchor at `i` sits at the position counted by the matches
      before it and records its URL, original `href`, replacement and text;
      every row carries the article's URL. */
  lemma {:induction false} AuditMatchesRewrites(url: string, anchors: seq<Anchor>, m: map<string, string>)
    ensures var p := RewriteAnchors(url, anchors, m);
            && |p.audit| == MatchCount(anchors, m)
            && (forall i :: 0 <= i < |anchors| && Matches(anchors[i], m) ==>
                  MatchCount(anchors[..i], m) < |p.audit| && p.audit[MatchCount(anchors[..i], m)] == RowFor(url, anchors[i], m))
            && (forall k :: 0 <= k < |p.audit| ==> p.audit[k].articleUrl == url)
    decreases |anchors|
  {
    if |anchors| > 0 {
      var init := anchors[..|anchors| - 1];
      var a := anchors[|anchors| - 1];
      AuditMatchesRewrites(url, init, m);
      RewriteLast(url, anchors, m);
      var p := RewriteAnchors(url, init, m);
      var r := RewriteAnchors(url, anchors, m);
      assert forall k :: 0 <= k < |p.audit| ==> r.audit[k] == p.audit[k];
      assert forall i :: 0 <= i < |init| ==> anchors[..i] == init[..i] && anchors[i] == init[i];
      assert anchors[..|anchors| - 1] == init;
    }
  }

  /** `changed` is raised exactly when some anchor's `href` is a key. */
  lemma {:induction false} ChangedIffSomeMatch(url: string, anchors: seq<Anchor>, m: map<string, string>)
    ensures RewriteAnchors(url, anchors, m).changed <==> exists i :: 0 <= i < |anchors| && Matches(anchors[i], m)
    decreases |anchors|
  {
    if |anchors| > 0 {
      var init := anchors[..|anchors| - 1];
      ChangedIffSomeMatch(url, init, m);
      RewriteLast(url, anchors, m);
      assert forall i :: 0 <= i < |init| ==> anchors[i] == init[i];
    }
  }

  /** The whole contract of one pass, gathered. */
  lemma RewriteSpec(url: string, anchors: seq<Anchor>, m: map<string, string>)
    ensures var p := RewriteAnchors(url, anchors, m);
            && |p.anchors| == |anchors|
            && (forall i :: 0 <= i < |anchors| ==> p.anchors[i].text == anchors[i].text)
            && (forall i :: 0 <= i < |anchors| && Matches(anchors[i], m) ==> p.anchors[i].href == Some(m[anchors[i].href.value]))
            && (forall i :: 0 <= i < |anchors| && !Matches(anchors[i], m) ==> p.anchors[i] == anchors[i])
            && (p.changed <==> exists i :: 0 <= i < |anchors| && Matches(anchors[i], m))
  {
    RewriteChangesOnlyHrefs(url, anchors, m);
    ChangedIffSomeMatch(url, anchors, m);
  }

  /** An article none of whose anchors match is left exactly as it was, with
      no audit rows and `changed` false. */
  lemma {:induction false} NoMatchNoChange(url: string, anchors: seq<Anchor>, m: map<string, string>)
    requires forall i :: 0 <= i < |anchors| ==> !Matches(anchors[i], m)
    ensures RewriteAnchors(url, anchors, m) == Pass(anchors, [], false)
  {
    var p := RewriteAnchors(url, anchors, m);
    RewriteSpec(url, anchors, m);
    assert p.anchors == anchors;
  }

  /** Each anchor is rewritten at most once, from its original `href`: a
      second pass changes something exactly when some anchor matched on the
      first pass and its replacement is itself a broken link. */
  lemma {:induction false} SecondPassChanges(url: string, anchors: seq<Anchor>, m: map<string, string>)
    ensures RewriteAnchors(url, RewriteAnchors(url, anchors, m).anchors, m).changed
        <==> exists i :: 0 <= i < |anchors| && Matches(anchors[i], m) && m[anchors[i].href.value] in m
  {
    var once := RewriteAnchors(url, anchors, m).anchors;
    var twice := RewriteAnchors(url, once, m);
    RewriteSpec(url, anchors, m);
    RewriteSpec(url, once, m);
    if twice.changed {
      var i :| 0 <= i < |once| && Matches(once[i], m);
      assert Matches(anchors[i], m);
    } else {
      forall i | 0 <= i < |anchors| && Matches(anchors[i], m)
        ensures m[anchors[i].href.value] !in m
      {
        assert !Matches(once[i], m);
      }
    }
  }

  /** When no replacement is itself a broken link, a second pass is a no-op:
      nothing changes, nothing is audited. */
  lemma {:induction false} SecondPassIdle(url: string, anchors: seq<Anchor>, m: map<string, string>)
    requires forall k :: k in m ==> m[k] !in m
    ensures var once := RewriteAnchors(url, anchors, m).anchors;
            RewriteAnchors(url, once, m) == Pass(once, [], false)
  {
    var once := RewriteAnchors(url, anchors, m).anchors;
    RewriteSpec(url, anchors, m);
    forall i | 0 <= i < |once|
      ensures !Matches(once[i], m)
    {
      if Matches(anchors[i], m) {
        assert once[i].href == Some(m[anchors[i].href.value]);
      }
    }
    NoMatchNoChange(url, once, m);
  }

  /** Chains are not followed: with A -> B and B -> C, an anchor to A ends up
      pointing to B after one pass. */
  lemma ChainsNotFollowed(url: string, text: string)
    ensures var m := map["A" := "B", "B" := "C"];
            var p := RewriteAnchors(url, [Anchor(Some("A"), text)], m);
            p.anchors == [Anchor(Some("B"), text)] && p.audit == [AuditRow(url, "A", "B", text)]
  {
    var m := map["A" := "B", "B" := "C"];
    var p := RewriteAnchors(url, [Anchor(Some("A"), text)], m);
    assert [Anchor(Some("A"), text)][..0] == [];
  }
}
