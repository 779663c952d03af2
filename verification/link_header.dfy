/** Reading the next-page cursor out of a `Link` response header (section 3
    of RFC 8288): the text `rel="next"` is looked for, the pattern
    `<([^>]+)>; rel="next"` is searched for, and the `page_info` parameter is
    taken from the query of the URI it captures. */
module LinkHeader {
  import opened Wrappers

  /** The text whose presence `get_all_articles` checks first. */
  const RelNext: string := "rel=\"next\""

  /** What the pattern demands right after the captured URI. */
  const NextSuffix: string := ">; " + RelNext

  /** The query parameter carrying the cursor. */
  const PageInfoName: string := "page_info"

  /** `t` occurs in `s` starting at index `i`. */
  predicate OccursAt(s: string, t: string, i: nat)
  {
    i + |t| <= |s| && s[i..i + |t|] == t
  }

  /** Python's `t in s` from index `from` on. */
  function ContainsFrom(s: string, t: string, from: nat): (b: bool)
    ensures b <==> exists i: nat :: from <= i && OccursAt(s, t, i)
    decreases |s| - from
  {
    if from + |t| > |s| then false
    else if s[from..from + |t|] == t then (assert OccursAt(s, t, from); true)
    else ContainsFrom(s, t, from + 1)
  }

  /** Python's `t in s`. */
  function Contains(s: string, t: string): (b: bool)
    ensures b <==> exists i: nat :: OccursAt(s, t, i)
  {
    ContainsFrom(s, t, 0)
  }

  /** Index of the first `c` in `s` at or after `from`. */
  function IndexOf(s: string, c: char, from: nat): (r: Option<nat>)
    ensures r.Some? ==> from <= r.value < |s| && s[r.value] == c && forall j :: from <= j < r.value ==> s[j] != c
    ensures r.None? ==> forall j :: from <= j < |s| ==> s[j] != c
    decreases |s| - from
  {
    if from >= |s| then None
    else if s[from] == c then Some(from)
    else IndexOf(s, c, from + 1)
  }

  /** The pattern `<([^>]+)>; rel="next"` matches `s` at index `p` with `u`
      as its group: a `<`, then one or more characters other than `>`, then
      `>; rel="next"`. */
  predicate MatchesAt(s: string, p: nat, u: string)
  {
    && p < |s| && s[p] == '<'
    && |u| > 0 && '>' !in u
    && OccursAt(s, u + NextSuffix, p + 1)
  }

  /** What a pattern match at `p` must look like in `s`. */
  lemma MatchesAtShape(s: string, p: nat, u: string)
    requires MatchesAt(s, p, u)
    ensures IndexOf(s, '>', p + 1) == Some(p + 1 + |u|)
    ensures s[p + 1..p + 1 + |u|] == u
    ensures OccursAt(s, NextSuffix, p + 1 + |u|)
  {
    var w := u + NextSuffix;
    var q := p + 1 + |u|;
    assert s[p + 1..p + 1 + |w|] == w;
    assert s[p + 1..q] == s[p + 1..p + 1 + |w|][..|u|];
    assert s[q..q + |NextSuffix|] == s[p + 1..p + 1 + |w|][|u|..];
    forall j | p + 1 <= j < q
      ensures s[j] != '>'
    {
      assert s[j] == u[j - p - 1];
    }
    assert s[q] == NextSuffix[0];
  }

  /** The matcher at one index: the first `>` after the `<` closes the group,
      which must be non-empty and be followed by `>; rel="next"`. */
  function MatchAt(s: string, p: nat): Option<string>
  {
    if p < |s| && s[p] == '<' then
      match IndexOf(s, '>', p + 1)
      case None => None
      case Some(q) => if q > p + 1 && OccursAt(s, NextSuffix, q) then Some(s[p + 1..q]) else None
    else None
  }

  /** The matcher finds a match exactly when the pattern matches there, with
      the same group. */
  lemma MatchAtCorrect(s: string, p: nat)
    ensures MatchAt(s, p).Some? ==> MatchesAt(s, p, MatchAt(s, p).value)
    ensures forall u :: MatchesAt(s, p, u) ==> MatchAt(s, p) == Some(u)
  {
    if p < |s| && s[p] == '<' {
      match IndexOf(s, '>', p + 1)
      case None =>
        forall u | MatchesAt(s, p, u) ensures false {
          MatchesAtShape(s, p, u);
        }
      case Some(q) =>
        if q > p + 1 && OccursAt(s, NextSuffix, q) {
          var u := s[p + 1..q];
          assert s[p + 1..q + |NextSuffix|] == u + NextSuffix;
          forall v | MatchesAt(s, p, v) ensures v == u {
            MatchesAtShape(s, p, v);
          }
        } else {
          forall u | MatchesAt(s, p, u) ensures false {
            MatchesAtShape(s, p, u);
          }
        }
    }
  }

  /** The leftmost index at or after `p` where the matcher succeeds. */
  function SearchFrom(s: string, p: nat): Option<nat>
    decreases |s| - p
  {
    if p >= |s| then None
    else if MatchAt(s, p).Some? then Some(p)
    else SearchFrom(s, p + 1)
  }

  /** `SearchFrom` finds the leftmost index at or after `p` where the matcher
      succeeds, and nothing only when it succeeds nowhere from `p` on. */
  lemma {:induction false} SearchFromCorrect(s: string, p: nat)
    ensures var r := SearchFrom(s, p);
            && (r.Some? ==> p <= r.value < |s| && MatchAt(s, r.value).Some? && forall j :: p <= j < r.value ==> MatchAt(s, j).None?)
            && (r.None? ==> forall j :: p <= j < |s| ==> MatchAt(s, j).None?)
    decreases |s| - p
  {
    if p < |s| && MatchAt(s, p).None? {
      SearchFromCorrect(s, p + 1);
    }
  }

  /** `re.search(r'<([^>]+)>; rel="next"', header).group(1)`. */
  function NextLink(header: string): Option<string>
  {
    match SearchFrom(header, 0)
    case Some(p) => MatchAt(header, p)
    case None => None
  }

  /** `NextLink` yields the group of the leftmost match of the pattern, or
      nothing when the pattern matches nowhere. */
  lemma NextLinkLeftmost(header: string)
    ensures var r := NextLink(header);
            && (r.Some? ==> exists p: nat :: MatchesAt(header, p, r.value) && forall q: nat, u :: q < p ==> !MatchesAt(header, q, u))
            && (r.None? ==> forall p: nat, u :: !MatchesAt(header, p, u))
  {
    SearchFromCorrect(header, 0);
    match SearchFrom(header, 0)
    case Some(p) =>
      MatchAtCorrect(header, p);
      forall q: nat, v | q < p ensures !MatchesAt(header, q, v) {
        MatchAtCorrect(header, q);
      }
    case None =>
      forall q: nat, v ensures !MatchesAt(header, q, v) {
        MatchAtCorrect(header, q);
      }
  }

  /** A header the pattern matches always contains `rel="next"`, so the
      substring test in front of the search never rejects a header the
      search would accept. */
  lemma {:induction false} MatchImpliesRelNext(header: string)
    requires NextLink(header).Some?
    ensures Contains(header, RelNext)
  {
    var u := NextLink(header).value;
    NextLinkLeftmost(header);
    var p: nat :| MatchesAt(header, p, u);
    MatchesAtShape(header, p, u);
    var q := p + 1 + |u|;
    assert header[q + 3..q + |NextSuffix|] == header[q..q + |NextSuffix|][3..];
    assert OccursAt(header, RelNext, q + 3);
  }

  /** A header with a single `<uri>; rel="next"` entry yields `uri`. */
  lemma {:induction false} NextLinkOfSingle(uri: string)
    requires |uri| > 0 && '>' !in uri
    ensures NextLink("<" + uri + NextSuffix) == Some(uri)
  {
    var h := "<" + uri + NextSuffix;
    assert h[1..1 + |uri + NextSuffix|] == uri + NextSuffix;
    assert MatchesAt(h, 0, uri);
    NextLinkLeftmost(h);
    var r := NextLink(h);
    var p: nat :| MatchesAt(h, p, r.value) && forall q: nat, v :: q < p ==> !MatchesAt(h, q, v);
    assert p == 0;
    MatchAtCorrect(h, 0);
  }

  /** What follows the URI of a `previous` entry in a two-entry header. */
  const PreviousSuffix: string := ">; rel=\"previous\", "

  /** The shape the store sends on middle pages,
      `<prev>; rel="previous", <next>; rel="next"`: the search skips the
      `previous` entry and yields `next`. */
  lemma {:induction false} NextLinkAfterPrevious(prev: string, next: string)
    requires |prev| > 0 && '<' !in prev && '>' !in prev
    requires |next| > 0 && '>' !in next
    ensures NextLink("<" + prev + PreviousSuffix + "<" + next + NextSuffix) == Some(next)
  {
    var head := "<" + prev + PreviousSuffix;
    assert '<' !in PreviousSuffix;
    var h := head + "<" + next + NextSuffix;
    var k := |head|;
    assert h[k] == '<';
    assert h[k + 1..k + 1 + |next + NextSuffix|] == next + NextSuffix;
    assert MatchesAt(h, k, next);
    var close := 1 + |prev|;
    assert forall j :: 1 <= j < close ==> h[j] == prev[j - 1];
    assert h[close] == '>';
    assert IndexOf(h, '>', 1) == Some(close);
    assert h[close + 8] == 'p' && NextSuffix[8] == 'n';
    assert !OccursAt(h, NextSuffix, close);
    assert MatchAt(h, 0).None?;
    MatchAtCorrect(h, 0);
    forall q: nat, v | q < k
      ensures !MatchesAt(h, q, v)
    {
      if 0 < q < close {
        assert h[q] == prev[q - 1];
      } else if q >= close {
        assert h[q] == PreviousSuffix[q - close];
      }
    }
    NextLinkLeftmost(h);
    var r := NextLink(h);
    var p: nat :| MatchesAt(h, p, r.value) && forall q: nat, u :: q < p ==> !MatchesAt(h, q, u);
    assert p == k;
    MatchAtCorrect(h, k);
  }

  /** `urlparse(url).query`: the fragment (from the first `#`) is dropped
      first, then the query is whatever follows the first `?`, or nothing. */
  function Query(url: string): (q: string)
    ensures '#' !in q
  {
    var beforeFragment := match IndexOf(url, '#', 0) case Some(h) => url[..h] case None => url;
    assert '#' !in beforeFragment;
    match IndexOf(beforeFragment, '?', 0)
    case Some(i) => beforeFragment[i + 1..]
    case None => ""
  }

  /** The query of a URI built as `base?query` is `query`, when neither part
      has a fragment and the base has no `?`; a fragment `#frag` appended to
      it, whatever it holds, is dropped. */
  lemma {:induction false} QueryOfBuilt(base: string, query: string, frag: string)
    requires '?' !in base && '#' !in base && '#' !in query
    ensures Query(base + "?" + query) == query
    ensures Query(base + "?" + query + "#" + frag) == query
  {
    var url := base + "?" + query;
    assert '#' !in url;
    assert url[|base|] == '?';
    assert url[|base| + 1..] == query;
    var withFrag := url + "#" + frag;
    assert withFrag[|url|] == '#';
    assert forall j :: 0 <= j < |url| ==> withFrag[j] == url[j];
    assert IndexOf(withFrag, '#', 0) == Some(|url|);
    assert withFrag[..|url|] == url;
  }

  /** The pieces `s.split(c)` returns, rejoined by `JoinWith`. */
  function JoinWith(parts: seq<string>, c: char): string
    requires |parts| >= 1
  {
    if |parts| == 1 then parts[0] else parts[0] + [c] + JoinWith(parts[1..], c)
  }

  /** Python's `s.split(c)`: at least one piece, no piece containing `c`,
      and the pieces rejoined with `c` give back `s`. */
  function SplitOn(s: string, c: char): (parts: seq<string>)
    ensures |parts| >= 1
    ensures forall i :: 0 <= i < |parts| ==> c !in parts[i]
    ensures JoinWith(parts, c) == s
    decreases |s|
  {
    match IndexOf(s, c, 0)
    case None => [s]
    case Some(i) =>
      var rest := SplitOn(s[i + 1..], c);
      var parts := [s[..i]] + rest;
      assert parts[1..] == rest;
      assert s == s[..i] + [c] + s[i + 1..];
      parts
  }

  /** Splitting a join gives back the pieces, when no piece holds the
      separator. */
  lemma {:induction false} SplitJoin(parts: seq<string>, c: char)
    requires |parts| >= 1
    requires forall i :: 0 <= i < |parts| ==> c !in parts[i]
    ensures SplitOn(JoinWith(parts, c), c) == parts
    decreases |parts|
  {
    var s := JoinWith(parts, c);
    if |parts| == 1 {
      assert IndexOf(s, c, 0).None?;
    } else {
      var rest := JoinWith(parts[1..], c);
      var n := |parts[0]|;
      assert s[n] == c;
      assert forall j :: 0 <= j < n ==> s[j] == parts[0][j];
      assert IndexOf(s, c, 0) == Some(n);
      assert s[..n] == parts[0];
      assert s[n + 1..] == rest;
      SplitJoin(parts[1..], c);
    }
  }

  /** `parse_qs(query).get(name, [None])[0]` over the `&`-separated fields of
      a query: the value of the first field named `name` whose value is not
      blank. A field without `=` or with a blank value is dropped
      (`keep_blank_values` is off), so is an empty field. */
  function FirstValue(fields: seq<string>, name: string): (r: Option<string>)
    ensures r.Some? ==> |r.value| > 0
  {
    if |fields| == 0 then None
    else
      var f := fields[0];
      match IndexOf(f, '=', 0)
      case Some(e) =>
        if f[..e] == name && e + 1 < |f| then Some(f[e + 1..]) else FirstValue(fields[1..], name)
      case None => FirstValue(fields[1..], name)
  }

  /** The `page_info` value of the query of a URI, or nothing. */
  function PageInfo(uri: string): Option<string>
  {
    FirstValue(SplitOn(Query(uri), '&'), PageInfoName)
  }

  /** A query field `name=value`. */
  function Field(name: string, value: string): string
  {
    name + "=" + value
  }

  /** A field the query encoder can produce unambiguously. */
  predicate PlainField(name: string, value: string)
  {
    '=' !in name && '&' !in name && '#' !in name && '&' !in value && '#' !in value
  }

  /** The value of the first pair named `name` with a non-blank value. */
  function Lookup(pairs: seq<(string, string)>, name: string): Option<string>
  {
    if |pairs| == 0 then None
    else if pairs[0].0 == name && |pairs[0].1| > 0 then Some(pairs[0].1)
    else Lookup(pairs[1..], name)
  }

  /** `name1=value1&name2=value2&...`. */
  function EncodeQuery(pairs: seq<(string, string)>): string
    requires |pairs| >= 1
  {
    JoinWith(seq(|pairs|, i requires 0 <= i < |pairs| => Field(pairs[i].0, pairs[i].1)), '&')
  }

  /** The value `FirstValue` reads from one encoded field. */
  lemma FieldParts(name: string, value: string)
    requires PlainField(name, value)
    ensures IndexOf(Field(name, value), '=', 0) == Some(|name|)
    ensures Field(name, value)[..|name|] == name && Field(name, value)[|name| + 1..] == value
  {
    var f := Field(name, value);
    assert forall j :: 0 <= j < |name| ==> f[j] == name[j];
    assert f[|name|] == '=';
  }

  /** Reading back the fields of an encoded query gives the lookup of the
      pairs it was built from. */
  lemma {:induction false} FirstValueOfEncoded(fields: seq<string>, pairs: seq<(string, string)>, name: string)
    requires |fields| == |pairs|
    requires forall i :: 0 <= i < |pairs| ==> PlainField(pairs[i].0, pairs[i].1) && fields[i] == Field(pairs[i].0, pairs[i].1)
    ensures FirstValue(fields, name) == Lookup(pairs, name)
    decreases |pairs|
  {
    if |pairs| > 0 {
      FieldParts(pairs[0].0, pairs[0].1);
      FirstValueOfEncoded(fields[1..], pairs[1..], name);
    }
  }

  /** Round trip: the `page_info` read from `base?query`, where the query is
      encoded from plain pairs, is the first non-blank `page_info` among
      them. */
  lemma {:induction false} PageInfoOfBuilt(base: string, pairs: seq<(string, string)>)
    requires |pairs| >= 1
    requires '?' !in base && '#' !in base
    requires forall i :: 0 <= i < |pairs| ==> PlainField(pairs[i].0, pairs[i].1)
    ensures PageInfo(base + "?" + EncodeQuery(pairs)) == Lookup(pairs, PageInfoName)
  {
    var fields := seq(|pairs|, i requires 0 <= i < |pairs| => Field(pairs[i].0, pairs[i].1));
    var q := JoinWith(fields, '&');
    forall i | 0 <= i < |fields|
      ensures '&' !in fields[i]
    {
      assert fields[i] == pairs[i].0 + "=" + pairs[i].1;
    }
    SplitJoin(fields, '&');
    JoinWithAvoids(fields, '&', '#');
    QueryOfBuilt(base, q, "");
    FirstValueOfEncoded(fields, pairs, PageInfoName);
  }

  /** A join of pieces without `d` has no `d`, when `d` is not the
      separator. */
  lemma {:induction false} JoinWithAvoids(parts: seq<string>, c: char, d: char)
    requires |parts| >= 1 && c != d
    requires forall i :: 0 <= i < |parts| ==> d !in parts[i]
    ensures d !in JoinWith(parts, c)
    decreases |parts|
  {
    if |parts| > 1 {
      JoinWithAvoids(parts[1..], c, d);
    }
  }

  /** What a response's `Link` header tells the page loop. */
  datatype NextPage = Stop | Follow(pageInfo: Option<string>)

  /** The decision `get_all_articles` takes from a `Link` header: stop unless
      the header contains `rel="next"` and the pattern matches it; otherwise
      follow with the `page_info` of the captured URI, which may be absent. */
  function NextPageOf(header: string): NextPage
  {
    if !Contains(header, RelNext) then Stop
    else
      match NextLink(header)
      case None => Stop
      case Some(u) => Follow(PageInfo(u))
  }

  /** Because a match implies the substring, the loop stops exactly when the
      pattern matches nowhere, and otherwise follows the `page_info` of the
      leftmost match's URI. */
  lemma NextPageOfCorrect(header: string)
    ensures NextPageOf(header).Stop? <==> NextLink(header).None?
    ensures NextPageOf(header).Follow? ==> NextPageOf(header).pageInfo == PageInfo(NextLink(header).value)
  {
    if NextLink(header).Some? {
      MatchImpliesRelNext(header);
    }
  }
}
