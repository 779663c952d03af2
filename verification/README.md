# Broken-link fixer for a store's blog, modelled in Dafny

`fix_inlinks.py` repairs broken links in the articles of a store's blog. It reads a table of
`(link_broken, link_new)` rows and turns it into a replacement dictionary. It then resolves the
blog and lists all of its articles page by page, following the cursor in the `Link` response
header. In each article it rewrites every anchor whose `href` is exactly a broken link, appends
one audit row per substitution to a CSV log, and sends the new body back to the store unless in
dry-run mode. Every API call goes through a wrapper that retries while the server answers 429.

This project models that core as pure functions over immutable data and proves properties of
them:

- `wrappers.dfy` (`Wrappers`): `Option` and `Result`.
- `shop.dfy` (`Shop`): anchors, articles and blogs. An article body is modelled as the sequence
  of its `<a>` elements, each an optional `href` plus its stripped visible text.
- `replacements.dfy` (`Replacements`): the pair deduplication and the dictionary fold.
- `rewrite.dfy` (`Rewrite`): one pass over an article's anchors and its audit rows.
- `link_header.dfy` (`LinkHeader`): the `rel="next"` test, the regular-expression search
  `<([^>]+)>; rel="next"`, the query of the captured URI and the `page_info` value in it.
- `http.dfy` (`Http`): responses and the 429 retry loop, over an oracle stream of responses.
- `pagination.dfy` (`Pagination`): the page loop of `get_all_articles`, over the finite
  sequence of responses its requests receive.
- `audit_log.dfy` (`AuditLog`): the log file, whose header is written only when the file is empty.
- `run.dfy` (`Run`): `update_article`, the per-article loop of `main`, `get_blog_info` and the
  run as a whole.

Three behaviours of the code are easy to misread:

- The code collapses duplicate *pairs* and then lets a later row overwrite an earlier one with
  the same broken link. The rows `(A,B), (A,C), (A,B)` therefore give `A → C`, and folding
  without deduplication would give `A → B` (`Replacements.DedupChangesResult`).
- The code rewrites each anchor once, from its original `href`, and does not follow chains. A
  second pass raises `changed` exactly when an anchor rewritten by the first pass got a
  replacement that is itself a broken link. In particular it is a no-op whenever no replacement
  is a broken link (`Rewrite.SecondPassChanges`, `Rewrite.SecondPassIdle`).
- A next link whose URI has no `page_info` leaves the request parameters as they were, and the
  loop goes on (`Pagination.CursorlessNextRepeatsRequest`, `Pagination.NextWithoutPageInfo`).
  The loop therefore has no termination guarantee. It is modelled over a finite response
  sequence.

## Model

| member | source | states |
|---|---|---|
| `Replacements.Dedup` | fix_inlinks.py:116 | `drop_duplicates` on the pair keeps exactly the rows of the table, each pair once, in order of first appearance |
| `Replacements.DedupDistinct` | fix_inlinks.py:116 | no (broken, new) pair appears twice after deduplication |
| `Replacements.Fold` | fix_inlinks.py:119-123 | the dictionary's keys are exactly the broken links of the rows, and each key holds the `link_new` of the last row naming it |
| `Replacements.ReplacementMap` | fix_inlinks.py:116-123 | keys are the table's broken links; each key's value is the `new` of its surviving row, meaning the first occurrence of a pair with no later first-occurring pair for the same key; every key has such a row |
| `Replacements.SurvivorUnique` | fix_inlinks.py:116-123 | each broken link has at most one surviving row, so the value is determined |
| `Replacements.DedupChangesResult` | fix_inlinks.py:116-123 | rows (A,B),(A,C),(A,B) give A→C, while the same rows without deduplication would give A→B |
| `Rewrite.RewriteAnchors` | fix_inlinks.py:151-159 | a pass keeps the number of anchors, writes one audit row per matching anchor, and sets `changed` exactly when it wrote a row |
| `Rewrite.RewriteChangesOnlyHrefs` | fix_inlinks.py:151-156 | anchors keep order and text; an anchor whose `href` is exactly a key gets `map[href]` from its original `href`; anchors without `href` or with a non-matching one are unchanged |
| `Rewrite.AuditMatchesRewrites` | fix_inlinks.py:149-163 | one row per rewritten anchor in document order; the row holds the article URL, the original `href`, `map[href]` and the anchor text; every row of an article carries the same URL |
| `Rewrite.ChangedIffSomeMatch` | fix_inlinks.py:146-159 | `links_actualizados` is true exactly when some anchor's `href` is a key |
| `Rewrite.RewriteSpec` | fix_inlinks.py:146-159 | the href-only rewrite and the `changed` characterisation hold together for every pass |
| `Rewrite.NoMatchNoChange` | fix_inlinks.py:151-159 | an article with no matching anchor comes out unchanged, with no audit rows and `changed` false |
| `Rewrite.SecondPassChanges` | fix_inlinks.py:151-156 | a second pass raises `changed` exactly when some anchor matched on the first pass and its replacement is itself a key; chains are not followed, and a rule `A → A` raises it although no `href` changes |
| `Rewrite.SecondPassIdle` | fix_inlinks.py:151-156 | when no replacement value is a key, a second pass changes nothing and audits nothing |
| `Rewrite.ChainsNotFollowed` | fix_inlinks.py:151-156 | with A→B and B→C an anchor to A ends at B after one pass, audited as (A, B) |
| `Http.Retry` | fix_inlinks.py:35-42 | the response returned is the first non-429 response of the stream; every response skipped is a 429, each followed by a sleep of its `Retry-After` or 5 |
| `Http.DeliveredIsWithoutRateLimited` | fix_inlinks.py:35-42 | successive calls drawing from one stream hand their callers exactly the stream's non-429 responses, in order |
| `Http.NoRateLimitedDelivered` | fix_inlinks.py:37-42 | no caller ever receives a 429 response |
| `Http.RetryScenario` | fix_inlinks.py:37-41 | a 429 with `Retry-After: 2` then a 200 yields the 200 after sleeping 2; without the header the sleep is 5 |
| `LinkHeader.ContainsFrom` | fix_inlinks.py:76 | the substring test succeeds exactly when `rel="next"` occurs in the header at or after the start index |
| `LinkHeader.Contains` | fix_inlinks.py:76 | `'rel="next"' in link_header` holds exactly when the text occurs somewhere in the header |
| `LinkHeader.MatchAtCorrect` | fix_inlinks.py:77 | the matcher succeeds at an index exactly when `<([^>]+)>; rel="next"` matches there, and it returns that match's group |
| `LinkHeader.SearchFromCorrect` | fix_inlinks.py:77 | the search returns the leftmost index where the pattern matches, or nothing when it matches nowhere |
| `LinkHeader.NextLinkLeftmost` | fix_inlinks.py:77-79 | `re.search(...).group(1)` is the group of the leftmost match, and it is absent only when the pattern matches nowhere |
| `LinkHeader.MatchImpliesRelNext` | fix_inlinks.py:76-78 | any header the pattern matches contains `rel="next"`, so the substring test never rejects a header the search accepts |
| `LinkHeader.NextLinkOfSingle` | fix_inlinks.py:77-79 | `<uri>; rel="next"` yields `uri` |
| `LinkHeader.NextLinkAfterPrevious` | fix_inlinks.py:77-79 | `<prev>; rel="previous", <next>; rel="next"` yields `next`, skipping the previous entry |
| `LinkHeader.Query` | fix_inlinks.py:80 | the query taken from a URI never contains a `#`: the fragment is dropped before the query is read |
| `LinkHeader.QueryOfBuilt` | fix_inlinks.py:80 | the query of `base?query` and of `base?query#frag`, for any fragment, is `query` when the base has no `?` and neither base nor query holds a `#` |
| `LinkHeader.SplitOn` | fix_inlinks.py:81 | splitting gives at least one piece, no piece contains the separator, and rejoining the pieces gives back the input |
| `LinkHeader.SplitJoin` | fix_inlinks.py:81 | splitting a join of separator-free pieces gives back those pieces |
| `LinkHeader.FirstValue` | fix_inlinks.py:81-82 | a value read from the query is never blank, because blank values are dropped |
| `LinkHeader.FirstValueOfEncoded` | fix_inlinks.py:81-82 | reading a field from encoded `name=value` pairs gives the first non-blank value stored under that name |
| `LinkHeader.PageInfoOfBuilt` | fix_inlinks.py:79-82 | round trip: the `page_info` read from `base?name=value&...` is the first non-blank `page_info` among the encoded pairs, or None |
| `LinkHeader.NextPageOfCorrect` | fix_inlinks.py:75-86 | the loop stops exactly when the pattern matches nowhere in the header; otherwise it follows with the first `page_info` of the captured URI, which may be None |
| `Pagination.Advance` | fix_inlinks.py:67-68 | a present non-empty cursor replaces `page_info`; a None or empty cursor leaves the parameters as they were; the page size never changes |
| `Pagination.Fetch` | fix_inlinks.py:60-90 | never more requests than responses, the first with the starting parameters; the loop ends without leaving by itself only when every response has been consumed |
| `Pagination.FetchContinuesBeforeLast` | fix_inlinks.py:70-86 | every consumed response but the last was a 200 with a next link |
| `Pagination.FetchCompletes` | fix_inlinks.py:70-89 | the loop leaves by itself exactly when the last consumed response was not a 200 or had no next link |
| `Pagination.FetchGathers` | fix_inlinks.py:70-73 | the articles returned are those of the consumed 200 responses, concatenated in order |
| `Pagination.FetchAdvances` | fix_inlinks.py:66-82 | each request after the first carries the previous request's parameters advanced by the cursor of the response before it |
| `Pagination.FetchAllSpec` | fix_inlinks.py:60-90 | the whole page loop from the first cursorless request: consumed prefix, stopping rule, accumulated articles and request parameters |
| `Pagination.FirstStopEndsLoop` | fix_inlinks.py:70-89 | if the first non-continuing response is at index k, exactly k+1 requests are sent, and the articles gathered so far are returned without an error |
| `Pagination.CursorlessNextRepeatsRequest` | fix_inlinks.py:67-82 | after a next link without `page_info` the loop continues, and its next request repeats the previous parameters, previous `page_info` included |
| `Pagination.SinglePageNoCursor` | fix_inlinks.py:75-86 | a single 200 page with no `Link` header returns exactly its articles after one request |
| `Pagination.FailedFirstPage` | fix_inlinks.py:87-89 | a failed first request returns no articles, and the loop ends without an error |
| `Pagination.NextWithoutPageInfo` | fix_inlinks.py:79-82 | a next link whose URI has no query yields a follow with a None cursor, not a stop |
| `AuditLog.Session` | fix_inlinks.py:134-138 | a run keeps the log's earlier lines and adds one header exactly when the file was empty; the run's records follow in order at the end |
| `AuditLog.HeaderOnceAcrossRuns` | fix_inlinks.py:134-138 | after any number of runs from an empty file, the log is one header followed by every run's records in order, even if the first run recorded nothing |
| `Run.UpdateArticle` | fix_inlinks.py:92-100 | dry-run mode issues no request; a live run issues exactly one PUT carrying the new body for that blog and article |
| `Run.ProcessArticle` | fix_inlinks.py:140-171 | an article's records are those of its rewrite pass and carry its URL; an update is issued exactly when it needs a fix and the run is live, and it carries the rewritten body; an article needing no fix yields nothing |
| `Run.ProcessArticles` | fix_inlinks.py:140-171 | the loop's records are every article's pass records in article order; a dry run issues no update, and a live run issues exactly one per article that needs a fix, in article order, carrying that article's rewritten body; every update names an article of the list that needs a fix |
| `Run.DryRunAuditsLikeLive` | fix_inlinks.py:97-99 | a dry run writes exactly the audit records a live run would |
| `Run.NothingToFix` | fix_inlinks.py:165-171 | when no article needs a fix there are no records and no updates |
| `Run.BlogInfo` | fix_inlinks.py:44-58 | a blog is found exactly when the listing succeeded with at least one blog, and it is the first one |
| `Run.Main` | fix_inlinks.py:106-171 | the run ends early when no blog resolves or its id is 0 or its handle empty, and stops without touching the log when the given responses run out before the page loop leaves by itself; otherwise it works from the finished page loop's articles, the log keeps its lines, gains a header only when it was empty, and ends with the records of every fetched article in order; the updates are those of the fetched articles that need a fix, and a dry run issues none |
| `Run.CursorlessLastPageUnfinished` | fix_inlinks.py:69-86 | a last response whose next link has no `page_info` leaves the page loop going, so the run neither logs nor updates anything |
| `Run.OldPageScenario` | fix_inlinks.py:140-168 | rule /old-page→/new-page on one `Click here` anchor gives /new-page, one record (url, /old-page, /new-page, Click here), and one update when live and none in dry run |

## Left out

- HTML parsing and serialisation are not modelled. An article body is the sequence of its `<a>` elements in document order. The rewritten body sent back is that rewritten sequence, and the library's normalisation is not visible.
- Anchor text is an opaque string standing for `get_text(strip=True)`.
- The audit timestamp (`datetime.now()`) is a clock reading, so audit rows leave it out.
- The HTTP transport, headers and authentication are not modelled. Responses come from oracle sequences.
- `time.sleep` is not modelled. The retry backoffs are returned as values, and the 0.5 s pacing after each update is dropped.
- The status of an update's response is only logged by the source, so the model does not look at it.
- `Run.Main` takes the blog-listing response and the page responses separately, each as already passed through the retry wrapper. `Http.DeliveredIsWithoutRateLimited` states how one raw stream is reduced to those responses.
- `Http.Backoff` takes `Retry-After` as an already parsed non-negative integer. The `int()` conversion of the header text is not modelled, including its failure on non-numeric text.
- `Http.Retry`: the model's oracle stream is finite, so it can report that the stream ran out. The source retries without bound, and no liveness claim is made.
- `Pagination.Fetch`: termination is not a property of the source, so the loop runs over a finite response sequence. It reports `complete = false` when the responses run out first.
- `Run.Main`: when the given responses run out before the page loop leaves by itself, the source would go on requesting pages. The model cannot follow it there, so it returns `ListingUnfinished` instead of a run outcome.
- `LinkHeader.PageInfo` does not model `parse_qs` percent-decoding or its `+`-to-space translation of names and values. It also does not model `urlsplit` removing tabs and newlines and stripping leading control characters.
- CSV loading by pandas is not modelled, so rows are plain strings. Empty cells read as `NaN` are not modelled either.
- The `.env` loading, the credential check, the missing-file and missing-column exits, and all logging calls are thin wrappers over the process and libraries, so they are not modelled.
- `Http.Retry`: a negative `Retry-After` makes `time.sleep` raise `ValueError`, which aborts the source's run. The model's header is a natural number, so that crash is not modelled.
- `LinkHeader.Query` does not model `urlsplit` raising `ValueError`, which aborts the source's run. It raises on an unbalanced `[` or `]` in the network location and on a bracketed host that is not a valid IP address. It also raises on a non-ASCII network location whose NFKC form contains one of `/?#@:`.
- The typed `Response`, `Blog` and `Article` cannot express malformed input, so exceptions that abort the source's run on such input are not modelled:
  - `response.json()` raising on a 200 response whose body is not JSON (lines 49 and 71);
  - `KeyError` from a blog without `id` or `handle` (lines 51-52);
  - `KeyError` from an article without `id` (line 141).
- `Run.Main` appends the run's records after the article loop as one batch. The source writes each record to the log before that article's update is sent, so the interleaving of log writes and updates is not modelled; the final log and the updates are.
- `Rewrite.RewriteAnchors` keeps the href-only and `changed` facts out of its own contract. `Rewrite.RewriteChangesOnlyHrefs`, `Rewrite.AuditMatchesRewrites` and `Rewrite.ChangedIffSomeMatch` state them.
- `Pagination.Fetch` keeps the stopping rule, the gathered articles and the parameter chain out of its own contract. `Pagination.FetchAllSpec` and the lemmas it gathers state them.
