# FindMy404 crawler core, modelled in Dafny

FindMy404 holds two crawler scripts, and this project models the logic at their core.

`test5minutes.py` works in two phases:
- **Discovery.** It fetches a start page and splits its text on `http`. It cuts each candidate piece at the first delimiter, filters the cut pieces, and adds them to the set `LINKS`. Then it re-parses every link of a snapshot of that set whose URL contains the main domain.
- **Checking.** It fetches the first `TOTAL_LIMIT` links twenty at a time. It records every outcome that is not a `200` response in `FOUND_ISSUES`, a map from `str(error_code)` to a list of links.

`get404.py` crawls in rounds:
- Each round scans every page found so far.
- It queues each link that is not yet in `CACHE`.
- Workers check the queued pages. `get_page_status` applies the exclude list, then the HTTP code, then a browser visibility check.
- A page that is not rejected is expanded with `get_page_childs`. That function takes the `href` target of every anchor and prefixes `initial_url` to targets that start with `/`.
- The posted children are merged into `childs`.
- The loop stops in four ways:
  - after a round that queues nothing;
  - after `max_recursion + 1` rounds;
  - never, when a worker raises;
  - never, when `max_threads_count` is below one and the round queued pages, because `threads_count` is then below one and no worker starts.

## Modules

| module | models |
|---|---|
| `Wrappers` | the `Option` type |
| `Text` | Python's `in`, `startswith`, `endswith`, `split(sep)`, `split(sep)[0]` and `split(sep)[1]` on strings |
| `Config` | `get_conf_param`'s `result or default_value` and the newline-split list settings |
| `LinkExtractor` | `parse_all_links` and the collection pass: the `LinkCollector` class holds `LINKS` |
| `IssueReport` | `str(code)`, `add_to_report` and the classification loop: the `Report` class holds `FOUND_ISSUES` |
| `FetchBatches` | the batching loop and `asyncio.gather`'s order-keeping |
| `PageLinks` | `get_page_childs`: the `href=(\S+)` match, the `split('"')[1]` and the normalisation |
| `PageCheck` | `get_page_status`, `collect_childs` and the `threads_count` formula |
| `Crawl404` | the round loop: the `Crawler` class holds `childs`, `CACHE`, `new_pages_count`, `recursion` and the results file |

The outside world is passed in as parameters:
- the text of a fetched page is an `Option<string>`;
- one `aiohttp` request is a `fetch` function giving a `FetchOutcome`;
- `Grab.go` is an `open` function giving an `Option<Page>`;
- `check_with_selenium` is a `visible` function giving an `Option<bool>`.

In each case `None` stands for an exception.

Each imperative part of the source is a method proved against a function:
- `ParseAllLinks` and `CollectPass` against `ExtractLinks` and `LinksOfPages`;
- `AddToReport` and `ReportResults` against `Record` and `ReportAll`;
- `CheckInBatches` against `PyHead` and `Gathered`;
- `GetPageChilds` against `ChildrenOf`;
- `CollectChilds` against `Collect`;
- `Scan`, `Drain` and `Run` against `NewPages`, `RoundPosts` and `Crawl`.

The lemmas state the promised properties about those functions.

Where the code and a plain reading of its intent differ, the model follows the code:
- **Fetch failure.** When the fetch in `get_page_status` fails, nothing broken is reported. The page counts as good (status `True`) and is expanded. So it is opened a second time, and a failed open writes one line each time (`UnreachablePage`).
- **Exclude check.** It happens before any fetch (`ExcludedNotFetched`).
- **Default exclude value.** The default `exclude_urls` value `'707'` is the same as the default `child_urls_should_contain`. When the `exclude_urls` setting is present but empty, every page whose link contains `707` is excluded (`DefaultExcludes`). A missing setting makes `config.get` raise, and that is not modelled.
- **Empty exclude entry.** An empty line in `exclude_urls` excludes every page (`EmptyEntryExcludesAll`).
- **Empty ignore list.** An empty `ignore_urls` gives the list `['']`, which rejects every candidate link (`EmptyIgnoreFindsNothing`).
- **Visibility check.** An exception from it is not caught. The worker dies without posting, and the round waits forever (`RaiseStalls`).
- **Anchor without `"`.** `split('"')[1]` raises `IndexError` for the whole `get_page_childs` call (`BadAnchorRaises`).
- **Text before the first `http`.** The first piece of `text.split('http')` is also treated as a candidate. A page that starts with `s://...` therefore yields a link that does not occur in the text (`ExtractedLinkInText`).
- **Batch count.** The batching loop runs once per started twenty links of `LINKS`, not of `TOTAL_LIMIT`. The batches past the limit are empty (`CheckInBatches`).
- **Python 2.** `get404.py` names `python3` in its first line and imports `configparser`. But it calls `unicode` at lines 94-100, which exists only in Python 2; under Python 3 those calls raise `NameError`, and `write_result` at line 25 raises `TypeError` (bytes plus str). The model follows Python 2, which those calls require. So `/` at line 158 is floor division on integers, and `\s` matches ASCII whitespace only.
- **Report keys.** An exception is reported under its message. As in the source, an exception whose message is `404` shares the list of the status `404`: `Record` puts both under the one key.
- **No workers.** With `max_threads_count` below one, `threads_count` is below one, no worker starts, and a round that queued pages never ends (`ZeroCapStalls`).

## Model

| member | source | states |
|---|---|---|
| Config.ConfParam | test5minutes.py:39-41 | the setting's value is used unless it is empty, and then the default is used; the result is empty only when both are |
| Config.ListParam | test5minutes.py:177 | a list setting is the setting, or its default when empty, split on newlines; it always has at least one entry (see `ListParamRoundTrip`) |
| Config.ListParamRoundTrip | test5minutes.py:177 | a setting split on newlines has entries without newlines, and joining them with newlines gives back the setting, or its default when the setting is empty |
| Config.EmptyListParam | test5minutes.py:177 | an empty `ignore_urls` setting, whose default is `''`, becomes `['']`, and that entry occurs in every string |
| Text.FirstPart | test5minutes.py:93-95 | `s.split(sep)[0]` is a prefix of `s` without `sep`, and `sep` follows it unless it is all of `s` |
| Text.FirstPartIsLeast | test5minutes.py:93-95 | `sep` does not occur in `s` anywhere before the end of `s.split(sep)[0]` |
| Text.SplitPart | test5minutes.py:88 | each part of `s.split(sep)` is the slice from the start or right after a `sep`, up to the next `sep` or the end |
| Text.SplitPartFree | test5minutes.py:88 | no part of `s.split(sep)` contains `sep` |
| Text.SplitFirstPart | test5minutes.py:88 | the first part of `s.split(sep)` is everything before the first `sep` |
| Text.SplitSecond | get404.py:76 | `s.split(sep)[1]` exists exactly when `sep` occurs in `s`, and it is then the text between the first and the second occurrence |
| Text.SplitJoin | test5minutes.py:88 | joining the parts of `s.split(sep)` with `sep` gives back `s` |
| Text.Split | test5minutes.py:88 | `s.split(sep)` for a non-empty separator always has at least one part; its parts are characterised by `SplitPart`, `SplitPartFree` and `SplitJoin` |
| LinkExtractor.CutAll | test5minutes.py:93-95 | the chain of `split(d)[0]` cuts gives a prefix of the piece that contains none of the delimiters |
| LinkExtractor.CutAllEarliest | test5minutes.py:93-95 | the chain of cuts cuts at the earliest occurrence of any delimiter: none starts before the cut, and one starts at it when the piece was shortened |
| LinkExtractor.DelimitersStartOnlyAtHead | test5minutes.py:93-95 | no delimiter can begin inside another (needed for the earliest-cut property) |
| LinkExtractor.LinkOf | test5minutes.py:91-105 | the link one piece contributes: `'http'` plus its cut when the piece is a candidate and the cut passes the length, suffix and ignore tests; its properties are `LinkOfShape` |
| LinkExtractor.ExtractLinks | test5minutes.py:88-105 | the links one page text yields, one per contributing piece of `text.split('http')` (`LinksOfExactly`, `ExtractedLinkShape`) |
| LinkExtractor.LinksOfPages | test5minutes.py:185-191 | the links a collection pass adds: those of every snapshot link containing the main domain whose fetch succeeded (`LinksOfPagesSnoc`) |
| LinkExtractor.FoundExactly | test5minutes.py:90-105 | scanning the pieces finds a value exactly when some piece yields it |
| LinkExtractor.LinksOfExactly | test5minutes.py:90-105 | a link is found in the split text exactly when some piece contributes it |
| LinkExtractor.LinkOfShape | test5minutes.py:91-105 | a contributed link is `'http'` plus the cut of a piece starting with `s://` or `://`; the cut is a prefix of the piece; the link starts with `https://` or `http://`, is at least 13 characters long, holds no delimiter and no ignore entry after its `http`, and ends in neither `.` nor `=` |
| LinkExtractor.ExtractedLinkShape | test5minutes.py:88-105 | every link found in a page text has that shape (at least 13 characters, an `https://` or `http://` head, no ignore entry, no `.` or `=` at the end) and comes from a candidate piece of `text.split('http')` |
| LinkExtractor.ExtractedLinkInText | test5minutes.py:88-105 | every found link occurs in the page text, except one cut from the text before the first `http`, whose part after `http` is a prefix of the text |
| LinkExtractor.EmptyIgnoreFindsNothing | test5minutes.py:177 | with the ignore list an empty setting gives, no link is ever added |
| LinkExtractor.FoundSnoc | test5minutes.py:90-105 | scanning one more piece adds exactly what that piece yields |
| LinkExtractor.LinksOfPagesSnoc | test5minutes.py:186-191 | visiting one more link of the snapshot adds the links of its page when the link contains the main domain and its fetch succeeded |
| LinkExtractor.LinkCollector.constructor | test5minutes.py:182 | `LINKS` starts as `{start_url}` |
| LinkExtractor.LinkCollector.ParseAllLinks | test5minutes.py:80-111 | `LINKS` grows by exactly the links extracted from the page and loses nothing; a failed fetch changes nothing |
| LinkExtractor.LinkCollector.CollectPass | test5minutes.py:185-191 | over a snapshot of `LINKS`, the set grows by exactly the links of the pages whose URL contains the main domain |
| LinkExtractor.ScanPiece | test5minutes.py:91-105 | the loop body for one piece yields exactly that piece's link, if any |
| LinkExtractor.IgnoreFlag | test5minutes.py:97-100 | the `parse` flag stays true exactly when no ignore entry is a substring of the cut link |
| IssueReport.DigitChar | test5minutes.py:117 | a digit's character is between `'0'` and `'9'` |
| IssueReport.DecimalString | test5minutes.py:117 | `str(n)` for a status code is never empty; it is a numeral that reads back as `n` (`DecimalStringIsNumeral`, `DecimalRoundTrip`) |
| IssueReport.Key | test5minutes.py:117 | the key of a status is a numeral that reads back as the status; an exception is keyed by its message |
| IssueReport.Classify | test5minutes.py:225-234 | the error code and link an outcome is reported under, or none; its two branches are stated by `ClassifyReports` |
| IssueReport.Record | test5minutes.py:114-121 | the report after one `add_to_report`; what it changes is stated by `RecordAppends` |
| IssueReport.ReportAll | test5minutes.py:225-234 | the report after the classification loop; its lists are stated by `ReportAllLists` and `LinksUnderExactly` |
| IssueReport.DecimalStringIsNumeral | test5minutes.py:117 | `str(n)` is made of digits, with no leading zero unless it is `"0"` |
| IssueReport.DecimalStringNoZeroHead | test5minutes.py:117 | `str(n)` of a positive `n` does not start with `0` |
| IssueReport.DecimalRoundTrip | test5minutes.py:117 | reading `str(n)` back as a decimal gives `n` |
| IssueReport.DecimalInjective | test5minutes.py:117 | different status codes give different report keys |
| IssueReport.ClassifyReports | test5minutes.py:225-234 | a response is reported exactly when its status is not 200, with its final URL, under a key that reads back as its status and is never `"200"`; a failed request is always reported, under its exception, with the URL requested |
| IssueReport.RecordAppends | test5minutes.py:114-121 | `add_to_report` appends the link to the list of the key given, creating the key if needed, and leaves every other list as it was |
| IssueReport.ReportAllLists | test5minutes.py:225-234 | after the classification loop, each list is its old contents followed by the links reported under its key, in arrival order; a key is present exactly when it was before or something was reported under it |
| IssueReport.LinksUnderExactly | test5minutes.py:225-234 | a link is listed under a key exactly when some outcome is classified under that key with that link |
| IssueReport.AllOkReportsNothing | test5minutes.py:225-234 | `200` responses leave the report unchanged |
| IssueReport.OkThenNotFound | test5minutes.py:225-234 | a `200` response and then a `404` one, on an empty report, give `{"404": [second link]}` |
| IssueReport.Report.constructor | test5minutes.py:31 | the report starts empty |
| IssueReport.Report.AddToReport | test5minutes.py:114-121 | the new report is the old one with the link appended under `str(error_code)`, created empty if it was missing; every other key keeps its list |
| IssueReport.Report.ReportResults | test5minutes.py:225-234 | the classification loop leaves the report the specification function `ReportAll` gives |
| FetchBatches.PyHead | test5minutes.py:210 | `xs[:n]` is a prefix of `xs`, of length `min(n, len)` for `n >= 0`, and without the last `-n` elements otherwise |
| FetchBatches.PySlice | test5minutes.py:210 | `xs[a:b]` holds at most `b - a` elements: the elements of `xs` from index `a` up to `b` or the end, and nothing when `a` is past the end |
| FetchBatches.Gathered | test5minutes.py:60-77 | gathering gives one outcome per URL |
| FetchBatches.GatheredAppend | test5minutes.py:214-216 | gathering two runs one after the other is gathering their URLs together, in order |
| FetchBatches.PrefixThenSlice | test5minutes.py:210 | the next slice of twenty continues the prefix already cut |
| FetchBatches.CheckInBatches | test5minutes.py:203-216 | the loop runs `ceil(len(LINKS)/20)` times; each batch holds at most 20 links; the batches together are exactly `list(LINKS)[:TOTAL_LIMIT]`; a batch is empty exactly when it starts past that prefix, and so whenever it starts at or past `TOTAL_LIMIT`; the results are one outcome per checked link, in order |
| PageLinks.HrefFrom | get404.py:75 | the index found is at or after the start, and a match of `href=(\S+)` starts there unless it is the end |
| PageLinks.HrefFromIsLeast | get404.py:75 | no match starts before the one found (leftmost match) |
| PageLinks.HrefFromExact | get404.py:75 | a match with none before it is the one found |
| PageLinks.RunEnd | get404.py:75 | `\S+` extends to the first whitespace or the end |
| PageLinks.RunEndNoSpace | get404.py:75 | the greedy run holds no whitespace |
| PageLinks.RunEndBeyond | get404.py:75 | the greedy run reaches past any stretch of non-whitespace |
| PageLinks.HrefToken | get404.py:75 | the whole leftmost match of `href=(\S+)`, or none; a match is longer than five characters, starts with `href=` and occurs in the anchor |
| PageLinks.HrefTarget | get404.py:75-76 | `group(0).split('"')[1]`, or none where the source raises; its shape is `HrefTargetShape`, and `QuotedAnchor` and `UnquotedRaises` give its value on usual and unquoted anchors |
| PageLinks.Normalise | get404.py:77-78 | the normalised link ends with the target; when the target starts with `/` it is `initial_url` followed by the target (prefix and exact length), and otherwise it is the target itself |
| PageLinks.AnchorChildren | get404.py:74-80 | the children of an opened page: none exactly when some anchor's target cannot be extracted; otherwise one child per anchor, each with the parent's URL |
| PageLinks.ChildrenOf | get404.py:65-81 | what `get_page_childs` returns or whether it raises; stated by `ChildrenShape` and `BadAnchorRaises` |
| PageLinks.TokenNoSpace | get404.py:75 | the matched token holds no whitespace |
| PageLinks.HrefTargetShape | get404.py:75-76 | an extracted target holds no `"` and no whitespace, and follows a `"` in the anchor |
| PageLinks.UnquotedRaises | get404.py:75-76 | an anchor without `"` makes the extraction raise |
| PageLinks.QuotedNoSpace | get404.py:75 | `href="v"` is a run of non-whitespace when `v` is |
| PageLinks.QuotedToken | get404.py:75 | for `...href="v"...` the match starts with `href="v"` |
| PageLinks.SecondOfQuoted | get404.py:76 | `'href="v"...'.split('"')[1]` is `v` |
| PageLinks.QuotedAnchor | get404.py:75-76 | the usual anchor `<a ... href="v" ...>` yields `v` |
| PageLinks.ChildrenShape | get404.py:65-81 | when the parent does not open, nothing is returned and one line is written; otherwise there is one child per anchor, in order, with the parent's URL and the anchor's target, prefixed by `initial_url` exactly when the target starts with `/` |
| PageLinks.BadAnchorRaises | get404.py:74-76 | one anchor without `"` makes the whole call raise |
| PageLinks.GetPageChilds | get404.py:65-81 | the method returns what the specification function `ChildrenOf` gives |
| PageLinks.CollectAnchors | get404.py:74-80 | the anchor loop gives the specification `AnchorChildren`: one child per anchor, or a raise when an extraction fails |
| PageCheck.ExcludedNotFetched | get404.py:87-89 | an excluded link is rejected and nothing is written, whatever the network and the browser would answer |
| PageCheck.EmptyEntryExcludesAll | get404.py:87-89 | an empty entry in `exclude_urls` rejects every page |
| PageCheck.PageStatus | get404.py:84-102 | the decision of `get_page_status`: it raises only for a page that is not excluded and opened, and it writes at most one line; the cases are stated by `ExcludedNotFetched`, `ExpandCases` and `RejectVisible` |
| PageCheck.Collect | get404.py:105-111 | what `collect_childs` posts for a page: every child posted has that page as parent; the cases are stated by `CollectExpandsOnlyIfTrue`, `NoLineBeforeRaise` and `UnreachablePage` |
| PageCheck.ThreadsCount | get404.py:158-161 | the size of a wave is the smaller of `max_threads_count` and one more than half the pending pages |
| PageCheck.DefaultExcludes | get404.py:118 | with the `exclude_urls` setting present but empty, every link containing `707` is rejected |
| PageCheck.ExpandCases | get404.py:91-102 | a page that is not excluded is expanded exactly when its open fails, its code is 200, or the browser does not see it; a failed open writes one line |
| PageCheck.RejectVisible | get404.py:91-102 | a page that is not excluded is rejected exactly when its code is not 200 and the browser sees it, and then exactly the line with code, link and parent is written |
| PageCheck.CollectExpandsOnlyIfTrue | get404.py:105-111 | a page is expanded only when its status is true; a rejected page posts `[]` |
| PageCheck.NoLineBeforeRaise | get404.py:84-111 | a worker that raises has written no line |
| PageCheck.UnreachablePage | get404.py:55-111 | a page that is not excluded and does not open is written up twice and posts `[]` |
| PageCheck.ThreadsCountBounds | get404.py:157-161 | while pages are pending and the cap is at least one, a wave has between 1 and `max_threads_count` workers, and no more than the pending pages |
| PageCheck.ThreadsCountMonotone | get404.py:158-161 | fewer pending pages never mean more workers |
| PageCheck.ThreadsCountNoCap | get404.py:158-161 | a cap below one starts no worker, so a round that queued pages never ends (see `ZeroCapStalls`) |
| Crawl404.Links | get404.py:144-146 | the links of a list of pages, one per page |
| Crawl404.LinksAppend | get404.py:144-146 | the links of two lists one after the other |
| Crawl404.FirstWith | get404.py:144-146 | the index found carries the link when it is inside the list, and no earlier page carries it, so it is the first such page, or the length when none does |
| Crawl404.NewPagesFresh | get404.py:144-152 | the scan queues only links not already in `CACHE`, and each at most once, so `CACHE` never gets a duplicate |
| Crawl404.NewPagesComplete | get404.py:144-152 | after the scan every link of `childs` is in `CACHE` |
| Crawl404.FirstParentWins | get404.py:144-152 | each queued page is the first page of `childs` with its link, so the first parent wins |
| Crawl404.FirstWithAbsent | get404.py:144-146 | a link no page carries has no first page |
| Crawl404.NewPagesSplit | get404.py:144-152 | scanning two lists one after the other queues the first's new pages, then the second's against the grown `CACHE` |
| Crawl404.NewPagesCovered | get404.py:144-152 | a scan whose links are all in `CACHE` queues nothing |
| Crawl404.NewPages | get404.py:144-152 | the pages the scan queues, never more than there are pages; stated by `NewPagesFresh`, `NewPagesComplete` and `FirstParentWins` |
| Crawl404.CollectAll | get404.py:105-111 | what the workers of a round post, in queue order; stated by `CollectAllRaises` and `FoundOnQueued` |
| Crawl404.RoundPosts | get404.py:154-175 | what a round's waves post: nothing when pages are queued and no worker can start; stated by `RoundPostsNone` |
| Crawl404.Rounds | get404.py:139-182 | the round loop from a state to its end; it never ends in `Aborted`; stated by `RoundsBound`, `RoundsDedup`, `CappedNotMerged`, `RaiseStalls` and `NoWorkerStalls` |
| Crawl404.Crawl | get404.py:131-182 | the whole crawl; stated by `CrawlRounds`, `CrawlQueuesOnce` and `ZeroCapStalls` |
| Crawl404.CollectAllRaises | get404.py:157-175 | a round posts nothing exactly when one of its workers raises |
| Crawl404.FoundOnQueued | get404.py:105-111 | every page a round posts was found on a page queued in that round |
| Crawl404.RoundsBound | get404.py:139-179 | the loop counts at most `max_recursion + 1` rounds, is capped at exactly that many, and finishes only after a round that queued nothing |
| Crawl404.ScanCatchesUp | get404.py:144-152 | a scan against a `CACHE` that covers a prefix of `childs` queues the pages of the rest, and leaves `CACHE` as a scan of all of `childs` from empty would |
| Crawl404.RoundsDedup | get404.py:139-182 | through all rounds, `CACHE` stays exactly what scanning all of `childs` from an empty cache queues |
| Crawl404.CrawlQueuesOnce | get404.py:131-182 | at the end of a crawl, `CACHE` has no duplicates, contains every link found, and equals the single scan of `childs` |
| Crawl404.CrawlRounds | get404.py:131-179 | a crawl is aborted exactly when the first `get_page_childs` raises, and runs at most `MaxRounds` rounds, that is `max_recursion + 1`; the bound is at least one (it is 1 when `max_recursion` is negative) |
| Crawl404.CappedNotMerged | get404.py:177-182 | the round that hits the cap is counted, but its results are not merged into `childs` |
| Crawl404.RaiseStalls | get404.py:157-175 | a round in which a worker raises never ends; nothing is merged and the round is not counted |
| Crawl404.CollectAllStops | get404.py:157-175 | one raising worker stops the round's results |
| Crawl404.CollectChilds | get404.py:105-111 | the method returns what the specification function `Collect` gives: the status check, then the expansion only when the status is true |
| Crawl404.Crawler.constructor | get404.py:131-137 | the state starts with no pages, an empty `CACHE` and zero counters |
| Crawl404.Crawler.Scan | get404.py:142-152 | the scan queues the new pages of `childs` (`NewPages`), appends exactly their links to `CACHE`, and sets `new_pages_count` to their number; `CACHE` grows by exactly `new_pages_count` |
| Crawl404.Crawler.Drain | get404.py:154-175 | the waves of `threads_count` workers give the round's posts (`RoundPosts`): nothing when no worker can start or one raises, otherwise what all of them post |
| Crawl404.Crawler.Round | get404.py:139-182 | one round either ends the loop in the state `Rounds` gives, or continues: it then queues `NewPages` of `childs` into `CACHE`, sets `new_pages_count` to their number, appends the workers' posts (`RoundPosts`) to `childs` and their lines to the log, counts one round below the cap, and leaves the rest of the loop's outcome unchanged |
| Crawl404.Crawler.Run | get404.py:131-182 | the outcome and the final state are those of the specification `Crawl` |
| Crawl404.RoundPostsNone | get404.py:154-175 | a round posts nothing exactly when pages are queued but the cap lets no worker start, or some worker raises |
| Crawl404.NoWorkerStalls | get404.py:157-164 | a round that queues pages while `max_threads_count` is below one never ends; nothing is merged and the round is not counted |
| Crawl404.FirstScanQueues | get404.py:131-152 | the first scan, from an empty `CACHE`, queues at least one page when there are pages |
| Crawl404.ZeroCapStalls | get404.py:131-175 | with `max_threads_count` below one, a crawl whose start page has children never ends |

## Left out

- HTTP transport is not part of this model: `requests.get`, `aiohttp`, `Grab`, `requote_uri` and the user-agent header. Page texts, fetch outcomes and page opens are inputs.
- Concurrency is not modelled: the asyncio semaphore and event loop, and the `multiprocessing` workers. The queued pages of a round are processed one after the other in queue order. The model therefore does not capture the order in which workers post results, nor the lines that other workers write during a round that stalls.
- Crawl404.Crawler.Drain: the waves are kept, but the workers of a wave take their pages one after the other, and the polling of `join` and `qsize` (lines 169-175) is not modelled. A round that cannot end is the `Stalled` outcome, where the real program waits forever.
- The timeouts of `queue.get`, `queue.put` and `results.put`, and `time.sleep`, are not modelled.
- `check_with_selenium` is not modelled beyond its answer: browser start-up, the XPath selection and `child_url.split('/')[-2]`. Visibility is an input.
- The `SELECTOR` XPath query is not modelled: the anchors of a page are given as part of the opened page.
- A page opened twice by one worker, once in `get_page_status` and once in `get_page_childs`, gets the same answer both times, because `open` is a function.
- `generate_html_report` writes a file and uses random `uuid4` ids, so it is left out.
- `write_result` is modelled as the list of lines written. The exact text of the lines, the file and its encoding are left out, and so is the `all_tested_links` file.
- Progress bars, `print`, `colored` and timing are left out.
- Reading the configuration files and `int()` of the numeric settings are left out. The settings are parameters.
- The iteration order of `list(LINKS)` is left out: it is a parameter, the sequence `links` or `total`.
- IssueReport.Key: an exception's key is its message as a parameter; how `str` formats each exception class is not modelled.
- PageLinks.HrefToken: the regular expression engine is replaced by its leftmost, greedy match of `href=` followed by a run of non-whitespace.
- The `except` around the cut chain (test5minutes.py lines 107-109) is left out, because nothing inside it can raise: `split(d)[0]` always exists.
