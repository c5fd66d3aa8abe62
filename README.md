# Sarkari results watcher — a Dafny model of its polling cycle

The watcher polls the results listing of sarkariresult.com. Each cycle fetches the page and extracts one post (title and link) from every list entry in the `<div id="post">` section that has a link. It compares these posts, as sets, with the snapshot stored by the previous successful cycle. When posts were added it sends one e-mail listing them. Then it stores the new snapshot. A cycle whose fetch fails is skipped and changes nothing.

The model follows the one source file, `sarkari_scraper.py`, with one module per part of the cycle:

- `Posts` (posts.dfy): the `Post` record, Python's `str.strip()` (with the exact whitespace set of `str.isspace()`), and the set of posts in a snapshot.
- `Extractor` (extractor.dfy): the page as an abstract tree. The optional post section holds `<ul>` groups, each group holds `<li>` entries, and each entry holds its first `<a>`, if any, with text and optional `href`. `Extract` states what `fetch_post_data` returns for an HTTP outcome. `FetchPostData` is its nested loop, proved equal to `Extract`.
- `Differ` (differ.dfy): the set comparison of the new and the old snapshot.
- `Notifier` (notifier.dfy): the subject, the body header and the line format. `BuildBody` is the loop that grows the body. `SplitLines` reads a body back line by line.
- `Report` (report.dfy): `Changes` computes what `compare_and_report_differences` decides: the delta, the listing of the added posts in set-iteration order (any order), and the message, if any.
- `Scraper` (scraper.dfy): class `Runner`. Its fields are the stored snapshot (`store`), every message handed to `send_email` (`outbox`) and those the SMTP server accepted (`delivered`). `ScrapeAndCheck` is one cycle, and `Run` runs a sequence of cycles with the timing left out.

The SMTP outcome of each send is a `bool` parameter. The failure is swallowed either way.

Two behaviours of the code are easy to miss, and the model follows the code in both:

- A linked entry whose `<a>` has no `href` attribute makes `link["href"]` raise `KeyError` (sarkari_scraper.py:58). The exception escapes `fetch_post_data` and `scrape_and_check`. The model treats it like a transport exception from `requests.get` (`Raised`): the cycle stops before loading, comparing or saving, so the store and the mail stay unchanged.
- No exception is caught around a cycle, neither at the cold start (sarkari_scraper.py:142) nor in the `schedule` loop (sarkari_scraper.py:153-155). A cycle that raises therefore ends the process rather than being skipped. `Replay` and `Runner.Run` stop at the first such cycle.

## Model

| member | source | states |
|---|---|---|
| Posts.Strip | sarkari_scraper.py:57-58 | the stripped text has no leading or trailing whitespace and is no longer than the input |
| Posts.TrimStartSpec | sarkari_scraper.py:57-58 | trimming the start leaves the longest suffix that does not start with whitespace; everything dropped is whitespace |
| Posts.TrimEndSpec | sarkari_scraper.py:57-58 | trimming the end leaves the longest prefix that does not end with whitespace; everything dropped is whitespace |
| Posts.StripDecomposes | sarkari_scraper.py:57-58 | the stripped text is a contiguous part of the input with only whitespace before and after it |
| Posts.StripPadding | sarkari_scraper.py:57-58 | stripping whitespace padding around an already stripped text gives back exactly that text |
| Posts.StripIdempotent | sarkari_scraper.py:57-58 | stripping twice is the same as stripping once |
| Posts.Elems | sarkari_scraper.py:101-102 | a post is in the snapshot's set iff it occurs in the snapshot |
| Extractor.PostOf | sarkari_scraper.py:56-59 | the post of one link has a title and a url without surrounding whitespace |
| Extractor.Extract | sarkari_scraper.py:38-61 | a transport exception is re-raised; the result is `None` exactly for a non-200 status or a missing post section, so a missing section is a failure, never an empty list |
| Extractor.PostsOf | sarkari_scraper.py:55-59 | one post per anchor, position by position, built from that anchor's stripped text and href |
| Extractor.FetchPostData | sarkari_scraper.py:38-61 | the nested loops over groups and entries return exactly `Extract`: transport exception, `None` for a non-200 status or a missing post section, `KeyError` for a link without href, otherwise the posts |
| Extractor.EntriesSplit | sarkari_scraper.py:52-53 | entries are visited group by group: group `i`'s entries come after those of every earlier group and before those of every later group |
| Extractor.MissingHrefSeen | sarkari_scraper.py:54-58 | a linked entry without `href` anywhere in the section makes the whole extraction raise |
| Extractor.AnchorsInDocumentOrder | sarkari_scraper.py:53-55 | the anchors are those of the linked entries, one each, at strictly increasing positions; every linked entry contributes one, entries without a link none, so there are at most as many as entries |
| Extractor.OnePostPerLinkedEntry | sarkari_scraper.py:51-61 | a successful extraction means status 200 and a post section, and yields exactly one post per linked entry, in group-then-entry order, built from that entry's link |
| Extractor.ExtractedPostsStripped | sarkari_scraper.py:57-58 | every extracted title and url has no surrounding whitespace |
| Differ.Diff | sarkari_scraper.py:100-105 | added and removed are disjoint, added lies in the new set and removed in the old one, and patching the old set with them gives the new set |
| Differ.DiffMembers | sarkari_scraper.py:101-105 | a post is added iff it is in the new snapshot and not in the old; removed iff in the old and not in the new |
| Differ.DiffSwap | sarkari_scraper.py:104-105 | swapping the snapshots swaps added and removed |
| Differ.DiffSelf | sarkari_scraper.py:101-105 | a snapshot compared with itself has nothing added and nothing removed |
| Differ.DiffIgnoresDuplicatesAndOrder | sarkari_scraper.py:101-102 | the delta depends only on the sets of posts: duplicates and order inside a snapshot collapse |
| Differ.NoChangeIffSamePosts | sarkari_scraper.py:124-125 | "no changes" happens exactly when both snapshots hold the same posts |
| Notifier.LineText | sarkari_scraper.py:111 | a post's line `- {title} ({url})` starts with `- `, ends with `)`, is five characters longer than title and url together, and holds no line break when they hold none |
| Notifier.Lines | sarkari_scraper.py:110-111 | the lines are empty exactly when nothing is listed, and otherwise end with a line break |
| Notifier.LinesSnoc | sarkari_scraper.py:110-111 | appending a post to the listing appends its line `- {title} ({url})` and a line break to the lines |
| Notifier.BuildBody | sarkari_scraper.py:109-111 | the body built by the loop is the header followed by one line per listed post, in the order listed |
| Notifier.FirstLineOf | sarkari_scraper.py:109-111 | reading a line back from text without a line break, followed by a break, gives that text and what follows the break |
| Notifier.SplitLinesOfLines | sarkari_scraper.py:110-111 | when no listed title or url holds a line break, the lines read back line by line give exactly one line `- {title} ({url})` per listed post, in order |
| Notifier.BodyLines | sarkari_scraper.py:109-111 | read back line by line, a body is "New posts added:", an empty line, then exactly one line per listed post in order, when no title or url holds a line break |
| Report.Outgoing | sarkari_scraper.py:107-117 | at most one message, and none exactly when nothing is listed; its subject is "New Posts Found" and its body is the header followed by the lines |
| Report.Enumerate | sarkari_scraper.py:104 | the listing holds every element of the set exactly once, in some order |
| Report.Changes | sarkari_scraper.py:100-117 | the delta is `Diff`, the listing holds every added post exactly once, and one message is produced exactly when some post was added |
| Report.ListingIsAdded | sarkari_scraper.py:104-122 | every listed post is new and was not in the old snapshot, no removed post is listed, and there are as many lines as added posts |
| Report.DistinctCard | sarkari_scraper.py:104 | a listing without repetitions has as many elements as its set |
| Report.SelfComparisonIsSilent | sarkari_scraper.py:101-107 | comparing a snapshot with itself sends nothing |
| Report.NoElemsIffEmpty | sarkari_scraper.py:107 | a listing is empty iff its set is empty, which is the `if added:` test |
| Scraper.StatusOf | sarkari_scraper.py:129-136 | a cycle completes iff the fetch gave posts, and is skipped iff it gave `None` |
| Scraper.Runner.constructor | sarkari_scraper.py:63-65 | a process started with no data file has an empty store (the absent file reads as empty) and has sent no mail |
| Scraper.Runner.LoadPreviousData | sarkari_scraper.py:63-68 | returns the stored snapshot |
| Scraper.Runner.SaveCurrentData | sarkari_scraper.py:70-72 | overwrites the stored snapshot with the given one |
| Scraper.Runner.SendEmail | sarkari_scraper.py:83-98 | the message is handed over once; it is delivered only when the server accepts it, and a failure raises nothing |
| Scraper.Runner.CompareAndReportDifferences | sarkari_scraper.py:100-125 | sends exactly the message of `Changes`, that is, one message iff posts were added; removed posts cause no mail |
| Scraper.Runner.ScrapeAndCheck | sarkari_scraper.py:127-136 | a failed or raising fetch leaves the store and the mail untouched; a successful one sends one message iff posts were added and then stores the new snapshot, whether or not delivery succeeded |
| Scraper.Runner.Run | sarkari_scraper.py:139-155 | cycles run in order and stop exactly at the first response whose cycle raises; the store is then `Replay` of the cycles that ran, which equals `Replay` of all the responses, and the mail only grows, by at most one message per cycle run |
| Scraper.Persisted | sarkari_scraper.py:129-136 | the store after one cycle: unchanged when the fetch fails or raises; otherwise a snapshot against which the fetched posts show no change |
| Scraper.Replay | sarkari_scraper.py:139-155 | the store after a sequence of cycles; a run in which no fetch succeeds leaves the stored snapshot as it was |
| Scraper.FailedFetchKeepsStore | sarkari_scraper.py:129-132 | a cycle whose fetch fails or raises keeps the stored snapshot |
| Scraper.SecondCycleIsQuiet | sarkari_scraper.py:134-136 | a second cycle on unchanged content finds nothing added or removed and stores the same snapshot |
| Scraper.ReplayUpToCrash | sarkari_scraper.py:139-155 | responses from the first cycle that raises on are never seen: the store after the whole sequence is the store after the cycles before that crash |
| Scraper.ReplayKeepsLatest | sarkari_scraper.py:127-155 | when cycle `m` is the first to raise (or there is none), the stored snapshot is that of the last successful fetch before `m`, whatever failed in between and whatever follows the crash |
| Scraper.RepeatedCycle | sarkari_scraper.py:127-136 | two cycles on the same successful response: the first lists the added posts, the second lists nothing, the mail gains only the first cycle's message, and the store holds the extracted posts |

## Left out

- HTTP (`requests.get`, sarkari_scraper.py:30, 40): the outcome of the request is a `Response` parameter, either a status with a parsed page or a transport exception. The call has no timeout, so a request can block forever, and then no later cycle runs. The model assumes every request returns.
- HTML parsing by BeautifulSoup: the page is an abstract tree. `find_all` also finds nested `<ul>`/`<li>` elements, which would visit an entry twice. The model assumes flat, non-nested lists. `link.text` is taken as given text.
- JSON persistence (sarkari_scraper.py:63-72): the data file is the `store` field, and its absence is the empty snapshot. A JSON round trip is taken to be exact. A corrupt or unreadable file, which would make `json.load` raise, is not modelled.
- Scraper.Runner.SaveCurrentData: the save completes all at once. `open(DATA_FILE, "w")` empties the file before `json.dump` writes (sarkari_scraper.py:70-72). A write that fails leaves the file empty or half-written, and the error escapes `scrape_and_check` after the mail was sent (sarkari_scraper.py:135-136), ending the process. The model assumes every save succeeds.
- SMTP and MIME (sarkari_scraper.py:83-98): sending is recorded in `outbox`, and server acceptance is a `bool` parameter. Credentials, server and addresses are configuration.
- The `/health` endpoint, the Flask thread, the 5-second `schedule` timer and the `time.sleep` loop (sarkari_scraper.py:25-36, 139-155): these are concurrency and timing. `Runner.Run` keeps only the order of the cycles.
- `scrape_additional_data` (sarkari_scraper.py:74-81) is used only by commented-out code, so it has no effect on a cycle.
- Console logging, including the log of removed posts (sarkari_scraper.py:119-125): it has no effect on state.
- The order in which added posts are listed is Python's set iteration order. The model allows any order: `Enumerate` picks elements arbitrarily, and the cycle returns the listing it used.
- Notifier.BodyLines: reads the body back only when no title or url contains a line break, because a title with an inner line break makes the body's lines ambiguous.
- Notifier.SplitLinesOfLines: reads the lines back under the same condition and for the same reason; `link.text.strip()` can keep inner line breaks.
