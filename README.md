# InsightBot pipeline — a verified Dafny model

InsightBot collects news articles and serves them through a small web
application. Its pipeline has the following stages:

- **RSS ingest** (`scripts/ingest_rss.py`). For each configured source it
  reads the feed, which is either given or discovered from the home page. It
  turns the entries into articles, sorts them newest first and keeps the
  first eight whose URL key has not been seen before, in this or an earlier
  source.
- **HTML ingest** (`scripts/ingest_urls.py`). It normalises the source list,
  applies the robots rule, names the saved page after the URL's network
  location and appends one manifest row per source. Each source's status is
  decided in a fixed order.
- **Preprocessing** (`scripts/preprocess_html.py`). It normalises whitespace
  (`clean_text`) and collects candidate text blocks through five CSS
  selectors. It keeps the ten best blocks by `(p_count, length)` and writes
  them with the page's title guess.
- **Extraction** (`scripts/extract_content.py`). It picks each page's best
  block and derives the title, body, URL, source, language and date from it.
- **Publish merge** (`scripts/publish.py`). It concatenates the RSS and then
  the HTML table and fills the columns no table has with `""`. It then
  deduplicates on `url`, keeping the first row, and sorts by date, newest
  first.
- **Query layer** (`src/insightbot/api/app.py`). It loads every CSV and
  filters by language, source and free text. It applies the relative date
  window, cuts 24-row pages with a favicon host, and computes the facet
  lists and the grouped counts behind the metrics endpoints.

All stages work on the article record `title, body, language, date, source,
url`, which is `Articles.Article`. Table reads go through
`Articles.Table` and `Articles.Row`, where a NaN cell is `None`.

Each stage is in its own module:

| module | stage |
|---|---|
| `Query` | query layer |
| `Publish` | publish merge |
| `IngestRss` | RSS ingest |
| `Preprocess` | preprocessing |
| `Extract` | extraction |
| `IngestUrls` | HTML ingest |

Modules that several stages share:

- `Text`: Python's string operations. `strip`, ASCII `lower`, `startswith`,
  `in`, slicing, `str.replace` of one character, `str(int)` and string
  order.
- `Seqs`: filtering, subsequences, deduplication by a key, a stable
  insertion sort, `value_counts`-style tallies, and `Choose` and `FlatMap`.
- `Urls`: the part of `urllib.parse.urlsplit` that finds the network
  location.
- `Wrappers`: `Option`.

Loops in the source become methods with loop invariants. Each method is
proved equal to a specification function, for example
`IngestRss.IngestRss`, `Publish.FinalMerge` and `Extract.ExtractContent`.
The properties the code promises are then proved about those functions as
lemmas. The one object updated in place, the manifest file that
`write_manifest_row` appends to, is the class `IngestUrls.Manifest`.
The body of the HTML ingest loop, which leaves each source through early
`continue`s and updates its row in place, is kept as the methods
`IngestUrls.DecideSource` and `IngestUrls.SourceStep` beside the functions
`Decide` and `SourceRow` that the run's contract and lemmas are stated with.

Some behaviour is passed in as parameters:

- **Python's sorts.** `sorted`, `list.sort` and pandas `sort_values` are all
  modelled by one stable insertion sort, `Seqs.Sort`. Python's sorts are
  stable, and the stability lemmas are used only where the source sorts with
  Python. pandas' sort (`publish.py`, the CSV write in `ingest_rss.py`) does
  not promise an order among equal dates, so the lemmas about those stages
  (`Publish.MergedProps`, `IngestRss.OutputProps`) state only sortedness and
  being a permutation. The methods `Publish.FinalMerge` and
  `IngestRss.IngestRss` are tied to the insertion sort and so fix one tie
  order (see "Left out").
- **Date parsing.** `dateutil`, `pd.to_datetime` and the ISO formatting are
  parameters: `parse: string -> Option<int>` (microseconds since the epoch,
  UTC) and `parseIso`. The clock is a value `now`, or `nowIso`, or
  `clock(i)` for source `i`.
- **Tag stripping and parsing.** BeautifulSoup's output is given as data.
  Tag stripping is the parameter `strings`. A parsed page is a sequence of
  elements in document order, with their tag, `role`, `get_text(" ")` and
  number of `<p>` descendants.
- **Network.** The network, the robots parser and `urljoin` are parameters:
  `Net`, `Env.robots`, `Env.fetch` and `join`. `join` gives `None` where
  `urljoin` raises, which `autodiscover_rss` turns into no feed.

## Model

| member | source | states |
|---|---|---|
| `Articles.Fields` | scripts/extract_content.py:105 | a row has six cells, and the cell at each position is the article's value for the column `REQUIRED_COLS` names there: title, body, language, date, source, url |
| `Articles.ReadCell` | src/insightbot/api/app.py:74 | with every column read as text, a cell is NaN exactly when its column or field is missing or reads as one of pandas' NA strings; otherwise it is the field's text, which is non-empty |
| `Articles.RowOf` | src/insightbot/api/app.py:75-80 | each of the six columns holds `""` when it was added empty and otherwise the file's cell |
| `Articles.RowsOf` | src/insightbot/api/app.py:76-80 | a projected table has one row per line of the file |
| `Articles.ToArticle` | src/insightbot/api/app.py:86-87 | every one of the six fields is the row's cell; NaN cells are spelled `""`, except the date, which is spelled with the given NaN text |
| `Articles.NewerFirstIsPreorder` | scripts/ingest_rss.py:125 | the descending string order on dates is a total preorder, so sorting by it is meaningful |
| `Articles.RowNewerFirstIsPreorder` | scripts/publish.py:192 | descending date order with NaN last is a total preorder |
| `Query.LoadArticles` | src/insightbot/api/app.py:68-89 | the loaded table is the deduplicated concatenation of the readable files, each projected onto the six columns with absent ones as `""`, and NaN dates read `"nan"` |
| `Query.LoadedRowsProps` | src/insightbot/api/app.py:84 | no two loaded rows are identical, they keep file order, and every row of every readable file is among them |
| `Query.NoFilesNoArticles` | src/insightbot/api/app.py:83-89 | with no readable file the table is empty |
| `Query.FramesOfUnreadable` | src/insightbot/api/app.py:72-82 | files that fail to read contribute no frame |
| `Query.LoadedDate` | src/insightbot/api/app.py:77-87 | a loaded date is `""` when its file has no date column, the file's cell when it has one, and `"nan"` for a missing or NA cell |
| `Query.FilterDf` | src/insightbot/api/app.py:92-107 | an empty frame is returned as is; a row survives iff the language, source and text filters all accept it |
| `Query.FilterDfIsOneMask` | src/insightbot/api/app.py:95-107 | the three chained filters are a single mask over the frame, so the result is an order-preserving subsequence |
| `Query.AllMeansNoFilter` | src/insightbot/api/app.py:96-99 | `All` in any case, or a missing language or source, imposes no constraint |
| `Query.DaysKey` | src/insightbot/api/app.py:117 | a key has a day count iff it ends in `d` and the rest is all digits, so a bare `d` does not count |
| `Query.WindowStart` | src/insightbot/api/app.py:112-120 | `""` gives no window; `today` gives the start of the current UTC day; `Nd` gives `now - N days` unless that overflows; anything else gives no window |
| `Query.ApplyDateFilter` | src/insightbot/api/app.py:110-135 | with no window the frame is unchanged; otherwise a row is kept iff its stripped date is non-blank and parses to an instant at or after the start |
| `Query.DateFilterIsSubseq` | src/insightbot/api/app.py:132 | the date filter keeps rows in their order |
| `Query.DaysKeyWindow` | src/insightbot/api/app.py:115-120 | for every `n`, the key `<n>d` starts its window `n` days before now, or gives no window past `MAX_DAYS` or `datetime.min` |
| `Query.DateKeyExamples` | src/insightbot/api/app.py:115-120 | `7d` starts seven days back; `d` and `week` leave the frame unchanged |
| `Query.SliceIndex` | src/insightbot/api/app.py:191 | a slice bound is resolved against the length as Python does, and an in-range bound is itself |
| `Query.PySlice` | src/insightbot/api/app.py:191 | a Python slice is never longer than the sequence |
| `Query.Paginate` | src/insightbot/api/app.py:184-198 | `total` is the unpaginated count; the items are the page's slice of the filtered rows, each with its favicon host |
| `Query.WithHosts` | src/insightbot/api/app.py:192-198 | the host loop keeps the rows and their order, and it gives each row its host |
| `Query.PageContents` | src/insightbot/api/app.py:185-191 | a page has at most 24 rows; from page 1 on they are the rows at `(page-1)*24 + k`, and the page has the exact length of the remainder |
| `Query.HostOfAbsoluteUrl` | src/insightbot/api/app.py:195 | the favicon host of `scheme://host/path` is `host` |
| `Query.LexLeIsPreorder` | src/insightbot/api/app.py:180-181 | string order is a total preorder |
| `Query.FacetsProps` | src/insightbot/api/app.py:180-181 | a facet list is `All` followed by every distinct non-empty value exactly once, in strictly increasing order |
| `Query.MoreFrequentIsPreorder` | src/insightbot/api/app.py:253 | ordering by count, largest first, is a total preorder |
| `Query.ValueCountsProps` | src/insightbot/api/app.py:253 | `value_counts` lists each value once with its number of occurrences, most frequent first, and the counts add up to the number of values |
| `Query.Labelled` | src/insightbot/api/app.py:253 | `""` is reported as `Unknown`, and every other label is kept |
| `Query.LanguageMetricsProps` | src/insightbot/api/app.py:246-255 | language counts are sorted descending, labels are never empty, each count is that label's frequency, the counts sum to the row count, and every row's label appears |
| `Query.SourceMetricsProps` | src/insightbot/api/app.py:263-273 | at most `max(1, top)` entries are returned; they are a prefix of the full counts, which sum to the row count; they are sorted descending, with non-empty labels and true frequencies |
| `Query.TopCounts` | src/insightbot/api/app.py:271 | the head of the value counts is still sorted, and its counts are true frequencies of values that occur |
| `Query.Days` | src/insightbot/api/app.py:235-236 | the day column, unparsable dates dropped, is never longer than the date column |
| `Query.DaysMembers` | src/insightbot/api/app.py:216-220 | a day is in the column iff some date parses to an instant on that day |
| `Query.VolumeAscending` | src/insightbot/api/app.py:236 | the volume series lists each day once, in strictly ascending order |
| `Query.VolumeCounts` | src/insightbot/api/app.py:236-237 | each day's count is the number of dates on that day, and the counts sum to the number of parsable dates |
| `Query.VolumeDays` | src/insightbot/api/app.py:235-237 | the days listed are exactly those that some article's date parses to |
| `Publish.ReadFrames` | scripts/publish.py:172-182 | the readable tables are in order, RSS first; an unreadable or absent one is skipped; there are none only when neither table is readable |
| `Publish.MissingColumns` | scripts/publish.py:186-189 | the column loop adds exactly the kept columns that no table has |
| `Publish.FinalMerge` | scripts/publish.py:184-198 | nothing is written iff no table is readable; otherwise the written rows are the merge and `read` is the number of rows read |
| `Publish.MergedProps` | scripts/publish.py:185-192 | each input url appears once, on its first row in concatenation order; the output is sorted newest first and is a permutation of the url-deduplicated input, so it has at most as many rows as were read |
| `Publish.ConcatLength` | scripts/publish.py:185 | the concatenation has as many rows as all tables together |
| `Publish.RowFromFrame` | scripts/publish.py:185-189 | every concatenated row is the projection of some line of some table |
| `Publish.MissingColumnsFilled` | scripts/publish.py:186-190 | a column no table has is `""` in every row; any other column holds the row's own table's cell |
| `Publish.UrlCell` | scripts/publish.py:186-190 | a merged url is `""` only when no table has a url column, otherwise NaN or non-empty |
| `Publish.WrittenUrlsUnique` | scripts/publish.py:190-195 | no two written rows share a url, even after NaN is written as `""` |
| `Publish.WrittenNewestFirst` | scripts/publish.py:192-195 | the written dates are in descending string order |
| `IngestRss.UrlKeyCollisions` | scripts/ingest_rss.py:23-24 | URLs that differ only in surrounding whitespace or in letter case have the same dedup key |
| `IngestRss.Truncate` | scripts/ingest_rss.py:38 | a text of at most `max_len` characters is unchanged; a longer one becomes its first `max_len` characters and `…` |
| `IngestRss.HtmlToText` | scripts/ingest_rss.py:32-38 | empty input gives `""`; the result is never longer than `max_len + 1`; otherwise it is the joined, stripped text pieces, truncated |
| `IngestRss.Or` | scripts/ingest_rss.py:107-112 | `a or b` on strings: `a` unless it is empty |
| `IngestRss.ItemOf` | scripts/ingest_rss.py:107-122 | an entry yields an item iff it has a link; the url is the stripped link; the body falls back from summary to description; the date falls back from published to updated to now; the title and body are truncated to 180 and 800 characters |
| `IngestRss.Items` | scripts/ingest_rss.py:105-122 | a feed has no more items than entries |
| `IngestRss.CollectItems` | scripts/ingest_rss.py:105-122 | the entry loop collects the items of the feed in entry order |
| `IngestRss.ItemsFromEntries` | scripts/ingest_rss.py:109-121 | every item comes from an entry with a link and carries the source's name and language |
| `IngestRss.FirstFeedLink` | scripts/ingest_rss.py:47-53 | the position found is the first usable feed link, with no usable link before it |
| `IngestRss.Autodiscover` | scripts/ingest_rss.py:40-56 | the link loop returns the resolved `href` of the first usable feed link; none when the page fails, has no such link, or resolving the `href` raises |
| `IngestRss.DiscoveredIsFirst` | scripts/ingest_rss.py:47-56 | a discovered feed is the resolved `href` of a usable link that no usable link precedes; none is found iff the page is unavailable, has no usable link, or `urljoin` raises on the first usable link's `href` |
| `IngestRss.SourceName` | scripts/ingest_rss.py:86 | the stripped name when the name is non-empty; else the stripped url when that is non-empty; else `source` |
| `IngestRss.SourceLanguage` | scripts/ingest_rss.py:87 | the language is the configured one when non-empty, and `English` when it is missing or empty |
| `IngestRss.FeedOf` | scripts/ingest_rss.py:88-97 | a given `rss` is used as is; with neither `rss` nor `url` the source is skipped; with a `url` but no `rss` the feed is the one discovered from the `url`, and the source is skipped iff discovery gives none or an empty one |
| `IngestRss.SelectUnseen` | scripts/ingest_rss.py:124-135 | the selection loop keeps the first at most eight items whose key is unseen, and the skipped duplicates do not count; `seen` grows by exactly the kept keys |
| `IngestRss.IngestSource` | scripts/ingest_rss.py:85-135 | one source contributes the fresh head of its newest-first items and records their keys |
| `IngestRss.IngestRss` | scripts/ingest_rss.py:83-143 | the CSV rows are the collected rows of all sources, deduplicated on url and sorted newest first |
| `IngestRss.IngestedProps` | scripts/ingest_rss.py:83-135 | no two collected rows share a URL key across sources; at most eight times the number of sources in total; every row has the name and language of some source |
| `IngestRss.IngestedPerSource` | scripts/ingest_rss.py:124-135 | each source appends at most eight rows after those of the sources before it, leaving them unchanged; its rows are its newest-first candidates in order, carry its name and language, and have URL keys not collected before |
| `IngestRss.CandidatesFromSource` | scripts/ingest_rss.py:86-121 | a source's items carry its name and language |
| `IngestRss.OutputProps` | scripts/ingest_rss.py:140-143 | the written rows are a permutation of the collected rows, sorted newest first, with unique URL keys, and at most eight times the number of sources |
| `IngestRss.RowsUniqueByUrl` | scripts/ingest_rss.py:142 | distinct URL keys imply distinct URLs, so `drop_duplicates` removes nothing |
| `Preprocess.Collapse` | scripts/preprocess_html.py:11 | collapsing whitespace runs empties only the empty string, keeps whether the text starts with whitespace, and leaves only single spaces |
| `Preprocess.CleanText` | scripts/preprocess_html.py:10-12 | the result has single spaces only and no leading or trailing whitespace |
| `Preprocess.CollapseNormal` | scripts/preprocess_html.py:11 | collapsing leaves already normal text unchanged |
| `Preprocess.CleanTextIdempotent` | scripts/preprocess_html.py:10-12 | `clean_text` applied twice is `clean_text` applied once |
| `Preprocess.CleanTextOfNothing` | scripts/preprocess_html.py:11 | `None` and `""` both clean to `""` |
| `Preprocess.CollapseKeepsText` | scripts/preprocess_html.py:11 | collapsing whitespace keeps every non-whitespace character, in order, and adds none |
| `Preprocess.CleanTextKeepsText` | scripts/preprocess_html.py:10-12 | `clean_text` keeps the non-whitespace characters of its input, in order, and adds none: only whitespace changes |
| `Preprocess.CollapseRun` | scripts/preprocess_html.py:11 | a maximal whitespace run becomes exactly one space, and the text on either side is collapsed independently |
| `Preprocess.CleanTextRun` | scripts/preprocess_html.py:10-12 | a maximal whitespace run between two non-empty pieces of text becomes exactly one space in the cleaned text, and each piece is cleaned as if it stood alone |
| `Preprocess.BlockOf` | scripts/preprocess_html.py:22-31 | an element yields a block iff its cleaned text is non-empty; the block records the selector, the `p` count and the full cleaned length, with the text capped at 20000 |
| `Preprocess.CandidateBlocks` | scripts/preprocess_html.py:14-31 | the nested loop emits the blocks of `main`, `article`, `[role='main']`, `section`, `div` in that order, with elements in document order |
| `Preprocess.SelectorBlocksFrom` | scripts/preprocess_html.py:21-24 | a selector yields a block exactly for each matching element whose cleaned text is non-empty |
| `Preprocess.ScanOrder` | scripts/preprocess_html.py:20-21 | blocks come selector by selector in scan order |
| `Preprocess.CandidateBlocksProps` | scripts/preprocess_html.py:14-31 | blocks come in scan order; each has non-empty text capped at 20000 and a length at least its text's |
| `Preprocess.ScanMembers` | scripts/preprocess_html.py:20-31 | every block comes from some selector and a matching element |
| `Preprocess.BlockFacts` | scripts/preprocess_html.py:26-31 | a block carries its selector, and its text is non-empty, capped, and no longer than its length |
| `Preprocess.RankBeforeIsPreorder` | scripts/preprocess_html.py:50 | descending `(p_count, length)` order is a total preorder |
| `Preprocess.TopBlocksProps` | scripts/preprocess_html.py:50 | at most ten blocks are kept, as many as there are up to ten; they are sorted best first and drawn from the candidates; no left-out block outranks a kept one; tied blocks keep scan order |
| `Preprocess.TitleGuess` | scripts/preprocess_html.py:41-47 | the cleaned `<title>` string when it is non-empty, else the cleaned first `h1`, else none (or `""` for a title that cleans to nothing) |
| `Preprocess.PreprocessOne` | scripts/preprocess_html.py:33-57 | one record per kept block, best first, all with the same title guess |
| `Extract.RecBeforeIsPreorder` | scripts/extract_content.py:29 | descending `(p_count, length)` with missing keys as 0 is a total preorder |
| `Extract.PickBest` | scripts/extract_content.py:25-30 | none iff there are no records; otherwise one of them |
| `Extract.PickBestIsFirstBest` | scripts/extract_content.py:25-30 | the picked record has the greatest pair and is the earliest record with it |
| `Extract.PickBestOfPreprocessed` | scripts/extract_content.py:74 | for records as preprocessing writes them, the pick is the first record |
| `Extract.Title` | scripts/extract_content.py:78-82 | a non-empty title guess is used; otherwise the text before the first `.`, cut to 140 and stripped, with no `.` in it |
| `Extract.StripIsSlice` | scripts/extract_content.py:82 | stripping adds no characters |
| `Extract.Body` | scripts/extract_content.py:84 | a prefix of the block text of at most 2000 characters; all of it when it is short enough |
| `Extract.Url` | scripts/extract_content.py:87 | `final_url`, else `requested_url`, else `""` |
| `Extract.DropScheme` | scripts/extract_content.py:90 | removing the scheme and `www.` leaves a suffix of the URL |
| `Extract.Source` | scripts/extract_content.py:88-90 | empty for an empty URL, and never contains `/` |
| `Extract.SourceOfUrl` | scripts/extract_content.py:87-90 | the source of `http(s)://[www.]host/path` is `host` |
| `Extract.Language` | scripts/extract_content.py:97-103 | always `Arabic`, `Russian` or `English`; `Arabic` iff an Arabic hint occurs; `Russian` iff none does and a Russian hint does |
| `Extract.LanguageArabicFirst` | scripts/extract_content.py:98 | every source containing `bbc.com` is Arabic, and an Arabic hint beats a Russian one |
| `Extract.LanguageRussianSuffix` | scripts/extract_content.py:100 | hints are substrings: every source ending in `rt.com` with no Arabic hint is Russian, `www.sport.com` among them |
| `Extract.LanguageDefault` | scripts/extract_content.py:102-103 | a source with no hint is English |
| `Extract.FindFirst` | scripts/extract_content.py:45 | `soup.find` gives the first matching element |
| `Extract.FindDateInHtml` | scripts/extract_content.py:32-50 | an unreadable page gives `""`; otherwise the candidate loop returns the first candidate's date that exists |
| `Extract.DateFromIsFirst` | scripts/extract_content.py:38-47 | the date is that of the first candidate that gives one; `""` when none does |
| `Extract.Date` | scripts/extract_content.py:93-94 | the page's date, else the `Last-Modified` header, else `""` |
| `Extract.RowOf` | scripts/extract_content.py:78-105 | the row is made of these title, body, language, date, source and url |
| `Extract.RowFor` | scripts/extract_content.py:74-76 | a page gives one row iff it has records |
| `Extract.ExtractContent` | scripts/extract_content.py:60-105 | the page loop collects the rows of the pages in order |
| `Extract.RowsCount` | scripts/extract_content.py:74-76 | there is one row per page with records |
| `Extract.RowsFields` | scripts/extract_content.py:88-105 | every row's language is one of the three, and its source contains no `/` |
| `IngestUrls.Normalize` | scripts/ingest_urls.py:39-44 | a normalised source has exactly `name`, `url`, `language` and `group`, each `""` when missing |
| `IngestUrls.LoadSources` | scripts/ingest_urls.py:32-45 | one normalised entry per configured item, in order |
| `IngestUrls.RobotsAllows` | scripts/ingest_urls.py:47-59 | true when ignoring robots; false when the URL cannot be parsed or the robots file cannot be read; otherwise the parser's verdict |
| `IngestUrls.RobotsFailClosed` | scripts/ingest_urls.py:57-59 | an unreadable robots file blocks the URL |
| `IngestUrls.SafeFilename` | scripts/ingest_urls.py:61-65 | a parsable URL gives a name with no `:` or `/` ending in `.html`; an unparsable one raises |
| `IngestUrls.FileName` | scripts/ingest_urls.py:62-65 | the netloc with `:` replaced, `unknown` when empty, and `.html` |
| `IngestUrls.FileNameOfHostPort` | scripts/ingest_urls.py:62 | `host:port` becomes `host_port.html` |
| `IngestUrls.SafeFilenameOf` | scripts/ingest_urls.py:61-65 | `scheme://host:port/path` is saved as `host_port.html` |
| `IngestUrls.ManifestLine` | scripts/ingest_urls.py:71-77 | a manifest line has one cell per header field, `""` for a missing key |
| `IngestUrls.ManifestLineProjects` | scripts/ingest_urls.py:77 | keys outside the header are not written |
| `IngestUrls.Manifest.WriteRow` | scripts/ingest_urls.py:70-77 | the header is written first exactly when no file existed, even an empty one counting as existing; then the row's line is appended, and the file exists afterwards |
| `IngestUrls.ManifestAfterSnoc` | scripts/ingest_urls.py:72-77 | writing one more row appends its line, preceded by the header only when the file did not exist and no row has been written yet |
| `IngestUrls.DecideSource` | scripts/ingest_urls.py:97-143 | one source's outcome is decided as the decision order states |
| `IngestUrls.SourceStep` | scripts/ingest_urls.py:97-143 | one iteration produces that source's manifest row |
| `IngestUrls.IngestUrls` | scripts/ingest_urls.py:96-143 | with page, sidecar and manifest writes assumed to succeed, the manifest receives one row per source, in order, until `safe_filename` raises; the header is added only to a file that did not exist, and the file exists once a row is written |
| `IngestUrls.RunRowsStep` | scripts/ingest_urls.py:96-143 | a run over one more source adds at most its row |
| `IngestUrls.CrashStops` | scripts/ingest_urls.py:114 | once the run has stopped, later sources change nothing |
| `IngestUrls.DecideOrder` | scripts/ingest_urls.py:102-143 | `skip_invalid_url` iff the URL does not start with `http`, whatever robots say; `blocked_by_robots` iff it does and robots refuse; then `error` or `ok` with the status code as a string; only a run ignoring robots can stop at `safe_filename` |
| `IngestUrls.NoCrashWithRobots` | scripts/ingest_urls.py:108-114 | with writes assumed to succeed, a run that respects robots writes one row per source |
| `IngestUrls.RowFields` | scripts/ingest_urls.py:97-100 | a row has exactly the nine manifest fields, its timestamp and status, and a blank name shows the URL |
| `Urls.UrlSplit` | scripts/ingest_urls.py:51-52 | a parsed netloc has no `/`, `?` or `#`, and its brackets are balanced; parsing fails exactly on an unbalanced bracket |
| `Urls.NetlocOfAbsolute` | scripts/ingest_urls.py:62 | `scheme://host/path` parses to its lower-cased scheme, `host` and `path` |
| `Seqs.Sort` | scripts/ingest_rss.py:125 | the sort is a permutation |
| `Seqs.SortSorted` | scripts/ingest_rss.py:125 | the sort is ordered under a total preorder |
| `Seqs.SortStable` | scripts/preprocess_html.py:50 | elements tied with any given one keep their relative order |
| `Seqs.DedupFromProps` | scripts/publish.py:190 | deduplication keeps a subsequence with each key once, the first occurrence of each |
| `Seqs.TakeFreshIsTakeOfDedup` | scripts/ingest_rss.py:126-135 | taking unseen items up to a cap is taking the cap of the deduplicated items |
| `Seqs.TakeFreshProps` | scripts/ingest_rss.py:126-135 | the kept items are at most the cap, in order, with unique keys, none of them already seen |
| `Seqs.FreshRunsProps` | scripts/ingest_rss.py:83-135 | runs with a persistent seen set have unique keys, at most cap times the number of groups in total, and each item is a candidate of some group |
| `Seqs.FreshRunsStep` | scripts/ingest_rss.py:124-135 | each group appends at most cap items after those of the groups before it, leaving them unchanged; the items are its candidates in order, with keys not taken before |
| `Seqs.TallyProps` | src/insightbot/api/app.py:253 | a tally lists each value once with its count, and the counts sum to the length |
| `Text.StripIdempotent` | scripts/ingest_rss.py:116-117 | stripping twice is stripping once |
| `Text.StripLower` | scripts/ingest_rss.py:24 | stripping and lower-casing commute |
| `Text.DecimalRoundTrip` | scripts/ingest_urls.py:136 | reading back the decimal form of a number gives the number |

## Left out

- I/O is not modelled: files, CSV/JSON/YAML reading and writing, directory creation, and logging. A table that fails to read is an input value such as `None` or `Unreadable`. A record line that fails to parse is not represented; the records are those that parsed.
- `IngestUrls.IngestUrls`, `IngestUrls.NoCrashWithRobots`: a failing write of the page, its sidecar or the manifest (ingest_urls.py:121-134) is not modelled. It raises `OSError`, which `except requests.RequestException` does not catch, so the run ends there. The model treats every successful fetch as `ok` and ends a run only where `safe_filename` raises.
- Unmodelled libraries: network access, `requests`, `feedparser`, `robotparser` and BeautifulSoup. Their results are parameters, for example `Net`, `Env`, `fetchHome`, `strings` and a page's element list. The same is true of the removal of `script`, `style` and `noscript` nodes.
- `sha256` in `url_hash` is left out and taken as injective. The model dedups on the trimmed, lower-cased URL itself (`IngestRss.UrlKey`).
- Date parsing, ISO formatting and time zones (`dateutil`, `pd.to_datetime`, `isoformat`, `utcnow`) are parameters, because they are library work with no stated algorithm.
- `IngestRss.ItemOf`: the source calls `datetime.now()` once per entry. The model takes a single `nowIso` per run.
- `time.sleep` with random jitter is left out, because it has no effect on the data.
- Flask routing, templates, `jsonify`/`Response`, `request.args` parsing and `int(page)` are left out as framework plumbing. The parameters arrive as strings already stripped, and `page` as an `int`.
- The landing page's counts and its top 30 sources (`app.py:139-165`) are not in this model. The same grouping is modelled for the metrics endpoints.
- `export_csv`, `api_articles` and `health` only combine the modelled `LoadArticles`, `ApplyDateFilter` and `FilterDf`, so they have no member of their own.
- `_best_last_updated` is left out, because it reads a file mtime and formats local time.
- `run_step` is left out, with its subprocess streaming and the glob/mtime/rename search for the HTML CSV (`publish.py:44-169`). It is process and file handling.
- `load_sources` and `parse_feed` in `ingest_rss.py` are left out, because they are YAML and network reads. A source config is a `map<string, string>`.
- The filters model `str.contains` as a literal substring test, whereas pandas treats `source` and `q` as regular expressions.
- Lower-casing and `isdigit` are ASCII-only here. Python's are Unicode-aware.
- `Query.ValueCountsProps`, `Publish.MergedProps`, `IngestRss.OutputProps`: pandas' `sort_values` and `value_counts` are not stable, so the model fixes one tie order. Only sortedness and permutation, the counts, or the unique keys are stated.
- `Publish.FinalMerge`, `IngestRss.IngestRss`: their `ensures` equate the written rows with the stable insertion sort of the merge, so they pin an order among equal dates that pandas' default sort does not promise. The order-independent facts are those of `Publish.MergedProps` and `IngestRss.OutputProps`.
- `Articles.ReadCell`, `Query.LoadArticles`, `Publish.FinalMerge`: every column is read as text. pandas' `read_csv` infers column types, and that is not modelled. A column that is NA in every file is read as floats, and then `.str.lower()` and `.str.contains` (app.py:97-104) raise. A numeric column is read as numbers, so `drop_duplicates` does not match it with the same digits read as text from another file, and `astype(str)` spells a number with a blank beside it as `2024.0`. A date column mixing numbers and text makes `sort_values` raise `TypeError`, which publish.py:193-194 swallows, writing the merge unsorted.
- `Urls.UrlSplit`: only the netloc extraction of `urlsplit` is modelled. IPv6 validation and NFKC checks of non-ASCII netlocs are left out. The only `ValueError` modelled is an unbalanced bracket.
- Non-string YAML and JSON values are left out. Examples are a numeric `p_count` given as a string, a list as `title_guess`, and a record whose `block` key is missing; the last raises `KeyError` in the source. Every value here is a string, an integer or absent.
- `src/insightbot/api/utils/icons.py`, `src/insightbot/config/settings.py` and `scripts/check_sources.py` are not part of this model.
- The docstring of publish.py (line 12) says "dedup by URL, newest first". The code dedups before it sorts, with an exact `url` match, so the first row read wins over a newer one with the same URL. The model follows the code (`Publish.MergedProps`).
- The comments at extract_content.py:86 and :96 call the language guess a domain hint. The code tests substrings of the host: `bbc.com` is in the Arabic list, and `rt.com` matches `sport.com`. The model follows the code (`Extract.LanguageArabicFirst`, `Extract.LanguageRussianSuffix`).
- The `Last-Modified` lookup matches that exact spelling, because the sidecar headers are a plain dict (`Extract.Date`).
