# Google Scholar ingestion core, modelled in Dafny

This project models the core of `auto_assist/domain/google_scholar.py`. That module is a
resumable pipeline that turns Google Scholar pages into two JSON-lines logs:

- **gs_explore_profiles** is a breadth-first walk over co-author links, bounded by a depth
  limit. Each profile it fetches is appended once to `gs_profiles.jsonl`. On start-up it
  rebuilds its uid → profile map by replaying that log. So a walk interrupted after any append
  and run again with the same seeds ends as the uninterrupted walk would have.
- **gs_search_by_authors** runs one search per author, over at most `page_limit` result pages.
  Each new article is appended to `gs_result.jsonl` with its EndNote citation and its author
  profile links. Articles already in the log are skipped, so an interrupted search run again
  ends as the uninterrupted search would have.
- **parse_endnote** is the line-oriented `%X value` citation parser.
- **gs_get_profile_id** derives the identity key of a profile: the last `user` parameter of
  the URL's query.
- **gs_fix_profile_from_html** is the offline repair pass. It rewrites the profile log into a
  new, suffixed file. List-valued co-author names become plain strings, and articles and tags
  are re-read from each profile's saved HTML page.
- **gs_list_profile_urls** and **gs_list_authors** list the sets of profile URLs and of
  citation authors found in a search log.

The browser is replaced by pure functions given as parameters:

- `Crawler.fetch` gives the profile page shown at an opened URL;
- `Searcher.advance` says whether "next" reaches a page;
- `Searcher.items` gives the results found on a page.

Timeouts appear as explicit constructors (`HrefTimeout`, `ExportTimeout`, `links: None`,
`homepage: None`). The log files are fields of classes: `ProfileLog.records` and
`SearchLog.records`. Python exceptions are the datatype `Records.Error`. Each walk and search
is specified by a recursive function, and the class methods are proved to follow it loop by
loop:

- `Explore.Crawl` specifies the walk, and `ProfileLog.Explore` follows it;
- `Search.AuthorsRun` specifies the search, and `SearchLog.SearchByAuthors` follows it;
- `EndNote.Parse` specifies the parser, and `EndNote.ParseEndNote` follows it;
- `Repair.FixAll` specifies the repair, and `Repair.FixProfileFromHtml` follows it.

The other lemmas state what the source promises about these functions.

Modules, one per file:

| module | what it covers |
|---|---|
| `Wrappers` | `Option` and `Result` |
| `Seqs` | concatenation facts over any element type |
| `Text` | Python `str.strip`, `str.split(sep)` and `str.split(sep, 1)` |
| `Paths` | POSIX `os.path.join` and `os.path.basename` |
| `Records` | the record shapes and `Error` |
| `EndNote` | `parse_endnote` |
| `ProfileId` | `urlparse(url).query` and `gs_get_profile_id` |
| `Explore` and `ExploreProperties` | `gs_explore_profiles` and its properties |
| `Search` | `gs_search_by_authors` |
| `Listing` | the two listings |
| `Repair` | `gs_fix_profile_from_html` |

Points of the code that the model keeps as they are:

- **Index before write.** The walk updates its map (line 141) before it appends to the log
  (line 144). The model does both in one step; no crash between the two is modelled.
- **EndNote errors abort the search.** An EndNote export that does not parse raises
  `ValueError` inside the item's `try`. Only `TimeoutError` is caught there, so the error
  aborts the whole search rather than skipping the item: `Run.failure`. This is the only
  failure of the search the model has (see "## Left out").
- **No retry.** There is no retry of a failed step anywhere. A click on "next" that times out
  ends the pages of that author.
- **Log lines without a uid.** A replayed log line whose URL has no `user` parameter raises
  from `gs_get_profile_id` while the map is rebuilt: `IndexOf` returns an `Err`.

## Model

| member | source | states |
|---|---|---|
| Text.TrimStart | auto_assist/domain/google_scholar.py:333 | the result is a suffix of the input; everything dropped is whitespace; the result does not start with whitespace |
| Text.TrimEnd | auto_assist/domain/google_scholar.py:333 | the result is a prefix of the input; everything dropped is whitespace; the result does not end with whitespace |
| Text.Strip | auto_assist/domain/google_scholar.py:333 | `value.strip()` is no longer than the input and neither starts nor ends with whitespace |
| Text.StripSurrounded | auto_assist/domain/google_scholar.py:333 | stripping whitespace + core + whitespace gives the core back, for a core without outer whitespace |
| Text.StripUnpadded | auto_assist/domain/google_scholar.py:335 | strip leaves a value without outer whitespace unchanged |
| Text.AllSpaceTrimsToEmpty | auto_assist/domain/google_scholar.py:333 | a value made only of whitespace strips to the empty string |
| Text.TrimStartOfSpaces | auto_assist/domain/google_scholar.py:333 | trimming the start removes exactly a whitespace prefix |
| Text.TrimEndOfSpaces | auto_assist/domain/google_scholar.py:333 | trimming the end removes exactly a whitespace suffix |
| Text.SplitOnce | auto_assist/domain/google_scholar.py:329 | `split(' ', 1)` gives two parts exactly when the separator occurs; the first part holds no separator; part + separator + rest is the input |
| Text.SplitOnceAt | auto_assist/domain/google_scholar.py:329 | splitting `a + sep + b` once gives `(a, b)` when `a` holds no separator |
| Text.Split | auto_assist/domain/google_scholar.py:259 | `split(sep)` gives at least one part; no part holds the separator; joining the parts with the separator gives the input back |
| Text.SplitJoin | auto_assist/domain/google_scholar.py:259 | splitting the join of separator-free parts gives the parts back |
| Paths.PathJoin | auto_assist/domain/google_scholar.py:64-65 | `os.path.join(a, b)` is `b` when `b` is absolute, and otherwise starts with `a` and ends with `b` |
| Paths.BaseName | auto_assist/domain/google_scholar.py:278 | `os.path.basename` is the longest suffix without `/`, preceded by `/` when shorter than the path |
| Paths.BaseNameAfterSlash | auto_assist/domain/google_scholar.py:278 | the base name of a directory ending in `/` followed by a slash-free name is that name |
| Paths.BaseNameOfJoin | auto_assist/domain/google_scholar.py:135 | the base name of `join(dir, name)` is `name` for a non-empty slash-free name |
| EndNote.Classify | auto_assist/domain/google_scholar.py:328-329 | a line is untagged iff it does not start with `%`; unsplittable iff it starts with `%` and has no space after it; otherwise it is exactly `%` + tag + space + value, with no space in the tag |
| EndNote.ClassifyTagLine | auto_assist/domain/google_scholar.py:329 | formatting a space-free tag and a value as a line and classifying it gives the tag and value back |
| EndNote.ParseEndNote | auto_assist/domain/google_scholar.py:325-348 | the loop over the lines returns the citation `Parse` gives, or its `ValueError` |
| EndNote.ParseFailsIffUnsplittable | auto_assist/domain/google_scholar.py:328-329 | parsing fails iff some line starts with `%` and has no space after it, and the failure is `ValueError` |
| EndNote.ParseAuthors | auto_assist/domain/google_scholar.py:326 | the authors of a parsed citation are the stripped `%A` values in order, duplicates kept, after those already present |
| EndNote.ParseStep | auto_assist/domain/google_scholar.py:327-335 | reading the first line then the rest is reading all lines; it adds that line's own author, if any |
| EndNote.ApplyTagAuthors | auto_assist/domain/google_scholar.py:334-335 | a tagged line adds one stripped author iff its tag is `A` |
| EndNote.ApplyTagTitle | auto_assist/domain/google_scholar.py:332-333 | a tagged line sets the title, stripped, iff its tag is `T`, and otherwise leaves it alone |
| EndNote.ApplyTagField | auto_assist/domain/google_scholar.py:330-347 | a scalar tag other than `T` sets its own field verbatim and leaves every other scalar field alone |
| EndNote.ParseScalar | auto_assist/domain/google_scholar.py:330-347 | each scalar field of `0 J V N P D I` holds the value of the last line with its tag, unstripped, or stays as it was |
| EndNote.ParseTitle | auto_assist/domain/google_scholar.py:332-333 | the title is the stripped value of the last `%T` line, or stays as it was |
| EndNote.ParseTitleAuthorJournal | auto_assist/domain/google_scholar.py:327-338 | a `%T`, an `%A` and a `%J` line give a citation with the stripped title, the one stripped author, the verbatim journal and nothing else |
| EndNote.ParseExportHead | auto_assist/domain/google_scholar.py:309-322 | a shortened, space-padded variant of the documented title, author and journal lines parses to those three fields |
| EndNote.IgnoredLine | auto_assist/domain/google_scholar.py:327-347 | a line not starting with `%`, or with an unknown tag, can be removed anywhere without changing the result |
| ProfileId.QueryOf | auto_assist/domain/google_scholar.py:258 | `urlparse(url).query` never contains the fragment mark `#` |
| ProfileId.QueryOfMeans | auto_assist/domain/google_scholar.py:258 | the query of `pre?q` and of `pre?q#f` is `q`, when `pre` holds no `?` and no `#` comes before the fragment |
| ProfileId.QueryOfAbsent | auto_assist/domain/google_scholar.py:258 | a URL with no `?` before its first `#` has an empty query |
| ProfileId.Entries | auto_assist/domain/google_scholar.py:259 | each pair's entry is its key and its value split on `=`, position by position |
| ProfileId.LastValueOfMeans | auto_assist/domain/google_scholar.py:259 | the value found for a key is that of some entry with the key and no later one; none is found iff no entry has the key |
| ProfileId.ParamMap | auto_assist/domain/google_scholar.py:259 | `dict(kv.split('='))` succeeds iff every pair splits into exactly two parts, and fails otherwise with `ValueError` |
| ProfileId.ParamMapLookup | auto_assist/domain/google_scholar.py:259 | a key is in the dict iff some pair has it, and it maps to the value of the last such pair |
| ProfileId.ProfileIdMeans | auto_assist/domain/google_scholar.py:256-260 | the uid exists iff every pair is well formed and some pair has key `user`; it is the last `user` value; otherwise `KeyError('user')` when all pairs are well formed, else `ValueError` |
| ProfileId.PairTexts | auto_assist/domain/google_scholar.py:259 | one `k=v` text per entry, in order |
| ProfileId.ProfileIdOfEncoded | auto_assist/domain/google_scholar.py:256-260 | for a query written from plain pairs, the uid is the last `user` value, or `KeyError('user')` when there is none |
| ProfileId.ProfileIdAmongOthers | auto_assist/domain/google_scholar.py:256-260 | `hl=en&user=ABC123&foo=bar` gives `ABC123` |
| ProfileId.ProfileIdAlone | auto_assist/domain/google_scholar.py:256-260 | `user=ABC123` gives `ABC123` |
| ProfileId.ProfileIdMissing | auto_assist/domain/google_scholar.py:256-260 | `hl=en` raises `KeyError('user')` |
| Explore.Enqueued | auto_assist/domain/google_scholar.py:89 | one `(author['url'], level + 1)` entry per co-author, in order |
| Explore.Seeds | auto_assist/domain/google_scholar.py:78 | one `(url, 0)` entry per seed URL, in order |
| Explore.PopDecreases | auto_assist/domain/google_scholar.py:81-90 | popping an entry within the limit and appending entries one level deeper keeps the queue breadth-first and decreases (levels left, entries at the front level): the walk terminates |
| Explore.CrawlStop | auto_assist/domain/google_scholar.py:81-85 | the walk ends with nothing appended when the queue is empty or its front is deeper than the limit, and ends with the uid error when the front URL has no uid |
| Explore.CrawlKnown | auto_assist/domain/google_scholar.py:86-90 | a front uid already in the map appends nothing and enqueues the stored co-authors one level deeper |
| Explore.CrawlFetch | auto_assist/domain/google_scholar.py:92-146 | a new front uid is fetched, its record is mapped and appended first, and the fetched co-authors are enqueued one level deeper |
| Explore.ResumesKnown | auto_assist/domain/google_scholar.py:86-90 | the loop invariant (log so far + rest of the walk = final log) survives a visit to a known uid, and the measure decreases |
| Explore.ResumesFetch | auto_assist/domain/google_scholar.py:92-146 | the loop invariant survives a fetch that appends the new record, and the measure decreases |
| Explore.ProfileLog.Explore | auto_assist/domain/google_scholar.py:56-146 | a failing replay leaves the log alone and returns its error; otherwise the log gains exactly what `Crawl` appends from the seeds at level 0, and the run ends as `Crawl` does |
| Explore.ProfileLog.Walk | auto_assist/domain/google_scholar.py:81-146 | the while loop appends exactly the records `Crawl` appends and ends with its failure |
| Explore.ProfileLog.Visit | auto_assist/domain/google_scholar.py:82-146 | one loop turn either stops with the final log and failure, or keeps the invariant and decreases the measure |
| Explore.ProfileLog.Fetch | auto_assist/domain/google_scholar.py:92-146 | fetching a new profile appends the record built from the page at its URL, maps its uid to that record, enqueues the page's co-authors one level deeper, and keeps the invariant |
| ExploreProperties.CrawlLevels | auto_assist/domain/google_scholar.py:81-84 | visits start at the front level, never exceed the depth limit, and go at most one level deeper at a time |
| ExploreProperties.CrawlFresh | auto_assist/domain/google_scholar.py:85-91 | no uid already in the map is appended again; the appended uids are distinct; the final map keeps every old entry and maps each appended uid to its record |
| ExploreProperties.IndexOfMeans | auto_assist/domain/google_scholar.py:73-76 | rebuilding the map fails iff some record's URL has no uid, with the error of the first such record; otherwise the map holds exactly the uids of the records, each mapped to the last record with that uid |
| ExploreProperties.IndexOfSnoc | auto_assist/domain/google_scholar.py:141-146 | replaying the log plus one record maps that record's uid to it |
| ExploreProperties.CrawlReplays | auto_assist/domain/google_scholar.py:141-146 | the map a walk ends with is the replay of the log plus the appended records |
| ExploreProperties.CrawlIdempotent | auto_assist/domain/google_scholar.py:85-90 | walking the same queue again from the final map appends nothing and ends the same way |
| ExploreProperties.ExploreTwice | auto_assist/domain/google_scholar.py:72-146 | resuming with the same seeds from the log a first run left replays to that run's map and appends nothing |
| ExploreProperties.CrawlRestarts | auto_assist/domain/google_scholar.py:80-146 | a walk restarted from its start map grown by the first `n` records it appended appends exactly the records after those, and ends the same way |
| ExploreProperties.ExploreInterrupted | auto_assist/domain/google_scholar.py:72-146 | a run interrupted after any of its appends and resumed with the same seeds from the partial log appends exactly the missing records and ends the same way, so the log ends up as after the uninterrupted run |
| ExploreProperties.CrawlAppendsFetched | auto_assist/domain/google_scholar.py:141-146 | the appended records are exactly the fetched visits, in visit order |
| Search.SearchInput | auto_assist/domain/google_scholar.py:173-175 | the input is `author:"`, the author, `"`, then a space and the keyword only when the keyword is non-empty |
| Search.SearchInputInjective | auto_assist/domain/google_scholar.py:173-175 | different quote-free authors or keywords give different search inputs |
| Search.UrlsSnoc | auto_assist/domain/google_scholar.py:236 | appending a record adds exactly its URL to `processed_articles` |
| Search.Step | auto_assist/domain/google_scholar.py:191-239 | one result fails iff it is an unlogged article whose EndNote file does not parse (`ValueError`); a grown log gains one record with a new URL that the result yields; an unchanged log means the result timed out, was logged, or has no links |
| Search.PagesRead | auto_assist/domain/google_scholar.py:179-185 | the pages read are 0, 1, … below `page_limit`, each later one reached by "next", stopping at the first that is not |
| Search.PageItemsAreRead | auto_assist/domain/google_scholar.py:179-191 | the results processed for one input are exactly those of the pages read |
| Search.ItemsRunAppend | auto_assist/domain/google_scholar.py:191 | processing `a + b` is processing `a` then, unless it failed, `b` |
| Search.PagesRunFlat | auto_assist/domain/google_scholar.py:179-191 | the page loop is one pass over the results of the pages it reads |
| Search.AuthorsRunFlat | auto_assist/domain/google_scholar.py:170-191 | the whole search is one pass over every result read, in order |
| Search.OutcomesAppend | auto_assist/domain/google_scholar.py:170 | the results read for `a + b` are those for `a` followed by those for `b` |
| Search.SearchResumes | auto_assist/domain/google_scholar.py:162-170 | a search over `a + b` is a search over `a`, then, unless it failed, one over `b` from the log it left |
| Search.ItemsRunGrows | auto_assist/domain/google_scholar.py:194-236 | old records stay in front; each appended record has a URL not logged before; a log without repeated URLs keeps none |
| Search.ItemsRunSound | auto_assist/domain/google_scholar.py:193-229 | every appended record is built from a result read: its URL, parsed citation and author links |
| Search.ItemsRunComplete | auto_assist/domain/google_scholar.py:191-236 | after a run that did not fail, every exported unlogged article parsed and had its links time out |
| Search.SettledRunIdles | auto_assist/domain/google_scholar.py:194-196 | a run over settled results appends nothing and does not fail |
| Search.ItemsRunFailure | auto_assist/domain/google_scholar.py:211 | a run fails only with `ValueError`, from an unlogged article whose EndNote file does not parse |
| Search.SearchRerunIdles | auto_assist/domain/google_scholar.py:162-196 | rerunning a search that did not fail, from the log it left, appends nothing and does not fail |
| Search.ItemsRunRestarts | auto_assist/domain/google_scholar.py:190-236 | the loop over results, restarted from any log it passed through, ends with the same log and the same failure |
| Search.SearchRestarts | auto_assist/domain/google_scholar.py:162-239 | a search interrupted after any of its appends and run again with the same authors from the log as it was left ends exactly as the uninterrupted search |
| Search.SearchAppendsNew | auto_assist/domain/google_scholar.py:163-239 | a search keeps old records, appends only new URLs, each once, each built from a result it read, and fails only with `ValueError` |
| Search.Retrieved | auto_assist/domain/google_scholar.py:192-193 | a result is kept iff it is among the results and did not time out |
| Search.RetrievedAppend | auto_assist/domain/google_scholar.py:192-193 | the filter keeps order: the results kept from `a + b` are those kept from `a` then those kept from `b`, and one result is kept iff it did not time out |
| Search.TimeoutsSkipped | auto_assist/domain/google_scholar.py:238-239 | a result whose link or export timed out leaves no trace: the run is the same without it |
| Search.SearchLog.SearchByAuthors | auto_assist/domain/google_scholar.py:149-239 | the three nested loops leave the log and the failure that `AuthorsRun` gives |
| Listing.ProfileUrls | auto_assist/domain/google_scholar.py:242-245 | a URL is listed iff some record of the log links a profile with it |
| Listing.Authors | auto_assist/domain/google_scholar.py:248-253 | a name is listed iff some record's citation has it as an author |
| Listing.ListingsAppend | auto_assist/domain/google_scholar.py:244 | listing a concatenation lists the union of the listings |
| Listing.ListingsOrderFree | auto_assist/domain/google_scholar.py:252 | the listings depend only on which records the log holds |
| Listing.SearchListsLinkedProfiles | auto_assist/domain/google_scholar.py:215-229 | a URL a search adds to the listing is the link of an author of an article it exported |
| Repair.TargetIsNotSource | auto_assist/domain/google_scholar.py:268-269 | the path string of the repaired log `gs_profiles_<suffix>.jsonl` is never the same as that of the source log, for any suffix |
| Repair.RepairReadsSavedPage | auto_assist/domain/google_scholar.py:278 | a profile saved by the walk is repaired from the very HTML file the walk wrote, when its uid has no `/` |
| Repair.FixName | auto_assist/domain/google_scholar.py:275-276 | a name fails iff it is an empty list (`IndexError`); a fixed name is always a string |
| Repair.FixNamesMeans | auto_assist/domain/google_scholar.py:274-276 | fixing names fails iff some name is an empty list; otherwise each name is fixed, in place, and each URL kept |
| Repair.PageOfByHtmlPath | auto_assist/domain/google_scholar.py:278-280 | the page read for a profile depends only on its `html_path` |
| Repair.FixAllMeans | auto_assist/domain/google_scholar.py:272-288 | the repair fails iff some profile has an empty-list name (`IndexError`); otherwise each profile is repaired in place, in order |
| Repair.FixProfileMeans | auto_assist/domain/google_scholar.py:272-288 | a repaired profile differs only in co-authors, articles and tags: URLs kept, names made strings (a list gives its first element), articles and tags from the saved page |
| Repair.FixAllIdempotent | auto_assist/domain/google_scholar.py:272-288 | repairing a repaired log with the same pages changes nothing |
| Repair.FixProfileIdempotent | auto_assist/domain/google_scholar.py:272-288 | repairing a repaired profile changes nothing |
| Repair.FixNamesKeeps | auto_assist/domain/google_scholar.py:275 | names that are all strings are left as they are |
| Repair.FixAllKeeps | auto_assist/domain/google_scholar.py:272-288 | a log of already repaired profiles is left as it is |
| Repair.FixAllStops | auto_assist/domain/google_scholar.py:272-276 | a failure at one profile, after profiles that repair, is the failure of the whole log |
| Repair.FixCoAuthorNames | auto_assist/domain/google_scholar.py:274-276 | the loop over one profile's co-authors gives what `FixNames` gives |
| Repair.FixProfiles | auto_assist/domain/google_scholar.py:272-288 | the loop over the profiles gives what `FixAll` gives |
| Repair.FixProfileFromHtml | auto_assist/domain/google_scholar.py:262-293 | writes to `gs_profiles_<suffix or clock>.jsonl`, never the source's path string, and the records written are `FixAll` of the loaded ones |

## Left out

- The browser (Playwright), BeautifulSoup and the HTML selectors are left out. Pages,
  results, downloads and "next" clicks are functions given as parameters.
- Logging, `print` of the listings, `colorama.deinit`, `os.makedirs`, the PDF snapshot and
  the HTML file write are left out.
- A uid that is not a valid part of a file name is left out. An example is the `a/b` of
  `citations?user=a/b`. The walk saves the PDF (line 132) and writes the HTML file
  (line 137) under `profile_<uid>`, and such a uid makes those calls raise. The walk then
  ends before the map update (line 141) and the append (line 144), with nothing logged.
  `Explore.Crawl` instead appends the record and goes on.
- JSON encoding and `load_jsonl` are left out. Logs are sequences of records. A malformed
  JSON line makes `load_jsonl` raise; this is not modelled.
- For the walk (line 74) and the search (line 164), a missing log file is the same as an
  empty log, as the model has it. `gs_fix_profile_from_html` (line 271) and both listings
  (lines 243 and 251) call `load_jsonl` without that check, so a missing file raises
  `FileNotFoundError`. This is not modelled: their log is always given.
- `text.splitlines()` is left out. `parse_endnote` takes the list of lines.
- `datetime.now()` is left out. The timestamp suffix is the parameter `clock`.
- `urljoin(google_scholar_url, user_url)` is left out. `OpenUrl` appends only the
  `&view_op=list_works&sortby=pubdate` suffix, and `fetch` is a function of the URL opened.
- An `href` attribute that is `None` (a link without `href`) is left out. URLs are always
  strings.
- Navigation failures in the walk are left out. A failed `goto` or a missing required element
  would abort the walk with a browser exception. The only aborts modelled are the uid errors
  of `gs_get_profile_id`.
- Failures of the search other than the EndNote `ValueError` are left out. A `TimeoutError`
  from `goto`, `fill` or `press` (lines 172-177) is outside the per-result `try`. A download
  failure in `save_as`, or a `UnicodeDecodeError` or `OSError` from reading the download
  (lines 207-209), is not a `TimeoutError`. Each of these aborts the whole search; the model
  has no outcome for them.
- Search.ItemsRunFailure: "fails only with `ValueError`" holds within the model. The aborts
  listed just above are not modelled.
- Search.SearchAppendsNew: its failure clause holds within the model only, for the same
  reason.
- ProfileId.QueryOf: the clean-up that `urlsplit` does is not modelled. It deletes tab, CR and
  LF, strips leading control characters and spaces, and raises `ValueError` on an unbalanced
  `[` or `]` in the network location.
- A missing or unreadable saved HTML file in the repair is left out. `pages` gives a snapshot
  for every path.
- The `GsCmd` command-line wrapper and `main.py` are left out, as are concurrency and crashes
  between the map update and the file append.
- The `download.suggested_filename` save path is left out. The downloaded text is given
  directly as lines.
- Repair.FixAllIdempotent: stated under `ByHtmlPath(pageOf)`, because the source reads each
  page through the profile's `html_path` alone. `PageOfByHtmlPath` proves that the page
  reader of `FixProfileFromHtml` has this property.
- Repair.FixProfileIdempotent: the same `ByHtmlPath(pageOf)` requirement as above.
- Repair.FixName: the elements of a list-valued name are assumed to be strings, because
  records type names as a string or a list of strings. In the program, `co_author['name'][0]`
  (line 276) on a JSON name such as `[["x"]]` gives the list `["x"]`, and a second repair
  turns that into `"x"`. On `[null]` it gives `None`. So "a fixed name is always a string"
  and `Repair.FixAllIdempotent` hold only for names whose list elements are strings.
- ProfileId.ProfileIdOfEncoded: stated only for queries written from pairs without `&` or
  `=`. Other queries are covered by `ProfileIdMeans`.
