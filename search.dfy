/** `gs_search_by_authors`: for each author, search Google Scholar for
    `author:"<name>"` (plus an optional keyword), read up to `page_limit`
    result pages, and append one record per new article to `gs_result.jsonl`,
    with the article's EndNote citation and its linked author profiles. */
module Search {
  import opened Wrappers
  import opened Records
  import EndNote
  import Seqs

  /** What the browser obtains for a result whose link was read: a timeout
      anywhere while exporting the EndNote file, or the file's lines together
      with the author links, which are `None` when reading a link timed out
      after the file was parsed. */
  datatype Export = ExportTimeout | Exported(lines: seq<string>, links: Option<seq<ProfileEntry>>)

  /** One result on a page: reading its link timed out, or an article URL
      with what its export gives. */
  datatype Outcome = HrefTimeout | Article(url: string, result: Export)

  /** The settings of one run, with the browser replaced by two functions of
      the search input: `advance(query, page)` says whether clicking "next"
      reaches page `page` (page 0 needs no click), and `items(query, page)`
      gives the results found on that page, in order. */
  datatype Searcher = Searcher(
    pageLimit: int,
    keyword: string,
    advance: (string, nat) -> bool,
    items: (string, nat) -> seq<Outcome>)

  /** The log `gs_result.jsonl` after a run, and the exception that ended the
      run, if any. */
  datatype Run = Run(log: seq<SearchItem>, failure: Option<Error>)

  /** The text typed into the search box: `author:"<author>"`, followed by a
      space and the keyword when the keyword is not empty. */
  function SearchInput(author: string, keyword: string): (input: string)
    ensures |input| >= |author| + 9
    ensures input[..8] == "author:\"" && input[8..8 + |author|] == author && input[8 + |author|] == '"'
    ensures keyword == "" ==> |input| == |author| + 9
    ensures keyword != "" ==> input[|author| + 9..] == " " + keyword
  {
    "author:\"" + author + "\"" + if keyword != "" then " " + keyword else ""
  }

  /** When the author name holds no double quote, the search input gives
      back both the author and the keyword. */
  lemma SearchInputInjective(a1: string, k1: string, a2: string, k2: string)
    requires '"' !in a1 && '"' !in a2
    requires SearchInput(a1, k1) == SearchInput(a2, k2)
    ensures a1 == a2 && k1 == k2
  {
    var s := SearchInput(a1, k1);
    if |a1| != |a2| {
      assert false;
    }
    assert a1 == s[8..8 + |a1|] == a2;
    if k1 != "" && k2 != "" {
      assert " " + k1 == s[|a1| + 9..] == " " + k2;
      assert k1 == (" " + k1)[1..] == (" " + k2)[1..] == k2;
    }
  }

  /** `processed_articles`: the URLs of the records in the log. */
  function Urls(log: seq<SearchItem>): set<string> {
    set t | t in log :: t.url
  }

  lemma UrlsSnoc(log: seq<SearchItem>, t: SearchItem)
    ensures Urls(log + [t]) == Urls(log) + {t.url}
  {
    assert forall u :: u in log + [t] <==> u in log || u == t;
  }

  /** No two records of the log share a URL. */
  ghost predicate DistinctUrls(log: seq<SearchItem>) {
    forall i, j :: 0 <= i < j < |log| ==> log[i].url != log[j].url
  }

  /** `o` is an exported article whose EndNote file parses to `t`'s citation
      and whose author links are `t`'s profiles. */
  ghost predicate Yields(o: Outcome, t: SearchItem) {
    && o.Article? && o.url == t.url
    && o.result.Exported? && o.result.links == Some(t.profiles)
    && EndNote.Parse(o.result.lines) == Ok(t.citation)
  }

  /** `o` is an article not in the log whose EndNote file does not parse. */
  ghost predicate Unparsable(urls: set<string>, o: Outcome) {
    o.Article? && o.result.Exported? && o.url !in urls && EndNote.Parse(o.result.lines).Err?
  }

  /** The body of the loop over the results of a page, from the log `log`:
      a result whose link timed out, whose URL is already logged, or whose
      export timed out is skipped; an EndNote file that does not parse raises
      its error; an article whose author links timed out is skipped; any
      other article is appended to the log. */
  function Step(log: seq<SearchItem>, o: Outcome): (r: Result<seq<SearchItem>, Error>)
    ensures r.Err? <==> Unparsable(Urls(log), o)
    ensures r.Err? ==> r.error == ValueError
    ensures r.Ok? && r.value != log ==>
      && |r.value| == |log| + 1 && r.value[..|log|] == log
      && r.value[|log|].url !in Urls(log) && Yields(o, r.value[|log|])
    ensures r.Ok? && r.value == log ==>
      !(o.Article? && o.result.Exported? && o.url !in Urls(log) && o.result.links.Some?)
  {
    match o
    case HrefTimeout => Ok(log)
    case Article(url, ExportTimeout) => Ok(log)
    case Article(url, Exported(lines, links)) =>
      if url in Urls(log) then Ok(log)
      else
        match EndNote.Parse(lines)
        case Err(e) =>
          EndNote.ParseFailsIffUnsplittable(EndNote.Blank, lines);
          Err(e)
        case Ok(c) =>
          if links.None? then Ok(log)
          else
            var log' := log + [SearchItem(url, c, links.value)];
            assert log'[..|log|] == log;
            Ok(log')
  }

  /** The loop over a sequence of results: the first error ends the run. */
  function ItemsRun(log: seq<SearchItem>, os: seq<Outcome>): Run
    decreases |os|
  {
    if os == [] then Run(log, None)
    else
      match Step(log, os[0])
      case Err(e) => Run(log, Some(e))
      case Ok(log') => ItemsRun(log', os[1..])
  }

  /** Continuing a run with more results, unless it has already failed. */
  function Then(r: Run, os: seq<Outcome>): Run {
    if r.failure.Some? then r else ItemsRun(r.log, os)
  }

  /** The page loop of one search input, from page `page`: page 0 is always
      read, any later page only if clicking "next" reaches it, and the loop
      stops at `page_limit` pages. */
  function PagesRun(s: Searcher, log: seq<SearchItem>, query: string, page: nat): Run
    decreases s.pageLimit - page
  {
    if page >= s.pageLimit || (page > 0 && !s.advance(query, page)) then Run(log, None)
    else
      var r := ItemsRun(log, s.items(query, page));
      if r.failure.Some? then r else PagesRun(s, r.log, query, page + 1)
  }

  /** The author loop of `gs_search_by_authors`. */
  function AuthorsRun(s: Searcher, log: seq<SearchItem>, authors: seq<string>): Run
    decreases |authors|
  {
    if authors == [] then Run(log, None)
    else
      var r := PagesRun(s, log, SearchInput(authors[0], s.keyword), 0);
      if r.failure.Some? then r else AuthorsRun(s, r.log, authors[1..])
  }

  /** Continuing after a page with the later pages of the same input. */
  function AfterItems(s: Searcher, r: Run, query: string, page: nat): Run {
    if r.failure.Some? then r else PagesRun(s, r.log, query, page)
  }

  /** Continuing after an author with the remaining authors. */
  function AfterPages(s: Searcher, r: Run, authors: seq<string>): Run {
    if r.failure.Some? then r else AuthorsRun(s, r.log, authors)
  }

  /** The results of the pages that are read for one search input, from
      page `page` on, in reading order. */
  function PageItems(s: Searcher, query: string, page: nat): seq<Outcome>
    decreases s.pageLimit - page
  {
    if page >= s.pageLimit || (page > 0 && !s.advance(query, page)) then []
    else s.items(query, page) + PageItems(s, query, page + 1)
  }

  /** All results read for a list of authors, in reading order. */
  function Outcomes(s: Searcher, authors: seq<string>): seq<Outcome>
    decreases |authors|
  {
    if authors == [] then []
    else PageItems(s, SearchInput(authors[0], s.keyword), 0) + Outcomes(s, authors[1..])
  }

  /** The pages read for one search input: page 0, then every page that
      "next" reaches, never `page_limit` or more, and none after the first
      page that "next" does not reach. */
  function PagesRead(s: Searcher, query: string, page: nat): (pages: seq<nat>)
    ensures forall i :: 0 <= i < |pages| ==> pages[i] == page + i < s.pageLimit
    ensures forall i :: 0 <= i < |pages| ==> pages[i] == 0 || s.advance(query, pages[i])
    ensures page + |pages| < s.pageLimit ==> page + |pages| > 0 && !s.advance(query, page + |pages|)
    decreases s.pageLimit - page
  {
    if page >= s.pageLimit || (page > 0 && !s.advance(query, page)) then []
    else [page] + PagesRead(s, query, page + 1)
  }

  /** The results of the pages listed, concatenated. */
  function ItemsOf(s: Searcher, query: string, pages: seq<nat>): seq<Outcome>
    decreases |pages|
  {
    if pages == [] then [] else s.items(query, pages[0]) + ItemsOf(s, query, pages[1..])
  }

  /** Exactly the results of the pages `PagesRead` lists are read. */
  lemma {:induction false} PageItemsAreRead(s: Searcher, query: string, page: nat)
    ensures PageItems(s, query, page) == ItemsOf(s, query, PagesRead(s, query, page))
    decreases s.pageLimit - page
  {
    if !(page >= s.pageLimit || (page > 0 && !s.advance(query, page))) {
      PageItemsAreRead(s, query, page + 1);
      var ps := PagesRead(s, query, page);
      assert ps[1..] == PagesRead(s, query, page + 1);
    }
  }

  /** Reading the results of `a` and then those of `b` is one pass over
      `a + b`. */
  lemma {:induction false} ItemsRunAppend(log: seq<SearchItem>, a: seq<Outcome>, b: seq<Outcome>)
    ensures ItemsRun(log, a + b) == Then(ItemsRun(log, a), b)
    decreases |a|
  {
    if a == [] {
      assert a + b == b;
    } else {
      assert (a + b)[0] == a[0] && (a + b)[1..] == a[1..] + b;
      if Step(log, a[0]).Ok? {
        ItemsRunAppend(Step(log, a[0]).value, a[1..], b);
      }
    }
  }

  /** The page loop is one pass over the results of the pages it reads. */
  lemma {:induction false} PagesRunFlat(s: Searcher, log: seq<SearchItem>, query: string, page: nat)
    ensures PagesRun(s, log, query, page) == ItemsRun(log, PageItems(s, query, page))
    decreases s.pageLimit - page
  {
    if !(page >= s.pageLimit || (page > 0 && !s.advance(query, page))) {
      var r := ItemsRun(log, s.items(query, page));
      ItemsRunAppend(log, s.items(query, page), PageItems(s, query, page + 1));
      if r.failure.None? {
        PagesRunFlat(s, r.log, query, page + 1);
      }
    }
  }

  /** The whole search is one pass over every result it reads, in order. */
  lemma {:induction false} AuthorsRunFlat(s: Searcher, log: seq<SearchItem>, authors: seq<string>)
    ensures AuthorsRun(s, log, authors) == ItemsRun(log, Outcomes(s, authors))
    decreases |authors|
  {
    if authors != [] {
      var query := SearchInput(authors[0], s.keyword);
      var r := PagesRun(s, log, query, 0);
      PagesRunFlat(s, log, query, 0);
      ItemsRunAppend(log, PageItems(s, query, 0), Outcomes(s, authors[1..]));
      if r.failure.None? {
        AuthorsRunFlat(s, r.log, authors[1..]);
      }
    }
  }

  lemma {:induction false} OutcomesAppend(s: Searcher, a: seq<string>, b: seq<string>)
    ensures Outcomes(s, a + b) == Outcomes(s, a) + Outcomes(s, b)
    decreases |a|
  {
    if a == [] {
      assert a + b == b;
    } else {
      assert (a + b)[0] == a[0] && (a + b)[1..] == a[1..] + b;
      OutcomesAppend(s, a[1..], b);
    }
  }

  /** A search over `a + b` is a search over `a` followed, unless it failed,
      by a search over `b` that starts from the log the first one left: an
      interrupted list of authors can be resumed where it stopped. */
  lemma SearchResumes(s: Searcher, log: seq<SearchItem>, a: seq<string>, b: seq<string>)
    ensures AuthorsRun(s, log, a + b) == AfterPages(s, AuthorsRun(s, log, a), b)
  {
    AuthorsRunFlat(s, log, a + b);
    OutcomesAppend(s, a, b);
    ItemsRunAppend(log, Outcomes(s, a), Outcomes(s, b));
    AuthorsRunFlat(s, log, a);
    var r := AuthorsRun(s, log, a);
    if r.failure.None? {
      AuthorsRunFlat(s, r.log, b);
    }
  }

  lemma DistinctSnoc(log: seq<SearchItem>, t: SearchItem)
    requires DistinctUrls(log) && t.url !in Urls(log)
    ensures DistinctUrls(log + [t])
  {
    assert forall i :: 0 <= i < |log| ==> log[i] in log;
  }

  lemma GrowsStep(log: seq<SearchItem>, t: SearchItem, final: seq<SearchItem>)
    requires t.url !in Urls(log)
    requires |log| + 1 <= |final| && final[..|log| + 1] == log + [t]
    requires forall i :: |log| + 1 <= i < |final| ==> final[i].url !in Urls(log + [t])
    requires DistinctUrls(log + [t]) ==> DistinctUrls(final)
    ensures final[..|log|] == log
    ensures forall i :: |log| <= i < |final| ==> final[i].url !in Urls(log)
    ensures DistinctUrls(log) ==> DistinctUrls(final)
  {
    UrlsSnoc(log, t);
    assert final[..|log|] == (log + [t])[..|log|];
    assert final[|log|] == t;
    if DistinctUrls(log) {
      DistinctSnoc(log, t);
    }
  }

  /** The log only grows: the old records stay in front, every appended
      record has a URL that was not logged before, and the appended URLs are
      distinct, so a log without repeated URLs keeps none. */
  lemma {:induction false} ItemsRunGrows(log: seq<SearchItem>, os: seq<Outcome>)
    ensures var r := ItemsRun(log, os);
      && |log| <= |r.log| && r.log[..|log|] == log
      && (forall i :: |log| <= i < |r.log| ==> r.log[i].url !in Urls(log))
      && (DistinctUrls(log) ==> DistinctUrls(r.log))
    decreases |os|
  {
    if os != [] && Step(log, os[0]).Ok? {
      var log' := Step(log, os[0]).value;
      ItemsRunGrows(log', os[1..]);
      if log' != log {
        assert log' == log + [log'[|log|]];
        GrowsStep(log, log'[|log|], ItemsRun(log', os[1..]).log);
      }
    }
  }

  /** Every appended record comes from a result that was read: its URL, its
      parsed EndNote citation and its author links. */
  lemma {:induction false} ItemsRunSound(log: seq<SearchItem>, os: seq<Outcome>)
    ensures var r := ItemsRun(log, os);
      |log| <= |r.log| &&
      forall i :: |log| <= i < |r.log| ==> exists k :: 0 <= k < |os| && Yields(os[k], r.log[i])
    decreases |os|
  {
    ItemsRunGrows(log, os);
    if os != [] && Step(log, os[0]).Ok? {
      var log' := Step(log, os[0]).value;
      var r := ItemsRun(log', os[1..]);
      ItemsRunSound(log', os[1..]);
      ItemsRunGrows(log', os[1..]);
      forall i | |log| <= i < |r.log| ensures exists k :: 0 <= k < |os| && Yields(os[k], r.log[i]) {
        if i < |log'| {
          assert r.log[i] == log'[i] == log'[|log|];
          assert Yields(os[0], r.log[i]);
        } else {
          var k :| 0 <= k < |os[1..]| && Yields(os[1..][k], r.log[i]);
          assert os[1..][k] == os[k + 1];
        }
      }
    }
  }

  /** No exported article is left out of the log except one whose author
      links timed out: its URL is in `urls`, or its EndNote file parses and
      its links are missing. */
  ghost predicate Settled(urls: set<string>, os: seq<Outcome>) {
    forall k :: 0 <= k < |os| && os[k].Article? && os[k].result.Exported? && os[k].url !in urls ==>
      EndNote.Parse(os[k].result.lines).Ok? && os[k].result.links.None?
  }

  /** A run that did not fail leaves every fully retrieved article in the
      log. */
  lemma {:induction false} ItemsRunComplete(log: seq<SearchItem>, os: seq<Outcome>)
    requires ItemsRun(log, os).failure.None?
    ensures Settled(Urls(ItemsRun(log, os).log), os)
    decreases |os|
  {
    if os != [] {
      var log' := Step(log, os[0]).value;
      var r := ItemsRun(log', os[1..]);
      ItemsRunComplete(log', os[1..]);
      ItemsRunGrows(log', os[1..]);
      assert r.log[..|log'|] == log';
      assert Urls(log) <= Urls(r.log) by {
        forall u | u in Urls(log) ensures u in Urls(r.log) {
          var t :| t in log && t.url == u;
          var i :| 0 <= i < |log| && log[i] == t;
          assert log'[..|log|] == log;
          assert r.log[i] == t;
        }
      }
      forall k | 0 <= k < |os| && os[k].Article? && os[k].result.Exported? && os[k].url !in Urls(r.log)
        ensures EndNote.Parse(os[k].result.lines).Ok? && os[k].result.links.None?
      {
        if k > 0 {
          assert os[k] == os[1..][k - 1];
        }
      }
    }
  }

  /** A run over results that are all settled appends nothing and does not
      fail. */
  lemma {:induction false} SettledRunIdles(log: seq<SearchItem>, os: seq<Outcome>)
    requires Settled(Urls(log), os)
    ensures ItemsRun(log, os) == Run(log, None)
    decreases |os|
  {
    if os != [] {
      assert Step(log, os[0]) == Ok(log);
      assert Settled(Urls(log), os[1..]) by {
        forall k | 0 <= k < |os[1..]| && os[1..][k].Article? && os[1..][k].result.Exported?
          && os[1..][k].url !in Urls(log)
          ensures EndNote.Parse(os[1..][k].result.lines).Ok? && os[1..][k].result.links.None?
        {
          assert os[1..][k] == os[k + 1];
        }
      }
      SettledRunIdles(log, os[1..]);
    }
  }

  /** The exception that ends a run is the `ValueError` of an EndNote file,
      of an article not yet logged, that does not parse. */
  lemma {:induction false} ItemsRunFailure(log: seq<SearchItem>, os: seq<Outcome>)
    ensures var r := ItemsRun(log, os);
      r.failure.Some? ==>
        r.failure == Some(ValueError) && exists k :: 0 <= k < |os| && Unparsable(Urls(r.log), os[k])
    decreases |os|
  {
    if os != [] {
      match Step(log, os[0])
      case Err(e) =>
        assert Unparsable(Urls(log), os[0]);
      case Ok(log') =>
        ItemsRunFailure(log', os[1..]);
        var r := ItemsRun(log', os[1..]);
        if r.failure.Some? {
          var k :| 0 <= k < |os[1..]| && Unparsable(Urls(r.log), os[1..][k]);
          assert os[1..][k] == os[k + 1];
        }
    }
  }

  /** Rerunning a search that did not fail, over the same pages, from the
      log it left, appends nothing and does not fail. */
  lemma SearchRerunIdles(s: Searcher, log: seq<SearchItem>, authors: seq<string>)
    requires AuthorsRun(s, log, authors).failure.None?
    ensures var r := AuthorsRun(s, log, authors);
      AuthorsRun(s, r.log, authors) == Run(r.log, None)
  {
    var r := AuthorsRun(s, log, authors);
    AuthorsRunFlat(s, log, authors);
    ItemsRunComplete(log, Outcomes(s, authors));
    AuthorsRunFlat(s, r.log, authors);
    SettledRunIdles(r.log, Outcomes(s, authors));
  }

  /** A search keeps the log's records, appends only articles not logged
      before, each once, each built from a result it read, and fails only
      with `ValueError`. */
  lemma SearchAppendsNew(s: Searcher, log: seq<SearchItem>, authors: seq<string>)
    ensures var r := AuthorsRun(s, log, authors);
      var os := Outcomes(s, authors);
      && |log| <= |r.log| && r.log[..|log|] == log
      && (forall i :: |log| <= i < |r.log| ==> r.log[i].url !in Urls(log))
      && (DistinctUrls(log) ==> DistinctUrls(r.log))
      && (forall i :: |log| <= i < |r.log| ==> exists k :: 0 <= k < |os| && Yields(os[k], r.log[i]))
      && (r.failure == None || r.failure == Some(ValueError))
  {
    AuthorsRunFlat(s, log, authors);
    ItemsRunGrows(log, Outcomes(s, authors));
    ItemsRunSound(log, Outcomes(s, authors));
    ItemsRunFailure(log, Outcomes(s, authors));
  }

  /** A result that a run skips from `log` is also skipped from any longer
      log that starts with `log`: its URL is still logged, or it is skipped
      for a reason that does not depend on the log. */
  lemma SkipKept(log: seq<SearchItem>, longer: seq<SearchItem>, o: Outcome)
    requires |log| <= |longer| && longer[..|log|] == log
    requires Step(log, o) == Ok(log)
    ensures Step(longer, o) == Ok(longer)
  {
    assert Urls(log) <= Urls(longer) by {
      forall u | u in Urls(log) ensures u in Urls(longer) {
        var t :| t in log && t.url == u;
        var i :| 0 <= i < |log| && log[i] == t;
        assert longer[i] == t;
      }
    }
  }

  /** A result whose URL is already logged is skipped. */
  lemma LoggedSkipped(log: seq<SearchItem>, o: Outcome, i: nat)
    requires i < |log| && o.Article? && log[i].url == o.url
    ensures Step(log, o) == Ok(log)
  {
    assert log[i] in log;
  }

  /** A run over results, restarted over the same results from any log it
      passed through on the way, ends exactly as the uninterrupted run:
      the same final log and the same failure. */
  lemma {:induction false} ItemsRunRestarts(log: seq<SearchItem>, os: seq<Outcome>, mid: seq<SearchItem>)
    requires |log| <= |mid| <= |ItemsRun(log, os).log|
    requires ItemsRun(log, os).log[..|mid|] == mid && mid[..|log|] == log
    ensures ItemsRun(mid, os) == ItemsRun(log, os)
    decreases |os|
  {
    if os != [] && Step(log, os[0]).Ok? {
      var log' := Step(log, os[0]).value;
      var r := ItemsRun(log', os[1..]);
      ItemsRunGrows(log', os[1..]);
      if log' == log {
        SkipKept(log, mid, os[0]);
        ItemsRunRestarts(log, os[1..], mid);
      } else if |mid| == |log| {
        assert mid == mid[..|log|];
      } else {
        assert mid[..|log'|] == r.log[..|log'|];
        assert mid[|log|] == log'[|log|];
        LoggedSkipped(mid, os[0], |log|);
        ItemsRunRestarts(log', os[1..], mid);
      }
    } else {
      assert mid == mid[..|log|];
    }
  }

  /** `gs_search_by_authors` interrupted after any of the records it
      appends and run again with the same authors over the same pages, from
      the log as it was left, ends exactly as the uninterrupted search: the
      articles already logged are skipped and the rest are appended as
      before. */
  lemma SearchRestarts(s: Searcher, log: seq<SearchItem>, authors: seq<string>, n: nat)
    requires |log| <= n <= |AuthorsRun(s, log, authors).log|
    ensures var r := AuthorsRun(s, log, authors);
      AuthorsRun(s, r.log[..n], authors) == r
  {
    var r := AuthorsRun(s, log, authors);
    var mid := r.log[..n];
    AuthorsRunFlat(s, log, authors);
    ItemsRunGrows(log, Outcomes(s, authors));
    assert mid[..|log|] == r.log[..|log|];
    ItemsRunRestarts(log, Outcomes(s, authors), mid);
    AuthorsRunFlat(s, mid, authors);
  }

  /** Results whose link or export timed out. */
  predicate TimedOut(o: Outcome) {
    o.HrefTimeout? || o.result.ExportTimeout?
  }

  /** The results without those that timed out. */
  function Retrieved(os: seq<Outcome>): (rs: seq<Outcome>)
    ensures |rs| <= |os|
    ensures forall o :: o in rs <==> o in os && !TimedOut(o)
  {
    if os == [] then []
    else if TimedOut(os[0]) then Retrieved(os[1..])
    else [os[0]] + Retrieved(os[1..])
  }

  /** Filtering keeps order: the results kept from `a + b` are those kept
      from `a` followed by those kept from `b`, and a single result is kept
      exactly when it did not time out. */
  lemma RetrievedAppend(a: seq<Outcome>, b: seq<Outcome>)
    ensures Retrieved(a + b) == Retrieved(a) + Retrieved(b)
    ensures forall o :: Retrieved([o]) == if TimedOut(o) then [] else [o]
  {
    RetrievedConcat(a, b);
    forall o ensures Retrieved([o]) == if TimedOut(o) then [] else [o] {
      assert [o][1..] == [];
    }
  }

  lemma {:induction false} RetrievedConcat(a: seq<Outcome>, b: seq<Outcome>)
    ensures Retrieved(a + b) == Retrieved(a) + Retrieved(b)
    decreases |a|
  {
    if a == [] {
      assert a + b == b;
    } else {
      assert (a + b)[1..] == a[1..] + b;
      assert (a + b)[0] == a[0];
      RetrievedConcat(a[1..], b);
      if !TimedOut(a[0]) {
        Seqs.AppendAssoc([a[0]], Retrieved(a[1..]), Retrieved(b));
      }
    }
  }

  /** A result that timed out leaves no trace: the run is the same without
      it. */
  lemma {:induction false} TimeoutsSkipped(log: seq<SearchItem>, os: seq<Outcome>)
    ensures ItemsRun(log, os) == ItemsRun(log, Retrieved(os))
    decreases |os|
  {
    if os != [] {
      if TimedOut(os[0]) {
        assert Step(log, os[0]) == Ok(log);
        TimeoutsSkipped(log, os[1..]);
      } else {
        var rs := Retrieved(os);
        assert rs[0] == os[0] && rs[1..] == Retrieved(os[1..]);
        if Step(log, os[0]).Ok? {
          TimeoutsSkipped(Step(log, os[0]).value, os[1..]);
        }
      }
    }
  }

  /** The search result log `gs_result.jsonl`. */
  class SearchLog {
    /** The lines of `gs_result.jsonl`, oldest first. */
    var records: seq<SearchItem>

    constructor (prior: seq<SearchItem>)
      ensures records == prior
    {
      records := prior;
    }

    /** `gs_search_by_authors(authors)`: the three nested loops over
        authors, pages and results, appending each new article to the log
        as soon as it is complete. */
    method SearchByAuthors(s: Searcher, authors: seq<string>) returns (failure: Option<Error>)
      modifies this
      ensures var r := AuthorsRun(s, old(records), authors);
        records == r.log && failure == r.failure
    {
      var processed := Urls(records);
      ghost var total := AuthorsRun(s, records, authors);
      for k := 0 to |authors|
        invariant processed == Urls(records)
        invariant AuthorsRun(s, records, authors[k..]) == total
      {
        assert authors[k..][1..] == authors[k + 1..];
        var query := SearchInput(authors[k], s.keyword);
        var page := 0;
        while page < s.pageLimit
          invariant processed == Urls(records)
          invariant AfterPages(s, PagesRun(s, records, query, page), authors[k + 1..]) == total
          decreases s.pageLimit - page
        {
          if page > 0 && !s.advance(query, page) {
            break;
          }
          var results := s.items(query, page);
          for j := 0 to |results|
            invariant processed == Urls(records)
            invariant AfterPages(s, AfterItems(s, ItemsRun(records, results[j..]), query, page + 1),
                                 authors[k + 1..]) == total
          {
            assert results[j..][1..] == results[j + 1..];
            match results[j]
            case HrefTimeout =>
            case Article(url, ExportTimeout) =>
            case Article(url, Exported(lines, links)) =>
              if url !in processed {
                var citation := EndNote.ParseEndNote(lines);
                if citation.Err? {
                  return Some(citation.error);
                }
                if links.Some? {
                  var item := SearchItem(url, citation.value, links.value);
                  UrlsSnoc(records, item);
                  records := records + [item];
                  processed := processed + {url};
                }
              }
          }
          page := page + 1;
        }
      }
      return None;
    }
  }
}
