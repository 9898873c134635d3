/** `gs_explore_profiles`: a resumable breadth-first walk over co-author
    links, bounded by a depth limit, that appends one record per newly
    fetched profile to `gs_profiles.jsonl`. */
module Explore {
  import opened Wrappers
  import opened Paths
  import opened Records
  import opened ProfileId
  import opened Seqs

  /** What the browser reads from a profile page; `homepage` is `None` when
      the one-second wait for the Homepage link times out. */
  datatype ProfilePage = ProfilePage(
    name: string,
    brief: string,
    citedStats: string,
    homepage: Option<string>,
    coAuthors: seq<ProfileEntry>,
    articles: seq<string>,
    tags: seq<string>)

  /** The settings of one run, with the browser replaced by `fetch`, which
      gives the page shown at an opened URL. */
  datatype Crawler = Crawler(
    outDir: string,
    depthLimit: int,
    orderByYear: bool,
    fetch: string -> ProfilePage)

  /** A queue element `(url, level)`. */
  datatype Entry = Entry(url: string, level: nat)

  /** The URL that is opened for a profile: sorted by publication date when
      `order_by_year` is set. */
  function OpenUrl(url: string, orderByYear: bool): string {
    if orderByYear then url + "&view_op=list_works&sortby=pubdate" else url
  }

  /** The record assembled for a newly fetched profile. */
  function NewProfile(cr: Crawler, url: string, uid: string, page: ProfilePage): ProfileItem {
    ProfileItem(
      name := page.name,
      url := url,
      homepage := page.homepage.GetOr(""),
      brief := page.brief,
      citedStats := page.citedStats,
      coAuthors := page.coAuthors,
      articles := page.articles,
      tags := page.tags,
      pdfPath := PathJoin(PathJoin(cr.outDir, "gs_pdfs"), "profile_" + uid + ".pdf"),
      htmlPath := PathJoin(PathJoin(cr.outDir, "gs_htmls"), "profile_" + uid + ".html"))
  }

  /** The entries `(author['url'], level)` that a visit enqueues. */
  function Enqueued(coAuthors: seq<ProfileEntry>, level: nat): (q: seq<Entry>)
    ensures |q| == |coAuthors|
    ensures forall i :: 0 <= i < |q| ==> q[i] == Entry(coAuthors[i].url, level)
  {
    if coAuthors == [] then [] else [Entry(coAuthors[0].url, level)] + Enqueued(coAuthors[1..], level)
  }

  /** The initial queue: every seed URL at level 0. */
  function Seeds(urls: seq<string>): (q: seq<Entry>)
    ensures |q| == |urls|
    ensures forall i :: 0 <= i < |q| ==> q[i] == Entry(urls[i], 0)
  {
    if urls == [] then [] else [Entry(urls[0], 0)] + Seeds(urls[1..])
  }

  /** The record made for the front entry of `q` when its uid `uid` is
      fetched. */
  function FetchedAt(cr: Crawler, q: seq<Entry>, uid: string): ProfileItem
    requires q != []
  {
    NewProfile(cr, q[0].url, uid, cr.fetch(OpenUrl(q[0].url, cr.orderByYear)))
  }

  /** The queue after visiting the front entry of `q`: the rest, then the
      co-authors one level deeper. */
  function NextQueue(q: seq<Entry>, coAuthors: seq<ProfileEntry>): seq<Entry>
    requires q != []
  {
    q[1..] + Enqueued(coAuthors, q[0].level + 1)
  }

  /** The shape of a breadth-first queue: levels never decrease from front
      to back, and the back is at most one level deeper than the front. */
  predicate LevelsOk(q: seq<Entry>) {
    forall i, j :: 0 <= i <= j < |q| ==> q[i].level <= q[j].level <= q[i].level + 1
  }

  function CountLevel(q: seq<Entry>, l: nat): nat {
    if q == [] then 0 else (if q[0].level == l then 1 else 0) + CountLevel(q[1..], l)
  }

  /** How many levels are left above the limit, seen from the front entry. */
  function Rank(q: seq<Entry>, depthLimit: int): nat {
    if q == [] || q[0].level > depthLimit then 0 else depthLimit + 1 - q[0].level
  }

  /** How many entries share the front entry's level. */
  function FrontCount(q: seq<Entry>): nat {
    if q == [] then 0 else CountLevel(q, q[0].level)
  }

  lemma {:induction false} CountLevelAppend(a: seq<Entry>, b: seq<Entry>, l: nat)
    ensures CountLevel(a + b, l) == CountLevel(a, l) + CountLevel(b, l)
  {
    if a != [] {
      assert (a + b)[1..] == a[1..] + b;
      CountLevelAppend(a[1..], b, l);
    } else {
      assert a + b == b;
    }
  }

  lemma {:induction false} CountLevelAbsent(q: seq<Entry>, l: nat)
    requires forall i :: 0 <= i < |q| ==> q[i].level != l
    ensures CountLevel(q, l) == 0
  {
    if q != [] {
      CountLevelAbsent(q[1..], l);
    }
  }

  /** Popping the front entry, at a level within the limit, and appending
      entries one level deeper keeps the queue breadth-first and decreases
      (Rank, FrontCount) lexicographically: the walk terminates. */
  lemma PopDecreases(q: seq<Entry>, added: seq<Entry>, depthLimit: int)
    requires LevelsOk(q) && q != [] && q[0].level <= depthLimit
    requires forall i :: 0 <= i < |added| ==> added[i].level == q[0].level + 1
    ensures LevelsOk(q[1..] + added)
    ensures forall i :: 0 <= i < |q[1..] + added| ==> q[0].level <= (q[1..] + added)[i].level <= q[0].level + 1
    ensures var q' := q[1..] + added;
      Rank(q', depthLimit) < Rank(q, depthLimit)
      || (Rank(q', depthLimit) == Rank(q, depthLimit) && FrontCount(q') < FrontCount(q))
  {
    var l := q[0].level;
    var q' := q[1..] + added;
    assert forall i :: 0 <= i < |q'| ==> l <= q'[i].level <= l + 1 by {
      forall i | 0 <= i < |q'| ensures l <= q'[i].level <= l + 1 {
        if i < |q| - 1 {
          assert q'[i] == q[i + 1];
        } else {
          assert q'[i] == added[i - |q| + 1];
        }
      }
    }
    assert LevelsOk(q') by {
      forall i, j | 0 <= i <= j < |q'| ensures q'[i].level <= q'[j].level <= q'[i].level + 1 {
        if j < |q| - 1 {
          assert q'[i] == q[i + 1] && q'[j] == q[j + 1];
        } else if i >= |q| - 1 {
          assert q'[i] == added[i - |q| + 1] && q'[j] == added[j - |q| + 1];
        } else {
          assert q'[j] == added[j - |q| + 1];
        }
      }
    }
    if q' != [] && q'[0].level == l {
      assert q'[0] == q[1];
      CountLevelAppend(q[1..], added, l);
      CountLevelAbsent(added, l);
      assert q == [q[0]] + q[1..];
    }
  }

  /** One step of the walk: the URL and level of a popped entry, and whether
      its profile was fetched (its uid was not yet in the map). */
  datatype Visit = Visit(url: string, level: nat, fetched: bool)

  /** What a walk leaves: the records appended to the log, the final map,
      the visits made, and the exception that ended it, if any. */
  datatype CrawlResult = CrawlResult(
    appended: seq<ProfileItem>,
    index: map<string, ProfileItem>,
    trace: seq<Visit>,
    failure: Option<Error>)

  /** The walk from queue `q` with map `index`: it ends when the queue is
      empty or at the first entry deeper than the limit, and otherwise
      visits the front entry. */
  function Crawl(cr: Crawler, q: seq<Entry>, index: map<string, ProfileItem>): CrawlResult
    requires LevelsOk(q)
    decreases Rank(q, cr.depthLimit), FrontCount(q), 1
  {
    if q == [] || q[0].level > cr.depthLimit then CrawlResult([], index, [], None)
    else CrawlFront(cr, q, index)
  }

  /** The visit of the front entry, within the limit: the error of a URL
      whose uid cannot be derived ends the walk; a uid already in the map
      enqueues its stored co-authors; any other is fetched, enqueues the
      fetched co-authors, and is added to the map and the log. */
  function CrawlFront(cr: Crawler, q: seq<Entry>, index: map<string, ProfileItem>): CrawlResult
    requires LevelsOk(q) && q != [] && q[0].level <= cr.depthLimit
    decreases Rank(q, cr.depthLimit), FrontCount(q), 0
  {
    var e := q[0];
    match ProfileIdOf(e.url)
    case Err(err) => CrawlResult([], index, [], Some(err))
    case Ok(uid) =>
      if uid in index then
        PopDecreases(q, Enqueued(index[uid].coAuthors, e.level + 1), cr.depthLimit);
        var r := Crawl(cr, NextQueue(q, index[uid].coAuthors), index);
        r.(trace := [Visit(e.url, e.level, false)] + r.trace)
      else
        var p := FetchedAt(cr, q, uid);
        PopDecreases(q, Enqueued(p.coAuthors, e.level + 1), cr.depthLimit);
        var r := Crawl(cr, NextQueue(q, p.coAuthors), index[uid := p]);
        r.(appended := [p] + r.appended, trace := [Visit(e.url, e.level, true)] + r.trace)
  }

  /** Unfolding `Crawl` where the walk stops: an empty queue, a front entry
      deeper than the limit, or a front URL without a uid. */
  lemma CrawlStop(cr: Crawler, q: seq<Entry>, index: map<string, ProfileItem>)
    requires LevelsOk(q)
    requires q == [] || q[0].level > cr.depthLimit || ProfileIdOf(q[0].url).Err?
    ensures Crawl(cr, q, index).appended == [] && Crawl(cr, q, index).trace == []
    ensures Crawl(cr, q, index).index == index
    ensures Crawl(cr, q, index).failure ==
      if q == [] || q[0].level > cr.depthLimit then None else Some(ProfileIdOf(q[0].url).error)
  {
    if q != [] && q[0].level <= cr.depthLimit {
      assert Crawl(cr, q, index) == CrawlFront(cr, q, index);
    }
  }

  /** Unfolding `Crawl` at a front entry whose uid is already mapped. */
  lemma CrawlKnown(cr: Crawler, q: seq<Entry>, index: map<string, ProfileItem>, uid: string)
    requires LevelsOk(q) && q != [] && q[0].level <= cr.depthLimit
    requires ProfileIdOf(q[0].url) == Ok(uid) && uid in index
    ensures var next := NextQueue(q, index[uid].coAuthors);
      && LevelsOk(next)
      && (Rank(next, cr.depthLimit) < Rank(q, cr.depthLimit)
          || (Rank(next, cr.depthLimit) == Rank(q, cr.depthLimit) && FrontCount(next) < FrontCount(q)))
      && var r := Crawl(cr, next, index);
      Crawl(cr, q, index) == r.(trace := [Visit(q[0].url, q[0].level, false)] + r.trace)
  {
    PopDecreases(q, Enqueued(index[uid].coAuthors, q[0].level + 1), cr.depthLimit);
    var r := Crawl(cr, NextQueue(q, index[uid].coAuthors), index);
    assert Crawl(cr, q, index) == CrawlFront(cr, q, index);
    assert CrawlFront(cr, q, index) == r.(trace := [Visit(q[0].url, q[0].level, false)] + r.trace);
  }

  /** Unfolding `Crawl` at a front entry whose uid is not yet mapped. */
  lemma CrawlFetch(cr: Crawler, q: seq<Entry>, index: map<string, ProfileItem>, uid: string)
    requires LevelsOk(q) && q != [] && q[0].level <= cr.depthLimit
    requires ProfileIdOf(q[0].url) == Ok(uid) && uid !in index
    ensures var p := FetchedAt(cr, q, uid);
      var next := NextQueue(q, p.coAuthors);
      && LevelsOk(next)
      && (Rank(next, cr.depthLimit) < Rank(q, cr.depthLimit)
          || (Rank(next, cr.depthLimit) == Rank(q, cr.depthLimit) && FrontCount(next) < FrontCount(q)))
      && var r := Crawl(cr, next, index[uid := p]);
      Crawl(cr, q, index) == r.(appended := [p] + r.appended, trace := [Visit(q[0].url, q[0].level, true)] + r.trace)
  {
    var p := FetchedAt(cr, q, uid);
    PopDecreases(q, Enqueued(p.coAuthors, q[0].level + 1), cr.depthLimit);
    var r := Crawl(cr, NextQueue(q, p.coAuthors), index[uid := p]);
    assert Crawl(cr, q, index) == CrawlFront(cr, q, index);
    assert CrawlFront(cr, q, index) == r.(appended := [p] + r.appended, trace := [Visit(q[0].url, q[0].level, true)] + r.trace);
  }

  /** The loop of `ProfileLog.Explore` keeps this: the log so far followed
      by what the walk from `q` appends is the final log, and the walk from
      `q` ends as the whole walk does. */
  ghost predicate Resumes(cr: Crawler, q: seq<Entry>, index: map<string, ProfileItem>,
                          log: seq<ProfileItem>, final: seq<ProfileItem>, failure: Option<Error>) {
    LevelsOk(q) && log + Crawl(cr, q, index).appended == final && Crawl(cr, q, index).failure == failure
  }

  lemma ResumesKnown(cr: Crawler, q: seq<Entry>, index: map<string, ProfileItem>, uid: string,
                     log: seq<ProfileItem>, final: seq<ProfileItem>, failure: Option<Error>)
    requires Resumes(cr, q, index, log, final, failure)
    requires q != [] && q[0].level <= cr.depthLimit
    requires ProfileIdOf(q[0].url) == Ok(uid) && uid in index
    ensures var next := NextQueue(q, index[uid].coAuthors);
      && Resumes(cr, next, index, log, final, failure)
      && (Rank(next, cr.depthLimit) < Rank(q, cr.depthLimit)
          || (Rank(next, cr.depthLimit) == Rank(q, cr.depthLimit) && FrontCount(next) < FrontCount(q)))
  {
    CrawlKnown(cr, q, index, uid);
  }

  lemma ResumesFetch(cr: Crawler, q: seq<Entry>, index: map<string, ProfileItem>, uid: string,
                     log: seq<ProfileItem>, final: seq<ProfileItem>, failure: Option<Error>)
    requires Resumes(cr, q, index, log, final, failure)
    requires q != [] && q[0].level <= cr.depthLimit
    requires ProfileIdOf(q[0].url) == Ok(uid) && uid !in index
    ensures var p := FetchedAt(cr, q, uid);
      var next := NextQueue(q, p.coAuthors);
      && Resumes(cr, next, index[uid := p], log + [p], final, failure)
      && (Rank(next, cr.depthLimit) < Rank(q, cr.depthLimit)
          || (Rank(next, cr.depthLimit) == Rank(q, cr.depthLimit) && FrontCount(next) < FrontCount(q)))
  {
    CrawlFetch(cr, q, index, uid);
    AppendAssoc(log, [FetchedAt(cr, q, uid)], Crawl(cr, NextQueue(q, FetchedAt(cr, q, uid).coAuthors), index[uid := FetchedAt(cr, q, uid)]).appended);
  }

  /** The uid under which a logged record is mapped. */
  function UidOf(p: ProfileItem): Result<string, Error> {
    ProfileIdOf(p.url)
  }

  /** Replays a log into a map keyed by `uidOf`: a later record with the
      same key replaces an earlier one, and the first record without a key
      raises. */
  function Replay<P>(log: seq<P>, uidOf: P -> Result<string, Error>): Result<map<string, P>, Error> {
    if log == [] then Ok(map[])
    else
      match Replay(log[..|log| - 1], uidOf)
      case Err(e) => Err(e)
      case Ok(m) =>
        match uidOf(log[|log| - 1])
        case Err(e) => Err(e)
        case Ok(uid) => Ok(m[uid := log[|log| - 1]])
  }

  /** The map `{ gs_get_profile_id(profile['url']): profile for profile in
      profile_list }` rebuilt from the profile log. */
  function IndexOf(log: seq<ProfileItem>): Result<map<string, ProfileItem>, Error> {
    Replay(log, UidOf)
  }

  /** The profile log `gs_profiles.jsonl` of an output directory. */
  class ProfileLog {
    /** The lines of `gs_profiles.jsonl`, oldest first. */
    var records: seq<ProfileItem>

    constructor (prior: seq<ProfileItem>)
      ensures records == prior
    {
      records := prior;
    }

    /** `gs_explore_profiles(seeds)`: rebuilds the map from the log, then
        walks as `Crawl` does from the seeds at level 0, appending each newly
        fetched profile to the log. */
    method Explore(seeds: seq<string>, cr: Crawler) returns (failure: Option<Error>)
      modifies this
      ensures match IndexOf(old(records))
        case Err(e) => records == old(records) && failure == Some(e)
        case Ok(index) =>
          var r := Crawl(cr, Seeds(seeds), index);
          records == old(records) + r.appended && failure == r.failure
    {
      var loaded := IndexOf(records);
      if loaded.Err? {
        return Some(loaded.error);
      }
      failure := Walk(cr, Seeds(seeds), loaded.value);
    }

    method Walk(cr: Crawler, queue0: seq<Entry>, index: map<string, ProfileItem>) returns (failure: Option<Error>)
      requires LevelsOk(queue0)
      modifies this
      ensures var r := Crawl(cr, queue0, index);
        records == old(records) + r.appended && failure == r.failure
    {
      var profileMap := index;
      var queue := queue0;
      ghost var final := records + Crawl(cr, queue0, index).appended;
      ghost var fail := Crawl(cr, queue0, index).failure;
      while queue != []
        invariant Resumes(cr, queue, profileMap, records, final, fail)
        decreases Rank(queue, cr.depthLimit), FrontCount(queue)
      {
        var stop;
        queue, profileMap, stop, failure := Visit(cr, queue, profileMap, final, fail);
        if stop {
          return;
        }
      }
      CrawlStop(cr, queue, profileMap);
      AppendEmpty(records);
      return None;
    }

    /** One turn of the loop of `gs_explore_profiles`: pops the front entry
        and stops, or visits it and gives the queue and map to go on with. */
    method Visit(cr: Crawler, queue: seq<Entry>, profileMap: map<string, ProfileItem>,
                 ghost final: seq<ProfileItem>, ghost fail: Option<Error>)
      returns (queue': seq<Entry>, profileMap': map<string, ProfileItem>, stop: bool, failure: Option<Error>)
      requires queue != [] && Resumes(cr, queue, profileMap, records, final, fail)
      modifies this
      ensures stop ==> records == final && failure == fail
      ensures !stop ==> Resumes(cr, queue', profileMap', records, final, fail)
      ensures !stop ==> (Rank(queue', cr.depthLimit) < Rank(queue, cr.depthLimit)
        || (Rank(queue', cr.depthLimit) == Rank(queue, cr.depthLimit) && FrontCount(queue') < FrontCount(queue)))
    {
      queue' := queue[1..];
      profileMap' := profileMap;
      if queue[0].level > cr.depthLimit {
        CrawlStop(cr, queue, profileMap);
        AppendEmpty(records);
        return queue', profileMap', true, None;
      }
      var uid := ProfileIdOf(queue[0].url);
      if uid.Err? {
        CrawlStop(cr, queue, profileMap);
        AppendEmpty(records);
        return queue', profileMap', true, Some(uid.error);
      }
      stop, failure := false, None;
      if uid.value in profileMap {
        ResumesKnown(cr, queue, profileMap, uid.value, records, final, fail);
        queue' := NextQueue(queue, profileMap[uid.value].coAuthors);
      } else {
        queue', profileMap' := Fetch(cr, queue, profileMap, uid.value, final, fail);
      }
    }

    /** The visit of a front entry whose uid is not yet in the map: opens
        its profile page, then enqueues the co-authors shown there one level
        deeper, maps the uid to the new record and appends the record to
        the log. */
    method Fetch(cr: Crawler, queue: seq<Entry>, profileMap: map<string, ProfileItem>, uid: string,
                 ghost final: seq<ProfileItem>, ghost fail: Option<Error>)
      returns (queue': seq<Entry>, profileMap': map<string, ProfileItem>)
      requires Resumes(cr, queue, profileMap, records, final, fail)
      requires queue != [] && queue[0].level <= cr.depthLimit
      requires ProfileIdOf(queue[0].url) == Ok(uid) && uid !in profileMap
      modifies this
      ensures records == old(records) + [FetchedAt(cr, queue, uid)]
      ensures profileMap' == profileMap[uid := FetchedAt(cr, queue, uid)]
      ensures queue' == NextQueue(queue, FetchedAt(cr, queue, uid).coAuthors)
      ensures Resumes(cr, queue', profileMap', records, final, fail)
      ensures Rank(queue', cr.depthLimit) < Rank(queue, cr.depthLimit)
        || (Rank(queue', cr.depthLimit) == Rank(queue, cr.depthLimit) && FrontCount(queue') < FrontCount(queue))
    {
      var page := cr.fetch(OpenUrl(queue[0].url, cr.orderByYear));
      var profile := NewProfile(cr, queue[0].url, uid, page);
      ResumesFetch(cr, queue, profileMap, uid, records, final, fail);
      queue' := NextQueue(queue, profile.coAuthors);
      profileMap' := profileMap[uid := profile];
      records := records + [profile];
    }
  }
}
