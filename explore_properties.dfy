/** What the breadth-first walk of `gs_explore_profiles` guarantees: levels
    stay within the limit and never decrease, every uid is fetched at most
    once, the map is the replay of the log, and a second run with the same
    seeds appends nothing. */
module ExploreProperties {
  import opened Wrappers
  import opened Records
  import opened ProfileId
  import opened Explore
  import opened Seqs

  /** The levels of a trace: within `[low, depthLimit]`, and each one equal
      to the previous one or one deeper. */
  ghost predicate LevelsWithin(t: seq<Visit>, low: nat, depthLimit: int) {
    && (forall i :: 0 <= i < |t| ==> low <= t[i].level <= depthLimit)
    && (forall i :: 0 < i < |t| ==> t[i - 1].level <= t[i].level <= t[i - 1].level + 1)
  }

  lemma LevelsStep(v: Visit, rest: seq<Visit>, depthLimit: int)
    requires v.level <= depthLimit
    requires rest != [] ==> v.level <= rest[0].level <= v.level + 1 && LevelsWithin(rest, rest[0].level, depthLimit)
    ensures LevelsWithin([v] + rest, v.level, depthLimit)
  {
    var t := [v] + rest;
    assert forall i :: 0 < i < |t| ==> t[i] == rest[i - 1];
  }

  /** The front entry after a visit is at the visited level or one deeper. */
  lemma FrontLevel(q: seq<Entry>, coAuthors: seq<ProfileEntry>)
    requires LevelsOk(q) && q != []
    ensures var next := NextQueue(q, coAuthors);
      next != [] ==> q[0].level <= next[0].level <= q[0].level + 1
  {
    if |q| > 1 {
      assert NextQueue(q, coAuthors)[0] == q[1];
    }
  }

  /** The visits start at the front entry's level, never go beyond the depth
      limit, and go one level deeper at a time. */
  lemma {:induction false} CrawlLevels(cr: Crawler, q: seq<Entry>, index: map<string, ProfileItem>)
    requires LevelsOk(q)
    ensures var t := Crawl(cr, q, index).trace;
      t != [] ==> q != [] && t[0].level == q[0].level && LevelsWithin(t, q[0].level, cr.depthLimit)
    decreases Rank(q, cr.depthLimit), FrontCount(q), 1
  {
    if q == [] || q[0].level > cr.depthLimit || ProfileIdOf(q[0].url).Err? {
      CrawlStop(cr, q, index);
    } else if ProfileIdOf(q[0].url).value in index {
      LevelsKnown(cr, q, index, ProfileIdOf(q[0].url).value);
    } else {
      LevelsFetch(cr, q, index, ProfileIdOf(q[0].url).value);
    }
  }

  lemma {:induction false} LevelsKnown(cr: Crawler, q: seq<Entry>, index: map<string, ProfileItem>, uid: string)
    requires LevelsOk(q) && q != [] && q[0].level <= cr.depthLimit
    requires ProfileIdOf(q[0].url) == Ok(uid) && uid in index
    ensures var t := Crawl(cr, q, index).trace;
      t != [] && t[0].level == q[0].level && LevelsWithin(t, q[0].level, cr.depthLimit)
    decreases Rank(q, cr.depthLimit), FrontCount(q), 0
  {
    CrawlKnown(cr, q, index, uid);
    FrontLevel(q, index[uid].coAuthors);
    CrawlLevels(cr, NextQueue(q, index[uid].coAuthors), index);
    LevelsStep(Visit(q[0].url, q[0].level, false),
               Crawl(cr, NextQueue(q, index[uid].coAuthors), index).trace, cr.depthLimit);
  }

  lemma {:induction false} LevelsFetch(cr: Crawler, q: seq<Entry>, index: map<string, ProfileItem>, uid: string)
    requires LevelsOk(q) && q != [] && q[0].level <= cr.depthLimit
    requires ProfileIdOf(q[0].url) == Ok(uid) && uid !in index
    ensures var t := Crawl(cr, q, index).trace;
      t != [] && t[0].level == q[0].level && LevelsWithin(t, q[0].level, cr.depthLimit)
    decreases Rank(q, cr.depthLimit), FrontCount(q), 0
  {
    CrawlFetch(cr, q, index, uid);
    FrontLevel(q, FetchedAt(cr, q, uid).coAuthors);
    CrawlLevels(cr, NextQueue(q, FetchedAt(cr, q, uid).coAuthors), index[uid := FetchedAt(cr, q, uid)]);
    LevelsStep(Visit(q[0].url, q[0].level, true),
               Crawl(cr, NextQueue(q, FetchedAt(cr, q, uid).coAuthors), index[uid := FetchedAt(cr, q, uid)]).trace,
               cr.depthLimit);
  }

  /** Every record of `ps` has a uid that is not in `index`, and no two of
      them share a uid. */
  ghost predicate FreshUids(ps: seq<ProfileItem>, index: map<string, ProfileItem>, uidOf: ProfileItem -> Result<string, Error>) {
    && (forall i :: 0 <= i < |ps| ==> uidOf(ps[i]).Ok? && uidOf(ps[i]).value !in index)
    && (forall i, j :: 0 <= i < j < |ps| ==> uidOf(ps[i]) != uidOf(ps[j]))
  }

  /** `m` keeps every entry of `index` and maps the uid of every record of
      `ps` to that record. */
  ghost predicate Extends(m: map<string, ProfileItem>, index: map<string, ProfileItem>, ps: seq<ProfileItem>,
                          uidOf: ProfileItem -> Result<string, Error>) {
    && (forall k :: k in index ==> k in m && m[k] == index[k])
    && (forall i :: 0 <= i < |ps| ==>
          uidOf(ps[i]).Ok? && uidOf(ps[i]).value in m && m[uidOf(ps[i]).value] == ps[i])
  }

  lemma FreshStep(uidOf: ProfileItem -> Result<string, Error>, index: map<string, ProfileItem>, uid: string,
                  p: ProfileItem, rest: seq<ProfileItem>, m: map<string, ProfileItem>)
    requires uidOf(p) == Ok(uid) && uid !in index
    requires FreshUids(rest, index[uid := p], uidOf) && Extends(m, index[uid := p], rest, uidOf)
    ensures FreshUids([p] + rest, index, uidOf) && Extends(m, index, [p] + rest, uidOf)
  {
    var ps := [p] + rest;
    assert forall i :: 0 < i < |ps| ==> ps[i] == rest[i - 1];
  }

  /** A uid already in the map is never fetched or appended again; each
      fetched uid is appended once and mapped to its record; entries of the
      map are never replaced. */
  lemma {:induction false} CrawlFresh(cr: Crawler, q: seq<Entry>, index: map<string, ProfileItem>)
    requires LevelsOk(q)
    ensures FreshUids(Crawl(cr, q, index).appended, index, UidOf)
    ensures Extends(Crawl(cr, q, index).index, index, Crawl(cr, q, index).appended, UidOf)
    decreases Rank(q, cr.depthLimit), FrontCount(q)
  {
    if q == [] || q[0].level > cr.depthLimit || ProfileIdOf(q[0].url).Err? {
      CrawlStop(cr, q, index);
    } else {
      var uid := ProfileIdOf(q[0].url).value;
      if uid in index {
        CrawlKnown(cr, q, index, uid);
        CrawlFresh(cr, NextQueue(q, index[uid].coAuthors), index);
      } else {
        var p := FetchedAt(cr, q, uid);
        var next := NextQueue(q, p.coAuthors);
        CrawlFetch(cr, q, index, uid);
        CrawlFresh(cr, next, index[uid := p]);
        var r := Crawl(cr, next, index[uid := p]);
        assert UidOf(p) == Ok(uid);
        FreshStep(UidOf, index, uid, p, r.appended, r.index);
      }
    }
  }

  /** `p` is the last record of `log` whose key under `uidOf` is `uid`. */
  ghost predicate IsLastRecord<P>(log: seq<P>, uidOf: P -> Result<string, Error>, uid: string, p: P) {
    exists i :: 0 <= i < |log| && log[i] == p && uidOf(log[i]) == Ok(uid)
      && forall j :: i < j < |log| ==> uidOf(log[j]) != Ok(uid)
  }

  /** The replayed map in full: it fails exactly when the URL of some record
      has no uid, with the error of the first such record; otherwise it maps
      exactly the uids of the records, each to the last record with that
      uid. */
  lemma IndexOfMeans(log: seq<ProfileItem>)
    ensures IndexOf(log).Err? <==> exists i :: 0 <= i < |log| && UidOf(log[i]).Err?
    ensures IndexOf(log).Err? ==>
      exists i :: 0 <= i < |log| && UidOf(log[i]) == Err(IndexOf(log).error)
        && forall j :: 0 <= j < i ==> UidOf(log[j]).Ok?
    ensures IndexOf(log).Ok? ==> forall uid :: uid in IndexOf(log).value <==>
      exists i :: 0 <= i < |log| && UidOf(log[i]) == Ok(uid)
    ensures IndexOf(log).Ok? ==> forall uid :: uid in IndexOf(log).value ==>
      IsLastRecord(log, UidOf, uid, IndexOf(log).value[uid])
  {
    ReplayFails(log, UidOf);
    if IndexOf(log).Ok? {
      ReplayMaps(log, UidOf);
    }
  }

  /** A replay fails at the first record without a key. */
  lemma {:induction false} ReplayFails<P>(log: seq<P>, uidOf: P -> Result<string, Error>)
    ensures Replay(log, uidOf).Err? <==> exists i :: 0 <= i < |log| && uidOf(log[i]).Err?
    ensures Replay(log, uidOf).Err? ==>
      exists i :: 0 <= i < |log| && uidOf(log[i]) == Err(Replay(log, uidOf).error)
        && forall j :: 0 <= j < i ==> uidOf(log[j]).Ok?
  {
    if log != [] {
      var init := log[..|log| - 1];
      ReplayFails(init, uidOf);
      assert forall i :: 0 <= i < |init| ==> init[i] == log[i];
      if Replay(init, uidOf).Err? {
        var i :| 0 <= i < |init| && uidOf(init[i]) == Err(Replay(init, uidOf).error)
          && forall j :: 0 <= j < i ==> uidOf(init[j]).Ok?;
        assert log[i] == init[i];
      } else {
        assert forall j :: 0 <= j < |init| ==> uidOf(log[j]).Ok?;
      }
    }
  }

  /** A replay that succeeds maps the key of every record, and only those,
      to the last record with that key. */
  lemma ReplayMaps<P>(log: seq<P>, uidOf: P -> Result<string, Error>)
    requires Replay(log, uidOf).Ok?
    ensures forall uid :: uid in Replay(log, uidOf).value <==>
      exists i :: 0 <= i < |log| && uidOf(log[i]) == Ok(uid)
    ensures forall uid :: uid in Replay(log, uidOf).value ==>
      IsLastRecord(log, uidOf, uid, Replay(log, uidOf).value[uid])
  {
    ReplayKeys(log, uidOf);
    ReplayLast(log, uidOf);
  }

  lemma {:induction false} ReplayKeys<P>(log: seq<P>, uidOf: P -> Result<string, Error>)
    requires Replay(log, uidOf).Ok?
    ensures forall uid :: uid in Replay(log, uidOf).value <==>
      exists i :: 0 <= i < |log| && uidOf(log[i]) == Ok(uid)
  {
    if log != [] {
      var init := log[..|log| - 1];
      ReplayKeys(init, uidOf);
      assert forall i :: 0 <= i < |init| ==> init[i] == log[i];
    }
  }

  lemma {:induction false} ReplayLast<P>(log: seq<P>, uidOf: P -> Result<string, Error>)
    requires Replay(log, uidOf).Ok?
    ensures forall uid :: uid in Replay(log, uidOf).value ==>
      IsLastRecord(log, uidOf, uid, Replay(log, uidOf).value[uid])
  {
    if log != [] {
      var init := log[..|log| - 1];
      ReplayLast(init, uidOf);
      forall uid | uid in Replay(log, uidOf).value
        ensures IsLastRecord(log, uidOf, uid, Replay(log, uidOf).value[uid])
      {
        if uidOf(log[|log| - 1]) != Ok(uid) {
          LastRecordKept(init, log[|log| - 1], uidOf, uid, Replay(init, uidOf).value[uid]);
          assert init + [log[|log| - 1]] == log;
        }
      }
    }
  }

  /** A record with another key does not change which record is last. */
  lemma LastRecordKept<P>(init: seq<P>, x: P, uidOf: P -> Result<string, Error>, uid: string, p: P)
    requires IsLastRecord(init, uidOf, uid, p) && uidOf(x) != Ok(uid)
    ensures IsLastRecord(init + [x], uidOf, uid, p)
  {
    var log := init + [x];
    var i :| 0 <= i < |init| && init[i] == p && uidOf(init[i]) == Ok(uid)
      && forall j :: i < j < |init| ==> uidOf(init[j]) != Ok(uid);
    assert forall j :: 0 <= j < |init| ==> log[j] == init[j];
    assert log[i] == p;
  }

  /** Appending a record to the log maps its uid to it in the replay. */
  lemma IndexOfSnoc(log: seq<ProfileItem>, index: map<string, ProfileItem>, p: ProfileItem, uid: string)
    requires IndexOf(log) == Ok(index) && ProfileIdOf(p.url) == Ok(uid)
    ensures IndexOf(log + [p]) == Ok(index[uid := p])
  {
    SnocParts(log, p);
  }

  /** Replaying the log gives the map: if the map a walk starts from is the
      replay of the log, the map it ends with is the replay of the log with
      the appended records. */
  lemma {:induction false} CrawlReplays(cr: Crawler, q: seq<Entry>, index: map<string, ProfileItem>, log: seq<ProfileItem>)
    requires LevelsOk(q)
    requires IndexOf(log) == Ok(index)
    ensures IndexOf(log + Crawl(cr, q, index).appended) == Ok(Crawl(cr, q, index).index)
    decreases Rank(q, cr.depthLimit), FrontCount(q), 1
  {
    if q == [] || q[0].level > cr.depthLimit || ProfileIdOf(q[0].url).Err? {
      CrawlStop(cr, q, index);
      assert log + Crawl(cr, q, index).appended == log;
    } else if ProfileIdOf(q[0].url).value in index {
      ReplaysKnown(cr, q, index, log, ProfileIdOf(q[0].url).value);
    } else {
      ReplaysFetch(cr, q, index, log, ProfileIdOf(q[0].url).value);
    }
  }

  lemma {:induction false} ReplaysKnown(cr: Crawler, q: seq<Entry>, index: map<string, ProfileItem>, log: seq<ProfileItem>, uid: string)
    requires LevelsOk(q) && IndexOf(log) == Ok(index)
    requires q != [] && q[0].level <= cr.depthLimit && ProfileIdOf(q[0].url) == Ok(uid) && uid in index
    ensures IndexOf(log + Crawl(cr, q, index).appended) == Ok(Crawl(cr, q, index).index)
    decreases Rank(q, cr.depthLimit), FrontCount(q), 0
  {
    CrawlKnown(cr, q, index, uid);
    CrawlReplays(cr, NextQueue(q, index[uid].coAuthors), index, log);
  }

  lemma {:induction false} ReplaysFetch(cr: Crawler, q: seq<Entry>, index: map<string, ProfileItem>, log: seq<ProfileItem>, uid: string)
    requires LevelsOk(q) && IndexOf(log) == Ok(index)
    requires q != [] && q[0].level <= cr.depthLimit && ProfileIdOf(q[0].url) == Ok(uid) && uid !in index
    ensures IndexOf(log + Crawl(cr, q, index).appended) == Ok(Crawl(cr, q, index).index)
    decreases Rank(q, cr.depthLimit), FrontCount(q), 0
  {
    var p := FetchedAt(cr, q, uid);
    var next := NextQueue(q, p.coAuthors);
    CrawlFetch(cr, q, index, uid);
    IndexOfSnoc(log, index, p, uid);
    CrawlReplays(cr, next, index[uid := p], log + [p]);
    var rest := Crawl(cr, next, index[uid := p]);
    IndexOfRegroup(log, p, rest.appended, rest.index);
  }

  lemma IndexOfRegroup(log: seq<ProfileItem>, p: ProfileItem, more: seq<ProfileItem>, m: map<string, ProfileItem>)
    requires IndexOf(log + [p] + more) == Ok(m)
    ensures IndexOf(log + ([p] + more)) == Ok(m)
  {
    AppendAssoc(log, [p], more);
  }

  /** Walking again over the same queue and the same pages, from the map a
      walk ended with, appends nothing and ends the same way: every uid the
      first walk reached is mapped, to a record whose co-authors are the ones
      the first walk enqueued. */
  lemma {:induction false} CrawlIdempotent(cr: Crawler, q: seq<Entry>, index: map<string, ProfileItem>)
    requires LevelsOk(q)
    ensures var r := Crawl(cr, q, index);
      Crawl(cr, q, r.index).appended == [] && Crawl(cr, q, r.index).failure == r.failure
    decreases Rank(q, cr.depthLimit), FrontCount(q), 1
  {
    if q == [] || q[0].level > cr.depthLimit || ProfileIdOf(q[0].url).Err? {
      CrawlStop(cr, q, index);
      CrawlStop(cr, q, Crawl(cr, q, index).index);
    } else if ProfileIdOf(q[0].url).value in index {
      IdempotentKnown(cr, q, index, ProfileIdOf(q[0].url).value);
    } else {
      IdempotentFetch(cr, q, index, ProfileIdOf(q[0].url).value);
    }
  }

  lemma {:induction false} IdempotentKnown(cr: Crawler, q: seq<Entry>, index: map<string, ProfileItem>, uid: string)
    requires LevelsOk(q) && q != [] && q[0].level <= cr.depthLimit
    requires ProfileIdOf(q[0].url) == Ok(uid) && uid in index
    ensures var r := Crawl(cr, q, index);
      Crawl(cr, q, r.index).appended == [] && Crawl(cr, q, r.index).failure == r.failure
    decreases Rank(q, cr.depthLimit), FrontCount(q), 0
  {
    var next := NextQueue(q, index[uid].coAuthors);
    CrawlKnown(cr, q, index, uid);
    var final := Crawl(cr, next, index).index;
    CrawlFresh(cr, next, index);
    assert final[uid] == index[uid];
    CrawlKnown(cr, q, final, uid);
    CrawlIdempotent(cr, next, index);
  }

  lemma {:induction false} IdempotentFetch(cr: Crawler, q: seq<Entry>, index: map<string, ProfileItem>, uid: string)
    requires LevelsOk(q) && q != [] && q[0].level <= cr.depthLimit
    requires ProfileIdOf(q[0].url) == Ok(uid) && uid !in index
    ensures var r := Crawl(cr, q, index);
      Crawl(cr, q, r.index).appended == [] && Crawl(cr, q, r.index).failure == r.failure
    decreases Rank(q, cr.depthLimit), FrontCount(q), 0
  {
    CrawlFetch(cr, q, index, uid);
    CrawlFresh(cr, NextQueue(q, FetchedAt(cr, q, uid).coAuthors), index[uid := FetchedAt(cr, q, uid)]);
    CrawlKnown(cr, q, Crawl(cr, NextQueue(q, FetchedAt(cr, q, uid).coAuthors), index[uid := FetchedAt(cr, q, uid)]).index, uid);
    CrawlIdempotent(cr, NextQueue(q, FetchedAt(cr, q, uid).coAuthors), index[uid := FetchedAt(cr, q, uid)]);
  }

  /** Two runs of `gs_explore_profiles` with the same seeds over the same
      pages, the second resumed from the log the first left: the replay of
      that log is the map the first run ended with, and the second run
      appends nothing and ends the same way. */
  lemma ExploreTwice(cr: Crawler, seeds: seq<string>, log: seq<ProfileItem>)
    requires IndexOf(log).Ok?
    ensures var r1 := Crawl(cr, Seeds(seeds), IndexOf(log).value);
      && IndexOf(log + r1.appended) == Ok(r1.index)
      && Crawl(cr, Seeds(seeds), r1.index).appended == []
      && Crawl(cr, Seeds(seeds), r1.index).failure == r1.failure
  {
    CrawlReplays(cr, Seeds(seeds), IndexOf(log).value, log);
    CrawlIdempotent(cr, Seeds(seeds), IndexOf(log).value);
  }

  /** The map `m` with each record of `ps`, in order, added under its key. */
  ghost function Grow<P>(m: map<string, P>, ps: seq<P>, uidOf: P -> Result<string, Error>): map<string, P>
    decreases |ps|
  {
    if ps == [] then m
    else
      match uidOf(ps[0])
      case Err(_) => Grow(m, ps[1..], uidOf)
      case Ok(uid) => Grow(m[uid := ps[0]], ps[1..], uidOf)
  }

  /** Growing by a record with a key adds it, then grows by the rest. */
  lemma GrowCons<P>(m: map<string, P>, p: P, rest: seq<P>, uidOf: P -> Result<string, Error>, uid: string)
    requires uidOf(p) == Ok(uid)
    ensures Grow(m, [p] + rest, uidOf) == Grow(m[uid := p], rest, uidOf)
  {
    assert ([p] + rest)[0] == p && ([p] + rest)[1..] == rest;
  }

  /** Replaying a log extended by records that all have a key gives the
      replay of the log, grown by those records. */
  lemma {:induction false} ReplayGrow<P>(log: seq<P>, m: map<string, P>, ps: seq<P>, uidOf: P -> Result<string, Error>)
    requires Replay(log, uidOf) == Ok(m)
    requires forall i :: 0 <= i < |ps| ==> uidOf(ps[i]).Ok?
    ensures Replay(log + ps, uidOf) == Ok(Grow(m, ps, uidOf))
    decreases |ps|
  {
    if ps == [] {
      assert log + ps == log;
    } else {
      var uid := uidOf(ps[0]).value;
      SnocParts(log, ps[0]);
      assert Replay(log + [ps[0]], uidOf) == Ok(m[uid := ps[0]]);
      assert forall i :: 0 <= i < |ps[1..]| ==> ps[1..][i] == ps[i + 1];
      ReplayGrow(log + [ps[0]], m[uid := ps[0]], ps[1..], uidOf);
      AppendAssoc(log, [ps[0]], ps[1..]);
      assert [ps[0]] + ps[1..] == ps;
    }
  }

  /** Records with other keys leave the entry of `uid` as it was. */
  lemma {:induction false} GrowKeeps<P>(m: map<string, P>, ps: seq<P>, uidOf: P -> Result<string, Error>, uid: string)
    requires uid in m
    requires forall i :: 0 <= i < |ps| ==> uidOf(ps[i]) != Ok(uid)
    ensures uid in Grow(m, ps, uidOf) && Grow(m, ps, uidOf)[uid] == m[uid]
    decreases |ps|
  {
    if ps != [] {
      assert forall i :: 0 <= i < |ps[1..]| ==> ps[1..][i] == ps[i + 1];
      match uidOf(ps[0])
      case Err(_) => GrowKeeps(m, ps[1..], uidOf, uid);
      case Ok(k) => GrowKeeps(m[k := ps[0]], ps[1..], uidOf, uid);
    }
  }

  /** A walk restarted over the same queue and pages, from its start map
      grown by the first `n` records it appended, appends exactly the
      records after those and ends the same way: a uid fetched before the
      interruption is now known, and its stored co-authors are the ones the
      fetch enqueued. */
  lemma {:induction false} CrawlRestarts(cr: Crawler, q: seq<Entry>, index: map<string, ProfileItem>, n: nat)
    requires LevelsOk(q)
    requires n <= |Crawl(cr, q, index).appended|
    ensures var r := Crawl(cr, q, index);
      var r' := Crawl(cr, q, Grow(index, r.appended[..n], UidOf));
      r'.appended == r.appended[n..] && r'.failure == r.failure
    decreases Rank(q, cr.depthLimit), FrontCount(q), 1
  {
    if q == [] || q[0].level > cr.depthLimit || ProfileIdOf(q[0].url).Err? {
      CrawlStop(cr, q, index);
      assert Crawl(cr, q, index).appended[..n] == [];
      CrawlStop(cr, q, Grow(index, [], UidOf));
    } else if ProfileIdOf(q[0].url).value in index {
      RestartsKnown(cr, q, index, ProfileIdOf(q[0].url).value, n);
    } else if n == 0 {
      RestartsNone(cr, q, index);
    } else {
      RestartsFetch(cr, q, index, ProfileIdOf(q[0].url).value, n);
    }
  }

  lemma {:induction false} RestartsKnown(cr: Crawler, q: seq<Entry>, index: map<string, ProfileItem>, uid: string, n: nat)
    requires LevelsOk(q) && q != [] && q[0].level <= cr.depthLimit
    requires ProfileIdOf(q[0].url) == Ok(uid) && uid in index
    requires n <= |Crawl(cr, q, index).appended|
    ensures var r := Crawl(cr, q, index);
      var r' := Crawl(cr, q, Grow(index, r.appended[..n], UidOf));
      r'.appended == r.appended[n..] && r'.failure == r.failure
    decreases Rank(q, cr.depthLimit), FrontCount(q), 0
  {
    var next := NextQueue(q, index[uid].coAuthors);
    CrawlKnown(cr, q, index, uid);
    GrownKeepsUid(cr, next, index, n, uid);
    CrawlKnown(cr, q, Grow(index, Crawl(cr, next, index).appended[..n], UidOf), uid);
    CrawlRestarts(cr, next, index, n);
  }

  lemma {:induction false} RestartsFetch(cr: Crawler, q: seq<Entry>, index: map<string, ProfileItem>, uid: string, n: nat)
    requires LevelsOk(q) && q != [] && q[0].level <= cr.depthLimit
    requires ProfileIdOf(q[0].url) == Ok(uid) && uid !in index
    requires 1 <= n <= |Crawl(cr, q, index).appended|
    ensures var r := Crawl(cr, q, index);
      var r' := Crawl(cr, q, Grow(index, r.appended[..n], UidOf));
      r'.appended == r.appended[n..] && r'.failure == r.failure
    decreases Rank(q, cr.depthLimit), FrontCount(q), 0
  {
    var p := FetchedAt(cr, q, uid);
    var next := NextQueue(q, p.coAuthors);
    CrawlFetch(cr, q, index, uid);
    var rest := Crawl(cr, next, index[uid := p]).appended;
    ConsSplit(p, rest, n);
    assert UidOf(p) == Ok(uid);
    GrowCons(index, p, rest[..n - 1], UidOf, uid);
    GrownKeepsUid(cr, next, index[uid := p], n - 1, uid);
    CrawlKnown(cr, q, Grow(index[uid := p], rest[..n - 1], UidOf), uid);
    CrawlRestarts(cr, next, index[uid := p], n - 1);
  }

  /** Restarting before anything was appended is the same walk. */
  lemma RestartsNone(cr: Crawler, q: seq<Entry>, index: map<string, ProfileItem>)
    requires LevelsOk(q)
    ensures var r := Crawl(cr, q, index);
      var r' := Crawl(cr, q, Grow(index, r.appended[..0], UidOf));
      r'.appended == r.appended[0..] && r'.failure == r.failure
  {
    assert Grow(index, Crawl(cr, q, index).appended[..0], UidOf) == index;
  }

  /** A uid in the start map of a walk keeps its entry when the map grows by
      records the walk appended: those records all have other uids. */
  lemma GrownKeepsUid(cr: Crawler, q: seq<Entry>, index: map<string, ProfileItem>, n: nat, uid: string)
    requires LevelsOk(q) && uid in index
    requires n <= |Crawl(cr, q, index).appended|
    ensures var g := Grow(index, Crawl(cr, q, index).appended[..n], UidOf);
      uid in g && g[uid] == index[uid]
  {
    var pre := Crawl(cr, q, index).appended[..n];
    CrawlFresh(cr, q, index);
    assert forall i :: 0 <= i < |pre| ==> pre[i] == Crawl(cr, q, index).appended[i];
    GrowKeeps(index, pre, UidOf, uid);
  }

  /** `gs_explore_profiles` interrupted after appending its first `n`
      records, and run again with the same seeds over the same pages from
      the log as it was left, ends as the uninterrupted run: the partial
      log replays, the rerun appends exactly the records the first run had
      not yet appended, and it ends the same way, so the log ends up the
      same. */
  lemma ExploreInterrupted(cr: Crawler, seeds: seq<string>, log: seq<ProfileItem>, n: nat)
    requires IndexOf(log).Ok?
    requires n <= |Crawl(cr, Seeds(seeds), IndexOf(log).value).appended|
    ensures var r := Crawl(cr, Seeds(seeds), IndexOf(log).value);
      var partial := log + r.appended[..n];
      && IndexOf(partial).Ok?
      && Crawl(cr, Seeds(seeds), IndexOf(partial).value).appended == r.appended[n..]
      && Crawl(cr, Seeds(seeds), IndexOf(partial).value).failure == r.failure
      && partial + r.appended[n..] == log + r.appended
  {
    var index := IndexOf(log).value;
    var r := Crawl(cr, Seeds(seeds), index);
    var pre := r.appended[..n];
    CrawlFresh(cr, Seeds(seeds), index);
    assert forall i :: 0 <= i < |pre| ==> pre[i] == r.appended[i];
    ReplayGrow(log, index, pre, UidOf);
    CrawlRestarts(cr, Seeds(seeds), index, n);
    AppendAssoc(log, pre, r.appended[n..]);
    TakeDrop(r.appended, n);
  }

  function UrlsOf(ps: seq<ProfileItem>): (urls: seq<string>)
    ensures |urls| == |ps|
  {
    if ps == [] then [] else [ps[0].url] + UrlsOf(ps[1..])
  }

  function FetchedUrls(t: seq<Visit>): seq<string> {
    if t == [] then [] else (if t[0].fetched then [t[0].url] else []) + FetchedUrls(t[1..])
  }

  /** The log receives exactly the fetched profiles, in the order they were
      visited; a visit to a uid already in the map appends nothing. */
  lemma {:induction false} CrawlAppendsFetched(cr: Crawler, q: seq<Entry>, index: map<string, ProfileItem>)
    requires LevelsOk(q)
    ensures UrlsOf(Crawl(cr, q, index).appended) == FetchedUrls(Crawl(cr, q, index).trace)
    decreases Rank(q, cr.depthLimit), FrontCount(q)
  {
    if q == [] || q[0].level > cr.depthLimit || ProfileIdOf(q[0].url).Err? {
      CrawlStop(cr, q, index);
    } else {
      var uid := ProfileIdOf(q[0].url).value;
      var index' := if uid in index then index
        else index[uid := FetchedAt(cr, q, uid)];
      var next := NextQueue(q, index'[uid].coAuthors);
      if uid in index {
        CrawlKnown(cr, q, index, uid);
      } else {
        CrawlFetch(cr, q, index, uid);
      }
      CrawlAppendsFetched(cr, next, index');
      var r := Crawl(cr, q, index);
      var rest := Crawl(cr, next, index');
      assert r.trace[1..] == rest.trace;
      if uid !in index {
        assert r.appended[1..] == rest.appended;
      }
    }
  }
}
