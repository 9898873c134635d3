/** `gs_fix_profile_from_html`: rewrite the profile log into a new file in
    which every co-author name is a plain string and the articles and tags
    of each profile are taken again from its saved HTML page. */
module Repair {
  import opened Wrappers
  import opened Paths
  import opened Records
  import opened Seqs
  import Explore

  /** What the HTML parser finds in a saved profile page: the titles of the
      `a.gsc_a_at` links and the texts of the `a.gsc_prf_inta.gs_ibl` links,
      in document order. */
  datatype Snapshot = Snapshot(articles: seq<string>, tags: seq<string>)

  /** The log that is read, `gs_profiles.jsonl`. */
  function SourcePath(outDir: string): string {
    PathJoin(outDir, "gs_profiles.jsonl")
  }

  /** The log that is written, `gs_profiles_<suffix>.jsonl`. */
  function TargetPath(outDir: string, suffix: string): string {
    PathJoin(outDir, "gs_profiles_" + suffix + ".jsonl")
  }

  /** The repaired log is never the log it is read from, whatever the
      suffix. */
  lemma TargetIsNotSource(outDir: string, suffix: string)
    ensures TargetPath(outDir, suffix) != SourcePath(outDir)
  {
    var t := "gs_profiles_" + suffix + ".jsonl";
    var s := "gs_profiles.jsonl";
    assert |t| == |s| + 1 + |suffix|;
    assert t[0] == 'g';
  }

  /** The saved page a profile is repaired from: the base name of its
      `html_path`, looked up in the `gs_htmls` directory of the output
      directory. */
  function SnapshotPath(outDir: string, htmlPath: string): string {
    PathJoin(PathJoin(outDir, "gs_htmls"), BaseName(htmlPath))
  }

  /** A profile saved by the walk is repaired from the very file the walk
      saved its page to, when its uid holds no `/`. */
  lemma RepairReadsSavedPage(cr: Explore.Crawler, url: string, uid: string, page: Explore.ProfilePage)
    requires '/' !in uid
    ensures var p := Explore.NewProfile(cr, url, uid, page);
      SnapshotPath(cr.outDir, p.htmlPath) == p.htmlPath
  {
    var name := "profile_" + uid + ".html";
    assert '/' !in "profile_" && '/' !in ".html";
    assert '/' !in name;
    BaseNameOfJoin(PathJoin(cr.outDir, "gs_htmls"), name);
  }

  /** One co-author name: a list name becomes its first element, and an
      empty list raises `IndexError`; a string is kept. */
  function FixName(n: Name): (r: Result<Name, Error>)
    ensures r.Err? <==> n == Texts([])
    ensures r.Err? ==> r.error == IndexError
    ensures r.Ok? ==> r.value.Text?
  {
    match n
    case Text(_) => Ok(n)
    case Texts(ts) => if |ts| == 0 then Err(IndexError) else Ok(Text(ts[0]))
  }

  /** Some co-author has an empty list as its name. */
  ghost predicate HasEmptyName(cs: seq<ProfileEntry>) {
    exists i :: 0 <= i < |cs| && cs[i].name == Texts([])
  }

  /** Some profile has a co-author with an empty list as its name. */
  ghost predicate AnyEmptyName(ps: seq<ProfileItem>) {
    exists i :: 0 <= i < |ps| && HasEmptyName(ps[i].coAuthors)
  }

  /** The names of a list of co-authors, fixed one by one in order; the
      first empty list name raises. */
  function FixNames(cs: seq<ProfileEntry>): Result<seq<ProfileEntry>, Error>
    decreases |cs|
  {
    if cs == [] then Ok([])
    else
      match FixNames(cs[..|cs| - 1])
      case Err(e) => Err(e)
      case Ok(ns) =>
        match FixName(cs[|cs| - 1].name)
        case Err(e) => Err(e)
        case Ok(n) => Ok(ns + [cs[|cs| - 1].(name := n)])
  }

  /** Fixing the names fails, with `IndexError`, exactly when some name is
      an empty list; otherwise every name is fixed and every URL kept. */
  lemma {:induction false} FixNamesMeans(cs: seq<ProfileEntry>)
    ensures var r := FixNames(cs);
      && (r.Err? <==> HasEmptyName(cs))
      && (r.Err? ==> r.error == IndexError)
      && (r.Ok? ==> |r.value| == |cs| && forall i :: 0 <= i < |cs| ==>
            FixName(cs[i].name) == Ok(r.value[i].name) && r.value[i].url == cs[i].url)
    decreases |cs|
  {
    if cs != [] {
      var init := cs[..|cs| - 1];
      FixNamesMeans(init);
      assert forall i :: 0 <= i < |init| ==> init[i] == cs[i];
      if HasEmptyName(init) {
        var i :| 0 <= i < |init| && init[i].name == Texts([]);
        assert cs[i].name == Texts([]);
      }
      if FixNames(cs).Ok? {
        var ns := FixNames(init).value;
        assert FixNames(cs).value == ns + [cs[|cs| - 1].(name := FixName(cs[|cs| - 1].name).value)];
      }
    }
  }

  /** The content of each profile's saved page, given the content of every
      file as `pages`. */
  function PageOf(outDir: string, pages: string -> Snapshot): ProfileItem -> Snapshot {
    (p: ProfileItem) => pages(SnapshotPath(outDir, p.htmlPath))
  }

  /** `pageOf` reads a profile's page by its `html_path` alone. */
  ghost predicate ByHtmlPath(pageOf: ProfileItem -> Snapshot) {
    forall p: ProfileItem, q: ProfileItem :: p.htmlPath == q.htmlPath ==> pageOf(p) == pageOf(q)
  }

  lemma PageOfByHtmlPath(outDir: string, pages: string -> Snapshot)
    ensures ByHtmlPath(PageOf(outDir, pages))
  {
  }

  /** One profile: its co-author names fixed, and its articles and tags
      replaced by those of its saved page `pageOf(p)`. */
  function FixProfile(p: ProfileItem, pageOf: ProfileItem -> Snapshot): Result<ProfileItem, Error> {
    match FixNames(p.coAuthors)
    case Err(e) => Err(e)
    case Ok(cs) =>
      var snap := pageOf(p);
      Ok(p.(coAuthors := cs, articles := snap.articles, tags := snap.tags))
  }

  /** Every profile of the log, fixed in order; the first empty list name
      raises. */
  function FixAll(ps: seq<ProfileItem>, pageOf: ProfileItem -> Snapshot): Result<seq<ProfileItem>, Error>
    decreases |ps|
  {
    if ps == [] then Ok([])
    else
      match FixAll(ps[..|ps| - 1], pageOf)
      case Err(e) => Err(e)
      case Ok(qs) =>
        match FixProfile(ps[|ps| - 1], pageOf)
        case Err(e) => Err(e)
        case Ok(q) => Ok(qs + [q])
  }

  /** Repairing the log fails, with `IndexError`, exactly when some profile
      has a co-author whose name is an empty list; otherwise every profile is
      repaired in place, in order. */
  lemma {:induction false} FixAllMeans(ps: seq<ProfileItem>, pageOf: ProfileItem -> Snapshot)
    ensures var r := FixAll(ps, pageOf);
      && (r.Err? <==> AnyEmptyName(ps))
      && (r.Err? ==> r.error == IndexError)
      && (r.Ok? ==> |r.value| == |ps| && forall i :: 0 <= i < |ps| ==> FixProfile(ps[i], pageOf) == Ok(r.value[i]))
    decreases |ps|
  {
    if ps != [] {
      var init, last := ps[..|ps| - 1], ps[|ps| - 1];
      FixAllMeans(init, pageOf);
      FixNamesMeans(last.coAuthors);
      assert forall i :: 0 <= i < |init| ==> init[i] == ps[i];
      var r, ri, rl := FixAll(ps, pageOf), FixAll(init, pageOf), FixProfile(last, pageOf);
      assert r == if ri.Err? then ri else if rl.Err? then Err(rl.error) else Ok(ri.value + [rl.value]);
      assert rl.Err? <==> HasEmptyName(last.coAuthors);
      assert rl.Err? ==> rl.error == IndexError;
      if AnyEmptyName(init) {
        var i :| 0 <= i < |init| && HasEmptyName(init[i].coAuthors);
        assert HasEmptyName(ps[i].coAuthors);
      }
      if AnyEmptyName(ps) && !AnyEmptyName(init) {
        var i :| 0 <= i < |ps| && HasEmptyName(ps[i].coAuthors);
        assert i == |ps| - 1;
      }
      if r.Ok? {
        assert r.value == ri.value + [rl.value];
      }
    }
  }

  /** What the repair makes of one profile: the same record with only its
      co-authors, articles and tags replaced; every co-author keeps its URL
      and gets a plain string name (the first element of a list name); the
      articles and tags are those of the saved page. */
  lemma FixProfileMeans(p: ProfileItem, pageOf: ProfileItem -> Snapshot)
    ensures var r := FixProfile(p, pageOf);
      r.Ok? ==>
        && r.value.(coAuthors := p.coAuthors, articles := p.articles, tags := p.tags) == p
        && |r.value.coAuthors| == |p.coAuthors|
        && (forall j :: 0 <= j < |p.coAuthors| ==>
              && r.value.coAuthors[j].url == p.coAuthors[j].url
              && r.value.coAuthors[j].name.Text?
              && (p.coAuthors[j].name.Text? ==> r.value.coAuthors[j].name == p.coAuthors[j].name)
              && (p.coAuthors[j].name.Texts? ==>
                    p.coAuthors[j].name.texts != [] && r.value.coAuthors[j].name.text == p.coAuthors[j].name.texts[0]))
        && r.value.articles == pageOf(p).articles
        && r.value.tags == pageOf(p).tags
  {
    var r := FixProfile(p, pageOf);
    FixNamesMeans(p.coAuthors);
    if r.Ok? {
      var cs := FixNames(p.coAuthors).value;
      var snap := pageOf(p);
      assert r.value == p.(coAuthors := cs, articles := snap.articles, tags := snap.tags);
      forall j | 0 <= j < |p.coAuthors|
        ensures r.value.coAuthors[j].name.Text?
        ensures p.coAuthors[j].name.Text? ==> r.value.coAuthors[j].name == p.coAuthors[j].name
        ensures p.coAuthors[j].name.Texts? ==>
                  p.coAuthors[j].name.texts != [] && r.value.coAuthors[j].name.text == p.coAuthors[j].name.texts[0]
      {
        assert FixName(p.coAuthors[j].name) == Ok(r.value.coAuthors[j].name);
      }
    }
  }

  /** Repairing a repaired log with the same saved pages changes nothing. */
  lemma {:induction false} FixAllIdempotent(ps: seq<ProfileItem>, pageOf: ProfileItem -> Snapshot)
    requires ByHtmlPath(pageOf)
    requires FixAll(ps, pageOf).Ok?
    ensures FixAll(FixAll(ps, pageOf).value, pageOf) == FixAll(ps, pageOf)
  {
    var qs := FixAll(ps, pageOf).value;
    FixAllMeans(ps, pageOf);
    forall i | 0 <= i < |qs| ensures FixProfile(qs[i], pageOf) == Ok(qs[i]) {
      FixProfileIdempotent(ps[i], pageOf);
    }
    FixAllKeeps(qs, pageOf);
  }

  lemma FixProfileIdempotent(p: ProfileItem, pageOf: ProfileItem -> Snapshot)
    requires ByHtmlPath(pageOf)
    requires FixProfile(p, pageOf).Ok?
    ensures var q := FixProfile(p, pageOf).value;
      FixProfile(q, pageOf) == Ok(q)
  {
    var q := FixProfile(p, pageOf).value;
    FixProfileMeans(p, pageOf);
    FixNamesKeeps(q.coAuthors);
  }

  /** Co-authors whose names are all strings are left as they are. */
  lemma {:induction false} FixNamesKeeps(cs: seq<ProfileEntry>)
    requires forall i :: 0 <= i < |cs| ==> cs[i].name.Text?
    ensures FixNames(cs) == Ok(cs)
    decreases |cs|
  {
    if cs != [] {
      var init, last := cs[..|cs| - 1], cs[|cs| - 1];
      assert forall i :: 0 <= i < |init| ==> init[i] == cs[i];
      FixNamesKeeps(init);
      assert FixName(last.name) == Ok(last.name);
      assert last.(name := last.name) == last;
      assert init + [last] == cs;
    }
  }

  /** A log whose every profile is already repaired is left as it is. */
  lemma {:induction false} FixAllKeeps(ps: seq<ProfileItem>, pageOf: ProfileItem -> Snapshot)
    requires forall i :: 0 <= i < |ps| ==> FixProfile(ps[i], pageOf) == Ok(ps[i])
    ensures FixAll(ps, pageOf) == Ok(ps)
    decreases |ps|
  {
    if ps != [] {
      FixAllKeeps(ps[..|ps| - 1], pageOf);
      SnocSplit(ps);
    }
  }

  /** A failure at one profile is the failure of the whole log. */
  lemma FixAllStops(ps: seq<ProfileItem>, i: nat, pageOf: ProfileItem -> Snapshot)
    requires i < |ps| && FixAll(ps[..i], pageOf).Ok? && FixNames(ps[i].coAuthors).Err?
    ensures FixAll(ps, pageOf) == Err(FixNames(ps[i].coAuthors).error)
  {
    FixNamesMeans(ps[i].coAuthors);
    FixAllMeans(ps, pageOf);
    assert HasEmptyName(ps[i].coAuthors);
  }

  /** An empty list name after names that fix is the failure of the whole
      list. */
  lemma FixNamesStops(cs: seq<ProfileEntry>, j: nat)
    requires j < |cs| && FixNames(cs[..j]).Ok? && cs[j].name == Texts([])
    ensures FixNames(cs) == Err(IndexError)
  {
    FixNamesMeans(cs);
    assert HasEmptyName(cs);
  }

  /** The loop over the co-authors of one profile, fixing each name in
      place; the first empty list name raises `IndexError`. */
  method FixCoAuthorNames(cs: seq<ProfileEntry>) returns (r: Result<seq<ProfileEntry>, Error>)
    ensures r == FixNames(cs)
  {
    var fixed := cs;
    for j := 0 to |cs|
      invariant |fixed| == |cs| && fixed[j..] == cs[j..]
      invariant FixNames(cs[..j]) == Ok(fixed[..j])
    {
      assert cs[..j + 1][..j] == cs[..j];
      if fixed[j].name.Texts? {
        if |fixed[j].name.texts| == 0 {
          FixNamesStops(cs, j);
          return Err(IndexError);
        }
        fixed := fixed[j := fixed[j].(name := Text(fixed[j].name.texts[0]))];
      }
      assert fixed[..j + 1] == fixed[..j] + [fixed[j]];
    }
    assert cs[..|cs|] == cs;
    assert fixed[..|fixed|] == fixed;
    return Ok(fixed);
  }

  /** `gs_fix_profile_from_html(out_dir, suffix)` over the records of
      `gs_profiles.jsonl`: a missing suffix is the current time as
      `clock` renders it, and each profile's page is the file of
      `SnapshotPath`. On `IndexError` nothing is written. Returns the path
      written and the records written there. */
  method FixProfileFromHtml(outDir: string, suffix: Option<string>, clock: string,
                            profiles: seq<ProfileItem>, pages: string -> Snapshot)
    returns (dst: string, written: Result<seq<ProfileItem>, Error>)
    ensures dst == TargetPath(outDir, suffix.GetOr(clock)) && dst != SourcePath(outDir)
    ensures written == FixAll(profiles, PageOf(outDir, pages))
  {
    var name := if suffix.None? then clock else suffix.value;
    dst := PathJoin(outDir, "gs_profiles_" + name + ".jsonl");
    TargetIsNotSource(outDir, name);
    written := FixProfiles(profiles, PageOf(outDir, pages));
  }

  /** The loop over the profiles: each gets its co-author names fixed and
      its articles and tags read from its saved page `pageOf(profile)`. */
  method FixProfiles(profiles: seq<ProfileItem>, pageOf: ProfileItem -> Snapshot)
    returns (written: Result<seq<ProfileItem>, Error>)
    ensures written == FixAll(profiles, pageOf)
  {
    var fixed := profiles;
    for i := 0 to |profiles|
      invariant |fixed| == |profiles| && fixed[i..] == profiles[i..]
      invariant FixAll(profiles[..i], pageOf) == Ok(fixed[..i])
    {
      var profile := fixed[i];
      var coAuthors := FixCoAuthorNames(profile.coAuthors);
      if coAuthors.Err? {
        FixAllStops(profiles, i, pageOf);
        return Err(coAuthors.error);
      }
      var snap := pageOf(profile);
      fixed := fixed[i := profile.(coAuthors := coAuthors.value, articles := snap.articles, tags := snap.tags)];
      assert profiles[..i + 1][..i] == profiles[..i];
      assert fixed[..i + 1] == fixed[..i] + [fixed[i]];
    }
    assert profiles[..|profiles|] == profiles;
    assert fixed[..|fixed|] == fixed;
    return Ok(fixed);
  }
}
