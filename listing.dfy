/** `gs_list_profile_urls` and `gs_list_authors`: the sets of profile URLs
    and of author names found in a search log `gs_result.jsonl`. */
module Listing {
  import opened Wrappers
  import opened Records
  import Search

  /** The URLs of a list of profile links. */
  function EntryUrls(es: seq<ProfileEntry>): (urls: set<string>)
    ensures forall u :: u in urls <==> exists j :: 0 <= j < |es| && es[j].url == u
  {
    set j | 0 <= j < |es| :: es[j].url
  }

  /** `gs_list_profile_urls`: every URL of a profile linked from some record
      of the log, each once. */
  function ProfileUrls(log: seq<SearchItem>): (urls: set<string>)
    ensures forall u :: u in urls <==>
      exists i, j :: 0 <= i < |log| && 0 <= j < |log[i].profiles| && log[i].profiles[j].url == u
    decreases |log|
  {
    if log == [] then {}
    else
      var rest := ProfileUrls(log[1..]);
      assert forall i :: 0 < i < |log| ==> log[i] == log[1..][i - 1];
      EntryUrls(log[0].profiles) + rest
  }

  /** `gs_list_authors`: every author name of the citation of some record
      of the log, each once. */
  function Authors(log: seq<SearchItem>): (names: set<string>)
    ensures forall a :: a in names <==>
      exists i, j :: 0 <= i < |log| && 0 <= j < |log[i].citation.authors| && log[i].citation.authors[j] == a
    decreases |log|
  {
    if log == [] then {}
    else
      var rest := Authors(log[1..]);
      assert forall i :: 0 < i < |log| ==> log[i] == log[1..][i - 1];
      (set j | 0 <= j < |log[0].citation.authors| :: log[0].citation.authors[j]) + rest
  }

  /** Listing a log made of two parts lists the union of the parts. */
  lemma ListingsAppend(a: seq<SearchItem>, b: seq<SearchItem>)
    ensures ProfileUrls(a + b) == ProfileUrls(a) + ProfileUrls(b)
    ensures Authors(a + b) == Authors(a) + Authors(b)
  {
    ProfileUrlsAppend(a, b);
    AuthorsAppend(a, b);
  }

  lemma ProfileUrlsAppend(a: seq<SearchItem>, b: seq<SearchItem>)
    ensures ProfileUrls(a + b) == ProfileUrls(a) + ProfileUrls(b)
  {
    var ab := a + b;
    assert forall i :: 0 <= i < |a| ==> ab[i] == a[i];
    assert forall i :: 0 <= i < |b| ==> ab[|a| + i] == b[i];
    forall u | u in ProfileUrls(ab) ensures u in ProfileUrls(a) + ProfileUrls(b) {
      var i, j :| 0 <= i < |ab| && 0 <= j < |ab[i].profiles| && ab[i].profiles[j].url == u;
      if i >= |a| {
        assert b[i - |a|] == ab[i];
      }
    }
  }

  lemma AuthorsAppend(a: seq<SearchItem>, b: seq<SearchItem>)
    ensures Authors(a + b) == Authors(a) + Authors(b)
  {
    var ab := a + b;
    assert forall i :: 0 <= i < |a| ==> ab[i] == a[i];
    assert forall i :: 0 <= i < |b| ==> ab[|a| + i] == b[i];
    forall n | n in Authors(ab) ensures n in Authors(a) + Authors(b) {
      var i, j :| 0 <= i < |ab| && 0 <= j < |ab[i].citation.authors| && ab[i].citation.authors[j] == n;
      if i >= |a| {
        assert b[i - |a|] == ab[i];
      }
    }
  }

  /** The listings only depend on which records the log holds, not on
      their order or repetition. */
  lemma ListingsOrderFree(a: seq<SearchItem>, b: seq<SearchItem>)
    requires forall t :: t in a <==> t in b
    ensures ProfileUrls(a) == ProfileUrls(b)
    ensures Authors(a) == Authors(b)
  {
    forall u | u in ProfileUrls(a) ensures u in ProfileUrls(b) {
      var i, j :| 0 <= i < |a| && 0 <= j < |a[i].profiles| && a[i].profiles[j].url == u;
      assert a[i] in b;
      var k :| 0 <= k < |b| && b[k] == a[i];
    }
    forall u | u in ProfileUrls(b) ensures u in ProfileUrls(a) {
      var i, j :| 0 <= i < |b| && 0 <= j < |b[i].profiles| && b[i].profiles[j].url == u;
      assert b[i] in a;
      var k :| 0 <= k < |a| && a[k] == b[i];
    }
    forall n | n in Authors(a) ensures n in Authors(b) {
      var i, j :| 0 <= i < |a| && 0 <= j < |a[i].citation.authors| && a[i].citation.authors[j] == n;
      assert a[i] in b;
      var k :| 0 <= k < |b| && b[k] == a[i];
    }
    forall n | n in Authors(b) ensures n in Authors(a) {
      var i, j :| 0 <= i < |b| && 0 <= j < |b[i].citation.authors| && b[i].citation.authors[j] == n;
      assert b[i] in a;
      var k :| 0 <= k < |a| && a[k] == b[i];
    }
  }

  /** `u` is the link of an author of an article exported among `os`. */
  ghost predicate Linked(os: seq<Search.Outcome>, u: string) {
    exists k :: 0 <= k < |os| && os[k].Article? && os[k].result.Exported?
      && os[k].result.links.Some? && u in EntryUrls(os[k].result.links.value)
  }

  /** `t` is the record built from one of the results `os`. */
  ghost predicate BuiltFrom(os: seq<Search.Outcome>, t: SearchItem) {
    exists k :: 0 <= k < |os| && Search.Yields(os[k], t)
  }

  /** The records added to `log` to make `final` each come from one of
      `os`, so their profile URLs are links among `os`. */
  lemma AddedProfilesLinked(log: seq<SearchItem>, final: seq<SearchItem>, os: seq<Search.Outcome>)
    requires |log| <= |final| && final[..|log|] == log
    requires forall i :: |log| <= i < |final| ==> BuiltFrom(os, final[i])
    ensures forall u :: u in ProfileUrls(final) ==> u in ProfileUrls(log) || Linked(os, u)
  {
    var added := final[|log|..];
    assert final == log + added;
    ListingsAppend(log, added);
    forall u | u in ProfileUrls(added) ensures Linked(os, u) {
      var i, j :| 0 <= i < |added| && 0 <= j < |added[i].profiles| && added[i].profiles[j].url == u;
      assert added[i] == final[|log| + i];
      ItemLinked(os, added[i], u);
    }
  }

  /** The profile URLs of a record built from one of `os` are links among
      `os`. */
  lemma ItemLinked(os: seq<Search.Outcome>, t: SearchItem, u: string)
    requires BuiltFrom(os, t) && u in EntryUrls(t.profiles)
    ensures Linked(os, u)
  {
    var k :| 0 <= k < |os| && Search.Yields(os[k], t);
    assert os[k].result.links == Some(t.profiles);
  }

  /** A profile URL that a search by authors adds to the listing is the
      link of an author of one of the articles it exported. */
  lemma SearchListsLinkedProfiles(s: Search.Searcher, log: seq<SearchItem>, authors: seq<string>)
    ensures var r := Search.AuthorsRun(s, log, authors);
      forall u :: u in ProfileUrls(r.log) ==> u in ProfileUrls(log) || Linked(Search.Outcomes(s, authors), u)
  {
    var r, os := Search.AuthorsRun(s, log, authors), Search.Outcomes(s, authors);
    Search.SearchAppendsNew(s, log, authors);
    forall i | |log| <= i < |r.log| ensures BuiltFrom(os, r.log[i]) {
    }
    AddedProfilesLinked(log, r.log, os);
  }
}
