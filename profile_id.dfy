/** `gs_get_profile_id`: the identity key of a Google Scholar profile is the
    value of the `user` parameter in the query of its URL. */
module ProfileId {
  import opened Wrappers
  import opened Text
  import opened Records

  /** The query component of a URL as `urlparse(url).query` yields it
      (section 3.4 of RFC 3986): the text after the first `?` of the part
      before the first `#`, or empty when there is no `?`. */
  function QueryOf(url: string): (q: string)
    ensures '#' !in q
  {
    var beforeFragment := match SplitOnce(url, '#') case None => url case Some(cut) => cut.0;
    match SplitOnce(beforeFragment, '?')
    case None => ""
    case Some(cut) => cut.1
  }

  /** The query is the text between the first `?` and the fragment: for a
      URL `pre?q` or `pre?q#f` whose `pre` holds no `?` and which has no `#`
      before the fragment, the query is `q`. */
  lemma QueryOfMeans(pre: string, q: string, f: string)
    requires '?' !in pre && '#' !in pre && '#' !in q
    ensures QueryOf(pre + "?" + q) == q
    ensures QueryOf(pre + "?" + q + "#" + f) == q
  {
    var u := pre + "?" + q;
    assert '#' !in u by {
      assert forall k :: 0 <= k < |u| ==> u[k] == if k < |pre| then pre[k] else if k == |pre| then '?' else q[k - |pre| - 1];
    }
    SplitOnceAt(pre, '?', q);
    SplitOnceAt(u, '#', f);
  }

  /** A URL with no `?` before its first `#` has an empty query: `pre`
      and `pre#f` for any `pre` that holds neither mark. */
  lemma QueryOfAbsent(pre: string, f: string)
    requires '?' !in pre && '#' !in pre
    ensures QueryOf(pre) == ""
    ensures QueryOf(pre + "#" + f) == ""
  {
    SplitOnceAt(pre, '#', f);
  }

  /** `kv.split('=')` yields exactly the two parts that `dict()` needs. */
  predicate WellFormedPair(pair: string) {
    |Split(pair, '=')| == 2
  }

  function Key(pair: string): string {
    Split(pair, '=')[0]
  }

  function Value(pair: string): string {
    var parts := Split(pair, '=');
    if |parts| >= 2 then parts[1] else ""
  }

  /** The (key, value) reading of each pair. */
  function Entries(pairs: seq<string>): (es: seq<(string, string)>)
    ensures |es| == |pairs|
    ensures forall i :: 0 <= i < |pairs| ==> es[i] == (Key(pairs[i]), Value(pairs[i]))
  {
    if pairs == [] then [] else Entries(pairs[..|pairs| - 1]) + [(Key(pairs[|pairs| - 1]), Value(pairs[|pairs| - 1]))]
  }

  /** `v` is the value of the last entry whose key is `k`. */
  ghost predicate IsLastValue(es: seq<(string, string)>, k: string, v: string) {
    exists i :: 0 <= i < |es| && es[i] == (k, v) && forall j :: i < j < |es| ==> es[j].0 != k
  }

  /** The value of the last entry with key `k`, scanning from the end. */
  function LastValueOf(es: seq<(string, string)>, k: string): Option<string> {
    if es == [] then None
    else if es[|es| - 1].0 == k then Some(es[|es| - 1].1)
    else LastValueOf(es[..|es| - 1], k)
  }

  /** `LastValueOf` agrees with its declarative reading: some entry with
      key `k` and no later one, or no entry with key `k` at all. */
  lemma {:induction false} LastValueOfMeans(es: seq<(string, string)>, k: string)
    ensures LastValueOf(es, k).Some? ==> IsLastValue(es, k, LastValueOf(es, k).value)
    ensures LastValueOf(es, k).None? <==> forall i :: 0 <= i < |es| ==> es[i].0 != k
  {
    if es != [] {
      LastValueOfMeans(es[..|es| - 1], k);
      if es[|es| - 1].0 == k {
        LastEntryMatches(es, k);
      } else {
        LastEntrySkipped(es, k);
      }
    }
  }

  /** The last entry has key `k`: its value is the last value of `k`. */
  lemma LastEntryMatches(es: seq<(string, string)>, k: string)
    requires es != [] && es[|es| - 1].0 == k
    ensures LastValueOf(es, k) == Some(es[|es| - 1].1)
    ensures IsLastValue(es, k, es[|es| - 1].1)
    ensures !(forall i :: 0 <= i < |es| ==> es[i].0 != k)
  {
    assert es[|es| - 1] == (k, es[|es| - 1].1);
  }

  /** The last entry has another key: what holds of the entries before it
      holds of all of them. */
  lemma LastEntrySkipped(es: seq<(string, string)>, k: string)
    requires es != [] && es[|es| - 1].0 != k
    requires var init := es[..|es| - 1];
      && (LastValueOf(init, k).Some? ==> IsLastValue(init, k, LastValueOf(init, k).value))
      && (LastValueOf(init, k).None? <==> forall i :: 0 <= i < |init| ==> init[i].0 != k)
    ensures LastValueOf(es, k).Some? ==> IsLastValue(es, k, LastValueOf(es, k).value)
    ensures LastValueOf(es, k).None? <==> forall i :: 0 <= i < |es| ==> es[i].0 != k
  {
    var init, x := es[..|es| - 1], es[|es| - 1];
    assert init + [x] == es;
    assert LastValueOf(es, k) == LastValueOf(init, k);
    if LastValueOf(init, k).Some? {
      LastValueKept(init, x, k, LastValueOf(init, k).value);
    }
    NoKeyKept(init, x, k);
  }

  /** An entry with another key does not change the last value of `k`. */
  lemma LastValueKept(init: seq<(string, string)>, x: (string, string), k: string, v: string)
    requires IsLastValue(init, k, v) && x.0 != k
    ensures IsLastValue(init + [x], k, v)
  {
    var es := init + [x];
    var i :| 0 <= i < |init| && init[i] == (k, v) && forall j :: i < j < |init| ==> init[j].0 != k;
    assert forall j :: 0 <= j < |init| ==> es[j] == init[j];
    assert es[i] == (k, v);
  }

  /** An entry with another key does not add the key `k`. */
  lemma NoKeyKept(init: seq<(string, string)>, x: (string, string), k: string)
    requires x.0 != k
    ensures (forall i :: 0 <= i < |init| ==> init[i].0 != k) <==>
      (forall i :: 0 <= i < |init + [x]| ==> (init + [x])[i].0 != k)
  {
    var es := init + [x];
    assert forall j :: 0 <= j < |init| ==> es[j] == init[j];
  }

  /** `dict(kv.split('=') for kv in pairs)`: `ValueError` when some pair does
      not split into exactly two parts, otherwise a map in which later pairs
      override earlier ones. */
  function ParamMap(pairs: seq<string>): (r: Result<map<string, string>, Error>)
    ensures r.Ok? <==> forall i :: 0 <= i < |pairs| ==> WellFormedPair(pairs[i])
    ensures r.Err? ==> r.error == ValueError
  {
    if pairs == [] then Ok(map[])
    else
      var init := pairs[..|pairs| - 1];
      var last := pairs[|pairs| - 1];
      assert forall i :: 0 <= i < |init| ==> init[i] == pairs[i];
      match ParamMap(init)
      case Err(e) => Err(e)
      case Ok(m) => if WellFormedPair(last) then Ok(m[Key(last) := Value(last)]) else Err(ValueError)
  }

  /** Looking up `k` in the dict gives the value of the last pair with key
      `k`, and fails exactly when no pair has that key. */
  lemma {:induction false} ParamMapLookup(pairs: seq<string>, k: string)
    requires ParamMap(pairs).Ok?
    ensures k in ParamMap(pairs).value <==> LastValueOf(Entries(pairs), k).Some?
    ensures k in ParamMap(pairs).value ==> ParamMap(pairs).value[k] == LastValueOf(Entries(pairs), k).value
  {
    if pairs != [] {
      var init := pairs[..|pairs| - 1];
      assert Entries(pairs)[..|pairs| - 1] == Entries(init);
      ParamMapLookup(init, k);
    }
  }

  /** `gs_get_profile_id` on the query of a URL. */
  function ProfileId(query: string): Result<string, Error> {
    match ParamMap(Split(query, '&'))
    case Err(e) => Err(e)
    case Ok(params) => if "user" in params then Ok(params["user"]) else Err(KeyError("user"))
  }

  predicate AllWellFormed(pairs: seq<string>) {
    forall i :: 0 <= i < |pairs| ==> WellFormedPair(pairs[i])
  }

  /** The key is the value of the last `user` pair, wherever it stands
      among the pairs; the lookup fails with `ValueError` when some
      `&`-separated pair does not split into exactly two parts on `=`, and
      with `KeyError('user')` when every pair does but none has the key
      `user`. */
  lemma ProfileIdMeans(query: string)
    ensures ProfileId(query).Ok? <==>
      AllWellFormed(Split(query, '&')) && exists i :: 0 <= i < |Entries(Split(query, '&'))| && Entries(Split(query, '&'))[i].0 == "user"
    ensures ProfileId(query).Ok? ==> IsLastValue(Entries(Split(query, '&')), "user", ProfileId(query).value)
    ensures ProfileId(query).Err? && AllWellFormed(Split(query, '&')) ==> ProfileId(query).error == KeyError("user")
    ensures ProfileId(query).Err? && !AllWellFormed(Split(query, '&')) ==> ProfileId(query).error == ValueError
  {
    var pairs := Split(query, '&');
    var es := Entries(pairs);
    LastValueOfMeans(es, "user");
    assert ParamMap(pairs).Ok? <==> AllWellFormed(pairs);
    assert LastValueOf(es, "user").Some? <==> exists i :: 0 <= i < |es| && es[i].0 == "user";
    if ParamMap(pairs).Ok? {
      ParamMapLookup(pairs, "user");
      assert ("user" in ParamMap(pairs).value) <==> LastValueOf(es, "user").Some?;
    }
  }

  /** The identity key of a profile URL. */
  function ProfileIdOf(url: string): Result<string, Error> {
    ProfileId(QueryOf(url))
  }

  /** A key or value that can stand in a query as written: no `&`, no `=`. */
  predicate Plain(s: string) {
    '&' !in s && '=' !in s
  }

  function PairText(e: (string, string)): string {
    e.0 + "=" + e.1
  }

  function PairTexts(es: seq<(string, string)>): (texts: seq<string>)
    ensures |texts| == |es|
    ensures forall i :: 0 <= i < |es| ==> texts[i] == PairText(es[i])
  {
    if es == [] then [] else PairTexts(es[..|es| - 1]) + [PairText(es[|es| - 1])]
  }

  /** The query `k1=v1&k2=v2&...` of a sequence of parameters. */
  function EncodeQuery(es: seq<(string, string)>): string
    requires |es| >= 1
  {
    Join(PairTexts(es), '&')
  }

  lemma PairTextSplits(e: (string, string))
    requires Plain(e.0) && Plain(e.1)
    ensures Split(PairText(e), '=') == [e.0, e.1]
    ensures '&' !in PairText(e)
  {
    assert [e.0, e.1][1..] == [e.1];
    assert Join([e.0, e.1], '=') == PairText(e);
    SplitJoin([e.0, e.1], '=');
  }

  /** The pairs of an encoded query are the texts of its parameters. */
  lemma EncodedPairs(es: seq<(string, string)>)
    requires |es| >= 1
    requires forall i :: 0 <= i < |es| ==> Plain(es[i].0) && Plain(es[i].1)
    ensures Split(EncodeQuery(es), '&') == PairTexts(es)
  {
    var texts := PairTexts(es);
    forall i | 0 <= i < |texts| ensures '&' !in texts[i] {
      PairTextSplits(es[i]);
    }
    SplitJoin(texts, '&');
  }

  /** Each text of a parameter reads back as that parameter. */
  lemma PairTextsRead(es: seq<(string, string)>)
    requires forall i :: 0 <= i < |es| ==> Plain(es[i].0) && Plain(es[i].1)
    ensures AllWellFormed(PairTexts(es)) && Entries(PairTexts(es)) == es
  {
    var texts := PairTexts(es);
    forall i | 0 <= i < |es|
      ensures WellFormedPair(texts[i]) && Entries(texts)[i] == es[i]
    {
      PairTextRead(es[i], texts[i]);
    }
  }

  lemma PairTextRead(e: (string, string), text: string)
    requires Plain(e.0) && Plain(e.1) && text == PairText(e)
    ensures WellFormedPair(text) && (Key(text), Value(text)) == e
  {
    PairTextSplits(e);
  }

  /** Decoding an encoded query: for parameters whose keys and values hold
      no `&` or `=`, the key of `k1=v1&...&kn=vn` is the value of the last
      `user` parameter, and `KeyError('user')` when there is none. */
  lemma ProfileIdOfEncoded(es: seq<(string, string)>)
    requires |es| >= 1
    requires forall i :: 0 <= i < |es| ==> Plain(es[i].0) && Plain(es[i].1)
    ensures ProfileId(EncodeQuery(es)) == match LastValueOf(es, "user") case Some(v) => Ok(v) case None => Err(KeyError("user"))
  {
    EncodedPairs(es);
    PairTextsRead(es);
    ParamMapLookup(PairTexts(es), "user");
  }

  /** The identity key does not depend on where the `user` parameter stands
      among the others: `hl=en&user=ABC123&foo=bar` gives the key `ABC123`. */
  lemma ProfileIdAmongOthers()
    ensures ProfileId(EncodeQuery([("hl", "en"), ("user", "ABC123"), ("foo", "bar")])) == Ok("ABC123")
  {
    var es := [("hl", "en"), ("user", "ABC123"), ("foo", "bar")];
    assert LastValueOf(es, "user") == Some("ABC123") by {
      assert es[..2] == [("hl", "en"), ("user", "ABC123")];
    }
    ProfileIdOfEncoded(es);
  }

  /** `user=ABC123` alone gives the key `ABC123`. */
  lemma ProfileIdAlone()
    ensures ProfileId(EncodeQuery([("user", "ABC123")])) == Ok("ABC123")
  {
    ProfileIdOfEncoded([("user", "ABC123")]);
  }

  /** A query without a `user` parameter fails with `KeyError('user')`. */
  lemma ProfileIdMissing()
    ensures ProfileId(EncodeQuery([("hl", "en")])) == Err(KeyError("user"))
  {
    ProfileIdOfEncoded([("hl", "en")]);
  }
}
