/** City discovery through GeoNames: the configuration check, the shaping of a search response
    into a list of city names, and the rule that every failure becomes an empty list. The HTTP
    call itself is an input: the response it produced, or the fact that it failed. */
module CityClient {
  import opened Wrappers
  import opened JavaText

  datatype GeoName = GeoName(name: Option<string>, population: Option<int>, countryCode: Option<string>)

  datatype GeoNamesResponse = GeoNamesResponse(geonames: Option<seq<GeoName>>, totalResultsCount: Option<int>)

  /** What the search call produced: an error signal, a response that completed without a body
      (bodyToMono then emits nothing), or a body. */
  datatype GeoNamesFetch = FetchFailed | EmptyBody | Fetched(body: GeoNamesResponse)

  /** A username is configured when it is present and not blank. */
  predicate IsConfigured(username: Option<string>) {
    username.Some? && !IsBlank(username.value)
  }

  /** A name the filter keeps: present and not blank. */
  predicate Kept(g: GeoName) {
    g.name.Some? && !IsBlank(g.name.value)
  }

  /** The names of the kept entries, in response order. */
  function Names(gs: seq<GeoName>): (r: seq<string>)
    ensures |r| <= |gs|
    ensures forall s :: s in r ==> !IsBlank(s)
  {
    if gs == [] then []
    else Names(gs[..|gs| - 1]) + (if Kept(gs[|gs| - 1]) then [gs[|gs| - 1].name.value] else [])
  }

  /** extractCityNames: no body, no list, or an empty list gives no names. */
  function ExtractCityNames(resp: Option<GeoNamesResponse>): (r: seq<string>)
    ensures resp.None? || resp.value.geonames.None? ==> r == []
    ensures forall s :: s in r ==> !IsBlank(s)
  {
    if resp.None? || resp.value.geonames.None? || resp.value.geonames.value == [] then []
    else Names(resp.value.geonames.value)
  }

  /** getTopCitiesByCountryCode, as the value its Mono emits (None when it completes empty).
      Without a username no call is made and the list is empty; a failed call also gives the
      empty list; a call that returns no body emits nothing at all. */
  function TopCitiesByCountryCode(username: Option<string>, fetched: GeoNamesFetch): (r: Option<seq<string>>)
    ensures !IsConfigured(username) ==> r == Some([])
    ensures fetched.FetchFailed? ==> r == Some([])
    ensures r.None? <==> IsConfigured(username) && fetched.EmptyBody?
    ensures IsConfigured(username) && fetched.Fetched? ==> r == Some(ExtractCityNames(Some(fetched.body)))
  {
    if !IsConfigured(username) then Some([])
    else match fetched
      case FetchFailed => Some([])
      case EmptyBody => None
      case Fetched(body) => Some(ExtractCityNames(Some(body)))
  }

  /** Filtering distributes over concatenation, so the kept names keep response order. */
  lemma {:induction false} NamesConcat(a: seq<GeoName>, b: seq<GeoName>)
    ensures Names(a + b) == Names(a) + Names(b)
    decreases |b|
  {
    if b == [] {
      assert a + b == a;
    } else {
      var b' := b[..|b| - 1];
      assert (a + b)[..|a + b| - 1] == a + b';
      assert (a + b)[|a + b| - 1] == b[|b| - 1];
      NamesConcat(a, b');
    }
  }

  /** A name is in the result exactly when some entry carries it and it is not blank. */
  lemma {:induction false} NamesMembership(gs: seq<GeoName>, s: string)
    ensures s in Names(gs) <==> exists i :: 0 <= i < |gs| && gs[i].name == Some(s) && !IsBlank(s)
    decreases |gs|
  {
    if gs != [] {
      var init := gs[..|gs| - 1];
      var last := gs[|gs| - 1];
      NamesMembership(init, s);
      assert forall i :: 0 <= i < |init| ==> init[i] == gs[i];
      assert s in Names(gs) <==> s in Names(init) || (Kept(last) && last.name.value == s);
      if exists i :: 0 <= i < |gs| && gs[i].name == Some(s) && !IsBlank(s) {
        var i :| 0 <= i < |gs| && gs[i].name == Some(s) && !IsBlank(s);
        if i < |init| {
          assert init[i].name == Some(s);
        }
      }
    }
  }

  /** A list whose every entry has a usable name comes back as those names, one for one. */
  lemma {:induction false} AllKeptNames(gs: seq<GeoName>)
    requires forall i :: 0 <= i < |gs| ==> Kept(gs[i])
    ensures |Names(gs)| == |gs|
    ensures forall i :: 0 <= i < |gs| ==> Some(Names(gs)[i]) == gs[i].name
    decreases |gs|
  {
    if gs != [] {
      AllKeptNames(gs[..|gs| - 1]);
    }
  }

  /** Discovery never fails outward: whatever the call did, what it emits is a list of
      non-blank names, and that list is empty unless a username is configured and the call
      returned entries with usable names. */
  lemma DiscoveryTotal(username: Option<string>, fetched: GeoNamesFetch)
    ensures var r := TopCitiesByCountryCode(username, fetched);
      r.Some? ==> forall s :: s in r.value ==> !IsBlank(s)
    ensures var r := TopCitiesByCountryCode(username, fetched);
      r.Some? && r.value != [] ==>
        IsConfigured(username) && fetched.Fetched? && fetched.body.geonames.Some?
        && (exists i :: 0 <= i < |fetched.body.geonames.value| && Kept(fetched.body.geonames.value[i]))
  {
    var r := TopCitiesByCountryCode(username, fetched);
    if r.Some? && r.value != [] {
      var gs := fetched.body.geonames.value;
      NamesMembership(gs, r.value[0]);
      assert r.value[0] in Names(gs);
    }
  }
}
