/** The advisory service: building a stored advisory from the weather and country responses,
    syncing it into the store with its CREATED/UPDATED audit, the refresh flows over one city, a
    country and every stored city, the top-cities fallback chain, and the read-only queries.
    The store (a Mongo collection keyed by cityKey) is a map field of the Service class; the
    upstream services are an Upstream value saying what each call returns; the clock is the
    `now` parameter. */
module AdvisoryService {
  import opened Wrappers
  import opened JavaText
  import opened Model
  import CityValidator
  import TimeUtil
  import AdvisoryEngine
  import CityClient

  /** Why one city's sync produced no record: a failed weather or country call, or a response
      that buildAdvisory cannot read. */
  datatype SyncError = WeatherUnavailable | CountryUnavailable | MalformedResponse

  /** What the upstream services answer during one call: weather by city name, country by ISO
      code and by name, the GeoNames search by country code, and the configured GeoNames
      username. A name without an entry is a call that fails; a lookup by name may also
      complete without a body (None). */
  datatype Upstream = Upstream(
    weatherByCity: map<string, WeatherApiResponse>,
    countryByCode: map<string, CountryApiResponse>,
    countryByName: map<string, Option<CountryApiResponse>>,
    citySearch: map<string, CityClient.GeoNamesFetch>,
    geoNamesUser: Option<string>)

  /** The key syncCity and syncCityWithAudit file a city under: trim, then lower-case, with no
      validation. */
  function SyncKey(city: string): string {
    ToLower(Trim(city))
  }

  /** A key is already trimmed and lower-case, so it files under itself. */
  lemma SyncKeyIdempotent(city: string)
    ensures SyncKey(SyncKey(city)) == SyncKey(city)
  {
    TrimToLower(Trim(city));
    TrimIdempotent(city);
    ToLowerIdempotent(Trim(city));
  }

  /** On an accepted name, normalize and the sync key agree. */
  lemma NormalizeIsSyncKey(city: string)
    requires CityValidator.Normalize(Some(city)).Success?
    ensures CityValidator.Normalize(Some(city)).value == SyncKey(city)
  {
  }

  /** The responses buildAdvisory can read without an exception: a first weather entry, a first
      currency and a first capital, and sunrise and sunset inside java.time's range. */
  predicate Buildable(w: WeatherApiResponse, c: CountryApiResponse) {
    && |w.weather| > 0
    && TimeUtil.Renderable(w.sys.sunrise + w.timezone)
    && TimeUtil.Renderable(w.sys.sunset + w.timezone)
    && |c.currencies| > 0
    && c.capital.Some? && |c.capital.value| > 0
  }

  /** buildAdvisory: the record's fields, set one after another on a new document. */
  function BuildAdvisory(city: string, key: string, w: WeatherApiResponse, c: CountryApiResponse,
                         now: Instant): (adv: TravelAdvisory)
    requires Buildable(w, c)
    ensures adv.cityKey == key && adv.city == city
    ensures adv.weather.description == w.weather[0].description
    ensures adv.weather.sunrise == TimeUtil.ToReadable(w.sys.sunrise, w.timezone)
    ensures adv.weather.sunset == TimeUtil.ToReadable(w.sys.sunset, w.timezone)
    ensures adv.country.currency == c.currencies[0] && adv.country.capital == c.capital.value[0]
    ensures adv.syncedAt == now && adv.createdAt == now
  {
    var weather := WeatherInfo(
      w.weather[0].description, w.main.temp, w.main.feelsLike, w.main.humidity, w.windSpeed,
      TimeUtil.ToReadable(w.sys.sunrise, w.timezone), TimeUtil.ToReadable(w.sys.sunset, w.timezone));
    var country := CountryInfo(
      c.commonName, c.currencies[0], c.capital.value[0], c.timezones, c.languages, c.flagPng,
      c.population, c.region);
    TravelAdvisory(key, city, weather, country, now, now)
  }

  /** syncCity before its write: fetch the weather by the raw name, then the country by the
      weather's country code, then build the record under the sync key. */
  function SyncResult(city: string, up: Upstream, now: Instant): (r: Result<TravelAdvisory, SyncError>)
    ensures r.Success? ==> r.value.cityKey == SyncKey(city) && r.value.city == city
    ensures r.Success? ==> r.value.syncedAt == now && r.value.createdAt == now
    ensures r == Failure(WeatherUnavailable) <==> city !in up.weatherByCity
  {
    if city !in up.weatherByCity then Failure(WeatherUnavailable)
    else
      var w := up.weatherByCity[city];
      if w.sys.country !in up.countryByCode then Failure(CountryUnavailable)
      else
        var c := up.countryByCode[w.sys.country];
        if !Buildable(w, c) then Failure(MalformedResponse)
        else Success(BuildAdvisory(city, SyncKey(city), w, c, now))
  }

  /** A sync succeeds exactly when both calls answer with readable responses; the name itself is
      never validated. */
  lemma SyncSucceedsIff(city: string, up: Upstream, now: Instant)
    ensures SyncResult(city, up, now).Success? <==>
      city in up.weatherByCity
      && up.weatherByCity[city].sys.country in up.countryByCode
      && Buildable(up.weatherByCity[city], up.countryByCode[up.weatherByCity[city].sys.country])
  {
  }

  /** The single-city sync path accepts names that the validator rejects, such as "a1". */
  lemma AuditPathSkipsValidation(city: string, up: Upstream, now: Instant)
    requires CityValidator.Validate(Some(city)).Some?
    requires city in up.weatherByCity
    requires up.weatherByCity[city].sys.country in up.countryByCode
    requires Buildable(up.weatherByCity[city], up.countryByCode[up.weatherByCity[city].sys.country])
    ensures SyncResult(city, up, now).Success?
    ensures SyncResult(city, up, now).value.cityKey == SyncKey(city)
  {
  }

  /** The sync result with its audit: UPDATED when the key was present before the write,
      CREATED otherwise. */
  function AuditedSync(st: map<string, TravelAdvisory>, city: string, up: Upstream, now: Instant)
    : (r: Result<Audited, SyncError>)
    ensures r.Success? <==> SyncResult(city, up, now).Success?
    ensures r.Success? ==> r.value.advisory == SyncResult(city, up, now).value
    ensures r.Failure? ==> r.error == SyncResult(city, up, now).error
  {
    match SyncResult(city, up, now)
    case Failure(e) => Failure(e)
    case Success(a) => Success(Audited(a, if SyncKey(city) in st then Updated else Created))
  }

  /** The store after one sync: an upsert of the built record, or no change. */
  function StoreAfter(st: map<string, TravelAdvisory>, city: string, up: Upstream, now: Instant)
    : (r: map<string, TravelAdvisory>)
    ensures SyncResult(city, up, now).Success? ==> r == st[SyncKey(city) := SyncResult(city, up, now).value]
    ensures SyncResult(city, up, now).Failure? ==> r == st
  {
    match SyncResult(city, up, now)
    case Failure(_) => st
    case Success(a) => st[SyncKey(city) := a]
  }

  /** CREATED exactly when the key was absent from the store before the write. */
  lemma AuditClassification(st: map<string, TravelAdvisory>, city: string, up: Upstream, now: Instant)
    requires AuditedSync(st, city, up, now).Success?
    ensures AuditedSync(st, city, up, now).value.audit == Created <==> SyncKey(city) !in st
    ensures AuditedSync(st, city, up, now).value.audit == Updated <==> SyncKey(city) in st
  {
  }

  /** After a successful sync the key maps to the new record, nothing else changes, and no key
      disappears. */
  lemma UpsertByKey(st: map<string, TravelAdvisory>, city: string, up: Upstream, now: Instant)
    requires SyncResult(city, up, now).Success?
    ensures var st' := StoreAfter(st, city, up, now);
      && st'.Keys == st.Keys + {SyncKey(city)}
      && st'[SyncKey(city)] == SyncResult(city, up, now).value
      && forall k :: k in st && k != SyncKey(city) ==> st'[k] == st[k]
  {
  }

  /** Syncing the same city again is an update, and its createdAt is the new sync time, not the
      one the first write recorded. */
  lemma SecondSyncUpdates(st: map<string, TravelAdvisory>, city: string, up: Upstream, t1: Instant, t2: Instant)
    requires SyncResult(city, up, t1).Success?
    ensures var st1 := StoreAfter(st, city, up, t1);
      var r2 := AuditedSync(st1, city, up, t2);
      && r2.Success? && r2.value.audit == Updated
      && r2.value.advisory.createdAt == t2
      && StoreAfter(st1, city, up, t2)[SyncKey(city)].createdAt == t2
  {
  }

  /** As written, a re-sync loses the creation time: the first write records t1, and once the
      same city is synced again at a later t2 the stored createdAt is no longer t1. */
  lemma CreatedAtOverwritten(st: map<string, TravelAdvisory>, city: string, up: Upstream, t1: Instant, t2: Instant)
    requires SyncResult(city, up, t1).Success? && SyncKey(city) !in st && t1 != t2
    ensures StoreAfter(st, city, up, t1)[SyncKey(city)].createdAt == t1
    ensures StoreAfter(StoreAfter(st, city, up, t1), city, up, t2)[SyncKey(city)].createdAt != t1
  {
    SecondSyncUpdates(st, city, up, t1, t2);
  }

  /** The evidently intended write: a record replacing an existing one keeps that record's
      createdAt; every other field is the fresh sync's. */
  function CreateOnceResult(st: map<string, TravelAdvisory>, city: string, up: Upstream, now: Instant)
    : (r: Result<TravelAdvisory, SyncError>)
    ensures r.Success? <==> SyncResult(city, up, now).Success?
    ensures r.Success? ==> r.value.syncedAt == now
  {
    match SyncResult(city, up, now)
    case Failure(e) => Failure(e)
    case Success(a) =>
      if a.cityKey in st then Success(a.(createdAt := st[a.cityKey].createdAt)) else Success(a)
  }

  /** The store after the intended write. */
  function CreateOnceStore(st: map<string, TravelAdvisory>, city: string, up: Upstream, now: Instant)
    : (r: map<string, TravelAdvisory>)
    ensures r.Keys == StoreAfter(st, city, up, now).Keys
  {
    match CreateOnceResult(st, city, up, now)
    case Failure(_) => st
    case Success(a) => st[a.cityKey := a]
  }

  /** With the intended write, createdAt is set once: the first sync records t1, and every
      later sync refreshes the record but carries t1 forward. */
  lemma CreatedAtSetOnce(st: map<string, TravelAdvisory>, city: string, up: Upstream, t1: Instant, t2: Instant)
    requires SyncResult(city, up, t1).Success? && SyncKey(city) !in st
    ensures var st1 := CreateOnceStore(st, city, up, t1);
      && st1[SyncKey(city)] == SyncResult(city, up, t1).value
      && CreateOnceStore(st1, city, up, t2)[SyncKey(city)] == SyncResult(city, up, t2).value.(createdAt := t1)
  {
  }

  // ---------------------------------------------------------------------------------------
  // The stored sunrise and sunset can never drive the daylight rule.

  /** No toReadable text parses as "hh:mm a": it starts with a weekday letter. */
  lemma ReadableTimeNeverParses(epoch: int, timezoneOffset: int)
    requires TimeUtil.Renderable(epoch + timezoneOffset)
    ensures AdvisoryEngine.ParseClock(TimeUtil.ToReadable(epoch, timezoneOffset)).None?
  {
  }

  /** So the advice for a synced record never carries the short-daylight fragment, whatever the
      day length: it is the advice of the first eleven rules. */
  lemma SyncedAdviceLacksDaylight(city: string, up: Upstream, now: Instant)
    requires SyncResult(city, up, now).Success?
    ensures var w := SyncResult(city, up, now).value.weather;
      && AdvisoryEngine.ShortDaylight !in AdvisoryEngine.Fragments(w)
      && AdvisoryEngine.Fragments(w) == AdvisoryEngine.Select(AdvisoryEngine.Rules[..11], w)
  {
    var wr := up.weatherByCity[city];
    var w := SyncResult(city, up, now).value.weather;
    ReadableTimeNeverParses(wr.sys.sunrise, wr.timezone);
    AdvisoryEngine.DaylightFragment(w);
    AdvisoryEngine.UnparseableTimeSkipsDaylight(w);
  }

  /** The minute of the local day an epoch second falls in. */
  function LocalMinute(epoch: int, timezoneOffset: int): (m: int)
    ensures 0 <= m < 1440
  {
    (epoch + timezoneOffset) % TimeUtil.SecondsPerDay / 60
  }

  /** The intended sunrise/sunset text: only the "hh:mm a" clock of the local time, which is the
      tail of what toReadable prints. */
  function SunClockText(epoch: int, timezoneOffset: int): (r: string)
    ensures |r| == 8
    ensures TimeUtil.Renderable(epoch + timezoneOffset) ==>
      var full := TimeUtil.ToReadable(epoch, timezoneOffset); r == full[|full| - 8..]
  {
    TimeUtil.ClockText(LocalMinute(epoch, timezoneOffset))
  }

  /** The engine's parse reads back every clock text the formatter prints. */
  lemma ClockRoundTrip(m: int)
    requires 0 <= m < 1440
    ensures AdvisoryEngine.ParseClock(TimeUtil.ClockText(m)) == Some(m)
  {
    var r := TimeUtil.ClockText(m);
    var h := m / 60;
    var clockHour := if h % 12 == 0 then 12 else h % 12;
    assert r == Pad2(clockHour) + ":" + Pad2(m % 60) + " " + (if h < 12 then "AM" else "PM");
    assert r[0..2] == Pad2(clockHour) && r[3..5] == Pad2(m % 60);
    assert r[6] == (if h < 12 then 'A' else 'P') && r[7] == 'M';
    assert DigitValue(r[0]) * 10 + DigitValue(r[1]) == clockHour;
    assert DigitValue(r[3]) * 10 + DigitValue(r[4]) == m % 60;
    HalfDayArithmetic(m);
  }

  /** The converse: every text the parse accepts is what the formatter prints for the minute it
      yields, except that the parse also admits clock hour 00, which the formatter prints as 12. */
  lemma PrintOfParse(s: string, m: int)
    requires AdvisoryEngine.ParseClock(s) == Some(m)
    ensures 0 <= m < 1440
    ensures s[0] != '0' || s[1] != '0' ==> TimeUtil.ClockText(m) == s
    ensures s[0] == '0' && s[1] == '0' ==> TimeUtil.ClockText(m) == "12" + s[2..]
  {
    var t := TimeUtil.ClockText(m);
    ClockRoundTrip(m);
    TimeUtil.ClockFields(m);
    assert t[0] != '0' || t[1] != '0';
    if s[0] != '0' || s[1] != '0' {
      ParseInjective(s, t);
    } else {
      var s' := "12" + s[2..];
      ZeroHourReadsTwelve(s);
      ParseInjective(s', t);
    }
  }

  /** What an accepted text looks like, and the minute it is read as. */
  lemma ParseFields(s: string)
    requires AdvisoryEngine.ParseClock(s).Some?
    ensures |s| == 8 && s[2] == ':' && s[5] == ' '
    ensures IsDigit(s[0]) && IsDigit(s[1]) && IsDigit(s[3]) && IsDigit(s[4])
    ensures s[6..] == (if s[6] == 'P' then "PM" else "AM")
    ensures var ch := DigitValue(s[0]) * 10 + DigitValue(s[1]);
      var mi := DigitValue(s[3]) * 10 + DigitValue(s[4]);
      && ch <= 12 && mi <= 59
      && AdvisoryEngine.ParseClock(s).value == ((if s[6] == 'P' then 12 else 0) + ch % 12) * 60 + mi
  {
  }

  /** Writing 12 for a 00 clock hour does not change the reading. */
  lemma ZeroHourReadsTwelve(s: string)
    requires AdvisoryEngine.ParseClock(s).Some? && s[0] == '0' && s[1] == '0'
    ensures AdvisoryEngine.ParseClock("12" + s[2..]) == AdvisoryEngine.ParseClock(s)
  {
    ParseFields(s);
    var s' := "12" + s[2..];
    assert forall i :: 2 <= i < 8 ==> s'[i] == s[i];
    assert DigitValue(s'[0]) * 10 + DigitValue(s'[1]) == 12;
  }

  /** Apart from the 00 spelling of hour 12, distinct texts never read as the same minute. */
  lemma ParseInjective(s1: string, s2: string)
    requires AdvisoryEngine.ParseClock(s1).Some? && AdvisoryEngine.ParseClock(s2) == AdvisoryEngine.ParseClock(s1)
    requires s1[0] != '0' || s1[1] != '0'
    requires s2[0] != '0' || s2[1] != '0'
    ensures s1 == s2
  {
    ParseFields(s1);
    ParseFields(s2);
    var ch1 := DigitValue(s1[0]) * 10 + DigitValue(s1[1]);
    var ch2 := DigitValue(s2[0]) * 10 + DigitValue(s2[1]);
    var mi1 := DigitValue(s1[3]) * 10 + DigitValue(s1[4]);
    var mi2 := DigitValue(s2[3]) * 10 + DigitValue(s2[4]);
    NonZeroHour(s1[0], s1[1]);
    NonZeroHour(s2[0], s2[1]);
    FieldsInjective(ch1, mi1, s1[6] == 'P', ch2, mi2, s2[6] == 'P');
    DigitsInjective(s1[0], s1[1], s2[0], s2[1]);
    DigitsInjective(s1[3], s1[4], s2[3], s2[4]);
    assert s1[6..] == s2[6..];
    assert s1 == s1[..6] + s1[6..] && s2 == s2[..6] + s2[6..];
  }

  /** A two-digit field is zero only when both digits are. */
  lemma NonZeroHour(a: char, b: char)
    requires IsDigit(a) && IsDigit(b) && (a != '0' || b != '0')
    ensures DigitValue(a) * 10 + DigitValue(b) != 0
  {
  }

  /** Two-digit fields are read one to one. */
  lemma DigitsInjective(a1: char, b1: char, a2: char, b2: char)
    requires IsDigit(a1) && IsDigit(b1) && IsDigit(a2) && IsDigit(b2)
    requires DigitValue(a1) * 10 + DigitValue(b1) == DigitValue(a2) * 10 + DigitValue(b2)
    ensures a1 == a2 && b1 == b2
  {
    assert DigitValue(a1) == DigitValue(a2);
  }

  /** The minute of the day determines the clock hour 1..12, the minute and the marker. */
  lemma FieldsInjective(ch1: int, mi1: int, pm1: bool, ch2: int, mi2: int, pm2: bool)
    requires 1 <= ch1 <= 12 && 0 <= mi1 <= 59 && 1 <= ch2 <= 12 && 0 <= mi2 <= 59
    requires ((if pm1 then 12 else 0) + ch1 % 12) * 60 + mi1 == ((if pm2 then 12 else 0) + ch2 % 12) * 60 + mi2
    ensures ch1 == ch2 && mi1 == mi2 && pm1 == pm2
  {
    var h1 := (if pm1 then 12 else 0) + ch1 % 12;
    var h2 := (if pm2 then 12 else 0) + ch2 % 12;
    assert h1 == h2 && mi1 == mi2;
  }

  /** A 00 clock hour reads like 12. */
  lemma ZeroHourParses(s: string, m: int)
    requires 0 <= m < 1440
    requires |s| == 8 && s[..2] == "00" && "12" + s[2..] == TimeUtil.ClockText(m)
    ensures AdvisoryEngine.ParseClock(s) == Some(m)
  {
    var t := TimeUtil.ClockText(m);
    ClockRoundTrip(m);
    assert s[0] == '0' && s[1] == '0';
    assert forall i :: 2 <= i < 8 ==> s[i] == t[i];
  }

  /** The language of the parse, pinned down: exactly the formatter's texts, and their 00 variants. */
  lemma ClockLanguage(s: string, m: int)
    requires 0 <= m < 1440
    ensures AdvisoryEngine.ParseClock(s) == Some(m) <==>
      s == TimeUtil.ClockText(m) || (|s| == 8 && s[..2] == "00" && "12" + s[2..] == TimeUtil.ClockText(m))
  {
    ClockRoundTrip(m);
    if |s| == 8 && s[..2] == "00" && "12" + s[2..] == TimeUtil.ClockText(m) {
      ZeroHourParses(s, m);
    }
    if AdvisoryEngine.ParseClock(s) == Some(m) {
      PrintOfParse(s, m);
      if s[0] == '0' && s[1] == '0' {
        assert s[..2] == "00";
      }
    }
  }

  /** Twelve-hour clock arithmetic: the half of the day, plus the clock hour taken modulo 12,
      plus the minute, gives back the minute of the day. */
  lemma HalfDayArithmetic(m: int)
    requires 0 <= m < 1440
    ensures var h := m / 60;
      var clockHour := if h % 12 == 0 then 12 else h % 12;
      ((if h < 12 then 0 else 12) + clockHour % 12) * 60 + m % 60 == m
  {
    var h := m / 60;
    assert 0 <= h < 24;
    assert (if h < 12 then 0 else 12) + h % 12 == h;
  }

  /** The weather record with the intended sunrise and sunset text. */
  function CorrectedWeather(w: WeatherApiResponse): (r: WeatherInfo)
    requires |w.weather| > 0
    ensures AdvisoryEngine.ParseClock(r.sunrise) == Some(LocalMinute(w.sys.sunrise, w.timezone))
    ensures AdvisoryEngine.ParseClock(r.sunset) == Some(LocalMinute(w.sys.sunset, w.timezone))
  {
    ClockRoundTrip(LocalMinute(w.sys.sunrise, w.timezone));
    ClockRoundTrip(LocalMinute(w.sys.sunset, w.timezone));
    WeatherInfo(
      w.weather[0].description, w.main.temp, w.main.feelsLike, w.main.humidity, w.windSpeed,
      SunClockText(w.sys.sunrise, w.timezone), SunClockText(w.sys.sunset, w.timezone))
  }

  /** With the intended text the daylight rule works as designed: the fragment appears exactly
      when the local sunset minute is less than 600 minutes after the local sunrise minute. */
  lemma CorrectedDaylight(w: WeatherApiResponse)
    requires |w.weather| > 0
    ensures AdvisoryEngine.ShortDaylight in AdvisoryEngine.Fragments(CorrectedWeather(w)) <==>
      LocalMinute(w.sys.sunset, w.timezone) - LocalMinute(w.sys.sunrise, w.timezone) < 600
  {
    AdvisoryEngine.DaylightFragment(CorrectedWeather(w));
  }

  // ---------------------------------------------------------------------------------------
  // Multi-city syncs, run one city after another; a city whose sync fails is skipped.

  /** What syncing each city in turn produces, before any write. */
  function Outcomes(cities: seq<string>, up: Upstream, now: Instant): (r: seq<Result<TravelAdvisory, SyncError>>)
    ensures |r| == |cities|
    ensures forall i :: 0 <= i < |cities| ==> r[i] == SyncResult(cities[i], up, now)
  {
    seq(|cities|, i requires 0 <= i < |cities| => SyncResult(cities[i], up, now))
  }

  /** The store and the audited results after writing the outcomes in order: each record is
      upserted under its key and reported with that key's audit; failures leave no trace. */
  function Run(st: map<string, TravelAdvisory>, outs: seq<Result<TravelAdvisory, SyncError>>)
    : (r: (map<string, TravelAdvisory>, seq<Audited>))
    ensures |r.1| <= |outs|
    decreases |outs|
  {
    if outs == [] then (st, [])
    else
      var p := Run(st, outs[..|outs| - 1]);
      match outs[|outs| - 1]
      case Failure(_) => p
      case Success(a) =>
        (p.0[a.cityKey := a], p.1 + [Audited(a, if a.cityKey in p.0 then Updated else Created)])
  }

  /** One step of a run is one syncCityWithAudit. */
  lemma RunStep(st: map<string, TravelAdvisory>, cities: seq<string>, i: nat, up: Upstream, now: Instant)
    requires i < |cities|
    ensures var o := Outcomes(cities, up, now);
      var p := Run(st, o[..i]);
      var a := AuditedSync(p.0, cities[i], up, now);
      Run(st, o[..i + 1]) == (StoreAfter(p.0, cities[i], up, now), if a.Success? then p.1 + [a.value] else p.1)
  {
    var o := Outcomes(cities, up, now);
    assert o[..i + 1][..i] == o[..i];
    assert o[..i + 1][i] == SyncResult(cities[i], up, now);
  }

  /** The keys after a run: the old keys and the key of every record written. */
  lemma {:induction false} RunKeys(st: map<string, TravelAdvisory>, outs: seq<Result<TravelAdvisory, SyncError>>)
    ensures forall k :: k in Run(st, outs).0 <==>
      k in st || exists i :: 0 <= i < |outs| && outs[i].Success? && outs[i].value.cityKey == k
    decreases |outs|
  {
    if outs != [] {
      var init := outs[..|outs| - 1];
      RunKeys(st, init);
      assert forall i :: 0 <= i < |init| ==> init[i] == outs[i];
    }
  }

  /** No two written records share a key. */
  predicate DistinctWrites(outs: seq<Result<TravelAdvisory, SyncError>>) {
    forall i, j :: 0 <= i < j < |outs| && outs[i].Success? && outs[j].Success? ==>
      outs[i].value.cityKey != outs[j].value.cityKey
  }

  /** What a run reports: only records that were written, each with the audit its key had in
      the store before the run, each held by the final store, no key twice, and every written
      record reported. */
  predicate Reports(st: map<string, TravelAdvisory>, outs: seq<Result<TravelAdvisory, SyncError>>,
                    r: (map<string, TravelAdvisory>, seq<Audited>))
  {
    && (forall a :: a in r.1 ==> Success(a.advisory) in outs)
    && (forall a :: a in r.1 ==> (a.audit == Created <==> a.advisory.cityKey !in st))
    && (forall a :: a in r.1 ==> a.advisory.cityKey in r.0 && r.0[a.advisory.cityKey] == a.advisory)
    && (forall i, j :: 0 <= i < j < |r.1| ==> r.1[i].advisory.cityKey != r.1[j].advisory.cityKey)
    && (forall i :: 0 <= i < |outs| && outs[i].Success? ==>
          Audited(outs[i].value, if outs[i].value.cityKey in st then Updated else Created) in r.1)
  }

  /** When no two records share a key, the run reports its writes faithfully. */
  lemma {:induction false} RunReports(st: map<string, TravelAdvisory>, outs: seq<Result<TravelAdvisory, SyncError>>)
    requires DistinctWrites(outs)
    ensures Reports(st, outs, Run(st, outs))
    decreases |outs|
  {
    if outs != [] {
      var init := outs[..|outs| - 1];
      SplitLast(outs);
      assert forall i :: 0 <= i < |init| ==> init[i] == outs[i];
      assert DistinctWrites(init);
      RunReports(st, init);
      RunKeys(st, init);
      match outs[|outs| - 1]
      case Failure(_) =>
        assert Run(st, outs) == Run(st, init);
      case Success(x) =>
        ReportsSnoc(st, init, x);
    }
  }

  lemma SplitLast<T>(s: seq<T>)
    requires s != []
    ensures s == s[..|s| - 1] + [s[|s| - 1]]
  {
  }

  /** The inductive step of RunReports: writing one record under a fresh key. */
  lemma ReportsSnoc(st: map<string, TravelAdvisory>, init: seq<Result<TravelAdvisory, SyncError>>, x: TravelAdvisory)
    requires DistinctWrites(init + [Success(x)])
    requires Reports(st, init, Run(st, init))
    requires forall k :: k in Run(st, init).0 <==>
      k in st || exists i :: 0 <= i < |init| && init[i].Success? && init[i].value.cityKey == k
    ensures Reports(st, init + [Success(x)], Run(st, init + [Success(x)]))
  {
    var outs := init + [Success(x)];
    assert outs[..|outs| - 1] == init;
    var p := Run(st, init);
    assert forall i :: 0 <= i < |init| ==> outs[i] == init[i];
    assert x.cityKey in p.0 <==> x.cityKey in st by {
      forall i | 0 <= i < |init| && init[i].Success? ensures init[i].value.cityKey != x.cityKey {
        assert outs[i].Success? && outs[|outs| - 1].Success?;
      }
    }
    forall a | a in p.1 ensures a.advisory.cityKey != x.cityKey {
      var i :| 0 <= i < |init| && init[i] == Success(a.advisory);
      assert outs[i].Success? && outs[|outs| - 1].Success?;
    }
    ReportsAppend(st, init, x, p);
  }

  /** Reports survives writing a record whose key no earlier report carries. */
  lemma ReportsAppend(st: map<string, TravelAdvisory>, init: seq<Result<TravelAdvisory, SyncError>>, x: TravelAdvisory,
                      p: (map<string, TravelAdvisory>, seq<Audited>))
    requires Reports(st, init, p)
    requires x.cityKey in p.0 <==> x.cityKey in st
    requires forall a :: a in p.1 ==> a.advisory.cityKey != x.cityKey
    ensures Reports(st, init + [Success(x)],
      (p.0[x.cityKey := x], p.1 + [Audited(x, if x.cityKey in p.0 then Updated else Created)]))
  {
    var outs := init + [Success(x)];
    var y := Audited(x, if x.cityKey in p.0 then Updated else Created);
    var r := (p.0[x.cityKey := x], p.1 + [y]);
    assert forall i :: 0 <= i < |init| ==> outs[i] == init[i];
    forall a | a in r.1 ensures Success(a.advisory) in outs {
      if a != y {
        assert a in p.1;
        var i :| 0 <= i < |init| && init[i] == Success(a.advisory);
        assert outs[i] == init[i];
      }
    }
    forall i, j | 0 <= i < j < |r.1| ensures r.1[i].advisory.cityKey != r.1[j].advisory.cityKey {
      if j == |p.1| {
        assert r.1[i] == p.1[i] && p.1[i] in p.1;
      } else {
        assert r.1[i] == p.1[i] && r.1[j] == p.1[j];
      }
    }
    forall i | 0 <= i < |outs| && outs[i].Success?
      ensures Audited(outs[i].value, if outs[i].value.cityKey in st then Updated else Created) in r.1
    {
      if i < |init| {
        assert outs[i] == init[i];
      }
    }
  }

  /** Cities filed under pairwise different keys. */
  predicate DistinctKeys(cities: seq<string>) {
    forall i, j :: 0 <= i < j < |cities| ==> SyncKey(cities[i]) != SyncKey(cities[j])
  }

  /** Cities with different keys write records with different keys. */
  lemma DistinctCitiesDistinctWrites(cities: seq<string>, up: Upstream, now: Instant)
    requires DistinctKeys(cities)
    ensures DistinctWrites(Outcomes(cities, up, now))
  {
  }

  /** Writing records under distinct keys that are all stored already adds no key, reports
      every record as an update exactly once, and reports every record written. */
  lemma RunOverStoredKeys(st: map<string, TravelAdvisory>, keys: seq<string>, outs: seq<Result<TravelAdvisory, SyncError>>)
    requires |outs| == |keys|
    requires forall i, j :: 0 <= i < j < |keys| ==> keys[i] != keys[j]
    requires forall k :: k in keys ==> k in st
    requires forall i :: 0 <= i < |outs| && outs[i].Success? ==> outs[i].value.cityKey == keys[i]
    ensures var r := Run(st, outs);
      && r.0.Keys == st.Keys
      && (forall a :: a in r.1 ==> a.audit == Updated && a.advisory.cityKey in keys)
      && (forall i, j :: 0 <= i < j < |r.1| ==> r.1[i].advisory.cityKey != r.1[j].advisory.cityKey)
      && (forall i :: 0 <= i < |outs| && outs[i].Success? ==> Audited(outs[i].value, Updated) in r.1)
  {
    var r := Run(st, outs);
    RunReports(st, outs);
    RunKeys(st, outs);
    forall i | 0 <= i < |outs| && outs[i].Success? ensures outs[i].value.cityKey in st {
      assert keys[i] in keys;
    }
    forall a | a in r.1 ensures a.audit == Updated && a.advisory.cityKey in keys {
      var i :| 0 <= i < |outs| && outs[i] == Success(a.advisory);
      assert a.advisory.cityKey == keys[i];
    }
  }

  /** Syncing each key of the global refresh once updates every stored key whose sync
      succeeds, reports each of those once as an update, and adds no key. */
  lemma RunOverAllKeys(st: map<string, TravelAdvisory>, keys: seq<string>, up: Upstream, now: Instant)
    requires forall k :: k in keys <==> k in AllStoredKeys(st)
    requires forall k :: k in keys ==> k in st && SyncKey(k) == k
    requires forall i, j :: 0 <= i < j < |keys| ==> keys[i] != keys[j]
    ensures var r := Run(st, Outcomes(keys, up, now));
      && r.0.Keys == st.Keys
      && (forall a :: a in r.1 ==> a.advisory.cityKey in AllStoredKeys(st) && a.audit == Updated)
      && (forall i, j :: 0 <= i < j < |r.1| ==> r.1[i].advisory.cityKey != r.1[j].advisory.cityKey)
      && (forall a :: a in r.1 ==> SyncResult(a.advisory.cityKey, up, now) == Success(a.advisory))
      && (forall k :: k in AllStoredKeys(st) && SyncResult(k, up, now).Success? ==>
            Audited(SyncResult(k, up, now).value, Updated) in r.1)
      && Resynced(st, r.0, AllStoredKeys(st), up, now)
  {
    var o := Outcomes(keys, up, now);
    RunOverStoredKeys(st, keys, o);
    forall k | k in AllStoredKeys(st) && SyncResult(k, up, now).Success?
      ensures Audited(SyncResult(k, up, now).value, Updated) in Run(st, o).1
    {
      var i :| 0 <= i < |keys| && keys[i] == k;
      assert o[i] == SyncResult(keys[i], up, now);
    }
    forall i | 0 <= i < |keys| ensures SyncKey(keys[i]) == keys[i] {
      assert keys[i] in keys;
    }
    SelfKeyedDistinct(keys);
    RunOnlySuccesses(st, keys, up, now);
    RunResyncs(st, keys, AllStoredKeys(st), up, now);
  }

  /** Syncing distinct members of the country-refresh set reports each written record once,
      under a member of the set, with the audit its key had before the run. */
  lemma RunOverUnion(st: map<string, TravelAdvisory>, order: seq<string>, stored: set<string>,
                     discovered: seq<string>, up: Upstream, now: Instant)
    requires forall s :: s in stored ==> SyncKey(s) == s
    requires forall k :: k in order ==> InUnion(stored, discovered, k)
    requires forall i, j :: 0 <= i < j < |order| ==> order[i] != order[j]
    ensures var r := Run(st, Outcomes(order, up, now));
      && (forall a :: a in r.1 ==> InUnion(stored, discovered, a.advisory.cityKey))
      && (forall a :: a in r.1 ==> (a.audit == Created <==> a.advisory.cityKey !in st))
      && (forall a :: a in r.1 ==> SyncResult(a.advisory.cityKey, up, now) == Success(a.advisory))
      && (forall i, j :: 0 <= i < j < |r.1| ==> r.1[i].advisory.cityKey != r.1[j].advisory.cityKey)
      && (forall k :: k in order && SyncResult(k, up, now).Success? ==>
            Audited(SyncResult(k, up, now).value, if k in st then Updated else Created) in r.1)
  {
    forall i | 0 <= i < |order| ensures SyncKey(order[i]) == order[i] {
      UnionMembersAreKeys(stored, discovered, order[i]);
    }
    SelfKeyedDistinct(order);
    RunCovers(st, order, up, now);
    RunOnlySuccesses(st, order, up, now);
    var o := Outcomes(order, up, now);
    DistinctCitiesDistinctWrites(order, up, now);
    RunReports(st, o);
    forall a | a in Run(st, o).1 ensures InUnion(stored, discovered, a.advisory.cityKey) {
      var i :| 0 <= i < |o| && o[i] == Success(a.advisory);
      assert a.advisory.cityKey == order[i] && order[i] in order;
    }
  }

  /** Syncing distinct members of the country-refresh set, listed in some order, re-syncs
      exactly the members of the set. */
  lemma UnionResyncs(st: map<string, TravelAdvisory>, order: seq<string>, stored: set<string>,
                     discovered: seq<string>, ks: set<string>, up: Upstream, now: Instant)
    requires forall s :: s in stored ==> SyncKey(s) == s
    requires forall k :: k in order ==> InUnion(stored, discovered, k)
    requires forall i, j :: 0 <= i < j < |order| ==> order[i] != order[j]
    requires forall k :: k in ks <==> k in order
    ensures Resynced(st, Run(st, Outcomes(order, up, now)).0, ks, up, now)
  {
    forall i | 0 <= i < |order| ensures SyncKey(order[i]) == order[i] {
      UnionMembersAreKeys(stored, discovered, order[i]);
    }
    SelfKeyedDistinct(order);
    RunResyncs(st, order, ks, up, now);
  }

  /** When the cities are distinct keys that file under themselves, every city whose sync
      succeeds is reported, with the audit its key had before the run. */
  lemma RunCovers(st: map<string, TravelAdvisory>, cities: seq<string>, up: Upstream, now: Instant)
    requires forall i :: 0 <= i < |cities| ==> SyncKey(cities[i]) == cities[i]
    requires DistinctKeys(cities)
    ensures forall k :: k in cities && SyncResult(k, up, now).Success? ==>
      Audited(SyncResult(k, up, now).value, if k in st then Updated else Created)
        in Run(st, Outcomes(cities, up, now)).1
  {
    var o := Outcomes(cities, up, now);
    DistinctCitiesDistinctWrites(cities, up, now);
    RunReports(st, o);
    forall k | k in cities && SyncResult(k, up, now).Success?
      ensures Audited(SyncResult(k, up, now).value, if k in st then Updated else Created) in Run(st, o).1
    {
      var i :| 0 <= i < |cities| && cities[i] == k;
      assert o[i] == SyncResult(k, up, now);
    }
  }

  /** The converse of RunCovers: a run over distinct self-keyed cities reports nothing but
      successful syncs, each carrying the record its key's sync produced. */
  lemma RunOnlySuccesses(st: map<string, TravelAdvisory>, cities: seq<string>, up: Upstream, now: Instant)
    requires forall i :: 0 <= i < |cities| ==> SyncKey(cities[i]) == cities[i]
    requires DistinctKeys(cities)
    ensures forall a :: a in Run(st, Outcomes(cities, up, now)).1 ==>
      SyncResult(a.advisory.cityKey, up, now) == Success(a.advisory)
  {
    var o := Outcomes(cities, up, now);
    DistinctCitiesDistinctWrites(cities, up, now);
    RunReports(st, o);
    forall a | a in Run(st, o).1 ensures SyncResult(a.advisory.cityKey, up, now) == Success(a.advisory) {
      var i :| 0 <= i < |o| && o[i] == Success(a.advisory);
      assert o[i] == SyncResult(cities[i], up, now);
    }
  }

  /** A key no record is written under keeps its record. */
  lemma {:induction false} RunUntouched(st: map<string, TravelAdvisory>, outs: seq<Result<TravelAdvisory, SyncError>>, k: string)
    requires k in st
    requires forall i :: 0 <= i < |outs| && outs[i].Success? ==> outs[i].value.cityKey != k
    ensures k in Run(st, outs).0 && Run(st, outs).0[k] == st[k]
    decreases |outs|
  {
    if outs != [] {
      var init := outs[..|outs| - 1];
      assert forall i :: 0 <= i < |init| ==> init[i] == outs[i];
      RunUntouched(st, init, k);
    }
  }

  /** The store after re-syncing the keys ks: each key whose sync succeeds holds its new record,
      every other key keeps its old one, and no other key appears. */
  ghost predicate Resynced(st: map<string, TravelAdvisory>, st2: map<string, TravelAdvisory>, ks: set<string>,
                     up: Upstream, now: Instant)
  {
    && (forall k :: k in st2 <==> k in st || (k in ks && SyncResult(k, up, now).Success?))
    && (forall k :: k in ks && SyncResult(k, up, now).Success? ==>
          k in st2 && st2[k] == SyncResult(k, up, now).value)
    && (forall k :: k in st && !(k in ks && SyncResult(k, up, now).Success?) ==>
          k in st2 && st2[k] == st[k])
  }

  /** Syncing distinct self-keyed cities one after another re-syncs exactly those keys. */
  lemma RunResyncs(st: map<string, TravelAdvisory>, cities: seq<string>, ks: set<string>, up: Upstream, now: Instant)
    requires forall i :: 0 <= i < |cities| ==> SyncKey(cities[i]) == cities[i]
    requires DistinctKeys(cities)
    requires forall k :: k in ks <==> k in cities
    ensures Resynced(st, Run(st, Outcomes(cities, up, now)).0, ks, up, now)
  {
    var o := Outcomes(cities, up, now);
    var r := Run(st, o);
    DistinctCitiesDistinctWrites(cities, up, now);
    RunReports(st, o);
    RunKeys(st, o);
    RunCovers(st, cities, up, now);
    forall k ensures k in r.0 <==> k in st || (k in ks && SyncResult(k, up, now).Success?) {
      if k in r.0 && k !in st {
        var i :| 0 <= i < |o| && o[i].Success? && o[i].value.cityKey == k;
        assert cities[i] == k && cities[i] in cities;
      }
    }
    forall k | k in st && !(k in ks && SyncResult(k, up, now).Success?) ensures k in r.0 && r.0[k] == st[k] {
      forall i | 0 <= i < |o| && o[i].Success? ensures o[i].value.cityKey != k {
        assert cities[i] in cities;
      }
      RunUntouched(st, o, k);
    }
    forall k | k in ks && SyncResult(k, up, now).Success?
      ensures k in r.0 && r.0[k] == SyncResult(k, up, now).value
    {
      var y := Audited(SyncResult(k, up, now).value, if k in st then Updated else Created);
      assert y in r.1;
    }
  }

  /** Stand-in for iterating a HashSet: each element once, in an order the model leaves open. */
  method Enumerate(s: set<string>) returns (order: seq<string>)
    ensures |order| == |s|
    ensures forall x :: x in order <==> x in s
    ensures forall i, j :: 0 <= i < j < |order| ==> order[i] != order[j]
  {
    order := [];
    var rest := s;
    while rest != {}
      invariant rest <= s
      invariant forall x :: x in order <==> x in s && x !in rest
      invariant forall i, j :: 0 <= i < j < |order| ==> order[i] != order[j]
      invariant |order| + |rest| == |s|
      decreases |rest|
    {
      var x :| x in rest;
      order := order + [x];
      rest := rest - {x};
    }
  }

  /** A member of the country-refresh set: a stored key, or the trimmed lower-case form of a
      discovered name that is not blank. Discovered names are not validated. */
  predicate InUnion(stored: set<string>, discovered: seq<string>, k: string) {
    k in stored || exists i :: 0 <= i < |discovered| && !IsBlank(discovered[i]) && SyncKey(discovered[i]) == k
  }

  /** buildUnionAndSync's set: start from the stored keys and add each usable discovered name. */
  method BuildUnion(stored: set<string>, discovered: seq<string>) returns (union: set<string>)
    ensures forall k :: k in union <==> InUnion(stored, discovered, k)
    ensures union == stored + DiscoveredKeys(discovered)
  {
    union := stored;
    for i := 0 to |discovered|
      invariant union == stored + DiscoveredKeys(discovered[..i])
    {
      assert discovered[..i + 1][..i] == discovered[..i];
      if !IsBlank(discovered[i]) {
        union := union + {SyncKey(discovered[i])};
      }
    }
    assert discovered[..|discovered|] == discovered;
    forall k ensures k in union <==> InUnion(stored, discovered, k) {
      DiscoveredKeysMembership(discovered, k);
    }
  }

  /** The keys of the usable discovered names, added in list order. */
  function DiscoveredKeys(discovered: seq<string>): set<string> {
    if discovered == [] then {}
    else
      var last := discovered[|discovered| - 1];
      DiscoveredKeys(discovered[..|discovered| - 1]) + (if IsBlank(last) then {} else {SyncKey(last)})
  }

  lemma {:induction false} DiscoveredKeysMembership(discovered: seq<string>, k: string)
    ensures k in DiscoveredKeys(discovered) <==>
      exists i :: 0 <= i < |discovered| && !IsBlank(discovered[i]) && SyncKey(discovered[i]) == k
    decreases |discovered|
  {
    if discovered != [] {
      var init := discovered[..|discovered| - 1];
      DiscoveredKeysMembership(init, k);
      assert forall i :: 0 <= i < |init| ==> init[i] == discovered[i];
    }
  }

  /** When the stored keys file under themselves, so does every member of the union; distinct
      members are therefore distinct keys, and no key is synced twice. */
  lemma UnionMembersAreKeys(stored: set<string>, discovered: seq<string>, k: string)
    requires forall s :: s in stored ==> SyncKey(s) == s
    requires InUnion(stored, discovered, k)
    ensures SyncKey(k) == k
  {
    if k !in stored {
      var i :| 0 <= i < |discovered| && !IsBlank(discovered[i]) && SyncKey(discovered[i]) == k;
      SyncKeyIdempotent(discovered[i]);
    }
  }

  /** Distinct names that each file under themselves are distinct keys. */
  lemma SelfKeyedDistinct(order: seq<string>)
    requires forall i :: 0 <= i < |order| ==> SyncKey(order[i]) == order[i]
    requires forall i, j :: 0 <= i < j < |order| ==> order[i] != order[j]
    ensures DistinctKeys(order)
  {
  }

  /** normalize applied to each listed record's city, keeping the first of each key, as the
      global refresh's map(normalize).distinct() does; a name that fails normalisation is
      skipped. */
  method DistinctCityKeys(st: map<string, TravelAdvisory>, order: seq<string>) returns (keys: seq<string>)
    requires forall i :: 0 <= i < |order| ==> order[i] in st
    ensures forall i, j :: 0 <= i < j < |keys| ==> keys[i] != keys[j]
    ensures forall k :: k in keys <==>
      exists i :: 0 <= i < |order| && CityValidator.Normalize(Some(st[order[i]].city)) == Success(k)
  {
    ghost var ns := seq(|order|, i requires 0 <= i < |order| => CityValidator.Normalize(Some(st[order[i]].city)));
    keys := [];
    for i := 0 to |order|
      invariant forall a, b :: 0 <= a < b < |keys| ==> keys[a] != keys[b]
      invariant forall k :: k in keys <==> k in Accepted(ns[..i])
    {
      AcceptedStep(ns, i);
      var n := CityValidator.Normalize(Some(st[order[i]].city));
      if n.Success? && n.value !in keys {
        keys := keys + [n.value];
      }
    }
    assert ns[..|order|] == ns;
    AcceptedCities(st, order, ns);
  }

  /** The accepted names of the outcomes of the listed records are their normalised cities. */
  lemma AcceptedCities(st: map<string, TravelAdvisory>, order: seq<string>,
                       ns: seq<Result<string, CityValidator.ValidationError>>)
    requires forall i :: 0 <= i < |order| ==> order[i] in st
    requires |ns| == |order|
    requires forall i :: 0 <= i < |order| ==> ns[i] == CityValidator.Normalize(Some(st[order[i]].city))
    ensures forall k :: k in Accepted(ns) <==>
      exists i :: 0 <= i < |order| && CityValidator.Normalize(Some(st[order[i]].city)) == Success(k)
  {
    forall k ensures k in Accepted(ns) <==>
      exists i :: 0 <= i < |order| && CityValidator.Normalize(Some(st[order[i]].city)) == Success(k)
    {
      AcceptedMembership(ns, k);
      if exists i :: 0 <= i < |ns| && ns[i] == Success(k) {
        var i :| 0 <= i < |ns| && ns[i] == Success(k);
        assert CityValidator.Normalize(Some(st[order[i]].city)) == Success(k);
      }
      if exists i :: 0 <= i < |order| && CityValidator.Normalize(Some(st[order[i]].city)) == Success(k) {
        var i :| 0 <= i < |order| && CityValidator.Normalize(Some(st[order[i]].city)) == Success(k);
        assert ns[i] == Success(k);
      }
    }
  }

  /** The names a list of normalisation outcomes accepted. */
  function Accepted(ns: seq<Result<string, CityValidator.ValidationError>>): set<string> {
    if ns == [] then {}
    else
      var last := ns[|ns| - 1];
      Accepted(ns[..|ns| - 1]) + (if last.Success? then {last.value} else {})
  }

  /** One more outcome adds its name when it was accepted. */
  lemma AcceptedStep(ns: seq<Result<string, CityValidator.ValidationError>>, i: nat)
    requires i < |ns|
    ensures Accepted(ns[..i + 1]) == Accepted(ns[..i]) + (if ns[i].Success? then {ns[i].value} else {})
  {
    assert ns[..i + 1][..i] == ns[..i];
  }

  lemma {:induction false} AcceptedMembership(ns: seq<Result<string, CityValidator.ValidationError>>, k: string)
    ensures k in Accepted(ns) <==> exists i :: 0 <= i < |ns| && ns[i] == Success(k)
    decreases |ns|
  {
    if ns != [] {
      var init := ns[..|ns| - 1];
      assert forall i :: 0 <= i < |init| ==> init[i] == ns[i];
      AcceptedMembership(init, k);
    }
  }

  /** The set of keys the global refresh syncs: the normalised city of every stored record that
      normalises. */
  function AllStoredKeys(st: map<string, TravelAdvisory>): (ks: set<string>)
    ensures forall k :: k in ks <==>
      exists a :: a in st.Values && CityValidator.Normalize(Some(a.city)) == Success(k)
  {
    set a | a in st.Values && CityValidator.Normalize(Some(a.city)).Success? :: CityValidator.Normalize(Some(a.city)).value
  }

  // ---------------------------------------------------------------------------------------
  // The top-cities fallback chain.

  /** safeCapitals: a missing capital list is the empty list. */
  function SafeCapitals(capitals: Option<seq<string>>): (r: seq<string>)
    ensures capitals.None? ==> r == []
    ensures capitals.Some? ==> r == capitals.value
  {
    match capitals
    case None => []
    case Some(cs) => cs
  }

  /** The GeoNames answer for a country code; a code without an answer is a failed call. */
  function CitySearch(up: Upstream, code: string): CityClient.GeoNamesFetch {
    if code in up.citySearch then up.citySearch[code] else CityClient.FetchFailed
  }

  /** fetchTopCitiesWithFallback, as the value its Mono emits (None when it completes empty):
      discovery by ISO code, falling back to the capitals when there is no usable code or
      discovery finds nothing. */
  function TopCitiesWithFallback(dto: CountryApiResponse, up: Upstream): (r: Option<seq<string>>)
    ensures dto.cca2.None? || IsBlank(dto.cca2.value) ==> r == Some(SafeCapitals(dto.capital))
  {
    var fallback := SafeCapitals(dto.capital);
    if dto.cca2.None? || IsBlank(dto.cca2.value) then Some(fallback)
    else
      match CityClient.TopCitiesByCountryCode(up.geoNamesUser, CitySearch(up, dto.cca2.value))
      case None => None
      case Some(found) => Some(if found == [] then fallback else found)
  }

  /** getTopCitiesForCountry: a failed country lookup gives the empty list; a lookup that
      completes without a country emits nothing. */
  function TopCitiesForCountry(name: string, up: Upstream): (r: Option<seq<string>>)
    ensures name !in up.countryByName ==> r == Some([])
    ensures name in up.countryByName && up.countryByName[name].None? ==> r.None?
    ensures name in up.countryByName && up.countryByName[name].Some? ==>
      r == TopCitiesWithFallback(up.countryByName[name].value, up)
  {
    if name !in up.countryByName then Some([])
    else match up.countryByName[name]
      case None => None
      case Some(dto) => TopCitiesWithFallback(dto, up)
  }

  /** The list is the capitals or a non-empty discovery list of non-blank names; it is empty
      only when the capitals are, and discovery wins whenever it finds anything. Nothing is
      emitted only when the code is usable and discovery itself emits nothing. */
  lemma FallbackChain(dto: CountryApiResponse, up: Upstream)
    ensures var r := TopCitiesWithFallback(dto, up);
      r.Some? ==>
        && (r.value == SafeCapitals(dto.capital) || (r.value != [] && forall s :: s in r.value ==> !IsBlank(s)))
        && (r.value == [] ==> SafeCapitals(dto.capital) == [])
    ensures TopCitiesWithFallback(dto, up).None? <==>
      dto.cca2.Some? && !IsBlank(dto.cca2.value)
      && CityClient.TopCitiesByCountryCode(up.geoNamesUser, CitySearch(up, dto.cca2.value)).None?
    ensures dto.cca2.Some? && !IsBlank(dto.cca2.value) ==>
      var found := CityClient.TopCitiesByCountryCode(up.geoNamesUser, CitySearch(up, dto.cca2.value));
      found.Some? && found.value != [] ==> TopCitiesWithFallback(dto, up) == found
  {
    if dto.cca2.Some? && !IsBlank(dto.cca2.value) {
      CityClient.DiscoveryTotal(up.geoNamesUser, CitySearch(up, dto.cca2.value));
    }
  }

  /** A country that is found and lists a capital yields at least one city whenever the chain
      emits a list. */
  lemma CapitalGuaranteesCity(name: string, up: Upstream)
    requires name in up.countryByName && up.countryByName[name].Some?
    requires up.countryByName[name].value.capital.Some? && up.countryByName[name].value.capital.value != []
    ensures TopCitiesForCountry(name, up).Some? ==> TopCitiesForCountry(name, up).value != []
  {
    FallbackChain(up.countryByName[name].value, up);
  }

  // ---------------------------------------------------------------------------------------
  // Read-only queries over the store's contents.

  /** The records whose country name equals the given one, ignoring case. */
  function CountryMatches(st: map<string, TravelAdvisory>, country: string): (r: set<TravelAdvisory>)
    ensures forall a :: a in r <==> a in st.Values && EqualsIgnoreCase(a.country.name, country)
  {
    set a | a in st.Values && EqualsIgnoreCase(a.country.name, country)
  }

  /** fetch: by normalised city key, else by country name ignoring case, else everything. An
      invalid city name is an error. */
  function Fetch(st: map<string, TravelAdvisory>, city: Option<string>, country: Option<string>)
    : (r: Result<set<TravelAdvisory>, CityValidator.ValidationError>)
    ensures city.Some? ==> (r.Failure? <==> CityValidator.Validate(city).Some?)
    ensures city.Some? && r.Failure? ==> r.error == CityValidator.Normalize(city).error
    ensures city.Some? && r.Success? ==> var k := CityValidator.Normalize(city).value;
      forall a :: a in r.value <==> k in st && a == st[k]
    ensures city.None? ==> r.Success?
    ensures city.None? && country.Some? ==> r.value == CountryMatches(st, country.value)
    ensures city.None? && country.None? ==> r.value == st.Values
  {
    if city.Some? then
      match CityValidator.Normalize(city)
      case Failure(e) => Failure(e)
      case Success(k) => Success(if k in st then {st[k]} else {})
    else if country.Some? then Success(CountryMatches(st, country.value))
    else Success(st.Values)
  }

  /** A country query is insensitive to the case of the name asked for. */
  lemma CountryQueryIgnoresCase(st: map<string, TravelAdvisory>, country: string)
    ensures Fetch(st, None, Some(ToLower(country))) == Fetch(st, None, Some(country))
  {
    forall a | a in st.Values ensures EqualsIgnoreCase(a.country.name, ToLower(country)) <==> EqualsIgnoreCase(a.country.name, country) {
      EqualsIgnoreCaseOfLower(a.country.name, country);
    }
    assert CountryMatches(st, ToLower(country)) == CountryMatches(st, country);
  }

  /** searchByTemp: both bounds inclusive. */
  function SearchByTemp(st: map<string, TravelAdvisory>, min: real, max: real): (r: set<TravelAdvisory>)
    ensures forall a :: a in r <==> a in st.Values && min <= a.weather.temperature <= max
  {
    set a | a in st.Values && min <= a.weather.temperature && a.weather.temperature <= max
  }

  /** The two bounds cut out a window: widening either one never loses a record, and an empty
      window finds nothing. */
  lemma SearchWindow(st: map<string, TravelAdvisory>, min: real, max: real, min': real, max': real)
    requires min' <= min && max <= max'
    ensures SearchByTemp(st, min, max) <= SearchByTemp(st, min', max')
    ensures max < min ==> SearchByTemp(st, min, max) == {}
  {
  }

  // ---------------------------------------------------------------------------------------
  // The service and its store.

  /** Which refresh flow a request selects: a city wins over a country, and neither means all. */
  datatype RefreshScope = OneCity(city: string) | OneCountry(country: string) | EveryCity

  function Scope(city: Option<string>, country: Option<string>): (s: RefreshScope)
    ensures city.Some? <==> s.OneCity?
    ensures s.OneCity? ==> s.city == city.value
    ensures s.OneCountry? <==> city.None? && country.Some?
    ensures s.OneCountry? ==> s.country == country.value
  {
    if city.Some? then OneCity(city.value)
    else if country.Some? then OneCountry(country.value)
    else EveryCity
  }

  /** What a country refresh of the trimmed name promises, from store st to store st2: a stored
      name that fails normalisation, or a top-cities lookup that emits nothing, yields nothing and
      changes nothing; otherwise every result is a union member's successful sync, with CREATED
      exactly for a new key, no key twice, every successful sync reported, and exactly the union
      re-synced. */
  ghost predicate CountryRefreshed(st: map<string, TravelAdvisory>, st2: map<string, TravelAdvisory>, name: string,
                                   up: Upstream, now: Instant, results: seq<Audited>)
  {
    var top := TopCitiesForCountry(name, up);
    var ok := (forall a :: a in CountryMatches(st, name) ==> CityValidator.Normalize(Some(a.city)).Success?)
              && top.Some?;
    && (!ok ==> results == [] && st2 == st)
    && (forall a :: a in results ==> top.Some? && InUnion(CountryKeys(st, name), top.value, a.advisory.cityKey))
    && (forall a :: a in results ==> (a.audit == Created <==> a.advisory.cityKey !in st))
    && (forall a :: a in results ==> SyncResult(a.advisory.cityKey, up, now) == Success(a.advisory))
    && (forall i, j :: 0 <= i < j < |results| ==> results[i].advisory.cityKey != results[j].advisory.cityKey)
    && (ok ==>
          && (forall k :: (InUnion(CountryKeys(st, name), top.value, k) && SyncResult(k, up, now).Success?) ==>
                Audited(SyncResult(k, up, now).value, if k in st then Updated else Created) in results)
          && Resynced(st, st2, CountryKeys(st, name) + DiscoveredKeys(top.value), up, now))
  }

  /** What a global refresh promises, from store st to store st2: no key is added, every result
      is an UPDATE of a distinct stored key carrying that key's successful sync, every successful
      sync of a stored key is reported, and exactly the stored keys are re-synced. */
  ghost predicate GlobalRefreshed(st: map<string, TravelAdvisory>, st2: map<string, TravelAdvisory>,
                                  up: Upstream, now: Instant, results: seq<Audited>)
  {
    && st2.Keys == st.Keys
    && (forall a :: a in results ==> a.advisory.cityKey in AllStoredKeys(st) && a.audit == Updated)
    && (forall a :: a in results ==> SyncResult(a.advisory.cityKey, up, now) == Success(a.advisory))
    && (forall i, j :: 0 <= i < j < |results| ==> results[i].advisory.cityKey != results[j].advisory.cityKey)
    && (forall k :: k in AllStoredKeys(st) && SyncResult(k, up, now).Success? ==>
          Audited(SyncResult(k, up, now).value, Updated) in results)
    && Resynced(st, st2, AllStoredKeys(st), up, now)
  }

  /** Every record sits under its own cityKey, which is also its city's sync key. */
  predicate Keyed(st: map<string, TravelAdvisory>) {
    forall k :: k in st ==> st[k].cityKey == k && SyncKey(st[k].city) == k
  }

  /** Upserting a record under its own key keeps the store keyed. */
  lemma KeyedUpsert(st: map<string, TravelAdvisory>, a: TravelAdvisory)
    requires Keyed(st) && SyncKey(a.city) == a.cityKey
    ensures Keyed(st[a.cityKey := a])
  {
  }

  class Service {
    /** The advisory collection, by cityKey. */
    var store: map<string, TravelAdvisory>

    /** The store is keyed. */
    predicate Valid()
      reads this
    {
      Keyed(store)
    }

    constructor()
      ensures Valid() && store == map[]
    {
      store := map[];
    }

    /** syncCity: fetch, build, then save (an upsert by key). */
    method SyncCity(city: string, up: Upstream, now: Instant) returns (r: Result<TravelAdvisory, SyncError>)
      requires Valid()
      modifies this
      ensures Valid()
      ensures r == SyncResult(city, up, now)
      ensures store == StoreAfter(old(store), city, up, now)
    {
      var key := SyncKey(city);
      if city !in up.weatherByCity {
        return Failure(WeatherUnavailable);
      }
      var weather := up.weatherByCity[city];
      var code := weather.sys.country;
      if code !in up.countryByCode {
        return Failure(CountryUnavailable);
      }
      var country := up.countryByCode[code];
      if !Buildable(weather, country) {
        return Failure(MalformedResponse);
      }
      var adv := BuildAdvisory(city, key, weather, country, now);
      assert SyncResult(city, up, now) == Success(adv);
      KeyedUpsert(store, adv);
      store := store[key := adv];
      r := Success(adv);
    }

    /** syncCityWithAudit: look the key up first, sync, then classify the write. */
    method SyncCityWithAudit(city: string, up: Upstream, now: Instant) returns (r: Result<Audited, SyncError>)
      requires Valid()
      modifies this
      ensures Valid()
      ensures r == AuditedSync(old(store), city, up, now)
      ensures store == StoreAfter(old(store), city, up, now)
    {
      var key := SyncKey(city);
      var present := key in store;
      var saved := SyncCity(city, up, now);
      match saved
      case Failure(e) => r := Failure(e);
      case Success(a) => r := Success(Audited(a, if present then Updated else Created));
    }

    /** Sync each city in turn, keeping the results of those that succeed. */
    method SyncEach(cities: seq<string>, up: Upstream, now: Instant) returns (results: seq<Audited>)
      requires Valid()
      modifies this
      ensures Valid()
      ensures (store, results) == Run(old(store), Outcomes(cities, up, now))
    {
      ghost var o := Outcomes(cities, up, now);
      results := [];
      for i := 0 to |cities|
        invariant Valid()
        invariant (store, results) == Run(old(store), o[..i])
      {
        RunStep(old(store), cities, i, up, now);
        var r := SyncCityWithAudit(cities[i], up, now);
        if r.Success? {
          results := results + [r.value];
        }
      }
      assert o[..|cities|] == o;
    }

    /** refreshSingleCity: normalise (an invalid name is an error), then sync with audit; a
        failed sync yields no result. */
    method RefreshSingleCity(city: string, up: Upstream, now: Instant)
      returns (r: Result<seq<Audited>, CityValidator.ValidationError>)
      requires Valid()
      modifies this
      ensures Valid()
      ensures CityValidator.Normalize(Some(city)).Failure? ==>
        r == Failure(CityValidator.Normalize(Some(city)).error) && store == old(store)
      ensures CityValidator.Normalize(Some(city)).Success? ==>
        var k := CityValidator.Normalize(Some(city)).value;
        var a := AuditedSync(old(store), k, up, now);
        && r == Success(if a.Success? then [a.value] else [])
        && store == StoreAfter(old(store), k, up, now)
    {
      var n := CityValidator.Normalize(Some(city));
      if n.Failure? {
        return Failure(n.error);
      }
      var a := SyncCityWithAudit(n.value, up, now);
      r := Success(if a.Success? then [a.value] else []);
    }

    /** refreshCountry: the stored keys of the country's records united with its top cities,
        each synced once. A stored name that fails normalisation fails the whole refresh, and a
        top-cities lookup that emits nothing empties it; either way it yields nothing. */
    method RefreshCountry(country: string, up: Upstream, now: Instant) returns (results: seq<Audited>)
      requires Valid()
      modifies this
      ensures Valid()
      ensures CountryRefreshed(old(store), store, Trim(country), up, now, results)
    {
      var name := Trim(country);
      var matches := CountryMatches(store, name);
      if exists a :: a in matches && CityValidator.Normalize(Some(a.city)).Failure? {
        return [];
      }
      var found := TopCitiesForCountry(name, up);
      if found.None? {
        return [];
      }
      var top := found.value;
      var stored := CountryKeys(store, name);
      var union := BuildUnion(stored, top);
      var order := Enumerate(union);
      CountryKeysAreKeys(store, name);
      ghost var st := store;
      results := SyncEach(order, up, now);
      RunOverUnion(st, order, stored, top, up, now);
      UnionResyncs(st, order, stored, top, union, up, now);
    }

    /** refreshAllCities: the distinct normalised cities of every stored record, each synced
        once. Every key is already stored, so every result is an update and no key is added. */
    method RefreshAllCities(up: Upstream, now: Instant) returns (results: seq<Audited>)
      requires Valid()
      modifies this
      ensures Valid()
      ensures GlobalRefreshed(old(store), store, up, now, results)
    {
      ghost var st := store;
      var order := Enumerate(store.Keys);
      var keys := DistinctCityKeys(store, order);
      forall k | k in keys ensures k in AllStoredKeys(st) && k in st && SyncKey(k) == k {
        var i :| 0 <= i < |order| && CityValidator.Normalize(Some(st[order[i]].city)) == Success(k);
        var a := st[order[i]];
        assert a in st.Values;
        NormalizeIsSyncKey(a.city);
        SyncKeyIdempotent(a.city);
      }
      forall k | k in AllStoredKeys(st) ensures k in keys {
        var a :| a in st.Values && CityValidator.Normalize(Some(a.city)) == Success(k);
        var key :| key in st && st[key] == a;
        var i :| 0 <= i < |order| && order[i] == key;
      }
      results := SyncEach(keys, up, now);
      RunOverAllKeys(st, keys, up, now);
    }

    /** refresh: dispatch on which of city and country is given. */
    method Refresh(city: Option<string>, country: Option<string>, up: Upstream, now: Instant)
      returns (r: Result<seq<Audited>, CityValidator.ValidationError>)
      requires Valid()
      modifies this
      ensures Valid()
      // a city: exactly the single-city refresh
      ensures city.Some? ==> (r.Failure? <==> CityValidator.Validate(city).Some?)
      ensures city.Some? && r.Failure? ==>
        r.error == CityValidator.Normalize(city).error && store == old(store)
      ensures city.Some? && r.Success? ==>
        var k := CityValidator.Normalize(city).value;
        var a := AuditedSync(old(store), k, up, now);
        && r.value == (if a.Success? then [a.value] else [])
        && store == StoreAfter(old(store), k, up, now)
        && forall x :: x in r.value ==> x.advisory.cityKey == k
      ensures city.None? ==> r.Success?
      // a country alone: the guarantees of the country refresh
      ensures city.None? && country.Some? ==> CountryRefreshed(old(store), store, Trim(country.value), up, now, r.value)
      // neither: the guarantees of the global refresh
      ensures city.None? && country.None? ==> GlobalRefreshed(old(store), store, up, now, r.value)
    {
      match Scope(city, country)
      case OneCity(c) =>
        r := RefreshSingleCity(c, up, now);
        if r.Success? {
          NormalizeIsSyncKey(c);
          SyncKeyIdempotent(c);
        }
      case OneCountry(n) =>
        var results := RefreshCountry(n, up, now);
        r := Success(results);
      case EveryCity =>
        var results := RefreshAllCities(up, now);
        r := Success(results);
    }

    /** deleteCity: remove the normalised key; an invalid name is an error and deletes nothing. */
    method DeleteCity(city: string) returns (r: Result<(), CityValidator.ValidationError>)
      requires Valid()
      modifies this
      ensures Valid()
      ensures r.Failure? <==> CityValidator.Validate(Some(city)).Some?
      ensures r.Failure? ==> r.error == CityValidator.Normalize(Some(city)).error && store == old(store)
      ensures r.Success? ==> store == old(store) - {CityValidator.Normalize(Some(city)).value}
    {
      var n := CityValidator.Normalize(Some(city));
      if n.Failure? {
        return Failure(n.error);
      }
      store := store - {n.value};
      r := Success(());
    }
  }

  /** The normalised cities of a country's stored records. */
  function CountryKeys(st: map<string, TravelAdvisory>, country: string): (ks: set<string>)
    ensures forall k :: k in ks <==>
      (exists a :: a in CountryMatches(st, country) && CityValidator.Normalize(Some(a.city)) == Success(k))
  {
    set a | a in CountryMatches(st, country) && CityValidator.Normalize(Some(a.city)).Success?
      :: CityValidator.Normalize(Some(a.city)).value
  }

  /** Every key of a country's stored records files under itself. */
  lemma CountryKeysAreKeys(st: map<string, TravelAdvisory>, country: string)
    ensures forall k :: k in CountryKeys(st, country) ==> SyncKey(k) == k
  {
    forall k | k in CountryKeys(st, country) ensures SyncKey(k) == k {
      var a :| a in CountryMatches(st, country) && CityValidator.Normalize(Some(a.city)) == Success(k);
      CityValidator.NormalizedKeyShape(a.city);
      NormalizeIsSyncKey(a.city);
      SyncKeyIdempotent(a.city);
    }
  }

  /** A client of the service: a first sync of a new city is a creation and a second one an
      update, after which a lookup by the city's name finds the second record. */
  method CreateThenUpdate(city: string, up: Upstream, t1: Instant, t2: Instant)
    returns (first: Result<Audited, SyncError>, second: Result<Audited, SyncError>, found: Result<set<TravelAdvisory>, CityValidator.ValidationError>)
    requires SyncResult(city, up, t1).Success?
    requires CityValidator.Validate(Some(city)).None?
    ensures first.Success? && first.value.audit == Created
    ensures second.Success? && second.value.audit == Updated && second.value.advisory.createdAt == t2
    ensures found == Success({second.value.advisory})
  {
    var s := new Service();
    first := s.SyncCityWithAudit(city, up, t1);
    second := s.SyncCityWithAudit(city, up, t2);
    NormalizeIsSyncKey(city);
    found := Fetch(s.store, Some(city), None);
  }
}
