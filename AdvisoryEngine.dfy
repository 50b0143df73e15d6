/** AdvisoryEngine.build: a fixed, ordered list of rules over a weather snapshot, each appending
    one sentence fragment, the whole trimmed at the end. */
module AdvisoryEngine {
  import opened Wrappers
  import opened JavaText
  import opened Model

  datatype Fragment =
    | VeryCold | Cold | Pleasant | Warm | VeryHot
    | HighHumidity | Windy
    | Rain | Snow | Storm | ClearSky
    | ShortDaylight

  /** What each rule says, before the ". " every appended text ends with. The three longest
      texts are written as two literals, split where the text itself has a sentence break:
      the verifier cannot index into a string literal of this length. */
  function Phrase(f: Fragment): string {
    match f
    case VeryCold => "Very cold weather. Winter gear required"
    case Cold => "Cold conditions. Wear warm clothing"
    case Pleasant => "Pleasant temperature. Ideal for travel"
    case Warm => "Warm weather. Stay hydrated"
    case VeryHot => "Very hot weather. " + "Avoid prolonged sun exposure"
    case HighHumidity => "High humidity may feel uncomfortable"
    case Windy => "Windy conditions. Secure loose items"
    case Rain => "Carry an umbrella"
    case Snow => "Snow conditions. Travel carefully"
    case Storm => "Severe weather warning. " + "Limit outdoor activity"
    case ClearSky => "Clear skies \U{2014} great for sightseeing"
    case ShortDaylight => "Short daylight hours \U{2014} " + "plan activities early"
  }

  /** The text each rule appends to the buffer. */
  function Text(f: Fragment): string {
    Phrase(f) + ". "
  }

  lemma PhraseStartsUpper(f: Fragment)
    ensures |Phrase(f)| > 0 && IsUpper(Phrase(f)[0])
  {
  }

  lemma TextShape(f: Fragment)
    ensures |Text(f)| >= 2 && Text(f)[|Text(f)| - 2] == '.' && Text(f)[|Text(f)| - 1] == ' '
    ensures IsUpper(Text(f)[0])
  {
    PhraseStartsUpper(f);
  }

  predicate IsTemperatureBand(f: Fragment) {
    f.VeryCold? || f.Cold? || f.Pleasant? || f.Warm? || f.VeryHot?
  }

  /** The rule at each position of the evaluation order. */
  function RuleAt(i: nat): (f: Fragment)
    requires i < 12
  {
    if i == 0 then VeryCold else if i == 1 then Cold else if i == 2 then Pleasant
    else if i == 3 then Warm else if i == 4 then VeryHot
    else if i == 5 then HighHumidity else if i == 6 then Windy
    else if i == 7 then Rain else if i == 8 then Snow else if i == 9 then Storm
    else if i == 10 then ClearSky else ShortDaylight
  }

  /** Every rule, in the order build evaluates them. */
  const Rules: seq<Fragment> :=
    [VeryCold, Cold, Pleasant, Warm, VeryHot, HighHumidity, Windy, Rain, Snow, Storm, ClearSky, ShortDaylight]

  /** The position of a rule in Rules; Rank and RuleAt are inverse. */
  function Rank(f: Fragment): (r: nat)
    ensures r < |Rules| && RuleAt(r) == f && Rules[r] == f
  {
    match f
    case VeryCold => 0 case Cold => 1 case Pleasant => 2 case Warm => 3 case VeryHot => 4
    case HighHumidity => 5 case Windy => 6
    case Rain => 7 case Snow => 8 case Storm => 9 case ClearSky => 10
    case ShortDaylight => 11
  }

  lemma RankOfRule(i: nat)
    requires i < 12
    ensures Rank(Rules[i]) == i
  {
  }

  /** LocalTime.parse(s, "hh:mm a") under the default SMART resolver: exactly two digits, ':',
      two digits, ' ', then AM or PM. The clock hour may be 00..12 (SMART admits 0; 00 and 12 are
      both the first hour of the half-day), the minute 00..59. Yields the minute of the day. */
  function ParseClock(s: string): (r: Option<int>)
    ensures r.Some? ==> 0 <= r.value < 1440
    ensures r.Some? ==> |s| == 8 && IsDigit(s[0])
  {
    if |s| == 8 && IsDigit(s[0]) && IsDigit(s[1]) && s[2] == ':' && IsDigit(s[3]) && IsDigit(s[4])
       && s[5] == ' ' && (s[6] == 'A' || s[6] == 'P') && s[7] == 'M'
    then
      var clockHour := DigitValue(s[0]) * 10 + DigitValue(s[1]);
      var minute := DigitValue(s[3]) * 10 + DigitValue(s[4]);
      if clockHour <= 12 && minute <= 59 then
        Some(((if s[6] == 'P' then 12 else 0) + clockHour % 12) * 60 + minute)
      else None
    else None
  }

  /** Java's long division, which truncates toward zero. */
  function TruncDiv(a: int, b: int): (q: int)
    requires b > 0
    ensures a >= 0 ==> q == a / b
    ensures a < 0 ==> q <= 0
  {
    if a >= 0 then a / b else -((-a) / b)
  }

  /** Duration.toHours() < 10 on a whole number of minutes holds exactly below 600 minutes,
      negative durations included. */
  lemma ShortDaylightThreshold(minutes: int)
    ensures TruncDiv(minutes * 60, 3600) < 10 <==> minutes < 600
  {
    if minutes >= 0 {
      assert minutes * 60 / 3600 == minutes / 60;
    }
  }

  /** When each rule fires: the temperature bands as the intervals the else-if chain carves out,
      the thresholds strict, the keywords substrings of the lower-cased description, and short
      daylight iff both times parse and lie less than 600 minutes apart. */
  predicate Triggers(f: Fragment, w: WeatherInfo) {
    match f
    case VeryCold => w.temperature < 5.0
    case Cold => 5.0 <= w.temperature < 15.0
    case Pleasant => 15.0 <= w.temperature < 25.0
    case Warm => 25.0 <= w.temperature < 32.0
    case VeryHot => 32.0 <= w.temperature
    case HighHumidity => w.humidity > 70
    case Windy => w.windSpeed > 8.0
    case Rain => Contains(ToLower(w.description), "rain")
    case Snow => Contains(ToLower(w.description), "snow")
    case Storm => Contains(ToLower(w.description), "storm")
    case ClearSky => Contains(ToLower(w.description), "clear")
    case ShortDaylight =>
      ParseClock(w.sunrise).Some? && ParseClock(w.sunset).Some?
      && ParseClock(w.sunset).value - ParseClock(w.sunrise).value < 600
  }

  function Opt(f: Fragment, w: WeatherInfo): seq<Fragment> {
    if Triggers(f, w) then [f] else []
  }

  /** The rules of a list that fire, in list order. */
  function Select(rules: seq<Fragment>, w: WeatherInfo): seq<Fragment> {
    if rules == [] then [] else Select(rules[..|rules| - 1], w) + Opt(rules[|rules| - 1], w)
  }

  /** Evaluating one more rule appends its fragment, if it fires. */
  lemma SelectStep(k: nat, w: WeatherInfo)
    requires k < |Rules|
    ensures Select(Rules[..k + 1], w) == Select(Rules[..k], w) + Opt(Rules[k], w)
  {
    assert Rules[..k + 1][..k] == Rules[..k];
  }

  /** The fragments build emits for w. */
  function Fragments(w: WeatherInfo): seq<Fragment> {
    Select(Rules, w)
  }

  /** The message buffer after appending the texts of fs in order. */
  function Joined(fs: seq<Fragment>): string {
    if fs == [] then "" else Joined(fs[..|fs| - 1]) + Text(fs[|fs| - 1])
  }

  /** The temperature band the else-if chain picks. */
  function Band(w: WeatherInfo): (f: Fragment)
    ensures IsTemperatureBand(f) && Triggers(f, w)
  {
    if w.temperature < 5.0 then VeryCold
    else if w.temperature < 15.0 then Cold
    else if w.temperature < 25.0 then Pleasant
    else if w.temperature < 32.0 then Warm
    else VeryHot
  }

  /** build's own evaluation order: the band, then each later rule in turn. */
  function Steps(w: WeatherInfo): seq<Fragment> {
    [Band(w)] + Opt(HighHumidity, w) + Opt(Windy, w)
    + Opt(Rain, w) + Opt(Snow, w) + Opt(Storm, w) + Opt(ClearSky, w)
    + Opt(ShortDaylight, w)
  }

  /** What rule f contributes to the buffer. */
  function Piece(f: Fragment, w: WeatherInfo): string {
    if Triggers(f, w) then Text(f) else ""
  }

  /** The buffer before the final trim, rule by rule in build's order. */
  function Message(w: WeatherInfo): string {
    "" + Text(Band(w)) + Piece(HighHumidity, w) + Piece(Windy, w)
    + Piece(Rain, w) + Piece(Snow, w) + Piece(Storm, w) + Piece(ClearSky, w)
    + Piece(ShortDaylight, w)
  }

  /** build(w): the sections of its body, in order, each appending to the same buffer. */
  method Build(w: WeatherInfo) returns (advice: string)
    ensures advice == Trim(Joined(Fragments(w)))
  {
    var msg := "";
    msg := AppendTemperature(msg, w);
    msg := AppendHumidityAndWind(msg, w);
    msg := AppendDescription(msg, w);
    msg := AppendDaylight(msg, w);
    MessageShape(w, msg);
    advice := Trim(msg);
  }

  /** The temperature section: an else-if chain, so exactly one band's text. */
  method AppendTemperature(msg: string, w: WeatherInfo) returns (r: string)
    ensures r == msg + Text(Band(w))
  {
    r := msg;
    if w.temperature < 5.0 {
      r := r + Text(VeryCold);
    } else if w.temperature < 15.0 {
      r := r + Text(Cold);
    } else if w.temperature < 25.0 {
      r := r + Text(Pleasant);
    } else if w.temperature < 32.0 {
      r := r + Text(Warm);
    } else {
      r := r + Text(VeryHot);
    }
  }

  /** The humidity and wind sections: two independent strict thresholds. */
  method AppendHumidityAndWind(msg: string, w: WeatherInfo) returns (r: string)
    ensures r == msg + Piece(HighHumidity, w) + Piece(Windy, w)
  {
    r := msg;
    if w.humidity > 70 {
      r := r + Text(HighHumidity);
    }
    assert r == msg + Piece(HighHumidity, w);
    if w.windSpeed > 8.0 {
      r := r + Text(Windy);
    }
  }

  /** The description section: four independent keyword tests on the lower-cased text. */
  method AppendDescription(msg: string, w: WeatherInfo) returns (r: string)
    ensures r == msg + Piece(Rain, w) + Piece(Snow, w) + Piece(Storm, w) + Piece(ClearSky, w)
  {
    r := msg;
    var desc := ToLower(w.description);
    if Contains(desc, "rain") {
      r := r + Text(Rain);
    }
    assert r == msg + Piece(Rain, w);
    if Contains(desc, "snow") {
      r := r + Text(Snow);
    }
    assert r == msg + Piece(Rain, w) + Piece(Snow, w);
    if Contains(desc, "storm") {
      r := r + Text(Storm);
    }
    assert r == msg + Piece(Rain, w) + Piece(Snow, w) + Piece(Storm, w);
    if Contains(desc, "clear") {
      r := r + Text(ClearSky);
    }
  }

  /** The daylight section: a try block in which a failed parse skips the rest. */
  method AppendDaylight(msg: string, w: WeatherInfo) returns (r: string)
    ensures r == msg + Piece(ShortDaylight, w)
  {
    r := msg;
    var sunrise := ParseClock(w.sunrise);
    if sunrise.Some? {
      var sunset := ParseClock(w.sunset);
      if sunset.Some? {
        var daylightSeconds := (sunset.value - sunrise.value) * 60;
        ShortDaylightThreshold(sunset.value - sunrise.value);
        if TruncDiv(daylightSeconds, 3600) < 10 {
          r := r + Text(ShortDaylight);
        }
      }
    }
  }

  /** The buffer build assembles is the texts of the selected fragments, in order. */
  lemma MessageShape(w: WeatherInfo, msg: string)
    requires msg == Message(w)
    ensures msg == Joined(Fragments(w))
  {
    StepsAreRules(w);
    StepsJoined(w);
  }

  /** The advice is never empty: it starts with the temperature sentence's capital and ends with
      a full stop. */
  lemma AdviceIsSentence(w: WeatherInfo)
    ensures var advice := Trim(Joined(Fragments(w)));
      |advice| > 0 && advice[|advice| - 1] == '.' && IsUpper(advice[0])
  {
    TemperatureFragmentFirst(w);
    SentenceShape(Fragments(w));
  }

  lemma StepsJoined(w: WeatherInfo)
    ensures Joined(Steps(w)) == Message(w)
  {
    var fs := [Band(w)];
    JoinedSnoc([], Band(w));
    assert [] + [Band(w)] == fs;
    var m := Text(Band(w));
    assert Joined(fs) == m;
    var order := Steps(w);
    PieceJoined(fs, HighHumidity, w);
    fs, m := fs + Opt(HighHumidity, w), m + Piece(HighHumidity, w);
    PieceJoined(fs, Windy, w);
    fs, m := fs + Opt(Windy, w), m + Piece(Windy, w);
    PieceJoined(fs, Rain, w);
    fs, m := fs + Opt(Rain, w), m + Piece(Rain, w);
    PieceJoined(fs, Snow, w);
    fs, m := fs + Opt(Snow, w), m + Piece(Snow, w);
    PieceJoined(fs, Storm, w);
    fs, m := fs + Opt(Storm, w), m + Piece(Storm, w);
    PieceJoined(fs, ClearSky, w);
    fs, m := fs + Opt(ClearSky, w), m + Piece(ClearSky, w);
    PieceJoined(fs, ShortDaylight, w);
    fs, m := fs + Opt(ShortDaylight, w), m + Piece(ShortDaylight, w);
    assert fs == order;
  }

  lemma PieceJoined(fs: seq<Fragment>, f: Fragment, w: WeatherInfo)
    ensures Joined(fs + Opt(f, w)) == Joined(fs) + Piece(f, w)
  {
    if Triggers(f, w) {
      JoinedSnoc(fs, f);
    } else {
      assert fs + Opt(f, w) == fs;
    }
  }

  /** build's evaluation order emits what the rule table selects. */
  lemma StepsAreRules(w: WeatherInfo)
    ensures Steps(w) == Fragments(w)
  {
    assert Rules[..0] == [];
    SelectStep(0, w);
    SelectStep(1, w);
    SelectStep(2, w);
    SelectStep(3, w);
    SelectStep(4, w);
    assert Select(Rules[..5], w) == [Band(w)];
    SelectStep(5, w);
    SelectStep(6, w);
    SelectStep(7, w);
    SelectStep(8, w);
    SelectStep(9, w);
    SelectStep(10, w);
    SelectStep(11, w);
    assert Rules[..12] == Rules;
  }

  lemma JoinedSnoc(fs: seq<Fragment>, f: Fragment)
    ensures Joined(fs + [f]) == Joined(fs) + Text(f)
  {
    assert (fs + [f])[..|fs|] == fs;
  }

  /** The message starts with the first fragment's text. */
  lemma {:induction false} JoinedStartsWith(fs: seq<Fragment>)
    requires |fs| > 0
    ensures |Joined(fs)| >= |Text(fs[0])| && Joined(fs)[..|Text(fs[0])|] == Text(fs[0])
  {
    if |fs| > 1 {
      JoinedStartsWith(fs[..|fs| - 1]);
      assert fs[..|fs| - 1][0] == fs[0];
    }
  }

  lemma JoinedEndsWithStop(fs: seq<Fragment>)
    requires |fs| > 0
    ensures |Joined(fs)| >= 2 && Joined(fs)[|Joined(fs)| - 2] == '.' && Joined(fs)[|Joined(fs)| - 1] == ' '
  {
    var f := fs[|fs| - 1];
    TextShape(f);
    JoinedLast(fs);
    StopSurvivesPrefix(Joined(fs[..|fs| - 1]), Text(f));
  }

  lemma JoinedLast(fs: seq<Fragment>)
    requires |fs| > 0
    ensures Joined(fs) == Joined(fs[..|fs| - 1]) + Text(fs[|fs| - 1])
  {
  }

  lemma StopSurvivesPrefix(a: string, t: string)
    requires |t| >= 2 && t[|t| - 2] == '.' && t[|t| - 1] == ' '
    ensures var j := a + t; |j| >= 2 && j[|j| - 2] == '.' && j[|j| - 1] == ' '
  {
  }

  /** Trimming removes exactly the final space: the sentence is non-empty, starts with the first
      fragment's capital and ends with a full stop. */
  lemma SentenceShape(fs: seq<Fragment>)
    requires |fs| > 0
    ensures var j := Joined(fs);
      |j| >= 2 && Trim(j) == j[..|j| - 1] && |Trim(j)| > 0 && Trim(j)[|Trim(j)| - 1] == '.'
      && Trim(j)[0] == Text(fs[0])[0]
  {
    var j := Joined(fs);
    var t := Text(fs[0]);
    TextShape(fs[0]);
    JoinedStartsWith(fs);
    JoinedEndsWithStop(fs);
    assert j[0] == j[..|t|][0] == t[0];
    TrimSentence(j);
  }

  lemma TrimSentence(j: string)
    requires |j| >= 2 && IsUpper(j[0]) && j[|j| - 2] == '.' && j[|j| - 1] == ' '
    ensures Trim(j) == j[..|j| - 1]
  {
    var m := j[..|j| - 1];
    assert j == m + " ";
    TrimDropsFinalSpace(m);
  }

  /** A fragment is emitted exactly when its rule fires. */
  lemma {:induction false} SelectMembership(rules: seq<Fragment>, w: WeatherInfo, f: Fragment)
    ensures f in Select(rules, w) <==> f in rules && Triggers(f, w)
  {
    if rules != [] {
      var init := rules[..|rules| - 1];
      SelectMembership(init, w, f);
      assert rules == init + [rules[|rules| - 1]];
    }
  }

  lemma FragmentMembership(w: WeatherInfo, f: Fragment)
    ensures f in Fragments(w) <==> Triggers(f, w)
  {
    SelectMembership(Rules, w, f);
  }

  predicate RankIncreasing(fs: seq<Fragment>) {
    forall i, j :: 0 <= i < j < |fs| ==> Rank(fs[i]) < Rank(fs[j])
  }

  lemma {:induction false} SelectKeepsOrder(rules: seq<Fragment>, w: WeatherInfo)
    requires RankIncreasing(rules)
    ensures RankIncreasing(Select(rules, w))
  {
    if rules != [] {
      var init := rules[..|rules| - 1];
      SelectKeepsOrder(init, w);
      forall g | g in Select(init, w) ensures Rank(g) < Rank(rules[|rules| - 1]) {
        SelectMembership(init, w, g);
      }
    }
  }

  /** The fragments appear in rule order: temperature, humidity, wind, rain, snow, storm, clear,
      daylight, and none twice. */
  lemma FragmentsInRuleOrder(w: WeatherInfo)
    ensures RankIncreasing(Fragments(w))
  {
    forall i, j | 0 <= i < j < |Rules| ensures Rank(Rules[i]) < Rank(Rules[j]) {
      RankOfRule(i);
      RankOfRule(j);
    }
    SelectKeepsOrder(Rules, w);
  }

  /** Exactly one temperature band fires for every temperature. */
  lemma OneBandFires(w: WeatherInfo)
    ensures exists f :: IsTemperatureBand(f) && Triggers(f, w)
    ensures forall f, g :: IsTemperatureBand(f) && IsTemperatureBand(g) && Triggers(f, w) && Triggers(g, w) ==> f == g
  {
    if w.temperature < 5.0 { assert Triggers(VeryCold, w); }
    else if w.temperature < 15.0 { assert Triggers(Cold, w); }
    else if w.temperature < 25.0 { assert Triggers(Pleasant, w); }
    else if w.temperature < 32.0 { assert Triggers(Warm, w); }
    else { assert Triggers(VeryHot, w); }
  }

  lemma BandRank(f: Fragment)
    ensures IsTemperatureBand(f) <==> Rank(f) < 5
  {
  }

  /** Exactly one temperature fragment is emitted, and it comes first. */
  lemma TemperatureFragmentFirst(w: WeatherInfo)
    ensures |Fragments(w)| > 0 && IsTemperatureBand(Fragments(w)[0])
    ensures forall i :: 0 < i < |Fragments(w)| ==> !IsTemperatureBand(Fragments(w)[i])
  {
    var fs := Fragments(w);
    OneBandFires(w);
    var b :| IsTemperatureBand(b) && Triggers(b, w);
    FragmentMembership(w, b);
    FragmentsInRuleOrder(w);
    var k :| 0 <= k < |fs| && fs[k] == b;
    forall i | 0 <= i < |fs| && i != k ensures !IsTemperatureBand(fs[i]) {
      FragmentMembership(w, fs[i]);
    }
    assert Rank(fs[0]) <= Rank(fs[k]) by {
      if k > 0 {
        assert Rank(fs[0]) < Rank(fs[k]);
      }
    }
    BandRank(b);
    BandRank(fs[0]);
  }

  /** The humidity and wind thresholds are strict. */
  lemma ThresholdFragments(w: WeatherInfo)
    ensures HighHumidity in Fragments(w) <==> w.humidity > 70
    ensures Windy in Fragments(w) <==> w.windSpeed > 8.0
  {
    FragmentMembership(w, HighHumidity);
    FragmentMembership(w, Windy);
  }

  /** The keyword rules are independent substring tests on the lower-cased description. */
  lemma KeywordFragments(w: WeatherInfo)
    ensures Rain in Fragments(w) <==> Contains(ToLower(w.description), "rain")
    ensures Snow in Fragments(w) <==> Contains(ToLower(w.description), "snow")
    ensures Storm in Fragments(w) <==> Contains(ToLower(w.description), "storm")
    ensures ClearSky in Fragments(w) <==> Contains(ToLower(w.description), "clear")
  {
    FragmentMembership(w, Rain);
    FragmentMembership(w, Snow);
    FragmentMembership(w, Storm);
    FragmentMembership(w, ClearSky);
  }

  /** The daylight fragment appears iff both times parse and sunset is less than 600 minutes
      after sunrise, which includes a sunset before sunrise. */
  lemma DaylightFragment(w: WeatherInfo)
    ensures ShortDaylight in Fragments(w) <==>
      ParseClock(w.sunrise).Some? && ParseClock(w.sunset).Some?
      && ParseClock(w.sunset).value - ParseClock(w.sunrise).value < 600
  {
    FragmentMembership(w, ShortDaylight);
  }

  /** A time that does not parse never aborts the sentence: it is the sentence of the first
      eleven rules alone. */
  lemma UnparseableTimeSkipsDaylight(w: WeatherInfo)
    requires ParseClock(w.sunrise).None? || ParseClock(w.sunset).None?
    ensures Fragments(w) == Select(Rules[..11], w)
  {
    SelectStep(11, w);
    assert Rules[..12] == Rules;
  }

  /** A cold, clear day with twelve hours of daylight: the very-cold and clear-sky fragments
      only. */
  lemma ColdClearDay(w: WeatherInfo)
    requires w.description == "clear sky" && w.temperature == 3.0 && w.humidity == 40
    requires w.windSpeed == 2.0 && w.sunrise == "06:00 AM" && w.sunset == "06:00 PM"
    ensures Fragments(w) == [VeryCold, ClearSky]
  {
    ClearSkyWords(w.description);
    ClockReading(w.sunrise, 360);
    ClockReading(w.sunset, 1080);
    StepsAreRules(w);
  }

  lemma ClearSkyWords(d: string)
    requires d == "clear sky"
    ensures ToLower(d) == d && Contains(d, "clear")
    ensures !Contains(d, "rain") && !Contains(d, "snow") && !Contains(d, "storm")
  {
    NoCapitals(d);
    assert d[0..5] == "clear";
    OccurrenceContains(d, "clear", 0);
    ClearSkyLacks(d);
  }

  lemma ClearSkyLacks(d: string)
    requires d == "clear sky"
    ensures !Contains(d, "rain") && !Contains(d, "snow") && !Contains(d, "storm")
  {
    LetterAbsent(d, "rain", 2);
    LetterAbsent(d, "snow", 3);
    LetterAbsent(d, "storm", 4);
  }

  /** A warm, humid, windy, stormy day with eight and a half hours of daylight: both the
      umbrella and the severe-weather fragments, in rule order. */
  lemma WarmStormyShortDay(w: WeatherInfo)
    requires w.description == "heavy rain and storm" && w.temperature == 30.0 && w.humidity == 85
    requires w.windSpeed == 10.0 && w.sunrise == "07:30 AM" && w.sunset == "04:00 PM"
    ensures Fragments(w) == [Warm, HighHumidity, Windy, Rain, Storm, ShortDaylight]
  {
    StormWords(w.description);
    ClockReading(w.sunrise, 450);
    ClockReading(w.sunset, 960);
    WarmStormyRules(w);
  }

  /** The same day, from which rules its description and readings fire. */
  lemma WarmStormyRules(w: WeatherInfo)
    requires w.temperature == 30.0 && w.humidity == 85 && w.windSpeed == 10.0
    requires Triggers(Rain, w) && Triggers(Storm, w) && !Triggers(Snow, w) && !Triggers(ClearSky, w)
    requires ParseClock(w.sunrise) == Some(450) && ParseClock(w.sunset) == Some(960)
    ensures Fragments(w) == [Warm, HighHumidity, Windy, Rain, Storm, ShortDaylight]
  {
    StepsAreRules(w);
  }

  lemma StormWords(d: string)
    requires d == "heavy rain and storm"
    ensures ToLower(d) == d && Contains(d, "rain") && Contains(d, "storm")
    ensures !Contains(d, "snow") && !Contains(d, "clear")
  {
    NoCapitals(d);
    StormHas(d);
    StormLacks(d);
  }

  lemma StormHas(d: string)
    requires d == "heavy rain and storm"
    ensures Contains(d, "rain") && Contains(d, "storm")
  {
    assert d[6..10] == "rain";
    OccurrenceContains(d, "rain", 6);
    assert d[15..20] == "storm";
    OccurrenceContains(d, "storm", 15);
  }

  lemma StormLacks(d: string)
    requires d == "heavy rain and storm"
    ensures !Contains(d, "snow") && !Contains(d, "clear")
  {
    LetterAbsent(d, "snow", 3);
    LetterAbsent(d, "clear", 0);
  }

  /** The minute of the day a well-formed "hh:mm a" reading names. */
  lemma ClockReading(s: string, minutes: int)
    requires s in {"06:00 AM", "06:00 PM", "07:30 AM", "04:00 PM"}
    requires minutes == (if s == "06:00 AM" then 360 else if s == "06:00 PM" then 1080
      else if s == "07:30 AM" then 450 else 960)
    ensures ParseClock(s) == Some(minutes)
  {
  }
}
