# Travel advisory service: a Dafny model

This project models the core of the trip-advisor service, a Spring WebFlux application. The
service keeps one travel advisory per city in a store keyed by a normalised city name. Each
advisory combines current weather (OpenWeather) with country facts (REST Countries), and the
service refreshes it for one city, for a whole country or for every stored city. For a country
refresh it also discovers new cities through GeoNames.

The model covers:

- **JavaText**: the `java.lang.String` operations the core relies on, over ASCII case mapping:
  - `trim`, `isBlank`,
  - `toLowerCase`, `equalsIgnoreCase`,
  - `contains`.
- **CityValidator**: `CityValidator.validate`, three guards run in order, and the service's
  `normalize` built on it. Each guard is one `ValidationError`; a `Result` replaces the thrown
  `ValidationException`.
- **AdvisoryEngine**: `AdvisoryEngine.build`, an imperative method that appends to a buffer
  section by section. It is proved equal to a declarative rule table: the fragments of `Rules`
  whose `Triggers` hold, in rule order, joined and trimmed. Properties covered:
  - the temperature bands;
  - the strict humidity and wind thresholds;
  - the four keyword tests;
  - the `"hh:mm a"` daylight parse, which is skipped when it fails;
  - the final trim.
- **TimeUtil**: `TimeUtil.toReadable`, the proleptic Gregorian calendar of `java.time`. It is
  built from a year-by-year walk, proved against a closed-form day number in both directions,
  and rendered in the `"EEE, dd MMM yyyy hh:mm a"` layout.
- **CityClient**: the GeoNames client:
  - `isConfigured`;
  - `extractCityNames`;
  - `getTopCitiesByCountryCode`: a missing username, a failed call and an empty list all give
    the empty list.
- **AdvisoryService**: a `Service` class whose `store` field is the `map` from city key to
  advisory. It covers:
  - `syncCity` and `syncCityWithAudit`, with the CREATED/UPDATED classification;
  - `buildAdvisory`;
  - the three refresh flows and the `refresh` dispatch;
  - `buildUnionAndSync`;
  - `getTopCitiesForCountry`, `fetchTopCitiesWithFallback` and `safeCapitals`;
  - `fetch`, `searchByTemp` and `deleteCity`.

  The multi-city flows are specified by a function, `Run`. It writes the outcomes in order and
  reports each write with its audit. Lemmas about `Run` give each flow these properties:
  - every reported key belongs to the flow's target set;
  - the audit is CREATED exactly when the key was new;
  - no key is reported twice;
  - every successful sync of a target is reported;
  - the new store re-syncs exactly the targets (`Resynced`).

Calls to the outside world are inputs. An `Upstream` value says what each weather, country and
GeoNames call returns: a missing entry is a call that fails. A lookup of a country by name, and
a GeoNames search, may also be answered by a response with no body. The clock is the `now`
parameter.

The model follows the code where the design description differs from it. The design
description says the sunrise/sunset conversion renders a 12-hour `"hh:mm AM/PM"` clock.
`TimeUtil.toReadable` renders the full date and time, and that is what the model stores (see
"Findings"). The design description also expects `createdAt` to be set once. The code resets it
on every save. The service model keeps the reset, and the create-once write is modelled beside
it (see "Findings").

## Model

| member | source | states |
|---|---|---|
| JavaText.Trim | src/main/java/org/pyt/traveladvisor/validation/CityValidator.java:15 | the trimmed string is no longer than the input and, when it is not empty, starts and ends with a character above U+0020 |
| JavaText.TrimOfPadded | src/main/java/org/pyt/traveladvisor/validation/CityValidator.java:15 | around a core with non-trimmable ends, trim returns exactly that core, whatever padding surrounds it |
| JavaText.TrimIdempotent | src/main/java/org/pyt/traveladvisor/service/AdvisoryService.java:272 | trimming twice gives the same string as trimming once |
| JavaText.TrimIgnoresPadding | src/main/java/org/pyt/traveladvisor/validation/CityValidator.java:15 | adding padding of characters up to U+0020 on either side does not change the trim |
| JavaText.ToLower | src/main/java/org/pyt/traveladvisor/service/AdvisoryService.java:272 | the result has the input's length and each character is the ASCII lower-case form of the input's character |
| JavaText.ToLowerChars | src/main/java/org/pyt/traveladvisor/service/AdvisoryService.java:272 | lower-casing leaves no capital letter, keeps letters letters and spaces spaces, and does not touch what trim strips |
| JavaText.TrimToLower | src/main/java/org/pyt/traveladvisor/service/AdvisoryService.java:272 | trim and lower-case commute |
| JavaText.EqualsIgnoreCaseIsLowerEquality | src/main/java/org/pyt/traveladvisor/service/AdvisoryService.java:55-58 | equalsIgnoreCase holds exactly when the lower-case forms are equal |
| JavaText.EqualsIgnoreCaseOfLower | src/main/java/org/pyt/traveladvisor/service/AdvisoryService.java:55-58 | lower-casing one side never changes an equalsIgnoreCase verdict |
| JavaText.ContainsIsOccurrence | src/main/java/org/pyt/traveladvisor/service/AdvisoryEngine.java:51-61 | the contains scan succeeds exactly when the word occurs at some offset |
| JavaText.Utf16Length | src/main/java/org/pyt/traveladvisor/validation/CityValidator.java:17 | String.length() counts UTF-16 code units: at least one per character, at most two, and exactly one per character when none lies outside the Basic Multilingual Plane |
| JavaText.Utf16LengthConcat | src/main/java/org/pyt/traveladvisor/validation/CityValidator.java:17 | code-unit lengths add up over concatenation |
| JavaText.LetterAbsent | src/main/java/org/pyt/traveladvisor/service/AdvisoryEngine.java:51-61 | a text that lacks one letter of a word does not contain the word |
| CityValidator.Validate | src/main/java/org/pyt/traveladvisor/validation/CityValidator.java:9-26 | a null or blank city is rejected as CityRequired |
| CityValidator.ValidateCases | src/main/java/org/pyt/traveladvisor/validation/CityValidator.java:9-26 | each verdict holds exactly under its condition, in guard order: required when blank, too short when the trimmed name is under three UTF-16 code units, invalid when a trimmed character is outside [a-zA-Z ], accepted otherwise |
| CityValidator.AcceptedShape | src/main/java/org/pyt/traveladvisor/validation/CityValidator.java:15-25 | an accepted name trims to at least three ASCII letters and spaces that start and end with a letter |
| CityValidator.PaddingIrrelevant | src/main/java/org/pyt/traveladvisor/validation/CityValidator.java:11-25 | padding around a non-blank name never changes the verdict |
| CityValidator.PaddingKeepsAccepted | src/main/java/org/pyt/traveladvisor/validation/CityValidator.java:15 | padding around an accepted name keeps it accepted |
| CityValidator.ShortBeforeCharset | src/main/java/org/pyt/traveladvisor/validation/CityValidator.java:17-25 | "a1" fails the length guard, which runs before the character guard |
| CityValidator.DigitIsInvalid | src/main/java/org/pyt/traveladvisor/validation/CityValidator.java:21-25 | "ab1" is long enough and fails the character guard |
| CityValidator.SurrogatePairCountsTwice | src/main/java/org/pyt/traveladvisor/validation/CityValidator.java:17-25 | an emoji followed by a letter is three code units long, so it passes the length guard and fails the character guard |
| CityValidator.SpacesAreMissing | src/main/java/org/pyt/traveladvisor/validation/CityValidator.java:11-13 | a name made only of spaces is a missing city, not a short one |
| CityValidator.Normalize | src/main/java/org/pyt/traveladvisor/service/AdvisoryService.java:269-273 | normalize fails exactly when validate rejects, with validate's error |
| CityValidator.KeyIsFixedPoint | src/main/java/org/pyt/traveladvisor/service/AdvisoryService.java:269-273 | a key (three or more lower-case letters and spaces with letters at both ends) is its own trim and lower-case form, and the validator accepts it |
| CityValidator.NormalizedKeyShape | src/main/java/org/pyt/traveladvisor/service/AdvisoryService.java:269-273 | every normalised name has the key shape and passes validation itself |
| CityValidator.NormalizeIdempotent | src/main/java/org/pyt/traveladvisor/service/AdvisoryService.java:269-273 | normalising a normalised name gives it back |
| AdvisoryEngine.TextShape | src/main/java/org/pyt/traveladvisor/service/AdvisoryEngine.java:22-76 | every appended text starts with a capital and ends with ". " |
| AdvisoryEngine.Rank | src/main/java/org/pyt/traveladvisor/service/AdvisoryEngine.java:16-78 | a rule's rank is its position in the evaluation order; rank and position are inverse |
| AdvisoryEngine.ParseClock | src/main/java/org/pyt/traveladvisor/service/AdvisoryEngine.java:13-14 | a successful "hh:mm a" parse yields a minute of the day in 0..1439, and only from an eight-character text starting with a digit |
| AdvisoryEngine.ClockReading | src/main/java/org/pyt/traveladvisor/service/AdvisoryEngine.java:66-70 | the readings "06:00 AM", "06:00 PM", "07:30 AM" and "04:00 PM" parse to minutes 360, 1080, 450 and 960 |
| AdvisoryEngine.TruncDiv | src/main/java/org/pyt/traveladvisor/service/AdvisoryEngine.java:75 | Java's long division truncates toward zero: it agrees with floor division on non-negative operands and is never positive on negative ones |
| AdvisoryEngine.ShortDaylightThreshold | src/main/java/org/pyt/traveladvisor/service/AdvisoryEngine.java:72-75 | toHours() of a whole number of minutes is below 10 exactly when the minutes are below 600, negative durations included |
| AdvisoryEngine.Band | src/main/java/org/pyt/traveladvisor/service/AdvisoryEngine.java:22-35 | the else-if chain picks a temperature band whose interval contains the temperature |
| AdvisoryEngine.Build | src/main/java/org/pyt/traveladvisor/service/AdvisoryEngine.java:16-81 | the advice is the trimmed concatenation of the texts of the rules that fire, in rule order |
| AdvisoryEngine.AppendTemperature | src/main/java/org/pyt/traveladvisor/service/AdvisoryEngine.java:22-35 | the temperature section appends exactly one band's text |
| AdvisoryEngine.AppendHumidityAndWind | src/main/java/org/pyt/traveladvisor/service/AdvisoryEngine.java:39-45 | the humidity and wind sections append each text exactly when its strict threshold is passed |
| AdvisoryEngine.AppendDescription | src/main/java/org/pyt/traveladvisor/service/AdvisoryEngine.java:49-61 | the four keyword sections append each text exactly when the lower-cased description contains its word |
| AdvisoryEngine.AppendDaylight | src/main/java/org/pyt/traveladvisor/service/AdvisoryEngine.java:65-78 | the daylight section appends its text exactly when both times parse and the daylight is under ten hours; a failed parse appends nothing |
| AdvisoryEngine.MessageShape | src/main/java/org/pyt/traveladvisor/service/AdvisoryEngine.java:16-78 | the buffer that build assembles section by section is the joined texts of the selected fragments |
| AdvisoryEngine.StepsAreRules | src/main/java/org/pyt/traveladvisor/service/AdvisoryEngine.java:16-78 | build's own branch order emits exactly what the rule table selects |
| AdvisoryEngine.StepsJoined | src/main/java/org/pyt/traveladvisor/service/AdvisoryEngine.java:16-78 | appending the pieces one rule at a time gives the joined text of the emitted fragments |
| AdvisoryEngine.SentenceShape | src/main/java/org/pyt/traveladvisor/service/AdvisoryEngine.java:80 | the final trim removes exactly the trailing space, leaving a text that ends in a full stop and starts with the first fragment's capital |
| AdvisoryEngine.AdviceIsSentence | src/main/java/org/pyt/traveladvisor/service/AdvisoryEngine.java:16-81 | the advice is never empty, starts with a capital letter and ends with a full stop |
| AdvisoryEngine.FragmentMembership | src/main/java/org/pyt/traveladvisor/service/AdvisoryEngine.java:16-78 | a fragment is emitted exactly when its rule fires |
| AdvisoryEngine.SelectMembership | src/main/java/org/pyt/traveladvisor/service/AdvisoryEngine.java:16-78 | filtering a rule list keeps exactly the listed rules that fire |
| AdvisoryEngine.SelectKeepsOrder | src/main/java/org/pyt/traveladvisor/service/AdvisoryEngine.java:16-78 | filtering keeps the rules in increasing rank |
| AdvisoryEngine.FragmentsInRuleOrder | src/main/java/org/pyt/traveladvisor/service/AdvisoryEngine.java:16-78 | fragments appear in rule order (temperature, humidity, wind, rain, snow, storm, clear, daylight) and none twice |
| AdvisoryEngine.OneBandFires | src/main/java/org/pyt/traveladvisor/service/AdvisoryEngine.java:22-35 | for every temperature exactly one band fires |
| AdvisoryEngine.TemperatureFragmentFirst | src/main/java/org/pyt/traveladvisor/service/AdvisoryEngine.java:22-35 | exactly one temperature fragment is emitted, and it is the first |
| AdvisoryEngine.ThresholdFragments | src/main/java/org/pyt/traveladvisor/service/AdvisoryEngine.java:39-45 | the humidity fragment appears iff humidity > 70, the wind fragment iff speed > 8 |
| AdvisoryEngine.KeywordFragments | src/main/java/org/pyt/traveladvisor/service/AdvisoryEngine.java:49-61 | each keyword fragment appears iff the lower-cased description contains its word, independently of the others |
| AdvisoryEngine.DaylightFragment | src/main/java/org/pyt/traveladvisor/service/AdvisoryEngine.java:65-78 | the daylight fragment appears iff both times parse and sunset is less than 600 minutes after sunrise |
| AdvisoryEngine.UnparseableTimeSkipsDaylight | src/main/java/org/pyt/traveladvisor/service/AdvisoryEngine.java:65-78 | an unparseable time never aborts the sentence: the advice is that of the first eleven rules |
| AdvisoryEngine.ColdClearDay | src/main/java/org/pyt/traveladvisor/service/AdvisoryEngine.java:16-81 | 3 degrees, humidity 40, wind 2, "clear sky", 06:00 AM to 06:00 PM gives exactly the very-cold and clear-sky fragments |
| AdvisoryEngine.ClearSkyWords | src/main/java/org/pyt/traveladvisor/service/AdvisoryEngine.java:49-61 | "clear sky" is already lower case and contains "clear" but not "rain", "snow" or "storm" |
| AdvisoryEngine.WarmStormyShortDay | src/main/java/org/pyt/traveladvisor/service/AdvisoryEngine.java:16-81 | 30 degrees, humidity 85, wind 10, "heavy rain and storm", 07:30 AM to 04:00 PM gives warm, humidity, wind, rain, storm and short daylight, in that order |
| AdvisoryEngine.WarmStormyRules | src/main/java/org/pyt/traveladvisor/service/AdvisoryEngine.java:16-78 | the same selection, from which keyword rules fire and what the two times parse to |
| AdvisoryEngine.StormWords | src/main/java/org/pyt/traveladvisor/service/AdvisoryEngine.java:49-61 | "heavy rain and storm" is already lower case and contains "rain" and "storm" but not "snow" or "clear" |
| TimeUtil.YearStep | src/main/java/org/pyt/traveladvisor/util/TimeUtil.java:14-17 | the closed-form day count of a year start grows by the year's length, 366 in Gregorian leap years |
| TimeUtil.Divisibility | src/main/java/org/pyt/traveladvisor/util/TimeUtil.java:14-17 | a multiple of 400 is one of 100, and a multiple of 100 one of 4 |
| TimeUtil.MonthStep | src/main/java/org/pyt/traveladvisor/util/TimeUtil.java:14-17 | the month offsets grow by each month's length and end at the year's length |
| TimeUtil.YearForward | src/main/java/org/pyt/traveladvisor/util/TimeUtil.java:14-17 | walking forward n days from a year start lands in a later-or-equal year at a day within that year, the same number of days on |
| TimeUtil.YearBackward | src/main/java/org/pyt/traveladvisor/util/TimeUtil.java:14-17 | walking back lands in an earlier year at a day within that year, the same number of days back |
| TimeUtil.MonthWalk | src/main/java/org/pyt/traveladvisor/util/TimeUtil.java:14-17 | walking through the months lands in a month at a day within it, the same number of days on |
| TimeUtil.CivilFromDays | src/main/java/org/pyt/traveladvisor/util/TimeUtil.java:14-17 | the civil date of every epoch day is a valid date whose day number is that day |
| TimeUtil.YearsMonotone | src/main/java/org/pyt/traveladvisor/util/TimeUtil.java:14-17 | a later year starts after the whole of an earlier one |
| TimeUtil.DayNumberBounds | src/main/java/org/pyt/traveladvisor/util/TimeUtil.java:14-17 | a valid date's day number falls inside its year and inside its month |
| TimeUtil.DayNumberInjective | src/main/java/org/pyt/traveladvisor/util/TimeUtil.java:14-17 | distinct valid dates have distinct day numbers |
| TimeUtil.CivilOfDayNumber | src/main/java/org/pyt/traveladvisor/util/TimeUtil.java:14-17 | every valid date is the civil date of its day number (the other half of the round trip) |
| TimeUtil.DayOfWeek | src/main/java/org/pyt/traveladvisor/util/TimeUtil.java:9-10 | the weekday index lies in 0..6 |
| TimeUtil.DayOfWeekStep | src/main/java/org/pyt/traveladvisor/util/TimeUtil.java:9-10 | the weekday advances by one each day and goes back by one each day before |
| TimeUtil.Pad4 | src/main/java/org/pyt/traveladvisor/util/TimeUtil.java:9-10 | a year below 10000 prints as four characters |
| TimeUtil.ClockText | src/main/java/org/pyt/traveladvisor/util/TimeUtil.java:9-10 | the "hh:mm a" part is always eight characters |
| TimeUtil.ClockFields | src/main/java/org/pyt/traveladvisor/util/TimeUtil.java:9-10 | the hour field lies in 01..12 and reads 12 for hours 0 and 12 of the day, the minute field is the minute, and the marker is AM exactly before noon |
| TimeUtil.DateOf | src/main/java/org/pyt/traveladvisor/util/TimeUtil.java:14-17 | the UTC date of an instant is a valid date whose day number is the instant's floor day |
| TimeUtil.ToReadable | src/main/java/org/pyt/traveladvisor/util/TimeUtil.java:12-18 | the text starts with the weekday's capital and ends with the clock text of the shifted instant's minute of the UTC day |
| TimeUtil.DependsOnSum | src/main/java/org/pyt/traveladvisor/util/TimeUtil.java:14-15 | only epoch + offset matters |
| TimeUtil.EpochDate | src/main/java/org/pyt/traveladvisor/util/TimeUtil.java:14-17 | epoch day 0 is 1970-01-01 |
| TimeUtil.EpochClock | src/main/java/org/pyt/traveladvisor/util/TimeUtil.java:9-10 | midnight prints as "12:00 AM" |
| TimeUtil.EpochYear | src/main/java/org/pyt/traveladvisor/util/TimeUtil.java:9-10 | the year 1970 prints as "1970" |
| TimeUtil.EpochRendering | src/main/java/org/pyt/traveladvisor/util/TimeUtil.java:9-18 | epoch 0 with offset 0 renders as "Thu, 01 Jan 1970 12:00 AM" |
| TimeUtil.MarkerIsAm | src/main/java/org/pyt/traveladvisor/util/TimeUtil.java:9-17 | the marker is AM exactly when the shifted instant lies in the first 43200 seconds of its UTC day |
| TimeUtil.DivOfDiv | src/main/java/org/pyt/traveladvisor/util/TimeUtil.java:14-17 | the day and minute-of-day of an instant depend only on its whole minutes |
| TimeUtil.SameMinuteSameText | src/main/java/org/pyt/traveladvisor/util/TimeUtil.java:9-17 | seconds are not printed: instants in the same minute render alike |
| TimeUtil.ForwardAcrossMidnight | src/main/java/org/pyt/traveladvisor/util/TimeUtil.java:14-17 | a positive offset that carries the time past midnight moves the date and the weekday one day on |
| TimeUtil.BackwardAcrossMidnight | src/main/java/org/pyt/traveladvisor/util/TimeUtil.java:14-17 | a negative offset that carries the time before midnight moves the date and the weekday one day back |
| CityClient.Names | src/main/java/org/pyt/traveladvisor/client/CityClient.java:61-64 | the kept names are no more than the entries and none is blank |
| CityClient.ExtractCityNames | src/main/java/org/pyt/traveladvisor/client/CityClient.java:56-65 | a missing body or a missing list gives no names; no name is blank |
| CityClient.TopCitiesByCountryCode | src/main/java/org/pyt/traveladvisor/client/CityClient.java:22-38 | without a configured username, or when the call fails, the list is empty; only a call answered with no body emits nothing; otherwise the names extracted from the body |
| CityClient.NamesConcat | src/main/java/org/pyt/traveladvisor/client/CityClient.java:61-64 | filtering distributes over concatenation, so names keep response order |
| CityClient.NamesMembership | src/main/java/org/pyt/traveladvisor/client/CityClient.java:61-64 | a name is returned exactly when some entry carries it and it is not blank |
| CityClient.AllKeptNames | src/main/java/org/pyt/traveladvisor/client/CityClient.java:61-64 | when every entry has a usable name, the result is those names one for one, in order |
| CityClient.DiscoveryTotal | src/main/java/org/pyt/traveladvisor/client/CityClient.java:22-33 | whatever the call did, every emitted name is non-blank, and a non-empty list means a configured username and a response with a usable entry |
| AdvisoryService.SyncKeyIdempotent | src/main/java/org/pyt/traveladvisor/service/AdvisoryService.java:173 | a sync key files under itself |
| AdvisoryService.NormalizeIsSyncKey | src/main/java/org/pyt/traveladvisor/service/AdvisoryService.java:173 | on an accepted name, normalize and the sync key agree |
| AdvisoryService.BuildAdvisory | src/main/java/org/pyt/traveladvisor/service/AdvisoryService.java:216-255 | the record carries the given key and name, the first weather description, the toReadable sunrise and sunset, the first currency and capital, and now as both syncedAt and createdAt |
| AdvisoryService.SyncResult | src/main/java/org/pyt/traveladvisor/service/AdvisoryService.java:171-190 | a built record is filed under the sync key of the raw name and stamped now twice; the weather call failing is exactly the WeatherUnavailable error |
| AdvisoryService.SyncSucceedsIff | src/main/java/org/pyt/traveladvisor/service/AdvisoryService.java:171-190 | a sync succeeds exactly when both calls answer with readable responses; the name itself is never validated |
| AdvisoryService.AuditPathSkipsValidation | src/main/java/org/pyt/traveladvisor/service/AdvisoryService.java:194-212 | a name the validator rejects still syncs when the upstream calls answer |
| AdvisoryService.AuditedSync | src/main/java/org/pyt/traveladvisor/service/AdvisoryService.java:194-212 | the audited result succeeds exactly when the sync does, with the same record or the same error |
| AdvisoryService.StoreAfter | src/main/java/org/pyt/traveladvisor/service/AdvisoryService.java:171-190 | a successful sync upserts its record under the sync key; a failed one leaves the store as it was |
| AdvisoryService.AuditClassification | src/main/java/org/pyt/traveladvisor/service/AdvisoryService.java:198-204 | CREATED exactly when the key was absent before the write, UPDATED exactly when it was present |
| AdvisoryService.UpsertByKey | src/main/java/org/pyt/traveladvisor/service/AdvisoryService.java:189 | after a successful sync the key is added if new and maps to the new record; every other key keeps its record |
| AdvisoryService.SecondSyncUpdates | src/main/java/org/pyt/traveladvisor/service/AdvisoryService.java:194-212 | syncing the same city again is an UPDATE whose record, as stored, has the second sync's time as createdAt |
| AdvisoryService.CreatedAtOverwritten | src/main/java/org/pyt/traveladvisor/service/AdvisoryService.java:251-252 | the first write records t1 as createdAt, and a re-sync at a different t2 no longer holds t1 |
| AdvisoryService.CreateOnceResult | src/main/java/org/pyt/traveladvisor/service/AdvisoryService.java:251-252 | the create-once write succeeds exactly when the sync does and stamps syncedAt with now |
| AdvisoryService.CreateOnceStore | src/main/java/org/pyt/traveladvisor/service/AdvisoryService.java:251-252 | the create-once write touches the same keys as the write as written |
| AdvisoryService.CreatedAtSetOnce | src/main/java/org/pyt/traveladvisor/service/AdvisoryService.java:251-252 | with the create-once write, a re-sync refreshes every field but carries the first sync's createdAt forward |
| AdvisoryService.ReadableTimeNeverParses | src/main/java/org/pyt/traveladvisor/service/AdvisoryService.java:233-234 | no toReadable text parses as "hh:mm a" |
| AdvisoryService.SyncedAdviceLacksDaylight | src/main/java/org/pyt/traveladvisor/service/AdvisoryService.java:233-234 | a synced record's advice never has the short-daylight fragment, whatever the day length: it is the advice of the first eleven rules |
| AdvisoryService.LocalMinute | src/main/java/org/pyt/traveladvisor/service/AdvisoryService.java:233-234 | the local minute of the day lies in 0..1439 |
| AdvisoryService.SunClockText | src/main/java/org/pyt/traveladvisor/service/AdvisoryService.java:233-234 | the intended sunrise/sunset text is eight characters, the clock tail of what toReadable prints |
| AdvisoryService.ClockRoundTrip | src/main/java/org/pyt/traveladvisor/service/AdvisoryEngine.java:13-14 | the engine's "hh:mm a" parse reads back every clock text the formatter prints |
| AdvisoryService.PrintOfParse | src/main/java/org/pyt/traveladvisor/service/AdvisoryEngine.java:13-14 | every text the parse accepts is what the formatter prints for the minute it yields; a clock hour 00 reads as hour 12 of the half-day, which the formatter prints as 12 |
| AdvisoryService.ZeroHourParses | src/main/java/org/pyt/traveladvisor/service/AdvisoryEngine.java:13-14 | the 00 variant of a printed clock text parses to the same minute |
| AdvisoryService.ClockLanguage | src/main/java/org/pyt/traveladvisor/service/AdvisoryEngine.java:13-14 | the parse yields a minute exactly for the formatter's text of that minute and for its 00-hour variant |
| AdvisoryService.ParseFields | src/main/java/org/pyt/traveladvisor/service/AdvisoryEngine.java:13-14 | an accepted text is two hour digits of at most 12, a colon, two minute digits of at most 59, a space and AM or PM, read as the minute of the half-day plus the hour taken modulo 12 |
| AdvisoryService.ZeroHourReadsTwelve | src/main/java/org/pyt/traveladvisor/service/AdvisoryEngine.java:13-14 | writing 12 in place of a 00 clock hour leaves the parsed minute unchanged |
| AdvisoryService.ParseInjective | src/main/java/org/pyt/traveladvisor/service/AdvisoryEngine.java:13-14 | two accepted texts whose clock hour is not 00 and which parse to the same minute are the same text |
| AdvisoryService.FieldsInjective | src/main/java/org/pyt/traveladvisor/service/AdvisoryEngine.java:13-14 | the parsed minute determines the clock hour 1..12, the minute and the AM/PM marker |
| AdvisoryService.DigitsInjective | src/main/java/org/pyt/traveladvisor/service/AdvisoryEngine.java:13-14 | a two-digit field determines both of its digits |
| AdvisoryService.HalfDayArithmetic | src/main/java/org/pyt/traveladvisor/service/AdvisoryEngine.java:13-14 | the half of the day plus the clock hour modulo 12, plus the minute, gives back the minute of the day |
| AdvisoryService.CorrectedWeather | src/main/java/org/pyt/traveladvisor/service/AdvisoryService.java:227-235 | with the intended text, sunrise and sunset parse to their local minutes |
| AdvisoryService.CorrectedDaylight | src/main/java/org/pyt/traveladvisor/service/AdvisoryService.java:227-235 | with the intended text, the daylight fragment appears exactly when local sunset is less than 600 minutes after local sunrise |
| AdvisoryService.Outcomes | src/main/java/org/pyt/traveladvisor/service/AdvisoryService.java:293-294 | one sync outcome per city, in city order |
| AdvisoryService.Run | src/main/java/org/pyt/traveladvisor/service/AdvisoryService.java:293-294 | a run reports at most one result per outcome |
| AdvisoryService.RunStep | src/main/java/org/pyt/traveladvisor/service/AdvisoryService.java:122 | one step of a run is one syncCityWithAudit against the store so far |
| AdvisoryService.RunKeys | src/main/java/org/pyt/traveladvisor/service/AdvisoryService.java:189 | the keys after a run are the old keys and the keys of the written records |
| AdvisoryService.RunReports | src/main/java/org/pyt/traveladvisor/service/AdvisoryService.java:194-212 | when no two records share a key, a run reports only written records, each with the audit its key had before the run and held by the final store, no key twice, and every written record |
| AdvisoryService.ReportsSnoc | src/main/java/org/pyt/traveladvisor/service/AdvisoryService.java:194-212 | writing one more record under a fresh key keeps the report faithful |
| AdvisoryService.ReportsAppend | src/main/java/org/pyt/traveladvisor/service/AdvisoryService.java:194-212 | the report stays faithful when a record whose key no earlier report carries is appended |
| AdvisoryService.DistinctCitiesDistinctWrites | src/main/java/org/pyt/traveladvisor/service/AdvisoryService.java:293-294 | cities with distinct keys write records with distinct keys |
| AdvisoryService.RunOverStoredKeys | src/main/java/org/pyt/traveladvisor/service/AdvisoryService.java:115-125 | writing distinct, already stored keys adds no key, reports each write once as an UPDATE, and reports every write |
| AdvisoryService.RunOverAllKeys | src/main/java/org/pyt/traveladvisor/service/AdvisoryService.java:115-125 | syncing every stored key once adds no key, reports only stored keys as UPDATEs, none twice, reports every successful sync and nothing but successful syncs, each with the record its key's sync produced, and re-syncs exactly those keys |
| AdvisoryService.RunOverUnion | src/main/java/org/pyt/traveladvisor/service/AdvisoryService.java:279-295 | syncing distinct union members reports only union members, CREATED exactly for new keys, no key twice, every successful sync, and nothing else: each result is the record its key's sync produced |
| AdvisoryService.UnionResyncs | src/main/java/org/pyt/traveladvisor/service/AdvisoryService.java:279-295 | syncing the union members in any order re-syncs exactly the union |
| AdvisoryService.RunCovers | src/main/java/org/pyt/traveladvisor/service/AdvisoryService.java:293-294 | every distinct self-keyed city whose sync succeeds is reported, with the audit its key had before the run |
| AdvisoryService.RunOnlySuccesses | src/main/java/org/pyt/traveladvisor/service/AdvisoryService.java:151-157 | a run over distinct self-keyed cities reports nothing but successful syncs, each the record its key's sync produced: a failed city resumes empty |
| AdvisoryService.RunUntouched | src/main/java/org/pyt/traveladvisor/service/AdvisoryService.java:189 | a key no record is written under keeps its record |
| AdvisoryService.RunResyncs | src/main/java/org/pyt/traveladvisor/service/AdvisoryService.java:293-294 | syncing distinct self-keyed cities leaves each successful key holding its new record, adds no other key, and leaves every other key as it was |
| AdvisoryService.Enumerate | src/main/java/org/pyt/traveladvisor/service/AdvisoryService.java:293 | iterating a hash set lists each element exactly once, in an order left open |
| AdvisoryService.BuildUnion | src/main/java/org/pyt/traveladvisor/service/AdvisoryService.java:283-289 | the union holds exactly the stored keys and the trimmed lower-case forms of the discovered names that are not blank |
| AdvisoryService.DiscoveredKeysMembership | src/main/java/org/pyt/traveladvisor/service/AdvisoryService.java:285-289 | a key is discovered exactly when some non-blank discovered name files under it |
| AdvisoryService.UnionMembersAreKeys | src/main/java/org/pyt/traveladvisor/service/AdvisoryService.java:283-289 | every union member files under itself, so distinct members are synced under distinct keys |
| AdvisoryService.DistinctCityKeys | src/main/java/org/pyt/traveladvisor/service/AdvisoryService.java:118-121 | the keys are pairwise distinct and are exactly the normalised cities of the listed records that normalise |
| AdvisoryService.AcceptedMembership | src/main/java/org/pyt/traveladvisor/service/AdvisoryService.java:118-121 | a name is accepted exactly when some outcome accepted it |
| AdvisoryService.AllStoredKeys | src/main/java/org/pyt/traveladvisor/service/AdvisoryService.java:118-121 | the global refresh's keys are exactly the normalised cities of the stored records that normalise |
| AdvisoryService.SafeCapitals | src/main/java/org/pyt/traveladvisor/service/AdvisoryService.java:275-277 | a missing capital list is the empty list, a present one is returned as is |
| AdvisoryService.TopCitiesWithFallback | src/main/java/org/pyt/traveladvisor/service/AdvisoryService.java:136-149 | without a usable ISO code the capitals are returned |
| AdvisoryService.TopCitiesForCountry | src/main/java/org/pyt/traveladvisor/service/AdvisoryService.java:127-134 | a failed country lookup gives the empty list, one without a body emits nothing, and a found country goes through the fallback chain |
| AdvisoryService.FallbackChain | src/main/java/org/pyt/traveladvisor/service/AdvisoryService.java:136-149 | an emitted list is the capitals or a non-empty discovery list of non-blank names; it is empty only if the capitals are; discovery wins when it finds anything; nothing is emitted exactly when discovery emits nothing |
| AdvisoryService.CapitalGuaranteesCity | src/main/java/org/pyt/traveladvisor/service/AdvisoryService.java:127-149 | a found country with a capital never yields an empty list |
| AdvisoryService.CountryMatches | src/main/java/org/pyt/traveladvisor/service/AdvisoryService.java:55-58 | the matches are exactly the stored records whose country name equals the given one ignoring case |
| AdvisoryService.Fetch | src/main/java/org/pyt/traveladvisor/service/AdvisoryService.java:45-62 | a city query fails exactly when validation rejects it, with validate's error, and otherwise finds the record under the normalised key, if any; a country query finds its case-insensitive matches; no query finds everything |
| AdvisoryService.CountryQueryIgnoresCase | src/main/java/org/pyt/traveladvisor/service/AdvisoryService.java:53-58 | a country query gives the same records whatever the case of the name asked for |
| AdvisoryService.SearchByTemp | src/main/java/org/pyt/traveladvisor/service/AdvisoryService.java:259-265 | the records found are exactly the stored ones whose temperature lies within both inclusive bounds |
| AdvisoryService.SearchWindow | src/main/java/org/pyt/traveladvisor/service/AdvisoryService.java:259-265 | widening a bound never loses a record, and an empty window finds nothing |
| AdvisoryService.Scope | src/main/java/org/pyt/traveladvisor/service/AdvisoryService.java:67-80 | a city wins over a country, and a country alone selects the country flow |
| AdvisoryService.KeyedUpsert | src/main/java/org/pyt/traveladvisor/service/AdvisoryService.java:171-190 | writing a record under its own sync key keeps every record filed under its own key |
| AdvisoryService.CountryKeys | src/main/java/org/pyt/traveladvisor/service/AdvisoryService.java:100-103 | the stored set is exactly the normalised cities of the country's matching records |
| AdvisoryService.CountryKeysAreKeys | src/main/java/org/pyt/traveladvisor/service/AdvisoryService.java:100-103 | every member of the stored set files under itself |
| AdvisoryService.Service.constructor | src/main/java/org/pyt/traveladvisor/service/AdvisoryService.java:33-41 | the injected repository starts as an empty store, every record filed under its own key |
| AdvisoryService.Service.SyncCity | src/main/java/org/pyt/traveladvisor/service/AdvisoryService.java:171-190 | returns the sync result and leaves the store upserted with it, keyed |
| AdvisoryService.Service.SyncCityWithAudit | src/main/java/org/pyt/traveladvisor/service/AdvisoryService.java:194-212 | returns the audited result, classified by the store before the write, and upserts the record |
| AdvisoryService.Service.SyncEach | src/main/java/org/pyt/traveladvisor/service/AdvisoryService.java:293-294 | the new store and the results are those of the run of the cities' outcomes |
| AdvisoryService.Service.RefreshSingleCity | src/main/java/org/pyt/traveladvisor/service/AdvisoryService.java:82-92 | an invalid name is an error that changes nothing; a valid one is synced under its normalised key, with a failed sync yielding no result |
| AdvisoryService.Service.RefreshCountry | src/main/java/org/pyt/traveladvisor/service/AdvisoryService.java:94-113 | `CountryRefreshed`: a stored name that fails normalisation, or a top-cities lookup that emits nothing, yields nothing and changes nothing; otherwise each union member is reported at most once with its correct audit, every successful sync is reported, every result is the record its key's sync produced (a failed city reports nothing), and exactly the union is re-synced |
| AdvisoryService.Service.RefreshAllCities | src/main/java/org/pyt/traveladvisor/service/AdvisoryService.java:115-125 | `GlobalRefreshed`: no key is added, every result is an UPDATE of a distinct stored key carrying the record its key's sync produced (a failed city reports nothing), every successful sync is reported, and exactly the stored keys are re-synced |
| AdvisoryService.Service.Refresh | src/main/java/org/pyt/traveladvisor/service/AdvisoryService.java:67-80 | a city refresh fails exactly on an invalid name, with validate's error and the store untouched, and otherwise is the audited sync of the normalised key with its upsert; a country alone never fails and meets `CountryRefreshed` for the trimmed name; neither never fails and meets `GlobalRefreshed` |
| AdvisoryService.Service.DeleteCity | src/main/java/org/pyt/traveladvisor/service/AdvisoryService.java:161-167 | an invalid name is validate's error and deletes nothing; otherwise exactly the normalised key is removed |
| AdvisoryService.CreateThenUpdate | src/main/java/org/pyt/traveladvisor/service/AdvisoryService.java:194-212 | on a fresh service a first sync is CREATED, a second one UPDATED with the second time as createdAt, and a lookup by the name finds the second record |

## Left out

- Reactor plumbing: `Mono`/`Flux` become values, and a publisher that completes empty is a `None`. The `flatMap` fan-out with its `concurrency` bound is a sequential run in the model, so interleaved writes and their ordering are not modelled.
- `refreshAllCitiesInBatches` and the scheduler that calls it are not part of this model. Neither are the web layer (controller, bearer filter, exception handler, mapper) or the client and property configuration.
- HTTP calls are not modelled; what each call answers is an `Upstream` value. An empty body on the weather or country-by-code call has the same effect as a failed call: no record and no result. The model treats both as failures.
- The `maxRows`/`topN` limit is passed to GeoNames and never checked locally, so it is not modelled.
- Mongo is not modelled: the repository is the `store` map, `save` an upsert by key and `existsById` a key lookup. Store failures are not modelled.
- `Instant.now()` is read twice in `buildAdvisory`; the model reads one `now` parameter for both.
- Logging is left out.
- TimeUtil.ToReadable, AdvisoryEngine.ParseClock: both formatters are built without a Locale, so their weekday names, month names and AM/PM markers follow the JVM's default format locale. The model takes that locale to be English.
- `String.toLowerCase` and `equalsIgnoreCase` are modelled over ASCII only; locale-specific and non-ASCII case mappings are not covered.
- Temperatures, wind speeds and the search bounds are `real`, so NaN and floating-point rounding are not modelled.
- `CountryApiResponseDto` as listed has no `cca2` field, though the service reads one. Each DTO is a record value with an `Option` wherever the code tests for null. List elements are taken to be non-null.
- The unchecked `get(0)` and `iterator().next()` of `buildAdvisory` are folded into `Buildable`. A response that would throw there counts as a failed sync (`MalformedResponse`), which the multi-city flows skip.
- `syncCityWithAuditSafely` is folded into the run, which skips failed cities.
- HashSet iteration order is left open (`Enumerate`). The results hold for every order.
- In a country refresh, a failed normalisation of a stored city errors the whole zip, which then resumes empty. So do an empty country or GeoNames body, which leave nothing to zip.
- TimeUtil.ToReadable: the limit is LocalDate's year range, not `Instant`'s exact bounds: `Renderable` admits every instant whose shifted date lies within years -999999999..999999999. The `long` overflow of `epoch + timezoneOffset` is not modelled.

## Findings

| source | as written | input that shows it | evidently intended | confidence | as-written member | corrected member |
|---|---|---|---|---|---|---|
| src/main/java/org/pyt/traveladvisor/service/AdvisoryService.java:233-234 | sunrise and sunset are stored as `toReadable` text (`"EEE, dd MMM yyyy hh:mm a"`), which the engine then parses with `"hh:mm a"` | any successful sync: sunrise at epoch 0, offset 0, is stored as "Thu, 01 Jan 1970 12:00 AM"; the parse fails on its first character, so the short-daylight fragment never appears, even for a six-hour day | store only the `"hh:mm a"` clock of the local time, so the daylight rule fires for days under ten hours | not executed; high | AdvisoryService.ReadableTimeNeverParses, AdvisoryService.SyncedAdviceLacksDaylight | AdvisoryService.SunClockText, AdvisoryService.CorrectedWeather, AdvisoryService.CorrectedDaylight |
| src/main/java/org/pyt/traveladvisor/service/AdvisoryService.java:251-252 | `createdAt` is set to now on every build, so each re-sync overwrites the creation time | sync a new city at t1, then again at t2 != t1: the stored createdAt is t2 | keep the existing record's createdAt on an update and set it only when the key is new | not executed; medium (the name states the intent; a client may rely on the reset) | AdvisoryService.CreatedAtOverwritten, AdvisoryService.SecondSyncUpdates | AdvisoryService.CreateOnceResult, AdvisoryService.CreateOnceStore, AdvisoryService.CreatedAtSetOnce |

The service methods keep the code's behaviour as written. The corrected definitions stand beside
them, with their intended properties proved.
