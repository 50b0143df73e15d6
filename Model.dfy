/** The records the pipeline reads and writes: the upstream responses (WeatherApiResponseDto,
    CountryApiResponseDto) and the persisted TravelAdvisory with its WeatherInfo and CountryInfo. */
module Model {
  import opened Wrappers

  /** An instant, as the number the caller's clock reports. */
  type Instant = int

  datatype WeatherInfo = WeatherInfo(
    description: string,
    temperature: real,
    feelsLike: real,
    humidity: int,
    windSpeed: real,
    sunrise: string,
    sunset: string)

  datatype CountryInfo = CountryInfo(
    name: string,
    currency: string,
    capital: string,
    timezones: seq<string>,
    languages: map<string, string>,
    flagUrl: string,
    population: int,
    region: string)

  /** The stored document; cityKey is its id. */
  datatype TravelAdvisory = TravelAdvisory(
    cityKey: string,
    city: string,
    weather: WeatherInfo,
    country: CountryInfo,
    syncedAt: Instant,
    createdAt: Instant)

  datatype AuditType = Created | Updated

  /** One multi-city result: the saved record and how its write was classified. */
  datatype Audited = Audited(advisory: TravelAdvisory, audit: AuditType)

  datatype MainDto = MainDto(temp: real, feelsLike: real, humidity: int)
  datatype WeatherDto = WeatherDto(description: string)
  datatype SysDto = SysDto(sunrise: int, sunset: int, country: string)

  /** The OpenWeather response: sunrise and sunset are epoch seconds, timezone the offset in seconds. */
  datatype WeatherApiResponse = WeatherApiResponse(
    main: MainDto,
    weather: seq<WeatherDto>,
    sys: SysDto,
    windSpeed: real,
    timezone: int)

  /** The REST Countries response. currencies holds the keys of the currency object in document
      order; cca2 and capital may be absent. */
  datatype CountryApiResponse = CountryApiResponse(
    commonName: string,
    cca2: Option<string>,
    capital: Option<seq<string>>,
    timezones: seq<string>,
    languages: map<string, string>,
    flagPng: string,
    currencies: seq<string>,
    population: int,
    region: string)
}
