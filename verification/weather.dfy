/** The client's weather adapter: the four weather values of the app's
    schema, and the mapping from an OpenWeather current-weather response to
    the app's weather record. */
module Weather {
  import opened Wrappers

  /** The `weather` enum of the weather schema. */
  datatype AppWeather = Sunny | Cloudy | Rainy | Snowy

  function Name(w: AppWeather): string
  {
    match w
    case Sunny => "sunny"
    case Cloudy => "cloudy"
    case Rainy => "rainy"
    case Snowy => "snowy"
  }

  /** Validation against the enum: accepts exactly the four names. */
  function Parse(s: string): (r: Option<AppWeather>)
    ensures r.Some? ==> Name(r.value) == s
    ensures r.None? ==> forall w: AppWeather :: Name(w) != s
  {
    if s == "sunny" then Some(Sunny)
    else if s == "cloudy" then Some(Cloudy)
    else if s == "rainy" then Some(Rainy)
    else if s == "snowy" then Some(Snowy)
    else None
  }

  /** Every schema value survives printing and re-validation. */
  lemma ParseName(w: AppWeather)
    ensures Parse(Name(w)) == Some(w)
  {
  }

  /** The weather value for an OpenWeather condition code. Every integer
      code lands in exactly one of the four values, by range. */
  function Classify(code: int): (w: AppWeather)
    ensures w == Rainy <==> 200 <= code < 600
    ensures w == Snowy <==> 600 <= code < 700
    ensures w == Cloudy <==> 801 <= code
    ensures w == Sunny <==> code < 200 || 700 <= code <= 800
  {
    if code >= 200 && code < 600 then Rainy
    else if code >= 600 && code < 700 then Snowy
    else if code >= 801 then Cloudy
    else Sunny
  }

  /** The condition groups of the OpenWeather current-weather API, keyed by
      the code's hundreds digit: 2xx thunderstorm, 3xx drizzle, 5xx rain,
      6xx snow, 7xx atmosphere, 800 clear sky, 801-804 clouds. */
  datatype ConditionGroup = Thunderstorm | Drizzle | Rain | Snow | Atmosphere | Clear | Clouds

  function Group(code: int): Option<ConditionGroup>
  {
    if 200 <= code < 300 then Some(Thunderstorm)
    else if 300 <= code < 400 then Some(Drizzle)
    else if 500 <= code < 600 then Some(Rain)
    else if 600 <= code < 700 then Some(Snow)
    else if 700 <= code < 800 then Some(Atmosphere)
    else if code == 800 then Some(Clear)
    else if 801 <= code <= 804 then Some(Clouds)
    else None
  }

  /** The app value each condition group is meant to show. */
  function GroupWeather(g: ConditionGroup): AppWeather
  {
    match g
    case Thunderstorm => Rainy
    case Drizzle => Rainy
    case Rain => Rainy
    case Snow => Snowy
    case Atmosphere => Sunny
    case Clear => Sunny
    case Clouds => Cloudy
  }

  /** On every code of a documented group, the range classifier agrees with
      the group's weather. Codes outside the groups still get a value:
      4xx codes read as rainy, codes below 200 as sunny, 805 and above as
      cloudy. */
  lemma ClassifyAgreesWithGroups(code: int)
    ensures Group(code).Some? ==> Classify(code) == GroupWeather(Group(code).value)
    ensures Group(code).None? ==>
      Classify(code) == (if code < 200 then Sunny else if code < 600 then Rainy else Cloudy)
  {
  }

  /** One entry of the response's `weather` array. */
  datatype Condition = Condition(id: int, description: string)

  /** The parts of an OpenWeather response the adapter reads; the
      temperature is given already converted to whole degrees Celsius. */
  datatype OpenWeatherData = OpenWeatherData(weather: seq<Condition>, name: string)

  /** The app's weather record. */
  datatype Report = Report(temperature: int, weather: AppWeather, description: string, location: string)

  /** `mapOpenWeatherToAppWeather`: classify the first condition and copy its
      description and the location name. A response with an empty `weather`
      array makes the source throw a TypeError on `weather[0].id`. */
  function MapOpenWeather(data: OpenWeatherData, celsius: int): (r: Result<Report, string>)
    ensures r.Failure? <==> |data.weather| == 0
    ensures r.Success? ==>
      && r.value.weather == Classify(data.weather[0].id)
      && r.value.description == data.weather[0].description
      && r.value.location == data.name
      && r.value.temperature == celsius
  {
    if |data.weather| == 0 then Failure("TypeError: weather[0] is undefined")
    else
      var first := data.weather[0];
      Success(Report(celsius, Classify(first.id), first.description, data.name))
  }

  /** Whatever the response, a produced record passes the schema's enum
      check, and only the first condition matters. */
  lemma MapOpenWeatherValid(data: OpenWeatherData, celsius: int, rest: seq<Condition>)
    requires |data.weather| > 0
    ensures MapOpenWeather(data, celsius).Success?
    ensures Parse(Name(MapOpenWeather(data, celsius).value.weather)).Some?
    ensures MapOpenWeather(data.(weather := data.weather[..1] + rest), celsius) == MapOpenWeather(data, celsius)
  {
    ParseName(MapOpenWeather(data, celsius).value.weather);
  }
}
