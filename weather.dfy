/** The weather half of the window: the empty-city guard of `update_weather`
    and the choice of the text that `get_weather` puts on the label.

    The HTTP call and the JSON decoding are not modelled: what the provider
    answers is a `Reply` value, and the provider itself is a function from
    the request URL to that reply. The Kelvin-to-Celsius conversion and its
    two-decimal formatting are floating point; the reply carries their
    result as ready-made text. */
module Weather {

  datatype Option<T> = None | Some(value: T)

  /** `WEATHER_URL` up to the city. */
  const UrlPrefix := "http://api.openweathermap.org/data/2.5/weather?q="
  /** Between the city and the API key in `WEATHER_URL`. */
  const KeyParameter := "&appid="
  /** Label text for a failed reply that carries no `message`, and the head of
      the text shown when an exception was caught. */
  const Fallback := "Error fetching weather data"

  /** What a status-200 JSON body yields: the Celsius temperature already
      formatted with two decimals, and `weather[0]['description']`; or the
      text of whatever exception reading them raised (a missing key, an empty
      `weather` list, a `temp` that is not a number). */
  datatype Readings =
    | Readings(celsius: string, description: string)
    | Unreadable(error: string)

  /** What the provider answers: either `requests.get` or `response.json()`
      raised (transport failure, malformed body), or there is a status code,
      the body's optional `message` field and its readings. */
  datatype Reply =
    | Raised(error: string)
    | Answered(status: int, message: Option<string>, readings: Readings)

  /** The label text and, when an exception was caught, the error that
      `log_error` appends to the log file. */
  datatype Lookup = Lookup(info: string, logged: Option<string>)

  /** `WEATHER_URL.format(city=city, key=key)`. */
  function RequestUrl(city: string, key: string): (url: string)
    ensures |url| == |UrlPrefix| + |city| + |KeyParameter| + |key|
    ensures url[..|UrlPrefix|] == UrlPrefix
    ensures url[|UrlPrefix|..|UrlPrefix| + |city|] == city
    ensures url[|UrlPrefix| + |city|..|url| - |key|] == KeyParameter
    ensures url[|url| - |key|..] == key
  {
    UrlPrefix + city + KeyParameter + key
  }

  /** Opens the first line of the status-200 summary. */
  const TemperatureLabel := "Temperature: "
  /** Closes the first line of the summary and opens the second. */
  const WeatherLabel := "°C\nWeather: "

  /** The two-line summary for a status-200 reply: the Celsius text and the
      description, each readable back from its position. */
  function Summary(celsius: string, description: string): (text: string)
    ensures |text| == |TemperatureLabel| + |celsius| + |WeatherLabel| + |description|
    ensures text[..|TemperatureLabel|] == TemperatureLabel
    ensures text[|TemperatureLabel|..|TemperatureLabel| + |celsius|] == celsius
    ensures text[|TemperatureLabel| + |celsius|..|text| - |description|] == WeatherLabel
    ensures text[|text| - |description|..] == description
  {
    TemperatureLabel + celsius + WeatherLabel + description
  }

  /** The text of the `except` branch (`f"Error fetching weather data: {e}"`):
      the fallback, then `": "`, then the exception's text. */
  function Failure(error: string): (text: string)
    ensures |text| == |Fallback| + 2 + |error|
    ensures text[..|Fallback|] == Fallback
    ensures text[|Fallback|..|Fallback| + 2] == ": "
    ensures text[|Fallback| + 2..] == error
  {
    Fallback + ": " + error
  }

  /** `get_weather` once the provider has answered. */
  function GetWeather(reply: Reply): (r: Lookup)
    // A failed status shows the body's message, or the fixed fallback, and logs nothing.
    ensures reply.Answered? && reply.status != 200 ==>
      r.logged == None &&
      r.info == (if reply.message.Some? then reply.message.value else Fallback)
    // A status-200 reply with both readings shows their summary and logs nothing.
    ensures reply.Answered? && reply.status == 200 && reply.readings.Readings? ==>
      r.logged == None && r.info == Summary(reply.readings.celsius, reply.readings.description)
    // Something is logged exactly when an exception was raised, and then the
    // label shows the fallback followed by that exception's text.
    ensures r.logged.Some? <==>
      reply.Raised? || (reply.status == 200 && reply.readings.Unreadable?)
    ensures r.logged.Some? ==> r.info == Failure(r.logged.value)
    ensures r.logged.Some? ==>
      r.logged.value == if reply.Raised? then reply.error else reply.readings.error
  {
    match reply
    case Raised(e) => Lookup(Failure(e), Some(e))
    case Answered(status, message, readings) =>
      if status == 200 then
        match readings
        case Readings(celsius, description) => Lookup(Summary(celsius, description), None)
        case Unreadable(e) => Lookup(Failure(e), Some(e))
      else
        match message
        case Some(m) => Lookup(m, None)
        case None => Lookup(Fallback, None)
  }

  /** The window after `update_weather`: the label text, whether the
      warning dialog was raised, the URL requested (if any) and the error
      logged (if any). */
  datatype View = View(text: string, warned: bool, requested: Option<string>, logged: Option<string>)

  /** `update_weather` with the city field holding `city` and the label
      showing `shown`; `provider` stands for the HTTP round trip. */
  function UpdateWeather(city: string, key: string, shown: string, provider: string -> Reply): (r: View)
    // An empty city raises the warning, requests nothing and keeps the label.
    ensures r.warned <==> city == ""
    ensures city == "" ==> r.requested == None && r.logged == None && r.text == shown
    // Otherwise exactly one request is made, for that city, and the label
    // shows the lookup of the provider's reply.
    ensures city != "" ==>
      && r.requested == Some(RequestUrl(city, key))
      && var lookup := GetWeather(provider(r.requested.value));
         r.text == lookup.info && r.logged == lookup.logged
  {
    if city == "" then
      View(shown, true, None, None)
    else
      var url := RequestUrl(city, key);
      var lookup := GetWeather(provider(url));
      View(lookup.info, false, Some(url), lookup.logged)
  }
}
