/** The pure part of the Weather command (`utility::WeatherCommand::invoke`):
    argument check, location query, the service's two failure replies, and
    the parts of the forecast embed that do not involve floating point or
    date formatting. */
module Weather {
  import opened Wrappers
  import opened Text
  import opened Config
  import opened Compass

  const NO_ARGUMENTS: string := "You have provided no arguments!"
  const NO_LOCATION: string := "No location has been found by the query!"
  const CITY_URL: string := "https://openweathermap.org/city/"
  const FOOTER: string := "Provided by OpenWeather"

  /** What the weather service answers for a query. The temperature and
      pressure texts and the sunrise, sunset and current-date fields come
      from floating point and date formatting and are taken as given; the
      wind speed is already rounded and the bearing already in whole
      degrees. */
  datatype Report = Report(
    id: nat,
    name: string,
    country: Option<string>,
    condition: Option<string>,
    temperature: string,
    windSpeed: nat,
    windDegrees: int,
    humidity: nat,
    cloudiness: Option<nat>,
    pressure: string,
    times: seq<Field>)

  /** What Weather sends: the default reply for missing arguments, or the
      forecast embed with its author line, icon, link, fields and footer. */
  datatype WeatherReply =
    | NoArguments(reply: Reply)
    | Forecast(location: string, icon: string, url: string, fields: seq<Field>, footer: string)

  /** The query sent to the service: the arguments joined by single spaces;
      none at all when there are no arguments. */
  function Query(args: seq<string>): (q: Option<string>)
    ensures q.None? <==> |args| == 0
    ensures q.Some? ==> q.value == Join(args, " ")
  {
    if |args| == 0 then None else Some(Join(args, " "))
  }

  /** The query determines the arguments when none of them contains a space:
      splitting it on spaces, as the dispatcher split the message, gives
      them back. */
  lemma QueryRoundTrip(args: seq<string>)
    requires |args| >= 1
    requires forall i :: 0 <= i < |args| ==> ' ' !in args[i]
    ensures Query(args).Some? && Split(Query(args).value, ' ') == args
  {
    assert " " == [' '];
    SplitJoin(args, ' ');
  }

  /** The embed's author line: "name, country" when the report carries the
      country part, otherwise just the name. */
  function Location(w: Report): (r: string)
    ensures StartsWith(r, w.name)
    ensures r == w.name <==> w.country.None?
    ensures w.country.Some? ==> r[|w.name|..] == ", " + w.country.value
  {
    match w.country
    case Some(country) =>
      assert (w.name + ", " + country)[|w.name|..] == ", " + country;
      w.name + ", " + country
    case None => w.name
  }

  /** The Wind field: the speed in m/s, followed by the compass point when
      the bearing has one. */
  function WindText(speed: nat, degrees: int): (r: string)
    ensures StartsWith(r, Decimal(speed) + " m/s")
    ensures r == Decimal(speed) + " m/s" <==> WindDirection(degrees).None?
  {
    var base := Decimal(speed) + " m/s";
    match WindDirection(degrees)
    case Some(direction) =>
      assert |base + ", " + direction| > |base|;
      base + ", " + direction
    case None => base
  }

  /** For a bearing from 0 to 360 the Wind field names the compass sector
      of the bearing; outside that range it gives only the speed. */
  lemma WindTextNamesSector(speed: nat, degrees: int)
    ensures 0 <= degrees <= 360 ==>
      WindText(speed, degrees) == Decimal(speed) + " m/s, " + POINTS[Sector(degrees)]
    ensures !(0 <= degrees <= 360) ==> WindText(speed, degrees) == Decimal(speed) + " m/s"
  {
    if 0 <= degrees <= 360 {
      WindDirectionIsSector(degrees);
    }
  }

  /** The speed can be read back from the Wind field: it is the run of
      digits in front of " m/s". */
  lemma WindTextSpeed(speed: nat, degrees: int)
    ensures var r := WindText(speed, degrees);
      var n := |Decimal(speed)|;
      n + 4 <= |r| && r[n..n + 4] == " m/s" &&
      (forall i :: 0 <= i < n ==> IsDigit(r[i])) &&
      DigitsValue(r[..n]) == speed
  {
    var r := WindText(speed, degrees);
    var d := Decimal(speed);
    assert r[..|d| + 4] == d + " m/s";
    assert r[..|d|] == d;
    DecimalValue(speed);
  }

  /** A percentage field value such as "61%". */
  function Percent(n: nat): (r: string)
    ensures |r| >= 2 && r[|r| - 1] == '%'
    ensures forall i :: 0 <= i < |r| - 1 ==> IsDigit(r[i])
    ensures DigitsValue(r[..|r| - 1]) == n
  {
    DecimalValue(n);
    assert (Decimal(n) + "%")[..|Decimal(n)|] == Decimal(n);
    Decimal(n) + "%"
  }

  /** The forecast's fields in order: Condition (when reported),
      Temperature, Wind, Humidity, Cloudiness (when reported), Pressure,
      then the time fields. All but the time fields are inline. */
  function Fields(w: Report): (fs: seq<Field>)
    ensures |fs| == 4 + (if w.condition.Some? then 1 else 0) + (if w.cloudiness.Some? then 1 else 0) + |w.times|
    ensures fs[|fs| - |w.times|..] == w.times
    ensures forall i :: 0 <= i < |fs| - |w.times| ==> fs[i].inline
    ensures w.condition.Some? <==> fs[0].name == "Condition"
  {
    var main := WeatherFields(w);
    var fs := main + w.times;
    assert fs[|main|..] == w.times;
    assert fs[0] == main[0];
    fs
  }

  /** The inline fields that describe the weather itself. */
  function WeatherFields(w: Report): (fs: seq<Field>)
    ensures |fs| == 4 + (if w.condition.Some? then 1 else 0) + (if w.cloudiness.Some? then 1 else 0)
    ensures forall i :: 0 <= i < |fs| ==> fs[i].inline
    ensures w.condition.Some? <==> fs[0].name == "Condition"
  {
    var temperature := Field("Temperature", w.temperature, true);
    var wind := Field("Wind", WindText(w.windSpeed, w.windDegrees), true);
    var humidity := Field("Humidity", Percent(w.humidity), true);
    var pressure := Field("Pressure", w.pressure, true);
    match (w.condition, w.cloudiness)
    case (Some(c), Some(n)) =>
      [Field("Condition", c, true), temperature, wind, humidity, Field("Cloudiness", Percent(n), true), pressure]
    case (Some(c), None) => [Field("Condition", c, true), temperature, wind, humidity, pressure]
    case (None, Some(n)) => [temperature, wind, humidity, Field("Cloudiness", Percent(n), true), pressure]
    case (None, None) => [temperature, wind, humidity, pressure]
  }

  /** The forecast's link: the service's city page, whose last path segment
      is the city's id in decimal. */
  function CityUrl(id: nat): (url: string)
    ensures StartsWith(url, CITY_URL)
    ensures forall i :: |CITY_URL| <= i < |url| ==> IsDigit(url[i])
    ensures |url| > |CITY_URL| && DigitsValue(url[|CITY_URL|..]) == id
  {
    var url := CITY_URL + Decimal(id);
    assert url[|CITY_URL|..] == Decimal(id);
    DecimalValue(id);
    url
  }

  /** A report with every optional part present gives the six weather
      fields in order, each carrying its own quantity. */
  lemma FieldsOfFullReport(w: Report)
    requires w.condition.Some? && w.cloudiness.Some? && w.times == []
    ensures Fields(w) == [
      Field("Condition", w.condition.value, true),
      Field("Temperature", w.temperature, true),
      Field("Wind", WindText(w.windSpeed, w.windDegrees), true),
      Field("Humidity", Percent(w.humidity), true),
      Field("Cloudiness", Percent(w.cloudiness.value), true),
      Field("Pressure", w.pressure, true)]
  {
    assert WeatherFields(w) + w.times == WeatherFields(w);
  }

  /** Without the optional parts the forecast has Temperature, Wind,
      Humidity and Pressure, then the time fields. */
  lemma FieldsOfBareReport(w: Report)
    requires w.condition.None? && w.cloudiness.None?
    ensures Fields(w) == [
      Field("Temperature", w.temperature, true),
      Field("Wind", WindText(w.windSpeed, w.windDegrees), true),
      Field("Humidity", Percent(w.humidity), true),
      Field("Pressure", w.pressure, true)] + w.times
  {
  }

  /** `invoke` for Weather. Without arguments: the no-arguments reply, and
      the service is not asked. Otherwise the service is asked for the
      joined query; no report is the no-location error; the bot's avatar
      lookup failing is its error; else the forecast embed. */
  function WeatherCommand(args: seq<string>, service: string -> Option<Report>, avatar: Result<string>): (r: Result<WeatherReply>)
    ensures |args| == 0 <==> r == Ok(NoArguments(Reply(NO_ARGUMENTS, Failure)))
    ensures |args| > 0 && service(Query(args).value).None? ==> r == Err(NO_LOCATION)
    ensures |args| > 0 && service(Query(args).value).Some? && avatar.Err? ==> r == Err(avatar.error)
    ensures |args| > 0 && service(Query(args).value).Some? && avatar.Ok? ==> r.Ok? && r.value.Forecast?
    ensures r.Ok? && r.value.Forecast? ==>
      |args| > 0 && service(Query(args).value).Some? && avatar.Ok? &&
      var w := service(Query(args).value).value;
      r.value.location == Location(w) && r.value.icon == avatar.value &&
      r.value.url == CityUrl(w.id) && r.value.fields == Fields(w) &&
      r.value.footer == FOOTER
  {
    match Query(args)
    case None => Ok(NoArguments(Reply(NO_ARGUMENTS, Failure)))
    case Some(query) =>
      match service(query)
      case None => Err(NO_LOCATION)
      case Some(w) =>
        match avatar
        case Err(e) => Err(e)
        case Ok(icon) => Ok(Forecast(Location(w), icon, CityUrl(w.id), Fields(w), FOOTER))
  }

  /** Without arguments nothing about the service or the avatar matters:
      neither is consulted. */
  lemma NoServiceCallWithoutArguments(service1: string -> Option<Report>, service2: string -> Option<Report>,
                                      avatar1: Result<string>, avatar2: Result<string>)
    ensures WeatherCommand([], service1, avatar1) == WeatherCommand([], service2, avatar2)
  {
  }

  /** The service is consulted only about the joined query: two services
      that agree on it give the same outcome. */
  lemma ServiceSeesOnlyTheQuery(args: seq<string>, service1: string -> Option<Report>,
                                service2: string -> Option<Report>, avatar: Result<string>)
    requires |args| > 0 && service1(Join(args, " ")) == service2(Join(args, " "))
    ensures WeatherCommand(args, service1, avatar) == WeatherCommand(args, service2, avatar)
  {
  }

  /** A failed location lookup wins over a failed avatar lookup, because the
      service is asked first. */
  lemma LocationErrorFirst(args: seq<string>, service: string -> Option<Report>, e: string)
    requires |args| > 0 && service(Join(args, " ")).None?
    ensures WeatherCommand(args, service, Err(e)) == Err(NO_LOCATION)
  {
  }
}
