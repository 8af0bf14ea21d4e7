/**
 * The `GET /api/weather` handler of `app/api/weather/route.ts`: input
 * validation, the two upstream requests (current conditions and the
 * 3-hourly forecast), the validity check of the current conditions, and
 * the shaping of the response, including the `getTodayMinMax` fold.
 *
 * The two upstream replies are parameters, taken in the order the source
 * awaits them; the handler reports how many upstream requests it made.
 * "Today" (the UTC date part of the current time) is the parameter `today`.
 */
module WeatherRoute {
  import opened Wrappers
  import opened Strings
  import opened Weather

  datatype MainBlock = MainBlock(temp: real, tempMin: real, tempMax: real)

  /** The current-conditions body; `main` and `weather` may be missing. */
  datatype CurrentBody = CurrentBody(main: Option<MainBlock>, weather: Option<seq<Condition>>)

  datatype ForecastItem = ForecastItem(dt: int, main: MainBlock, icons: seq<string>, dtTxt: string)

  datatype ForecastBody = ForecastBody(list: seq<ForecastItem>)

  /** An upstream reply: whether its status was 2xx, and its parsed body. */
  datatype Upstream<T> = Upstream(ok: bool, body: T)

  /** `item.dt_txt.split(' ')[0]`: the text before the first space. */
  function DatePart(dtTxt: string): (d: string)
    ensures d <= dtTxt && ' ' !in d
    ensures d == dtTxt || (|d| < |dtTxt| && dtTxt[|d|] == ' ')
    ensures ' ' !in dtTxt ==> d == dtTxt
  {
    SplitHeadIsPrefix(dtTxt, ' ');
    Split(dtTxt, ' ')[0]
  }

  predicate IsToday(item: ForecastItem, today: string)
  {
    DatePart(item.dtTxt) == today
  }

  function Min(a: real, b: real): real { if a <= b then a else b }

  function Max(a: real, b: real): real { if a >= b then a else b }

  /** The `for (const item of forecast.list)` loop of `getTodayMinMax`,
      started from the running `min` and `max`. Only items dated `today`
      contribute; the bounds only ever widen, and each is either its start
      value or the bound of a contributing item. */
  function TodayMinMax(items: seq<ForecastItem>, today: string, min: real, max: real): (r: WeatherToday)
    ensures r.min <= min && max <= r.max
    ensures forall i :: 0 <= i < |items| && IsToday(items[i], today) ==>
              r.min <= items[i].main.tempMin && items[i].main.tempMax <= r.max
    ensures r.min == min || exists i :: 0 <= i < |items| && IsToday(items[i], today) && r.min == items[i].main.tempMin
    ensures r.max == max || exists i :: 0 <= i < |items| && IsToday(items[i], today) && r.max == items[i].main.tempMax
    ensures (forall i :: 0 <= i < |items| ==> !IsToday(items[i], today)) ==> r == WeatherToday(min, max)
  {
    if |items| == 0 then WeatherToday(min, max)
    else
      var item := items[0];
      var min' := if IsToday(item, today) then Min(min, item.main.tempMin) else min;
      var max' := if IsToday(item, today) then Max(max, item.main.tempMax) else max;
      var r := TodayMinMax(items[1..], today, min', max');
      assert forall i :: 1 <= i < |items| ==> items[i] == items[1..][i - 1];
      r
  }

  /** `getTodayMinMax(forecast, currentMin, currentMax)`. */
  function GetTodayMinMax(forecast: ForecastBody, today: string, currentMin: real, currentMax: real): WeatherToday
  {
    TodayMinMax(forecast.list, today, currentMin, currentMax)
  }

  /** One forecast entry of the response: `temp` copied, first icon or `''`. */
  function ShapeItem(item: ForecastItem): WeatherHourly
  {
    WeatherHourly(item.dt, item.main.temp, FirstOrEmpty(item.icons))
  }

  /** `forecastData.list.slice(0, 8).map(...)`. */
  function ShapeForecast(items: seq<ForecastItem>, limit: nat): (r: seq<WeatherHourly>)
    ensures |r| == if |items| < limit then |items| else limit
    ensures forall i :: 0 <= i < |r| ==> r[i] == ShapeItem(items[i])
  {
    if |items| == 0 || limit == 0 then []
    else [ShapeItem(items[0])] + ShapeForecast(items[1..], limit - 1)
  }

  datatype WeatherError = MissingCoordinates | InternalError | ApiError | NotFound

  datatype WeatherResponse = Served(data: WeatherData) | Failed(error: WeatherError)

  /** The response and the number of upstream requests made for it. */
  datatype Outcome = Outcome(response: WeatherResponse, upstreamCalls: nat)

  function StatusOf(r: WeatherResponse): int
  {
    match r
    case Served(_) => 200
    case Failed(MissingCoordinates) => 400
    case Failed(NotFound) => 404
    case Failed(ApiError) => 500
    case Failed(InternalError) => 500
  }

  /** A query parameter or setting counts as given when present and non-empty. */
  predicate Given(s: Option<string>)
  {
    s.Some? && s.value != []
  }

  /** `GET /api/weather?lat=...&lon=...`. */
  function HandleWeather(lat: Option<string>, lon: Option<string>, apiKey: Option<string>,
                         current: Upstream<CurrentBody>, forecast: Upstream<ForecastBody>,
                         today: string): (r: Outcome)
    ensures !Given(lat) || !Given(lon) ==> r == Outcome(Failed(MissingCoordinates), 0)
    ensures Given(lat) && Given(lon) && !Given(apiKey) ==> r == Outcome(Failed(InternalError), 0)
    ensures Given(lat) && Given(lon) && Given(apiKey) ==> r.upstreamCalls == 2
    ensures r.response == Failed(ApiError) <==>
              Given(lat) && Given(lon) && Given(apiKey) && (!current.ok || !forecast.ok)
    ensures r.response.Served? <==>
              && Given(lat) && Given(lon) && Given(apiKey) && current.ok && forecast.ok
              && current.body.main.Some? && current.body.weather.Some? && |current.body.weather.value| > 0
    ensures r.response == Failed(NotFound) <==>
              && Given(lat) && Given(lon) && Given(apiKey) && current.ok && forecast.ok
              && (current.body.main.None? || current.body.weather.None? || |current.body.weather.value| == 0)
    ensures r.response.Served? ==>
              && current.body.main.Some? && current.body.weather.Some? && |current.body.weather.value| > 0
              && var main := current.body.main.value;
              && var w := current.body.weather.value[0];
              && var d := r.response.data;
              && d.current == WeatherCurrent(main.temp, w.description, w.icon)
              && d.today.min <= main.tempMin && main.tempMax <= d.today.max
              && d.today == GetTodayMinMax(forecast.body, today, main.tempMin, main.tempMax)
              && |d.hourly| == (if |forecast.body.list| < 8 then |forecast.body.list| else 8)
              && forall i :: 0 <= i < |d.hourly| ==> d.hourly[i] == ShapeItem(forecast.body.list[i])
    ensures StatusOf(r.response) == 200 <==> r.response.Served?
  {
    if !Given(lat) || !Given(lon) then Outcome(Failed(MissingCoordinates), 0)
    else if !Given(apiKey) then Outcome(Failed(InternalError), 0)
    else if !current.ok || !forecast.ok then Outcome(Failed(ApiError), 2)
    else
      var body := current.body;
      if body.main.None? || body.weather.None? || |body.weather.value| == 0 then Outcome(Failed(NotFound), 2)
      else
        var main := body.main.value;
        var todayMinMax := GetTodayMinMax(forecast.body, today, main.tempMin, main.tempMax);
        var data := WeatherData(
          WeatherCurrent(main.temp, FirstOrEmpty(Descriptions(body.weather.value)), FirstOrEmpty(Icons(body.weather.value))),
          todayMinMax,
          ShapeForecast(forecast.body.list, 8));
        Outcome(Served(data), 2)
  }
}
