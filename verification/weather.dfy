/**
 * The weather domain model of `entities/weather/types/index.ts` and the two
 * pure helpers that shape provider data into it:
 * `computeTodayMinMax` (`entities/weather/lib/compute.ts`) and
 * `transformWeatherResponse` (`entities/weather/lib/transform.ts`).
 * Temperatures are `real`; an hourly entry keeps the provider's epoch
 * seconds `dt` where the source stores the ISO string made from it.
 */
module Weather {

  datatype WeatherCurrent = WeatherCurrent(temp: real, description: string, icon: string)

  datatype WeatherToday = WeatherToday(min: real, max: real)

  datatype WeatherHourly = WeatherHourly(dt: int, temp: real, icon: string)

  datatype WeatherData = WeatherData(current: WeatherCurrent, today: WeatherToday, hourly: seq<WeatherHourly>)

  /** The smallest temperature of a non-empty list (`Math.min(...temps)`). */
  function MinTemp(hourly: seq<WeatherHourly>): (m: real)
    requires |hourly| > 0
    ensures forall i :: 0 <= i < |hourly| ==> m <= hourly[i].temp
    ensures exists i :: 0 <= i < |hourly| && m == hourly[i].temp
  {
    if |hourly| == 1 then hourly[0].temp
    else
      var rest := MinTemp(hourly[1..]);
      assert forall i :: 1 <= i < |hourly| ==> hourly[i] == hourly[1..][i - 1];
      if hourly[0].temp <= rest then hourly[0].temp else rest
  }

  /** The largest temperature of a non-empty list (`Math.max(...temps)`). */
  function MaxTemp(hourly: seq<WeatherHourly>): (m: real)
    requires |hourly| > 0
    ensures forall i :: 0 <= i < |hourly| ==> hourly[i].temp <= m
    ensures exists i :: 0 <= i < |hourly| && m == hourly[i].temp
  {
    if |hourly| == 1 then hourly[0].temp
    else
      var rest := MaxTemp(hourly[1..]);
      assert forall i :: 1 <= i < |hourly| ==> hourly[i] == hourly[1..][i - 1];
      if hourly[0].temp >= rest then hourly[0].temp else rest
  }

  /** `computeTodayMinMax`: (0, 0) for no data, otherwise the extreme
      temperatures, each attained by some entry. */
  function ComputeTodayMinMax(hourly: seq<WeatherHourly>): (r: WeatherToday)
    ensures |hourly| == 0 ==> r == WeatherToday(0.0, 0.0)
    ensures |hourly| > 0 ==>
              && (forall i :: 0 <= i < |hourly| ==> r.min <= hourly[i].temp <= r.max)
              && (exists i :: 0 <= i < |hourly| && r.min == hourly[i].temp)
              && (exists i :: 0 <= i < |hourly| && r.max == hourly[i].temp)
    ensures r.min <= r.max
    ensures |hourly| == 1 ==> r.min == r.max == hourly[0].temp
  {
    if |hourly| == 0 then WeatherToday(0.0, 0.0)
    else WeatherToday(MinTemp(hourly), MaxTemp(hourly))
  }

  // ---------------------------------------------------------------------
  // `transformWeatherResponse`, over the provider's one-call response.

  datatype Condition = Condition(description: string, icon: string)

  datatype CurrentResponse = CurrentResponse(temp: real, weather: seq<Condition>)

  datatype DailyResponse = DailyResponse(min: real, max: real)

  datatype HourlyResponse = HourlyResponse(dt: int, temp: real, icons: seq<string>)

  datatype OpenWeatherResponse = OpenWeatherResponse(
    current: CurrentResponse,
    daily: seq<DailyResponse>,
    hourly: seq<HourlyResponse>)

  /** `list[0]?.field || ''` for a list of strings. */
  function FirstOrEmpty(xs: seq<string>): string
  {
    if |xs| == 0 then "" else xs[0]
  }

  function Descriptions(conds: seq<Condition>): (r: seq<string>)
    ensures |r| == |conds| && forall i :: 0 <= i < |conds| ==> r[i] == conds[i].description
  {
    if |conds| == 0 then [] else [conds[0].description] + Descriptions(conds[1..])
  }

  function Icons(conds: seq<Condition>): (r: seq<string>)
    ensures |r| == |conds| && forall i :: 0 <= i < |conds| ==> r[i] == conds[i].icon
  {
    if |conds| == 0 then [] else [conds[0].icon] + Icons(conds[1..])
  }

  /** One hourly entry: `temp` copied, the first icon or `''`. */
  function ShapeHour(h: HourlyResponse): WeatherHourly
  {
    WeatherHourly(h.dt, h.temp, FirstOrEmpty(h.icons))
  }

  /** `hourly.slice(0, limit).map(...)`. */
  function ShapeHours(hours: seq<HourlyResponse>, limit: nat): (r: seq<WeatherHourly>)
    ensures |r| == if |hours| < limit then |hours| else limit
    ensures forall i :: 0 <= i < |r| ==> r[i] == ShapeHour(hours[i])
  {
    if |hours| == 0 || limit == 0 then []
    else [ShapeHour(hours[0])] + ShapeHours(hours[1..], limit - 1)
  }

  /** `transformWeatherResponse`. */
  function TransformWeatherResponse(data: OpenWeatherResponse): (r: WeatherData)
    ensures r.current.temp == data.current.temp
    ensures |data.current.weather| == 0 ==> r.current.description == "" && r.current.icon == ""
    ensures |data.current.weather| > 0 ==>
              r.current.description == data.current.weather[0].description
              && r.current.icon == data.current.weather[0].icon
    ensures |data.daily| == 0 ==> r.today == WeatherToday(0.0, 0.0)
    ensures |data.daily| > 0 ==> r.today == WeatherToday(data.daily[0].min, data.daily[0].max)
    ensures |r.hourly| == if |data.hourly| < 24 then |data.hourly| else 24
    ensures forall i :: 0 <= i < |r.hourly| ==>
              && r.hourly[i].dt == data.hourly[i].dt
              && r.hourly[i].temp == data.hourly[i].temp
              && r.hourly[i].icon == (if |data.hourly[i].icons| > 0 then data.hourly[i].icons[0] else "")
  {
    var current := WeatherCurrent(
      data.current.temp,
      FirstOrEmpty(Descriptions(data.current.weather)),
      FirstOrEmpty(Icons(data.current.weather)));
    var today := if |data.daily| > 0 then WeatherToday(data.daily[0].min, data.daily[0].max)
                 else WeatherToday(0.0, 0.0);
    WeatherData(current, today, ShapeHours(data.hourly, 24))
  }
}
