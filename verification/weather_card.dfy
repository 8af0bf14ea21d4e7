/**
 * The branch selection of `entities/weather/ui/WeatherCard.tsx`: which of
 * its four renderings the card shows for a loading flag, an optional
 * weather payload, an error flag and the `noData` override. The markup
 * itself, icons and rounding of temperatures are not modelled.
 */
module WeatherCardView {
  import opened Wrappers
  import opened Weather

  /** The card's renderings: skeleton placeholders, the "no data" notice,
      the network-error notice, or the conditions of a payload. */
  datatype View = Skeleton | NoDataNotice | NetworkErrorNotice | Conditions(data: WeatherData)

  /** The component body; `None` stands for its `return null`. */
  function SelectView(weather: Option<WeatherData>, isLoading: bool, hasError: bool, noData: bool): (r: Option<View>)
    ensures r.Some?
    ensures r == Some(Skeleton) <==> isLoading
    ensures r == Some(NoDataNotice) <==> !isLoading && (noData || (weather.None? && !hasError))
    ensures r == Some(NetworkErrorNotice) <==> !isLoading && !noData && hasError
    ensures r.Some? && r.value.Conditions? <==> !isLoading && !noData && !hasError && weather.Some?
    ensures r.Some? && r.value.Conditions? ==> r.value.data == weather.value
  {
    if isLoading then Some(Skeleton)
    else if noData || (weather.None? && !hasError) then Some(NoDataNotice)
    else if hasError then Some(NetworkErrorNotice)
    else if weather.None? then None
    else Some(Conditions(weather.value))
  }
}
