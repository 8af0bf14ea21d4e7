# realteeth core in Dafny

This project models the logic at the core of realteeth, a Korean weather web
app. A user searches a district such as "대전광역시-서구-가수원동", the
server geocodes it through a fallback list of query strings, and the app
shows the weather for the place found. Places can be bookmarked in a
favorites list. The model covers:

- the geocoding route (`app/api/geocode/route.ts`): the candidate queries
  built from a district name, the per-query provider call, the loop that
  stops at the first hit, and the order of the error checks;
- the favorites store (`features/favorites/model/store.ts`): add, remove,
  rename, membership and clear, as pure transitions on a list;
- the district autocomplete filter (`entities/location/lib/search.ts`);
- weather shaping: `computeTodayMinMax`, `transformWeatherResponse`, and the
  weather route's `getTodayMinMax` fold and check order;
- the geolocation hook's state machine (`useCurrentLocation.ts`);
- the decision logic of three components: the place page's favorite toggle
  and button, the favorite card's event handlers, and the weather card's
  choice of rendering.

The modules are:

- `Wrappers` and `Strings` (`strings.dfy`): JavaScript string behaviour.
  `split` on one character keeps empty pieces. `trim` uses the ECMAScript
  whitespace set. `toLowerCase` is ASCII only. `includes` and `replace(/-/g, …)`
  are also here.
- `Geocode` (`geocode.dfy`).
- `Favorites` (`favorites.dfy`).
- `DistrictSearch` (`search.dfy`).
- `Weather` (`weather.dfy`).
- `WeatherRoute` (`weather_route.dfy`).
- `CurrentLocation` (`location.dfy`).
- `WeatherCardView` (`weather_card.dfy`).
- `PlaceDetail` (`place_detail.dfy`).
- `FavoriteCard` (`favorite_card.dfy`).

Everything outside the program's own logic becomes a parameter:

- the romanization tables are `map<string, string>` values;
- the geocoding provider is a function from (query, API key) to a reply;
- the two weather upstream replies are values;
- the API key is an `Option<string>`;
- clock readings are plain values: `now` for `Date.now()` and `today` for
  the UTC date.

Temperatures and coordinates are `real`.

Two behaviours of the code are easy to miss, and the model follows the
code in both.

- The comment on `generateQueryVariations` lists four candidates for a
  three-segment district. The code pushes more of them.
- The first candidate is pushed unconditionally. So a district made only of
  dashes, or an empty one, yields the single candidate `"KR"`, not an empty
  list (`Geocode.SeparatorsOnlyYieldCountryCode`).

The candidate list is never deduplicated. With one segment, the first two
candidates are the same string. With two segments, the second and third
are. In both cases the provider is asked the same query twice.

## Model

| member | source | states |
|---|---|---|
| Strings.Trim | entities/location/lib/search.ts:17-22 | `trim()` gives the empty string exactly for an all-whitespace input; otherwise the result starts and ends with a non-whitespace character; the result is the input with only whitespace cut from its two ends |
| Strings.TrimIgnoresPadding | entities/location/lib/search.ts:17 | trimming ignores any leading and trailing whitespace added to the input |
| Strings.TrimLowerCommute | entities/location/lib/search.ts:17-25 | trimming then lower-casing equals lower-casing then trimming |
| Strings.ReplaceDashesIsSplitJoin | widgets/place-detail/ui/PlaceDetailWidget.tsx:122 | replacing every dash equals splitting on dashes and joining with the replacement |
| Geocode.Segments | app/api/geocode/route.ts:10 | the segments of a district are non-empty and contain no dash |
| Geocode.SegmentsOfJoin | app/api/geocode/route.ts:10 | splitting non-empty, dash-free segments joined by dashes gives back exactly those segments |
| Geocode.JoinOfSegments | app/api/geocode/route.ts:10 | a district with no leading, trailing or doubled dash is its segments joined by dashes |
| Geocode.SegmentsIgnoreRepeatedSeparator | app/api/geocode/route.ts:10 | "a--b" has the same segments as "a-b" |
| Geocode.QueryVariationsIgnoreRepeatedSeparator | app/api/geocode/route.ts:9-10 | "a--b" and "a-b" produce identical candidate lists |
| Geocode.Candidates | app/api/geocode/route.ts:9-50 | between 1 and 8 candidates; the first is the reversed segments followed by "KR" joined by ", "; with no segment the list is exactly ["KR"]; "first, KR" sits at index 1 or 2; with two or more segments the second is the address without its last segment and the last is "second, South Korea" |
| Geocode.CandidatesAreOrderedSlots | app/api/geocode/route.ts:14-49 | the candidates are exactly the present ones among eight kinds taken in a fixed order, each present only under its condition (segment count, province hit, county hit) |
| Geocode.SeparatorsOnlyYieldCountryCode | app/api/geocode/route.ts:10-15 | a district of dashes only, or an empty one, still yields one candidate, "KR" |
| Geocode.OneSegmentRepeatsProvince | app/api/geocode/route.ts:15-28 | with one segment the full address and the province query are the same string |
| Geocode.TwoSegmentsRepeatProvince | app/api/geocode/route.ts:20-28 | with two segments candidates 2 and 3 are both "first, KR" |
| Geocode.TryGeocode | app/api/geocode/route.ts:52-66 | a result exists iff the call did not throw, the status was ok and the body is a non-empty array; it is then the first element |
| Geocode.ResolveCandidates | app/api/geocode/route.ts:92-101 | the queries sent are a prefix of the candidates, in order; a hit returns the lat/lon/name of the first candidate that hits, after exactly that many calls; without a hit every candidate is tried once |
| Geocode.ResolutionIsDeterministic | app/api/geocode/route.ts:92-101 | any two loop outcomes for the same candidates and provider agree on the result and on the queries sent |
| Geocode.FirstHitWins | app/api/geocode/route.ts:92-101 | when candidate k is the first that hits, k + 1 queries are sent and its location is returned |
| Geocode.HandleGeocode | app/api/geocode/route.ts:68-115 | a missing or empty query gives MISSING_QUERY (400) with no provider call; then a missing key gives INTERNAL_ERROR (500) with no call; otherwise the loop runs over the query's candidates and the answer is the location (200) or NOT_FOUND (404) |
| Favorites.IsFavorite | features/favorites/model/store.ts:56-58 | holds iff some entry has the id |
| Favorites.AddFavorite | features/favorites/model/store.ts:20-40 | no change when the id is stored or the list holds 6 entries; otherwise exactly one entry with the timestamp is appended and the prefix is kept |
| Favorites.RemoveFavorite | features/favorites/model/store.ts:42-46 | the id is no longer stored, an entry survives iff its id differs, and an absent id leaves the list unchanged |
| Favorites.UpdateAlias | features/favorites/model/store.ts:48-54 | same length and order; only the display name of entries with the id changes |
| Favorites.ClearAll | features/favorites/model/store.ts:60-62 | the list becomes empty |
| Favorites.ActionsPreserveValid | features/favorites/model/store.ts:20-62 | every action keeps the ids pairwise distinct and the length at most 6 (features/favorites/types/index.ts:10) |
| Favorites.AddPreservesValid | features/favorites/model/store.ts:20-40 | adding keeps ids distinct and the length bounded |
| Favorites.RemovePreservesValid | features/favorites/model/store.ts:42-46 | removing keeps ids distinct and the length bounded |
| Favorites.RemoveCutsOutEntry | features/favorites/model/store.ts:42-46 | removing an id stored once cuts out exactly that entry and keeps the others in order |
| Favorites.RemoveUndoesAdd | features/favorites/model/store.ts:20-46 | adding a new place to a list with room and removing it restores the list |
| Favorites.AddMakesFavorite | features/favorites/model/store.ts:20-40 | after adding, the place is stored iff it already was or there was room |
| Favorites.UpdateAliasKeepsMembership | features/favorites/model/store.ts:48-54 | renaming never changes which ids are stored |
| Favorites.UpdateAliasIdempotent | features/favorites/model/store.ts:48-54 | renaming twice to the same name equals renaming once; an absent id changes nothing |
| DistrictSearch.Matching | entities/location/lib/search.ts:27-29 | keeps exactly the districts whose lower-cased form contains the needle |
| DistrictSearch.MatchingConcat | entities/location/lib/search.ts:27-29 | the filter distributes over concatenation, so it keeps input order and repeated entries |
| DistrictSearch.MatchingOne | entities/location/lib/search.ts:27-29 | a single district is kept exactly when its lower-cased form contains the needle |
| DistrictSearch.SliceTo | entities/location/lib/search.ts:32 | `slice(0, end)` gives a prefix of length min(end, n), or n + end when end is negative |
| DistrictSearch.SearchDistricts | entities/location/lib/search.ts:12-33 | a blank query gives []; at most maxResults results; every result contains the trimmed, lower-cased query; the result is a prefix of the matches, all of them when they fit and exactly maxResults otherwise |
| DistrictSearch.DefaultLimit | entities/location/lib/search.ts:3 | with the default limit at most 20 districts are returned |
| DistrictSearch.SearchIgnoresPadding | entities/location/lib/search.ts:17 | leading and trailing whitespace in the query does not change the result |
| DistrictSearch.SearchIsCaseInsensitive | entities/location/lib/search.ts:25-28 | queries equal up to ASCII case give the same result |
| Weather.ComputeTodayMinMax | entities/weather/lib/compute.ts:3-12 | (0, 0) for no entries; otherwise min and max bound every temperature and are each attained; min <= max; one entry gives its own temperature twice |
| Weather.TransformWeatherResponse | entities/weather/lib/transform.ts:3-19 | the temperature is copied; description and icon come from the first condition or are ""; today's range comes from the first daily entry or is (0, 0); hourly holds min(24, n) entries, each with the input's time and temperature and its first icon or "" |
| WeatherRoute.DatePart | app/api/weather/route.ts:38 | the text before the first space: a prefix without spaces that is either the whole text or is followed in it by a space |
| WeatherRoute.TodayMinMax | app/api/weather/route.ts:31-46 | the bounds only widen; every item dated today lies within them; each bound is its start value or some today item's bound; with no item dated today the start values come back |
| WeatherRoute.ShapeForecast | app/api/weather/route.ts:106-110 | the first min(8, n) forecast items, each shaped from the item at the same index |
| WeatherRoute.HandleWeather | app/api/weather/route.ts:48-121 | missing coordinates give MISSING_COORDINATES (400) before anything else; then a missing key gives INTERNAL_ERROR (500) with no upstream call; API_ERROR exactly when the inputs are present and an upstream reply is not ok; NOT_FOUND (404) exactly when both replies are ok and `main` or the condition list is missing or empty; 200 exactly when every check passes, with the current conditions, today's range from `getTodayMinMax` and the first 8 forecast items |
| CurrentLocation.ErrorMessage | entities/location/model/useCurrentLocation.ts:39-52 | codes 1, 2 and 3 map to their fixed messages and every other code to the generic one |
| CurrentLocation.ErrorMessagesDistinguishCodes | entities/location/model/useCurrentLocation.ts:39-52 | the three specific messages differ from each other, from the generic one and from the unsupported-browser message |
| CurrentLocation.FetchLocation | entities/location/model/useCurrentLocation.ts:11-26 | without support: error state with the unsupported message and no request; with support: loading with no coords and no error, and a request is made |
| CurrentLocation.OnPosition | entities/location/model/useCurrentLocation.ts:29-37 | success with the reported coordinates and no error |
| CurrentLocation.OnPositionError | entities/location/model/useCurrentLocation.ts:39-59 | error with no coordinates and the mapped message |
| CurrentLocation.RunStaysConsistent | entities/location/model/useCurrentLocation.ts:5-66 | from a consistent state, such as the idle initial state, every event sequence keeps error states free of coordinates and success states free of errors |
| CurrentLocation.RetryRecovers | entities/location/model/useCurrentLocation.ts:68-75 | from the initial state: fetch, error, retry and position give error, then loading, then success with the coordinates |
| WeatherCardView.SelectView | entities/weather/ui/WeatherCard.tsx:16-84 | loading selects the skeleton whatever else holds; then `noData` or neither data nor error selects the no-data notice; then an error selects the network-error notice even when data is present; otherwise the data; the `null` branch is never taken |
| PlaceDetail.DisplayName | widgets/place-detail/ui/PlaceDetailWidget.tsx:20 | the non-empty, dash-free text after the last dash, or the whole name when that text is empty |
| PlaceDetail.DisplayNameIsLastSegment | widgets/place-detail/ui/PlaceDetailWidget.tsx:20 | for "prefix-name" with a non-empty, dash-free name the display name is that name |
| PlaceDetail.Breadcrumb | widgets/place-detail/ui/PlaceDetailWidget.tsx:122 | the dash-separated segments joined by " > "; no dash remains |
| PlaceDetail.VisibleFavorites | features/favorites/model/useFavorites.ts:22 | the stored list once hydrated, no entries before |
| PlaceDetail.ToggleFavorite | widgets/place-detail/ui/PlaceDetailWidget.tsx:23-49 | remove by id when the place is the current favorite; otherwise add with the geocoded lat/lon when there is room and a location; nothing in every other case |
| PlaceDetail.HeaderButton | widgets/place-detail/ui/PlaceDetailWidget.tsx:87-105 | shown iff hydrated; the label reads 해제 iff the place is stored and 가득 참 iff it is not and the list is full; disabled iff the label reads 가득 참 |
| PlaceDetail.DisabledButtonDoesNothing | widgets/place-detail/ui/PlaceDetailWidget.tsx:37-49 | clicking a disabled button would issue no store action |
| PlaceDetail.ToggleFlipsMembership | widgets/place-detail/ui/PlaceDetailWidget.tsx:37-49 | clicking an enabled button issues an action that flips whether the place is stored, provided the place is stored or geocoded |
| PlaceDetail.UnhydratedSeesNoFavorites | widgets/place-detail/ui/PlaceDetailWidget.tsx:22-49 | before hydration no button is shown, the place is never a favorite and the toggle can only add |
| PlaceDetail.ToggleTwiceRestores | widgets/place-detail/ui/PlaceDetailWidget.tsx:37-49 | adding a place by the toggle and clicking again restores the list |
| PlaceDetail.RenderPage | widgets/place-detail/ui/PlaceDetailWidget.tsx:51-134 | a geocoding error gives the not-found page; otherwise the header button, a heading only once geocoding finished, and the weather card loading while either query loads |
| PlaceDetail.GeocodingShowsSkeletons | widgets/place-detail/ui/PlaceDetailWidget.tsx:111-134 | while geocoding runs, the heading is replaced by skeletons and the weather card shows its skeleton, whatever the weather query holds |
| FavoriteCard.InitialCard | widgets/favorite-list/ui/FavoriteCard.tsx:35-36 | the dialog starts closed with the display name in the buffer |
| FavoriteCard.RoutePlaceId | widgets/favorite-list/ui/FavoriteCard.tsx:39 | a path names a place iff it starts with "/place/", and the path is that prefix followed by the id |
| FavoriteCard.OnClick | widgets/favorite-list/ui/FavoriteCard.tsx:38-40 | one navigation, to the path naming the card's place |
| FavoriteCard.OnRemove | widgets/favorite-list/ui/FavoriteCard.tsx:42-48 | exactly the removal of the card's id; no navigation |
| FavoriteCard.OnEditClick | widgets/favorite-list/ui/FavoriteCard.tsx:50-57 | buffer reset to the display name, dialog open, no effect |
| FavoriteCard.OnInput | widgets/favorite-list/ui/FavoriteCard.tsx:132 | typing replaces the buffer only |
| FavoriteCard.OnOpenChange | widgets/favorite-list/ui/FavoriteCard.tsx:124 | the dialog's open flag follows the event; the buffer is kept |
| FavoriteCard.OnSaveAlias | widgets/favorite-list/ui/FavoriteCard.tsx:59-65 | a rename to the trimmed buffer is issued iff it is non-empty and differs from the display name; the dialog closes either way |
| FavoriteCard.OnKeyDown | widgets/favorite-list/ui/FavoriteCard.tsx:67-74 | Enter saves; any other key changes nothing |
| FavoriteCard.ClickOpensFavoritePage | widgets/favorite-list/ui/FavoriteCard.tsx:38-40 | a stored favorite's card opens a page on which that place is the current favorite and the button offers removal |
| FavoriteCard.RemoveDropsCard | widgets/favorite-list/ui/FavoriteCard.tsx:42-48 | after the card's removal its id is gone and every entry with another id is kept |
| FavoriteCard.SaveSetsAlias | widgets/favorite-list/ui/FavoriteCard.tsx:59-65 | in a valid store, saving a non-blank buffer leaves the card's entry named by the trimmed buffer and every other entry as it was; a blank buffer changes nothing |
| FavoriteCard.TypeThenKey | widgets/favorite-list/ui/FavoriteCard.tsx:50-74 | after opening the editor and typing, Enter closes the dialog and renames to the trimmed text exactly when it is non-blank and new; any other key keeps the dialog open and changes nothing |
| FavoriteCard.CancelDiscardsTyping | widgets/favorite-list/ui/FavoriteCard.tsx:124-133 | cancelling after typing closes the dialog without a store action, and reopening shows the stored name again |
| FavoriteCard.EditThenSave | widgets/favorite-list/ui/FavoriteCard.tsx:50-65 | opening the editor and saving at once renames only when the name has surrounding whitespace, which the save trims off |
| FavoriteCard.CardBody | widgets/favorite-list/ui/FavoriteCard.tsx:106-120 | skeleton iff loading; the no-data notice iff loaded without data; otherwise the current temperature and today's range |
| FavoriteCard.CardBodyAgreesWithWeatherCard | widgets/favorite-list/ui/FavoriteCard.tsx:106-120 | the card body makes the same choice as the weather card does with no error and no override |

## Left out

- Network and framework I/O are not modelled. This covers `fetch`, `NextRequest`/`NextResponse`, `process.env` and logging. The provider and the upstream replies are parameters, and so is the API key.
- Geocode.Tables: the contents of the romanization tables are not part of this model. The tables are parameters.
- Geocode.Romanized: inherited object keys such as "constructor" are not modelled. An entry whose value is the empty string counts as a miss, matching the truthiness test.
- Geocode.GeoHit: the provider's first array element is taken as it is (`data[0] as GeocodingResponse` is an unchecked cast). Its fields are assumed to be present.
- `encodeURIComponent` of the provider query, and `decodeURIComponent` of the place id, are not modelled. `PlaceDetail` takes the decoded full name as a parameter next to the id.
- The catch-all `INTERNAL_ERROR` of both routes is not modelled. It answers exceptions such as a body that is not JSON, or a forecast without `list`. The weather route's parsed bodies are assumed well-formed.
- WeatherRoute.HandleWeather: `Promise.all` is sequentialised. Both upstream requests are counted as made together.
- Clock readings are parameters: `Date.now()` is `now`, and today's UTC date is `today`. The conversion of `dt * 1000` to an ISO time string is not modelled: an hourly entry keeps the epoch seconds `dt`.
- Weather.TransformWeatherResponse: `|| 0` on a NaN daily bound is not modelled. Temperatures are `real`, with no NaN.
- Rounding of temperatures for display is not modelled, and neither is any markup.
- Zustand persistence (`localStorage`) and the timing of hydration are not modelled. Hydration is a boolean parameter.
- The react-query hooks, the router, and the other widgets and components are not modelled. The only exceptions are the three components above, whose decisions are modelled.
- Strings.ToLower: lower-casing is ASCII only. Non-ASCII case mappings are not modelled; Korean text has no case.
- Strings.IsWhitespace: the set is the one `String.prototype.trim` strips, ECMA-262's white space and line terminators. Each is taken as a single character; surrogate pairs are not modelled.
