/**
 * The decision logic of `widgets/place-detail/ui/PlaceDetailWidget.tsx`:
 * the display name and breadcrumb derived from a district's full name, the
 * favorite toggle (remove, add, or nothing), the favorite button's state,
 * and which parts of the page render for the geocoding and weather query
 * states. The decoded `fullName` is a parameter next to the raw `placeId`;
 * the query states are parameters too.
 */
module PlaceDetail {
  import opened Wrappers
  import opened Strings
  import opened Favorites
  import opened Weather
  import opened WeatherCardView
  import Geocode

  /** `fullName.split('-').pop() || fullName`: the text after the last dash,
      or the whole name when that text is empty. */
  function DisplayName(fullName: string): (r: string)
    ensures '-' !in fullName ==> r == fullName
    ensures r == [] <==> fullName == []
    ensures |fullName| > 0 && fullName[|fullName| - 1] == '-' ==> r == fullName
    ensures r == fullName ||
            (&& r != [] && '-' !in r && |r| < |fullName|
             && fullName[|fullName| - |r|..] == r
             && fullName[|fullName| - |r| - 1] == '-')
  {
    SplitHeadIsPrefix(fullName, '-');
    SplitLastIsSuffix(fullName, '-');
    var pieces := Split(fullName, '-');
    var last := pieces[|pieces| - 1];
    if last == [] then fullName else last
  }

  /** The name of a district path is its last segment. */
  lemma DisplayNameIsLastSegment(prefix: string, name: string)
    requires name != [] && '-' !in name
    ensures DisplayName(prefix + "-" + name) == name
  {
    SplitConcat(prefix, '-', name);
    SplitHeadIsPrefix(name, '-');
    assert prefix + "-" + name == prefix + ['-'] + name;
  }

  /** `fullName.replace(/-/g, ' > ')`: the segments joined by `" > "`. */
  function Breadcrumb(fullName: string): (r: string)
    ensures r == Join(Split(fullName, '-'), " > ")
    ensures '-' !in r
    ensures '-' !in fullName ==> r == fullName
  {
    ReplaceDashesIsSplitJoin(fullName, " > ");
    ReplaceDashes(fullName, " > ")
  }

  /** What `useFavorites` hands out: the stored list once hydrated, no
      entries before. */
  function VisibleFavorites(hydrated: bool, stored: seq<Favorite>): (r: seq<Favorite>)
    ensures hydrated ==> r == stored
    ensures !hydrated ==> r == []
  {
    if hydrated then stored else []
  }

  /** `isHydrated && isFavorite(placeId)`; the store is asked directly. */
  predicate IsCurrentFavorite(hydrated: bool, stored: seq<Favorite>, placeId: string)
  {
    hydrated && IsFavorite(stored, placeId)
  }

  /** `favorites.length < MAX_FAVORITES`, over the hydrated view. */
  predicate CanAddFavorite(hydrated: bool, stored: seq<Favorite>)
  {
    |VisibleFavorites(hydrated, stored)| < MaxFavorites
  }

  /** `handleToggleFavorite`: the store action it issues, if any. */
  function ToggleFavorite(hydrated: bool, stored: seq<Favorite>, placeId: string, fullName: string,
                          geo: Option<Geocode.GeoLocation>, now: int): (r: Option<Action>)
    ensures IsCurrentFavorite(hydrated, stored, placeId) ==> r == Some(Remove(placeId))
    ensures !IsCurrentFavorite(hydrated, stored, placeId) && CanAddFavorite(hydrated, stored) && geo.Some? ==>
              r == Some(Add(NewFavorite(placeId, fullName, DisplayName(fullName),
                                        Some(geo.value.lat), Some(geo.value.lon)), now))
    ensures r.None? <==>
              !IsCurrentFavorite(hydrated, stored, placeId) && (!CanAddFavorite(hydrated, stored) || geo.None?)
  {
    if IsCurrentFavorite(hydrated, stored, placeId) then Some(Remove(placeId))
    else if CanAddFavorite(hydrated, stored) && geo.Some? then
      Some(Add(NewFavorite(placeId, fullName, DisplayName(fullName), Some(geo.value.lat), Some(geo.value.lon)), now))
    else None
  }

  datatype Label = RemoveLabel | AddLabel | FullLabel

  function LabelText(l: Label): string
  {
    match l
    case RemoveLabel => "즐겨찾기 해제"
    case AddLabel => "즐겨찾기 추가"
    case FullLabel => "즐겨찾기 가득 참"
  }

  /** The favorite button: `filled` is the `default` variant (as opposed to
      `outline`). */
  datatype FavoriteButton = FavoriteButton(filled: bool, disabled: bool, caption: Label)

  /** The button rendered in the header; `None` before hydration. */
  function HeaderButton(hydrated: bool, stored: seq<Favorite>, placeId: string): (r: Option<FavoriteButton>)
    ensures r.Some? <==> hydrated
    ensures r.Some? ==>
              && (r.value.caption == RemoveLabel <==> IsFavorite(stored, placeId))
              && (r.value.caption == FullLabel <==> !IsFavorite(stored, placeId) && |stored| >= MaxFavorites)
              && (r.value.disabled <==> r.value.caption == FullLabel)
              && (r.value.filled <==> r.value.caption == RemoveLabel)
  {
    if !hydrated then None
    else
      var current := IsCurrentFavorite(hydrated, stored, placeId);
      var canAdd := CanAddFavorite(hydrated, stored);
      var caption := if current then RemoveLabel else if canAdd then AddLabel else FullLabel;
      Some(FavoriteButton(current, !current && !canAdd, caption))
  }

  /** A disabled button would not change the store if it were clicked. */
  lemma DisabledButtonDoesNothing(stored: seq<Favorite>, placeId: string, fullName: string,
                                  geo: Option<Geocode.GeoLocation>, now: int)
    requires HeaderButton(true, stored, placeId).Some? && HeaderButton(true, stored, placeId).value.disabled
    ensures ToggleFavorite(true, stored, placeId, fullName, geo, now).None?
  {
  }

  /** Clicking an enabled button flips whether the place is a favorite,
      unless the place is not yet geocoded. */
  lemma {:induction false} ToggleFlipsMembership(stored: seq<Favorite>, placeId: string, fullName: string,
                                                 geo: Option<Geocode.GeoLocation>, now: int)
    requires !HeaderButton(true, stored, placeId).value.disabled
    requires IsFavorite(stored, placeId) || geo.Some?
    ensures var a := ToggleFavorite(true, stored, placeId, fullName, geo, now);
            a.Some? && IsFavorite(Apply(stored, a.value), placeId) == !IsFavorite(stored, placeId)
  {
    var a := ToggleFavorite(true, stored, placeId, fullName, geo, now);
    if !IsFavorite(stored, placeId) {
      AddMakesFavorite(stored, a.value.entry, now);
    }
  }

  /** Before the store is hydrated the page sees no favorites: no button
      is shown, the place never counts as a favorite, and the toggle could
      only add, never remove. */
  lemma UnhydratedSeesNoFavorites(stored: seq<Favorite>, placeId: string, fullName: string,
                                  geo: Option<Geocode.GeoLocation>, now: int)
    ensures HeaderButton(false, stored, placeId).None?
    ensures !IsCurrentFavorite(false, stored, placeId)
    ensures var a := ToggleFavorite(false, stored, placeId, fullName, geo, now);
            (a.Some? <==> geo.Some?) && (a.Some? ==> a.value.Add?)
  {
    assert |VisibleFavorites(false, stored)| == 0;
  }

  /** Adding a place and then clicking again restores the list. */
  lemma ToggleTwiceRestores(stored: seq<Favorite>, placeId: string, fullName: string,
                            geo: Geocode.GeoLocation, now: int, later: int)
    requires !IsFavorite(stored, placeId) && |stored| < MaxFavorites
    ensures var added := Apply(stored, ToggleFavorite(true, stored, placeId, fullName, Some(geo), now).value);
            var back := ToggleFavorite(true, added, placeId, fullName, Some(geo), later);
            back.Some? && Apply(added, back.value) == stored
  {
    var entry := NewFavorite(placeId, fullName, DisplayName(fullName), Some(geo.lat), Some(geo.lon));
    AddMakesFavorite(stored, entry, now);
    RemoveUndoesAdd(stored, entry, now);
  }

  /** The place heading: display name over the breadcrumb. */
  datatype Heading = Heading(title: string, breadcrumb: string)

  /** What the page renders: the "not found" page when geocoding failed,
      otherwise the header button, the heading (skeletons while geocoding)
      and the weather card. */
  datatype Page =
    | PlaceNotFound
    | Detail(button: Option<FavoriteButton>, heading: Option<Heading>, card: Option<View>)

  function RenderPage(hydrated: bool, stored: seq<Favorite>, placeId: string, fullName: string,
                      geoLoading: bool, geoError: bool,
                      weather: Option<WeatherData>, weatherLoading: bool, weatherError: bool): (r: Page)
    ensures geoError <==> r == PlaceNotFound
    ensures r.Detail? ==>
              && r.button == HeaderButton(hydrated, stored, placeId)
              && (r.heading.None? <==> geoLoading)
              && (r.heading.Some? ==> r.heading.value == Heading(DisplayName(fullName), Breadcrumb(fullName)))
              && r.card == SelectView(weather, geoLoading || weatherLoading, weatherError, false)
  {
    if geoError then PlaceNotFound
    else
      var heading := if geoLoading then None else Some(Heading(DisplayName(fullName), Breadcrumb(fullName)));
      Detail(HeaderButton(hydrated, stored, placeId), heading,
             SelectView(weather, geoLoading || weatherLoading, weatherError, false))
  }

  /** While the place is being geocoded the page shows skeletons for both
      the heading and the weather card, whatever the weather query holds. */
  lemma GeocodingShowsSkeletons(hydrated: bool, stored: seq<Favorite>, placeId: string, fullName: string,
                                weather: Option<WeatherData>, weatherLoading: bool, weatherError: bool)
    ensures var p := RenderPage(hydrated, stored, placeId, fullName, true, false, weather, weatherLoading, weatherError);
            p.Detail? && p.heading.None? && p.card == Some(Skeleton)
  {
  }
}
