/**
 * The event handlers of `widgets/favorite-list/ui/FavoriteCard.tsx`: each
 * takes the card's local state (the alias being edited and whether the edit
 * dialog is open) and returns the new state together with the effects it
 * causes, a navigation or a store action. The card's body (loading
 * skeletons, temperatures, the "no data" notice) is a view over the
 * weather query.
 */
module FavoriteCard {
  import opened Wrappers
  import opened Strings
  import opened Favorites
  import opened Weather
  import WeatherCardView
  import PlaceDetail

  datatype CardState = CardState(editValue: string, dialogOpen: bool)

  /** A card starts with the dialog closed and the alias buffer holding the
      current display name. */
  function InitialCard(fav: Favorite): (st: CardState)
    ensures st.editValue == fav.displayName && !st.dialogOpen
  {
    CardState(fav.displayName, false)
  }

  datatype Effect = Navigate(path: string) | Store(action: Action)

  /** The card state after an event, and what the event caused. */
  datatype Reaction = Reaction(state: CardState, effects: seq<Effect>)

  const PlaceRoute: string := "/place/"

  function PlacePath(placeId: string): string
  {
    PlaceRoute + placeId
  }

  /** The place a `/place/<id>` path names. */
  function RoutePlaceId(path: string): (r: Option<string>)
    ensures r.Some? <==> PlaceRoute <= path
    ensures r.Some? ==> PlacePath(r.value) == path
  {
    if PlaceRoute <= path then Some(path[|PlaceRoute|..]) else None
  }

  /** The store after the effects run in order; navigation leaves it as is. */
  function ApplyEffects(favs: seq<Favorite>, effects: seq<Effect>): seq<Favorite>
    decreases |effects|
  {
    if |effects| == 0 then favs
    else
      var next := match effects[0] case Navigate(_) => favs case Store(a) => Apply(favs, a);
      ApplyEffects(next, effects[1..])
  }

  /** `handleClick`: open the place's detail page. */
  function OnClick(fav: Favorite, st: CardState): (r: Reaction)
    ensures r.state == st
    ensures |r.effects| == 1 && r.effects[0].Navigate?
    ensures RoutePlaceId(r.effects[0].path) == Some(fav.placeId)
  {
    Reaction(st, [Navigate(PlacePath(fav.placeId))])
  }

  /** `handleRemove`: remove the place; the click does not reach the card, so
      there is no navigation. */
  function OnRemove(fav: Favorite, st: CardState): (r: Reaction)
    ensures r.state == st
    ensures r.effects == [Store(Remove(fav.placeId))]
  {
    Reaction(st, [Store(Remove(fav.placeId))])
  }

  /** `handleEditClick`: reset the buffer to the display name and open the
      dialog, without navigating. */
  function OnEditClick(fav: Favorite, st: CardState): (r: Reaction)
    ensures r.state == CardState(fav.displayName, true)
    ensures r.effects == []
  {
    Reaction(CardState(fav.displayName, true), [])
  }

  /** The input's `onChange`. */
  function OnInput(value: string, st: CardState): (r: Reaction)
    ensures r.state == st.(editValue := value)
    ensures r.effects == []
  {
    Reaction(st.(editValue := value), [])
  }

  /** The dialog's `onOpenChange` (cancel, escape, outside click). */
  function OnOpenChange(open: bool, st: CardState): (r: Reaction)
    ensures r.state == st.(dialogOpen := open)
    ensures r.effects == []
  {
    Reaction(st.(dialogOpen := open), [])
  }

  /** `handleSaveAlias`: rename to the trimmed buffer when it is non-empty
      and differs from the current name; the dialog closes either way. */
  function OnSaveAlias(fav: Favorite, st: CardState): (r: Reaction)
    ensures r.state == CardState(st.editValue, false)
    ensures |r.effects| <= 1
    ensures |r.effects| == 1 <==> Trim(st.editValue) != [] && Trim(st.editValue) != fav.displayName
    ensures |r.effects| == 1 ==> r.effects[0] == Store(Rename(fav.placeId, Trim(st.editValue)))
  {
    var trimmed := Trim(st.editValue);
    var effects := if trimmed != [] && trimmed != fav.displayName then [Store(Rename(fav.placeId, trimmed))] else [];
    Reaction(st.(dialogOpen := false), effects)
  }

  /** `handleKeyDown`: Enter saves; every other key is left to the input. */
  function OnKeyDown(key: string, fav: Favorite, st: CardState): (r: Reaction)
    ensures key == "Enter" ==> r == OnSaveAlias(fav, st)
    ensures key != "Enter" ==> r == Reaction(st, [])
  {
    if key == "Enter" then OnSaveAlias(fav, st) else Reaction(st, [])
  }

  /** A card shown for a stored favorite opens a detail page on which that
      place is already a favorite. */
  lemma ClickOpensFavoritePage(stored: seq<Favorite>, i: nat, st: CardState)
    requires i < |stored|
    ensures var path := OnClick(stored[i], st).effects[0].path;
            && RoutePlaceId(path) == Some(stored[i].placeId)
            && PlaceDetail.IsCurrentFavorite(true, stored, RoutePlaceId(path).value)
            && PlaceDetail.HeaderButton(true, stored, RoutePlaceId(path).value).value.caption == PlaceDetail.RemoveLabel
  {
  }

  /** Removing from the card drops exactly the card's place from the store. */
  lemma RemoveDropsCard(stored: seq<Favorite>, fav: Favorite, st: CardState)
    ensures var after := ApplyEffects(stored, OnRemove(fav, st).effects);
            && !IsFavorite(after, fav.placeId)
            && forall x :: x in stored && x.placeId != fav.placeId ==> x in after
  {
    var effects := OnRemove(fav, st).effects;
    assert effects[1..] == [];
  }

  /** Saving a non-blank alias on the card of the entry at `i` leaves that
      entry named by the trimmed alias and every other entry as it was;
      saving a blank alias changes nothing. */
  lemma {:induction false} SaveSetsAlias(stored: seq<Favorite>, i: nat, st: CardState)
    requires Valid(stored) && i < |stored|
    ensures var after := ApplyEffects(stored, OnSaveAlias(stored[i], st).effects);
            && |after| == |stored|
            && (Trim(st.editValue) != [] ==> after[i] == stored[i].(displayName := Trim(st.editValue)))
            && (forall j :: 0 <= j < |stored| && j != i ==> after[j] == stored[j])
            && (Trim(st.editValue) == [] ==> after == stored)
  {
    var fav := stored[i];
    var effects := OnSaveAlias(fav, st).effects;
    var trimmed := Trim(st.editValue);
    if |effects| == 1 {
      assert effects[1..] == [];
      var after := UpdateAlias(stored, fav.placeId, trimmed);
      assert ApplyEffects(stored, effects) == after;
      assert after[i] == stored[i].(displayName := trimmed);
    } else if trimmed != [] {
      assert stored[i] == stored[i].(displayName := trimmed);
    }
  }

  /** Opening the editor and saving at once renames only when the current
      name carries leading or trailing whitespace, which the save trims. */
  lemma EditThenSave(fav: Favorite, st: CardState)
    ensures var editing := OnEditClick(fav, st).state;
            OnSaveAlias(fav, editing).effects == [] <==>
              Trim(fav.displayName) == [] || Trim(fav.displayName) == fav.displayName
  {
  }

  /** Opening the editor, typing `v` and pressing a key: Enter closes the
      dialog and renames to the trimmed `v` exactly when that is non-blank
      and new; any other key keeps the dialog open with `v` in the buffer
      and changes nothing. */
  lemma TypeThenKey(fav: Favorite, v: string, key: string)
    ensures var typed := OnInput(v, OnEditClick(fav, InitialCard(fav)).state).state;
            var r := OnKeyDown(key, fav, typed);
            && (key == "Enter" ==>
                  && !r.state.dialogOpen
                  && (r.effects == [Store(Rename(fav.placeId, Trim(v)))] <==>
                        Trim(v) != [] && Trim(v) != fav.displayName)
                  && (r.effects == [] <==> Trim(v) == [] || Trim(v) == fav.displayName))
            && (key != "Enter" ==> r == Reaction(CardState(v, true), []))
  {
  }

  /** Cancelling after typing closes the dialog without touching the store,
      and reopening it shows the stored name again, not the abandoned text. */
  lemma CancelDiscardsTyping(stored: seq<Favorite>, fav: Favorite, v: string)
    ensures var typed := OnInput(v, OnEditClick(fav, InitialCard(fav)).state).state;
            var cancelled := OnOpenChange(false, typed);
            && !cancelled.state.dialogOpen
            && ApplyEffects(stored, cancelled.effects) == stored
            && OnEditClick(fav, cancelled.state).state.editValue == fav.displayName
  {
  }

  /** The card body: skeletons while the weather loads, then the current
      temperature with today's range, or the "no data" notice. */
  datatype Body = Loading | Temperatures(current: real, min: real, max: real) | NoData

  function CardBody(isLoading: bool, weather: Option<WeatherData>): (r: Body)
    ensures isLoading <==> r == Loading
    ensures r == NoData <==> !isLoading && weather.None?
    ensures r.Temperatures? ==>
              r == Temperatures(weather.value.current.temp, weather.value.today.min, weather.value.today.max)
  {
    if isLoading then Loading
    else if weather.Some? then
      Temperatures(weather.value.current.temp, weather.value.today.min, weather.value.today.max)
    else NoData
  }

  /** The card body makes the same choice as the full weather card does
      when there is no error and no `noData` override. */
  lemma CardBodyAgreesWithWeatherCard(isLoading: bool, weather: Option<WeatherData>)
    ensures var v := WeatherCardView.SelectView(weather, isLoading, false, false).value;
            && (CardBody(isLoading, weather) == Loading <==> v == WeatherCardView.Skeleton)
            && (CardBody(isLoading, weather) == NoData <==> v == WeatherCardView.NoDataNotice)
            && (CardBody(isLoading, weather).Temperatures? <==> v.Conditions?)
  {
  }
}
