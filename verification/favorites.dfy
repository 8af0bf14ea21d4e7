/**
 * The favorites store of `features/favorites/model/store.ts`: a list of
 * bookmarked places, at most `MaxFavorites` long and without two entries
 * for the same place. Each store action is a pure transition on the list;
 * the clock reading `Date.now()` is the parameter `now`.
 */
module Favorites {
  import opened Wrappers

  /** `MAX_FAVORITES`. */
  const MaxFavorites: nat := 6

  datatype Favorite = Favorite(
    placeId: string,
    fullName: string,
    displayName: string,
    lat: Option<real>,
    lon: Option<real>,
    addedAt: int)

  /** What `addFavorite` is given: a favorite without its timestamp. */
  datatype NewFavorite = NewFavorite(
    placeId: string,
    fullName: string,
    displayName: string,
    lat: Option<real>,
    lon: Option<real>)

  /** The store's invariant: bounded length and pairwise distinct ids. */
  ghost predicate Valid(favs: seq<Favorite>)
  {
    && |favs| <= MaxFavorites
    && forall i, j :: 0 <= i < j < |favs| ==> favs[i].placeId != favs[j].placeId
  }

  /** `isFavorite(placeId)`: `favorites.some(f => f.placeId === placeId)`. */
  function IsFavorite(favs: seq<Favorite>, placeId: string): (r: bool)
    ensures r <==> exists i :: 0 <= i < |favs| && favs[i].placeId == placeId
  {
    if |favs| == 0 then false
    else favs[0].placeId == placeId || IsFavorite(favs[1..], placeId)
  }

  /** `addFavorite`: nothing happens when the place is already stored or the
      list is full; otherwise the entry is appended with timestamp `now`. */
  function AddFavorite(favs: seq<Favorite>, f: NewFavorite, now: int): (r: seq<Favorite>)
    ensures IsFavorite(favs, f.placeId) ==> r == favs
    ensures |favs| >= MaxFavorites ==> r == favs
    ensures !IsFavorite(favs, f.placeId) && |favs| < MaxFavorites ==>
              && |r| == |favs| + 1
              && r[..|favs|] == favs
              && r[|favs|] == Favorite(f.placeId, f.fullName, f.displayName, f.lat, f.lon, now)
  {
    if IsFavorite(favs, f.placeId) then favs
    else if |favs| >= MaxFavorites then favs
    else favs + [Favorite(f.placeId, f.fullName, f.displayName, f.lat, f.lon, now)]
  }

  /** `removeFavorite`: `favorites.filter(f => f.placeId !== placeId)`. */
  function RemoveFavorite(favs: seq<Favorite>, placeId: string): (r: seq<Favorite>)
    ensures |r| <= |favs|
    ensures !IsFavorite(r, placeId)
    ensures forall x :: x in r <==> x in favs && x.placeId != placeId
    ensures !IsFavorite(favs, placeId) ==> r == favs
  {
    if |favs| == 0 then []
    else if favs[0].placeId == placeId then RemoveFavorite(favs[1..], placeId)
    else [favs[0]] + RemoveFavorite(favs[1..], placeId)
  }

  /** `updateAlias`: the entry with that id gets the new display name. */
  function UpdateAlias(favs: seq<Favorite>, placeId: string, displayName: string): (r: seq<Favorite>)
    ensures |r| == |favs|
    ensures forall i :: 0 <= i < |favs| ==>
              && r[i].placeId == favs[i].placeId
              && r[i].fullName == favs[i].fullName
              && r[i].lat == favs[i].lat && r[i].lon == favs[i].lon
              && r[i].addedAt == favs[i].addedAt
              && r[i].displayName == (if favs[i].placeId == placeId then displayName else favs[i].displayName)
  {
    if |favs| == 0 then []
    else
      var head := if favs[0].placeId == placeId then favs[0].(displayName := displayName) else favs[0];
      [head] + UpdateAlias(favs[1..], placeId, displayName)
  }

  /** `clearAll`. */
  function ClearAll(): (r: seq<Favorite>)
    ensures |r| == 0
  {
    []
  }

  /** The store's actions, for stating what every action preserves. */
  datatype Action =
    | Add(entry: NewFavorite, now: int)
    | Remove(placeId: string)
    | Rename(placeId: string, displayName: string)
    | Clear

  function Apply(favs: seq<Favorite>, a: Action): seq<Favorite>
  {
    match a
    case Add(entry, now) => AddFavorite(favs, entry, now)
    case Remove(id) => RemoveFavorite(favs, id)
    case Rename(id, name) => UpdateAlias(favs, id, name)
    case Clear => ClearAll()
  }

  /** Every action keeps the ids distinct and the list within `MaxFavorites`. */
  lemma ActionsPreserveValid(favs: seq<Favorite>, a: Action)
    requires Valid(favs)
    ensures Valid(Apply(favs, a))
  {
    match a
    case Add(entry, now) => AddPreservesValid(favs, entry, now);
    case Remove(id) => RemovePreservesValid(favs, id);
    case Rename(id, name) =>
    case Clear =>
  }

  lemma AddPreservesValid(favs: seq<Favorite>, f: NewFavorite, now: int)
    requires Valid(favs)
    ensures Valid(AddFavorite(favs, f, now))
  {
  }

  lemma {:induction false} RemovePreservesValid(favs: seq<Favorite>, placeId: string)
    requires Valid(favs)
    ensures Valid(RemoveFavorite(favs, placeId))
    decreases |favs|
  {
    if |favs| > 0 {
      RemovePreservesValid(favs[1..], placeId);
      if favs[0].placeId != placeId {
        var rest := RemoveFavorite(favs[1..], placeId);
        forall x | x in rest ensures x.placeId != favs[0].placeId {
          var k :| 0 < k < |favs| && favs[k] == x;
        }
      }
    }
  }

  /** Removing an id stored at index `k` only cuts out exactly that entry
      and keeps the others in order. */
  lemma {:induction false} RemoveCutsOutEntry(favs: seq<Favorite>, id: string, k: nat)
    requires k < |favs| && favs[k].placeId == id
    requires forall i :: 0 <= i < |favs| && i != k ==> favs[i].placeId != id
    ensures RemoveFavorite(favs, id) == favs[..k] + favs[k + 1..]
    decreases k
  {
    var tail := favs[1..];
    if k == 0 {
      assert !IsFavorite(tail, id) by {
        forall i | 0 <= i < |tail| ensures tail[i].placeId != id {
          assert tail[i] == favs[i + 1];
        }
      }
      assert favs[..0] + tail == tail;
    } else {
      forall i | 0 <= i < |tail| && i != k - 1 ensures tail[i].placeId != id {
        assert tail[i] == favs[i + 1];
      }
      assert tail[k - 1] == favs[k];
      RemoveCutsOutEntry(tail, id, k - 1);
      assert RemoveFavorite(favs, id) == [favs[0]] + (tail[..k - 1] + tail[k..]);
      TailSlices(favs, k);
    }
  }

  lemma TailSlices<T>(s: seq<T>, k: nat)
    requires 0 < k < |s|
    ensures [s[0]] + (s[1..][..k - 1] + s[1..][k..]) == s[..k] + s[k + 1..]
  {
    assert s[1..][..k - 1] == s[1..k];
    assert s[1..][k..] == s[k + 1..];
    assert s[..k] == [s[0]] + s[1..k];
  }

  /** Adding a new place to a list with room and then removing it restores
      the list. */
  lemma RemoveUndoesAdd(favs: seq<Favorite>, f: NewFavorite, now: int)
    requires !IsFavorite(favs, f.placeId) && |favs| < MaxFavorites
    ensures RemoveFavorite(AddFavorite(favs, f, now), f.placeId) == favs
  {
    var added := AddFavorite(favs, f, now);
    assert forall i :: 0 <= i < |favs| ==> added[i] == favs[i];
    RemoveCutsOutEntry(added, f.placeId, |favs|);
    assert added[..|favs|] == favs;
  }

  /** After `addFavorite` the place is stored exactly when it already was or
      there was room for it. */
  lemma AddMakesFavorite(favs: seq<Favorite>, f: NewFavorite, now: int)
    ensures IsFavorite(AddFavorite(favs, f, now), f.placeId)
            <==> IsFavorite(favs, f.placeId) || |favs| < MaxFavorites
  {
    var r := AddFavorite(favs, f, now);
    if !IsFavorite(favs, f.placeId) && |favs| < MaxFavorites {
      assert r[|favs|].placeId == f.placeId;
    }
  }

  /** Renaming never changes which places are stored. */
  lemma UpdateAliasKeepsMembership(favs: seq<Favorite>, placeId: string, name: string, other: string)
    ensures IsFavorite(UpdateAlias(favs, placeId, name), other) == IsFavorite(favs, other)
  {
    var r := UpdateAlias(favs, placeId, name);
    if IsFavorite(favs, other) {
      var i :| 0 <= i < |favs| && favs[i].placeId == other;
      assert r[i].placeId == other;
    }
    if IsFavorite(r, other) {
      var i :| 0 <= i < |r| && r[i].placeId == other;
      assert favs[i].placeId == other;
    }
  }

  /** Renaming to the name just given is a no-op; renaming an absent id
      changes nothing. */
  lemma UpdateAliasIdempotent(favs: seq<Favorite>, placeId: string, name: string)
    ensures UpdateAlias(UpdateAlias(favs, placeId, name), placeId, name) == UpdateAlias(favs, placeId, name)
    ensures !IsFavorite(favs, placeId) ==> UpdateAlias(favs, placeId, name) == favs
  {
    var once := UpdateAlias(favs, placeId, name);
    var twice := UpdateAlias(once, placeId, name);
    assert forall i :: 0 <= i < |favs| ==> twice[i] == once[i];
    if !IsFavorite(favs, placeId) {
      assert forall i :: 0 <= i < |favs| ==> once[i] == favs[i];
    }
  }
}
