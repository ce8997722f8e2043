/**
  The favorites logic of the movie detail screen. The screen owns a view of
  the "@FavoriteList" storage slot (`slot`), the movie it shows (`movie`,
  absent until the detail has been fetched) and the `isFavorite` flag that
  drives the heart button. Each operation reads the slot, computes a new
  list with the transforms of `FavoriteList`, writes the slot back and sets
  the flag, as one atomic step.

  `storageFails` stands for a rejected storage call: the operation then
  takes its `catch` branch, which only logs, so nothing is written and the
  flag is not set.
*/
module MovieDetail {
  import opened Wrappers
  import opened FavoriteList

  class MovieDetailScreen {
    /** The list persisted under the storage key "@FavoriteList", already parsed: `None` when the key was never written. */
    var slot: Option<seq<Movie>>
    /** Whether the shown movie is believed to be a favorite. */
    var isFavorite: bool
    /** The fetched movie detail, `None` while loading. */
    var movie: Option<Movie>

    /** The flag agrees with the slot: true exactly when the shown movie's id is stored. */
    ghost predicate Consistent()
      reads this
    {
      match movie
      case None => !isFavorite
      case Some(m) => isFavorite <==> slot.Some? && Contains(slot.value, m.id)
    }

    /** A screen opened over whatever the storage holds: no movie yet, flag false. */
    constructor (stored: Option<seq<Movie>>)
      ensures slot == stored && movie == None && !isFavorite
      ensures Consistent()
    {
      slot := stored;
      movie := None;
      isFavorite := false;
    }

    /** `checkIsFavorite`: false on an absent slot or a failed read, else whether some entry has this id. */
    method CheckIsFavorite(movieId: int, storageFails: bool) returns (r: bool)
      ensures r <==> !storageFails && slot.Some? && Contains(slot.value, movieId)
      ensures r <==> !storageFails && slot.Some? && exists k :: 0 <= k < |slot.value| && slot.value[k].id == movieId
    {
      if storageFails {
        return false;
      }
      match slot
      case None =>
        r := false;
      case Some(favs) =>
        var i := 0;
        while i < |favs|
          invariant 0 <= i <= |favs|
          invariant forall k :: 0 <= k < i ==> favs[k].id != movieId
        {
          if favs[i].id == movieId {
            return true;
          }
          i := i + 1;
        }
        r := false;
    }

    /** The fetched detail is shown and the flag is set from the stored list. */
    method Load(data: Movie, storageFails: bool)
      modifies this
      ensures movie == Some(data) && slot == old(slot)
      ensures isFavorite <==> !storageFails && slot.Some? && Contains(slot.value, data.id)
      ensures !storageFails ==> Consistent()
    {
      movie := Some(data);
      isFavorite := CheckIsFavorite(data.id, storageFails);
    }

    /** `addFavorite`: appends `m` (no deduplication) and sets the flag. */
    method AddFavorite(m: Movie, storageFails: bool)
      modifies this
      ensures movie == old(movie)
      ensures storageFails ==> slot == old(slot) && isFavorite == old(isFavorite)
      ensures !storageFails ==> slot == Some(WithAdded(old(slot), m)) && isFavorite
      ensures !storageFails ==> slot.Some? && Contains(slot.value, m.id)
    {
      if storageFails {
        return;
      }
      var favMovieList := WithAdded(slot, m);
      slot := Some(favMovieList);
      isFavorite := true;
      AddedContains(old(slot), m, m.id);
    }

    /** `removeFavorite`: on a present slot drops every entry of this id and clears the flag; on an absent slot does nothing. */
    method RemoveFavorite(movieId: int, storageFails: bool)
      modifies this
      ensures movie == old(movie)
      ensures storageFails || old(slot).None? ==> slot == old(slot) && isFavorite == old(isFavorite)
      ensures !storageFails && old(slot).Some? ==> slot == Some(Without(old(slot).value, movieId)) && !isFavorite
      ensures !storageFails && old(slot).Some? ==> !Contains(slot.value, movieId)
    {
      if storageFails {
        return;
      }
      match slot
      case None =>
      case Some(favs) =>
        var favMovieList := Without(favs, movieId);
        slot := Some(favMovieList);
        isFavorite := false;
        WithoutNotContains(favs, movieId);
    }

    /** `handleFavoriteToggle`: removes the shown movie when the flag is set, adds it otherwise. */
    method HandleFavoriteToggle(storageFails: bool)
      requires movie.Some?
      modifies this
      ensures movie == old(movie)
      ensures storageFails ==> slot == old(slot) && isFavorite == old(isFavorite)
      ensures !storageFails && old(isFavorite) && old(slot).Some? ==>
        slot == Some(Without(old(slot).value, movie.value.id)) && !isFavorite
      ensures old(isFavorite) && old(slot).None? ==> slot == None && isFavorite
      ensures !storageFails && !old(isFavorite) ==> slot == Some(WithAdded(old(slot), movie.value)) && isFavorite
      ensures old(Consistent()) ==> Consistent()
      ensures old(Consistent()) && !storageFails ==> isFavorite == !old(isFavorite)
    {
      if isFavorite {
        RemoveFavorite(movie.value.id, storageFails);
      } else {
        AddFavorite(movie.value, storageFails);
      }
    }
  }

  /**
    Toggling a movie that is not a favorite twice restores a present stored
    list; an absent slot ends as a stored empty list, since removal writes
    back whatever the filter leaves.
  */
  method ToggleTwice(screen: MovieDetailScreen)
    requires screen.movie.Some? && screen.Consistent() && !screen.isFavorite
    modifies screen
    ensures old(screen.slot).Some? ==> screen.slot == old(screen.slot)
    ensures old(screen.slot).None? ==> screen.slot == Some([])
    ensures !screen.isFavorite && screen.Consistent()
  {
    screen.HandleFavoriteToggle(false);
    screen.HandleFavoriteToggle(false);
    if old(screen.slot).Some? {
      AddThenRemoveRestores(old(screen.slot).value, screen.movie.value);
    } else {
      AddedThenWithout(None, screen.movie.value);
    }
  }
}
