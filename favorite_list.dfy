/**
  The favorites list kept under the storage key "@FavoriteList": a sequence
  of movie records, in insertion order, with no uniqueness by id. This module
  holds the list transforms the detail screen applies to it: membership by id
  (`some`), appending (`[...old, movie]`) and removal by id (`filter`).
*/
module FavoriteList {
  import opened Wrappers

  /** A movie as the external API describes it. Only `id` matters to the list. */
  datatype Movie = Movie(
    id: int,
    title: string,
    overview: string,
    posterPath: string,
    backdropPath: string,
    releaseDate: string,
    originalLanguage: string,
    voteCount: int)

  /** `favs.some(fav => fav.id === id)`: true exactly when some index holds an entry of this id. */
  function Contains(favs: seq<Movie>, id: int): (r: bool)
    ensures r <==> exists k :: 0 <= k < |favs| && favs[k].id == id
  {
    if favs == [] then false
    else favs[0].id == id || Contains(favs[1..], id)
  }

  /** The number of entries carrying this id (duplicates are possible). */
  function CountId(favs: seq<Movie>, id: int): nat
  {
    if favs == [] then 0
    else (if favs[0].id == id then 1 else 0) + CountId(favs[1..], id)
  }

  /** `favs.filter(m => m.id !== id)`: every entry of this id dropped. */
  function Without(favs: seq<Movie>, id: int): (r: seq<Movie>)
    ensures |r| <= |favs|
    ensures forall k :: 0 <= k < |r| ==> r[k].id != id
  {
    if favs == [] then []
    else if favs[0].id == id then Without(favs[1..], id)
    else [favs[0]] + Without(favs[1..], id)
  }

  /** The list `addFavorite` writes: `[movie]` on an absent slot, else the old list with `movie` at the end. */
  function WithAdded(slot: Option<seq<Movie>>, movie: Movie): (r: seq<Movie>)
    ensures |r| >= 1 && r[|r| - 1] == movie
    ensures slot.None? ==> r == [movie]
    ensures slot.Some? ==> |r| == |slot.value| + 1 && r[..|slot.value|] == slot.value
  {
    match slot
    case None => [movie]
    case Some(old_favs) => old_favs + [movie]
  }

  /** `sub` is `s` with some entries deleted, the others kept in their relative order. */
  predicate IsSubsequence(sub: seq<Movie>, s: seq<Movie>)
  {
    if sub == [] then true
    else if s == [] then false
    else if sub[0] == s[0] then IsSubsequence(sub[1..], s[1..])
    else IsSubsequence(sub, s[1..])
  }

  // ---------------------------------------------------------------- membership

  /** An id is present exactly when it is counted at least once. */
  lemma {:induction false} ContainsCount(favs: seq<Movie>, id: int)
    ensures Contains(favs, id) <==> CountId(favs, id) > 0
  {
    if favs != [] {
      ContainsCount(favs[1..], id);
    }
  }

  /** Membership in a concatenation is membership in either part. */
  lemma {:induction false} ContainsConcat(a: seq<Movie>, b: seq<Movie>, id: int)
    ensures Contains(a + b, id) <==> Contains(a, id) || Contains(b, id)
  {
    if a != [] {
      assert (a + b)[0] == a[0];
      assert (a + b)[1..] == a[1..] + b;
      ContainsConcat(a[1..], b, id);
    } else {
      assert a + b == b;
    }
  }

  /** Counting distributes over concatenation. */
  lemma {:induction false} CountConcat(a: seq<Movie>, b: seq<Movie>, id: int)
    ensures CountId(a + b, id) == CountId(a, id) + CountId(b, id)
  {
    if a != [] {
      assert (a + b)[0] == a[0];
      assert (a + b)[1..] == a[1..] + b;
      CountConcat(a[1..], b, id);
    } else {
      assert a + b == b;
    }
  }

  // ---------------------------------------------------------------- adding

  /** After adding, the added id is present and every other id is present exactly when it was before. */
  lemma AddedContains(slot: Option<seq<Movie>>, movie: Movie, id: int)
    ensures Contains(WithAdded(slot, movie), movie.id)
    ensures Contains(WithAdded(slot, movie), id) <==> id == movie.id || (slot.Some? && Contains(slot.value, id))
  {
    match slot
    case None =>
    case Some(favs) => ContainsConcat(favs, [movie], id); ContainsConcat(favs, [movie], movie.id);
  }

  /** Adding does not deduplicate: one more entry of the added id, whatever was there. */
  lemma AddedCount(favs: seq<Movie>, movie: Movie)
    ensures CountId(WithAdded(Some(favs), movie), movie.id) == CountId(favs, movie.id) + 1
  {
    CountConcat(favs, [movie], movie.id);
  }

  /** Adding a movie already present leaves it in the list twice or more. */
  lemma AddedDuplicates(favs: seq<Movie>, movie: Movie)
    requires Contains(favs, movie.id)
    ensures CountId(WithAdded(Some(favs), movie), movie.id) >= 2
  {
    ContainsCount(favs, movie.id);
    AddedCount(favs, movie);
  }

  // ---------------------------------------------------------------- removing

  /** Filtering distributes over concatenation, so it acts entry by entry and keeps order. */
  lemma {:induction false} WithoutConcat(a: seq<Movie>, b: seq<Movie>, id: int)
    ensures Without(a + b, id) == Without(a, id) + Without(b, id)
  {
    if a != [] {
      assert (a + b)[0] == a[0];
      assert (a + b)[1..] == a[1..] + b;
      WithoutConcat(a[1..], b, id);
    } else {
      assert a + b == b;
    }
  }

  /** An entry survives removal exactly when it was there and carries another id. */
  lemma {:induction false} WithoutMembers(favs: seq<Movie>, id: int, m: Movie)
    ensures m in Without(favs, id) <==> m in favs && m.id != id
  {
    if favs != [] {
      WithoutMembers(favs[1..], id, m);
      assert favs == [favs[0]] + favs[1..];
    }
  }

  /** After removal the id is absent. */
  lemma WithoutNotContains(favs: seq<Movie>, id: int)
    ensures !Contains(Without(favs, id), id)
  {
  }

  /** Removal leaves the presence of every other id as it was. */
  lemma {:induction false} WithoutContainsOther(favs: seq<Movie>, id: int, other: int)
    requires other != id
    ensures Contains(Without(favs, id), other) <==> Contains(favs, other)
  {
    if favs != [] {
      WithoutContainsOther(favs[1..], id, other);
    }
  }

  /** Exactly the entries of the removed id disappear. */
  lemma {:induction false} WithoutLength(favs: seq<Movie>, id: int)
    ensures |Without(favs, id)| + CountId(favs, id) == |favs|
  {
    if favs != [] {
      WithoutLength(favs[1..], id);
    }
  }

  /** Removing an id that is not present leaves the list unchanged. */
  lemma {:induction false} WithoutAbsent(favs: seq<Movie>, id: int)
    requires !Contains(favs, id)
    ensures Without(favs, id) == favs
  {
    if favs != [] {
      WithoutAbsent(favs[1..], id);
      assert favs == [favs[0]] + favs[1..];
    }
  }

  /** A second removal of the same id changes nothing. */
  lemma WithoutIdempotent(favs: seq<Movie>, id: int)
    ensures Without(Without(favs, id), id) == Without(favs, id)
  {
    WithoutNotContains(favs, id);
    WithoutAbsent(Without(favs, id), id);
  }

  /** The entries kept by removal stay in their original relative order. */
  lemma {:induction false} WithoutSubsequence(favs: seq<Movie>, id: int)
    ensures IsSubsequence(Without(favs, id), favs)
  {
    if favs != [] {
      WithoutSubsequence(favs[1..], id);
      var rest := Without(favs[1..], id);
      if favs[0].id != id {
        assert ([favs[0]] + rest)[0] == favs[0];
        assert ([favs[0]] + rest)[1..] == rest;
      } else if rest != [] {
        assert rest[0] != favs[0];
      }
    }
  }

  // ---------------------------------------------------------------- add, then remove

  /** Removing the id just added drops the new entry together with any older ones of that id. */
  lemma AddedThenWithout(slot: Option<seq<Movie>>, movie: Movie)
    ensures slot.None? ==> Without(WithAdded(slot, movie), movie.id) == []
    ensures slot.Some? ==> Without(WithAdded(slot, movie), movie.id) == Without(slot.value, movie.id)
  {
    match slot
    case None =>
    case Some(favs) =>
      WithoutConcat(favs, [movie], movie.id);
      assert Without([movie], movie.id) == [];
  }

  /** Adding a movie that was not a favorite and then removing it restores the list. */
  lemma AddThenRemoveRestores(favs: seq<Movie>, movie: Movie)
    requires !Contains(favs, movie.id)
    ensures Without(WithAdded(Some(favs), movie), movie.id) == favs
  {
    AddedThenWithout(Some(favs), movie);
    WithoutAbsent(favs, movie.id);
  }
}
