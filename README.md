# Favorites store of the movie detail screen

This project models the favorites list in the movie app's detail screen
(`src/screens/MovieDetail.tsx`). The list lives in one local storage slot,
under the key `"@FavoriteList"`. The slot is either absent or holds a list of movie records, kept in
insertion order and not deduplicated by id. The screen shows one movie and
keeps a boolean `isFavorite` that drives its heart button. Four operations act
on the slot and the flag:

- `checkIsFavorite(id)`: is there a stored entry with this id?
- `addFavorite(movie)`: append the movie and set the flag.
- `removeFavorite(id)`: drop every entry with this id and clear the flag. This happens only when the slot exists.
- `handleFavoriteToggle()`: remove the shown movie when the flag is set, add it otherwise.

The model has three modules:

- `Wrappers` (`wrappers.dfy`): the `Option` type for an absent or present slot.
- `FavoriteList` (`favorite_list.dfy`): the `Movie` record and the pure list transforms used by the operations. These are membership by id (`some`), the list that add writes (`[...old, movie]` or `[movie]`) and removal by id (`filter`). The lemmas cover membership, counts, order preservation, idempotence and add-then-remove.
- `MovieDetail` (`movie_detail.dfy`): the class `MovieDetailScreen`. Its fields are `slot`, `isFavorite` and `movie`, and each operation is a method whose contract ties the new slot and flag to the old ones. The predicate `Consistent()` says the flag is true exactly when the shown movie's id is stored. The toggle preserves it, and when storage does not fail it flips the flag.

A failing storage call is a `storageFails` parameter. In the source such a
failure lands in a `catch` that only logs. So in the model a failed call
writes nothing and leaves the flag alone, and `checkIsFavorite` returns
false. The JSON text in the slot is treated as `parse(stringify(x)) == x`, so
the slot holds the parsed list directly.

## Model

| member | source | states |
|---|---|---|
| FavoriteList.Contains | src/screens/MovieDetail.tsx:56 | the `some` test by id is true exactly when some index of the list holds an entry whose id equals the given id, both directions, over every list |
| FavoriteList.ContainsCount | src/screens/MovieDetail.tsx:56 | an id is present exactly when at least one entry carries it |
| FavoriteList.ContainsConcat | src/screens/MovieDetail.tsx:56 | an id is in a concatenation exactly when it is in either part |
| FavoriteList.CountConcat | src/screens/MovieDetail.tsx:74 | the number of entries with an id adds up over a concatenation |
| FavoriteList.WithAdded | src/screens/MovieDetail.tsx:71-77 | the list add writes ends with the movie; on an absent slot it is exactly `[movie]`; on a present slot its prefix is the old list unchanged and in order, and it is one longer |
| FavoriteList.AddedContains | src/screens/MovieDetail.tsx:73-80 | after adding, the added id is present, and any other id is present exactly when it was before |
| FavoriteList.AddedCount | src/screens/MovieDetail.tsx:74 | adding raises the count of the added id by exactly one, so nothing is deduplicated |
| FavoriteList.AddedDuplicates | src/screens/MovieDetail.tsx:74 | adding a movie whose id is already stored leaves at least two entries with that id |
| FavoriteList.Without | src/screens/MovieDetail.tsx:98-100 | the filtered list is never longer than the old one, and no entry in it has the removed id |
| FavoriteList.WithoutConcat | src/screens/MovieDetail.tsx:98-100 | filtering a concatenation filters each part and concatenates them, so the filter acts entry by entry and keeps order |
| FavoriteList.WithoutMembers | src/screens/MovieDetail.tsx:98-100 | an entry is in the filtered list exactly when it was in the old list and has a different id |
| FavoriteList.WithoutNotContains | src/screens/MovieDetail.tsx:98-100 | after removal the id is no longer present |
| FavoriteList.WithoutContainsOther | src/screens/MovieDetail.tsx:98-100 | for every other id, removal leaves its presence as it was |
| FavoriteList.WithoutLength | src/screens/MovieDetail.tsx:98-100 | the list shrinks by exactly the number of entries with the removed id |
| FavoriteList.WithoutAbsent | src/screens/MovieDetail.tsx:98-100 | removing an id that is not present leaves the list unchanged |
| FavoriteList.WithoutIdempotent | src/screens/MovieDetail.tsx:98-100 | removing the same id a second time changes nothing |
| FavoriteList.WithoutSubsequence | src/screens/MovieDetail.tsx:98-100 | the kept entries are a subsequence of the old list: they stay in their original relative order |
| FavoriteList.AddedThenWithout | src/screens/MovieDetail.tsx:65-110 | removing the id just added drops the new entry and every older entry of that id; on an absent slot the result is empty |
| FavoriteList.AddThenRemoveRestores | src/screens/MovieDetail.tsx:65-110 | adding a movie that was not stored and then removing its id gives back the original list |
| MovieDetail.MovieDetailScreen.constructor | src/screens/MovieDetail.tsx:21-22 | a new screen has no movie yet and the flag false, over the slot as stored, which is consistent |
| MovieDetail.MovieDetailScreen.CheckIsFavorite | src/screens/MovieDetail.tsx:51-63 | returns true exactly when the read succeeds, the slot is present and some entry has the id; false on an absent slot or a failed read |
| MovieDetail.MovieDetailScreen.Load | src/screens/MovieDetail.tsx:40-42 | the fetched detail becomes the shown movie, the slot is untouched, and the flag is set from the membership check, which makes the screen consistent when storage works |
| MovieDetail.MovieDetailScreen.AddFavorite | src/screens/MovieDetail.tsx:65-88 | on success the slot becomes the old list with the movie appended, or `[movie]` if it was absent, and the flag is true with the id now stored; on failure nothing changes |
| MovieDetail.MovieDetailScreen.RemoveFavorite | src/screens/MovieDetail.tsx:90-110 | on a present slot the slot becomes the old list without that id and the flag is false; on an absent slot or a failure neither the slot nor the flag changes |
| MovieDetail.MovieDetailScreen.HandleFavoriteToggle | src/screens/MovieDetail.tsx:112-118 | with the flag set it removes the shown movie's id, otherwise it adds the shown movie; it preserves `Consistent()`, and from a consistent state a successful toggle negates the flag |
| MovieDetail.ToggleTwice | src/screens/MovieDetail.tsx:112-118 | two successful toggles from a consistent screen whose movie is not a favorite leave the flag false and the screen consistent; a present stored list comes back unchanged, while an absent slot ends as a stored empty list, because add writes `[movie]` and remove writes back the filtered, empty, list |

## Left out

- Fetching the movie detail from the external movie API (lines 25-48) is network I/O. Only the step after a successful fetch is modelled, as `Load` (lines 41-42).
- Rendering, styles, navigation and the other screens (`Favorite.tsx`, `Search.tsx`, the search components and the navigators) are not part of this model.
- AsyncStorage and JSON are modelled abstractly. The slot holds the parsed list, and `parse(stringify(x))` is taken to be `x`. A `JSON.parse` failure on malformed stored text falls into the same logging `catch`, so it is covered by `storageFails`.
- The operations are asynchronous and do a non-atomic read-modify-write. Each is modelled as one atomic step. Overlapping toggles, and writes from other screens between the read and the write, are concurrency and are not modelled.
- Movie: the screen stores the whole fetched detail object. The model keeps only a subset of its fields: the floating-point `vote_average` and `popularity` are among those dropped. Every operation compares entries only by `id`, so no behaviour is lost. The JavaScript `number` id is modelled as `int`; the API's ids are integers, so `===` on them is integer equality.
- MovieDetail.MovieDetailScreen.HandleFavoriteToggle: requires the movie to be loaded. The button is rendered only once `movie` is non-null (line 120), so the source never calls the toggle without one.
- A failed `setItem` is modelled as writing nothing, as though the storage rejected the write whole.
