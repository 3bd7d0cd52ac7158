# Filmorate core in Dafny

This is a model of the service core of Filmorate, a film-rating service where users like films, befriend each other and ask for the most popular films. The model covers five parts:

- **Film rules** (`FilmService`). It covers:
  - The fail-fast film validation: name, description length, release date presence and lower bound, duration.
  - The MPA and genre reference checks.
  - Create and update, with their guard order.
  - Likes and unlikes.
  - The popularity list: a stable sort by like count, most liked first, cut to a limit.
- **User rules** (`UserService`). It covers:
  - The fail-fast user validation: email, login, birthday presence, birthday not in the future.
  - The login-as-name default on create and update.
  - The symmetric friend graph: add, remove, list friends and list common friends.
- **Records** (`FilmModel`, `UserModel`): the film with its like set, and the user with their friend set.
- **Id-issuing stores** (`IdStore`, `FilmStorage`, `UserStorage`):
  - A map from id to record plus a `nextId` counter.
  - `create` issues fresh ids, `update` replaces existing ids only, and `clear` restarts the counter at 1.
  - The friendship hooks of the user store do nothing.
- **Reference catalogs** (`MpaStorage`, `GenreStorage`): the fixed MPA ratings 1..5 and genres 1..6.

Service operations are pure functions from a state to a new state and a result. An exception in the source is an `Err`/`Fail` value here, and every error path returns the state unchanged. The error values are:

- `Validation(reason)`: a `ValidationException`.
- `NotFound(entity, id)`: a `ResponseStatusException(NOT_FOUND)`.
- `StoreMiss(entity, id)`: the `RuntimeException` that a store's own `update` throws.

The source's messages are abstracted into `Reason` values.

Three inputs of the source are parameters or fixed choices here:

- `LocalDate.now()` is the `today` parameter of the user operations.
- The iteration order of a hash map is fixed as ascending key order. For the stores' small integer keys this is also insertion order.
- The iteration order of a hash set is left open. `getFriends` and `getCommonFriends` are methods that may enumerate a friend set in any order.

Some fields are missing from the source's record classes, although the services use them. The model adds them:

- The user carries a `friends` set, which `UserService` reads and writes.
- The film carries an `mpa` id and a set of `genres` ids, which `FilmService` validates.
- The film store's `addLike`/`removeLike` are declared but have no in-memory implementation. They are modelled as `Film.addLike`/`removeLike` applied to the stored film.

## Model

| member | source | states |
|---|---|---|
| FilmModel.AddLike | src/main/java/ru/yandex/practicum/filmorate/model/Film.java:18-20 | the liking user is in the result's like set, every other user's membership is unchanged, and no other field changes |
| FilmModel.RemoveLike | src/main/java/ru/yandex/practicum/filmorate/model/Film.java:22-24 | the user is absent from the result's like set, every other user's membership is unchanged, and no other field changes |
| FilmModel.LikesCount | src/main/java/ru/yandex/practicum/filmorate/model/Film.java:30-32 | `getLikesCount` is zero exactly when nobody liked the film |
| FilmModel.AddLikeIdempotent | src/main/java/ru/yandex/practicum/filmorate/model/Film.java:18-20 | liking twice gives the same film as liking once |
| FilmModel.RemoveAbsentLike | src/main/java/ru/yandex/practicum/filmorate/model/Film.java:22-24 | removing a like that is not there changes nothing and is not an error |
| FilmModel.AddThenRemoveLike | src/main/java/ru/yandex/practicum/filmorate/model/Film.java:18-24 | a fresh like followed by its removal restores the film and its like count |
| FilmModel.AddLikeCount | src/main/java/ru/yandex/practicum/filmorate/model/Film.java:18-32 | the like count rises by one exactly when the user had not liked the film, and otherwise stays the same |
| FilmModel.RemoveLikeCount | src/main/java/ru/yandex/practicum/filmorate/model/Film.java:22-32 | the like count falls by one exactly when the user had liked the film, and otherwise stays the same |
| UserModel.AddFriendId | src/main/java/ru/yandex/practicum/filmorate/service/UserService.java:72-73 | the friend id is in the result's friend set, other ids keep their membership, and the profile fields are unchanged |
| UserModel.RemoveFriendId | src/main/java/ru/yandex/practicum/filmorate/service/UserService.java:86-87 | the friend id is absent from the result's friend set, other ids keep their membership, and the profile fields are unchanged |
| Text.IsWhitespace | src/main/java/ru/yandex/practicum/filmorate/service/FilmService.java:171 | Java's `Character.isWhitespace`: space, tab, newline and carriage return are whitespace; the non-breaking spaces U+00A0, U+2007 and U+202F are not; nothing above U+3000 is |
| Text.IsBlank | src/main/java/ru/yandex/practicum/filmorate/service/UserService.java:123-127 | Java's `String.isBlank`: a string is blank exactly when every character in it is whitespace, so the empty string is blank |
| Text.Utf16Length | src/main/java/ru/yandex/practicum/filmorate/service/FilmService.java:175 | Java's `String.length`: between the number of characters and twice it; equal to it exactly when no character is astral, and twice it exactly when every character is |
| Text.NotBlankIfContainsVisible | src/main/java/ru/yandex/practicum/filmorate/service/UserService.java:123 | a string that holds a non-whitespace character is not blank |
| Dates.IsBefore | src/main/java/ru/yandex/practicum/filmorate/service/FilmService.java:183 | `LocalDate.isBefore`: for dates with month 1..12 and day 1..31, a date is before another exactly when its day number is smaller |
| Dates.IsAfter | src/main/java/ru/yandex/practicum/filmorate/service/UserService.java:135 | `LocalDate.isAfter`: for dates with month 1..12 and day 1..31, a date is after another exactly when its day number is larger |
| Dates.Trichotomy | src/main/java/ru/yandex/practicum/filmorate/service/UserService.java:135 | date order is strict and total, so "not after today" means "before or on today" |
| SeqFacts.Enumerate | src/main/java/ru/yandex/practicum/filmorate/service/UserService.java:98 | a set is enumerated with each element exactly once, in some order |
| SeqFacts.KeepIn | src/main/java/ru/yandex/practicum/filmorate/service/UserService.java:110-111 | the filter keeps exactly the listed ids that are in the other set, and it keeps them distinct |
| SeqFacts.DistinctCardinality | src/main/java/ru/yandex/practicum/filmorate/service/UserService.java:110-113 | a list without repetitions has as many entries as its set of elements |
| IdStore.Empty | src/main/java/ru/yandex/practicum/filmorate/storage/InMemoryFilmStorage.java:13-14 | a new store is empty and satisfies the store invariant (every key is in [1, nextId)) |
| IdStore.Clear | src/main/java/ru/yandex/practicum/filmorate/storage/InMemoryFilmStorage.java:50-55 | after clear the store is empty, the counter is 1, and the invariant holds |
| IdStore.Insert | src/main/java/ru/yandex/practicum/filmorate/storage/InMemoryFilmStorage.java:24-25 | under the invariant the issued id was unused; the store grows by exactly that entry, the counter advances, and the invariant is kept |
| IdStore.Replace | src/main/java/ru/yandex/practicum/filmorate/storage/InMemoryFilmStorage.java:30-38 | an absent id is refused; otherwise only that entry changes, and the keys, the counter and the invariant are kept |
| IdStore.Find | src/main/java/ru/yandex/practicum/filmorate/storage/InMemoryFilmStorage.java:40-43 | a record is found exactly for stored ids, and it is the stored record |
| IdStore.Exists | src/main/java/ru/yandex/practicum/filmorate/storage/InMemoryFilmStorage.java:45-48 | `existsById` holds exactly when `findById` finds something |
| IdStore.Keys | src/main/java/ru/yandex/practicum/filmorate/storage/InMemoryFilmStorage.java:16-20 | the enumeration lists every stored key once |
| IdStore.FindAll | src/main/java/ru/yandex/practicum/filmorate/storage/InMemoryFilmStorage.java:16-20 | `findAll` returns exactly the stored records, as many as the map holds, in the keys' enumeration order |
| FilmStorage.Create | src/main/java/ru/yandex/practicum/filmorate/storage/InMemoryFilmStorage.java:22-28 | the film gets the old counter as its id and keeps all its other fields; it is stored under that id, the counter advances, and the invariants are kept |
| FilmStorage.Update | src/main/java/ru/yandex/practicum/filmorate/storage/InMemoryFilmStorage.java:30-38 | an absent id fails with the store unchanged; otherwise only that entry is replaced |
| FilmStorage.AddLike | src/main/java/ru/yandex/practicum/filmorate/storage/FilmStorage.java:27 | only the named film changes, and only by gaining the user in its like set |
| FilmStorage.RemoveLike | src/main/java/ru/yandex/practicum/filmorate/storage/FilmStorage.java:25 | only the named film changes, and only by losing the user from its like set |
| UserStorage.Create | src/main/java/ru/yandex/practicum/filmorate/storage/InMemoryUserStorage.java:23-29 | the user gets the old counter as their id and keeps all other fields; they are stored under that id, the counter advances, and the invariants are kept |
| UserStorage.Update | src/main/java/ru/yandex/practicum/filmorate/storage/InMemoryUserStorage.java:31-39 | an absent id fails with the store unchanged; otherwise only that entry is replaced |
| UserStorage.FriendshipHooksInert | src/main/java/ru/yandex/practicum/filmorate/storage/InMemoryUserStorage.java:58-83 | the storage-level add, confirm and remove friendship hooks leave the store as it was, and the friend-id queries return nothing |
| MpaStorage.ExistsById | src/main/java/ru/yandex/practicum/filmorate/storage/InMemoryMpaStorage.java:35-39 | the catalog holds exactly the ids 1..5 |
| MpaStorage.FindById | src/main/java/ru/yandex/practicum/filmorate/storage/InMemoryMpaStorage.java:29-33 | a rating is found exactly when the id exists, and it carries the requested id |
| MpaStorage.FindAll | src/main/java/ru/yandex/practicum/filmorate/storage/InMemoryMpaStorage.java:23-27 | `findAll` returns the five ratings, and entry i is the rating with id i + 1 |
| MpaStorage.RatingNames | src/main/java/ru/yandex/practicum/filmorate/storage/InMemoryMpaStorage.java:15-19 | the names are G, PG, PG-13, R and NC-17 for ids 1 to 5 |
| GenreStorage.ExistsById | src/main/java/ru/yandex/practicum/filmorate/storage/InMemoryGenreStorage.java:36-40 | the catalog holds exactly the ids 1..6 |
| GenreStorage.FindById | src/main/java/ru/yandex/practicum/filmorate/storage/InMemoryGenreStorage.java:30-34 | a genre is found exactly when the id exists, and it carries the requested id |
| GenreStorage.FindAll | src/main/java/ru/yandex/practicum/filmorate/storage/InMemoryGenreStorage.java:24-28 | `findAll` returns the six genres, and entry i is the genre with id i + 1 |
| GenreStorage.GenreNames | src/main/java/ru/yandex/practicum/filmorate/storage/InMemoryGenreStorage.java:15-20 | the genre names for ids 1 to 6, as seeded |
| Ranking.Insert | src/main/java/ru/yandex/practicum/filmorate/service/FilmService.java:119 | insertion adds exactly the one film: the length grows by one and the multiset gains the film |
| Ranking.InsertKeepsOrder | src/main/java/ru/yandex/practicum/filmorate/service/FilmService.java:119 | inserting into a list sorted by like count, most first, keeps it sorted |
| Ranking.InsertTieGroups | src/main/java/ru/yandex/practicum/filmorate/service/FilmService.java:119 | the inserted film goes to the head of its tie group, and every other tie group is untouched |
| Ranking.SortByLikes | src/main/java/ru/yandex/practicum/filmorate/service/FilmService.java:118-119 | the sort permutes its input into non-increasing like counts, and every group of equal counts keeps its input order (stability) |
| Ranking.Top | src/main/java/ru/yandex/practicum/filmorate/service/FilmService.java:118-121 | sort then `limit`: min(limit, n) films drawn from the input, non-increasing, ties in input order, and no omitted film is more liked than the last one kept |
| Ranking.StableOrderUnique | src/main/java/ru/yandex/practicum/filmorate/service/FilmService.java:119 | two non-increasing orders with the same tie groups are equal |
| Ranking.SortIsTheStableOrder | src/main/java/ru/yandex/practicum/filmorate/service/FilmService.java:119 | any stable most-liked-first arrangement of the input is exactly the sort's result |
| Ranking.SortExample | src/main/java/ru/yandex/practicum/filmorate/service/FilmService.java:118-119 | films liked by 3, 1 and 5 users sort as 5, 3, 1 |
| Ranking.TopExample | src/main/java/ru/yandex/practicum/filmorate/service/FilmService.java:118-121 | for films liked by 3, 1 and 5 users, the top two are the 5-like film and then the 3-like film |
| FilmService.ValidateFilm | src/main/java/ru/yandex/practicum/filmorate/service/FilmService.java:168-193 | for each rule: the film fails with that rule's reason exactly when every earlier rule passes and that rule fails; the film passes exactly when all five rules hold; the description limit counts UTF-16 code units, as `String.length` does |
| FilmService.DescriptionLimitInCharacters | src/main/java/ru/yandex/practicum/filmorate/service/FilmService.java:175 | a description without astral characters is too long exactly when it has more than 200 characters; one made only of astral characters is too long exactly when it has more than 100 |
| FilmService.EmojiDescriptionTooLong | src/main/java/ru/yandex/practicum/filmorate/service/FilmService.java:175 | 101 copies of U+1F600, only 101 characters, are rejected as too long |
| FilmService.FilmRuleBoundaries | src/main/java/ru/yandex/practicum/filmorate/service/FilmService.java:175-190 | a description of 200 UTF-16 code units passes and one of 201 fails; a release on 1895-12-28 passes and 1895-12-27 fails; a zero duration fails |
| FilmService.ValidateMpa | src/main/java/ru/yandex/practicum/filmorate/service/FilmService.java:195-201 | a film's rating fails exactly when its id is present and outside 1..5, with a validation error naming the id |
| FilmService.ValidateGenres | src/main/java/ru/yandex/practicum/filmorate/service/FilmService.java:203-211 | the genre set fails exactly when some non-null genre id is outside 1..6; null ids are skipped |
| FilmService.CheckFilm | src/main/java/ru/yandex/practicum/filmorate/service/FilmService.java:43-45 | a film passes exactly when all three checks pass; a film-rule failure is returned first, then a rating failure, and when both pass the result is the genre check's |
| FilmService.Create | src/main/java/ru/yandex/practicum/filmorate/service/FilmService.java:41-53 | an invalid film returns the check's error with the store unchanged; a valid one is stored under the fresh id with its content intact, and the store invariants are kept |
| FilmService.Update | src/main/java/ru/yandex/practicum/filmorate/service/FilmService.java:55-73 | validation comes before the existence check; an unknown id gives NotFound with the store unchanged; otherwise only that film is replaced |
| FilmService.GetById | src/main/java/ru/yandex/practicum/filmorate/service/FilmService.java:75-85 | the stored film, or NotFound exactly when the id is absent |
| FilmService.CreateThenGet | src/main/java/ru/yandex/practicum/filmorate/service/FilmService.java:41-85 | a created film is found under its new id, and an updated film under its own id |
| FilmService.ClearRestartsIds | src/main/java/ru/yandex/practicum/filmorate/service/FilmService.java:152-155 | after clear, the next valid film gets id 1 |
| FilmService.AddLike | src/main/java/ru/yandex/practicum/filmorate/service/FilmService.java:87-103 | a missing film is reported before a missing user, and both leave the store unchanged; on success only that film changes, by gaining the like |
| FilmService.RemoveLike | src/main/java/ru/yandex/practicum/filmorate/service/FilmService.java:105-112 | a missing film is reported before a missing user, and both leave the store unchanged; on success only that film changes, by losing the like |
| FilmService.CheckIgnoresIdAndLikes | src/main/java/ru/yandex/practicum/filmorate/service/FilmService.java:168-211 | the three checks read neither the id nor the like set, so two films that differ only there pass or fail alike |
| FilmService.ClearKeepsFilmsValid | src/main/java/ru/yandex/practicum/filmorate/service/FilmService.java:152-155 | after `clear` every stored film passes the checks, because none is stored |
| FilmService.CreateKeepsFilmsValid | src/main/java/ru/yandex/practicum/filmorate/service/FilmService.java:41-53 | if every stored film passes `validateFilm`, `validateMpa` and `validateGenres`, the same holds after `create` |
| FilmService.UpdateKeepsFilmsValid | src/main/java/ru/yandex/practicum/filmorate/service/FilmService.java:55-73 | if every stored film passes the checks, the same holds after `update` |
| FilmService.AddLikeKeepsFilmsValid | src/main/java/ru/yandex/practicum/filmorate/service/FilmService.java:96-103 | if every stored film passes the checks, the same holds after `addLike` |
| FilmService.RemoveLikeKeepsFilmsValid | src/main/java/ru/yandex/practicum/filmorate/service/FilmService.java:105-112 | if every stored film passes the checks, the same holds after `removeLike` |
| FilmService.LikeRoundTrip | src/main/java/ru/yandex/practicum/filmorate/service/FilmService.java:96-112 | a new like followed by its removal restores the store |
| FilmService.AddLikeTwice | src/main/java/ru/yandex/practicum/filmorate/service/FilmService.java:96-103 | liking twice leaves the store as liking once does |
| FilmService.PopularLimit | src/main/java/ru/yandex/practicum/filmorate/service/FilmService.java:115 | the effective limit is always positive |
| FilmService.PopularDefaultsToTen | src/main/java/ru/yandex/practicum/filmorate/service/FilmService.java:115 | a null, zero or negative count behaves as 10 |
| FilmService.GetPopularFilms | src/main/java/ru/yandex/practicum/filmorate/service/FilmService.java:114-126 | min(limit, number of films) stored films, like counts non-increasing, equal counts in `findAll` order, and no omitted film more liked than the last one returned |
| FilmService.PopularIsStableOrderPrefix | src/main/java/ru/yandex/practicum/filmorate/service/FilmService.java:118-121 | the popularity list is a prefix of the one stable most-liked-first order of all films |
| FilmService.GetMpaById | src/main/java/ru/yandex/practicum/filmorate/service/FilmService.java:133-138 | a rating is returned exactly for ids 1..5, otherwise NotFound |
| FilmService.GetGenreById | src/main/java/ru/yandex/practicum/filmorate/service/FilmService.java:145-150 | a genre is returned exactly for ids 1..6, otherwise NotFound |
| UserService.ValidateUser | src/main/java/ru/yandex/practicum/filmorate/service/UserService.java:120-141 | for each rule: the user fails with that rule's reason exactly when every earlier rule passes and that rule fails; the user passes exactly when all four rules hold |
| UserService.EmailNeedsOnlyAt | src/main/java/ru/yandex/practicum/filmorate/service/UserService.java:123-126 | an email is accepted exactly when it is present and contains '@'; the blank test never decides |
| UserService.BirthdayBoundary | src/main/java/ru/yandex/practicum/filmorate/service/UserService.java:131-138 | a birthday of today passes, and any later birthday fails |
| UserService.WithDefaultName | src/main/java/ru/yandex/practicum/filmorate/service/UserService.java:30-33 | a null or blank name becomes the login, any other name is kept unchanged, no other field changes, and for a valid login the resulting name is present and not blank |
| UserService.Create | src/main/java/ru/yandex/practicum/filmorate/service/UserService.java:27-35 | an invalid user leaves the store unchanged; a valid one is stored under the fresh id, named after the login when the name is null or blank and keeping the name otherwise |
| UserService.Update | src/main/java/ru/yandex/practicum/filmorate/service/UserService.java:37-50 | validation comes first, then NotFound with the store unchanged, then the same name default; only that user is replaced |
| UserService.GetById | src/main/java/ru/yandex/practicum/filmorate/service/UserService.java:52-60 | the stored user, or NotFound exactly when the id is absent |
| UserService.CreateThenGet | src/main/java/ru/yandex/practicum/filmorate/service/UserService.java:27-60 | a created user is found under their new id |
| UserService.AddFriend | src/main/java/ru/yandex/practicum/filmorate/service/UserService.java:62-79 | the errors come in this order: missing user, missing friend, self-friendship, and each leaves the store unchanged; on success each user is in the other's set and nobody else changes |
| UserService.RemoveFriend | src/main/java/ru/yandex/practicum/filmorate/service/UserService.java:81-93 | the errors come in this order: missing user, missing friend, and each leaves the store unchanged; on success neither user is in the other's set, only their friend sets change, and nobody else changes |
| UserService.ValidateIgnoresNameAndFriends | src/main/java/ru/yandex/practicum/filmorate/service/UserService.java:120-141 | `validateUser` reads only the email, the login and the birthday, so the name default and the friend sets never change its verdict |
| UserService.StoredUsersStayValid | src/main/java/ru/yandex/practicum/filmorate/service/UserService.java:135 | users that pass `validateUser` on one day still pass on any later day, since a birthday not after the first day is not after a later one |
| UserService.ClearKeepsUsersValid | src/main/java/ru/yandex/practicum/filmorate/service/UserService.java:143-145 | after `clear` every stored user passes `validateUser`, because none is stored |
| UserService.CreateKeepsUsersValid | src/main/java/ru/yandex/practicum/filmorate/service/UserService.java:27-35 | if every stored user passes `validateUser` on a day, the same holds after `create` on that day |
| UserService.UpdateKeepsUsersValid | src/main/java/ru/yandex/practicum/filmorate/service/UserService.java:37-50 | if every stored user passes `validateUser` on a day, the same holds after `update` on that day |
| UserService.AddFriendKeepsUsersValid | src/main/java/ru/yandex/practicum/filmorate/service/UserService.java:62-79 | if every stored user passes `validateUser`, the same holds after `addFriend` |
| UserService.RemoveFriendKeepsUsersValid | src/main/java/ru/yandex/practicum/filmorate/service/UserService.java:81-93 | if every stored user passes `validateUser`, the same holds after `removeFriend` |
| UserService.AddFriendKeepsGraph | src/main/java/ru/yandex/practicum/filmorate/service/UserService.java:62-79 | add friend keeps friendship mutual, never with oneself, and between stored users only |
| UserService.RemoveFriendKeepsGraph | src/main/java/ru/yandex/practicum/filmorate/service/UserService.java:81-93 | remove friend keeps friendship mutual, never with oneself, and between stored users only |
| UserService.AddThenRemoveFriend | src/main/java/ru/yandex/practicum/filmorate/service/UserService.java:62-93 | befriending two users who were not friends and then unfriending them restores the store |
| UserService.RemoveFriendIdempotent | src/main/java/ru/yandex/practicum/filmorate/service/UserService.java:81-93 | unfriending twice leaves the store as unfriending once does |
| UserService.LookupAll | src/main/java/ru/yandex/practicum/filmorate/service/UserService.java:99 | mapping `getById` over ids succeeds exactly when every id is stored, yielding their records in order; otherwise it fails at the first unknown id |
| UserService.GetFriends | src/main/java/ru/yandex/practicum/filmorate/service/UserService.java:95-103 | NotFound for an unknown user; otherwise the friend ids are listed each once, and the result is the lookup of those ids in that order, so NotFound for the first one not stored; under the graph invariant it always succeeds |
| UserService.GetCommonFriends | src/main/java/ru/yandex/practicum/filmorate/service/UserService.java:105-118 | NotFound for either unknown user, the first one first; otherwise exactly the ids in both friend sets, each once, and the result is the lookup of those ids, so NotFound for the first one not stored; under the graph invariant it succeeds and lists neither of the two users |

## Left out

- The controllers, the global exception handler and the HTTP status codes are not modelled. The model keeps the services' error kinds instead. The controller tests expect 400 for updating a missing id, but the services raise NOT_FOUND, and the model follows the services.
- The PENDING/CONFIRMED friendship state machine is not modelled. `Friendship` is a bare record, and the user store's friendship methods are stubs. Only the symmetric friend sets in `UserService` have behaviour.
- `getFriendshipStatuses` is not modelled, because it returns a list of `Friendship` records, which this model does not include. It is a stub that returns an empty list.
- `loadFilmDetails` is not modelled, and neither is genre persistence (`saveFilmGenres`, `updateFilmGenres`, `getFilmGenres`). They depend on storage methods that have no implementation. For the same reason, `create` and `update` return the stored film without that reload.
- Concurrency is not modelled: not the concurrent maps, and not the non-atomic `nextId++`. Every operation runs alone.
- The `nextId` counter is an unbounded integer. The Java `int` would wrap after 2^31 - 1 creations, and that is not modelled.
- The wall clock (`LocalDate.now()`) becomes the `today` parameter.
- Hash iteration order: `findAll` enumerates the stored records by ascending id. Ties in the popularity list therefore keep that order.
- The validation messages are replaced by `Reason` values. `UnknownGenre` carries no id, because which bad genre the message names depends on hash-set order.
- FilmModel.LikesCount: the like set and the genre elements are never null in the model. In the source, `likes` has a setter and `validateFilm` never reads it, so a payload with a null like set is stored as it is. `getPopularFilms` then throws `NullPointerException` at `likes.size()` (Film.java:31) inside its comparator (FilmService.java:119) once two or more films are stored. Likewise a null element of the genre set throws at `genre.getId()` (FilmService.java:206). Both failures become an internal server error (GlobalExceptionHandler.java:36-41), and the model cannot express either input.
- `Film.getLikes` returns a copy of the like set. Values are immutable in this model, so the copy is the set itself.
- `getAllMpa`, `getAllGenres` and `clear` in `FilmService`, and `findAll` and `clear` in `UserService`, only forward to the stores. They are modelled by `IdStore.FindAll`, `MpaStorage.FindAll`, `GenreStorage.FindAll` and `IdStore.Clear`. `FilmService.findAll` also runs `loadFilmDetails` on every film (FilmService.java:37). That step is not modelled, for the reason given in the `loadFilmDetails` line above, so the model returns the stored films as they are.
- `validateUserExists` is folded into `FilmService.AddLike` and `FilmService.RemoveLike`.
- A null id is not modelled, because ids are plain integers. In the source, `existsById(null)` calls `ConcurrentHashMap.containsKey(null)`, which throws `NullPointerException` (InMemoryFilmStorage.java:47, InMemoryUserStorage.java:48). The exception handler turns that into an internal server error (GlobalExceptionHandler.java:36-41). The model has no null id, so it cannot show that failure; the nearest case, an id that is not stored, gets NotFound.
- FilmStorage.AddLike: requires that the film is stored, because the service only calls it after the existence check and the store has no implementation to say otherwise. FilmStorage.RemoveLike has the same requirement.
- UserService.AddFriend: the friend operations update the stored records by key. The source updates them by each user's own id field, and the `IdsMatch` invariant says the two agree.
- UserService.Create: stores the payload's friend set as it comes, exactly as the source does. So the friend-graph invariant is kept only by the friend operations, not by create and update. UserService.Update has the same limit.
- FilmService.ValidateMpa: the source raises a validation error for an unknown rating or genre id, not a reference-not-found error. The model follows the code. FilmService.ValidateGenres behaves the same way.
