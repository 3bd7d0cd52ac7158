/** `FilmService`: film validation, create/update, likes and the
    popularity list. The service state is the film store; the user store
    is only read. */
module FilmService {
  import opened Wrappers
  import opened Errors
  import opened Text
  import opened Dates
  import opened FilmModel
  import opened IdStore
  import FilmStorage
  import MpaStorage
  import GenreStorage
  import Ranking
  import UserModel
  import opened SeqFacts

  /** The first film screening; earlier release dates are rejected. */
  const FirstFilmDate := Date(1895, 12, 28)
  const MaxDescriptionLength := 200
  const DefaultPopularCount := 10

  // The validation rules, one predicate each, in the order they are checked.

  predicate NameOk(f: Film) {
    f.name.Some? && !IsBlank(f.name.value)
  }

  /** The limit counts Java `char`s, i.e. UTF-16 code units. */
  predicate DescriptionOk(f: Film) {
    f.description.None? || Utf16Length(f.description.value) <= MaxDescriptionLength
  }

  predicate ReleaseDatePresent(f: Film) {
    f.releaseDate.Some?
  }

  predicate ReleaseDateOk(f: Film)
    requires ReleaseDatePresent(f)
  {
    !IsBefore(f.releaseDate.value, FirstFilmDate)
  }

  predicate DurationOk(f: Film) {
    f.duration.Some? && f.duration.value > 0
  }

  /** `validateFilm`: the first failing rule decides the error. */
  function ValidateFilm(f: Film): (r: Outcome<Error>)
    ensures r == Fail(Validation(BlankName)) <==> !NameOk(f)
    ensures r == Fail(Validation(DescriptionTooLong)) <==> NameOk(f) && !DescriptionOk(f)
    ensures r == Fail(Validation(MissingReleaseDate)) <==>
      NameOk(f) && DescriptionOk(f) && !ReleaseDatePresent(f)
    ensures r == Fail(Validation(ReleaseBeforeFirstFilm)) <==>
      NameOk(f) && DescriptionOk(f) && ReleaseDatePresent(f) && !ReleaseDateOk(f)
    ensures r == Fail(Validation(BadDuration)) <==>
      NameOk(f) && DescriptionOk(f) && ReleaseDatePresent(f) && ReleaseDateOk(f) && !DurationOk(f)
    ensures r.Pass? <==>
      NameOk(f) && DescriptionOk(f) && ReleaseDatePresent(f) && ReleaseDateOk(f) && DurationOk(f)
  {
    if f.name.None? || IsBlank(f.name.value) then Fail(Validation(BlankName))
    else if f.description.Some? && Utf16Length(f.description.value) > MaxDescriptionLength then Fail(Validation(DescriptionTooLong))
    else if f.releaseDate.None? then Fail(Validation(MissingReleaseDate))
    else if IsBefore(f.releaseDate.value, FirstFilmDate) then Fail(Validation(ReleaseBeforeFirstFilm))
    else if f.duration.None? || f.duration.value <= 0 then Fail(Validation(BadDuration))
    else Pass
  }

  /** The boundaries of the film rules: a description of 200 UTF-16 code
      units passes and one of 201 fails; a release on 1895-12-28 passes and
      one a day earlier fails; a duration of zero fails. */
  lemma FilmRuleBoundaries(f: Film)
    requires NameOk(f)
    ensures f.description.Some? && Utf16Length(f.description.value) == 200 ==>
      ValidateFilm(f) != Fail(Validation(DescriptionTooLong))
    ensures f.description.Some? && Utf16Length(f.description.value) == 201 ==>
      ValidateFilm(f) == Fail(Validation(DescriptionTooLong))
    ensures DescriptionOk(f) && f.releaseDate == Some(Date(1895, 12, 28)) ==>
      ValidateFilm(f) != Fail(Validation(ReleaseBeforeFirstFilm))
    ensures DescriptionOk(f) && f.releaseDate == Some(Date(1895, 12, 27)) ==>
      ValidateFilm(f) == Fail(Validation(ReleaseBeforeFirstFilm))
    ensures DescriptionOk(f) && f.releaseDate == Some(Date(1895, 12, 28)) && f.duration == Some(0) ==>
      ValidateFilm(f) == Fail(Validation(BadDuration))
  {
  }

  /** Without astral characters the limit is 200 characters; with only
      astral characters it is 100, so 101 emoji are already too long. */
  lemma DescriptionLimitInCharacters(f: Film)
    requires NameOk(f) && f.description.Some?
    ensures (forall i :: 0 <= i < |f.description.value| ==> !IsAstral(f.description.value[i])) ==>
      (ValidateFilm(f) == Fail(Validation(DescriptionTooLong)) <==> |f.description.value| > 200)
    ensures (forall i :: 0 <= i < |f.description.value| ==> IsAstral(f.description.value[i])) ==>
      (ValidateFilm(f) == Fail(Validation(DescriptionTooLong)) <==> |f.description.value| > 100)
  {
  }

  /** 101 copies of U+1F600 are 202 UTF-16 code units: rejected, although
      the string has fewer than 200 characters. */
  lemma EmojiDescriptionTooLong(f: Film)
    requires NameOk(f) && f.description == Some(seq(101, _ => '\U{1F600}'))
    ensures |f.description.value| == 101
    ensures ValidateFilm(f) == Fail(Validation(DescriptionTooLong))
  {
    DescriptionLimitInCharacters(f);
  }

  /** `validateMpa`: a non-null rating id must be one of the catalog's 1..5. */
  function ValidateMpa(mpa: Option<int>): (r: Outcome<Error>)
    ensures r.Fail? <==> mpa.Some? && !(1 <= mpa.value <= 5)
    ensures r.Fail? ==> r.error == Validation(UnknownMpa(mpa.value))
  {
    if mpa.Some? && !MpaStorage.ExistsById(mpa.value) then Fail(Validation(UnknownMpa(mpa.value)))
    else Pass
  }

  /** `validateGenres`: every non-null genre id must be one of the
      catalog's 1..6. */
  function ValidateGenres(genres: set<Option<int>>): (r: Outcome<Error>)
    ensures r.Fail? <==> exists g :: g in genres && g.Some? && !(1 <= g.value <= 6)
    ensures r.Fail? ==> r.error == Validation(UnknownGenre)
  {
    if exists g :: g in genres && g.Some? && !GenreStorage.ExistsById(g.value) then Fail(Validation(UnknownGenre))
    else Pass
  }

  /** The checks `create` and `update` run before touching storage:
      `validateFilm`, then `validateMpa`, then `validateGenres`. */
  function CheckFilm(f: Film): (r: Outcome<Error>)
    ensures r.Pass? <==> ValidateFilm(f).Pass? && ValidateMpa(f.mpa).Pass? && ValidateGenres(f.genres).Pass?
    ensures ValidateFilm(f).Fail? ==> r == ValidateFilm(f)
    ensures ValidateFilm(f).Pass? && ValidateMpa(f.mpa).Fail? ==> r == ValidateMpa(f.mpa)
    ensures ValidateFilm(f).Pass? && ValidateMpa(f.mpa).Pass? ==> r == ValidateGenres(f.genres)
    ensures r.Fail? ==> r.error.Validation?
  {
    match ValidateFilm(f)
    case Fail(e) => Fail(e)
    case Pass =>
      match ValidateMpa(f.mpa)
      case Fail(e) => Fail(e)
      case Pass => ValidateGenres(f.genres)
  }

  /** `create`: a valid film is stored under a fresh id; an invalid one
      leaves the store as it was. */
  function Create(films: Store<Film>, f: Film): (r: (Store<Film>, Result<Film, Error>))
    ensures CheckFilm(f).Fail? ==> r.0 == films && r.1 == Err(CheckFilm(f).error)
    ensures CheckFilm(f).Pass? ==> r.1.Ok?
    ensures r.1.Ok? ==> r.1.value.id == films.nextId && SameContent(f, r.1.value)
    ensures r.1.Ok? ==> r.0.entries == films.entries[films.nextId := r.1.value]
    ensures r.1.Ok? ==> r.0.nextId == films.nextId + 1
    ensures r.1.Ok? && Valid(films) ==> films.nextId !in films.entries
    ensures Valid(films) ==> Valid(r.0)
    ensures FilmStorage.IdsMatch(films) ==> FilmStorage.IdsMatch(r.0)
  {
    match CheckFilm(f)
    case Fail(e) => (films, Err(e))
    case Pass =>
      var (films', created) := FilmStorage.Create(films, f);
      (films', Ok(created))
  }

  /** `update`: validation first, then the existence check; only an
      existing id's film is replaced. */
  function Update(films: Store<Film>, f: Film): (r: (Store<Film>, Result<Film, Error>))
    ensures CheckFilm(f).Fail? ==> r.0 == films && r.1 == Err(CheckFilm(f).error)
    ensures CheckFilm(f).Pass? && f.id !in films.entries ==>
      r.0 == films && r.1 == Err(NotFound(FilmEntity, f.id))
    ensures CheckFilm(f).Pass? && f.id in films.entries ==> r.1 == Ok(f)
    ensures r.1.Ok? ==> r.0.entries.Keys == films.entries.Keys && r.0.nextId == films.nextId
    ensures r.1.Ok? ==> r.0.entries[f.id] == f
    ensures r.1.Ok? ==> forall k :: k in films.entries && k != f.id ==> r.0.entries[k] == films.entries[k]
    ensures Valid(films) ==> Valid(r.0)
    ensures FilmStorage.IdsMatch(films) ==> FilmStorage.IdsMatch(r.0)
  {
    match CheckFilm(f)
    case Fail(e) => (films, Err(e))
    case Pass =>
      if !Exists(films, f.id) then (films, Err(NotFound(FilmEntity, f.id)))
      else
        match FilmStorage.Update(films, f)
        case Err(e) => (films, Err(e))
        case Ok(films') => (films', Ok(f))
  }

  /** `getById`: the stored film, or NotFound. */
  function GetById(films: Store<Film>, id: int): (r: Result<Film, Error>)
    ensures r.Ok? <==> id in films.entries
    ensures r.Ok? ==> r.value == films.entries[id]
    ensures r.Err? ==> r.error == NotFound(FilmEntity, id)
  {
    match Find(films, id)
    case Some(f) => Ok(f)
    case None => Err(NotFound(FilmEntity, id))
  }

  /** `addLike`: the film must exist, then the user; on success only that
      film's like set changes, by inserting the user. */
  function AddLike(films: Store<Film>, users: Store<UserModel.User>, filmId: int, userId: int)
    : (r: (Store<Film>, Outcome<Error>))
    ensures filmId !in films.entries ==> r == (films, Fail(NotFound(FilmEntity, filmId)))
    ensures filmId in films.entries && userId !in users.entries ==>
      r == (films, Fail(NotFound(UserEntity, userId)))
    ensures filmId in films.entries && userId in users.entries ==> r.1.Pass?
    ensures r.1.Pass? ==> r.0.entries.Keys == films.entries.Keys && r.0.nextId == films.nextId
    ensures r.1.Pass? ==> r.0.entries[filmId] == FilmModel.AddLike(films.entries[filmId], userId)
    ensures r.1.Pass? ==> forall k :: k in films.entries && k != filmId ==> r.0.entries[k] == films.entries[k]
  {
    match GetById(films, filmId)
    case Err(e) => (films, Fail(e))
    case Ok(_) =>
      if !Exists(users, userId) then (films, Fail(NotFound(UserEntity, userId)))
      else (FilmStorage.AddLike(films, filmId, userId), Pass)
  }

  /** `removeLike`: the film must exist, then the user; on success only
      that film's like set changes, by removing the user. */
  function RemoveLike(films: Store<Film>, users: Store<UserModel.User>, filmId: int, userId: int)
    : (r: (Store<Film>, Outcome<Error>))
    ensures filmId !in films.entries ==> r == (films, Fail(NotFound(FilmEntity, filmId)))
    ensures filmId in films.entries && userId !in users.entries ==>
      r == (films, Fail(NotFound(UserEntity, userId)))
    ensures filmId in films.entries && userId in users.entries ==> r.1.Pass?
    ensures r.1.Pass? ==> r.0.entries.Keys == films.entries.Keys && r.0.nextId == films.nextId
    ensures r.1.Pass? ==> r.0.entries[filmId] == FilmModel.RemoveLike(films.entries[filmId], userId)
    ensures r.1.Pass? ==> forall k :: k in films.entries && k != filmId ==> r.0.entries[k] == films.entries[k]
  {
    match GetById(films, filmId)
    case Err(e) => (films, Fail(e))
    case Ok(_) =>
      if !Exists(users, userId) then (films, Fail(NotFound(UserEntity, userId)))
      else (FilmStorage.RemoveLike(films, filmId, userId), Pass)
  }

  // The validation rules as a store invariant: every stored film passes
  // the checks `create` and `update` run, and each operation keeps it.

  /** Every stored film passes `validateFilm`, `validateMpa` and
      `validateGenres`. */
  ghost predicate StoredFilmsValid(films: Store<Film>) {
    forall k :: k in films.entries ==> CheckFilm(films.entries[k]).Pass?
  }

  /** The checks read neither the id nor the likes. */
  lemma CheckIgnoresIdAndLikes(f: Film, g: Film)
    requires SameContent(f.(likes := g.likes), g)
    ensures CheckFilm(f) == CheckFilm(g)
  {
    assert f.name == g.name && f.description == g.description;
  }

  /** The empty store after `clear` holds no invalid film. */
  lemma ClearKeepsFilmsValid(films: Store<Film>)
    ensures StoredFilmsValid(Clear(films))
  {
  }

  /** `create` stores only a film that passed the checks. */
  lemma CreateKeepsFilmsValid(films: Store<Film>, f: Film)
    requires StoredFilmsValid(films)
    ensures StoredFilmsValid(Create(films, f).0)
  {
  }

  /** `update` replaces a film only by one that passed the checks. */
  lemma UpdateKeepsFilmsValid(films: Store<Film>, f: Film)
    requires StoredFilmsValid(films)
    ensures StoredFilmsValid(Update(films, f).0)
  {
  }

  /** A like changes only the like set, which the checks do not read. */
  lemma AddLikeKeepsFilmsValid(films: Store<Film>, users: Store<UserModel.User>, filmId: int, userId: int)
    requires StoredFilmsValid(films)
    ensures StoredFilmsValid(AddLike(films, users, filmId, userId).0)
  {
  }

  /** Removing a like changes only the like set. */
  lemma RemoveLikeKeepsFilmsValid(films: Store<Film>, users: Store<UserModel.User>, filmId: int, userId: int)
    requires StoredFilmsValid(films)
    ensures StoredFilmsValid(RemoveLike(films, users, filmId, userId).0)
  {
  }

  /** A created film is found under the id it was given, and an updated
      film under its own id. */
  lemma CreateThenGet(films: Store<Film>, f: Film)
    requires CheckFilm(f).Pass?
    ensures GetById(Create(films, f).0, films.nextId) == Create(films, f).1
    ensures f.id in films.entries ==> GetById(Update(films, f).0, f.id) == Ok(f)
  {
  }

  /** After `clear` the next film created gets id 1 again. */
  lemma ClearRestartsIds(films: Store<Film>, f: Film)
    requires CheckFilm(f).Pass?
    ensures Create(Clear(films), f).1 == Ok(f.(id := 1))
  {
  }

  /** A like by a user who had not liked the film, then its removal,
      restores the store exactly. */
  lemma LikeRoundTrip(films: Store<Film>, users: Store<UserModel.User>, filmId: int, userId: int)
    requires filmId in films.entries && userId in users.entries
    requires userId !in films.entries[filmId].likes
    ensures RemoveLike(AddLike(films, users, filmId, userId).0, users, filmId, userId) == (films, Pass)
  {
    var after := AddLike(films, users, filmId, userId).0;
    var back := RemoveLike(after, users, filmId, userId).0;
    AddThenRemoveLike(films.entries[filmId], userId);
    assert back.entries == films.entries;
  }

  /** Liking twice leaves the store as liking once does. */
  lemma AddLikeTwice(films: Store<Film>, users: Store<UserModel.User>, filmId: int, userId: int)
    ensures AddLike(AddLike(films, users, filmId, userId).0, users, filmId, userId) == AddLike(films, users, filmId, userId)
  {
    var once := AddLike(films, users, filmId, userId);
    if once.1.Pass? {
      var twice := AddLike(once.0, users, filmId, userId);
      AddLikeIdempotent(films.entries[filmId], userId);
      assert twice.0.entries == once.0.entries;
    }
  }

  /** The number of films `getPopularFilms` asks for: `count`, or 10 when
      it is null or not positive. */
  function PopularLimit(count: Option<int>): (limit: nat)
    ensures limit > 0
  {
    if count.None? || count.value <= 0 then DefaultPopularCount else count.value
  }

  /** `getPopularFilms`: the `limit` most liked stored films, most liked
      first, films with equal counts in the store's enumeration order. */
  function GetPopularFilms(films: Store<Film>, count: Option<int>): (r: seq<Film>)
    requires Valid(films)
    ensures |r| == if PopularLimit(count) < |films.entries| then PopularLimit(count) else |films.entries|
    ensures forall i :: 0 <= i < |r| ==> r[i] in films.entries.Values
    ensures Ranking.NonIncreasing(r)
    ensures Ranking.KeepsTieOrder(r, FindAll(films))
    ensures Ranking.NoneOmittedAbove(r, FindAll(films))
  {
    var all := FindAll(films);
    var r := Ranking.Top(all, PopularLimit(count));
    assert forall i :: 0 <= i < |r| ==> r[i] in films.entries.Values by {
      forall i | 0 <= i < |r| ensures r[i] in films.entries.Values {
        assert r[i] in multiset(r);
        assert r[i] in Elements(all);
      }
    }
    r
  }

  /** A null, zero or negative count all mean 10. */
  lemma PopularDefaultsToTen(films: Store<Film>, count: Option<int>)
    requires Valid(films)
    requires count.None? || count.value <= 0
    ensures GetPopularFilms(films, count) == GetPopularFilms(films, Some(10))
  {
  }

  /** The popularity list is the stored films in the one stable
      most-liked-first order, cut to the limit. */
  lemma PopularIsStableOrderPrefix(films: Store<Film>, count: Option<int>, order: seq<Film>)
    requires Valid(films)
    requires Ranking.NonIncreasing(order)
    requires forall c :: Ranking.WithLikes(order, c) == Ranking.WithLikes(FindAll(films), c)
    ensures GetPopularFilms(films, count) <= order
  {
    Ranking.SortIsTheStableOrder(FindAll(films), order);
  }

  /** `getMpaById`. */
  function GetMpaById(id: int): (r: Result<MpaStorage.Mpa, Error>)
    ensures r.Ok? <==> 1 <= id <= 5
    ensures r.Ok? ==> r.value.id == id
    ensures r.Err? ==> r.error == NotFound(MpaEntity, id)
  {
    match MpaStorage.FindById(id)
    case Some(m) => Ok(m)
    case None => Err(NotFound(MpaEntity, id))
  }

  /** `getGenreById`. */
  function GetGenreById(id: int): (r: Result<GenreStorage.Genre, Error>)
    ensures r.Ok? <==> 1 <= id <= 6
    ensures r.Ok? ==> r.value.id == id
    ensures r.Err? ==> r.error == NotFound(GenreEntity, id)
  {
    match GenreStorage.FindById(id)
    case Some(g) => Ok(g)
    case None => Err(NotFound(GenreEntity, id))
  }
}
