/** `InMemoryMpaStorage`: the fixed catalog of MPA ratings. */
module MpaStorage {
  import opened Wrappers

  datatype Mpa = Mpa(id: int, name: string, description: string)

  /** The catalog as seeded by the constructor. */
  const Ratings: map<int, Mpa> := map[
    1 := Mpa(1, "G", "у фильма нет возрастных ограничений"),
    2 := Mpa(2, "PG", "детям рекомендуется смотреть фильм с родителями"),
    3 := Mpa(3, "PG-13", "детям до 13 лет просмотр не желателен"),
    4 := Mpa(4, "R", "лицам до 17 лет просматривать фильм можно только в присутствии взрослого"),
    5 := Mpa(5, "NC-17", "лицам до 18 лет просмотр запрещён")
  ]

  /** `existsById`: the catalog holds exactly the ids 1..5. */
  function ExistsById(id: int): (r: bool)
    ensures r <==> 1 <= id <= 5
  {
    id in Ratings
  }

  /** `findById`: present exactly for catalog ids, and then the record
      carries the id that was asked for. */
  function FindById(id: int): (r: Option<Mpa>)
    ensures r.Some? <==> ExistsById(id)
    ensures r.Some? ==> r.value.id == id
  {
    if id in Ratings then Some(Ratings[id]) else None
  }

  /** `findAll`: the five ratings, by ascending id. */
  function FindAll(): (r: seq<Mpa>)
    ensures |r| == 5
    ensures forall i :: 0 <= i < |r| ==> FindById(i + 1) == Some(r[i])
  {
    [Ratings[1], Ratings[2], Ratings[3], Ratings[4], Ratings[5]]
  }

  /** The rating names by id. */
  lemma RatingNames()
    ensures FindById(1).value.name == "G"
    ensures FindById(2).value.name == "PG"
    ensures FindById(3).value.name == "PG-13"
    ensures FindById(4).value.name == "R"
    ensures FindById(5).value.name == "NC-17"
  {
  }
}

/** `InMemoryGenreStorage`: the fixed catalog of genres. */
module GenreStorage {
  import opened Wrappers

  datatype Genre = Genre(id: int, name: string)

  /** The catalog as seeded by the constructor. */
  const Genres: map<int, Genre> := map[
    1 := Genre(1, "Комедия"),
    2 := Genre(2, "Драма"),
    3 := Genre(3, "Мультфильм"),
    4 := Genre(4, "Триллер"),
    5 := Genre(5, "Документальный"),
    6 := Genre(6, "Боевик")
  ]

  /** `existsById`: the catalog holds exactly the ids 1..6. */
  function ExistsById(id: int): (r: bool)
    ensures r <==> 1 <= id <= 6
  {
    id in Genres
  }

  /** `findById`: present exactly for catalog ids, and then the record
      carries the id that was asked for. */
  function FindById(id: int): (r: Option<Genre>)
    ensures r.Some? <==> ExistsById(id)
    ensures r.Some? ==> r.value.id == id
  {
    if id in Genres then Some(Genres[id]) else None
  }

  /** `findAll`: the six genres, by ascending id. */
  function FindAll(): (r: seq<Genre>)
    ensures |r| == 6
    ensures forall i :: 0 <= i < |r| ==> FindById(i + 1) == Some(r[i])
  {
    [Genres[1], Genres[2], Genres[3], Genres[4], Genres[5], Genres[6]]
  }

  /** The genre names by id. */
  lemma GenreNames()
    ensures FindById(1).value.name == "Комедия"
    ensures FindById(2).value.name == "Драма"
    ensures FindById(3).value.name == "Мультфильм"
    ensures FindById(4).value.name == "Триллер"
    ensures FindById(5).value.name == "Документальный"
    ensures FindById(6).value.name == "Боевик"
  {
  }
}
