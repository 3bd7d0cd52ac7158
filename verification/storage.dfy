/** `InMemoryFilmStorage`: films in an id-issuing store. */
module FilmStorage {
  import opened Wrappers
  import opened Errors
  import opened FilmModel
  import opened IdStore

  /** Every film is stored under its own id. */
  ghost predicate IdsMatch(s: Store<Film>) {
    forall k :: k in s.entries ==> s.entries[k].id == k
  }

  /** `create`: stamp the film with the counter's value, store it under
      that id and advance the counter. The id never collides with a stored one. */
  function Create(s: Store<Film>, f: Film): (r: (Store<Film>, Film))
    ensures r.1.id == s.nextId && SameContent(f, r.1)
    ensures r.0.nextId == s.nextId + 1
    ensures r.0.entries == s.entries[s.nextId := r.1]
    ensures Valid(s) ==> s.nextId !in s.entries && Valid(r.0)
    ensures IdsMatch(s) ==> IdsMatch(r.0)
  {
    var created := f.(id := s.nextId);
    (Insert(s, created), created)
  }

  /** `update`: replace the film stored under its id; an absent id throws
      and nothing changes. */
  function Update(s: Store<Film>, f: Film): (r: Result<Store<Film>, Error>)
    ensures r.Err? <==> f.id !in s.entries
    ensures r.Err? ==> r.error == StoreMiss(FilmEntity, f.id)
    ensures r.Ok? ==> r.value.entries.Keys == s.entries.Keys && r.value.nextId == s.nextId
    ensures r.Ok? ==> r.value.entries[f.id] == f
    ensures r.Ok? ==> forall k :: k in s.entries && k != f.id ==> r.value.entries[k] == s.entries[k]
    ensures r.Ok? && Valid(s) ==> Valid(r.value)
    ensures r.Ok? && IdsMatch(s) ==> IdsMatch(r.value)
  {
    match Replace(s, f.id, f)
    case None => Err(StoreMiss(FilmEntity, f.id))
    case Some(s') => Ok(s')
  }

  /** `addLike`: `Film.addLike` applied to the stored film; no other film
      and no other field changes. */
  function AddLike(s: Store<Film>, filmId: int, userId: int): (r: Store<Film>)
    requires filmId in s.entries
    ensures r.entries.Keys == s.entries.Keys && r.nextId == s.nextId
    ensures SameDetails(s.entries[filmId], r.entries[filmId])
    ensures r.entries[filmId].likes == s.entries[filmId].likes + {userId}
    ensures forall k :: k in s.entries && k != filmId ==> r.entries[k] == s.entries[k]
    ensures Valid(s) ==> Valid(r)
    ensures IdsMatch(s) ==> IdsMatch(r)
  {
    Store(s.entries[filmId := FilmModel.AddLike(s.entries[filmId], userId)], s.nextId)
  }

  /** `removeLike`: `Film.removeLike` applied to the stored film; no other
      film and no other field changes. */
  function RemoveLike(s: Store<Film>, filmId: int, userId: int): (r: Store<Film>)
    requires filmId in s.entries
    ensures r.entries.Keys == s.entries.Keys && r.nextId == s.nextId
    ensures SameDetails(s.entries[filmId], r.entries[filmId])
    ensures r.entries[filmId].likes == s.entries[filmId].likes - {userId}
    ensures forall k :: k in s.entries && k != filmId ==> r.entries[k] == s.entries[k]
    ensures Valid(s) ==> Valid(r)
    ensures IdsMatch(s) ==> IdsMatch(r)
  {
    Store(s.entries[filmId := FilmModel.RemoveLike(s.entries[filmId], userId)], s.nextId)
  }
}

/** `InMemoryUserStorage`: users in an id-issuing store, and friendship
    hooks that do nothing. */
module UserStorage {
  import opened Wrappers
  import opened Errors
  import opened UserModel
  import opened IdStore

  /** Every user is stored under their own id. */
  ghost predicate IdsMatch(s: Store<User>) {
    forall k :: k in s.entries ==> s.entries[k].id == k
  }

  /** `create`: stamp the user with the counter's value, store them under
      that id and advance the counter. The id never collides with a stored one. */
  function Create(s: Store<User>, u: User): (r: (Store<User>, User))
    ensures r.1.id == s.nextId && SameContent(u, r.1)
    ensures r.0.nextId == s.nextId + 1
    ensures r.0.entries == s.entries[s.nextId := r.1]
    ensures Valid(s) ==> s.nextId !in s.entries && Valid(r.0)
    ensures IdsMatch(s) ==> IdsMatch(r.0)
  {
    var created := u.(id := s.nextId);
    (Insert(s, created), created)
  }

  /** `update`: replace the user stored under their id; an absent id
      throws and nothing changes. */
  function Update(s: Store<User>, u: User): (r: Result<Store<User>, Error>)
    ensures r.Err? <==> u.id !in s.entries
    ensures r.Err? ==> r.error == StoreMiss(UserEntity, u.id)
    ensures r.Ok? ==> r.value.entries.Keys == s.entries.Keys && r.value.nextId == s.nextId
    ensures r.Ok? ==> r.value.entries[u.id] == u
    ensures r.Ok? ==> forall k :: k in s.entries && k != u.id ==> r.value.entries[k] == s.entries[k]
    ensures r.Ok? && Valid(s) ==> Valid(r.value)
    ensures r.Ok? && IdsMatch(s) ==> IdsMatch(r.value)
  {
    match Replace(s, u.id, u)
    case None => Err(StoreMiss(UserEntity, u.id))
    case Some(s') => Ok(s')
  }

  // The storage-level friendship hooks only log.

  function AddFriend(s: Store<User>, userId: int, friendId: int): Store<User> { s }
  function ConfirmFriendship(s: Store<User>, userId: int, friendId: int): Store<User> { s }
  function RemoveFriend(s: Store<User>, userId: int, friendId: int): Store<User> { s }
  function GetFriendIds(s: Store<User>, userId: int): seq<int> { [] }
  function GetCommonFriendIds(s: Store<User>, userId: int, otherUserId: int): seq<int> { [] }

  /** The friendship hooks leave the store as it was and report nobody. */
  lemma FriendshipHooksInert(s: Store<User>, a: int, b: int)
    ensures AddFriend(s, a, b) == s && ConfirmFriendship(s, a, b) == s && RemoveFriend(s, a, b) == s
    ensures |GetFriendIds(s, a)| == 0 && |GetCommonFriendIds(s, a, b)| == 0
  {
  }
}
