/** `UserService`: user validation, create/update with name defaulting,
    and the symmetric friend graph kept in the users' friend sets. */
module UserService {
  import opened Wrappers
  import opened Errors
  import opened Text
  import opened Dates
  import opened UserModel
  import opened IdStore
  import opened SeqFacts
  import UserStorage

  // The validation rules, one predicate each, in the order they are checked.

  predicate EmailOk(email: Option<string>) {
    email.Some? && !IsBlank(email.value) && Contains(email.value, '@')
  }

  predicate LoginOk(login: Option<string>) {
    login.Some? && !IsBlank(login.value) && !Contains(login.value, ' ')
  }

  predicate BirthdayOk(birthday: Date, today: Date) {
    !IsAfter(birthday, today)
  }

  /** `validateUser`, with `today` standing for `LocalDate.now()`: the first
      failing rule decides the error. */
  function ValidateUser(u: User, today: Date): (r: Outcome<Error>)
    ensures r == Fail(Validation(BadEmail)) <==> !EmailOk(u.email)
    ensures r == Fail(Validation(BadLogin)) <==> EmailOk(u.email) && !LoginOk(u.login)
    ensures r == Fail(Validation(MissingBirthday)) <==>
      EmailOk(u.email) && LoginOk(u.login) && u.birthday.None?
    ensures r == Fail(Validation(BirthdayInFuture)) <==>
      EmailOk(u.email) && LoginOk(u.login) && u.birthday.Some? && !BirthdayOk(u.birthday.value, today)
    ensures r.Pass? <==>
      EmailOk(u.email) && LoginOk(u.login) && u.birthday.Some? && BirthdayOk(u.birthday.value, today)
  {
    if u.email.None? || IsBlank(u.email.value) || !Contains(u.email.value, '@') then Fail(Validation(BadEmail))
    else if u.login.None? || IsBlank(u.login.value) || Contains(u.login.value, ' ') then Fail(Validation(BadLogin))
    else if u.birthday.None? then Fail(Validation(MissingBirthday))
    else if IsAfter(u.birthday.value, today) then Fail(Validation(BirthdayInFuture))
    else Pass
  }

  /** The blank test on the email is subsumed by the '@' test: an email is
      accepted exactly when it is present and contains '@'. */
  lemma EmailNeedsOnlyAt(email: Option<string>)
    ensures EmailOk(email) <==> email.Some? && '@' in email.value
  {
    if email.Some? && '@' in email.value {
      NotBlankIfContainsVisible(email.value, '@');
    }
  }

  /** A birthday of today is accepted; any later day is rejected. */
  lemma BirthdayBoundary(u: User, today: Date)
    requires EmailOk(u.email) && LoginOk(u.login) && u.birthday.Some?
    ensures u.birthday.value == today ==> ValidateUser(u, today).Pass?
    ensures IsAfter(u.birthday.value, today) ==> ValidateUser(u, today) == Fail(Validation(BirthdayInFuture))
  {
    Trichotomy(u.birthday.value, today);
  }

  /** The stored display name: the login when the name is null or blank. */
  function WithDefaultName(u: User): (r: User)
    ensures r.id == u.id && r.email == u.email && r.login == u.login && r.birthday == u.birthday
    ensures SameProfile(u, r) <==> r.name == u.name
    ensures r.friends == u.friends
    ensures u.name.None? || IsBlank(u.name.value) ==> r.name == u.login
    ensures u.name.Some? && !IsBlank(u.name.value) ==> r == u
    ensures LoginOk(u.login) ==> r.name.Some? && !IsBlank(r.name.value)
  {
    if u.name.None? || IsBlank(u.name.value) then u.(name := u.login) else u
  }

  /** `create`: a valid user is stored under a fresh id, named after their
      login when the name is null or blank; an invalid one changes nothing. */
  function Create(users: Store<User>, u: User, today: Date): (r: (Store<User>, Result<User, Error>))
    ensures ValidateUser(u, today).Fail? ==> r.0 == users && r.1 == Err(ValidateUser(u, today).error)
    ensures ValidateUser(u, today).Pass? ==> r.1.Ok?
    ensures r.1.Ok? ==> r.1.value.id == users.nextId
    ensures r.1.Ok? ==> r.0.entries == users.entries[users.nextId := r.1.value] && r.0.nextId == users.nextId + 1
    ensures r.1.Ok? && (u.name.None? || IsBlank(u.name.value)) ==> r.1.value.name == u.login
    ensures r.1.Ok? && !(u.name.None? || IsBlank(u.name.value)) ==> r.1.value.name == u.name
    ensures r.1.Ok? ==> && r.1.value.email == u.email && r.1.value.login == u.login
                        && r.1.value.birthday == u.birthday && r.1.value.friends == u.friends
    ensures Valid(users) ==> Valid(r.0)
    ensures UserStorage.IdsMatch(users) ==> UserStorage.IdsMatch(r.0)
  {
    match ValidateUser(u, today)
    case Fail(e) => (users, Err(e))
    case Pass =>
      var (users', created) := UserStorage.Create(users, WithDefaultName(u));
      (users', Ok(created))
  }

  /** `update`: validation first, then the existence check, then the same
      name defaulting as `create`; only that id's user is replaced. */
  function Update(users: Store<User>, u: User, today: Date): (r: (Store<User>, Result<User, Error>))
    ensures ValidateUser(u, today).Fail? ==> r.0 == users && r.1 == Err(ValidateUser(u, today).error)
    ensures ValidateUser(u, today).Pass? && u.id !in users.entries ==>
      r.0 == users && r.1 == Err(NotFound(UserEntity, u.id))
    ensures ValidateUser(u, today).Pass? && u.id in users.entries ==> r.1.Ok?
    ensures r.1.Ok? ==> r.1.value.id == u.id && r.0.entries == users.entries[u.id := r.1.value]
    ensures r.1.Ok? ==> r.0.nextId == users.nextId
    ensures r.1.Ok? && (u.name.None? || IsBlank(u.name.value)) ==> r.1.value.name == u.login
    ensures r.1.Ok? && !(u.name.None? || IsBlank(u.name.value)) ==> r.1.value.name == u.name
    ensures r.1.Ok? ==> && r.1.value.email == u.email && r.1.value.login == u.login
                        && r.1.value.birthday == u.birthday && r.1.value.friends == u.friends
    ensures Valid(users) ==> Valid(r.0)
    ensures UserStorage.IdsMatch(users) ==> UserStorage.IdsMatch(r.0)
  {
    match ValidateUser(u, today)
    case Fail(e) => (users, Err(e))
    case Pass =>
      if !Exists(users, u.id) then (users, Err(NotFound(UserEntity, u.id)))
      else
        var named := WithDefaultName(u);
        match UserStorage.Update(users, named)
        case Err(e) => (users, Err(e))
        case Ok(users') => (users', Ok(named))
  }

  /** `getById`: the stored user, or NotFound. */
  function GetById(users: Store<User>, id: int): (r: Result<User, Error>)
    ensures r.Ok? <==> id in users.entries
    ensures r.Ok? ==> r.value == users.entries[id]
    ensures r.Err? ==> r.error == NotFound(UserEntity, id)
  {
    match Find(users, id)
    case Some(u) => Ok(u)
    case None => Err(NotFound(UserEntity, id))
  }

  // The friend graph.

  /** `v` is in stored user `u`'s friend set. */
  predicate AreFriends(users: Store<User>, u: int, v: int) {
    u in users.entries && v in users.entries[u].friends
  }

  /** The invariant the friend operations keep: friendship is mutual, never
      with oneself, and only between stored users. */
  ghost predicate FriendGraphOk(users: Store<User>) {
    && (forall u, v :: AreFriends(users, u, v) ==> AreFriends(users, v, u))
    && (forall u :: !AreFriends(users, u, u))
    && (forall u, v :: AreFriends(users, u, v) ==> v in users.entries)
  }

  /** `addFriend`: both users must exist (the requester first) and differ;
      then each enters the other's friend set and nobody else changes. */
  function AddFriend(users: Store<User>, userId: int, friendId: int): (r: (Store<User>, Outcome<Error>))
    ensures userId !in users.entries ==> r == (users, Fail(NotFound(UserEntity, userId)))
    ensures userId in users.entries && friendId !in users.entries ==>
      r == (users, Fail(NotFound(UserEntity, friendId)))
    ensures userId in users.entries && friendId in users.entries && userId == friendId ==>
      r == (users, Fail(Validation(SelfFriendship)))
    ensures userId in users.entries && friendId in users.entries && userId != friendId ==> r.1.Pass?
    ensures r.1.Pass? ==> r.0.entries.Keys == users.entries.Keys && r.0.nextId == users.nextId
    ensures r.1.Pass? ==> AreFriends(r.0, userId, friendId) && AreFriends(r.0, friendId, userId)
    ensures r.1.Pass? ==> r.0.entries[userId] == AddFriendId(users.entries[userId], friendId)
    ensures r.1.Pass? ==> r.0.entries[friendId] == AddFriendId(users.entries[friendId], userId)
    ensures r.1.Pass? ==> forall k :: k in users.entries && k != userId && k != friendId ==>
      r.0.entries[k] == users.entries[k]
  {
    match GetById(users, userId)
    case Err(e) => (users, Fail(e))
    case Ok(user) =>
      match GetById(users, friendId)
      case Err(e) => (users, Fail(e))
      case Ok(friend) =>
        if userId == friendId then (users, Fail(Validation(SelfFriendship)))
        else
          var entries := users.entries[userId := AddFriendId(user, friendId)];
          (Store(entries[friendId := AddFriendId(friend, userId)], users.nextId), Pass)
  }

  /** `removeFriend`: both users must exist (the requester first); then
      each leaves the other's friend set and nobody else changes. There is
      no self check: removing oneself just drops the user's own id. */
  function RemoveFriend(users: Store<User>, userId: int, friendId: int): (r: (Store<User>, Outcome<Error>))
    ensures userId !in users.entries ==> r == (users, Fail(NotFound(UserEntity, userId)))
    ensures userId in users.entries && friendId !in users.entries ==>
      r == (users, Fail(NotFound(UserEntity, friendId)))
    ensures userId in users.entries && friendId in users.entries ==> r.1.Pass?
    ensures r.1.Pass? ==> r.0.entries.Keys == users.entries.Keys && r.0.nextId == users.nextId
    ensures r.1.Pass? ==> !AreFriends(r.0, userId, friendId) && !AreFriends(r.0, friendId, userId)
    ensures r.1.Pass? ==> SameProfile(users.entries[userId], r.0.entries[userId])
    ensures r.1.Pass? ==> SameProfile(users.entries[friendId], r.0.entries[friendId])
    ensures r.1.Pass? ==> r.0.entries[userId].friends == users.entries[userId].friends - {friendId}
    ensures r.1.Pass? ==> r.0.entries[friendId].friends == users.entries[friendId].friends - {userId}
    ensures r.1.Pass? ==> forall k :: k in users.entries && k != userId && k != friendId ==>
      r.0.entries[k] == users.entries[k]
  {
    match GetById(users, userId)
    case Err(e) => (users, Fail(e))
    case Ok(user) =>
      match GetById(users, friendId)
      case Err(e) => (users, Fail(e))
      case Ok(_) =>
        // The friend is re-read so that a self-removal acts on one record.
        var entries := users.entries[userId := RemoveFriendId(user, friendId)];
        (Store(entries[friendId := RemoveFriendId(entries[friendId], userId)], users.nextId), Pass)
  }

  /** `addFriend` keeps the friend graph mutual, irreflexive and closed. */
  lemma AddFriendKeepsGraph(users: Store<User>, userId: int, friendId: int)
    requires FriendGraphOk(users)
    ensures FriendGraphOk(AddFriend(users, userId, friendId).0)
  {
    var r := AddFriend(users, userId, friendId);
    if r.1.Pass? {
      var s := r.0;
      forall u, v | AreFriends(s, u, v) ensures AreFriends(s, v, u) && v in s.entries {
        if !((u == userId && v == friendId) || (u == friendId && v == userId)) {
          assert AreFriends(users, u, v);
        }
      }
      forall u ensures !AreFriends(s, u, u) {
        if AreFriends(s, u, u) {
          assert AreFriends(users, u, u);
        }
      }
    }
  }

  /** `removeFriend` keeps the friend graph mutual, irreflexive and closed. */
  lemma RemoveFriendKeepsGraph(users: Store<User>, userId: int, friendId: int)
    requires FriendGraphOk(users)
    ensures FriendGraphOk(RemoveFriend(users, userId, friendId).0)
  {
    var r := RemoveFriend(users, userId, friendId);
    if r.1.Pass? {
      var s := r.0;
      forall u, v | AreFriends(s, u, v) ensures AreFriends(s, v, u) && v in s.entries {
        assert AreFriends(users, u, v);
        assert AreFriends(users, v, u);
      }
      forall u ensures !AreFriends(s, u, u) {
        if AreFriends(s, u, u) {
          assert AreFriends(users, u, u);
        }
      }
    }
  }

  /** Befriending two users who were not friends and then unfriending them
      restores the store exactly. */
  lemma AddThenRemoveFriend(users: Store<User>, userId: int, friendId: int)
    requires FriendGraphOk(users)
    requires userId in users.entries && friendId in users.entries && userId != friendId
    requires !AreFriends(users, userId, friendId)
    ensures AddFriend(users, userId, friendId).1 == Pass
    ensures RemoveFriend(AddFriend(users, userId, friendId).0, userId, friendId) == (users, Pass)
  {
    var added := AddFriend(users, userId, friendId).0;
    var back := RemoveFriend(added, userId, friendId).0;
    assert !AreFriends(users, friendId, userId);
    forall k | k in users.entries ensures back.entries[k] == users.entries[k] {
      if k == userId || k == friendId {
        assert back.entries[k].friends == users.entries[k].friends;
      }
    }
    assert back.entries == users.entries;
  }

  // The validation rules as a store invariant: every stored user passes
  // `validateUser` on the given day, and each operation keeps it.

  /** Every stored user passes `validateUser` on day `today`. */
  ghost predicate StoredUsersValid(users: Store<User>, today: Date) {
    forall k :: k in users.entries ==> ValidateUser(users.entries[k], today).Pass?
  }

  /** The validation reads neither the id, the name nor the friends. */
  lemma ValidateIgnoresNameAndFriends(u: User, v: User, today: Date)
    requires u.email == v.email && u.login == v.login && u.birthday == v.birthday
    ensures ValidateUser(u, today) == ValidateUser(v, today)
  {
  }

  /** A user valid on one day is valid on every later day: a birthday not
      after `today` is not after any later day either. */
  lemma StoredUsersStayValid(users: Store<User>, today: Date, later: Date)
    requires StoredUsersValid(users, today)
    requires !IsBefore(later, today)
    ensures StoredUsersValid(users, later)
  {
  }

  /** The empty store after `clear` holds no invalid user. */
  lemma ClearKeepsUsersValid(users: Store<User>, today: Date)
    ensures StoredUsersValid(Clear(users), today)
  {
  }

  /** `create` stores only a user that passed the validation. */
  lemma CreateKeepsUsersValid(users: Store<User>, u: User, today: Date)
    requires StoredUsersValid(users, today)
    ensures StoredUsersValid(Create(users, u, today).0, today)
  {
  }

  /** `update` replaces a user only by one that passed the validation. */
  lemma UpdateKeepsUsersValid(users: Store<User>, u: User, today: Date)
    requires StoredUsersValid(users, today)
    ensures StoredUsersValid(Update(users, u, today).0, today)
  {
  }

  /** Befriending changes only friend sets, which the validation does not read. */
  lemma AddFriendKeepsUsersValid(users: Store<User>, userId: int, friendId: int, today: Date)
    requires StoredUsersValid(users, today)
    ensures StoredUsersValid(AddFriend(users, userId, friendId).0, today)
  {
  }

  /** Unfriending changes only friend sets. */
  lemma RemoveFriendKeepsUsersValid(users: Store<User>, userId: int, friendId: int, today: Date)
    requires StoredUsersValid(users, today)
    ensures StoredUsersValid(RemoveFriend(users, userId, friendId).0, today)
  {
  }

  /** A created user is found under the id it was given. */
  lemma CreateThenGet(users: Store<User>, u: User, today: Date)
    requires ValidateUser(u, today).Pass?
    ensures GetById(Create(users, u, today).0, users.nextId) == Create(users, u, today).1
  {
  }

  /** Unfriending twice leaves the store as unfriending once does. */
  lemma RemoveFriendIdempotent(users: Store<User>, userId: int, friendId: int)
    ensures RemoveFriend(RemoveFriend(users, userId, friendId).0, userId, friendId).0
         == RemoveFriend(users, userId, friendId).0
  {
    var once := RemoveFriend(users, userId, friendId);
    if once.1.Pass? {
      var twice := RemoveFriend(once.0, userId, friendId);
      forall k | k in once.0.entries ensures twice.0.entries[k] == once.0.entries[k] {
        if k == userId || k == friendId {
          assert twice.0.entries[k].friends == once.0.entries[k].friends;
        }
      }
      assert twice.0.entries == once.0.entries;
    }
  }

  /** `getById` mapped over `ids`, failing at the first unknown id. */
  function LookupAll(users: Store<User>, ids: seq<int>): (r: Result<seq<User>, Error>)
    ensures r.Ok? <==> forall i :: 0 <= i < |ids| ==> ids[i] in users.entries
    ensures r.Ok? ==> |r.value| == |ids| && forall i :: 0 <= i < |ids| ==> r.value[i] == users.entries[ids[i]]
    ensures r.Err? ==> exists k :: (0 <= k < |ids| && ids[k] !in users.entries &&
      (forall j :: 0 <= j < k ==> ids[j] in users.entries) && r.error == NotFound(UserEntity, ids[k]))
  {
    if ids == [] then Ok([])
    else
      match GetById(users, ids[0])
      case Err(e) => Err(e)
      case Ok(u) =>
        match LookupAll(users, ids[1..])
        case Err(e) =>
          var k :| 0 <= k < |ids[1..]| && ids[1..][k] !in users.entries &&
            (forall j :: 0 <= j < k ==> ids[1..][j] in users.entries) && e == NotFound(UserEntity, ids[1..][k]);
          assert ids[k + 1] !in users.entries;
          assert forall j :: 0 <= j < k + 1 ==> ids[j] in users.entries by {
            forall j | 0 <= j < k + 1 ensures ids[j] in users.entries {
              if j > 0 { assert ids[j] == ids[1..][j - 1]; }
            }
          }
          Err(e)
        case Ok(us) => Ok([u] + us)
  }

  /** `getFriends`: the user's friends, each once, in some order. Under
      the friend-graph invariant every friend is found. */
  method GetFriends(users: Store<User>, userId: int) returns (ids: seq<int>, r: Result<seq<User>, Error>)
    ensures userId !in users.entries ==> r == Err(NotFound(UserEntity, userId))
    ensures userId in users.entries ==> Distinct(ids) && Elements(ids) == users.entries[userId].friends
    ensures r.Ok? ==> forall i :: 0 <= i < |ids| ==> ids[i] in users.entries
    ensures r.Ok? ==> |r.value| == |ids| && forall i :: 0 <= i < |ids| ==> r.value[i] == users.entries[ids[i]]
    ensures userId in users.entries ==> r == LookupAll(users, ids)
    ensures userId in users.entries && FriendGraphOk(users) ==> r.Ok?
  {
    match GetById(users, userId)
    case Err(e) =>
      ids, r := [], Err(e);
    case Ok(user) =>
      ids := Enumerate(user.friends);
      r := LookupAll(users, ids);
      if FriendGraphOk(users) {
        forall i | 0 <= i < |ids| ensures ids[i] in users.entries {
          assert ids[i] in Elements(ids);
          assert AreFriends(users, userId, ids[i]);
        }
      }
  }

  /** `getCommonFriends`: the ids in both users' friend sets, in the order
      the first user's set is enumerated. Under the friend-graph invariant
      every one is found and neither of the two users is among them. */
  method GetCommonFriends(users: Store<User>, userId: int, otherId: int)
    returns (ids: seq<int>, r: Result<seq<User>, Error>)
    ensures userId !in users.entries ==> r == Err(NotFound(UserEntity, userId))
    ensures userId in users.entries && otherId !in users.entries ==> r == Err(NotFound(UserEntity, otherId))
    ensures userId in users.entries && otherId in users.entries ==>
      && Distinct(ids)
      && Elements(ids) == users.entries[userId].friends * users.entries[otherId].friends
      && |ids| == |users.entries[userId].friends * users.entries[otherId].friends|
    ensures r.Ok? ==> forall i :: 0 <= i < |ids| ==> ids[i] in users.entries
    ensures r.Ok? ==> |r.value| == |ids| && forall i :: 0 <= i < |ids| ==> r.value[i] == users.entries[ids[i]]
    ensures userId in users.entries && otherId in users.entries ==> r == LookupAll(users, ids)
    ensures userId in users.entries && otherId in users.entries && FriendGraphOk(users) ==>
      r.Ok? && userId !in ids && otherId !in ids
  {
    match GetById(users, userId)
    case Err(e) =>
      ids, r := [], Err(e);
    case Ok(user) =>
      match GetById(users, otherId)
      case Err(e) =>
        ids, r := [], Err(e);
      case Ok(other) =>
        var order := Enumerate(user.friends);
        ids := KeepIn(order, other.friends);
        DistinctCardinality(ids);
        r := LookupAll(users, ids);
        if FriendGraphOk(users) {
          forall i | 0 <= i < |ids| ensures ids[i] in users.entries {
            assert ids[i] in Elements(ids);
            assert AreFriends(users, userId, ids[i]);
          }
          assert userId !in Elements(ids) by {
            assert !AreFriends(users, userId, userId);
          }
          assert otherId !in Elements(ids) by {
            assert !AreFriends(users, otherId, otherId);
          }
        }
  }
}
