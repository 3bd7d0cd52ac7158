/** A film record and its set of likes. */
module FilmModel {
  import opened Wrappers
  import opened Dates

  /** A film as the service sees it. The nullable scalar fields (name,
      description, release date, duration) are `Option`s; `mpa` is the
      referenced rating id (None when the rating or its id is null) and
      `genres` the referenced genre ids (a genre with a null id is None; a
      null genre set is the empty set). A null genre element and a null
      like set have no counterpart here. `likes` holds user ids. */
  datatype Film = Film(
    id: int,
    name: Option<string>,
    description: Option<string>,
    releaseDate: Option<Date>,
    duration: Option<int>,
    mpa: Option<int>,
    genres: set<Option<int>>,
    likes: set<int>)

  /** Every field except `likes` agrees. */
  predicate SameDetails(f: Film, g: Film) {
    && f.id == g.id
    && f.name == g.name
    && f.description == g.description
    && f.releaseDate == g.releaseDate
    && f.duration == g.duration
    && f.mpa == g.mpa
    && f.genres == g.genres
  }

  /** Every field except `id` agrees. */
  predicate SameContent(f: Film, g: Film) {
    && f.name == g.name
    && f.description == g.description
    && f.releaseDate == g.releaseDate
    && f.duration == g.duration
    && f.mpa == g.mpa
    && f.genres == g.genres
    && f.likes == g.likes
  }

  /** `getLikesCount`: the number of distinct users who liked the film. */
  function LikesCount(f: Film): (n: nat)
    ensures n == 0 <==> f.likes == {}
  {
    |f.likes|
  }

  /** `Film.addLike`: set insertion of `userId`. */
  function AddLike(f: Film, userId: int): (r: Film)
    ensures SameDetails(f, r)
    ensures userId in r.likes
    ensures forall u :: u != userId ==> (u in r.likes <==> u in f.likes)
  {
    f.(likes := f.likes + {userId})
  }

  /** `Film.removeLike`: set removal of `userId`; absent is not an error. */
  function RemoveLike(f: Film, userId: int): (r: Film)
    ensures SameDetails(f, r)
    ensures userId !in r.likes
    ensures forall u :: u != userId ==> (u in r.likes <==> u in f.likes)
  {
    f.(likes := f.likes - {userId})
  }

  /** Liking twice is the same as liking once. */
  lemma AddLikeIdempotent(f: Film, userId: int)
    ensures AddLike(AddLike(f, userId), userId) == AddLike(f, userId)
  {
  }

  /** Removing a like that is not there changes nothing. */
  lemma RemoveAbsentLike(f: Film, userId: int)
    requires userId !in f.likes
    ensures RemoveLike(f, userId) == f
  {
  }

  /** A fresh like followed by its removal restores the film and its count. */
  lemma AddThenRemoveLike(f: Film, userId: int)
    requires userId !in f.likes
    ensures RemoveLike(AddLike(f, userId), userId) == f
    ensures LikesCount(RemoveLike(AddLike(f, userId), userId)) == LikesCount(f)
  {
  }

  /** A like raises the count by one exactly when the user had not liked it. */
  lemma AddLikeCount(f: Film, userId: int)
    ensures LikesCount(AddLike(f, userId)) == LikesCount(f) + (if userId in f.likes then 0 else 1)
  {
    if userId in f.likes {
      assert f.likes + {userId} == f.likes;
    }
  }

  /** An unlike lowers the count by one exactly when the user had liked it. */
  lemma RemoveLikeCount(f: Film, userId: int)
    ensures LikesCount(RemoveLike(f, userId)) == LikesCount(f) - (if userId in f.likes then 1 else 0)
  {
    if userId !in f.likes {
      assert f.likes - {userId} == f.likes;
    }
  }
}

/** A user record. */
module UserModel {
  import opened Wrappers
  import opened Dates

  /** A user as the service sees it; `friends` holds user ids. */
  datatype User = User(
    id: int,
    email: Option<string>,
    login: Option<string>,
    name: Option<string>,
    birthday: Option<Date>,
    friends: set<int>)

  /** Every field except `friends` agrees. */
  predicate SameProfile(u: User, v: User) {
    && u.id == v.id
    && u.email == v.email
    && u.login == v.login
    && u.name == v.name
    && u.birthday == v.birthday
  }

  /** Every field except `id` agrees. */
  predicate SameContent(u: User, v: User) {
    && u.email == v.email
    && u.login == v.login
    && u.name == v.name
    && u.birthday == v.birthday
    && u.friends == v.friends
  }

  /** `User.addFriend`: set insertion of `friendId`. */
  function AddFriendId(u: User, friendId: int): (r: User)
    ensures SameProfile(u, r)
    ensures friendId in r.friends
    ensures forall v :: v != friendId ==> (v in r.friends <==> v in u.friends)
  {
    u.(friends := u.friends + {friendId})
  }

  /** `User.removeFriend`: set removal of `friendId`. */
  function RemoveFriendId(u: User, friendId: int): (r: User)
    ensures SameProfile(u, r)
    ensures friendId !in r.friends
    ensures forall v :: v != friendId ==> (v in r.friends <==> v in u.friends)
  {
    u.(friends := u.friends - {friendId})
  }
}
