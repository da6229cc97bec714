/** The user handlers: sign-up, profile edit, favourites, likes, follows
    and the top-users ranking. */
module UserServices {
  import opened Models
  import opened Sorting
  import opened RestaurantServices

  const PasswordsDiffer := "Passwords do not match!"
  const EmailTaken := "Email already exists!"
  const PermissionDenied := "Permission denied!"
  const NameRequired := "User name is required!"
  const AlreadyFavorited := "已經加過最愛"
  const NotFavorited := "此餐廳未加入過最愛"
  const AlreadyLiked := "You've liked this restaurant"
  const NotLiked := "This restaurant hasn't been liked"
  const SelfFollow := "You can't follow yourself"
  const AlreadyFollowed := "You've already followed this user!"
  const NotFollowed := "You haven't followed this user!"

  // ---------------------------------------------------------------------
  // signUp and putUser

  /** Whether some stored user has this email (`User.findOne({ where: { email } })`). */
  predicate EmailInUse(users: map<int, User>, email: string) {
    exists id :: id in users && users[id].email == email
  }

  /** Sign-up with `hash` standing for `bcrypt.hash(password, 10)`. A
      mismatch fails before the store is read; a known email fails; either
      way nothing changes. Otherwise one user is created under the next
      id, not an admin and without an image, and returned without its
      password. */
  method SignUp(db: Db, name: string, email: string, password: string, passwordCheck: string,
                hash: string) returns (r: Result<PublicUser>)
    requires db.Valid()
    modifies db
    ensures db.Valid()
    ensures password != passwordCheck ==>
      r == Err(Thrown(PasswordsDiffer)) && db.Snapshot() == old(db.Snapshot())
    ensures password == passwordCheck && EmailInUse(old(db.users), email) ==>
      r == Err(Thrown(EmailTaken)) && db.Snapshot() == old(db.Snapshot())
    ensures password == passwordCheck && !EmailInUse(old(db.users), email) ==>
      var u := User(old(db.nextUserId), name, email, hash, false, None);
      && r == Ok(Public(u))
      && db.Snapshot() == old(db.Snapshot()).(users := old(db.users)[u.id := u],
                                              nextUserId := old(db.nextUserId) + 1)
  {
    if password != passwordCheck {
      return Err(Thrown(PasswordsDiffer));
    }
    if exists id :: id in db.users && db.users[id].email == email {
      return Err(Thrown(EmailTaken));
    }
    var u := User(db.nextUserId, name, email, hash, false, None);
    db.users := db.users[u.id := u];
    db.nextUserId := db.nextUserId + 1;
    r := Ok(Public(u));
  }

  /** Profile edit by user `currentUserId` of the user in the path, with
      `filePath` what the upload handler returned. Only the owner may
      edit, the name must be non-empty and the user must exist; then the
      name changes, the image changes only when a file was uploaded, and
      the user comes back without its password. */
  method PutUser(db: Db, currentUserId: int, id: int, name: string, filePath: Option<string>)
    returns (r: Result<PublicUser>)
    requires db.Valid()
    modifies db
    ensures db.Valid()
    ensures id != currentUserId ==>
      r == Err(Thrown(PermissionDenied)) && db.Snapshot() == old(db.Snapshot())
    ensures id == currentUserId && name == "" ==>
      r == Err(Thrown(NameRequired)) && db.Snapshot() == old(db.Snapshot())
    ensures id == currentUserId && name != "" && id !in old(db.users) ==>
      r == Err(Thrown(UserMissing)) && db.Snapshot() == old(db.Snapshot())
    ensures id == currentUserId && name != "" && id in old(db.users) ==>
      var u := old(db.users[id]).(name := name,
                                  image := if Upload(filePath).Some? then filePath else old(db.users[id].image));
      && r == Ok(Public(u))
      && db.Snapshot() == old(db.Snapshot()).(users := old(db.users)[id := u])
  {
    if id != currentUserId {
      return Err(Thrown(PermissionDenied));
    }
    if name == "" {
      return Err(Thrown(NameRequired));
    }
    if id !in db.users {
      return Err(Thrown(UserMissing));
    }
    var old_ := db.users[id];
    var u := old_.(name := name, image := if Upload(filePath).Some? then filePath else old_.image);
    db.users := db.users[id := u];
    r := Ok(Public(u));
  }

  // ---------------------------------------------------------------------
  // favourites and likes

  /** Favourites restaurant `restaurantId` for user `userId`: fails on an
      unknown restaurant, then on a pair already present; otherwise adds
      exactly that pair. */
  method AddFavorite(db: Db, userId: int, restaurantId: int) returns (r: Result<Pair>)
    requires db.Valid()
    modifies db
    ensures db.Valid()
    ensures restaurantId !in old(db.restaurants) ==>
      r == Err(Thrown(RestaurantMissing)) && db.Snapshot() == old(db.Snapshot())
    ensures restaurantId in old(db.restaurants) && (userId, restaurantId) in old(db.favorites) ==>
      r == Err(Thrown(AlreadyFavorited)) && db.Snapshot() == old(db.Snapshot())
    ensures restaurantId in old(db.restaurants) && (userId, restaurantId) !in old(db.favorites) ==>
      r == Ok((userId, restaurantId))
      && db.Snapshot() == old(db.Snapshot()).(favorites := old(db.favorites) + {(userId, restaurantId)})
  {
    if restaurantId !in db.restaurants {
      return Err(Thrown(RestaurantMissing));
    }
    if (userId, restaurantId) in db.favorites {
      return Err(Thrown(AlreadyFavorited));
    }
    db.favorites := db.favorites + {(userId, restaurantId)};
    r := Ok((userId, restaurantId));
  }

  /** Fails when the pair is absent; otherwise removes exactly that pair
      and returns it. */
  method RemoveFavorite(db: Db, userId: int, restaurantId: int) returns (r: Result<Pair>)
    requires db.Valid()
    modifies db
    ensures db.Valid()
    ensures (userId, restaurantId) !in old(db.favorites) ==>
      r == Err(Thrown(NotFavorited)) && db.Snapshot() == old(db.Snapshot())
    ensures (userId, restaurantId) in old(db.favorites) ==>
      r == Ok((userId, restaurantId))
      && db.Snapshot() == old(db.Snapshot()).(favorites := old(db.favorites) - {(userId, restaurantId)})
  {
    if (userId, restaurantId) !in db.favorites {
      return Err(Thrown(NotFavorited));
    }
    db.favorites := db.favorites - {(userId, restaurantId)};
    r := Ok((userId, restaurantId));
  }

  method AddLike(db: Db, userId: int, restaurantId: int) returns (r: Result<Pair>)
    requires db.Valid()
    modifies db
    ensures db.Valid()
    ensures restaurantId !in old(db.restaurants) ==>
      r == Err(Thrown(RestaurantMissing)) && db.Snapshot() == old(db.Snapshot())
    ensures restaurantId in old(db.restaurants) && (userId, restaurantId) in old(db.likes) ==>
      r == Err(Thrown(AlreadyLiked)) && db.Snapshot() == old(db.Snapshot())
    ensures restaurantId in old(db.restaurants) && (userId, restaurantId) !in old(db.likes) ==>
      r == Ok((userId, restaurantId))
      && db.Snapshot() == old(db.Snapshot()).(likes := old(db.likes) + {(userId, restaurantId)})
  {
    if restaurantId !in db.restaurants {
      return Err(Thrown(RestaurantMissing));
    }
    if (userId, restaurantId) in db.likes {
      return Err(Thrown(AlreadyLiked));
    }
    db.likes := db.likes + {(userId, restaurantId)};
    r := Ok((userId, restaurantId));
  }

  method RemoveLike(db: Db, userId: int, restaurantId: int) returns (r: Result<Pair>)
    requires db.Valid()
    modifies db
    ensures db.Valid()
    ensures (userId, restaurantId) !in old(db.likes) ==>
      r == Err(Thrown(NotLiked)) && db.Snapshot() == old(db.Snapshot())
    ensures (userId, restaurantId) in old(db.likes) ==>
      r == Ok((userId, restaurantId))
      && db.Snapshot() == old(db.Snapshot()).(likes := old(db.likes) - {(userId, restaurantId)})
  {
    if (userId, restaurantId) !in db.likes {
      return Err(Thrown(NotLiked));
    }
    db.likes := db.likes - {(userId, restaurantId)};
    r := Ok((userId, restaurantId));
  }

  /** Adding a favourite and then removing it leaves the store as it was. */
  method FavoriteRoundTrip(db: Db, userId: int, restaurantId: int) returns (added: Result<Pair>, removed: Result<Pair>)
    requires db.Valid()
    requires restaurantId in db.restaurants && (userId, restaurantId) !in db.favorites
    modifies db
    ensures db.Valid()
    ensures added.Ok? && removed.Ok?
    ensures db.Snapshot() == old(db.Snapshot())
  {
    added := AddFavorite(db, userId, restaurantId);
    removed := RemoveFavorite(db, userId, restaurantId);
  }

  method LikeRoundTrip(db: Db, userId: int, restaurantId: int) returns (added: Result<Pair>, removed: Result<Pair>)
    requires db.Valid()
    requires restaurantId in db.restaurants && (userId, restaurantId) !in db.likes
    modifies db
    ensures db.Valid()
    ensures added.Ok? && removed.Ok?
    ensures db.Snapshot() == old(db.Snapshot())
  {
    added := AddLike(db, userId, restaurantId);
    removed := RemoveLike(db, userId, restaurantId);
  }

  /** A new favourite raises the restaurant's favourite count (on the
      dashboard and in the ranking) by exactly one. */
  lemma FavoriteRaisesCount(favorites: set<Pair>, userId: int, restaurantId: int)
    requires (userId, restaurantId) !in favorites
    ensures |Favoriters(favorites + {(userId, restaurantId)}, restaurantId)| == |Favoriters(favorites, restaurantId)| + 1
  {
    var before := Favoriters(favorites, restaurantId);
    var after := Favoriters(favorites + {(userId, restaurantId)}, restaurantId);
    assert userId !in before;
    assert after == before + {userId};
  }

  /** Removing a favourite lowers that count by exactly one. */
  lemma UnfavoriteLowersCount(favorites: set<Pair>, userId: int, restaurantId: int)
    requires (userId, restaurantId) in favorites
    ensures |Favoriters(favorites - {(userId, restaurantId)}, restaurantId)| == |Favoriters(favorites, restaurantId)| - 1
  {
    var before := Favoriters(favorites, restaurantId);
    var after := Favoriters(favorites - {(userId, restaurantId)}, restaurantId);
    assert userId in before;
    assert after == before - {userId};
  }

  // ---------------------------------------------------------------------
  // follows

  /** User `currentUserId` follows user `userId`: self-follow fails before
      the store is read, then an unknown user, then an existing
      followship; otherwise exactly the (follower, following) row is added. */
  method AddFollowing(db: Db, currentUserId: int, userId: int) returns (r: Result<Pair>)
    requires db.Valid()
    modifies db
    ensures db.Valid()
    ensures userId == currentUserId ==>
      r == Err(Thrown(SelfFollow)) && db.Snapshot() == old(db.Snapshot())
    ensures userId != currentUserId && userId !in old(db.users) ==>
      r == Err(Thrown(UserMissing)) && db.Snapshot() == old(db.Snapshot())
    ensures userId != currentUserId && userId in old(db.users) && (currentUserId, userId) in old(db.followships) ==>
      r == Err(Thrown(AlreadyFollowed)) && db.Snapshot() == old(db.Snapshot())
    ensures userId != currentUserId && userId in old(db.users) && (currentUserId, userId) !in old(db.followships) ==>
      r == Ok((currentUserId, userId))
      && db.Snapshot() == old(db.Snapshot()).(followships := old(db.followships) + {(currentUserId, userId)})
  {
    if userId == currentUserId {
      return Err(Thrown(SelfFollow));
    }
    if userId !in db.users {
      return Err(Thrown(UserMissing));
    }
    if (currentUserId, userId) in db.followships {
      return Err(Thrown(AlreadyFollowed));
    }
    db.followships := db.followships + {(currentUserId, userId)};
    r := Ok((currentUserId, userId));
  }

  method RemoveFollow(db: Db, currentUserId: int, userId: int) returns (r: Result<Pair>)
    requires db.Valid()
    modifies db
    ensures db.Valid()
    ensures (currentUserId, userId) !in old(db.followships) ==>
      r == Err(Thrown(NotFollowed)) && db.Snapshot() == old(db.Snapshot())
    ensures (currentUserId, userId) in old(db.followships) ==>
      r == Ok((currentUserId, userId))
      && db.Snapshot() == old(db.Snapshot()).(followships := old(db.followships) - {(currentUserId, userId)})
  {
    if (currentUserId, userId) !in db.followships {
      return Err(Thrown(NotFollowed));
    }
    db.followships := db.followships - {(currentUserId, userId)};
    r := Ok((currentUserId, userId));
  }

  method FollowRoundTrip(db: Db, currentUserId: int, userId: int) returns (added: Result<Pair>, removed: Result<Pair>)
    requires db.Valid()
    requires userId != currentUserId && userId in db.users && (currentUserId, userId) !in db.followships
    modifies db
    ensures db.Valid()
    ensures added.Ok? && removed.Ok?
    ensures db.Snapshot() == old(db.Snapshot())
  {
    added := AddFollowing(db, currentUserId, userId);
    removed := RemoveFollow(db, currentUserId, userId);
  }

  // ---------------------------------------------------------------------
  // getTopUsers

  /** A user of the ranking, seen through `U` (the whole row, or the row
      without its password). */
  datatype RankedUser<U> = RankedUser(user: U, followerCount: int, isFollowed: bool)

  function UserIds(users: seq<User>): set<int> {
    set u | u in users :: u.id
  }

  function RankOne<U>(view: User -> U, users: seq<User>, followships: set<Pair>, me: UserContext)
    : User -> RankedUser<U>
  {
    (u: User) => RankedUser(view(u), |Followers(followships, UserIds(users), u.id)|, u.id in me.followings)
  }

  /** One stable sort by followerCount, high to low: all other keys are
      equal, so ties keep the order the users were fetched in. */
  function FollowerKey<U>(x: RankedUser<U>): Rank {
    Rank(x.followerCount, 0, 0)
  }

  function RankUsersWith<U(==)>(view: User -> U, users: seq<User>, followships: set<Pair>,
                                me: UserContext): (r: seq<RankedUser<U>>)
    ensures multiset(r) == multiset(Map(RankOne(view, users, followships, me), users))
    ensures SortedBy(r, FollowerKey)
  {
    SortBy(Map(RankOne(view, users, followships, me), users), FollowerKey)
  }

  function Identity(u: User): User { u }

  /** The ranking as written: `...user.toJSON()` copies every column,
      the password hash included. */
  function TopUsersAsWritten(users: seq<User>, followships: set<Pair>, me: UserContext)
    : (r: seq<RankedUser<User>>)
    ensures |r| == |users|
    ensures forall i, j :: 0 <= i < j < |r| ==> r[i].followerCount >= r[j].followerCount
  {
    var r := RankUsersWith(Identity, users, followships, me);
    assert |r| == |multiset(r)| == |Map(RankOne(Identity, users, followships, me), users)|;
    assert forall i, j :: 0 <= i < j < |r| ==> RankLe(FollowerKey(r[i]), FollowerKey(r[j]));
    r
  }

  /** The ranking with the password left out, as every other handler does. */
  function TopUsers(users: seq<User>, followships: set<Pair>, me: UserContext)
    : (r: seq<RankedUser<PublicUser>>)
    ensures |r| == |users|
    ensures forall i, j :: 0 <= i < j < |r| ==> r[i].followerCount >= r[j].followerCount
  {
    var r := RankUsersWith(Public, users, followships, me);
    assert |r| == |multiset(r)| == |Map(RankOne(Public, users, followships, me), users)|;
    assert forall i, j :: 0 <= i < j < |r| ==> RankLe(FollowerKey(r[i]), FollowerKey(r[j]));
    r
  }

  /** Every user's password hash appears in the ranking as written. */
  lemma TopUsersExposesPasswords(users: seq<User>, followships: set<Pair>, me: UserContext)
    ensures forall u :: u in users ==>
      exists x :: x in TopUsersAsWritten(users, followships, me) && x.user.password == u.password
  {
    var f := RankOne(Identity, users, followships, me);
    var top := TopUsersAsWritten(users, followships, me);
    MapMembers(f, users, top);
    forall u | u in users
      ensures exists x :: x in top && x.user.password == u.password
    {
      assert f(u).user == Identity(u);
    }
  }

  function Strip(x: RankedUser<User>): RankedUser<PublicUser> {
    RankedUser(Public(x.user), x.followerCount, x.isFollowed)
  }

  /** The corrected ranking is the ranking as written, in the same order,
      with each password removed. */
  lemma TopUsersIsStrippedAsWritten(users: seq<User>, followships: set<Pair>, me: UserContext)
    ensures TopUsers(users, followships, me) == Map(Strip, TopUsersAsWritten(users, followships, me))
  {
    var withPw := Map(RankOne(Identity, users, followships, me), users);
    var without := Map(RankOne(Public, users, followships, me), users);
    assert forall i :: 0 <= i < |users| ==> Map(Strip, withPw)[i] == without[i];
    assert Map(Strip, withPw) == without;
    SortByMap(Strip, withPw, FollowerKey, FollowerKey);
  }

  /** The ranking lists each fetched user once: one entry per row, each
      the row without its password, its number of followers and whether
      the current user follows it; follower counts never increase along
      the list. */
  lemma TopUsersRanked(users: seq<User>, followships: set<Pair>, me: UserContext)
    ensures var top := TopUsers(users, followships, me);
      && |top| == |users|
      && (forall u :: u in users ==> RankOne(Public, users, followships, me)(u) in top)
      && (forall x :: x in top ==> exists u :: u in users && x == RankOne(Public, users, followships, me)(u))
      && (forall i, j :: 0 <= i < j < |top| ==> top[i].followerCount >= top[j].followerCount)
  {
    var top := TopUsers(users, followships, me);
    MapMembers(RankOne(Public, users, followships, me), users, top);
    forall i, j | 0 <= i < j < |top| ensures top[i].followerCount >= top[j].followerCount {
      assert RankLe(FollowerKey(top[i]), FollowerKey(top[j]));
    }
  }

  /** `followerCount` counts the stored followers; `isFollowed` holds iff
      the current user's Followings contain the user. */
  lemma TopUsersFollowFields(users: seq<User>, followships: set<Pair>, me: UserContext)
    ensures forall x :: x in TopUsers(users, followships, me) ==>
      && x.user.id in UserIds(users)
      && x.followerCount == |Followers(followships, UserIds(users), x.user.id)|
      && (x.isFollowed <==> x.user.id in me.followings)
  {
    var f := RankOne(Public, users, followships, me);
    var top := TopUsers(users, followships, me);
    MapMembers(f, users, top);
    forall x | x in top
      ensures && x.user.id in UserIds(users)
              && x.followerCount == |Followers(followships, UserIds(users), x.user.id)|
              && (x.isFollowed <==> x.user.id in me.followings)
    {
      var u :| u in users && x == f(u);
      assert x.user == Public(u) && u.id in UserIds(users);
    }
  }
}
