/** The sign-in strategies: the local email-and-password check, and the
    reload of the request user by id used by the session and by the JWT
    strategy. */
module Passport {
  import opened Models

  const LoginFailed := "帳號或密碼輸入錯誤！"

  /** `User.findOne({ where: { email } })`: some stored user with that
      email, if any. */
  ghost function FindByEmail(users: map<int, User>, email: string): (r: Option<User>)
    ensures r.None? <==> forall id :: id in users ==> users[id].email != email
    ensures r.Some? ==> r.value.email == email && exists id :: id in users && users[id] == r.value
  {
    if exists id :: id in users && users[id].email == email then
      var id :| id in users && users[id].email == email;
      Some(users[id])
    else
      None
  }

  /** The local strategy's verify callback, with `compare` standing for
      `bcrypt.compare(password, hash)`. An unknown email and a wrong
      password fail with the same message; otherwise the stored user with
      that email signs in. */
  ghost function LocalVerify(users: map<int, User>, email: string, password: string,
                             compare: (string, string) -> bool): (r: Result<User>)
    ensures r.Err? ==> r.error == Thrown(LoginFailed)
    ensures r.Ok? ==> r.value.email == email && compare(password, r.value.password)
                      && exists id :: id in users && users[id] == r.value
  {
    var found := FindByEmail(users, email);
    if found.None? then Err(Thrown(LoginFailed))
    else if !compare(password, found.value.password) then Err(Thrown(LoginFailed))
    else Ok(found.value)
  }

  /** With unique emails, sign-in succeeds exactly for a stored email whose
      password the hash accepts; an unknown email and a wrong password give
      the same failure, so a caller cannot tell which one it was. */
  lemma LocalVerifyDecides(t: Tables, email: string, password: string,
                           compare: (string, string) -> bool)
    requires t.Valid()
    ensures LocalVerify(t.users, email, password, compare).Ok? <==>
      exists id :: id in t.users && t.users[id].email == email && compare(password, t.users[id].password)
    ensures (forall id :: id in t.users ==> t.users[id].email != email) ==>
      LocalVerify(t.users, email, password, compare) == Err(Thrown(LoginFailed))
    ensures (exists id :: id in t.users && t.users[id].email == email && !compare(password, t.users[id].password)) ==>
      LocalVerify(t.users, email, password, compare) == Err(Thrown(LoginFailed))
  {
    var found := FindByEmail(t.users, email);
    if found.Some? {
      var k :| k in t.users && t.users[k] == found.value;
      assert forall id :: id in t.users && t.users[id].email == email ==> id == k;
    }
  }

  /** `serializeUser`: the session keeps only the user's id. */
  function SerializeUser(u: User): (id: int)
    ensures id == u.id
  {
    u.id
  }

  /** The ids of the restaurants a user favourited (or liked): the join
      keeps only rows whose restaurant exists. */
  function JoinedRestaurants(pairs: set<Pair>, restaurants: map<int, Restaurant>, id: int): set<int> {
    set p | p in pairs && p.0 == id && p.1 in restaurants :: p.1
  }

  /** `deserializeUser` and the JWT verify callback: load user `id` with
      its favourites, likes, followers and followings. A missing user makes
      `user.toJSON()` fail, so the lookup reports an error and never a
      user. */
  function ReloadUser(t: Tables, id: int): (r: Result<UserContext>)
    ensures r.Err? <==> id !in t.users
    ensures r.Err? ==> r.error == NullDereference
    ensures r.Ok? ==> r.value.user == t.users[id]
    ensures r.Ok? ==> forall k :: k in r.value.favorited <==> (id, k) in t.favorites && k in t.restaurants
    ensures r.Ok? ==> forall k :: k in r.value.liked <==> (id, k) in t.likes && k in t.restaurants
    ensures r.Ok? ==> forall k :: k in r.value.followers <==> (k, id) in t.followships && k in t.users
    ensures r.Ok? ==> forall k :: k in r.value.followings <==> (id, k) in t.followships && k in t.users
  {
    if id !in t.users then Err(NullDereference)
    else
      Ok(UserContext(t.users[id],
                     JoinedRestaurants(t.favorites, t.restaurants, id),
                     JoinedRestaurants(t.likes, t.restaurants, id),
                     Followers(t.followships, t.users.Keys, id),
                     Followings(t.followships, t.users.Keys, id)))
  }

  /** Storing a stored user's id in the session and loading it back yields
      that same user. */
  lemma SessionRoundTrip(t: Tables, u: User)
    requires t.Valid()
    requires exists id :: id in t.users && t.users[id] == u
    ensures ReloadUser(t, SerializeUser(u)).Ok?
    ensures ReloadUser(t, SerializeUser(u)).value.user == u
  {
    var id :| id in t.users && t.users[id] == u;
    assert u.id == id;
  }

  /** Signing in and then loading the session user gives back the user who
      signed in. */
  lemma LoginThenReload(t: Tables, email: string, password: string, compare: (string, string) -> bool)
    requires t.Valid()
    requires LocalVerify(t.users, email, password, compare).Ok?
    ensures var u := LocalVerify(t.users, email, password, compare).value;
            ReloadUser(t, SerializeUser(u)).Ok? && ReloadUser(t, SerializeUser(u)).value.user == u
  {
    SessionRoundTrip(t, LocalVerify(t.users, email, password, compare).value);
  }
}
