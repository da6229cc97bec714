/** The admin handlers: restaurant create, update and delete, the user
    list, and the admin-flag toggle. */
module AdminServices {
  import opened Models

  const RestaurantNameRequired := "Restaurant name is required!"
  const CategoryRequired := "Category is required!"
  const RootProtected := "禁止變更 root 權限"
  const RootEmail := "root@example.com"

  /** The restaurant form. Text fields are None when not submitted;
      `categoryId` is None when it is missing or empty (falsy). */
  datatype RestaurantForm = RestaurantForm(name: string, tel: Option<string>, address: Option<string>,
                                           openingHours: Option<string>, description: Option<string>,
                                           categoryId: Option<int>)

  /** A column as `Model#update` writes it: a field left out of the body
      is `undefined`, which `update` skips, so the stored value stays. */
  function Updated(submitted: Option<string>, stored: Option<string>): (r: Option<string>)
    ensures submitted.Some? ==> r == submitted
    ensures submitted.None? ==> r == stored
  {
    if submitted.Some? then submitted else stored
  }

  /** Creates a restaurant from the form, with `filePath` what the upload
      handler returned. The name and the category are required and the
      category must exist; nothing changes otherwise. The new row gets the
      next id, no views, and the uploaded image or none. */
  method PostRestaurant(db: Db, form: RestaurantForm, filePath: Option<string>) returns (r: Result<Restaurant>)
    requires db.Valid()
    modifies db
    ensures db.Valid()
    ensures form.name == "" ==>
      r == Err(Thrown(RestaurantNameRequired)) && db.Snapshot() == old(db.Snapshot())
    ensures form.name != "" && form.categoryId.None? ==>
      r == Err(Thrown(CategoryRequired)) && db.Snapshot() == old(db.Snapshot())
    ensures form.name != "" && form.categoryId.Some? && form.categoryId.value !in old(db.categories) ==>
      r == Err(Thrown(CategoryMissing)) && db.Snapshot() == old(db.Snapshot())
    ensures form.name != "" && form.categoryId.Some? && form.categoryId.value in old(db.categories) ==>
      var row := Restaurant(old(db.nextRestaurantId), form.name, form.tel, form.address, form.openingHours,
                            form.description, Upload(filePath), 0, form.categoryId.value);
      && r == Ok(row)
      && db.Snapshot() == old(db.Snapshot()).(restaurants := old(db.restaurants)[row.id := row],
                                              nextRestaurantId := old(db.nextRestaurantId) + 1)
  {
    if form.name == "" {
      return Err(Thrown(RestaurantNameRequired));
    }
    if form.categoryId.None? {
      return Err(Thrown(CategoryRequired));
    }
    if form.categoryId.value !in db.categories {
      return Err(Thrown(CategoryMissing));
    }
    var row := Restaurant(db.nextRestaurantId, form.name, form.tel, form.address, form.openingHours,
                          form.description, Upload(filePath), 0, form.categoryId.value);
    db.restaurants := db.restaurants[row.id := row];
    db.nextRestaurantId := db.nextRestaurantId + 1;
    r := Ok(row);
  }

  /** Updates restaurant `id` from the form: the same required fields, then
      the restaurant and the category must exist. The id and the view count
      are kept, so is every text field the form leaves out, and so is the
      image unless a file was uploaded. */
  method PutRestaurant(db: Db, id: int, form: RestaurantForm, filePath: Option<string>) returns (r: Result<Restaurant>)
    requires db.Valid()
    modifies db
    ensures db.Valid()
    ensures form.name == "" ==>
      r == Err(Thrown(RestaurantNameRequired)) && db.Snapshot() == old(db.Snapshot())
    ensures form.name != "" && form.categoryId.None? ==>
      r == Err(Thrown(CategoryRequired)) && db.Snapshot() == old(db.Snapshot())
    ensures form.name != "" && form.categoryId.Some? && id !in old(db.restaurants) ==>
      r == Err(Thrown(RestaurantMissing)) && db.Snapshot() == old(db.Snapshot())
    ensures form.name != "" && form.categoryId.Some? && id in old(db.restaurants)
            && form.categoryId.value !in old(db.categories) ==>
      r == Err(Thrown(CategoryMissing)) && db.Snapshot() == old(db.Snapshot())
    ensures form.name != "" && form.categoryId.Some? && id in old(db.restaurants)
            && form.categoryId.value in old(db.categories) ==>
      var before := old(db.restaurants[id]);
      var row := Restaurant(id, form.name, Updated(form.tel, before.tel), Updated(form.address, before.address),
                            Updated(form.openingHours, before.openingHours),
                            Updated(form.description, before.description),
                            if Upload(filePath).Some? then filePath else before.image,
                            before.viewCounts, form.categoryId.value);
      && r == Ok(row)
      && db.Snapshot() == old(db.Snapshot()).(restaurants := old(db.restaurants)[id := row])
  {
    if form.name == "" {
      return Err(Thrown(RestaurantNameRequired));
    }
    if form.categoryId.None? {
      return Err(Thrown(CategoryRequired));
    }
    if id !in db.restaurants {
      return Err(Thrown(RestaurantMissing));
    }
    if form.categoryId.value !in db.categories {
      return Err(Thrown(CategoryMissing));
    }
    var before := db.restaurants[id];
    var row := Restaurant(id, form.name, Updated(form.tel, before.tel), Updated(form.address, before.address),
                          Updated(form.openingHours, before.openingHours),
                          Updated(form.description, before.description),
                          if Upload(filePath).Some? then filePath else before.image,
                          before.viewCounts, form.categoryId.value);
    db.restaurants := db.restaurants[id := row];
    r := Ok(row);
  }

  /** Fails on an unknown id; otherwise removes exactly that restaurant and
      returns the removed row. */
  method DeleteRestaurant(db: Db, id: int) returns (r: Result<Restaurant>)
    requires db.Valid()
    modifies db
    ensures db.Valid()
    ensures id !in old(db.restaurants) ==>
      r == Err(Thrown(RestaurantMissing)) && db.Snapshot() == old(db.Snapshot())
    ensures id in old(db.restaurants) ==>
      r == Ok(old(db.restaurants[id]))
      && db.Snapshot() == old(db.Snapshot()).(restaurants := old(db.restaurants) - {id})
  {
    if id !in db.restaurants {
      return Err(Thrown(RestaurantMissing));
    }
    r := Ok(db.restaurants[id]);
    db.restaurants := db.restaurants - {id};
  }

  /** The admin user list: every stored user, none with a password. */
  function GetUsers(db: Db): (r: set<PublicUser>)
    reads db
    ensures forall id :: id in db.users ==> Public(db.users[id]) in r
    ensures forall p :: p in r ==> exists id :: id in db.users && p == Public(db.users[id])
  {
    set id | id in db.users :: Public(db.users[id])
  }

  function PublicOf(users: map<int, User>, keys: set<int>): set<PublicUser>
    requires keys <= users.Keys
  {
    set id | id in keys :: Public(users[id])
  }

  lemma {:induction false} PublicOfCard(users: map<int, User>, keys: set<int>)
    requires keys <= users.Keys
    requires forall id :: id in users ==> users[id].id == id
    ensures |PublicOf(users, keys)| == |keys|
    decreases |keys|
  {
    if keys != {} {
      assert (forall x :: x !in keys) ==> keys == {};
      var k :| k in keys;
      var rest := keys - {k};
      PublicOfCard(users, rest);
      assert Public(users[k]) !in PublicOf(users, rest);
      assert PublicOf(users, keys) == PublicOf(users, rest) + {Public(users[k])};
    }
  }

  /** Under the store's invariant the list holds one entry per user. */
  lemma GetUsersOnePerUser(db: Db)
    requires db.Valid()
    ensures |GetUsers(db)| == |db.users|
  {
    assert GetUsers(db) == PublicOf(db.users, db.users.Keys);
    PublicOfCard(db.users, db.users.Keys);
  }

  /** Toggles the admin flag of user `id`: fails on an unknown user and on
      the root account; otherwise only that flag flips, and the user comes
      back without its password. */
  method PatchUser(db: Db, id: int) returns (r: Result<PublicUser>)
    requires db.Valid()
    modifies db
    ensures db.Valid()
    ensures id !in old(db.users) ==>
      r == Err(Thrown(UserMissing)) && db.Snapshot() == old(db.Snapshot())
    ensures id in old(db.users) && old(db.users[id].email) == RootEmail ==>
      r == Err(Thrown(RootProtected)) && db.Snapshot() == old(db.Snapshot())
    ensures id in old(db.users) && old(db.users[id].email) != RootEmail ==>
      var u := old(db.users[id]).(isAdmin := !old(db.users[id].isAdmin));
      && r == Ok(Public(u))
      && db.Snapshot() == old(db.Snapshot()).(users := old(db.users)[id := u])
  {
    if id !in db.users {
      return Err(Thrown(UserMissing));
    }
    var user := db.users[id];
    if user.email == RootEmail {
      return Err(Thrown(RootProtected));
    }
    var u := user.(isAdmin := !user.isAdmin);
    db.users := db.users[id := u];
    r := Ok(Public(u));
  }

  /** Two toggles of the same user restore the store; the root account's
      flag never changes. */
  method PatchUserTwice(db: Db, id: int) returns (first: Result<PublicUser>, second: Result<PublicUser>)
    requires db.Valid()
    modifies db
    ensures db.Valid()
    ensures db.Snapshot() == old(db.Snapshot())
    ensures first.Ok? <==> second.Ok?
    ensures first.Ok? ==> first.value.isAdmin != second.value.isAdmin
  {
    first := PatchUser(db, id);
    second := PatchUser(db, id);
  }
}
