/** The older restaurant controller. Its ranking and detail view are the
    ones of `RestaurantServices`; its list page reads the description
    without the null guard the service later gained. */
module RestaurantController {
  import opened Models
  import opened Sorting
  import opened RestaurantServices

  /** `r.description.substring(0, 50)`: a TypeError on a null description;
      an empty one stays empty. */
  function ListDescriptionAsWritten(d: Option<string>): (r: Result<string>)
    ensures r.Err? <==> d.None?
    ensures r.Err? ==> r.error == NullDereference
    ensures r.Ok? ==> |r.value| == Min(|d.value|, ListDescriptionLimit)
                      && r.value == d.value[..|r.value|]
  {
    if d.None? then Err(NullDereference)
    else if |d.value| > ListDescriptionLimit then Ok(d.value[..ListDescriptionLimit])
    else Ok(d.value)
  }

  /** On every description both list pages can show, the controller and
      the service agree; they differ only on the empty description, which
      the service turns into null. */
  lemma ListDescriptionsAgree(d: Option<string>)
    ensures d.Some? && d.value != "" ==> ListDescriptionAsWritten(d) == Ok(ListDescription(d).value)
    ensures d == Some("") ==> ListDescriptionAsWritten(d) == Ok("") && ListDescription(d).None?
  {
  }

  function ShapeAsWritten(user: Option<UserContext>, r: Restaurant): Result<ListItem> {
    var d := ListDescriptionAsWritten(r.description);
    if d.Err? then Err(d.error)
    else Ok(ListItem(r, Some(d.value), IsFavorited(user, r.id),
                     user.Some? && r.id in user.value.liked))
  }

  /** The map step of the controller's list page: the first failing row
      makes the whole page fail. */
  function ShapeAllAsWritten(user: Option<UserContext>, rows: seq<Restaurant>): (r: Result<seq<ListItem>>)
    ensures r.Err? <==> exists x :: x in rows && x.description.None?
    ensures r.Err? ==> r.error == NullDereference
    ensures r.Ok? ==> |r.value| == |rows|
  {
    if rows == [] then Ok([])
    else
      var head := ShapeAsWritten(user, rows[0]);
      var tail := ShapeAllAsWritten(user, rows[1..]);
      assert forall x :: x in rows <==> x == rows[0] || x in rows[1..];
      if head.Err? then Err(head.error)
      else if tail.Err? then Err(tail.error)
      else Ok([head.value] + tail.value)
  }

  /** The controller's list page. */
  function GetRestaurantsAsWritten(table: seq<Restaurant>, q: ListQuery, offset: nat,
                                   user: Option<UserContext>): (r: Result<ListPage>)
    ensures r.Err? ==> r.error == NullDereference
    ensures r.Ok? ==> r.value.count == |InCategory(table, q.categoryId)|
                      && |r.value.restaurants| <= (if q.limit < 0 then 0 else q.limit)
  {
    var matching := InCategory(table, q.categoryId);
    var items := ShapeAllAsWritten(user, Window(matching, offset, q.limit));
    if items.Err? then Err(items.error) else Ok(ListPage(items.value, |matching|, q.categoryId))
  }

  lemma {:induction false} ShapeAllAgrees(user: Option<UserContext>, rows: seq<Restaurant>)
    requires forall x :: x in rows ==> x.description.Some? && x.description.value != ""
    ensures ShapeAllAsWritten(user, rows) == Ok(Map(ListShape(user), rows))
  {
    if rows != [] {
      assert rows == [rows[0]] + rows[1..];
      assert rows[0] in rows;
      ListDescriptionsAgree(rows[0].description);
      assert ShapeAsWritten(user, rows[0]) == Ok(ListShape(user)(rows[0]));
      ShapeAllAgrees(user, rows[1..]);
      assert Map(ListShape(user), [rows[0]]) == [ListShape(user)(rows[0])];
      MapAppend(ListShape(user), [rows[0]], rows[1..]);
    }
  }

  /** The controller's page fails exactly when a shown restaurant has no
      description; when every shown description is non-empty it is the
      service's page. */
  lemma ControllerListIsServiceList(table: seq<Restaurant>, q: ListQuery, offset: nat,
                                    user: Option<UserContext>)
    ensures var shown := Window(InCategory(table, q.categoryId), offset, q.limit);
            && (GetRestaurantsAsWritten(table, q, offset, user).Err? <==>
                  exists x :: x in shown && x.description.None?)
            && ((forall x :: x in shown ==> x.description.Some? && x.description.value != "") ==>
                  GetRestaurantsAsWritten(table, q, offset, user) == Ok(GetRestaurants(table, q, offset, user)))
  {
    var matching := InCategory(table, q.categoryId);
    var shown := Window(matching, offset, q.limit);
    var items := ShapeAllAsWritten(user, shown);
    assert GetRestaurantsAsWritten(table, q, offset, user)
        == if items.Err? then Err(items.error) else Ok(ListPage(items.value, |matching|, q.categoryId));
    if forall x :: x in shown ==> x.description.Some? && x.description.value != "" {
      ShapeAllAgrees(user, shown);
      assert GetRestaurants(table, q, offset, user)
          == ListPage(Map(ListShape(user), shown), |matching|, q.categoryId);
    }
  }

  /** A page of one restaurant without a description: the controller
      fails, the service shows it with a null description. */
  lemma NullDescriptionBreaksControllerList()
    ensures var r := Restaurant(1, "Cafe", None, None, None, None, None, 0, 1);
            var q := ParseListQuery(None, None, None);
            && GetRestaurantsAsWritten([r], q, 0, None) == Err(NullDereference)
            && GetRestaurants([r], q, 0, None).restaurants == [ListItem(r, None, false, false)]
  {
    var r := Restaurant(1, "Cafe", None, None, None, None, None, 0, 1);
    var q := ParseListQuery(None, None, None);
    assert InCategory([r], q.categoryId) == [r];
    assert Window([r], 0, q.limit) == [r];
    assert r in Window([r], 0, q.limit);
  }
}
