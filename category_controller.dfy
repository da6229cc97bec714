/** The older category controller. Its create and rename handlers are
    those of `CategoryServices`; its delete counts the referencing
    restaurants instead of looking one up. */
module CategoryController {
  import opened Models
  import opened CategoryServices

  /** `Restaurant.count({ where: { categoryId } })` */
  function ReferenceCount(restaurants: map<int, Restaurant>, id: int): (n: nat)
  {
    |set k | k in restaurants && restaurants[k].categoryId == id|
  }

  /** The count-based guard and the lookup-based guard agree. */
  lemma CountGuardIsInUse(restaurants: map<int, Restaurant>, id: int)
    ensures ReferenceCount(restaurants, id) > 0 <==> InUse(restaurants, id)
  {
    var refs := set k | k in restaurants && restaurants[k].categoryId == id;
    if InUse(restaurants, id) {
      var k :| k in restaurants && restaurants[k].categoryId == id;
      assert k in refs;
    } else {
      assert forall k :: k !in refs;
      assert refs == {};
    }
  }

  /** The controller's delete: the same outcomes as the service's. */
  method DeleteCategory(db: Db, id: int) returns (r: Result<Category>)
    requires db.Valid()
    modifies db
    ensures db.Valid()
    ensures id !in old(db.categories) ==>
      r == Err(Thrown(CategoryMissing)) && db.Snapshot() == old(db.Snapshot())
    ensures id in old(db.categories) && InUse(old(db.restaurants), id) ==>
      r == Err(Thrown(CategoryInUse)) && db.Snapshot() == old(db.Snapshot())
    ensures id in old(db.categories) && !InUse(old(db.restaurants), id) ==>
      r == Ok(old(db.categories[id]))
      && db.Snapshot() == old(db.Snapshot()).(categories := old(db.categories) - {id})
  {
    var count := ReferenceCount(db.restaurants, id);
    if id !in db.categories {
      return Err(Thrown(CategoryMissing));
    }
    CountGuardIsInUse(db.restaurants, id);
    if count > 0 {
      return Err(Thrown(CategoryInUse));
    }
    r := Ok(db.categories[id]);
    db.categories := db.categories - {id};
  }
}
