/** The category handlers. */
module CategoryServices {
  import opened Models

  const CategoryNameRequired := "Category name is required!"
  const CategoryInUse := "This category is in use"

  /** What the category page shows: every category, and the one named in
      the path when there is one. */
  datatype CategoryPage = CategoryPage(categories: set<Category>, category: Option<Category>)

  /** `id` is None when the path carries no id; an unknown id shows no
      category and is not an error. */
  function GetCategories(db: Db, id: Option<int>): (r: CategoryPage)
    reads db
    ensures forall c :: c in r.categories <==> exists k :: k in db.categories && db.categories[k] == c
    ensures id.None? ==> r.category.None?
    ensures r.category.Some? <==> id.Some? && id.value in db.categories
    ensures r.category.Some? ==> r.category.value == db.categories[id.value]
  {
    CategoryPage(set k | k in db.categories :: db.categories[k],
                 if id.Some? && id.value in db.categories then Some(db.categories[id.value]) else None)
  }

  /** Some restaurant belongs to category `id` (`Restaurant.findOne({ where: { categoryId } })`). */
  predicate InUse(restaurants: map<int, Restaurant>, id: int) {
    exists k :: k in restaurants && restaurants[k].categoryId == id
  }

  /** Creates a category; an empty name fails and creates nothing. */
  method PostCategory(db: Db, name: string) returns (r: Result<Category>)
    requires db.Valid()
    modifies db
    ensures db.Valid()
    ensures name == "" ==> r == Err(Thrown(CategoryNameRequired)) && db.Snapshot() == old(db.Snapshot())
    ensures name != "" ==>
      var c := Category(old(db.nextCategoryId), name);
      && r == Ok(c)
      && db.Snapshot() == old(db.Snapshot()).(categories := old(db.categories)[c.id := c],
                                              nextCategoryId := old(db.nextCategoryId) + 1)
  {
    if name == "" {
      return Err(Thrown(CategoryNameRequired));
    }
    var c := Category(db.nextCategoryId, name);
    db.categories := db.categories[c.id := c];
    db.nextCategoryId := db.nextCategoryId + 1;
    r := Ok(c);
  }

  /** Renames category `id`: an empty name fails first, then an unknown
      id; otherwise only that category's name changes. */
  method PutCategory(db: Db, id: int, name: string) returns (r: Result<Category>)
    requires db.Valid()
    modifies db
    ensures db.Valid()
    ensures name == "" ==> r == Err(Thrown(CategoryNameRequired)) && db.Snapshot() == old(db.Snapshot())
    ensures name != "" && id !in old(db.categories) ==>
      r == Err(Thrown(CategoryMissing)) && db.Snapshot() == old(db.Snapshot())
    ensures name != "" && id in old(db.categories) ==>
      r == Ok(Category(id, name))
      && db.Snapshot() == old(db.Snapshot()).(categories := old(db.categories)[id := Category(id, name)])
  {
    if name == "" {
      return Err(Thrown(CategoryNameRequired));
    }
    if id !in db.categories {
      return Err(Thrown(CategoryMissing));
    }
    db.categories := db.categories[id := Category(id, name)];
    r := Ok(Category(id, name));
  }

  /** Deletes category `id`: an unknown id fails, and so does a category
      some restaurant still belongs to; otherwise exactly that category is
      removed. */
  method DeleteCategory(db: Db, id: int) returns (r: Result<Category>)
    requires db.Valid()
    modifies db
    ensures db.Valid()
    ensures id !in old(db.categories) ==>
      r == Err(Thrown(CategoryMissing)) && db.Snapshot() == old(db.Snapshot())
    ensures id in old(db.categories) && InUse(old(db.restaurants), id) ==>
      r == Err(Thrown(CategoryInUse)) && db.Snapshot() == old(db.Snapshot())
    ensures id in old(db.categories) && !InUse(old(db.restaurants), id) ==>
      r == Ok(old(db.categories[id]))
      && db.Snapshot() == old(db.Snapshot()).(categories := old(db.categories) - {id})
  {
    if id !in db.categories {
      return Err(Thrown(CategoryMissing));
    }
    if exists k :: k in db.restaurants && db.restaurants[k].categoryId == id {
      return Err(Thrown(CategoryInUse));
    }
    r := Ok(db.categories[id]);
    db.categories := db.categories - {id};
  }

  /** No deletion can leave a restaurant without its category: after a
      successful delete no restaurant names the deleted id. */
  method DeleteThenCheck(db: Db, id: int) returns (r: Result<Category>)
    requires db.Valid()
    modifies db
    ensures db.Valid()
    ensures r.Ok? ==> id !in db.categories && !InUse(db.restaurants, id)
    ensures r.Err? ==> db.Snapshot() == old(db.Snapshot())
  {
    r := DeleteCategory(db, id);
  }
}
