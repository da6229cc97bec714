/** The restaurant pages: the top-10 ranking, the paged list, the detail
    view (which counts one more view) and the dashboard. */
module RestaurantServices {
  import opened Models
  import opened Sorting

  const TopLimit := 10
  const TopDescriptionLimit := 100
  const ListDescriptionLimit := 50
  const DefaultLimit := 9
  const DefaultPage := 1

  function Min(a: int, b: int): int { if a < b then a else b }

  // ---------------------------------------------------------------------
  // getTopRestaurants

  /** One element of `favorites.count` as Favorite.findAndCountAll grouped
      by restaurantId returns it. */
  datatype FavoriteGroup = FavoriteGroup(restaurantId: int, count: int)

  /** A ranked restaurant: the row as fetched, with its description
      replaced by the shortened one, `isFavorited` and `favoritedCount`. */
  datatype TopItem = TopItem(row: Restaurant, description: Option<string>,
                             isFavorited: bool, favoritedCount: int)

  /** The Restaurant table holds one row per primary key. */
  ghost predicate DistinctIds(table: seq<Restaurant>) {
    forall i, j :: 0 <= i < |table| && 0 <= j < |table| && table[i].id == table[j].id ==> i == j
  }

  /** `favoritedIds` */
  function GroupIds(groups: seq<FavoriteGroup>): set<int> {
    set g | g in groups :: g.restaurantId
  }

  /** The users who have the restaurant `id` among their favorites. */
  function Favoriters(favorites: set<Pair>, id: int): set<int> {
    set p | p in favorites && p.1 == id :: p.0
  }

  /** `groups` is what grouping the Favorite table by restaurantId and
      counting its rows yields, in some order. */
  ghost predicate GroupsOf(groups: seq<FavoriteGroup>, favorites: set<Pair>) {
    && (forall i, j :: 0 <= i < j < |groups| ==> groups[i].restaurantId != groups[j].restaurantId)
    && (forall g :: g in groups ==> Favoriters(favorites, g.restaurantId) != {})
    && (forall g :: g in groups ==> g.count == |Favoriters(favorites, g.restaurantId)|)
    && (forall p :: p in favorites ==> p.1 in GroupIds(groups))
  }

  /** A COUNT over a GROUP BY is never 0. */
  ghost predicate PositiveCounts(groups: seq<FavoriteGroup>) {
    forall g :: g in groups ==> g.count >= 1
  }

  /** `favorites.find(f => f.restaurantId === id)`: the count of the first
      group of that restaurant, or 0 when there is none. */
  function FavoritedCount(groups: seq<FavoriteGroup>, id: int): (n: int)
    ensures id !in GroupIds(groups) ==> n == 0
    ensures id in GroupIds(groups) ==>
      exists i :: 0 <= i < |groups| && groups[i].restaurantId == id && groups[i].count == n
                  && forall k :: 0 <= k < i ==> groups[k].restaurantId != id
  {
    if groups == [] then 0
    else if groups[0].restaurantId == id then groups[0].count
    else
      var n := FavoritedCount(groups[1..], id);
      assert id in GroupIds(groups) ==> id in GroupIds(groups[1..]) by {
        if id in GroupIds(groups) {
          var g :| g in groups && g.restaurantId == id;
          assert g != groups[0];
          assert g in groups[1..];
        }
      }
      assert id in GroupIds(groups[1..]) ==> id in GroupIds(groups) by {
        if id in GroupIds(groups[1..]) {
          var g :| g in groups[1..] && g.restaurantId == id;
          assert g in groups;
        }
      }
      assert id in GroupIds(groups[1..]) ==>
        exists i :: 0 <= i < |groups| && groups[i].restaurantId == id && groups[i].count == n
                    && forall k :: 0 <= k < i ==> groups[k].restaurantId != id by {
        if id in GroupIds(groups[1..]) {
          var i :| 0 <= i < |groups[1..]| && groups[1..][i].restaurantId == id && groups[1..][i].count == n
                   && forall k :: 0 <= k < i ==> groups[1..][k].restaurantId != id;
          assert groups[i + 1] == groups[1..][i];
          assert forall k :: 1 <= k < i + 1 ==> groups[k] == groups[1..][k - 1];
        }
      }
      n
  }

  /** With groups computed from the Favorite table, a restaurant's
      `favoritedCount` is the number of users who favourited it. */
  lemma FavoritedCountCountsFavoriters(groups: seq<FavoriteGroup>, favorites: set<Pair>, id: int)
    requires GroupsOf(groups, favorites)
    ensures FavoritedCount(groups, id) == |Favoriters(favorites, id)|
    ensures FavoritedCount(groups, id) >= 1 <==> id in GroupIds(groups)
  {
    if id !in GroupIds(groups) {
      assert Favoriters(favorites, id) == {} by {
        forall p | p in favorites ensures p.1 != id {
          assert p.1 in GroupIds(groups);
        }
      }
    } else {
      var g :| g in groups && g.restaurantId == id;
      assert Favoriters(favorites, id) != {};
    }
  }

  lemma GroupsOfArePositive(groups: seq<FavoriteGroup>, favorites: set<Pair>)
    requires GroupsOf(groups, favorites)
    ensures PositiveCounts(groups)
  {
    forall g | g in groups ensures g.count >= 1 {
      assert Favoriters(favorites, g.restaurantId) != {};
    }
  }

  /** The rows of `table`, in table order, whose id is in `ids` (keep) or
      not in `ids` (!keep): `findAll({ where: { id: { [Op.in] / [Op.notIn]: ids } } })`. */
  function Select(table: seq<Restaurant>, ids: set<int>, keep: bool): (r: seq<Restaurant>)
    ensures forall x :: multiset(r)[x] == if (x.id in ids) == keep then multiset(table)[x] else 0
    ensures forall x :: x in r <==> x in table && (x.id in ids) == keep
  {
    if table == [] then []
    else
      assert table == [table[0]] + table[1..];
      (if (table[0].id in ids) == keep then [table[0]] else []) + Select(table[1..], ids, keep)
  }

  /** The backfill order: viewCounts high to low, then id low to high. */
  function ViewRank(r: Restaurant): Rank {
    Rank(r.viewCounts, 0, r.id)
  }

  /** The restaurants fetched for the ranking: the favourited ones and,
      when fewer than 10 restaurants are favourited, up to 10 - n of the
      others (`rests2`). */
  function Merged(table: seq<Restaurant>, groups: seq<FavoriteGroup>): (r: seq<Restaurant>)
    ensures Select(table, GroupIds(groups), true) <= r
    ensures |groups| >= TopLimit ==> r == Select(table, GroupIds(groups), true)
    ensures |groups| < TopLimit ==> |r| <= |Select(table, GroupIds(groups), true)| + TopLimit - |groups|
  {
    var ids := GroupIds(groups);
    if |groups| < TopLimit then
      Select(table, ids, true) + TakeTop(Select(table, ids, false), TopLimit - |groups|, ViewRank)
    else
      Select(table, ids, true)
  }

  /** `description` of a ranked restaurant. */
  function ShortenTop(d: string): (r: string)
    ensures |d| <= TopDescriptionLimit ==> r == d
    ensures |d| > TopDescriptionLimit ==> r == d[..TopDescriptionLimit] + "..."
    ensures |r| <= TopDescriptionLimit + 3
  {
    if |d| > TopDescriptionLimit then d[..TopDescriptionLimit] + "..." else d
  }

  /** `req.user && req.user.FavoritedRestaurants.some(fr => fr.id === id)` */
  function IsFavorited(user: Option<UserContext>, id: int): bool {
    user.Some? && id in user.value.favorited
  }

  /** The map step of the ranking; a missing description stays missing. */
  function Shape(groups: seq<FavoriteGroup>, user: Option<UserContext>, r: Restaurant): (x: TopItem)
    ensures x.row == r
    ensures x.description.None? <==> r.description.None?
    ensures x.description.Some? ==> |x.description.value| <= TopDescriptionLimit + 3
    ensures x.isFavorited <==> user.Some? && r.id in user.value.favorited
    ensures x.favoritedCount == FavoritedCount(groups, r.id)
  {
    TopItem(r, if r.description.Some? then Some(ShortenTop(r.description.value)) else None,
            IsFavorited(user, r.id), FavoritedCount(groups, r.id))
  }

  function ShapeWith(groups: seq<FavoriteGroup>, user: Option<UserContext>): Restaurant -> TopItem {
    (r: Restaurant) => Shape(groups, user, r)
  }

  /** The final order: favoritedCount high to low, then viewCounts high to
      low, then id low to high. */
  function TopRank(x: TopItem): Rank {
    Rank(x.favoritedCount, x.row.viewCounts, x.row.id)
  }

  /** The ranking the page shows, for a table snapshot, the favourite
      groups and the logged-in user, if any. */
  function TopRestaurants(table: seq<Restaurant>, groups: seq<FavoriteGroup>,
                          user: Option<UserContext>): (r: seq<TopItem>)
    ensures multiset(r) == multiset(Map(ShapeWith(groups, user), Merged(table, groups)))
    ensures SortedBy(r, TopRank)
  {
    SortBy(Map(ShapeWith(groups, user), Merged(table, groups)), TopRank)
  }

  /** The ranking as the source computes it: `r.description.length` fails
      with a TypeError as soon as one fetched restaurant has no description. */
  function TopRestaurantsAsWritten(table: seq<Restaurant>, groups: seq<FavoriteGroup>,
                                   user: Option<UserContext>): (r: Result<seq<TopItem>>)
    ensures r.Err? <==> exists x :: x in Merged(table, groups) && x.description.None?
    ensures r.Err? ==> r.error == NullDereference
    ensures r.Ok? ==> r.value == TopRestaurants(table, groups, user)
  {
    if exists x :: x in Merged(table, groups) && x.description.None? then Err(NullDereference)
    else Ok(TopRestaurants(table, groups, user))
  }

  /** A restaurant without a description, nobody's favourite: the ranking
      as written fails, the corrected ranking lists it. */
  lemma NullDescriptionBreaksRanking()
    ensures var r := Restaurant(1, "Cafe", None, None, None, None, None, 0, 1);
            && TopRestaurantsAsWritten([r], [], None) == Err(NullDereference)
            && TopRestaurants([r], [], None) == [TopItem(r, None, false, 0)]
  {
    var r := Restaurant(1, "Cafe", None, None, None, None, None, 0, 1);
    assert Select([r], {}, true) == [];
    assert Select([r], {}, false) == [r];
    SortOne(r, ViewRank);
    assert TakeTop([r], TopLimit, ViewRank) == [r];
    assert Merged([r], []) == [r];
    assert r in Merged([r], []);
    var item := TopItem(r, None, false, 0);
    assert Map(ShapeWith([], None), [r]) == [item];
    SortOne(item, TopRank);
  }

  // --- what the fetched list contains

  /** Every fetched row is a row of the table. */
  lemma MergedInTable(table: seq<Restaurant>, groups: seq<FavoriteGroup>)
    ensures forall x :: x in Merged(table, groups) ==> x in table
  {
    var ids := GroupIds(groups);
    if |groups| < TopLimit {
      var rest := Select(table, ids, false);
      var top := TakeTop(rest, TopLimit - |groups|, ViewRank);
      forall x | x in top ensures x in table {
        assert x in multiset(top);
        assert x in multiset(rest);
      }
    }
  }

  /** Every favourited restaurant of the table is fetched, once per table row. */
  lemma FavouritedAllFetched(table: seq<Restaurant>, groups: seq<FavoriteGroup>)
    ensures var ids := GroupIds(groups);
            Merged(table, groups)[..|Select(table, ids, true)|] == Select(table, ids, true)
    ensures forall x :: x in table && x.id in GroupIds(groups) ==> x in Merged(table, groups)
  {
  }

  /** When fewer than 10 restaurants are favourited, what follows them is a
      backfill of at most 10 - n of the others, chosen by viewCounts high to
      low and then id low to high. */
  lemma BackfillChosenByViews(table: seq<Restaurant>, groups: seq<FavoriteGroup>)
    requires |groups| < TopLimit
    ensures var ids := GroupIds(groups);
            var favourited := Select(table, ids, true);
            var others := Select(table, ids, false);
            var backfill := Merged(table, groups)[|favourited|..];
            && Merged(table, groups) == favourited + backfill
            && |backfill| == Min(TopLimit - |groups|, |others|)
            && (forall x :: x in backfill ==> x in table && x.id !in ids)
            && SortedBy(backfill, ViewRank)
            && (forall x, y :: x in backfill && y in table && y.id !in ids && y !in backfill
                  ==> RankLe(ViewRank(x), ViewRank(y)))
  {
    var ids := GroupIds(groups);
    var favourited := Select(table, ids, true);
    var others := Select(table, ids, false);
    var backfill := TakeTop(others, TopLimit - |groups|, ViewRank);
    assert Merged(table, groups)[|favourited|..] == backfill;
    forall x | x in backfill ensures x in others {
      assert x in multiset(backfill);
    }
  }

  /** With 10 or more favourited restaurants, exactly the favourited ones
      are fetched; the list is not cut to 10. */
  lemma NoBackfillWhenTenFavourited(table: seq<Restaurant>, groups: seq<FavoriteGroup>)
    requires |groups| >= TopLimit
    ensures forall x :: x in Merged(table, groups) <==> x in table && x.id in GroupIds(groups)
    ensures Merged(table, groups) == Select(table, GroupIds(groups), true)
  {
  }

  // --- what each ranked item says

  /** Each ranked item is one fetched row, shaped: its description
      shortened, `favoritedCount` the count of its group (or 0), and
      `isFavorited` true exactly when a user is logged in and has it among
      their favorites. */
  lemma ItemsAreShapedRows(table: seq<Restaurant>, groups: seq<FavoriteGroup>,
                           user: Option<UserContext>)
    ensures forall x :: x in TopRestaurants(table, groups, user) ==>
      && x.row in Merged(table, groups)
      && x.favoritedCount == FavoritedCount(groups, x.row.id)
      && (x.isFavorited <==> user.Some? && x.row.id in user.value.favorited)
      && (x.row.description.None? ==> x.description.None?)
      && (x.row.description.Some? ==> x.description == Some(ShortenTop(x.row.description.value)))
  {
    var merged := Merged(table, groups);
    var items := Map(ShapeWith(groups, user), merged);
    forall x | x in TopRestaurants(table, groups, user)
      ensures x.row in merged && x == Shape(groups, user, x.row)
    {
      assert x in multiset(items);
      var i :| 0 <= i < |items| && items[i] == x;
      assert x == Shape(groups, user, merged[i]);
    }
  }

  /** Every favourited restaurant is ranked ahead of every backfilled one. */
  lemma FavouritedRankFirst(table: seq<Restaurant>, groups: seq<FavoriteGroup>,
                            user: Option<UserContext>)
    requires PositiveCounts(groups)
    ensures var out := TopRestaurants(table, groups, user);
            forall i, j :: 0 <= i < |out| && 0 <= j < |out|
                           && out[i].row.id in GroupIds(groups) && out[j].row.id !in GroupIds(groups)
                           ==> i < j
  {
    var out := TopRestaurants(table, groups, user);
    RankedCounts(table, groups, user);
    forall i, j | 0 <= i < |out| && 0 <= j < |out|
                  && out[i].row.id in GroupIds(groups) && out[j].row.id !in GroupIds(groups)
      ensures i < j
    {
      FavouritedCountPositive(groups, out[i].row.id);
      PrimaryFirst(out, TopRank, i, j);
    }
  }

  /** Each ranked item's `favoritedCount` is its group's count. */
  lemma RankedCounts(table: seq<Restaurant>, groups: seq<FavoriteGroup>, user: Option<UserContext>)
    ensures var out := TopRestaurants(table, groups, user);
            forall i :: 0 <= i < |out| ==> out[i].favoritedCount == FavoritedCount(groups, out[i].row.id)
  {
    var out := TopRestaurants(table, groups, user);
    var items := Map(ShapeWith(groups, user), Merged(table, groups));
    forall i | 0 <= i < |out|
      ensures out[i].favoritedCount == FavoritedCount(groups, out[i].row.id)
    {
      assert out[i] in multiset(items);
      var k :| 0 <= k < |items| && items[k] == out[i];
    }
  }

  /** With positive group counts, a favourited restaurant's count is at
      least 1. */
  lemma FavouritedCountPositive(groups: seq<FavoriteGroup>, id: int)
    requires PositiveCounts(groups) && id in GroupIds(groups)
    ensures FavoritedCount(groups, id) >= 1
  {
    var k :| 0 <= k < |groups| && groups[k].restaurantId == id && groups[k].count == FavoritedCount(groups, id);
    assert groups[k] in groups;
  }

  // --- the order is fully determined

  lemma DistinctRows(table: seq<Restaurant>)
    requires DistinctIds(table)
    ensures forall x, y :: x in table && y in table && x.id == y.id ==> x == y
  {
    forall x, y | x in table && y in table && x.id == y.id ensures x == y {
      var i :| 0 <= i < |table| && table[i] == x;
      var j :| 0 <= j < |table| && table[j] == y;
    }
  }

  lemma RankedItemsInjective(table: seq<Restaurant>, groups: seq<FavoriteGroup>,
                             user: Option<UserContext>)
    requires DistinctIds(table)
    ensures KeyInjective(Map(ShapeWith(groups, user), Merged(table, groups)), TopRank)
  {
    var merged := Merged(table, groups);
    var items := Map(ShapeWith(groups, user), merged);
    DistinctRows(table);
    MergedInTable(table, groups);
    forall x, y | x in items && y in items && TopRank(x) == TopRank(y) ensures x == y {
      var i :| 0 <= i < |items| && items[i] == x;
      var j :| 0 <= j < |items| && items[j] == y;
      assert merged[i] in merged && merged[j] in merged;
      assert merged[i] == merged[j];
    }
  }

  /** Any arrangement of the shaped rows that respects the three-key order
      (such as the three chained stable sorts of the source) is exactly the
      modelled ranking: with distinct ids no two rows tie. */
  lemma AnyThreeKeyOrderIsTheRanking(table: seq<Restaurant>, groups: seq<FavoriteGroup>,
                                     user: Option<UserContext>, out: seq<TopItem>)
    requires DistinctIds(table)
    requires multiset(out) == multiset(Map(ShapeWith(groups, user), Merged(table, groups)))
    requires SortedBy(out, TopRank)
    ensures out == TopRestaurants(table, groups, user)
  {
    var items := Map(ShapeWith(groups, user), Merged(table, groups));
    var top := TopRestaurants(table, groups, user);
    RankedItemsInjective(table, groups, user);
    KeyInjectivePermutation(items, top, TopRank);
    SortedUnique(top, out, TopRank);
  }

  lemma SelectPermutation(t1: seq<Restaurant>, t2: seq<Restaurant>, ids: set<int>, keep: bool)
    requires multiset(t1) == multiset(t2)
    ensures multiset(Select(t1, ids, keep)) == multiset(Select(t2, ids, keep))
  {
    var s1, s2 := Select(t1, ids, keep), Select(t2, ids, keep);
    assert forall x :: multiset(s1)[x] == multiset(s2)[x];
  }

  lemma MergedPermutation(t1: seq<Restaurant>, t2: seq<Restaurant>, groups: seq<FavoriteGroup>)
    requires DistinctIds(t1)
    requires multiset(t1) == multiset(t2)
    ensures multiset(Merged(t1, groups)) == multiset(Merged(t2, groups))
  {
    var ids := GroupIds(groups);
    SelectPermutation(t1, t2, ids, true);
    if |groups| < TopLimit {
      var rest1, rest2 := Select(t1, ids, false), Select(t2, ids, false);
      SelectPermutation(t1, t2, ids, false);
      DistinctRows(t1);
      assert KeyInjective(rest1, ViewRank);
      TakeTopPermutation(rest1, rest2, TopLimit - |groups|, ViewRank);
    }
  }

  /** The ranking does not depend on the order in which the store returns
      the rows: calling it on any arrangement of the table gives the same
      list. */
  lemma RankingIgnoresFetchOrder(t1: seq<Restaurant>, t2: seq<Restaurant>,
                                 groups: seq<FavoriteGroup>, user: Option<UserContext>)
    requires DistinctIds(t1)
    requires multiset(t1) == multiset(t2)
    ensures TopRestaurants(t1, groups, user) == TopRestaurants(t2, groups, user)
  {
    var m1, m2 := Merged(t1, groups), Merged(t2, groups);
    MergedPermutation(t1, t2, groups);
    MapPermutation(ShapeWith(groups, user), m1, m2);
    AnyThreeKeyOrderIsTheRanking(t1, groups, user, TopRestaurants(t2, groups, user));
  }

  // ---------------------------------------------------------------------
  // getRestaurants

  /** The list's query after `Number(x) || default`; `categoryId` is None
      where the source holds ''. */
  datatype ListQuery = ListQuery(categoryId: Option<int>, page: int, limit: int)

  /** Reads the query. Each argument is `Number(req.query.x)`, with None for
      NaN (an absent or non-numeric value); 0 and NaN are falsy. */
  function ParseListQuery(categoryId: Option<int>, page: Option<int>, limit: Option<int>): (q: ListQuery)
    ensures q.page != 0 && q.limit != 0
    ensures q.limit == DefaultLimit <==> limit.None? || limit.value == 0 || limit.value == DefaultLimit
    ensures limit.Some? && limit.value != 0 ==> q.limit == limit.value
    ensures q.page == DefaultPage <==> page.None? || page.value == 0 || page.value == DefaultPage
    ensures page.Some? && page.value != 0 ==> q.page == page.value
    ensures q.categoryId.Some? <==> categoryId.Some? && categoryId.value != 0
    ensures q.categoryId.Some? ==> q.categoryId == categoryId
  {
    ListQuery(if categoryId.Some? && categoryId.value != 0 then categoryId else None,
              if page.Some? && page.value != 0 then page.value else DefaultPage,
              if limit.Some? && limit.value != 0 then limit.value else DefaultLimit)
  }

  /** The `where` clause: the category filter applies only to a category id
      that survived `Number(…) || ''`. */
  function InCategory(table: seq<Restaurant>, categoryId: Option<int>): (rows: seq<Restaurant>)
    ensures categoryId.None? ==> rows == table
    ensures categoryId.Some? ==> forall x :: x in rows <==> x in table && x.categoryId == categoryId.value
    ensures forall x :: multiset(rows)[x] == (if categoryId.None? || x.categoryId == categoryId.value
                                              then multiset(table)[x] else 0)
    ensures |rows| <= |table|
  {
    if table == [] then []
    else
      assert table == [table[0]] + table[1..];
      assert multiset(table) == multiset{table[0]} + multiset(table[1..]);
      if categoryId.Some? && table[0].categoryId != categoryId.value then
        InCategory(table[1..], categoryId)
      else
        var rest := InCategory(table[1..], categoryId);
        assert multiset([table[0]] + rest) == multiset{table[0]} + multiset(rest);
        [table[0]] + rest
  }

  /** `r.description ? r.description.substring(0, 50) : null`; the empty
      string is falsy and becomes null too. */
  function ListDescription(d: Option<string>): (r: Option<string>)
    ensures r.None? <==> d.None? || d.value == ""
    ensures r.Some? ==> |r.value| == Min(|d.value|, ListDescriptionLimit)
                        && r.value == d.value[..|r.value|]
  {
    if d.None? || d.value == "" then None
    else if |d.value| > ListDescriptionLimit then Some(d.value[..ListDescriptionLimit])
    else Some(d.value)
  }

  datatype ListItem = ListItem(row: Restaurant, description: Option<string>,
                               isFavorited: bool, isLiked: bool)

  /** The map step of the list page. */
  function ListShape(user: Option<UserContext>): Restaurant -> ListItem {
    (r: Restaurant) => ListItem(r, ListDescription(r.description), IsFavorited(user, r.id),
                  user.Some? && r.id in user.value.liked)
  }

  /** `LIMIT limit OFFSET offset`; a negative limit selects nothing. */
  function Window<T>(s: seq<T>, offset: nat, limit: int): (r: seq<T>)
    ensures |r| <= if limit < 0 then 0 else limit
    ensures offset <= |s| && limit >= 0 ==> |r| == Min(limit, |s| - offset)
    ensures forall i :: 0 <= i < |r| ==> offset + i < |s| && r[i] == s[offset + i]
  {
    if offset >= |s| || limit <= 0 then []
    else s[offset..offset + Min(limit, |s| - offset)]
  }

  /** What the list page hands to the view. */
  datatype ListPage = ListPage(restaurants: seq<ListItem>, count: nat, categoryId: Option<int>)

  /** The list page for a query already read by `ParseListQuery`; the offset
      comes from the pagination helper, which is not part of this model. */
  function GetRestaurants(table: seq<Restaurant>, q: ListQuery, offset: nat,
                          user: Option<UserContext>): (page: ListPage)
    ensures page.count <= |table| && page.categoryId == q.categoryId
    ensures q.categoryId.None? ==> page.count == |table|
    ensures |page.restaurants| <= if q.limit < 0 then 0 else q.limit
  {
    var matching := InCategory(table, q.categoryId);
    ListPage(Map(ListShape(user), Window(matching, offset, q.limit)), |matching|, q.categoryId)
  }

  /** The page shows the matching rows from `offset` on, at most `limit`
      of them and as many as there are up to that bound, each a row of the
      selected category, with its description cut to at most 50 characters
      (or null), and the favourite and like flags of the logged-in user;
      `count` is the number of matching rows, whatever the window. */
  lemma ListPageShape(table: seq<Restaurant>, q: ListQuery, offset: nat, user: Option<UserContext>)
    ensures var page := GetRestaurants(table, q, offset, user);
            var matching := InCategory(table, q.categoryId);
      && page.count == |matching|
      && |page.restaurants| <= (if q.limit < 0 then 0 else q.limit)
      && (offset <= |matching| && q.limit >= 0 ==> |page.restaurants| == Min(q.limit, |matching| - offset))
      && (forall i :: 0 <= i < |page.restaurants| ==>
            offset + i < |matching| && page.restaurants[i].row == matching[offset + i])
      && forall x :: x in page.restaurants ==>
           && x.row in table
           && (q.categoryId.Some? ==> x.row.categoryId == q.categoryId.value)
           && x.description == ListDescription(x.row.description)
           && (x.isFavorited <==> user.Some? && x.row.id in user.value.favorited)
           && (x.isLiked <==> user.Some? && x.row.id in user.value.liked)
  {
    ListPageWindow(table, q, offset, user);
    ListPageItems(table, q, offset, user);
  }

  /** Which rows the page shows: the window of the matching rows. */
  lemma ListPageWindow(table: seq<Restaurant>, q: ListQuery, offset: nat, user: Option<UserContext>)
    ensures var page := GetRestaurants(table, q, offset, user);
            var matching := InCategory(table, q.categoryId);
      && page.count == |matching|
      && |page.restaurants| <= (if q.limit < 0 then 0 else q.limit)
      && (offset <= |matching| && q.limit >= 0 ==> |page.restaurants| == Min(q.limit, |matching| - offset))
      && (forall i :: 0 <= i < |page.restaurants| ==>
            offset + i < |matching| && page.restaurants[i].row == matching[offset + i])
  {
    var matching := InCategory(table, q.categoryId);
    var page := GetRestaurants(table, q, offset, user);
    assert page.restaurants == Map(ListShape(user), Window(matching, offset, q.limit));
    assert page.count == |matching|;
    ShapedWindow(matching, offset, q.limit, user);
  }

  /** The shaped window of any row sequence: its length, and the row behind
      each item. */
  lemma ShapedWindow(rows: seq<Restaurant>, offset: nat, limit: int, user: Option<UserContext>)
    ensures var items := Map(ListShape(user), Window(rows, offset, limit));
      && |items| <= (if limit < 0 then 0 else limit)
      && (offset <= |rows| && limit >= 0 ==> |items| == Min(limit, |rows| - offset))
      && (forall i :: 0 <= i < |items| ==> offset + i < |rows| && items[i].row == rows[offset + i])
  {
    var w := Window(rows, offset, limit);
    var items := Map(ListShape(user), w);
    forall i | 0 <= i < |items|
      ensures offset + i < |rows| && items[i].row == rows[offset + i]
    {
      assert items[i] == ListShape(user)(w[i]);
    }
  }

  /** How each shown row is shaped. */
  lemma ListPageItems(table: seq<Restaurant>, q: ListQuery, offset: nat, user: Option<UserContext>)
    ensures var page := GetRestaurants(table, q, offset, user);
      forall x :: x in page.restaurants ==>
           && x.row in table
           && (q.categoryId.Some? ==> x.row.categoryId == q.categoryId.value)
           && x.description == ListDescription(x.row.description)
           && (x.isFavorited <==> user.Some? && x.row.id in user.value.favorited)
           && (x.isLiked <==> user.Some? && x.row.id in user.value.liked)
  {
    var matching := InCategory(table, q.categoryId);
    var w := Window(matching, offset, q.limit);
    var page := GetRestaurants(table, q, offset, user);
    forall x | x in page.restaurants
      ensures x.row in matching && x == ListShape(user)(x.row)
    {
      var i :| 0 <= i < |page.restaurants| && page.restaurants[i] == x;
      assert w[i] == matching[offset + i];
    }
  }

  // ---------------------------------------------------------------------
  // getRestaurant and getDashboard

  datatype Detail = Detail(restaurant: Restaurant, isFavorited: bool, isLiked: bool)

  /** The detail view: fails on an unknown id and changes nothing;
      otherwise that restaurant's viewCounts rises by exactly one and
      nothing else changes. The returned row is the one fetched before the
      increment. Without a logged-in user the flags read a property of
      undefined, after the increment. */
  method GetRestaurant(db: Db, me: Option<UserContext>, id: int) returns (r: Result<Detail>)
    requires db.Valid()
    modifies db
    ensures db.Valid()
    ensures id !in old(db.restaurants) ==>
      r == Err(Thrown(RestaurantMissing)) && db.Snapshot() == old(db.Snapshot())
    ensures id in old(db.restaurants) ==>
      db.Snapshot() == old(db.Snapshot()).(restaurants := old(db.restaurants)[id :=
        old(db.restaurants[id]).(viewCounts := old(db.restaurants[id].viewCounts) + 1)])
    ensures id in old(db.restaurants) && me.Some? ==>
      r == Ok(Detail(old(db.restaurants[id]), id in me.value.favorited, id in me.value.liked))
    ensures id in old(db.restaurants) && me.None? ==> r == Err(NullDereference)
  {
    if id !in db.restaurants {
      return Err(Thrown(RestaurantMissing));
    }
    var row := db.restaurants[id];
    db.restaurants := db.restaurants[id := row.(viewCounts := row.viewCounts + 1)];
    if me.None? {
      return Err(NullDereference);
    }
    r := Ok(Detail(row, id in me.value.favorited, id in me.value.liked));
  }

  datatype Dashboard = Dashboard(restaurant: Restaurant, commentCounts: nat, favoriteCounts: nat)

  /** The dashboard: the restaurant with the number of comments on it and
      the number of users who favourited it. */
  function GetDashboard(db: Db, id: int): (r: Result<Dashboard>)
    reads db
    ensures r.Err? <==> id !in db.restaurants
    ensures r.Err? ==> r.error == Thrown(RestaurantMissing)
    ensures r.Ok? ==> r.value.restaurant == db.restaurants[id]
    ensures r.Ok? ==> r.value.favoriteCounts == |Favoriters(db.favorites, id)|
    ensures r.Ok? ==> r.value.commentCounts == |set c | c in db.comments && db.comments[c].restaurantId == id|
  {
    if id !in db.restaurants then Err(Thrown(RestaurantMissing))
    else Ok(Dashboard(db.restaurants[id],
                      |set c | c in db.comments && db.comments[c].restaurantId == id|,
                      |Favoriters(db.favorites, id)|))
  }

  /** The dashboard's favourite count is the `favoritedCount` the ranking
      gives the same restaurant, and it is positive exactly when the
      restaurant is among the favourited ids. */
  lemma DashboardAgreesWithRanking(db: Db, groups: seq<FavoriteGroup>, id: int)
    requires GroupsOf(groups, db.favorites) && id in db.restaurants
    ensures GetDashboard(db, id).Ok?
    ensures GetDashboard(db, id).value.favoriteCounts == FavoritedCount(groups, id)
    ensures GetDashboard(db, id).value.favoriteCounts >= 1 <==> id in GroupIds(groups)
  {
    FavoritedCountCountsFavoriters(groups, db.favorites, id);
  }
}
