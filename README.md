# Restaurant forum: a Dafny model of its rules

The forum is an Express and Sequelize application. Users sign up, sign in,
browse restaurants by category, comment, favourite, like and follow one
another. Admins manage restaurants, categories and the admin flag of users.
This project models the parts of it that decide something:

- the top-restaurants ranking: favourited restaurants, backfilled by views,
  shaped and sorted on three keys;
- the paged restaurant list, the detail view (which counts a view), and the
  dashboard;
- the top-users ranking;
- the guarded table operations of the user, admin, category and comment
  handlers;
- the route guards, and the sign-in and session-reload callbacks.

The store is the class `Models.Db`, with one field per table:
- maps from id to row for users, restaurants, categories and comments;
- sets of `(userId, restaurantId)` or `(followerId, followingId)` pairs for
  Favorite, Like and Followship;
- one auto-increment counter per table.

Every handler that writes is a module-level method that takes the store as
its `db` parameter and lists it in `modifies`. Its `ensures` gives the
whole new state as `db.Snapshot() == old(db.Snapshot()).(…)`. Every
method that takes the store requires and ensures the invariant
`Tables.Valid()`; the read-only `GetDashboard` is a function instead. The
invariant says:
- rows are stored under their own id;
- emails are unique;
- every restaurant names an existing category;
- nobody follows themselves;
- every comment has a non-blank text.

The rankings and the list view are functions over the rows the queries
fetch. The three chained stable sorts of the ranking are one sort on a
lexicographic key. `Sorting.SortedUnique` shows this choice makes no
difference: with distinct ids, every arrangement sorted on the three keys
is the same list. The model does not depend on how the sort is implemented.

A thrown error is `Thrown(message)`, with the source's message text.
Reading a property of `null`, for which JavaScript raises a TypeError, is
`NullDereference`.

Three things the code does, which the model keeps:
- It does not cut the top-restaurants list to 10 when 10 or more
  restaurants are favourited. Every favourited restaurant is listed.
- It keeps no table of issued or revoked tokens, so a JWT is never revoked.
- The JWT callback hands on the user row with its password.

Several older controllers repeat a service's logic line for line. The
service's members model them too:
- controllers/restaurant-controller.js:6-43 is the list page. It differs
  at line 31, which has its own members in `RestaurantController`.
- controllers/restaurant-controller.js:44-69 is `GetRestaurant`.
- controllers/restaurant-controller.js:114-174 is the ranking.
- controllers/user-controller.js:9-28, 100-119 and 120-137 are `SignUp`,
  `AddFavorite` and `RemoveFavorite`.
- controllers/category-controller.js:14-40 is `PostCategory` and
  `PutCategory`.

## Model

| member | source | states |
|---|---|---|
| Sorting.SortBy | services/restaurant-services.js:171-173 | the chained sorts give a permutation of their input in which every element may stand before every later one on the three-part key |
| Sorting.SortedUnique | services/restaurant-services.js:171-173 | two sorted arrangements of the same elements are equal when no two elements share a key, so the order is fully determined |
| Sorting.TakeTop | services/restaurant-services.js:144-149 | `ORDER BY … LIMIT k` gives min(k, n) of the rows, in key order, and every row kept ranks at or above every row left out |
| Sorting.TakeTopPermutation | services/restaurant-services.js:144-149 | without ties, the rows chosen by `ORDER BY … LIMIT k` do not depend on the order in which the rows come |
| Sorting.MapPermutation | services/restaurant-services.js:165-170 | mapping rearranged rows gives the same shaped rows, rearranged |
| RestaurantServices.FavoritedCount | services/restaurant-services.js:169 | the count of the first group with that restaurant id, or 0 when no group has it |
| RestaurantServices.FavoritedCountCountsFavoriters | services/restaurant-services.js:119-123 | when the groups come from grouping the Favorite table, a restaurant's count is its number of favouriting users, and it is at least 1 exactly for the favourited ids |
| RestaurantServices.Select | services/restaurant-services.js:139-145 | the rows whose id is in (or not in) the favourited ids, each with its multiplicity in the table |
| RestaurantServices.ShortenTop | services/restaurant-services.js:167 | a description of at most 100 characters is kept; a longer one becomes its first 100 characters plus "..."; never more than 103 characters |
| RestaurantServices.TopRestaurants | services/restaurant-services.js:163-173 | the ranking is a permutation of the shaped fetched rows, sorted by favoritedCount down, then viewCounts down, then id up |
| RestaurantServices.TopRestaurantsAsWritten | services/restaurant-services.js:167 | the ranking as written fails with a TypeError exactly when some fetched restaurant has no description; otherwise it is the ranking |
| RestaurantServices.NullDescriptionBreaksRanking | services/restaurant-services.js:167 | one restaurant without a description and without favourites: the ranking as written fails and the corrected one lists it |
| RestaurantServices.Merged | services/restaurant-services.js:134-164 | the fetched list starts with the favourited rows; with 10 or more groups it is exactly those rows, and with fewer it adds at most 10 − n more (the rest is stated by `MergedInTable`, `FavouritedAllFetched` and `BackfillChosenByViews`) |
| RestaurantServices.MergedInTable | services/restaurant-services.js:139-164 | every fetched row is a row of the Restaurant table |
| RestaurantServices.FavouritedAllFetched | services/restaurant-services.js:139-142 | the merged list starts with the favourited rows, and every favourited restaurant of the table is in it |
| RestaurantServices.BackfillChosenByViews | services/restaurant-services.js:137-150 | with fewer than 10 favourited, the rest of the list is min(10 − n, others) non-favourited rows, in viewCounts-down then id-up order, each ranking at or above every non-favourited row left out |
| RestaurantServices.NoBackfillWhenTenFavourited | services/restaurant-services.js:153-160 | with 10 or more favourited, exactly the favourited rows are fetched, and the list is not cut to 10 |
| RestaurantServices.Shape | services/restaurant-services.js:165-170 | one shaped item keeps its row, has a description exactly when the row has one, of at most 103 characters, isFavorited iff a user is logged in and favourited it, and its group's count |
| RestaurantServices.ItemsAreShapedRows | services/restaurant-services.js:165-170 | each ranked item is a fetched row: favoritedCount is its group count, isFavorited is true iff a user is logged in and favourited it, and its description is shortened (a missing one stays missing) |
| RestaurantServices.FavouritedRankFirst | services/restaurant-services.js:164-173 | every favourited restaurant comes before every backfilled one |
| RestaurantServices.AnyThreeKeyOrderIsTheRanking | services/restaurant-services.js:171-173 | with distinct ids, any arrangement of the shaped rows sorted on the three keys is exactly the modelled ranking |
| RestaurantServices.RankingIgnoresFetchOrder | services/restaurant-services.js:139-173 | the ranking is the same whatever order the store returns the table rows in |
| RestaurantServices.ParseListQuery | services/restaurant-services.js:9-12 | `limit` is 9 and `page` is 1 when the value is absent, 0 or NaN, and the given number otherwise; the category filter is set iff the category id is a non-zero number |
| RestaurantServices.InCategory | services/restaurant-services.js:17-19 | without a category every row matches; with one, exactly the rows of that category match, each with its multiplicity in the table |
| RestaurantServices.ListDescription | services/restaurant-services.js:31 | the description becomes null iff it is missing or empty; otherwise it is its prefix of min(length, 50) characters |
| RestaurantServices.GetRestaurants | services/restaurant-services.js:6-43 | the list page echoes the category filter, shows at most `limit` rows, and counts at most every table row, all of them without a filter (the exact count and window are stated by `ListPageShape`) |
| RestaurantServices.Window | services/restaurant-services.js:20-21 | `LIMIT … OFFSET …` returns at most `limit` consecutive rows starting at the offset |
| RestaurantServices.ListPageShape | services/restaurant-services.js:29-41 | `count` is the number of matching rows; the page shows the matching rows from the offset on, in order, min(limit, remaining) of them, each with its shortened description and the logged-in user's favourite and like flags |
| RestaurantServices.GetRestaurant | services/restaurant-services.js:54-67 | an unknown id fails with "Restaurant didn't exist!" and changes nothing; otherwise only that restaurant's viewCounts rises, by exactly 1, and the flags come from the request user |
| RestaurantServices.GetDashboard | services/restaurant-services.js:71-91 | an unknown id fails; otherwise the restaurant with its number of comments and its number of favouriting users |
| RestaurantServices.DashboardAgreesWithRanking | services/restaurant-services.js:80 | the dashboard's `Favorite.count` for a restaurant is the `favoritedCount` the grouped count gives it in the ranking, and it is positive exactly for the favourited ids |
| RestaurantController.ListDescriptionAsWritten | controllers/restaurant-controller.js:31 | the controller's description is its prefix of at most 50 characters, and a TypeError when it is missing |
| RestaurantController.ListDescriptionsAgree | controllers/restaurant-controller.js:31 | the controller and the service give the same non-empty description; only the empty one differs |
| RestaurantController.GetRestaurantsAsWritten | controllers/restaurant-controller.js:6-43 | the controller's list page fails only with a TypeError, and otherwise counts every matching row and shows at most `limit` (when it fails is stated by `ControllerListIsServiceList`) |
| RestaurantController.ShapeAllAsWritten | controllers/restaurant-controller.js:29-34 | the controller's map fails iff some shown row has no description |
| RestaurantController.ControllerListIsServiceList | controllers/restaurant-controller.js:6-43 | the controller's list page fails exactly when a shown restaurant has no description, and is the service's page when every shown description is non-empty |
| RestaurantController.NullDescriptionBreaksControllerList | controllers/restaurant-controller.js:31 | one restaurant without a description: the controller's page fails, the service's page shows it with a null description |
| UserServices.SignUp | services/user-services.js:7-27 | mismatched passwords fail before any lookup, and a known email fails; neither changes anything. Otherwise exactly one user (not an admin, no image) is added under the next id and returned without a password |
| UserServices.PutUser | services/user-services.js:48-75 | a foreign id, then an empty name, then a missing user fail and change nothing; otherwise only that user's name changes, and its image only when a file was uploaded |
| UserServices.AddFavorite | services/user-services.js:76-94 | a missing restaurant, then an existing pair, fail and change nothing; otherwise exactly that one pair is added |
| UserServices.RemoveFavorite | services/user-services.js:95-111 | an absent pair fails and changes nothing; otherwise exactly that pair is removed |
| UserServices.AddLike | services/user-services.js:112-130 | a missing restaurant, then an existing pair, fail and change nothing; otherwise exactly that pair is added |
| UserServices.RemoveLike | services/user-services.js:131-147 | an absent pair fails; otherwise exactly that pair is removed |
| UserServices.FavoriteRoundTrip | services/user-services.js:76-111 | adding a new favourite and then removing it both succeed and leave the store as it was |
| UserServices.LikeRoundTrip | services/user-services.js:112-147 | adding a new like and then removing it leave the store as it was |
| UserServices.FavoriteRaisesCount | services/user-services.js:88 | a new favourite raises that restaurant's count of favouriting users by exactly one |
| UserServices.UnfavoriteLowersCount | services/user-services.js:105 | removing a favourite lowers that count by exactly one |
| UserServices.AddFollowing | services/user-services.js:164-192 | a self-follow fails before any lookup, then a missing user, then an existing followship; otherwise exactly the (follower, following) row is added |
| UserServices.RemoveFollow | services/user-services.js:193-209 | an absent followship fails and changes nothing; otherwise exactly that row is removed |
| UserServices.FollowRoundTrip | services/user-services.js:164-209 | following and then unfollowing leave the store as it was |
| UserServices.TopUsersAsWritten | services/user-services.js:148-162 | the users ranking as written has one entry per fetched user, with follower counts that never increase (its password leak is stated by `TopUsersExposesPasswords`) |
| UserServices.TopUsers | services/user-services.js:153-158 | the corrected ranking has one entry per fetched user, with follower counts that never increase (its entries are stated by `TopUsersRanked`) |
| UserServices.RankUsersWith | services/user-services.js:153-158 | the users ranking is a permutation of the shaped users, in follower-count order, high to low |
| UserServices.TopUsersExposesPasswords | services/user-services.js:154 | every user's password hash appears in the ranking as written |
| UserServices.TopUsersIsStrippedAsWritten | services/user-services.js:153-158 | the corrected ranking is the ranking as written, in the same order, with each password removed |
| UserServices.TopUsersRanked | services/user-services.js:153-158 | one entry per fetched user, each built from one user row, with follower counts that never increase along the list |
| UserServices.TopUsersFollowFields | services/user-services.js:155-156 | followerCount is the number of stored followers, and isFollowed holds iff the current user follows that user |
| UserController.EditUser | controllers/user-controller.js:61-72 | the edit page opens iff the path id is the current user's and that user exists; a foreign id gets '無權限查看此頁面！' |
| UserController.PutUser | controllers/user-controller.js:73-99 | the service's update rules, with '無權限編輯此資料！' for a foreign id |
| UserController.EditThenPut | controllers/user-controller.js:61-99 | whoever can open the edit page can submit it with a non-empty name, and the stored user then has that name and the same email |
| Models.Upload | services/user-services.js:66 | the falsy-or fallback on `filePath` counts a missing and an empty path alike as no upload, and otherwise uses the path; admin-services.js lines 43 and 103 read it the same way |
| AdminServices.PostRestaurant | services/admin-services.js:23-51 | a missing name, then a missing category id, then an unknown category fail and change nothing; otherwise one restaurant with the form's fields, no views and the uploaded image or none is added under the next id |
| AdminServices.PutRestaurant | services/admin-services.js:81-111 | the same field checks, then a missing restaurant, then an unknown category fail; otherwise only that row changes, keeping its id, its views, every text field the form leaves out (`update` skips undefined values) and, without an upload, its image |
| AdminServices.DeleteRestaurant | services/admin-services.js:112-124 | an unknown id fails; otherwise exactly that restaurant is removed and returned |
| AdminServices.GetUsers | services/admin-services.js:125-134 | every stored user is listed, without a password, and nothing else |
| AdminServices.GetUsersOnePerUser | services/admin-services.js:125-134 | the list has exactly one entry per stored user |
| AdminServices.PatchUser | services/admin-services.js:135-149 | an unknown user and the root account fail and change nothing; otherwise only that user's admin flag flips, and it is returned without a password |
| AdminServices.PatchUserTwice | services/admin-services.js:135-149 | two toggles of the same user restore the store |
| CategoryServices.GetCategories | services/category-services.js:4-14 | every category is listed; the selected category is null without an id or for an unknown one, and otherwise the category with that id |
| CategoryServices.PostCategory | services/category-services.js:15-25 | an empty name fails and creates nothing; otherwise one category is added under the next id |
| CategoryServices.PutCategory | services/category-services.js:26-40 | an empty name, then an unknown id, fail; otherwise only that category's name changes |
| CategoryServices.DeleteCategory | services/category-services.js:41-56 | an unknown id fails, and so does a category some restaurant belongs to; otherwise exactly that category is removed |
| CategoryServices.DeleteThenCheck | services/category-services.js:41-56 | after a successful delete no restaurant names the deleted category |
| CategoryController.CountGuardIsInUse | controllers/category-controller.js:44-48 | a referencing-restaurant count above 0 is the same condition as some restaurant belonging to the category |
| CategoryController.DeleteCategory | controllers/category-controller.js:41-57 | the count-based delete has exactly the outcomes of the service's delete |
| CommentServices.PostComment | services/comment-services.js:4-24 | a missing or blank text fails before any lookup, then an unknown user, then an unknown restaurant; otherwise one comment with exactly that text, restaurant and user is added |
| CommentServices.DeleteComment | services/comment-services.js:25-37 | an unknown id fails; otherwise exactly that comment is removed |
| CommentServices.TrimmedEmptyIffBlank | services/comment-services.js:8 | `text.trim().length === 0` holds exactly when every character is JavaScript white space |
| CommentServices.BlankTexts | services/comment-services.js:8 | the empty text and texts of spaces, tabs, line breaks or ideographic spaces are blank; a text with a letter is not |
| Auth.Authenticated | middleware/auth.js:3-11 | a request passes iff it is authenticated; otherwise it goes to '/signin' with the notice '請先登入！' |
| Auth.AuthenticatedAdmin | middleware/auth.js:13-23 | a request passes iff it is authenticated and an admin; a signed-in non-admin goes to '/' without a notice; a visitor gets the same outcome as from `authenticated`; passing implies passing `authenticated` |
| Auth.AdminGuardOutcomesDiffer | middleware/auth.js:15-21 | admin, non-admin and visitor get three different outcomes |
| Passport.FindByEmail | config/passport.js:21 | some stored user with that email, or none exactly when no user has it |
| Passport.LocalVerify | config/passport.js:20-40 | both failures carry '帳號或密碼輸入錯誤！'; a success is a stored user with that email whose hash accepts the password |
| Passport.LocalVerifyDecides | config/passport.js:21-37 | with unique emails, sign-in succeeds iff a stored user has the email and the hash accepts the password; an unknown email and a wrong password give identical failures |
| Passport.SerializeUser | config/passport.js:63-65 | the session stores only the user's id |
| Passport.ReloadUser | config/passport.js:49-77 | the session user, and the JWT payload's user, is reloaded by id with its favourited and liked restaurants, followers and followings; a missing user is an error, never a user |
| Passport.SessionRoundTrip | config/passport.js:63-77 | serialising a stored user and deserialising the id gives back that user |
| Passport.LoginThenReload | config/passport.js:20-77 | the user the local strategy signs in is the user the session reloads |

## Left out

- Sequelize, MySQL and `Promise.all`: the store is a sequential in-memory value. Check-then-act races between concurrent requests are not modelled.
- bcrypt: `SignUp` takes the hash as a parameter. `Passport.LocalVerify` takes `compare` as a function parameter.
- `Passport.FindByEmail`, `Passport.LocalVerify`: ghost functions, because `findOne` may return any row with the email. Under `Tables.Valid()` only one row has it.
- `jwt.sign` (controllers/apis/user-controller.js:12) and the signature and expiry checks inside passport-jwt are not modelled. The JWT callback is modelled only by its lookup, `Passport.ReloadUser`.
- Uploads: `localFileHandler` is not part of this model. Its result is the parameter `filePath: Option<string>`. `Models.Upload` treats `None` and the empty path as no upload, as `filePath || …` does.
- RestaurantServices.ShortenTop, RestaurantServices.ListDescription, RestaurantController.ListDescriptionAsWritten: lengths are counted in Unicode scalar values, but JavaScript's `.length` and `.substring` count UTF-16 code units. So text outside the Basic Multilingual Plane is cut later than JavaScript cuts it, and never in the middle of a surrogate pair.
- Pagination helpers: `getOffset` and `getPagination` are not part of this model. `RestaurantServices.GetRestaurants` takes the offset as a parameter and does not build the `pagination` field.
- RestaurantServices.GetRestaurants: does not return the list of all categories fetched alongside it.
- Joined rows are not modelled: the Category of a restaurant, and the Comments and Users included in the detail view.
- RestaurantServices.Window: a negative `limit` would make the database reject the query. The model returns no rows for it.
- RestaurantServices.ItemsAreShapedRows, RestaurantServices.ListPageShape: without a logged-in user, `isFavorited` (and `isLiked` on the list page) is JavaScript `undefined`. The model uses `false`.
- RestaurantServices.GetRestaurant: returns the row as read before the increment. Sequelize's `increment` does not reload the instance on MySQL. Without a request user the increment happens and then reading `req.user.FavoritedRestaurants` fails. The model says that too.
- The `if (!favorites)` branch (services/restaurant-services.js:126, controllers/restaurant-controller.js:122) is not modelled. `findAndCountAll` always returns an object, so the branch never runs.
- RestaurantServices.TopRestaurants: takes the favourite groups as a parameter. `GroupsOf` states what grouping the Favorite table yields, and `FavoritedCountCountsFavoriters` uses it.
- UserServices.RankUsersWith: ties in follower count keep the fetch order, because `Sorting.Insert` puts an element ahead of equal ones. That stability is not proved.
- Default column values of the models (`isAdmin` false, `viewCounts` 0, `image` null) are assumed. The model definitions are not part of this model.
- Path and body ids are integers. `Number(req.params.id)` on a non-numeric id, and ids sent as strings such as "0", are not modelled.
- RestaurantServices.ParseListQuery: the query values `limit`, `page` and `categoryId` are taken as integers after `Number(…)`. Non-integer numbers such as 2.5 are not modelled; NaN is modelled as an absent value.
- AdminServices.DeleteRestaurant: removes only the restaurant row. The model states nothing about database cascades to favourites, likes or comments.
- The thin pages and apis controllers (controllers/pages, controllers/apis) and routes/apis/index.js are not modelled. Neither are their known bugs: routing every handler to `getRestaurants`, calling a missing `getTopUser`, and `next(err)` without `return`. The seeders and migrations are not modelled either.
- Success flash messages and redirects of the controllers are not modelled. The guards keep their outcomes as labels in `Auth.Outcome`.
- Handlers outside the modelled core are not modelled: `getUser`, `getFeeds`, the admin readers (`getRestaurants`, `createRestaurant`, `getRestaurant`, `editRestaurant`), and the controller copies of `getCategories` and `getDashboard`.

## Findings

| source | as written | input that shows it | evidently intended | confidence | as-written member | corrected member |
|---|---|---|---|---|---|---|
| services/user-services.js:154 | each ranked user is `...user.toJSON()`, which copies the password hash into the response | any stored user, e.g. one user with hash "h": its entry carries password "h" | the entry without the password, as sign-up, profile edit, the admin list and the admin toggle do | medium, not executed | UserServices.TopUsersExposesPasswords | UserServices.TopUsersIsStrippedAsWritten |
| services/restaurant-services.js:167 | `r.description.length` is read with no null guard | one restaurant with no description and no favourites: the ranking fails with a TypeError | keep a missing description missing, as the list view does at line 31 | medium, not executed | RestaurantServices.NullDescriptionBreaksRanking | RestaurantServices.TopRestaurants |
| controllers/restaurant-controller.js:31 | `r.description.substring(0, 50)` is read with no null guard | one restaurant with no description in the list: the page fails with a TypeError | `r.description ? r.description.substring(0, 50) : null`, as the service version has it | high, not executed | RestaurantController.NullDescriptionBreaksControllerList | RestaurantServices.ListPageShape |
