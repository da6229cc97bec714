/** Rows of the application's tables, the request user context, the error
    values the handlers raise, and the store that holds the tables. */
module Models {

  datatype Option<+T> = None | Some(value: T)

  /** Why a handler gave up: an `Error` thrown with a message, or the
      TypeError that JavaScript raises when a property of null is read. */
  datatype Error = Thrown(message: string) | NullDereference

  datatype Result<+T> = Ok(value: T) | Err(error: Error)

  const RestaurantMissing := "Restaurant didn't exist!"
  const UserMissing := "User didn't exist!"
  const CategoryMissing := "Category didn't exist!"
  const CommentMissing := "Comment didn't exist!"

  /** A User row; `password` holds the bcrypt hash. */
  datatype User = User(id: int, name: string, email: string, password: string,
                       isAdmin: bool, image: Option<string>)

  /** A user as handed out after `delete userData.password`: there is no
      password field to leak. */
  datatype PublicUser = PublicUser(id: int, name: string, email: string,
                                   isAdmin: bool, image: Option<string>)

  function Public(u: User): PublicUser {
    PublicUser(u.id, u.name, u.email, u.isAdmin, u.image)
  }

  datatype Restaurant = Restaurant(id: int, name: string, tel: Option<string>,
                                   address: Option<string>, openingHours: Option<string>,
                                   description: Option<string>, image: Option<string>,
                                   viewCounts: int, categoryId: int)

  datatype Category = Category(id: int, name: string)

  datatype Comment = Comment(id: int, text: string, userId: int, restaurantId: int)

  /** A join row: (userId, restaurantId) for Favorite and Like,
      (followerId, followingId) for Followship. */
  type Pair = (int, int)

  /** `req.user`: the user reloaded with its FavoritedRestaurants,
      LikedRestaurants, Followers and Followings, kept as sets of ids. */
  datatype UserContext = UserContext(user: User, favorited: set<int>, liked: set<int>,
                                     followers: set<int>, followings: set<int>)

  /** The characters String.prototype.trim removes: WhiteSpace and
      LineTerminator of ECMAScript, including the Unicode space separators. */
  predicate IsJsWhitespace(c: char) {
    c == '\t' || c == '\n' || c == '\U{000B}' || c == '\U{000C}' || c == '\r' || c == ' '
    || c == '\U{00A0}' || c == '\U{1680}' || ('\U{2000}' <= c <= '\U{200A}')
    || c == '\U{2028}' || c == '\U{2029}' || c == '\U{202F}' || c == '\U{205F}'
    || c == '\U{3000}' || c == '\U{FEFF}'
  }

  /** `text.trim().length === 0` */
  predicate IsBlank(s: string) {
    forall i :: 0 <= i < |s| ==> IsJsWhitespace(s[i])
  }

  /** The path the upload handler returned, as `filePath || …` reads it:
      the empty path is falsy and counts as no upload. */
  function Upload(filePath: Option<string>): (r: Option<string>)
    ensures r.None? <==> filePath.None? || filePath.value == ""
    ensures r.Some? ==> r == filePath
  {
    if filePath.Some? && filePath.value != "" then filePath else None
  }

  /** `user.Followers`: the users among `userIds` who follow `id`. */
  function Followers(followships: set<Pair>, userIds: set<int>, id: int): set<int> {
    set p | p in followships && p.1 == id && p.0 in userIds :: p.0
  }

  /** `user.Followings`: the users among `userIds` whom `id` follows. */
  function Followings(followships: set<Pair>, userIds: set<int>, id: int): set<int> {
    set p | p in followships && p.0 == id && p.1 in userIds :: p.1
  }

  /** The content of every table, and the next auto-increment id of each. */
  datatype Tables = Tables(
    users: map<int, User>,
    restaurants: map<int, Restaurant>,
    categories: map<int, Category>,
    comments: map<int, Comment>,
    favorites: set<Pair>,
    likes: set<Pair>,
    followships: set<Pair>,
    nextUserId: int,
    nextRestaurantId: int,
    nextCategoryId: int,
    nextCommentId: int)
  {
    /** The integrity every handler keeps: rows are stored under their own
        id, below the table's counter; emails are unique; every restaurant
        names an existing category; nobody follows themselves; and every
        comment has a non-blank text. */
    ghost predicate Valid() {
      && (forall id :: id in users ==> users[id].id == id && id < nextUserId)
      && (forall id :: id in restaurants ==> restaurants[id].id == id && id < nextRestaurantId)
      && (forall id :: id in categories ==> categories[id].id == id && id < nextCategoryId)
      && (forall id :: id in comments ==> comments[id].id == id && id < nextCommentId)
      && (forall a, b :: a in users && b in users && users[a].email == users[b].email ==> a == b)
      && (forall id :: id in restaurants ==> restaurants[id].categoryId in categories)
      && (forall p :: p in followships ==> p.0 != p.1)
      && (forall id :: id in comments ==> !IsBlank(comments[id].text))
    }
  }

  /** The relational store, updated in place by the service handlers. */
  class Db {
    var users: map<int, User>
    var restaurants: map<int, Restaurant>
    var categories: map<int, Category>
    var comments: map<int, Comment>
    var favorites: set<Pair>
    var likes: set<Pair>
    var followships: set<Pair>
    var nextUserId: int
    var nextRestaurantId: int
    var nextCategoryId: int
    var nextCommentId: int

    function Snapshot(): Tables
      reads this
    {
      Tables(users, restaurants, categories, comments, favorites, likes, followships,
             nextUserId, nextRestaurantId, nextCategoryId, nextCommentId)
    }

    ghost predicate Valid()
      reads this
    {
      Snapshot().Valid()
    }

    /** An empty database whose auto-increment ids start at 1. */
    constructor ()
      ensures Valid()
      ensures Snapshot() == Tables(map[], map[], map[], map[], {}, {}, {}, 1, 1, 1, 1)
    {
      users, restaurants, categories, comments := map[], map[], map[], map[];
      favorites, likes, followships := {}, {}, {};
      nextUserId, nextRestaurantId, nextCategoryId, nextCommentId := 1, 1, 1, 1;
    }
  }
}
