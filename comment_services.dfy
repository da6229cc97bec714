/** The comment handlers. */
module CommentServices {
  import opened Models

  const TextRequired := "Comment text is required!"

  /** User `currentUserId` comments on restaurant `restaurantId`; `text` is
      None when the form has no text. A missing or blank text fails before
      the store is read, then an unknown user, then an unknown restaurant.
      Otherwise one comment with exactly that text, restaurant and user is
      stored under the next id. */
  method PostComment(db: Db, currentUserId: int, restaurantId: int, text: Option<string>)
    returns (r: Result<Comment>)
    requires db.Valid()
    modifies db
    ensures db.Valid()
    ensures text.None? || IsBlank(text.value) ==>
      r == Err(Thrown(TextRequired)) && db.Snapshot() == old(db.Snapshot())
    ensures text.Some? && !IsBlank(text.value) && currentUserId !in old(db.users) ==>
      r == Err(Thrown(UserMissing)) && db.Snapshot() == old(db.Snapshot())
    ensures text.Some? && !IsBlank(text.value) && currentUserId in old(db.users)
            && restaurantId !in old(db.restaurants) ==>
      r == Err(Thrown(RestaurantMissing)) && db.Snapshot() == old(db.Snapshot())
    ensures text.Some? && !IsBlank(text.value) && currentUserId in old(db.users)
            && restaurantId in old(db.restaurants) ==>
      var c := Comment(old(db.nextCommentId), text.value, currentUserId, restaurantId);
      && r == Ok(c)
      && db.Snapshot() == old(db.Snapshot()).(comments := old(db.comments)[c.id := c],
                                              nextCommentId := old(db.nextCommentId) + 1)
  {
    if text.None? || IsBlank(text.value) {
      return Err(Thrown(TextRequired));
    }
    if currentUserId !in db.users {
      return Err(Thrown(UserMissing));
    }
    if restaurantId !in db.restaurants {
      return Err(Thrown(RestaurantMissing));
    }
    var c := Comment(db.nextCommentId, text.value, currentUserId, restaurantId);
    db.comments := db.comments[c.id := c];
    db.nextCommentId := db.nextCommentId + 1;
    r := Ok(c);
  }

  /** Fails on an unknown id; otherwise removes exactly that comment. */
  method DeleteComment(db: Db, id: int) returns (r: Result<Comment>)
    requires db.Valid()
    modifies db
    ensures db.Valid()
    ensures id !in old(db.comments) ==>
      r == Err(Thrown(CommentMissing)) && db.Snapshot() == old(db.Snapshot())
    ensures id in old(db.comments) ==>
      r == Ok(old(db.comments[id]))
      && db.Snapshot() == old(db.Snapshot()).(comments := old(db.comments) - {id})
  {
    if id !in db.comments {
      return Err(Thrown(CommentMissing));
    }
    r := Ok(db.comments[id]);
    db.comments := db.comments - {id};
  }

  /** Texts made only of spaces, tabs or line breaks are refused; a text
      with one visible character is accepted. */
  lemma BlankTexts()
    ensures IsBlank("") && IsBlank(" \t\n") && IsBlank("\U{3000}")
    ensures !IsBlank(" a ")
  {
    assert !IsJsWhitespace(" a "[1]);
  }

  /** `String.prototype.trim`: drops leading and trailing white space. */
  function TrimStart(s: string): (r: string)
    ensures |r| <= |s| && r == s[|s| - |r|..]
    ensures r != [] ==> !IsJsWhitespace(r[0])
  {
    if s != [] && IsJsWhitespace(s[0]) then TrimStart(s[1..]) else s
  }

  function TrimEnd(s: string): (r: string)
    ensures |r| <= |s| && r == s[..|r|]
    ensures r != [] ==> !IsJsWhitespace(r[|r| - 1])
  {
    if s != [] && IsJsWhitespace(s[|s| - 1]) then TrimEnd(s[..|s| - 1]) else s
  }

  function Trim(s: string): string {
    TrimEnd(TrimStart(s))
  }

  lemma {:induction false} TrimStartEmptyIffBlank(s: string)
    ensures TrimStart(s) == [] <==> IsBlank(s)
    decreases |s|
  {
    if s != [] {
      TrimStartEmptyIffBlank(s[1..]);
      if IsJsWhitespace(s[0]) {
        assert forall i :: 1 <= i < |s| ==> s[i] == s[1..][i - 1];
      }
    }
  }

  lemma {:induction false} TrimEndEmptyIffBlank(s: string)
    ensures TrimEnd(s) == [] <==> IsBlank(s)
    decreases |s|
  {
    if s != [] {
      var init := s[..|s| - 1];
      TrimEndEmptyIffBlank(init);
      assert forall i :: 0 <= i < |s| - 1 ==> s[i] == init[i];
    }
  }

  /** The guard `text.trim().length === 0` is exactly `IsBlank`. */
  lemma TrimmedEmptyIffBlank(s: string)
    ensures |Trim(s)| == 0 <==> IsBlank(s)
  {
    var t := TrimStart(s);
    TrimStartEmptyIffBlank(s);
    TrimEndEmptyIffBlank(t);
    assert t != [] ==> !IsBlank(t);
  }
}
