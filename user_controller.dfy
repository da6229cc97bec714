/** The older user controller. Its sign-up and favourite handlers are those
    of `UserServices`; the profile pages refuse a foreign id with their own
    messages. */
module UserController {
  import opened Models
  import UserServices

  const ViewDenied := "無權限查看此頁面！"
  const EditDenied := "無權限編輯此資料！"

  /** The profile edit page: only the owner may open it, and the user must
      exist. */
  function EditUser(db: Db, currentUserId: int, id: int): (r: Result<User>)
    reads db
    ensures r.Ok? <==> id == currentUserId && id in db.users
    ensures id != currentUserId ==> r == Err(Thrown(ViewDenied))
    ensures id == currentUserId && id !in db.users ==> r == Err(Thrown(UserMissing))
    ensures r.Ok? ==> r.value == db.users[id]
  {
    if id != currentUserId then Err(Thrown(ViewDenied))
    else if id !in db.users then Err(Thrown(UserMissing))
    else Ok(db.users[id])
  }

  /** The controller's profile update: the same rules as the service, with
      its own message for a foreign id. */
  method PutUser(db: Db, currentUserId: int, id: int, name: string, filePath: Option<string>)
    returns (r: Result<PublicUser>)
    requires db.Valid()
    modifies db
    ensures db.Valid()
    ensures id != currentUserId ==>
      r == Err(Thrown(EditDenied)) && db.Snapshot() == old(db.Snapshot())
    ensures id == currentUserId && name == "" ==>
      r == Err(Thrown(UserServices.NameRequired)) && db.Snapshot() == old(db.Snapshot())
    ensures id == currentUserId && name != "" && id !in old(db.users) ==>
      r == Err(Thrown(UserMissing)) && db.Snapshot() == old(db.Snapshot())
    ensures id == currentUserId && name != "" && id in old(db.users) ==>
      var u := old(db.users[id]).(name := name,
                                  image := if Upload(filePath).Some? then filePath else old(db.users[id].image));
      && r == Ok(Public(u))
      && db.Snapshot() == old(db.Snapshot()).(users := old(db.users)[id := u])
  {
    if id != currentUserId {
      return Err(Thrown(EditDenied));
    }
    r := UserServices.PutUser(db, currentUserId, id, name, filePath);
  }

  /** Whoever may open the edit page may also submit it with a non-empty
      name, and the stored row is the one the page showed, renamed. */
  method EditThenPut(db: Db, currentUserId: int, name: string, filePath: Option<string>)
    returns (page: Result<User>, saved: Result<PublicUser>)
    requires db.Valid()
    requires name != ""
    modifies db
    ensures db.Valid()
    ensures page.Ok? <==> saved.Ok?
    ensures page.Ok? ==> currentUserId in db.users && db.users[currentUserId].name == name
                         && db.users[currentUserId].email == page.value.email
  {
    page := EditUser(db, currentUserId, currentUserId);
    saved := PutUser(db, currentUserId, currentUserId, name, filePath);
  }
}
