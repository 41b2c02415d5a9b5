/** The user handlers: list every user, read, update and delete one's own
    profile. Each answer leaves the password out. Password hashing
    (`bcrypt.hash` with 10 salt rounds) is a parameter. */
module UserController {

  import opened Common
  import Js
  import Tables
  import EmailFormat
  import MySqlText
  import opened UserModel

  /** The `data` of a delete answer. */
  datatype DeletedUser = DeletedUser(id: int, username: string, email: string)

  /** The rows with the given keys, in that order, without passwords. */
  function PublicList(rows: map<int, User>, ks: seq<int>): (list: seq<PublicUser>)
    requires forall i :: 0 <= i < |ks| ==> ks[i] in rows
    ensures |list| == |ks| && forall i :: 0 <= i < |ks| ==> list[i] == Public(rows[ks[i]])
  {
    seq(|ks|, i requires 0 <= i < |ks| => Public(rows[ks[i]]))
  }

  /** A newest-first listing of the keys gives every user once, newest
      first. */
  lemma PublicListNewestFirst(rows: map<int, User>, ks: seq<int>)
    requires WellFormed(rows) && Tables.SortedNewestFirst(CreationTimes(rows), ks)
    ensures var list := PublicList(rows, ks);
      |list| == |rows|
      && (forall i :: 0 <= i < |list| ==> list[i].id in rows && list[i] == Public(rows[list[i].id]))
      && (forall k :: k in rows ==> exists i :: 0 <= i < |list| && list[i].id == k)
      && (forall i, j :: 0 <= i < j < |list| ==> list[i].createdAt > list[j].createdAt)
  {
    var times := CreationTimes(rows);
    var list := PublicList(rows, ks);
    forall i | 0 <= i < |list| ensures list[i].id == ks[i] && list[i].createdAt == times[ks[i]] {
    }
    forall k | k in rows ensures exists i :: 0 <= i < |list| && list[i].id == k {
      assert k in times;
      var i :| 0 <= i < |ks| && ks[i] == k;
      assert list[i].id == k;
    }
  }

  /** `getAllUsers`: every user, newest first, without passwords. */
  function GetAllUsers(rows: map<int, User>): (r: Response<seq<PublicUser>>)
    requires WellFormed(rows)
    ensures r.status == 200 && r.message == "Users retrieved successfully" && r.data.Some?
    ensures var list := r.data.value;
      |list| == |rows|
      && (forall i :: 0 <= i < |list| ==> list[i].id in rows && list[i] == Public(rows[list[i].id]))
      && (forall k :: k in rows ==> exists i :: 0 <= i < |list| && list[i].id == k)
      && (forall i, j :: 0 <= i < j < |list| ==> list[i].createdAt > list[j].createdAt)
  {
    var ks := Tables.NewestFirst(CreationTimes(rows));
    PublicListNewestFirst(rows, ks);
    Ok(200, "Users retrieved successfully", PublicList(rows, ks))
  }

  /** `getUserById`: only one's own profile, checked before the lookup. */
  function GetUserById(rows: map<int, User>, callerId: int, idParam: string): (r: Response<PublicUser>)
    ensures r.status == 403 <==> Js.ParseInt(idParam) != Some(callerId)
    ensures r.status == 404 <==> Js.ParseInt(idParam) == Some(callerId) && callerId !in rows
    ensures r.status == 403 ==> r == Fail(403, "Access denied. You can only access your own profile.")
    ensures r.status == 404 ==> r == Fail(404, "User not found")
    ensures r.Success() ==> r == Ok(200, "User retrieved successfully", Public(rows[callerId]))
  {
    if Js.ParseInt(idParam) != Some(callerId) then
      Fail(403, "Access denied. You can only access your own profile.")
    else if callerId !in rows then Fail(404, "User not found")
    else Ok(200, "User retrieved successfully", Public(rows[callerId]))
  }

  /** The path text of one's own id reads back as that id, even with
      trailing text without digits ("7abc" for 7), so the profile is
      returned. */
  lemma OwnProfileByDecimalId(rows: map<int, User>, id: nat, rest: string)
    requires id in rows
    requires forall i :: 0 <= i < |rest| ==> !Js.IsDecimalDigit(rest[i])
    requires id == 0 && rest != [] ==> rest[0] != 'x' && rest[0] != 'X'
    ensures GetUserById(rows, id, Js.DecimalString(id) + rest)
      == Ok(200, "User retrieved successfully", Public(rows[id]))
  {
    Js.ParseIntReadsDecimalPrefix(id, rest);
  }

  /** `getUserById` as the source writes it: the ownership check reads the
      path text with `parseInt`, but `findByPk` looks the row up by the raw
      text, which MySQL compares with the integer id as a number. */
  function GetUserByIdAsWritten(rows: map<int, User>, callerId: int, idParam: string): (r: Response<PublicUser>)
    ensures r.status == 403 <==> Js.ParseInt(idParam) != Some(callerId)
    ensures r.Success() ==> MySqlText.MatchingId(idParam).Some? && MySqlText.MatchingId(idParam).value in rows
                            && r == Ok(200, "User retrieved successfully", Public(rows[MySqlText.MatchingId(idParam).value]))
  {
    if Js.ParseInt(idParam) != Some(callerId) then
      Fail(403, "Access denied. You can only access your own profile.")
    else
      var id := MySqlText.MatchingId(idParam);
      if id.None? || id.value !in rows then Fail(404, "User not found")
      else Ok(200, "User retrieved successfully", Public(rows[id.value]))
  }

  /** With the path text "1e2", `parseInt` gives 1 and passes the ownership
      check of caller 1, while the lookup selects user 100: as written, the
      handler returns another user's profile. The modelled handler returns
      the caller's own. */
  lemma AsWrittenReturnsOtherProfile(rows: map<int, User>)
    requires 1 in rows && 100 in rows && rows[100].id == 100
    ensures GetUserByIdAsWritten(rows, 1, "1e2") == Ok(200, "User retrieved successfully", Public(rows[100]))
    ensures GetUserByIdAsWritten(rows, 1, "1e2").data.value.id != 1
    ensures GetUserById(rows, 1, "1e2") == Ok(200, "User retrieved successfully", Public(rows[1]))
  {
    assert Js.DecimalString(1) + "e2" == "1e2";
    Js.ParseIntReadsDecimalPrefix(1, "e2");
    MySqlText.ExponentTextValue();
  }

  /** Another user's id is refused, whether or not that user exists. */
  lemma OtherProfileIsDenied(rows: map<int, User>, callerId: int, id: nat)
    requires id != callerId
    ensures GetUserById(rows, callerId, Js.DecimalString(id))
      == Fail(403, "Access denied. You can only access your own profile.")
  {
    Js.ParseIntReadsDecimalPrefix(id, "");
    assert Js.DecimalString(id) + "" == Js.DecimalString(id);
  }

  /** The `findOne` of the update: some other row already holds the
      supplied username or the supplied email. Fields not supplied are not
      compared. */
  predicate TakenByOther(rows: map<int, User>, id: int, username: Option<string>, email: Option<string>)
    ensures TakenByOther(rows, id, username, email) ==> Present(username) || Present(email)
  {
    exists k :: k in rows && k != id
      && ((Present(username) && rows[k].username == username.value)
          || (Present(email) && rows[k].email == email.value))
  }

  /** The row after `user.update(updateData)`: each supplied field is
      replaced, the password by its hash; everything else is kept. */
  function Updated(u: User, username: Option<string>, email: Option<string>, password: Option<string>,
                   hash: string -> string): (v: User)
    ensures v.id == u.id && v.profileImage == u.profileImage && v.createdAt == u.createdAt
    ensures v.username == (if Present(username) then username.value else u.username)
    ensures v.email == (if Present(email) then email.value else u.email)
    ensures v.password == (if Present(password) then hash(password.value) else u.password)
  {
    var v := if Present(username) then u.(username := username.value) else u;
    var v := if Present(email) then v.(email := email.value) else v;
    if Present(password) then v.(password := hash(password.value)) else v
  }

  /** An update that passed the uniqueness check keeps usernames and e-mail
      addresses pairwise distinct. */
  lemma UpdateKeepsCredentialsUnique(rows: map<int, User>, id: int, username: Option<string>,
                                     email: Option<string>, password: Option<string>, hash: string -> string)
    requires WellFormed(rows) && id in rows
    requires !TakenByOther(rows, id, username, email)
    ensures forall k :: k in rows && k != id ==>
      rows[k].username != Updated(rows[id], username, email, password, hash).username
      && rows[k].email != Updated(rows[id], username, email, password, hash).email
    ensures WellFormed(rows[id := Updated(rows[id], username, email, password, hash)])
  {
    var v := Updated(rows[id], username, email, password, hash);
    forall k | k in rows && k != id
      ensures rows[k].username != v.username && rows[k].email != v.email
    {
      assert !((Present(username) && rows[k].username == username.value)
               || (Present(email) && rows[k].email == email.value));
    }
    ReplaceKeepsWellFormed(rows, v);
  }

  /** `updateUser`: ownership, then the lookup, then the e-mail syntax (if
      an e-mail is supplied), then uniqueness against the other users (if a
      username or e-mail is supplied); only then the supplied fields change. */
  method UpdateUser(users: UserTable, callerId: int, idParam: string,
                    username: Option<string>, email: Option<string>, password: Option<string>,
                    hash: string -> string)
    returns (r: Response<PublicUser>)
    requires users.Valid()
    modifies users
    ensures users.Valid()
    ensures Js.ParseInt(idParam) != Some(callerId) ==>
      r == Fail(403, "Access denied. You can only update your own profile.") && users.rows == old(users.rows)
    ensures Js.ParseInt(idParam) == Some(callerId) && callerId !in old(users.rows) ==>
      r == Fail(404, "User not found") && users.rows == old(users.rows)
    ensures Js.ParseInt(idParam) == Some(callerId) && callerId in old(users.rows)
            && Present(email) && !EmailFormat.IsValidEmail(email.value) ==>
      r == Fail(400, "Invalid email format") && users.rows == old(users.rows)
    ensures Js.ParseInt(idParam) == Some(callerId) && callerId in old(users.rows)
            && (Present(email) ==> EmailFormat.IsValidEmail(email.value))
            && TakenByOther(old(users.rows), callerId, username, email) ==>
      r == Fail(409, "Username or email already exists") && users.rows == old(users.rows)
    ensures Js.ParseInt(idParam) == Some(callerId) && callerId in old(users.rows)
            && (Present(email) ==> EmailFormat.IsValidEmail(email.value))
            && !TakenByOther(old(users.rows), callerId, username, email) ==>
      var v := Updated(old(users.rows)[callerId], username, email, password, hash);
      r == Ok(200, "User updated successfully", Public(v))
      && users.rows == old(users.rows)[callerId := v]
  {
    if Js.ParseInt(idParam) != Some(callerId) {
      return Fail(403, "Access denied. You can only update your own profile.");
    }
    if callerId !in users.rows {
      return Fail(404, "User not found");
    }
    if Present(email) && !EmailFormat.IsValidEmail(email.value) {
      return Fail(400, "Invalid email format");
    }
    if (Present(username) || Present(email)) && TakenByOther(users.rows, callerId, username, email) {
      return Fail(409, "Username or email already exists");
    }
    var v := users.rows[callerId];
    if Present(username) {
      v := v.(username := username.value);
    }
    if Present(email) {
      v := v.(email := email.value);
    }
    if Present(password) {
      v := v.(password := hash(password.value));
    }
    UpdateKeepsCredentialsUnique(users.rows, callerId, username, email, password, hash);
    users.Replace(v);
    r := Ok(200, "User updated successfully", Public(v));
  }

  /** `deleteUser`: ownership, then the lookup; exactly the caller's row is
      removed and its id, username and e-mail are returned. */
  method DeleteUser(users: UserTable, callerId: int, idParam: string)
    returns (r: Response<DeletedUser>)
    requires users.Valid()
    modifies users
    ensures users.Valid()
    ensures Js.ParseInt(idParam) != Some(callerId) ==>
      r == Fail(403, "Access denied. You can only delete your own profile.") && users.rows == old(users.rows)
    ensures Js.ParseInt(idParam) == Some(callerId) && callerId !in old(users.rows) ==>
      r == Fail(404, "User not found") && users.rows == old(users.rows)
    ensures Js.ParseInt(idParam) == Some(callerId) && callerId in old(users.rows) ==>
      var u := old(users.rows)[callerId];
      r == Ok(200, "User deleted successfully", DeletedUser(callerId, u.username, u.email))
      && users.rows == old(users.rows) - {callerId}
  {
    if Js.ParseInt(idParam) != Some(callerId) {
      return Fail(403, "Access denied. You can only delete your own profile.");
    }
    if callerId !in users.rows {
      return Fail(404, "User not found");
    }
    var u := users.rows[callerId];
    users.Destroy(callerId);
    r := Ok(200, "User deleted successfully", DeletedUser(callerId, u.username, u.email));
  }

  /** `deleteUser` as the source writes it: the ownership check reads the
      path text with `parseInt`, but `findByPk` selects the row MySQL
      matches with the raw text, and that row is destroyed; the answer's id
      is `parseInt(id)`. */
  method DeleteUserAsWritten(users: UserTable, callerId: int, idParam: string)
    returns (r: Response<DeletedUser>)
    requires users.Valid()
    modifies users
    ensures users.Valid()
    ensures Js.ParseInt(idParam) != Some(callerId) ==>
      r == Fail(403, "Access denied. You can only delete your own profile.") && users.rows == old(users.rows)
    ensures Js.ParseInt(idParam) == Some(callerId)
            && (MySqlText.MatchingId(idParam).None? || MySqlText.MatchingId(idParam).value !in old(users.rows)) ==>
      r == Fail(404, "User not found") && users.rows == old(users.rows)
    ensures Js.ParseInt(idParam) == Some(callerId)
            && MySqlText.MatchingId(idParam).Some? && MySqlText.MatchingId(idParam).value in old(users.rows) ==>
      var u := old(users.rows)[MySqlText.MatchingId(idParam).value];
      r == Ok(200, "User deleted successfully", DeletedUser(callerId, u.username, u.email))
      && users.rows == old(users.rows) - {MySqlText.MatchingId(idParam).value}
  {
    if Js.ParseInt(idParam) != Some(callerId) {
      return Fail(403, "Access denied. You can only delete your own profile.");
    }
    var id := MySqlText.MatchingId(idParam);
    if id.None? || id.value !in users.rows {
      return Fail(404, "User not found");
    }
    var u := users.rows[id.value];
    users.Destroy(id.value);
    r := Ok(200, "User deleted successfully", DeletedUser(callerId, u.username, u.email));
  }

  /** With the path text "1e2", caller 1 passes the ownership check and, as
      written, destroys user 100, whose username and e-mail are returned
      under the id 1; the caller's own row stays. The modelled DeleteUser
      removes the caller's row instead. */
  method AsWrittenDeletesOtherUser(users: UserTable) returns (r: Response<DeletedUser>)
    requires users.Valid() && 1 in users.rows && 100 in users.rows
    modifies users
    ensures users.rows == old(users.rows) - {100} && 1 in users.rows
    ensures r == Ok(200, "User deleted successfully",
                    DeletedUser(1, old(users.rows)[100].username, old(users.rows)[100].email))
  {
    assert Js.DecimalString(1) + "e2" == "1e2";
    Js.ParseIntReadsDecimalPrefix(1, "e2");
    MySqlText.ExponentTextValue();
    r := DeleteUserAsWritten(users, 1, "1e2");
  }
}
