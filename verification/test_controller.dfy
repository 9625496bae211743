/** `TestController` (GET /test/user-exists/{email}): whether a user with an
    e-mail is stored, and a summary of that user. */
module TestController {
  import opened Base
  import opened Tables
  import opened Entities
  import opened Http
  import opened AuthUserService

  /** The "role" entry of a user without a role. */
  const NO_ROLE: string := "No role assigned"

  /** The "user" entry: id, e-mail, name, password length and role. */
  datatype UserInfo = UserInfo(id: int, email: string, fullName: string, passwordLength: nat, role: string)

  /** The response map: "exists", and "user" only for a stored user. */
  datatype UserExists = UserExists(exists_: bool, user: Option<UserInfo>)

  /** The body `checkUserExists` builds. "exists" is whether a user has the
      e-mail and "user" is present exactly then. The summary gives the
      user's id, e-mail and name, the UTF-16 length of the stored password, and the
      role's name or "No role assigned". A user with a null password makes
      `length()` fail. */
  function UserExistsBody(users: Table<User>, roles: Table<Role>, email: string): (r: Result<UserExists>)
    requires WellFormed(users)
    ensures r.Ok? ==> (r.value.exists_ <==> exists id :: id in users.rows && users.rows[id].email == email)
    ensures r.Ok? ==> (r.value.user.Some? <==> r.value.exists_)
    ensures r.Err? <==> FindByEmail(users, email).Some? && FindByEmail(users, email).value.value.password.None?
    ensures r.Ok? && r.value.user.Some? ==>
              var row := FindByEmail(users, email).value;
              var info := r.value.user.value;
              && info.id == row.id && info.email == email && info.fullName == row.value.fullName
              && info.passwordLength == Utf16Length(row.value.password.value)
              && info.role == RoleName(roles, row.value.role).GetOr(NO_ROLE)
  {
    var found := FindByEmail(users, email);
    if found.None? then Ok(UserExists(false, None))
    else
      var u := found.value.value;
      if u.password.None? then Err(NullReference("password"))
      else Ok(UserExists(true, Some(UserInfo(found.value.id, u.email, u.fullName, Utf16Length(u.password.value),
                                             RoleName(roles, u.role).GetOr(NO_ROLE)))))
  }

  /** `checkUserExists`: 200 with the body; a failure is not handled by the
      exception handler and becomes Spring's 500. */
  function CheckUserExists(users: Table<User>, roles: Table<Role>, email: string, now: Timestamp): (resp: Response<UserExists>)
    requires WellFormed(users)
    ensures resp.status == OK <==> UserExistsBody(users, roles, email).Ok?
    ensures resp.status != OK ==> resp == Response(INTERNAL_SERVER_ERROR, DefaultError)
  {
    Answer(UserExistsBody(users, roles, email), OK, now)
  }
}
