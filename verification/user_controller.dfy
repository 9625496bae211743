/** `UserController` (`/users`). Bodies are checked through a `BindingResult`
    (400 with a field-to-message map), then the controller checks the store
    itself and answers with a `{"error": ...}` map, or saves through
    `UserService.SaveUser`. The e-mail well-formedness check is a parameter. */
module UserController {
  import opened Base
  import opened Tables
  import opened Entities
  import opened Http
  import opened Dtos
  import RoleService
  import UserService

  const EMAIL_EXISTS: string := "Email already exists"
  const PHONE_EXISTS: string := "Phone number already exists"
  const ROLE_NOT_FOUND: string := "Role not found"
  const USER_NOT_FOUND: string := "User not found"

  /** The name of the role a user gets when the request names none. */
  const DEFAULT_ROLE: string := "USER"

  /** The binding result's field errors are exactly the violations of the
      create body. */
  ghost predicate ReportsCreate(errs: seq<FieldError>, d: UserDto, isEmail: string -> bool) {
    forall e :: e in errs <==> e in UserDtoViolations(d, isEmail)
  }

  /** The binding result's field errors are exactly the violations of the
      update body. */
  ghost predicate ReportsUpdate(errs: seq<FieldError>, d: UserUpdateDto, isEmail: string -> bool) {
    forall e :: e in errs <==> e in UserUpdateDtoViolations(d, isEmail)
  }

  /** The role a new user gets without a role_id: the "USER" role when one
      is stored, and no role otherwise. */
  function DefaultRole(roles: Table<Role>): (r: Option<int>)
    requires WellFormed(roles)
    ensures r.Some? <==> exists id :: id in roles.rows && roles.rows[id].roleName == DEFAULT_ROLE
    ensures r.Some? ==> r.value in roles.rows && roles.rows[r.value].roleName == DEFAULT_ROLE
  {
    var found := RoleService.GetRoleByName(roles, DEFAULT_ROLE);
    assert found.Some? <==> exists id :: id in roles.rows && roles.rows[id].roleName == DEFAULT_ROLE by {
      assert Taken(roles, RoleNameOf, DEFAULT_ROLE) <==> exists id :: id in roles.rows && roles.rows[id].roleName == DEFAULT_ROLE;
    }
    if found.Some? then Some(found.value.id) else None
  }

  /** The user `createUser` builds from a valid body, before `saveUser`
      encodes its password: the body's name, e-mail, password and phone,
      and the requested role or else the default one. */
  function NewUser(d: UserDto, roles: Table<Role>): (u: User)
    requires WellFormed(roles) && d.fullName.Some? && d.email.Some?
    ensures u.fullName == d.fullName.value && u.email == d.email.value
    ensures u.password == d.password && u.phoneNumber == d.phoneNumber
    ensures d.roleId.Some? ==> u.role == d.roleId
    ensures d.roleId.None? ==> u.role == DefaultRole(roles)
  {
    User(d.password, d.email.value, d.fullName.value, d.phoneNumber,
         if d.roleId.Some? then d.roleId else DefaultRole(roles))
  }

  /** `createUser` (POST /users). The checks run in this order, and each
      failure leaves the store unchanged: an invalid body (400), then the
      store checks of `CreateValidUser`. */
  method CreateUser(db: Database, d: UserDto, errs: seq<FieldError>, isEmail: string -> bool, encode: UserService.Encoder)
    returns (resp: Response<Row<User>>)
    requires db.Valid() && ReportsCreate(errs, d, isEmail)
    modifies db`users
    ensures db.Valid()
    ensures !ValidUserDto(d, isEmail) ==> resp == BindingErrors(errs) && db.users == old(db.users)
    ensures ValidUserDto(d, isEmail) ==> resp.status != BAD_REQUEST
  {
    if errs != [] {
      assert errs[0] in errs;
      return BindingErrors(errs);
    }
    assert forall e :: e !in UserDtoViolations(d, isEmail);
    assert UserDtoViolations(d, isEmail) == {};
    resp := CreateValidUser(db, d, encode);
  }

  /** The store checks of `createUser` on a valid body, in this order, each
      failure leaving the store unchanged: an e-mail in use (409), a phone
      number in use, checked only when one is given (409), an unknown
      role_id (404). Otherwise exactly one user is inserted, with its
      password encoded, and answered with 201. */
  method CreateValidUser(db: Database, d: UserDto, encode: UserService.Encoder) returns (resp: Response<Row<User>>)
    requires db.Valid() && d.fullName.Some? && d.email.Some?
    modifies db`users
    ensures db.Valid()
    ensures Unique(old(db.users), PhoneOf) ==> Unique(db.users, PhoneOf)
    ensures Taken(old(db.users), EmailOf, d.email.value) ==>
              resp == ErrorBody(CONFLICT, EMAIL_EXISTS) && db.users == old(db.users)
    ensures !Taken(old(db.users), EmailOf, d.email.value)
            && d.phoneNumber.Some? && Taken(old(db.users), PhoneOf, d.phoneNumber.value) ==>
              resp == ErrorBody(CONFLICT, PHONE_EXISTS) && db.users == old(db.users)
    ensures !Taken(old(db.users), EmailOf, d.email.value)
            && !(d.phoneNumber.Some? && Taken(old(db.users), PhoneOf, d.phoneNumber.value))
            && d.roleId.Some? && d.roleId.value !in db.roles.rows ==>
              resp == ErrorBody(NOT_FOUND, ROLE_NOT_FOUND) && db.users == old(db.users)
    ensures !Taken(old(db.users), EmailOf, d.email.value)
            && !(d.phoneNumber.Some? && Taken(old(db.users), PhoneOf, d.phoneNumber.value))
            && (d.roleId.Some? ==> d.roleId.value in db.roles.rows) ==>
              var u := NewUser(d, db.roles).(password := UserService.EncodePassword(d.password, encode));
              resp == Response(CREATED, Json(Row(old(db.users.next), u))) && db.users == Insert(old(db.users), u)
  {
    if UserService.ExistsByEmail(db.users, d.email.value) {
      return ErrorBody(CONFLICT, EMAIL_EXISTS);
    }
    if d.phoneNumber.Some? && UserService.ExistsByPhoneNumber(db.users, d.phoneNumber.value) {
      return ErrorBody(CONFLICT, PHONE_EXISTS);
    }
    if d.roleId.Some? && Find(db.roles, d.roleId.value).None? {
      return ErrorBody(NOT_FOUND, ROLE_NOT_FOUND);
    }
    var user := NewUser(d, db.roles);
    ghost var stored := user.(password := UserService.EncodePassword(d.password, encode));
    if Unique(db.users, PhoneOf) {
      InsertKeepsUnique(db.users, PhoneOf, stored);
    }
    var saved := UserService.SaveUser(db, None, user, encode);
    assert saved.Ok?;
    resp := Response(CREATED, Json(saved.value));
  }

  /** `getUserById` (GET /users/{user_id}): 200 with the user, or 404
      "User not found". */
  function GetUserById(t: Table<User>, id: int): (resp: Response<Row<User>>)
    ensures id in t.rows ==> resp == Response(OK, Json(Row(id, t.rows[id])))
    ensures id !in t.rows ==> resp == ErrorBody(NOT_FOUND, USER_NOT_FOUND)
  {
    var user := Find(t, id);
    if user.Some? then Response(OK, Json(Row(id, user.value))) else ErrorBody(NOT_FOUND, USER_NOT_FOUND)
  }

  /** The loaded user with the update body's non-null full_name and email
      set; phone_number and role_id of the body are ignored. */
  function Edited(user: User, d: UserUpdateDto): (r: User)
    ensures r.fullName == d.fullName.GetOr(user.fullName)
    ensures r.email == d.email.GetOr(user.email)
    ensures r.password == user.password && r.phoneNumber == user.phoneNumber && r.role == user.role
  {
    var u := if d.fullName.Some? then user.(fullName := d.fullName.value) else user;
    if d.email.Some? then u.(email := d.email.value) else u
  }

  /** The e-mail check of `updateUser`: the body gives an e-mail, it is not
      the user's own, and some user has it. */
  predicate EmailConflict(t: Table<User>, id: int, d: UserUpdateDto)
    requires id in t.rows
  {
    d.email.Some? && d.email.value != t.rows[id].email && UserService.ExistsByEmail(t, d.email.value)
  }

  /** Given unique e-mails, the check rejects exactly the e-mails another
      user holds; re-sending one's own e-mail is allowed. */
  lemma EmailConflictExact(t: Table<User>, id: int, d: UserUpdateDto)
    requires id in t.rows && Unique(t, EmailOf)
    ensures EmailConflict(t, id, d) <==> TakenByOther(t, EmailOf, Edited(t.rows[id], d).email, id)
  {
    var email := Edited(t.rows[id], d).email;
    if TakenByOther(t, EmailOf, email, id) {
      var j :| j in t.rows && j != id && EmailOf(t.rows[j]) == Some(email);
      assert EmailOf(t.rows[id]) != EmailOf(t.rows[j]);
      assert t.rows[j].email == email;
    }
    if EmailConflict(t, id, d) {
      var j :| j in t.rows && t.rows[j].email == d.email.value;
      assert EmailOf(t.rows[j]) == Some(email);
    }
  }

  /** The user the update path of the controller stores: `Edited`, then
      `saveUser`, which encodes the password the user already has. */
  function UpdatedAsWritten(user: User, d: UserUpdateDto, encode: UserService.Encoder): (r: User)
    ensures r == Edited(user, d).(password := UserService.EncodePassword(user.password, encode))
  {
    var edited := Edited(user, d);
    edited.(password := UserService.EncodePassword(edited.password, encode))
  }

  /** `updateUser` (PUT /users/{user_id}) as written. The checks run in this
      order, and each failure leaves the store unchanged: an invalid body
      (400), an absent id (404), an e-mail another user holds (409). Otherwise
      the user is edited and saved through `saveUser`, so the stored password
      is ENCODED AGAIN, and answered with 200. */
  method UpdateUser(db: Database, id: int, d: UserUpdateDto, errs: seq<FieldError>, isEmail: string -> bool,
                    encode: UserService.Encoder) returns (resp: Response<Row<User>>)
    requires db.Valid() && ReportsUpdate(errs, d, isEmail)
    modifies db`users
    ensures db.Valid()
    ensures !ValidUserUpdateDto(d, isEmail) ==> resp == BindingErrors(errs) && db.users == old(db.users)
    ensures ValidUserUpdateDto(d, isEmail) && id !in old(db.users.rows) ==>
              resp == ErrorBody(NOT_FOUND, USER_NOT_FOUND) && db.users == old(db.users)
    ensures ValidUserUpdateDto(d, isEmail) && id in old(db.users.rows) && EmailConflict(old(db.users), id, d) ==>
              resp == ErrorBody(CONFLICT, EMAIL_EXISTS) && db.users == old(db.users)
    ensures ValidUserUpdateDto(d, isEmail) && id in old(db.users.rows) && !EmailConflict(old(db.users), id, d) ==>
              var u := UpdatedAsWritten(old(db.users.rows[id]), d, encode);
              resp == Response(OK, Json(Row(id, u))) && db.users == Save(old(db.users), id, u)
  {
    if errs != [] {
      assert errs[0] in errs;
      return BindingErrors(errs);
    }
    assert forall e :: e !in UserUpdateDtoViolations(d, isEmail);
    assert UserUpdateDtoViolations(d, isEmail) == {};
    if Find(db.users, id).None? {
      return ErrorBody(NOT_FOUND, USER_NOT_FOUND);
    }
    if EmailConflict(db.users, id, d) {
      return ErrorBody(CONFLICT, EMAIL_EXISTS);
    }
    EmailConflictExact(db.users, id, d);
    var saved := UserService.SaveUser(db, Some(id), Edited(db.users.rows[id], d), encode);
    assert saved.Ok?;
    resp := Response(OK, Json(saved.value));
  }

  /** The double encoding makes the old password useless: with the encoder
      that prefixes "#", a user whose stored password is the encoding of
      "secret" no longer has that encoding stored after an update that only
      changes the name. */
  lemma UpdateRehashesPassword()
    ensures var encode := (s: string) => "#" + s;
            var before := User(Some(encode("secret")), "ann@example.com", "Ann", None, None);
            var after := UpdatedAsWritten(before, UserUpdateDto(Some("Anne"), None, None, None), encode);
            before.password == Some(encode("secret")) && after.password != Some(encode("secret"))
  {
    var encode := (s: string) => "#" + s;
    var after := UpdatedAsWritten(User(Some(encode("secret")), "ann@example.com", "Ann", None, None),
                                  UserUpdateDto(Some("Anne"), None, None, None), encode);
    assert encode("secret") == "#secret" && encode("#secret") == "##secret";
    assert "#secret" != "";
    assert after.password == Some("##secret");
    assert "##secret"[1] != "#secret"[1];
  }

  /** `updateUser` as evidently intended: the same checks, and the edited
      user is written back with the password it has, not re-encoded. */
  method UpdateUserKeepingHash(db: Database, id: int, d: UserUpdateDto, errs: seq<FieldError>, isEmail: string -> bool)
    returns (resp: Response<Row<User>>)
    requires db.Valid() && ReportsUpdate(errs, d, isEmail)
    modifies db`users
    ensures db.Valid()
    ensures !ValidUserUpdateDto(d, isEmail) ==> resp == BindingErrors(errs) && db.users == old(db.users)
    ensures ValidUserUpdateDto(d, isEmail) && id !in old(db.users.rows) ==>
              resp == ErrorBody(NOT_FOUND, USER_NOT_FOUND) && db.users == old(db.users)
    ensures ValidUserUpdateDto(d, isEmail) && id in old(db.users.rows) && EmailConflict(old(db.users), id, d) ==>
              resp == ErrorBody(CONFLICT, EMAIL_EXISTS) && db.users == old(db.users)
    ensures ValidUserUpdateDto(d, isEmail) && id in old(db.users.rows) && !EmailConflict(old(db.users), id, d) ==>
              var u := Edited(old(db.users.rows[id]), d);
              && resp == Response(OK, Json(Row(id, u))) && db.users == Save(old(db.users), id, u)
              && db.users.rows[id].password == old(db.users.rows[id].password)
  {
    if errs != [] {
      assert errs[0] in errs;
      return BindingErrors(errs);
    }
    assert forall e :: e !in UserUpdateDtoViolations(d, isEmail);
    assert UserUpdateDtoViolations(d, isEmail) == {};
    if Find(db.users, id).None? {
      return ErrorBody(NOT_FOUND, USER_NOT_FOUND);
    }
    if EmailConflict(db.users, id, d) {
      return ErrorBody(CONFLICT, EMAIL_EXISTS);
    }
    EmailConflictExact(db.users, id, d);
    var u := Edited(db.users.rows[id], d);
    SaveKeepsUnique(db.users, EmailOf, id, u);
    db.users := Save(db.users, id, u);
    resp := Response(OK, Json(Row(id, u)));
  }

  /** `deleteUser` (DELETE /users/{user_id}): 404 "User not found" for an
      absent id, with nothing removed; otherwise the user is removed, with 204. */
  method DeleteUser(db: Database, id: int) returns (resp: Response<()>)
    requires db.Valid()
    modifies db`users
    ensures db.Valid()
    ensures id !in old(db.users.rows) ==> resp == ErrorBody(NOT_FOUND, USER_NOT_FOUND) && db.users == old(db.users)
    ensures id in old(db.users.rows) ==> resp == Response(NO_CONTENT, NoBody) && db.users == Remove(old(db.users), id)
  {
    if Find(db.users, id).None? {
      return ErrorBody(NOT_FOUND, USER_NOT_FOUND);
    }
    var deleted := UserService.DeleteUser(db, id);
    assert deleted.Ok?;
    resp := Response(NO_CONTENT, NoBody);
  }
}
