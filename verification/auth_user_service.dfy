/** `AuthUserServiceImpl`: registration of a new user and the look-up by
    e-mail that authentication uses. The password encoder is a parameter. */
module AuthUserService {
  import opened Base
  import opened Tables
  import opened Entities
  import opened Dtos
  import opened UserValidation
  import RoleService
  import UserService

  /** The role every registered user gets. */
  const USER_ROLE: string := "USER"

  /** `findByEmail`: the first listed user with that e-mail, or null. On a
      table with unique e-mails it is THE user with that e-mail. */
  function FindByEmail(t: Table<User>, email: string): (r: Option<Row<User>>)
    requires WellFormed(t)
    ensures r.Some? <==> exists id :: id in t.rows && t.rows[id].email == email
    ensures r.Some? ==> r.value.id in t.rows && t.rows[r.value.id] == r.value.value && r.value.value.email == email
    ensures forall id :: Unique(t, EmailOf) && id in t.rows && t.rows[id].email == email ==>
              r == Some(Row(id, t.rows[id]))
  {
    FindByExact(t, EmailOf, email, 0);
    assert Taken(t, EmailOf, email) <==> exists id :: id in t.rows && t.rows[id].email == email;
    assert forall id :: Unique(t, EmailOf) && id in t.rows && t.rows[id].email == email ==>
             FindBy(t, EmailOf, email) == Some(Row(id, t.rows[id])) by {
      forall id | Unique(t, EmailOf) && id in t.rows && t.rows[id].email == email
        ensures FindBy(t, EmailOf, email) == Some(Row(id, t.rows[id]))
      {
        FindByExact(t, EmailOf, email, id);
      }
    }
    FindBy(t, EmailOf, email)
  }

  /** The user the registration mapper builds: the request's e-mail, name
      and password, no phone number and no role yet. */
  function ConvertToUser(req: RegistrationRequest): (u: User)
    ensures u.email == req.email && u.fullName == req.fullName && u.password == Some(req.password)
    ensures u.phoneNumber.None? && u.role.None?
  {
    User(Some(req.password), req.email, req.fullName, None, None)
  }

  /** `registration`. A request whose e-mail is in use is rejected before
      anything is written. Otherwise the password is encoded, the "USER"
      role is reused when it is stored and created (exactly once) when it is
      not, and exactly one user, holding that role, is inserted. */
  method Registration(db: Database, req: RegistrationRequest, encode: UserService.Encoder) returns (r: Result<()>)
    requires db.Valid()
    modifies db`users, db`roles
    ensures db.Valid()
    ensures Taken(old(db.users), EmailOf, req.email) ==>
              r == Err(Error.Registration(EMAIL_ALREADY_EXISTS)) && db.users == old(db.users) && db.roles == old(db.roles)
    ensures !Taken(old(db.users), EmailOf, req.email) && Taken(old(db.roles), RoleNameOf, USER_ROLE) ==>
              var role := RoleService.GetRoleByName(old(db.roles), USER_ROLE).value.id;
              && r == Ok(())
              && db.roles == old(db.roles)
              && db.users == Insert(old(db.users), ConvertToUser(req).(password := Some(encode(req.password)), role := Some(role)))
    ensures !Taken(old(db.users), EmailOf, req.email) && !Taken(old(db.roles), RoleNameOf, USER_ROLE) ==>
              && r == Ok(())
              && db.roles == Insert(old(db.roles), Role(USER_ROLE))
              && db.users == Insert(old(db.users), ConvertToUser(req).(password := Some(encode(req.password)),
                                                                       role := Some(old(db.roles.next))))
  {
    var valid := ValidateUser(db.users, req);
    if valid.Err? {
      return Err(valid.error);
    }
    var user := ConvertToUser(req);
    user := user.(password := Some(encode(user.password.value)));
    var userRole := RoleService.GetRoleByName(db.roles, USER_ROLE);
    if userRole.None? {
      var saved := RoleService.SaveRole(db, Role(USER_ROLE));
      assert saved.Ok?;
      user := user.(role := Some(saved.value.id));
    } else {
      user := user.(role := Some(userRole.value.id));
    }
    InsertKeepsUnique(db.users, EmailOf, user);
    db.users := Insert(db.users, user);
    r := Ok(());
  }

  /** After a registration, the e-mail of the request finds the new user,
      whose role is named "USER" and whose password is the encoded one. */
  lemma RegisteredUserFound(users: Table<User>, roles: Table<Role>, req: RegistrationRequest, encode: UserService.Encoder, role: int)
    requires WellFormed(users) && Unique(users, EmailOf) && !Taken(users, EmailOf, req.email)
    requires role in roles.rows && roles.rows[role].roleName == USER_ROLE
    ensures var u := ConvertToUser(req).(password := Some(encode(req.password)), role := Some(role));
            var after := Insert(users, u);
            && FindByEmail(after, req.email) == Some(Row(users.next, u))
            && RoleName(roles, FindByEmail(after, req.email).value.value.role) == Some(USER_ROLE)
  {
    var u := ConvertToUser(req).(password := Some(encode(req.password)), role := Some(role));
    InsertKeepsUnique(users, EmailOf, u);
    var after := Insert(users, u);
    assert users.next in after.rows && after.rows[users.next].email == req.email;
  }
}
