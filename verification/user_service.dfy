/** `UserServiceImpl`: the user table behind its repository, and the password
    encoding `saveUser` applies. The password encoder is a parameter: any
    function from a raw password to its encoding. The e-mail column is
    unique, so the database itself rejects a save that would give two users
    the same address. */
module UserService {
  import opened Base
  import opened Tables
  import opened Entities

  /** `PasswordEncoder.encode`. */
  type Encoder = string -> string

  /** The column named by the database's rejection of a duplicate e-mail. */
  const EMAIL_COLUMN: string := "email"

  /** The fields of the `userDetails` argument of `updateUser`; each may be null. */
  datatype UserPatch = UserPatch(
    fullName: Option<string>,
    email: Option<string>,
    phoneNumber: Option<string>,
    password: Option<string>,
    role: Option<int>)

  /** The password `saveUser` stores: a non-null, non-empty password is
      replaced by its encoding, a null or empty one is stored as it is. */
  function EncodePassword(password: Option<string>, encode: Encoder): (r: Option<string>)
    ensures Given(password) ==> r == Some(encode(password.value))
    ensures !Given(password) ==> r == password
  {
    if password.Some? && password.value != "" then Some(encode(password.value)) else password
  }

  /** `existsByEmail`. */
  function ExistsByEmail(t: Table<User>, email: string): (r: bool)
    ensures r <==> exists id :: id in t.rows && t.rows[id].email == email
  {
    assert Taken(t, EmailOf, email) <==> exists id :: id in t.rows && t.rows[id].email == email;
    Taken(t, EmailOf, email)
  }

  /** `existsByPhoneNumber`; a user without a phone number never matches. */
  function ExistsByPhoneNumber(t: Table<User>, phone: string): (r: bool)
    ensures r <==> exists id :: id in t.rows && t.rows[id].phoneNumber == Some(phone)
  {
    Taken(t, PhoneOf, phone)
  }

  /** `saveUser`. The password is encoded as `EncodePassword` says, whatever
      it holds, then the user is saved: a user without an id, or with an id
      that is no longer stored, is inserted under a new id; a stored id is
      overwritten. An e-mail another user holds is rejected by the database. */
  method SaveUser(db: Database, id: Option<int>, user: User, encode: Encoder) returns (r: Result<Row<User>>)
    requires db.Valid()
    modifies db`users
    ensures db.Valid()
    ensures var stored := user.(password := EncodePassword(user.password, encode));
            if id.Some? && id.value in old(db.users.rows) then
              && (TakenByOther(old(db.users), EmailOf, user.email, id.value) ==>
                    r == Err(UniqueViolation(EMAIL_COLUMN)) && db.users == old(db.users))
              && (!TakenByOther(old(db.users), EmailOf, user.email, id.value) ==>
                    r == Ok(Row(id.value, stored)) && db.users == Save(old(db.users), id.value, stored))
            else
              && (Taken(old(db.users), EmailOf, user.email) ==>
                    r == Err(UniqueViolation(EMAIL_COLUMN)) && db.users == old(db.users))
              && (!Taken(old(db.users), EmailOf, user.email) ==>
                    r == Ok(Row(old(db.users.next), stored)) && db.users == Insert(old(db.users), stored))
  {
    var stored := user.(password := EncodePassword(user.password, encode));
    if id.Some? && id.value in db.users.rows {
      if TakenByOther(db.users, EmailOf, user.email, id.value) {
        return Err(UniqueViolation(EMAIL_COLUMN));
      }
      SaveKeepsUnique(db.users, EmailOf, id.value, stored);
      db.users := Save(db.users, id.value, stored);
      r := Ok(Row(id.value, stored));
    } else {
      if Taken(db.users, EmailOf, user.email) {
        return Err(UniqueViolation(EMAIL_COLUMN));
      }
      InsertKeepsUnique(db.users, EmailOf, stored);
      r := Ok(Row(db.users.next, stored));
      db.users := Insert(db.users, stored);
    }
  }

  /** `saveUser` does not know whether the password it is given is raw or
      already encoded: saving a loaded user a second time stores the
      encoding of the stored encoding. */
  lemma SaveEncodesStoredHash(user: User, encode: Encoder)
    requires Given(user.password)
    ensures EncodePassword(user.password, encode) == Some(encode(user.password.value))
    ensures Given(EncodePassword(user.password, encode)) ==>
              EncodePassword(EncodePassword(user.password, encode), encode) == Some(encode(encode(user.password.value)))
  {
  }

  /** The loaded user after `updateUser` sets the non-null fields of the
      patch: the name, e-mail, phone number and role are overwritten exactly
      when the patch gives them, and the password is replaced by the
      encoding of a non-empty patch password. */
  function Patched(user: User, p: UserPatch, encode: Encoder): (r: User)
    ensures r.fullName == p.fullName.GetOr(user.fullName)
    ensures r.email == p.email.GetOr(user.email)
    ensures r.phoneNumber == (if p.phoneNumber.Some? then p.phoneNumber else user.phoneNumber)
    ensures r.role == (if p.role.Some? then p.role else user.role)
    ensures r.password == (if Given(p.password) then Some(encode(p.password.value)) else user.password)
  {
    var u1 := if p.fullName.Some? then user.(fullName := p.fullName.value) else user;
    var u2 := if p.email.Some? then u1.(email := p.email.value) else u1;
    var u3 := if p.phoneNumber.Some? then u2.(phoneNumber := p.phoneNumber) else u2;
    var u4 := if Given(p.password) then u3.(password := Some(encode(p.password.value))) else u3;
    if p.role.Some? then u4.(role := p.role) else u4
  }

  /** A patch of nulls changes nothing, and applying the same patch twice is
      applying it once: the password is encoded from the patch's raw
      password, never from the stored one. */
  lemma PatchedProperties(user: User, p: UserPatch, encode: Encoder)
    ensures Patched(user, UserPatch(None, None, None, None, None), encode) == user
    ensures Patched(Patched(user, p, encode), p, encode) == Patched(user, p, encode)
  {
  }

  /** `updateUser`. An absent id gives empty and writes nothing. Otherwise
      the loaded user is patched and saved through the repository (not
      through `saveUser`), under its own id; an e-mail another user holds is
      rejected by the database. */
  method UpdateUser(db: Database, id: int, p: UserPatch, encode: Encoder) returns (r: Result<Option<Row<User>>>)
    requires db.Valid()
    modifies db`users
    ensures db.Valid()
    ensures id !in old(db.users.rows) ==> r == Ok(None) && db.users == old(db.users)
    ensures id in old(db.users.rows) ==>
              var updated := Patched(old(db.users.rows[id]), p, encode);
              && (TakenByOther(old(db.users), EmailOf, updated.email, id) ==>
                    r == Err(UniqueViolation(EMAIL_COLUMN)) && db.users == old(db.users))
              && (!TakenByOther(old(db.users), EmailOf, updated.email, id) ==>
                    r == Ok(Some(Row(id, updated))) && db.users == Save(old(db.users), id, updated))
  {
    if id !in db.users.rows {
      return Ok(None);
    }
    var updated := Patched(db.users.rows[id], p, encode);
    if TakenByOther(db.users, EmailOf, updated.email, id) {
      return Err(UniqueViolation(EMAIL_COLUMN));
    }
    SaveKeepsUnique(db.users, EmailOf, id, updated);
    db.users := Save(db.users, id, updated);
    r := Ok(Some(Row(id, updated)));
  }

  /** `deleteUser`: a plain `deleteById`, with no existence check of its
      own. The repository raises EmptyResultDataAccessException for an
      absent id; otherwise exactly that row is removed. */
  method DeleteUser(db: Database, id: int) returns (r: Result<()>)
    requires db.Valid()
    modifies db`users
    ensures db.Valid()
    ensures id !in old(db.users.rows) ==>
              r == Err(EmptyResult(NoEntityText("User", id))) && db.users == old(db.users)
    ensures id in old(db.users.rows) ==> r == Ok(()) && db.users == Remove(old(db.users), id)
  {
    if id !in db.users.rows {
      return Err(EmptyResult(NoEntityText("User", id)));
    }
    RemoveKeepsUnique(db.users, EmailOf, id);
    db.users := Remove(db.users, id);
    r := Ok(());
  }
}
