/** `UserDetailsServiceImpl`: the principal Spring Security authenticates a
    login against, loaded by e-mail. */
module UserDetailsService {
  import opened Base
  import opened Tables
  import opened Entities
  import opened Dtos
  import opened AuthUserService

  /** The one message for an unknown e-mail, whatever the e-mail. */
  const EMAIL_OR_PASSWORD_INVALID: string := "Invalid email or password."

  /** The text of the IllegalArgumentException Spring Security's `User`
      constructor raises for an empty username or a null password. */
  const NULL_OR_EMPTY_VALUES: string := "Cannot pass null or empty values to constructor"

  /** The text of the IllegalArgumentException `SimpleGrantedAuthority`
      raises for an authority without text. */
  const AUTHORITY_TEXT_REQUIRED: string := "A granted authority textual representation is required"

  /** Java's `Character.isWhitespace`: the space, line and paragraph
      separators other than the no-break spaces U+00A0, U+2007 and U+202F,
      and the controls U+0009 to U+000D and U+001C to U+001F. */
  predicate JavaWhitespace(c: char) {
    || '\U{0009}' <= c <= '\U{000D}' || '\U{001C}' <= c <= '\U{0020}'
    || c == '\U{1680}' || '\U{2000}' <= c <= '\U{2006}' || '\U{2008}' <= c <= '\U{200A}'
    || c == '\U{2028}' || c == '\U{2029}' || c == '\U{205F}' || c == '\U{3000}'
  }

  /** Spring's `StringUtils.hasText`: some character is not whitespace. */
  predicate HasText(s: string) {
    exists i :: 0 <= i < |s| && !JavaWhitespace(s[i])
  }

  /** Spring Security's `User`: a username, a password and the granted
      authorities. */
  datatype Principal = Principal(username: string, password: string, authorities: seq<string>)

  /** `loadUserByUsername`. An unknown e-mail raises UsernameNotFoundException
      with the fixed message. A user without a role fails when the role name
      is read, a role name with no text is refused by `SimpleGrantedAuthority`,
      and a user with an empty e-mail or a null password is refused by the
      principal's constructor. Otherwise the principal carries the
      stored e-mail, the stored (encoded) password and exactly one authority,
      the role's name. */
  function LoadUserByUsername(users: Table<User>, roles: Table<Role>, email: string): (r: Result<Principal>)
    requires WellFormed(users)
    ensures FindByEmail(users, email).None? <==> r == Err(UsernameNotFound(EMAIL_OR_PASSWORD_INVALID))
    ensures FindByEmail(users, email).Some? ==>
              var u := FindByEmail(users, email).value.value;
              && (RoleName(roles, u.role).None? ==> r.Err? && r.error.NullReference?)
              && (RoleName(roles, u.role).Some? && !HasText(RoleName(roles, u.role).value) ==>
                    r == Err(IllegalArgument(AUTHORITY_TEXT_REQUIRED)))
              && (RoleName(roles, u.role).Some? && HasText(RoleName(roles, u.role).value)
                  && (u.email == "" || u.password.None?) ==>
                    r == Err(IllegalArgument(NULL_OR_EMPTY_VALUES)))
              && (r.Ok? ==> r.value == Principal(u.email, u.password.value, [RoleName(roles, u.role).value]))
    ensures r.Ok? ==> |r.value.authorities| == 1 && HasText(r.value.authorities[0]) && r.value.username == email
  {
    var found := FindByEmail(users, email);
    if found.None? then Err(UsernameNotFound(EMAIL_OR_PASSWORD_INVALID))
    else
      var u := found.value.value;
      var roleName := RoleName(roles, u.role);
      if roleName.None? then Err(NullReference("role"))
      else if !HasText(roleName.value) then Err(IllegalArgument(AUTHORITY_TEXT_REQUIRED))
      else if u.email == "" || u.password.None? then Err(IllegalArgument(NULL_OR_EMPTY_VALUES))
      else Ok(Principal(u.email, u.password.value, [roleName.value]))
  }

  /** A registered user, who has the "USER" role and an encoded password,
      loads as a principal with the one authority "USER". */
  lemma RegisteredUserLoads(users: Table<User>, roles: Table<Role>, id: int)
    requires WellFormed(users) && Unique(users, EmailOf) && id in users.rows
    requires users.rows[id].email != "" && users.rows[id].password.Some?
    requires users.rows[id].role.Some? && users.rows[id].role.value in roles.rows
    requires roles.rows[users.rows[id].role.value].roleName == USER_ROLE
    ensures LoadUserByUsername(users, roles, users.rows[id].email)
            == Ok(Principal(users.rows[id].email, users.rows[id].password.value, [USER_ROLE]))
  {
    assert FindByEmail(users, users.rows[id].email) == Some(Row(id, users.rows[id]));
    assert !JavaWhitespace(USER_ROLE[0]);
  }

  /** `@NotBlank` trims only characters up to U+0020, so a role name of two
      em spaces (U+2003) passes the role body's checks and can be stored;
      a user holding that role cannot be loaded. */
  lemma WideSpaceRoleRefused(users: Table<User>, roles: Table<Role>, id: int)
    requires WellFormed(users) && Unique(users, EmailOf) && id in users.rows
    requires users.rows[id].role.Some? && users.rows[id].role.value in roles.rows
    requires roles.rows[users.rows[id].role.value].roleName == "\U{2003}\U{2003}"
    ensures ValidRoleDto(RoleDto(Some("\U{2003}\U{2003}")))
    ensures LoadUserByUsername(users, roles, users.rows[id].email) == Err(IllegalArgument(AUTHORITY_TEXT_REQUIRED))
  {
    assert FindByEmail(users, users.rows[id].email) == Some(Row(id, users.rows[id]));
    assert Utf16Length("\U{2003}\U{2003}") == 2;
  }
}
