/** `RoleServiceImpl`: the role table behind its repository. The role name is
    a unique column, so the database itself rejects a save that would give
    two roles the same name. */
module RoleService {
  import opened Base
  import opened Tables
  import opened Entities

  /** The column named by the database's rejection of a duplicate role name. */
  const ROLE_NAME_COLUMN: string := "role_name"

  /** `getAllRoles`: every stored role, once, in increasing id order. */
  function GetAllRoles(t: Table<Role>): (r: seq<Row<Role>>)
    requires WellFormed(t)
    ensures |r| == |t.rows|
    ensures forall k, v :: Row(k, v) in r <==> k in t.rows && t.rows[k] == v
    ensures forall i, j :: 0 <= i < j < |r| ==> r[i].id < r[j].id
  {
    EntriesCount(t);
    assert forall k, v :: Row(k, v) in Entries(t) <==> k in t.rows && t.rows[k] == v by {
      forall k, v
        ensures Row(k, v) in Entries(t) <==> k in t.rows && t.rows[k] == v
      {
        EntriesExact(t, k, v);
      }
    }
    Entries(t)
  }

  /** `getRoleByName`: the first listed role with that name. On a table with
      unique names it is THE role with that name. */
  function GetRoleByName(t: Table<Role>, name: string): (r: Option<Row<Role>>)
    requires WellFormed(t)
    ensures r.Some? <==> Taken(t, RoleNameOf, name)
    ensures r.Some? ==> r.value.id in t.rows && t.rows[r.value.id] == r.value.value && r.value.value.roleName == name
    ensures forall id :: Unique(t, RoleNameOf) && id in t.rows && t.rows[id].roleName == name ==>
              r == Some(Row(id, t.rows[id]))
  {
    FindByExact(t, RoleNameOf, name, 0);
    assert forall id :: Unique(t, RoleNameOf) && id in t.rows && t.rows[id].roleName == name ==>
             FindBy(t, RoleNameOf, name) == Some(Row(id, t.rows[id])) by {
      forall id | Unique(t, RoleNameOf) && id in t.rows && t.rows[id].roleName == name
        ensures FindBy(t, RoleNameOf, name) == Some(Row(id, t.rows[id]))
      {
        FindByExact(t, RoleNameOf, name, id);
      }
    }
    FindBy(t, RoleNameOf, name)
  }

  /** `roleNameExists`: whether `getRoleByName` finds a role, which is
      whether some stored role has that name. */
  function RoleNameExists(t: Table<Role>, name: string): (r: bool)
    requires WellFormed(t)
    ensures r <==> GetRoleByName(t, name).Some?
    ensures r <==> exists id :: id in t.rows && t.rows[id].roleName == name
  {
    var found := GetRoleByName(t, name);
    assert Taken(t, RoleNameOf, name) <==> exists id :: id in t.rows && t.rows[id].roleName == name;
    found.Some?
  }

  /** `saveRole` of a new role: it is stored under the next id, unless its
      name is already taken, which the database rejects. */
  method SaveRole(db: Database, role: Role) returns (r: Result<Row<Role>>)
    requires db.Valid()
    modifies db`roles
    ensures db.Valid()
    ensures Taken(old(db.roles), RoleNameOf, role.roleName) ==>
              r == Err(UniqueViolation(ROLE_NAME_COLUMN)) && db.roles == old(db.roles)
    ensures !Taken(old(db.roles), RoleNameOf, role.roleName) ==>
              r == Ok(Row(old(db.roles.next), role)) && db.roles == Insert(old(db.roles), role)
  {
    if Taken(db.roles, RoleNameOf, role.roleName) {
      return Err(UniqueViolation(ROLE_NAME_COLUMN));
    }
    InsertKeepsUnique(db.roles, RoleNameOf, role);
    r := Ok(Row(db.roles.next, role));
    db.roles := Insert(db.roles, role);
  }

  /** `updateRole`. An absent id gives empty and writes nothing. Otherwise
      only the loaded role's name is set, to the name of `details`, and the
      role is saved under its own id; a name another role holds is rejected
      by the database. */
  method UpdateRole(db: Database, id: int, details: Role) returns (r: Result<Option<Row<Role>>>)
    requires db.Valid()
    modifies db`roles
    ensures db.Valid()
    ensures id !in old(db.roles.rows) ==> r == Ok(None) && db.roles == old(db.roles)
    ensures id in old(db.roles.rows) && TakenByOther(old(db.roles), RoleNameOf, details.roleName, id) ==>
              r == Err(UniqueViolation(ROLE_NAME_COLUMN)) && db.roles == old(db.roles)
    ensures id in old(db.roles.rows) && !TakenByOther(old(db.roles), RoleNameOf, details.roleName, id) ==>
              var updated := old(db.roles.rows[id]).(roleName := details.roleName);
              r == Ok(Some(Row(id, updated))) && db.roles == Save(old(db.roles), id, updated)
  {
    if id !in db.roles.rows {
      return Ok(None);
    }
    var updated := db.roles.rows[id].(roleName := details.roleName);
    if TakenByOther(db.roles, RoleNameOf, updated.roleName, id) {
      return Err(UniqueViolation(ROLE_NAME_COLUMN));
    }
    SaveKeepsUnique(db.roles, RoleNameOf, id, updated);
    db.roles := Save(db.roles, id, updated);
    r := Ok(Some(Row(id, updated)));
  }

  /** `deleteRole`: a plain `deleteById`, with no existence check of its
      own. The repository raises EmptyResultDataAccessException for an
      absent id; otherwise exactly that row is removed. */
  method DeleteRole(db: Database, id: int) returns (r: Result<()>)
    requires db.Valid()
    modifies db`roles
    ensures db.Valid()
    ensures id !in old(db.roles.rows) ==>
              r == Err(EmptyResult(NoEntityText("Role", id))) && db.roles == old(db.roles)
    ensures id in old(db.roles.rows) ==> r == Ok(()) && db.roles == Remove(old(db.roles), id)
  {
    if id !in db.roles.rows {
      return Err(EmptyResult(NoEntityText("Role", id)));
    }
    RemoveKeepsUnique(db.roles, RoleNameOf, id);
    db.roles := Remove(db.roles, id);
    r := Ok(());
  }
}
