/** `RoleController` (`/roles`). Each handler that takes a body checks its
    `BindingResult` first and answers 400 with a field-to-message map, then
    checks the store and answers with a `{"error": ...}` map or with the
    role. */
module RoleController {
  import opened Base
  import opened Tables
  import opened Entities
  import opened Http
  import opened Dtos
  import RoleService

  const ROLE_EXISTS: string := "Role with this name already exists"
  const ROLE_NOT_FOUND: string := "Role not found"
  const ANOTHER_ROLE_EXISTS: string := "Another role with this name already exists"

  /** The binding result's field errors are exactly the body's violations,
      in the validator's order. */
  ghost predicate Reports(errs: seq<FieldError>, d: RoleDto) {
    forall e :: e in errs <==> e in RoleDtoViolations(d)
  }

  /** An invalid role body is answered with a map whose only key is
      "role_name", holding one of the two messages of that field. */
  lemma BindingErrorsOnRoleName(d: RoleDto, errs: seq<FieldError>)
    requires Reports(errs, d) && !ValidRoleDto(d)
    ensures FieldErrorMap(errs).Keys == {"role_name"}
    ensures FieldErrorMap(errs)["role_name"] in {"Role name is required", "Role name must be between 2 and 50 characters"}
  {
    assert RoleDtoViolations(d) != {};
    var e :| e in RoleDtoViolations(d);
    assert e in errs;
    var m := FieldErrorMap(errs);
    assert "role_name" in m;
    assert FieldError("role_name", m["role_name"]) in RoleDtoViolations(d);
  }

  /** The stream `getAllRoles().filter(name equal, id different).findFirst()`:
      the first listed role with that name and another id. */
  function SameNameElsewhere(t: Table<Role>, name: string, id: int): (r: Option<Row<Role>>)
    requires WellFormed(t)
    ensures r.Some? <==> TakenByOther(t, RoleNameOf, name, id)
    ensures r.Some? ==> r.value.id != id && r.value.id in t.rows && r.value.value.roleName == name
  {
    var hits := Where(RoleService.GetAllRoles(t), (row: Row<Role>) => row.value.roleName == name && row.id != id);
    assert TakenByOther(t, RoleNameOf, name, id) ==> hits != [] by {
      if TakenByOther(t, RoleNameOf, name, id) {
        var k :| k in t.rows && k != id && RoleNameOf(t.rows[k]) == Some(name);
        assert Row(k, t.rows[k]) in hits;
      }
    }
    if hits == [] then None else assert hits[0] in hits; Some(hits[0])
  }

  /** `createRole` (POST /roles): 400 for an invalid body and 409 for a
      name in use, both without touching the table; otherwise the role is
      saved and answered with 201. */
  method CreateRole(db: Database, d: RoleDto, errs: seq<FieldError>) returns (resp: Response<Row<Role>>)
    requires db.Valid() && Reports(errs, d)
    modifies db`roles
    ensures db.Valid()
    ensures !ValidRoleDto(d) ==> resp == BindingErrors(errs) && db.roles == old(db.roles)
    ensures ValidRoleDto(d) && Taken(old(db.roles), RoleNameOf, d.roleName.value) ==>
              resp == ErrorBody(CONFLICT, ROLE_EXISTS) && db.roles == old(db.roles)
    ensures ValidRoleDto(d) && !Taken(old(db.roles), RoleNameOf, d.roleName.value) ==>
              var role := Role(d.roleName.value);
              resp == Response(CREATED, Json(Row(old(db.roles.next), role))) && db.roles == Insert(old(db.roles), role)
  {
    if errs != [] {
      assert errs[0] in errs;
      return BindingErrors(errs);
    }
    assert forall e :: e !in RoleDtoViolations(d);
    assert RoleDtoViolations(d) == {};
    var roleName := d.roleName.value;
    if RoleService.RoleNameExists(db.roles, roleName) {
      return ErrorBody(CONFLICT, ROLE_EXISTS);
    }
    var saved := RoleService.SaveRole(db, Role(roleName));
    assert saved.Ok?;
    resp := Response(CREATED, Json(saved.value));
  }

  /** `getRoleById` (GET /roles/{role_id}): 200 with the role, or 404
      "Role not found". */
  function GetRoleById(t: Table<Role>, id: int): (resp: Response<Row<Role>>)
    ensures id in t.rows ==> resp == Response(OK, Json(Row(id, t.rows[id])))
    ensures id !in t.rows ==> resp == ErrorBody(NOT_FOUND, ROLE_NOT_FOUND)
  {
    var role := Find(t, id);
    if role.Some? then Response(OK, Json(Row(id, role.value))) else ErrorBody(NOT_FOUND, ROLE_NOT_FOUND)
  }

  /** `updateRole` (PUT /roles/{role_id}): 400 for an invalid body, then
      404 for an absent id, then 409 when ANOTHER role has the name; none
      of these touches the table. Keeping a role's own name is allowed.
      Otherwise the role gets the new name under the same id, with 200. */
  method UpdateRole(db: Database, id: int, d: RoleDto, errs: seq<FieldError>) returns (resp: Response<Row<Role>>)
    requires db.Valid() && Reports(errs, d)
    modifies db`roles
    ensures db.Valid()
    ensures !ValidRoleDto(d) ==> resp == BindingErrors(errs) && db.roles == old(db.roles)
    ensures ValidRoleDto(d) && id !in old(db.roles.rows) ==>
              resp == ErrorBody(NOT_FOUND, ROLE_NOT_FOUND) && db.roles == old(db.roles)
    ensures ValidRoleDto(d) && id in old(db.roles.rows) && TakenByOther(old(db.roles), RoleNameOf, d.roleName.value, id) ==>
              resp == ErrorBody(CONFLICT, ANOTHER_ROLE_EXISTS) && db.roles == old(db.roles)
    ensures ValidRoleDto(d) && id in old(db.roles.rows) && !TakenByOther(old(db.roles), RoleNameOf, d.roleName.value, id) ==>
              var role := Role(d.roleName.value);
              resp == Response(OK, Json(Row(id, role))) && db.roles == Save(old(db.roles), id, role)
  {
    if errs != [] {
      assert errs[0] in errs;
      return BindingErrors(errs);
    }
    assert forall e :: e !in RoleDtoViolations(d);
    assert RoleDtoViolations(d) == {};
    var roleName := d.roleName.value;
    if Find(db.roles, id).None? {
      return ErrorBody(NOT_FOUND, ROLE_NOT_FOUND);
    }
    if SameNameElsewhere(db.roles, roleName, id).Some? {
      return ErrorBody(CONFLICT, ANOTHER_ROLE_EXISTS);
    }
    var updated := RoleService.UpdateRole(db, id, Role(roleName));
    assert updated.Ok? && updated.value.Some?;
    resp := Response(OK, Json(updated.value.value));
  }

  /** A role can always be renamed to the name it already has. */
  lemma RenameToOwnNameAllowed(t: Table<Role>, id: int)
    requires Unique(t, RoleNameOf) && id in t.rows
    ensures !TakenByOther(t, RoleNameOf, t.rows[id].roleName, id)
  {
    forall k | k in t.rows && k != id
      ensures RoleNameOf(t.rows[k]) != Some(t.rows[id].roleName)
    {
      assert RoleNameOf(t.rows[id]) != RoleNameOf(t.rows[k]);
    }
  }

  /** `deleteRole` (DELETE /roles/{role_id}): 404 "Role not found" for an
      absent id, with nothing removed; otherwise the role is removed, with 204. */
  method DeleteRole(db: Database, id: int) returns (resp: Response<()>)
    requires db.Valid()
    modifies db`roles
    ensures db.Valid()
    ensures id !in old(db.roles.rows) ==> resp == ErrorBody(NOT_FOUND, ROLE_NOT_FOUND) && db.roles == old(db.roles)
    ensures id in old(db.roles.rows) ==> resp == Response(NO_CONTENT, NoBody) && db.roles == Remove(old(db.roles), id)
  {
    if Find(db.roles, id).None? {
      return ErrorBody(NOT_FOUND, ROLE_NOT_FOUND);
    }
    var deleted := RoleService.DeleteRole(db, id);
    assert deleted.Ok?;
    resp := Response(NO_CONTENT, NoBody);
  }
}
