/**
 * RoleMapper: the SQL statements on roles and role_permissions, with the
 * roleResultMap that loads a role's permissions through getPermissionsByRoleId.
 */
module RoleMapper {
  import opened Wrappers
  import opened Failures
  import opened Tables

  /** The role name the listing query leaves out. */
  const ROOT_ROLE_NAME: string := "ROOT"

  /** getPermissionsByRoleId: id, name and description of every permission linked to the role. */
  function PermissionsOfRole(s: DbState, roleId: int): (perms: seq<Permission>)
    ensures var rows := PermissionRowsFor(s.rolePermissions, s.permissions, roleId);
            |perms| == |rows| && forall i :: 0 <= i < |rows| ==> perms[i] == Permission(rows[i].id, rows[i].name, rows[i].description)
  {
    var rows := PermissionRowsFor(s.rolePermissions, s.permissions, roleId);
    seq(|rows|, i requires 0 <= i < |rows| => Permission(rows[i].id, rows[i].name, rows[i].description))
  }

  /** roleResultMap applied to a stored row. */
  function RoleOf(s: DbState, row: RoleRow): Role {
    Role(row.id, row.name, row.description, Some(row.accountId), PermissionsOfRole(s, row.id))
  }

  function RolesOf(s: DbState, rows: seq<RoleRow>): (roles: seq<Role>)
    ensures |roles| == |rows| && forall i :: 0 <= i < |rows| ==> roles[i] == RoleOf(s, rows[i])
  {
    seq(|rows|, i requires 0 <= i < |rows| => RoleOf(s, rows[i]))
  }

  /** selectOne over a role query, mapped through roleResultMap. */
  function SelectRole(s: DbState, rows: seq<RoleRow>): (r: Result<Option<Role>, Error>)
    ensures r.Failure? <==> |rows| > 1
    ensures r.Failure? ==> r.error == SqlError
    ensures r == Success(None) <==> rows == []
    ensures r.Success? && r.value.Some? ==> |rows| == 1 && r.value.value == RoleOf(s, rows[0])
  {
    match SelectOne(rows)
    case Failure(e) => Failure(e)
    case Success(None) => Success(None)
    case Success(Some(row)) => Success(Some(RoleOf(s, row)))
  }

  /** `SELECT * FROM roles WHERE id = ? AND account_id = ?`. */
  function FindByAccountIdAndId(s: DbState, id: int, accountId: int): (r: Result<Option<Role>, Error>)
    ensures r.Success? && r.value.Some? ==>
              r.value.value.id == id && r.value.value.accountId == Some(accountId)
              && RoleRow(id, r.value.value.name, r.value.value.description, accountId) in s.roles
    ensures r.Success? && r.value.Some? ==>
              exists row :: row in s.roles && row.id == id && row.accountId == accountId && r.value.value == RoleOf(s, row)
    ensures r == Success(None) <==> forall row :: row in s.roles ==> !(row.id == id && row.accountId == accountId)
  {
    var rows := Where(s.roles, (row: RoleRow) => row.id == id && row.accountId == accountId);
    assert rows != [] ==> rows[0] in rows;
    SelectRole(s, rows)
  }

  /** `SELECT * FROM roles WHERE account_id = ? AND name != 'ROOT'`, in table order. */
  function ListByAccountId(s: DbState, accountId: int): (roles: seq<Role>)
    ensures forall role :: role in roles ==> role.accountId == Some(accountId) && role.name != ROOT_ROLE_NAME
    ensures forall row :: row in s.roles && row.accountId == accountId && row.name != ROOT_ROLE_NAME ==> RoleOf(s, row) in roles
    ensures forall role :: role in roles ==>
              exists row :: row in s.roles && row.accountId == accountId && row.name != ROOT_ROLE_NAME && role == RoleOf(s, row)
  {
    var rows := Where(s.roles, (row: RoleRow) => row.accountId == accountId && row.name != ROOT_ROLE_NAME);
    var roles := RolesOf(s, rows);
    assert forall role :: role in roles ==>
             exists row :: row in s.roles && row.accountId == accountId && row.name != ROOT_ROLE_NAME && role == RoleOf(s, row) by {
      forall role | role in roles
        ensures exists row :: row in s.roles && row.accountId == accountId && row.name != ROOT_ROLE_NAME && role == RoleOf(s, row)
      {
        var i :| 0 <= i < |roles| && roles[i] == role;
        assert rows[i] in rows;
      }
    }
    assert forall row :: row in rows ==> RoleOf(s, row) in roles by {
      forall row | row in rows ensures RoleOf(s, row) in roles {
        var i :| 0 <= i < |rows| && rows[i] == row;
        assert roles[i] == RoleOf(s, row);
      }
    }
    roles
  }

  /** `SELECT * FROM roles WHERE name = ? AND account_id = ?`. */
  function FindByNameAndAccountId(s: DbState, name: string, accountId: int): (r: Result<Option<Role>, Error>)
    ensures r.Success? && r.value.Some? ==>
              r.value.value.name == name && r.value.value.accountId == Some(accountId)
              && RoleRow(r.value.value.id, name, r.value.value.description, accountId) in s.roles
    ensures r.Success? && r.value.Some? ==>
              exists row :: row in s.roles && row.name == name && row.accountId == accountId && r.value.value == RoleOf(s, row)
    ensures r == Success(None) <==> forall row :: row in s.roles ==> !(row.name == name && row.accountId == accountId)
  {
    var rows := Where(s.roles, (row: RoleRow) => row.name == name && row.accountId == accountId);
    assert rows != [] ==> rows[0] in rows;
    SelectRole(s, rows)
  }

  /** The links one batch insert writes: one per id, in list order. */
  function PermissionLinks(roleId: int, permissionIds: seq<int>, accountId: int): (links: seq<RolePermissionLink>)
    ensures |links| == |permissionIds|
    ensures forall i :: 0 <= i < |links| ==> links[i] == RolePermissionLink(roleId, permissionIds[i], accountId)
  {
    seq(|permissionIds|, i requires 0 <= i < |permissionIds| => RolePermissionLink(roleId, permissionIds[i], accountId))
  }

  /**
   * create: `INSERT INTO roles ... RETURNING *`. The returned role is read by
   * roleResultMap at insert time, before any permission link exists for the
   * new id, so its permission list is empty.
   */
  method Create(db: Database, role: NewRole) returns (created: Role)
    requires db.Valid()
    modifies db
    ensures db.Valid()
    ensures db.State() == old(db.State()).(roles := old(db.roles) + [RoleRow(old(db.nextRoleId), role.name, role.description, role.accountId)],
                                          nextRoleId := old(db.nextRoleId) + 1)
    ensures created == Role(old(db.nextRoleId), role.name, role.description, Some(role.accountId), [])
  {
    var row := RoleRow(db.nextRoleId, role.name, role.description, role.accountId);
    db.roles := db.roles + [row];
    db.nextRoleId := db.nextRoleId + 1;
    PermissionRowsForUnlinked(db.rolePermissions, db.permissions, row.id);
    created := RoleOf(db.State(), row);
  }

  /**
   * insertRolePermissions: one batch `INSERT INTO role_permissions`, no
   * conflict clause. An empty id list renders no VALUES and is rejected by
   * the database; a role or permission id that does not exist violates a
   * foreign key. Otherwise every link is written and the count is the list's
   * length.
   */
  method InsertRolePermissions(db: Database, roleId: int, permissionIds: seq<int>, accountId: int) returns (r: Result<int, Error>)
    requires db.Valid()
    modifies db
    ensures db.Valid()
    ensures r.Failure? <==> (|| permissionIds == []
             || roleId !in RoleIds(old(db.State()))
             || exists i :: 0 <= i < |permissionIds| && permissionIds[i] !in PermissionIds(old(db.State())))
    ensures r.Failure? ==> r.error == SqlError && db.State() == old(db.State())
    ensures r.Success? ==>
              && r.value == |permissionIds| >= 1
              && db.State() == old(db.State()).(rolePermissions := old(db.rolePermissions) + PermissionLinks(roleId, permissionIds, accountId))
  {
    if permissionIds == [] || roleId !in RoleIds(db.State())
       || exists i :: 0 <= i < |permissionIds| && permissionIds[i] !in PermissionIds(db.State()) {
      return Failure(SqlError);
    }
    ghost var row :| row in db.roles && row.id == roleId;
    var links := PermissionLinks(roleId, permissionIds, accountId);
    db.rolePermissions := db.rolePermissions + links;
    r := Success(|permissionIds|);
  }

  /** An id lookup never sees two rows, because role ids are unique. */
  lemma FindByAccountIdAndIdNeverFails(s: DbState, id: int, accountId: int)
    requires Consistent(s)
    ensures FindByAccountIdAndId(s, id, accountId).Success?
  {
    WhereAtMostOne(s.roles, (row: RoleRow) => row.id == id && row.accountId == accountId);
  }

  /** A role of another account is never found by id. */
  lemma FindByIdIsAccountScoped(s: DbState, id: int, accountId: int)
    requires forall row :: row in s.roles && row.id == id ==> row.accountId != accountId
    ensures FindByAccountIdAndId(s, id, accountId) == Success(None)
  {
  }

  /** A role's permissions are exactly the permission rows some role_permissions link of that role points at. */
  lemma RolePermissionsAreLinked(s: DbState, roleId: int, p: Permission)
    ensures p in PermissionsOfRole(s, roleId) <==>
              && PermissionRow(p.id, p.name, p.description) in s.permissions
              && exists k :: 0 <= k < |s.rolePermissions| && s.rolePermissions[k].roleId == roleId
                             && s.rolePermissions[k].permissionId == p.id
  {
    PermissionRowsForExact(s.rolePermissions, s.permissions, roleId);
    var rows := PermissionRowsFor(s.rolePermissions, s.permissions, roleId);
    var perms := PermissionsOfRole(s, roleId);
    if p in perms {
      var i :| 0 <= i < |perms| && perms[i] == p;
      assert rows[i] == PermissionRow(p.id, p.name, p.description);
    }
    if PermissionRow(p.id, p.name, p.description) in rows {
      var i :| 0 <= i < |rows| && rows[i] == PermissionRow(p.id, p.name, p.description);
      assert perms[i] == p;
    }
  }
}
