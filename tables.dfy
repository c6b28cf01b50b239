/**
 * The users, roles, permissions, user_roles and role_permissions tables the
 * two MyBatis mappers read and write, and the entities their result maps
 * build. Ids are the tables' serial keys, handed out by a counter each.
 */
module Tables {
  import opened Wrappers
  import opened Failures

  datatype UserType = PASSWORD | OtherUserType(name: string)
  datatype UserStatus = CREATED | ACTIVE | SUSPENDED

  /** Enum.name() of a status, the text a status is written as. */
  function StatusName(s: UserStatus): (name: string)
    ensures name in {"CREATED", "ACTIVE", "SUSPENDED"}
  {
    match s
    case CREATED => "CREATED"
    case ACTIVE => "ACTIVE"
    case SUSPENDED => "SUSPENDED"
  }

  /** The status a text names, if any. */
  function ParseStatus(name: string): (s: Option<UserStatus>)
    ensures s.Some? ==> StatusName(s.value) == name
    ensures forall t :: name == StatusName(t) ==> s == Some(t)
  {
    if name == "CREATED" then Some(CREATED)
    else if name == "ACTIVE" then Some(ACTIVE)
    else if name == "SUSPENDED" then Some(SUSPENDED)
    else None
  }

  /** A row of users. Timestamps hold the literal text last assigned to them. */
  datatype UserRow = UserRow(
    id: int,
    firstName: Option<string>,
    lastName: Option<string>,
    middleName: Option<string>,
    email: string,
    userType: UserType,
    status: UserStatus,
    accountId: int,
    password: Option<string>,
    additionalAttributes: map<string, string>,
    updatedAt: Option<string>,
    lastLogin: Option<string>,
    currentLogin: Option<string>)

  datatype RoleRow = RoleRow(id: int, name: string, description: Option<string>, accountId: int)
  datatype PermissionRow = PermissionRow(id: int, name: string, description: Option<string>)
  datatype UserRoleLink = UserRoleLink(userId: int, roleId: int, accountId: int)
  datatype RolePermissionLink = RolePermissionLink(roleId: int, permissionId: int, accountId: int)

  /** Permission entity; the user-side join reads no description. */
  datatype Permission = Permission(id: int, name: string, description: Option<string>)

  /** Role entity; the user-side join reads no account id. */
  datatype Role = Role(id: int, name: string, description: Option<string>, accountId: Option<int>, permissions: seq<Permission>)

  /** User entity as the userMap result map fills it. */
  datatype User = User(
    id: int,
    firstName: Option<string>,
    lastName: Option<string>,
    middleName: Option<string>,
    email: string,
    userType: UserType,
    accountId: int,
    status: UserStatus,
    password: Option<string>,
    roles: set<Role>)

  /** A user before insertion: what the insert binds, plus the ids of the roles to link. */
  datatype NewUser = NewUser(
    firstName: Option<string>,
    lastName: Option<string>,
    middleName: Option<string>,
    email: string,
    userType: UserType,
    status: UserStatus,
    accountId: int,
    additionalAttributes: map<string, string>,
    roleIds: seq<int>)

  /** A role before insertion, with the ids of its permissions. */
  datatype NewRole = NewRole(name: string, description: Option<string>, accountId: int, permissionIds: seq<int>)

  /** Every table at one instant; a transaction's snapshot. */
  datatype DbState = DbState(
    users: seq<UserRow>,
    roles: seq<RoleRow>,
    permissions: seq<PermissionRow>,
    userRoles: set<UserRoleLink>,
    rolePermissions: seq<RolePermissionLink>,
    nextUserId: int,
    nextRoleId: int)

  function UserIds(s: DbState): set<int> {
    set u | u in s.users :: u.id
  }

  function RoleIds(s: DbState): set<int> {
    set r | r in s.roles :: r.id
  }

  function PermissionIds(s: DbState): set<int> {
    set p | p in s.permissions :: p.id
  }

  /**
   * Keys are unique and below the counter that issues them; link rows point
   * at keys already issued (the link tables' foreign keys).
   */
  predicate Consistent(s: DbState) {
    && (forall i, j :: 0 <= i < j < |s.users| ==> s.users[i].id != s.users[j].id)
    && (forall i :: 0 <= i < |s.users| ==> s.users[i].id < s.nextUserId)
    && (forall i, j :: 0 <= i < j < |s.roles| ==> s.roles[i].id != s.roles[j].id)
    && (forall i :: 0 <= i < |s.roles| ==> s.roles[i].id < s.nextRoleId)
    && (forall i, j :: 0 <= i < j < |s.permissions| ==> s.permissions[i].id != s.permissions[j].id)
    && (forall l :: l in s.userRoles ==> l.userId < s.nextUserId && l.roleId < s.nextRoleId)
    && (forall k :: 0 <= k < |s.rolePermissions| ==> s.rolePermissions[k].roleId < s.nextRoleId)
  }

  /** Adding links that point at issued keys keeps the state consistent. */
  lemma AddUserRolesConsistent(s: DbState, links: set<UserRoleLink>)
    requires Consistent(s)
    requires forall l :: l in links ==> l.userId < s.nextUserId && l.roleId < s.nextRoleId
    ensures Consistent(s.(userRoles := s.userRoles + links))
  {
  }

  /** The database: one field per table, updated in place by the mapper statements. */
  class Database {
    var users: seq<UserRow>
    var roles: seq<RoleRow>
    var permissions: seq<PermissionRow>
    var userRoles: set<UserRoleLink>
    var rolePermissions: seq<RolePermissionLink>
    var nextUserId: int
    var nextRoleId: int

    constructor (permissions: seq<PermissionRow>)
      requires forall i, j :: 0 <= i < j < |permissions| ==> permissions[i].id != permissions[j].id
      ensures State() == DbState([], [], permissions, {}, [], 1, 1)
      ensures Valid()
    {
      this.users := [];
      this.roles := [];
      this.permissions := permissions;
      this.userRoles := {};
      this.rolePermissions := [];
      this.nextUserId := 1;
      this.nextRoleId := 1;
    }

    function State(): DbState
      reads this
    {
      DbState(users, roles, permissions, userRoles, rolePermissions, nextUserId, nextRoleId)
    }

    predicate Valid()
      reads this
    {
      Consistent(State())
    }

    /**
     * Rollback: every table back to the snapshot. The id sequences are not
     * transactional, so the counters keep the values they reached.
     */
    method Restore(snapshot: DbState)
      requires Consistent(snapshot)
      requires snapshot.nextUserId <= nextUserId && snapshot.nextRoleId <= nextRoleId
      modifies this
      ensures State() == snapshot.(nextUserId := old(nextUserId), nextRoleId := old(nextRoleId))
      ensures Valid()
    {
      users := snapshot.users;
      roles := snapshot.roles;
      permissions := snapshot.permissions;
      userRoles := snapshot.userRoles;
      rolePermissions := snapshot.rolePermissions;
    }
  }

  /** Rows of a sequence satisfying a WHERE predicate, in table order. */
  function Where<T(!new)>(rows: seq<T>, p: T -> bool): (selected: seq<T>)
    ensures |selected| <= |rows|
    ensures forall x :: x in selected <==> x in rows && p(x)
  {
    if rows == [] then []
    else Where(rows[..|rows| - 1], p) + (if p(rows[|rows| - 1]) then [rows[|rows| - 1]] else [])
  }

  /** A WHERE predicate no row satisfies selects nothing. */
  lemma {:induction false} WhereNone<T(!new)>(rows: seq<T>, p: T -> bool)
    requires forall i :: 0 <= i < |rows| ==> !p(rows[i])
    ensures Where(rows, p) == []
    decreases |rows|
  {
    if rows != [] {
      WhereNone(rows[..|rows| - 1], p);
    }
  }

  /** A WHERE predicate that at most one row satisfies selects at most one row. */
  lemma {:induction false} WhereAtMostOne<T(!new)>(rows: seq<T>, p: T -> bool)
    requires forall i, j :: 0 <= i < j < |rows| && p(rows[i]) ==> !p(rows[j])
    ensures |Where(rows, p)| <= 1
    decreases |rows|
  {
    if rows != [] {
      var init := rows[..|rows| - 1];
      if p(rows[|rows| - 1]) {
        forall i | 0 <= i < |init| ensures !p(init[i]) {
          assert init[i] == rows[i];
        }
        WhereNone(init, p);
      } else {
        WhereAtMostOne(init, p);
      }
    }
  }

  /** MyBatis selectOne: no row is null, one row is that row, more is TooManyResultsException. */
  function SelectOne<T>(rows: seq<T>): (r: Result<Option<T>, Error>)
    ensures r.Success? <==> |rows| <= 1
    ensures r.Failure? ==> r.error == SqlError
    ensures r.Success? && r.value.Some? ==> rows == [r.value.value]
    ensures r.Success? && r.value.None? ==> rows == []
  {
    if |rows| == 0 then Success(None)
    else if |rows| == 1 then Success(Some(rows[0]))
    else Failure(SqlError)
  }
  /**
   * `permissions p JOIN role_permissions rp ON p.id = rp.permission_id
   * WHERE rp.role_id = roleId`: one permission row per matching link, links
   * in table order.
   */
  function PermissionRowsFor(links: seq<RolePermissionLink>, permissions: seq<PermissionRow>, roleId: int): seq<PermissionRow>
    decreases |links|
  {
    if links == [] then []
    else
      var last := links[|links| - 1];
      PermissionRowsFor(links[..|links| - 1], permissions, roleId)
        + (if last.roleId == roleId then Where(permissions, (p: PermissionRow) => p.id == last.permissionId) else [])
  }

  /** The join yields exactly the permission rows some link of the role points at. */
  lemma {:induction false} PermissionRowsForExact(links: seq<RolePermissionLink>, permissions: seq<PermissionRow>, roleId: int)
    ensures forall p :: p in PermissionRowsFor(links, permissions, roleId) <==>
              p in permissions && exists k :: 0 <= k < |links| && links[k].roleId == roleId && links[k].permissionId == p.id
    decreases |links|
  {
    if links != [] {
      var init := links[..|links| - 1];
      PermissionRowsForExact(init, permissions, roleId);
      forall p | p in permissions && (exists k :: 0 <= k < |links| && links[k].roleId == roleId && links[k].permissionId == p.id)
        ensures p in PermissionRowsFor(links, permissions, roleId)
      {
        var k :| 0 <= k < |links| && links[k].roleId == roleId && links[k].permissionId == p.id;
        if k < |init| {
          assert init[k] == links[k];
        }
      }
      forall p | p in PermissionRowsFor(links, permissions, roleId)
        ensures exists k :: 0 <= k < |links| && links[k].roleId == roleId && links[k].permissionId == p.id
      {
        if p in PermissionRowsFor(init, permissions, roleId) {
          var k :| 0 <= k < |init| && init[k].roleId == roleId && init[k].permissionId == p.id;
          assert links[k] == init[k];
        } else {
          assert links[|links| - 1].permissionId == p.id;
        }
      }
    }
  }

  /** A role id no link mentions joins to no permission. */
  lemma {:induction false} PermissionRowsForUnlinked(links: seq<RolePermissionLink>, permissions: seq<PermissionRow>, roleId: int)
    requires forall k :: 0 <= k < |links| ==> links[k].roleId != roleId
    ensures PermissionRowsFor(links, permissions, roleId) == []
    decreases |links|
  {
    if links != [] {
      PermissionRowsForUnlinked(links[..|links| - 1], permissions, roleId);
    }
  }
}

