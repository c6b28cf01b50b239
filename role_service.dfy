/**
 * RoleServiceImpl: role creation with per-account name uniqueness, and the
 * finders that turn an absent role into ResourceNotFoundException.
 */
module RoleService {
  import opened Wrappers
  import opened Failures
  import opened Tables
  import RoleMapper
  import RoleDao

  /** The fields of RoleCreateRequestDto the conversion reads; permissions as their ids. */
  datatype RoleCreateRequest = RoleCreateRequest(name: string, description: Option<string>, permissionIds: seq<int>)

  /** Rows of roles with this name in this account. */
  function RolesNamed(s: DbState, name: string, accountId: int): seq<RoleRow> {
    Where(s.roles, (row: RoleRow) => row.name == name && row.accountId == accountId)
  }

  /** No account holds two roles of the same name. */
  predicate UniqueRoleNames(s: DbState) {
    forall i, j :: 0 <= i < j < |s.roles| && s.roles[i].accountId == s.roles[j].accountId ==> s.roles[i].name != s.roles[j].name
  }

  /** findByName: the role, ResourceNotFoundException when absent, ServiceLayerException when the DAO fails. */
  function FindByName(s: DbState, name: string, accountId: int): (r: Result<Role, Error>)
    ensures r.Success? <==> |RolesNamed(s, name, accountId)| == 1
    ensures r.Success? ==> r.value == RoleMapper.RoleOf(s, RolesNamed(s, name, accountId)[0])
    ensures r.Failure? && RolesNamed(s, name, accountId) == [] ==> r.error == ResourceNotFound
    ensures r.Failure? && RolesNamed(s, name, accountId) != [] ==> r.error == ServiceLayer(Some(DaoLayer(Some(SqlError))))
  {
    match RoleDao.FindByName(s, name, accountId)
    case Failure(e) => Failure(ServiceLayer(Some(e)))
    case Success(None) => Failure(ResourceNotFound)
    case Success(Some(role)) => Success(role)
  }

  /** isRoleExists: findByName succeeded; any ServiceLayerException means "does not exist". */
  predicate IsRoleExists(s: DbState, name: string, accountId: int) {
    FindByName(s, name, accountId).Success?
  }

  /** findById: the role of that account, ResourceNotFoundException when absent. */
  function FindById(s: DbState, roleId: int, accountId: int): (r: Result<Role, Error>)
    ensures r.Success? ==> r.value.id == roleId && r.value.accountId == Some(accountId)
                           && RoleRow(roleId, r.value.name, r.value.description, accountId) in s.roles
    ensures r.Success? ==> exists row :: row in s.roles && row.id == roleId && row.accountId == accountId
                                         && r.value == RoleMapper.RoleOf(s, row)
    ensures r == Failure(ResourceNotFound) <==> forall row :: row in s.roles ==> !(row.id == roleId && row.accountId == accountId)
    ensures r.Failure? ==> r.error == ResourceNotFound || r.error == ServiceLayer(Some(DaoLayer(Some(SqlError))))
  {
    match RoleDao.FindById(s, roleId, accountId)
    case Failure(e) => Failure(ServiceLayer(Some(e)))
    case Success(None) => Failure(ResourceNotFound)
    case Success(Some(role)) => Success(role)
  }

  /** list: the DAO listing as it is, which leaves ROOT out. */
  function List(s: DbState, accountId: int): (roles: seq<Role>)
    ensures forall role :: role in roles ==> role.name != RoleMapper.ROOT_ROLE_NAME && role.accountId == Some(accountId)
    ensures forall row :: row in s.roles && row.accountId == accountId && row.name != RoleMapper.ROOT_ROLE_NAME ==>
              RoleMapper.RoleOf(s, row) in roles
    ensures forall role :: role in roles ==>
              exists row :: row in s.roles && row.accountId == accountId && row.name != RoleMapper.ROOT_ROLE_NAME
                             && role == RoleMapper.RoleOf(s, row)
  {
    RoleDao.List(s, accountId)
  }

  /**
   * create: refuse a name the account already has, otherwise convert the
   * request and let the DAO insert the role and its permission links.
   */
  method Create(db: Database, request: RoleCreateRequest, accountId: int) returns (r: Result<Role, Error>)
    requires db.Valid()
    modifies db
    ensures db.Valid()
    ensures IsRoleExists(old(db.State()), request.name, accountId) <==> r == Failure(ResourceAlreadyExist)
    ensures r.Failure? <==> IsRoleExists(old(db.State()), request.name, accountId)
                            || exists i :: 0 <= i < |request.permissionIds| && request.permissionIds[i] !in PermissionIds(old(db.State()))
    ensures r == Failure(ResourceAlreadyExist) ==> db.State() == old(db.State())
    ensures r.Failure? && r.error != ResourceAlreadyExist ==>
              && r.error == ServiceLayer(Some(DaoLayer(Some(DaoLayer(Some(SqlError))))))
              && db.State() == old(db.State()).(nextRoleId := old(db.nextRoleId) + 1)
    ensures r.Success? ==>
              && !IsRoleExists(old(db.State()), request.name, accountId)
              && r.value == Role(old(db.nextRoleId), request.name, request.description, Some(accountId), [])
              && db.State() == old(db.State()).(
                   roles := old(db.roles) + [RoleRow(old(db.nextRoleId), request.name, request.description, accountId)],
                   nextRoleId := old(db.nextRoleId) + 1,
                   rolePermissions := old(db.rolePermissions)
                                      + RoleMapper.PermissionLinks(old(db.nextRoleId), request.permissionIds, accountId))
    ensures UniqueRoleNames(old(db.State())) ==> UniqueRoleNames(db.State())
  {
    if IsRoleExists(db.State(), request.name, accountId) {
      return Failure(ResourceAlreadyExist);
    }
    ghost var before := db.State();
    var convertedRole := NewRole(request.name, request.description, accountId, request.permissionIds);
    var role := RoleDao.Create(db, convertedRole);
    if role.Failure? {
      return Failure(ServiceLayer(Some(role.error)));
    }
    r := Success(role.value);
    if UniqueRoleNames(before) {
      CreatePreservesUniqueNames(before, request.name, accountId, db.State());
    }
  }

  /** Under unique names, a name the account lacks can be added without breaking uniqueness. */
  lemma CreatePreservesUniqueNames(before: DbState, name: string, accountId: int, after: DbState)
    requires UniqueRoleNames(before)
    requires !IsRoleExists(before, name, accountId)
    requires exists row :: after.roles == before.roles + [row] && row.name == name && row.accountId == accountId
    ensures UniqueRoleNames(after)
  {
    var row :| after.roles == before.roles + [row] && row.name == name && row.accountId == accountId;
    NameAbsentUnderUniqueness(before, name, accountId);
    forall i, j | 0 <= i < j < |after.roles| && after.roles[i].accountId == after.roles[j].accountId
      ensures after.roles[i].name != after.roles[j].name
    {
      if j == |before.roles| {
        assert after.roles[i] == before.roles[i];
      } else {
        assert after.roles[i] == before.roles[i] && after.roles[j] == before.roles[j];
      }
    }
  }

  /** Under unique names, "does not exist" means no row of the account carries the name. */
  lemma NameAbsentUnderUniqueness(s: DbState, name: string, accountId: int)
    requires UniqueRoleNames(s)
    requires !IsRoleExists(s, name, accountId)
    ensures forall i :: 0 <= i < |s.roles| ==> !(s.roles[i].name == name && s.roles[i].accountId == accountId)
  {
    WhereAtMostOne(s.roles, (row: RoleRow) => row.name == name && row.accountId == accountId);
    var rows := RolesNamed(s, name, accountId);
    assert rows == [];
    forall i | 0 <= i < |s.roles| ensures !(s.roles[i].name == name && s.roles[i].accountId == accountId) {
      assert s.roles[i] in s.roles && s.roles[i] !in rows;
    }
  }

  /** A role exists exactly when one row of the account carries its name. */
  lemma RoleExistsIffOneRow(s: DbState, name: string, accountId: int)
    requires UniqueRoleNames(s)
    ensures IsRoleExists(s, name, accountId) <==>
              exists i :: 0 <= i < |s.roles| && s.roles[i].name == name && s.roles[i].accountId == accountId
  {
    var rows := RolesNamed(s, name, accountId);
    if IsRoleExists(s, name, accountId) {
      assert rows[0] in rows;
      var i :| 0 <= i < |s.roles| && s.roles[i] == rows[0];
      assert s.roles[i].name == name && s.roles[i].accountId == accountId;
    } else {
      NameAbsentUnderUniqueness(s, name, accountId);
    }
  }
}
