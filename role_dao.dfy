/**
 * RoleDaoImpl: role creation with its permission links as one transaction,
 * and the finders, each turning a mapper exception into DaoLayerException.
 */
module RoleDao {
  import opened Wrappers
  import opened Failures
  import opened Tables
  import RoleMapper

  /**
   * create: insert the role, copy the generated id onto it, then insert one
   * link per permission id (none for an empty list). All or nothing: a failed
   * link insert leaves no role behind, though the id it drew from the
   * sequence stays used.
   */
  method Create(db: Database, role: NewRole) returns (r: Result<Role, Error>)
    requires db.Valid()
    modifies db
    ensures db.Valid()
    ensures r.Failure? <==> exists i :: 0 <= i < |role.permissionIds| && role.permissionIds[i] !in PermissionIds(old(db.State()))
    ensures r.Failure? ==> r.error == DaoLayer(Some(DaoLayer(Some(SqlError))))
                           && db.State() == old(db.State()).(nextRoleId := old(db.nextRoleId) + 1)
    ensures r.Success? ==>
              && r.value == Role(old(db.nextRoleId), role.name, role.description, Some(role.accountId), [])
              && db.State() == old(db.State()).(
                   roles := old(db.roles) + [RoleRow(old(db.nextRoleId), role.name, role.description, role.accountId)],
                   nextRoleId := old(db.nextRoleId) + 1,
                   rolePermissions := old(db.rolePermissions)
                                      + RoleMapper.PermissionLinks(old(db.nextRoleId), role.permissionIds, role.accountId))
  {
    var snapshot := db.State();
    var created := RoleMapper.Create(db, role);
    assert created.id in RoleIds(db.State()) by {
      assert db.roles[|db.roles| - 1].id == created.id;
    }
    if role.permissionIds != [] {
      var inserted := RoleMapper.InsertRolePermissions(db, created.id, role.permissionIds, role.accountId);
      if inserted.Failure? {
        db.Restore(snapshot);
        return Failure(DaoLayer(Some(DaoLayer(Some(inserted.error)))));
      }
    }
    r := Success(created);
  }

  /** findById: the role with that id in that account, null when absent. */
  function FindById(s: DbState, id: int, accountId: int): (r: Result<Option<Role>, Error>)
    ensures r.Failure? <==> RoleMapper.FindByAccountIdAndId(s, id, accountId).Failure?
    ensures r.Failure? ==> r.error == DaoLayer(Some(SqlError))
    ensures r.Success? ==> r.value == RoleMapper.FindByAccountIdAndId(s, id, accountId).value
  {
    match RoleMapper.FindByAccountIdAndId(s, id, accountId)
    case Failure(e) => Failure(DaoLayer(Some(e)))
    case Success(role) => Success(role)
  }

  /** list: the account's roles except ROOT. */
  function List(s: DbState, accountId: int): (roles: seq<Role>)
    ensures forall role :: role in roles ==> role.accountId == Some(accountId) && role.name != RoleMapper.ROOT_ROLE_NAME
    ensures forall row :: row in s.roles && row.accountId == accountId && row.name != RoleMapper.ROOT_ROLE_NAME ==>
              RoleMapper.RoleOf(s, row) in roles
    ensures forall role :: role in roles ==>
              exists row :: row in s.roles && row.accountId == accountId && row.name != RoleMapper.ROOT_ROLE_NAME
                             && role == RoleMapper.RoleOf(s, row)
  {
    RoleMapper.ListByAccountId(s, accountId)
  }

  /** findByName: the role with that name in that account, null when absent. */
  function FindByName(s: DbState, name: string, accountId: int): (r: Result<Option<Role>, Error>)
    ensures r.Failure? <==> RoleMapper.FindByNameAndAccountId(s, name, accountId).Failure?
    ensures r.Failure? ==> r.error == DaoLayer(Some(SqlError))
    ensures r.Success? ==> r.value == RoleMapper.FindByNameAndAccountId(s, name, accountId).value
  {
    match RoleMapper.FindByNameAndAccountId(s, name, accountId)
    case Failure(e) => Failure(DaoLayer(Some(e)))
    case Success(role) => Success(role)
  }
}
