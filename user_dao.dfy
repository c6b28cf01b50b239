/**
 * UserDaoImpl: user creation with its role links as one transaction, the
 * zero-rows-is-failure update, and the finders. deleteUserRoles,
 * assignUserRoles and listByAccountId are called by the user service but
 * are not declared by UserDao; they are given the meaning their names and
 * the neighbouring statements imply.
 */
module UserDao {
  import opened Wrappers
  import opened Failures
  import opened Tables
  import opened UpdateQueryBuilder
  import UserMapper

  /**
   * create (rollbackFor DaoLayerException): insert the user, then link its
   * roles unless the list is empty. A failed link insert rolls the user
   * insert back; the id it drew from the sequence stays used.
   */
  method Create(db: Database, user: NewUser) returns (r: Result<int, Error>)
    requires db.Valid()
    modifies db
    ensures db.Valid()
    ensures r.Failure? <==> exists i :: 0 <= i < |user.roleIds| && user.roleIds[i] !in RoleIds(old(db.State()))
    ensures r.Failure? ==> r.error == DaoLayer(Some(SqlError)) && db.State() == old(db.State()).(nextUserId := old(db.nextUserId) + 1)
    ensures r.Success? ==>
              && r.value == old(db.nextUserId)
              && db.State() == old(db.State()).(
                   users := old(db.users) + [UserRow(r.value, user.firstName, user.lastName, user.middleName, user.email,
                                                     user.userType, user.status, user.accountId, None,
                                                     user.additionalAttributes, None, None, None)],
                   nextUserId := r.value + 1,
                   userRoles := old(db.userRoles) + UserMapper.UserRoleLinks(r.value, user.roleIds, user.accountId))
  {
    var snapshot := db.State();
    var rowCount, id := UserMapper.Create(db, user);
    assert id in UserIds(db.State()) by {
      assert db.users[|db.users| - 1].id == id;
    }
    var linked := LinkOrRollBack(db, snapshot, id, user.roleIds, user.accountId);
    if linked.Failure? {
      return Failure(linked.error);
    }
    r := Success(id);
  }

  /**
   * The link step of create for the user just inserted: no insert for an
   * empty role list; a failed insert restores the snapshot taken before the
   * user insert, keeping the id counters.
   */
  method LinkOrRollBack(db: Database, snapshot: DbState, userId: int, roleIds: seq<int>, accountId: int)
    returns (r: Result<(), Error>)
    requires db.Valid() && Consistent(snapshot) && userId in UserIds(db.State())
    requires snapshot.nextUserId <= db.nextUserId && snapshot.nextRoleId <= db.nextRoleId
    modifies db
    ensures db.Valid()
    ensures r.Failure? <==> exists i :: 0 <= i < |roleIds| && roleIds[i] !in RoleIds(old(db.State()))
    ensures r.Failure? ==> r.error == DaoLayer(Some(SqlError)) && db.State() == snapshot.(nextUserId := old(db.nextUserId), nextRoleId := old(db.nextRoleId))
    ensures r.Success? ==> db.State() == old(db.State()).(userRoles := old(db.userRoles) + UserMapper.UserRoleLinks(userId, roleIds, accountId))
  {
    if roleIds == [] {
      assert UserMapper.UserRoleLinks(userId, roleIds, accountId) == {};
      return Success(());
    }
    var inserted := UserMapper.InsertUserRoles(db, userId, roleIds, accountId);
    if inserted.Failure? {
      db.Restore(snapshot);
      return Failure(DaoLayer(Some(inserted.error)));
    }
    r := Success(());
  }

  /** A new user has no links yet, so a non-empty role list always inserts at least one row. */
  lemma NewUserLinksAreNew(s: DbState, roleIds: seq<int>, accountId: int)
    requires Consistent(s) && roleIds != []
    ensures |UserMapper.UserRoleLinks(s.nextUserId, roleIds, accountId) - s.userRoles| >= 1
  {
    var l := UserRoleLink(s.nextUserId, roleIds[0], accountId);
    assert l in UserMapper.UserRoleLinks(s.nextUserId, roleIds, accountId) - s.userRoles;
  }

  /**
   * update: run the statement; a mapper exception or zero affected rows is a
   * DaoLayerException. For a statement with a quote in a value only the
   * mapper's guarantees carry over: the user rows keep their keys, and a
   * rejected statement changes nothing.
   */
  method Update(db: Database, updates: seq<Entry>, conditions: seq<Entry>) returns (r: Result<(), Error>)
    requires db.Valid()
    modifies db
    ensures db.Valid()
    ensures db.State() == old(db.State()).(users := db.users) && UserMapper.KeysKept(old(db.users), db.users)
    ensures r.Failure? ==> || (r.error == DaoLayer(Some(SqlError)) && db.State() == old(db.State()))
                           || r.error == DaoLayer(Some(DaoLayer(None)))
    ensures UserMapper.QuoteFreeStatement(updates, conditions) && !UserMapper.WellFormedUpdate(updates, conditions) ==>
              r == Failure(DaoLayer(Some(SqlError))) && db.State() == old(db.State())
    ensures UserMapper.WellFormedUpdate(updates, conditions) ==>
              && (r.Success? <==> UserMapper.MatchCount(old(db.users), conditions) > 0)
              && (r.Failure? ==> r.error == DaoLayer(Some(DaoLayer(None))))
              && db.users == UserMapper.UpdatedUsers(old(db.users), updates, conditions)
  {
    var rowCount := UserMapper.Update(db, updates, conditions);
    if rowCount.Failure? {
      return Failure(DaoLayer(Some(rowCount.error)));
    }
    if rowCount.value <= 0 {
      return Failure(DaoLayer(Some(DaoLayer(None))));
    }
    r := Success(());
  }

  /** findById: the user with that id in that account, null when absent. */
  function FindById(s: DbState, accountId: int, id: int): (r: Result<Option<User>, Error>)
    ensures r.Failure? <==> UserMapper.FindByAccountIdAndUserId(s, accountId, id).Failure?
    ensures r.Failure? ==> r.error == DaoLayer(Some(SqlError))
    ensures r.Success? ==> r.value == UserMapper.FindByAccountIdAndUserId(s, accountId, id).value
  {
    match UserMapper.FindByAccountIdAndUserId(s, accountId, id)
    case Failure(e) => Failure(DaoLayer(Some(e)))
    case Success(user) => Success(user)
  }

  /** findByAccountIdAndEmail: the user with that email in that account, null when absent. */
  function FindByAccountIdAndEmail(s: DbState, accountId: int, email: string): (r: Result<Option<User>, Error>)
    ensures r.Failure? <==> UserMapper.FindByAccountIdAndEmail(s, accountId, email).Failure?
    ensures r.Failure? ==> r.error == DaoLayer(Some(SqlError))
    ensures r.Success? ==> r.value == UserMapper.FindByAccountIdAndEmail(s, accountId, email).value
  {
    match UserMapper.FindByAccountIdAndEmail(s, accountId, email)
    case Failure(e) => Failure(DaoLayer(Some(e)))
    case Success(user) => Success(user)
  }

  /** findByEmail: the user with that email in any account; two such users is an error. */
  function FindByEmail(s: DbState, email: string): (r: Result<Option<User>, Error>)
    ensures r.Failure? <==> UserMapper.FindByEmail(s, email).Failure?
    ensures r.Failure? ==> r.error == DaoLayer(Some(SqlError))
    ensures r.Success? ==> r.value == UserMapper.FindByEmail(s, email).value
  {
    match UserMapper.FindByEmail(s, email)
    case Failure(e) => Failure(DaoLayer(Some(e)))
    case Success(user) => Success(user)
  }

  /** deleteUserRoles: remove every link of the user within the account. */
  method DeleteUserRoles(db: Database, userId: int, accountId: int)
    requires db.Valid()
    modifies db
    ensures db.Valid()
    ensures db.State() == old(db.State()).(userRoles := WithoutLinksOf(old(db.userRoles), userId, accountId))
  {
    db.userRoles := WithoutLinksOf(db.userRoles, userId, accountId);
  }

  function WithoutLinksOf(links: set<UserRoleLink>, userId: int, accountId: int): (kept: set<UserRoleLink>)
    ensures forall l :: l in kept <==> l in links && !(l.userId == userId && l.accountId == accountId)
  {
    set l | l in links && !(l.userId == userId && l.accountId == accountId)
  }

  /** assignUserRoles: as the role step of create; an empty list links nothing, zero inserted rows fail. */
  method AssignUserRoles(db: Database, userId: int, roleIds: seq<int>, accountId: int) returns (r: Result<(), Error>)
    requires db.Valid()
    modifies db
    ensures db.Valid()
    ensures roleIds == [] ==> r == Success(()) && db.State() == old(db.State())
    ensures roleIds != [] && (userId !in UserIds(old(db.State()))
                              || exists i :: 0 <= i < |roleIds| && roleIds[i] !in RoleIds(old(db.State())))
            ==> r == Failure(DaoLayer(Some(SqlError)))
    ensures r.Success? ==>
              db.State() == old(db.State()).(userRoles := old(db.userRoles) + UserMapper.UserRoleLinks(userId, roleIds, accountId))
    ensures r.Failure? <==> roleIds != [] && (|| userId !in UserIds(old(db.State()))
                                             || (exists i :: 0 <= i < |roleIds| && roleIds[i] !in RoleIds(old(db.State())))
                                             || UserMapper.UserRoleLinks(userId, roleIds, accountId) <= old(db.userRoles))
    ensures r.Failure? ==> r.error.DaoLayer? && db.State() == old(db.State())
  {
    if roleIds == [] {
      assert UserMapper.UserRoleLinks(userId, roleIds, accountId) == {};
      return Success(());
    }
    var inserted := UserMapper.InsertUserRoles(db, userId, roleIds, accountId);
    if inserted.Failure? {
      return Failure(DaoLayer(Some(inserted.error)));
    }
    NewLinksCounted(old(db.userRoles), UserMapper.UserRoleLinks(userId, roleIds, accountId));
    if inserted.value <= 0 {
      return Failure(DaoLayer(Some(DaoLayer(None))));
    }
    r := Success(());
  }

  /** An insert adds no row exactly when every link is already stored, and then the table is as before. */
  lemma NewLinksCounted(existing: set<UserRoleLink>, links: set<UserRoleLink>)
    ensures |links - existing| == 0 <==> links <= existing
    ensures links <= existing ==> existing + links == existing
  {
    if links <= existing {
      assert links - existing == {};
      assert existing + links == existing;
    } else {
      var l :| l in links && l !in existing;
      assert l in links - existing;
    }
  }

  /** listByAccountId: every user of the account, in table order. */
  function ListByAccountId(s: DbState, accountId: int): (users: seq<User>)
    ensures forall u :: u in users ==> u.accountId == accountId
    ensures forall row :: row in s.users && row.accountId == accountId ==> UserMapper.UserOf(s, row) in users
    ensures forall u :: u in users ==> exists row :: row in s.users && row.accountId == accountId && u == UserMapper.UserOf(s, row)
  {
    var rows := Where(s.users, (row: UserRow) => row.accountId == accountId);
    var users := seq(|rows|, i requires 0 <= i < |rows| => UserMapper.UserOf(s, rows[i]));
    assert forall u :: u in users ==> exists row :: row in s.users && row.accountId == accountId && u == UserMapper.UserOf(s, row) by {
      forall u | u in users ensures exists row :: row in s.users && row.accountId == accountId && u == UserMapper.UserOf(s, row) {
        var i :| 0 <= i < |users| && users[i] == u;
        assert rows[i] in rows;
      }
    }
    assert forall row :: row in s.users && row.accountId == accountId ==> UserMapper.UserOf(s, row) in users by {
      forall row | row in s.users && row.accountId == accountId ensures UserMapper.UserOf(s, row) in users {
        var i :| 0 <= i < |rows| && rows[i] == row;
        assert users[i] == UserMapper.UserOf(s, row);
      }
    }
    users
  }
}
