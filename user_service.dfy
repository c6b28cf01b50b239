/**
 * UserServiceImpl: user and root-user creation, the finders, and the profile,
 * status, password, login-time and role updates. The OTP store lives in the
 * same database as the tables, so a rolled-back transaction restores it too.
 * The password encoder is a function parameter; the clock, the generated
 * code and the delivery outcome are inputs of the OTP step.
 */
module UserService {
  import opened Wrappers
  import opened Failures
  import opened JavaText
  import opened Tables
  import opened UpdateQueryBuilder
  import UserMapper
  import UserDao
  import RoleMapper
  import RoleService
  import OtpService

  const ROOT_ROLE_DESCRIPTION: string := "Root role with all permissions"
  /** The literal updateUser and updateLastLoginTime put in timestamp columns. */
  const CURRENT_TIMESTAMP: string := "CURRENT_TIMESTAMP"
  /** The literal updateLastLoginTime puts in last_login. */
  const CURRENT_LOGIN_REFERENCE: string := "$col:current_login"

  datatype UserCreateRequest = UserCreateRequest(
    firstName: Option<string>, lastName: Option<string>, middleName: Option<string>,
    email: string, additionalAttributes: map<string, string>, roleIds: seq<int>)

  datatype RootUserCreateRequest = RootUserCreateRequest(
    firstName: Option<string>, lastName: Option<string>, middleName: Option<string>,
    email: string, additionalAttributes: map<string, string>)

  datatype ProfileUpdateRequest = ProfileUpdateRequest(firstName: Option<string>, lastName: Option<string>, middleName: Option<string>)

  datatype UserUpdateRequest = UserUpdateRequest(
    firstName: Option<string>, lastName: Option<string>, middleName: Option<string>, roleIds: Option<seq<int>>)

  /** No account holds two users with the same email. */
  predicate UniqueUserEmails(s: DbState) {
    forall i, j :: 0 <= i < j < |s.users| && s.users[i].accountId == s.users[j].accountId ==> s.users[i].email != s.users[j].email
  }

  function UsersWithEmail(s: DbState, accountId: int, email: string): seq<UserRow> {
    Where(s.users, (row: UserRow) => row.email == email && row.accountId == accountId)
  }

  /** findByAccountIdAndUserId: the user, ResourceNotFoundException when absent; a DAO failure loses its cause. */
  function FindByAccountIdAndUserId(s: DbState, accountId: int, id: int): (r: Result<User, Error>)
    ensures r.Success? ==> r.value.id == id && r.value.accountId == accountId
                           && exists row :: row in s.users && row.id == id && row.accountId == accountId && r.value == UserMapper.UserOf(s, row)
    ensures r == Failure(ResourceNotFound) <==> forall row :: row in s.users ==> !(row.id == id && row.accountId == accountId)
    ensures r.Failure? ==> r.error == ResourceNotFound || r.error == ServiceLayer(None)
  {
    match UserDao.FindById(s, accountId, id)
    case Failure(_) => Failure(ServiceLayer(None))
    case Success(None) => Failure(ResourceNotFound)
    case Success(Some(user)) => Success(user)
  }

  /** findByAccountIdAndEmail: the user, ResourceNotFoundException when absent; a DAO failure loses its cause. */
  function FindByAccountIdAndEmail(s: DbState, accountId: int, email: string): (r: Result<User, Error>)
    ensures r.Success? <==> |UsersWithEmail(s, accountId, email)| == 1
    ensures r.Success? ==> r.value == UserMapper.UserOf(s, UsersWithEmail(s, accountId, email)[0])
    ensures r == Failure(ResourceNotFound) <==> UsersWithEmail(s, accountId, email) == []
    ensures r.Failure? ==> r.error == ResourceNotFound || r.error == ServiceLayer(None)
  {
    var rows := UsersWithEmail(s, accountId, email);
    assert rows != [] ==> rows[0] in rows;
    match UserDao.FindByAccountIdAndEmail(s, accountId, email)
    case Failure(_) => Failure(ServiceLayer(None))
    case Success(None) => Failure(ResourceNotFound)
    case Success(Some(user)) => Success(user)
  }

  /** isUserAlreadyExists: the lookup succeeded; any ServiceLayerException counts as "does not exist". */
  predicate IsUserAlreadyExists(s: DbState, accountId: int, email: string) {
    FindByAccountIdAndEmail(s, accountId, email).Success?
  }

  /** buildUser: the request's fields, type PASSWORD, status CREATED. */
  function BuildUser(request: UserCreateRequest, accountId: int): (user: NewUser)
    ensures user.userType == PASSWORD && user.status == CREATED && user.accountId == accountId
  {
    NewUser(request.firstName, request.lastName, request.middleName, request.email, PASSWORD, CREATED,
            accountId, request.additionalAttributes, request.roleIds)
  }

  /** buildRootUser: as buildUser, with the given roles. */
  function BuildRootUser(request: RootUserCreateRequest, accountId: int, roleIds: seq<int>): (user: NewUser)
    ensures user.userType == PASSWORD && user.status == CREATED && user.accountId == accountId && user.roleIds == roleIds
  {
    NewUser(request.firstName, request.lastName, request.middleName, request.email, PASSWORD, CREATED,
            accountId, request.additionalAttributes, roleIds)
  }

  /** The row a new user gets: no password, no timestamps. */
  function NewUserRow(id: int, user: NewUser): UserRow {
    UserRow(id, user.firstName, user.lastName, user.middleName, user.email, user.userType, user.status,
            user.accountId, None, user.additionalAttributes, None, None, None)
  }

  /**
   * createUser: refuse an existing (account, email); persist the user and its
   * role links; then send the verification code. Not transactional: a failed
   * send leaves the user in place. Every failure surfaces as a
   * ServiceLayerException wrapping its cause.
   */
  method CreateUser(db: Database, otps: OtpService.OtpStore, request: UserCreateRequest, accountId: int,
                    generated: Option<string>, delivered: bool, now: int) returns (r: Result<int, Error>)
    requires db.Valid()
    modifies db, otps
    ensures db.Valid()
    ensures IsUserAlreadyExists(old(db.State()), accountId, request.email) ==>
              r == Failure(ServiceLayer(Some(ResourceAlreadyExist)))
              && db.State() == old(db.State()) && otps.rows == old(otps.rows)
    ensures !IsUserAlreadyExists(old(db.State()), accountId, request.email)
            && (exists i :: 0 <= i < |request.roleIds| && request.roleIds[i] !in RoleIds(old(db.State()))) ==>
              r == Failure(ServiceLayer(Some(DaoLayer(Some(SqlError)))))
              && db.State() == old(db.State()).(nextUserId := old(db.nextUserId) + 1) && otps.rows == old(otps.rows)
    ensures otps.rows != old(otps.rows) || r.Success? ==>
              && !IsUserAlreadyExists(old(db.State()), accountId, request.email)
              && db.State() == old(db.State()).(
                   users := old(db.users) + [NewUserRow(old(db.nextUserId), BuildUser(request, accountId))],
                   nextUserId := old(db.nextUserId) + 1,
                   userRoles := old(db.userRoles) + UserMapper.UserRoleLinks(old(db.nextUserId), request.roleIds, accountId))
    ensures db.users != old(db.users) ==>
              var step := OtpService.SendStep(old(otps.rows), request.email, generated, delivered, now);
              && otps.rows == step.1
              && (r.Success? <==> step.0.Success?)
              && (r.Success? ==> r.value == old(db.nextUserId))
              && (step.0.Failure? ==> r == Failure(ServiceLayer(Some(step.0.error))))
    ensures UniqueUserEmails(old(db.State())) ==> UniqueUserEmails(db.State())
  {
    if IsUserAlreadyExists(db.State(), accountId, request.email) {
      return Failure(ServiceLayer(Some(ResourceAlreadyExist)));
    }
    ghost var before := db.State();
    var user := BuildUser(request, accountId);
    var createdUser := UserDao.Create(db, user);
    if createdUser.Failure? {
      return Failure(ServiceLayer(Some(createdUser.error)));
    }
    if UniqueUserEmails(before) {
      AddingAbsentEmailKeepsUnique(before, accountId, request.email, db.State());
    }
    var sent := otps.SendOtp(request.email, generated, delivered, now);
    if sent.Failure? {
      return Failure(ServiceLayer(Some(sent.error)));
    }
    r := Success(createdUser.value);
  }

  /** The ROOT role row createRootRole writes for an account. */
  function RootRoleRow(id: int, accountId: int): RoleRow {
    RoleRow(id, RoleMapper.ROOT_ROLE_NAME, Some(ROOT_ROLE_DESCRIPTION), accountId)
  }

  /**
   * buildRootRoles / createRootRole: create the account's ROOT role, with no
   * permissions, and return it as a one-element list. An existing ROOT role
   * surfaces as ResourceAlreadyExistException with nothing written.
   */
  method BuildRootRoles(db: Database, accountId: int) returns (r: Result<seq<Role>, Error>)
    requires db.Valid()
    modifies db
    ensures db.Valid()
    ensures r.Failure? <==> RoleService.IsRoleExists(old(db.State()), RoleMapper.ROOT_ROLE_NAME, accountId)
    ensures r.Failure? ==> r.error == ResourceAlreadyExist && db.State() == old(db.State())
    ensures r.Success? ==>
              && r.value == [Role(old(db.nextRoleId), RoleMapper.ROOT_ROLE_NAME, Some(ROOT_ROLE_DESCRIPTION), Some(accountId), [])]
              && db.State() == old(db.State()).(roles := old(db.roles) + [RootRoleRow(old(db.nextRoleId), accountId)],
                                                nextRoleId := old(db.nextRoleId) + 1)
    ensures RoleService.UniqueRoleNames(old(db.State())) ==> RoleService.UniqueRoleNames(db.State())
  {
    var roleRequest := RoleService.RoleCreateRequest(RoleMapper.ROOT_ROLE_NAME, Some(ROOT_ROLE_DESCRIPTION), []);
    var role := RoleService.Create(db, roleRequest, accountId);
    if role.Failure? {
      // With no permission ids the only way role creation fails is an
      // existing ROOT role, which is rethrown as it is.
      return Failure(role.error);
    }
    assert RoleMapper.PermissionLinks(role.value.id, [], accountId) == [];
    r := Success([role.value]);
  }

  /** The tables after a successful createRootUser: the ROOT role, the user, and the one link between them. */
  function RootUserCreated(s: DbState, request: RootUserCreateRequest, accountId: int): (t: DbState)
    ensures |t.roles| == |s.roles| + 1 && |t.users| == |s.users| + 1
    ensures t.permissions == s.permissions && t.rolePermissions == s.rolePermissions
    ensures t.nextUserId == s.nextUserId + 1 && t.nextRoleId == s.nextRoleId + 1
  {
    s.(roles := s.roles + [RootRoleRow(s.nextRoleId, accountId)],
       nextRoleId := s.nextRoleId + 1,
       users := s.users + [NewUserRow(s.nextUserId, BuildRootUser(request, accountId, [s.nextRoleId]))],
       nextUserId := s.nextUserId + 1,
       userRoles := s.userRoles + {UserRoleLink(s.nextUserId, s.nextRoleId, accountId)})
  }

  /**
   * createRootUser (rollbackFor ServiceLayerException): refuse an existing
   * (account, email); create the account's ROOT role; persist the user with
   * exactly that role; send the verification code. An existing user or ROOT
   * role surfaces as ResourceAlreadyExistException; a failed send as a
   * ServiceLayerException wrapping it; and every failure leaves the tables
   * and the OTP store as they were, apart from the two ids the rolled-back
   * inserts drew from their sequences.
   */
  method CreateRootUser(db: Database, otps: OtpService.OtpStore, request: RootUserCreateRequest, accountId: int,
                        generated: Option<string>, delivered: bool, now: int) returns (r: Result<(), Error>)
    requires db.Valid()
    modifies db, otps
    ensures db.Valid()
    ensures r.Failure? ==> otps.rows == old(otps.rows)
    ensures r == Failure(ResourceAlreadyExist) ==> db.State() == old(db.State())
    ensures r.Failure? && r != Failure(ResourceAlreadyExist) ==>
              && db.users == old(db.users) && db.roles == old(db.roles) && db.permissions == old(db.permissions)
              && db.userRoles == old(db.userRoles) && db.rolePermissions == old(db.rolePermissions)
              && db.nextUserId == old(db.nextUserId) + 1 && db.nextRoleId == old(db.nextRoleId) + 1
    ensures IsUserAlreadyExists(old(db.State()), accountId, request.email) ==> r == Failure(ResourceAlreadyExist)
    ensures RoleService.IsRoleExists(old(db.State()), RoleMapper.ROOT_ROLE_NAME, accountId) ==> r == Failure(ResourceAlreadyExist)
    ensures !IsUserAlreadyExists(old(db.State()), accountId, request.email)
            && !RoleService.IsRoleExists(old(db.State()), RoleMapper.ROOT_ROLE_NAME, accountId) ==>
              var step := OtpService.SendStep(old(otps.rows), request.email, generated, delivered, now);
              && (r.Success? <==> step.0.Success?)
              && (step.0.Failure? ==> r == Failure(ServiceLayer(Some(step.0.error))))
    ensures r.Success? ==>
              && db.State() == RootUserCreated(old(db.State()), request, accountId)
              && otps.rows == OtpService.SendStep(old(otps.rows), request.email, generated, delivered, now).1
    ensures UniqueUserEmails(old(db.State())) ==> UniqueUserEmails(db.State())
    ensures RoleService.UniqueRoleNames(old(db.State())) ==> RoleService.UniqueRoleNames(db.State())
  {
    var snapshot := db.State();
    var persisted := PersistRootUser(db, request, accountId);
    if persisted.Failure? {
      return persisted;
    }
    r := SendOrRollBack(db, otps, snapshot, request.email, generated, delivered, now);
  }

  /**
   * The last step of createRootUser: send the code; a failed send rolls the
   * tables back to the snapshot (the id counters keep their values) and the
   * OTP store back to what it held.
   */
  method SendOrRollBack(db: Database, otps: OtpService.OtpStore, snapshot: DbState,
                        email: string, generated: Option<string>, delivered: bool, now: int) returns (r: Result<(), Error>)
    requires db.Valid() && Consistent(snapshot)
    requires snapshot.nextUserId <= db.nextUserId && snapshot.nextRoleId <= db.nextRoleId
    modifies db, otps
    ensures db.Valid()
    ensures var step := OtpService.SendStep(old(otps.rows), email, generated, delivered, now);
            && (r.Success? <==> step.0.Success?)
            && (r.Failure? ==> r == Failure(ServiceLayer(Some(step.0.error))))
            && (r.Success? ==> db.State() == old(db.State()) && otps.rows == step.1)
    ensures r.Failure? ==>
              && db.users == snapshot.users && db.roles == snapshot.roles && db.permissions == snapshot.permissions
              && db.userRoles == snapshot.userRoles && db.rolePermissions == snapshot.rolePermissions
              && db.nextUserId == old(db.nextUserId) && db.nextRoleId == old(db.nextRoleId)
              && otps.rows == old(otps.rows)
  {
    var otpSnapshot := otps.rows;
    var sent := otps.SendOtp(email, generated, delivered, now);
    if sent.Failure? {
      db.Restore(snapshot);
      otps.rows := otpSnapshot;
      return Failure(ServiceLayer(Some(sent.error)));
    }
    r := Success(());
  }

  /**
   * The persistence half of createRootUser: refuse a taken (account, email),
   * then create the ROOT role, then the user holding exactly that role.
   */
  method PersistRootUser(db: Database, request: RootUserCreateRequest, accountId: int) returns (r: Result<(), Error>)
    requires db.Valid()
    modifies db
    ensures db.Valid()
    ensures r.Failure? <==> IsUserAlreadyExists(old(db.State()), accountId, request.email)
                            || RoleService.IsRoleExists(old(db.State()), RoleMapper.ROOT_ROLE_NAME, accountId)
    ensures r.Failure? ==> r == Failure(ResourceAlreadyExist) && db.State() == old(db.State())
    ensures r.Success? ==> db.State() == RootUserCreated(old(db.State()), request, accountId)
    ensures UniqueUserEmails(old(db.State())) ==> UniqueUserEmails(db.State())
    ensures RoleService.UniqueRoleNames(old(db.State())) ==> RoleService.UniqueRoleNames(db.State())
  {
    if IsUserAlreadyExists(db.State(), accountId, request.email) {
      return Failure(ResourceAlreadyExist);
    }
    ghost var snapshot := db.State();
    var roles := BuildRootRoles(db, accountId);
    if roles.Failure? {
      return Failure(roles.error);
    }
    AddRootUser(db, snapshot, request, accountId, roles.value[0].id);
    r := Success(());
  }

  /** The user step of createRootUser, once the ROOT role (roleId) is stored on top of s. */
  method AddRootUser(db: Database, ghost s: DbState, request: RootUserCreateRequest, accountId: int, roleId: int)
    requires db.Valid() && !IsUserAlreadyExists(s, accountId, request.email)
    requires roleId == s.nextRoleId
    requires db.State() == s.(roles := s.roles + [RootRoleRow(s.nextRoleId, accountId)], nextRoleId := s.nextRoleId + 1)
    modifies db
    ensures db.Valid()
    ensures db.State() == RootUserCreated(s, request, accountId)
    ensures UniqueUserEmails(s) ==> UniqueUserEmails(db.State())
  {
    ghost var afterRole := db.State();
    assert roleId in RoleIds(afterRole) by {
      assert afterRole.roles[|afterRole.roles| - 1].id == roleId;
    }
    var user := BuildRootUser(request, accountId, [roleId]);
    var createdUser := UserDao.Create(db, user);
    assert createdUser.Success?;
    RootUserStep(s, afterRole, db.State(), request, accountId);
  }

  /** The role step then the user step of createRootUser give RootUserCreated, and keep emails unique. */
  lemma RootUserStep(s: DbState, afterRole: DbState, after: DbState, request: RootUserCreateRequest, accountId: int)
    requires !IsUserAlreadyExists(s, accountId, request.email)
    requires afterRole == s.(roles := s.roles + [RootRoleRow(s.nextRoleId, accountId)], nextRoleId := s.nextRoleId + 1)
    requires after == afterRole.(
               users := afterRole.users + [NewUserRow(afterRole.nextUserId, BuildRootUser(request, accountId, [s.nextRoleId]))],
               nextUserId := afterRole.nextUserId + 1,
               userRoles := afterRole.userRoles + UserMapper.UserRoleLinks(afterRole.nextUserId, [s.nextRoleId], accountId))
    ensures after == RootUserCreated(s, request, accountId)
    ensures UniqueUserEmails(s) ==> UniqueUserEmails(after)
  {
    assert UserMapper.UserRoleLinks(s.nextUserId, [s.nextRoleId], accountId) == {UserRoleLink(s.nextUserId, s.nextRoleId, accountId)};
    if UniqueUserEmails(s) {
      assert UsersWithEmail(afterRole, accountId, request.email) == UsersWithEmail(s, accountId, request.email);
      AddingAbsentEmailKeepsUnique(afterRole, accountId, request.email, after);
    }
  }

  /** The root user, read back, holds exactly one role: the account's new ROOT role. */
  lemma RootUserHoldsOnlyRoot(s: DbState, request: RootUserCreateRequest, accountId: int)
    requires Consistent(s)
    ensures var t := RootUserCreated(s, request, accountId);
            UserMapper.RolesOfUser(t, s.nextUserId) == {UserMapper.UserSideRole(t, RootRoleRow(s.nextRoleId, accountId))}
  {
    var t := RootUserCreated(s, request, accountId);
    var root := RootRoleRow(s.nextRoleId, accountId);
    var link := UserRoleLink(s.nextUserId, s.nextRoleId, accountId);
    assert link in t.userRoles && root in t.roles;
    forall role | role in UserMapper.RolesOfUser(t, s.nextUserId)
      ensures role == UserMapper.UserSideRole(t, root)
    {
      var l, row :| l in t.userRoles && row in t.roles && l.userId == s.nextUserId && l.roleId == row.id
                    && role == UserMapper.UserSideRole(t, row);
      assert l == link;
      assert row == root;
    }
  }

  /** Under unique emails, "does not exist" means no row of the account has the email. */
  lemma EmailAbsentUnderUniqueness(s: DbState, accountId: int, email: string)
    requires UniqueUserEmails(s)
    requires !IsUserAlreadyExists(s, accountId, email)
    ensures forall i :: 0 <= i < |s.users| ==> !(s.users[i].email == email && s.users[i].accountId == accountId)
  {
    WhereAtMostOne(s.users, (row: UserRow) => row.email == email && row.accountId == accountId);
    var rows := UsersWithEmail(s, accountId, email);
    assert rows == [];
    forall i | 0 <= i < |s.users| ensures !(s.users[i].email == email && s.users[i].accountId == accountId) {
      assert s.users[i] in s.users && s.users[i] !in rows;
    }
  }

  /** Appending a user whose email the account lacks keeps emails unique. */
  lemma AddingAbsentEmailKeepsUnique(before: DbState, accountId: int, email: string, after: DbState)
    requires UniqueUserEmails(before)
    requires !IsUserAlreadyExists(before, accountId, email)
    requires exists row :: after.users == before.users + [row] && row.email == email && row.accountId == accountId
    ensures UniqueUserEmails(after)
  {
    var row :| after.users == before.users + [row] && row.email == email && row.accountId == accountId;
    EmailAbsentUnderUniqueness(before, accountId, email);
    forall i, j | 0 <= i < j < |after.users| && after.users[i].accountId == after.users[j].accountId
      ensures after.users[i].email != after.users[j].email
    {
      assert after.users[i] == before.users[i];
      if j < |before.users| {
        assert after.users[j] == before.users[j];
      }
    }
  }

  /** A user exists exactly when one row of the account has the email. */
  lemma UserExistsIffRow(s: DbState, accountId: int, email: string)
    requires UniqueUserEmails(s)
    ensures IsUserAlreadyExists(s, accountId, email) <==>
              exists i :: 0 <= i < |s.users| && s.users[i].email == email && s.users[i].accountId == accountId
  {
    var rows := UsersWithEmail(s, accountId, email);
    if IsUserAlreadyExists(s, accountId, email) {
      assert rows[0] in rows;
      var i :| 0 <= i < |s.users| && s.users[i] == rows[0];
      assert s.users[i].email == email && s.users[i].accountId == accountId;
    } else {
      EmailAbsentUnderUniqueness(s, accountId, email);
    }
  }

  /** Map.of("email", email, "account_id", accountId) as WHERE entries. */
  function EmailAccountConditions(email: string, accountId: int): seq<Entry> {
    [Entry("email", Plain(email)), Entry("account_id", Plain(DecimalString(accountId)))]
  }

  /** The email-and-account WHERE clause selects exactly the rows with that email in that account. */
  lemma EmailAccountConditionsMatch(row: UserRow, email: string, accountId: int)
    ensures UserMapper.Matches(row, EmailAccountConditions(email, accountId)) <==> row.email == email && row.accountId == accountId
  {
    var conditions := EmailAccountConditions(email, accountId);
    if UserMapper.Matches(row, conditions) {
      assert UserMapper.Holds(row, conditions[0]) && UserMapper.Holds(row, conditions[1]);
      DecimalStringInjective(row.accountId, accountId);
    }
  }

  /** A SET clause of one entry assigns that entry. */
  lemma AssignSingle(row: UserRow, e: Entry)
    requires UserMapper.Assignable(e)
    ensures UserMapper.AssignAll(row, [e]) == UserMapper.Assign(row, e)
  {
    assert [e][..0] == [];
  }

  /**
   * A one-column UPDATE keyed by email and account: accepted by the table,
   * it matches some row exactly when a row has that email in that account,
   * and changes exactly those rows, by assigning the entry.
   */
  lemma EmailUpdateEffect(users: seq<UserRow>, email: string, accountId: int, e: Entry)
    requires UserMapper.Assignable(e) && UserMapper.QuoteFreeValue(e.value) && QuoteFree(email)
    ensures UserMapper.WellFormedUpdate([e], EmailAccountConditions(email, accountId))
    ensures UserMapper.MatchCount(users, EmailAccountConditions(email, accountId)) > 0 <==>
              exists i :: 0 <= i < |users| && users[i].email == email && users[i].accountId == accountId
    ensures forall i :: 0 <= i < |users| ==>
              UserMapper.UpdatedUsers(users, [e], EmailAccountConditions(email, accountId))[i]
              == if users[i].email == email && users[i].accountId == accountId then UserMapper.Assign(users[i], e) else users[i]
  {
    var conditions := EmailAccountConditions(email, accountId);
    UserMapper.DecimalStringQuoteFree(accountId);
    forall i | 0 <= i < |users| ensures UserMapper.Matches(users[i], conditions) <==> users[i].email == email && users[i].accountId == accountId {
      EmailAccountConditionsMatch(users[i], email, accountId);
    }
    forall i | 0 <= i < |users| ensures UserMapper.AssignAll(users[i], [e]) == UserMapper.Assign(users[i], e) {
      AssignSingle(users[i], e);
    }
  }

  /**
   * updateUserPassword: store the encoded password on the user with that
   * email in that account. A null password fails in the encoder and a null
   * email in Map.of, before any statement runs. An update that matches no
   * row is a DaoLayerException, surfaced as a ServiceLayerException without
   * cause. The effect is exact when the email and the encoded password carry
   * no quote (an encoder in the modular-crypt format never writes one).
   */
  method UpdateUserPassword(db: Database, accountId: int, email: Option<string>, password: Option<string>, encode: string -> string)
    returns (r: Result<(), Error>)
    requires db.Valid()
    modifies db
    ensures db.Valid()
    ensures db.State() == old(db.State()).(users := db.users) && UserMapper.KeysKept(old(db.users), db.users)
    ensures password.None? ==> r == Failure(IllegalArgument) && db.State() == old(db.State())
    ensures password.Some? && email.None? ==> r == Failure(NullReference) && db.State() == old(db.State())
    ensures password.Some? && email.Some? && r.Failure? ==> r.error == ServiceLayer(None)
    ensures password.Some? && email.Some? && QuoteFree(email.value) && QuoteFree(encode(password.value)) ==>
              && (r.Success? <==> exists i :: 0 <= i < |old(db.users)| && old(db.users)[i].email == email.value
                                              && old(db.users)[i].accountId == accountId)
              && forall i :: 0 <= i < |db.users| ==>
                   db.users[i] == if old(db.users)[i].email == email.value && old(db.users)[i].accountId == accountId
                                  then old(db.users)[i].(password := Some(encode(password.value)))
                                  else old(db.users)[i]
  {
    if password.None? {
      return Failure(IllegalArgument);
    }
    var encoded := Entry("password", Plain(encode(password.value)));
    if email.None? {
      return Failure(NullReference);
    }
    r := UpdateByEmail(db, accountId, email.value, encoded);
  }

  /**
   * The one-column UPDATE of updateUserPassword and updateUserStatus, keyed
   * by email and account; an update that matches no row, or a statement the
   * database rejects, is a ServiceLayerException without cause.
   */
  method UpdateByEmail(db: Database, accountId: int, email: string, e: Entry) returns (r: Result<(), Error>)
    requires db.Valid() && UserMapper.Assignable(e)
    modifies db
    ensures db.Valid()
    ensures db.State() == old(db.State()).(users := db.users) && UserMapper.KeysKept(old(db.users), db.users)
    ensures r.Failure? ==> r.error == ServiceLayer(None)
    ensures QuoteFree(email) && UserMapper.QuoteFreeValue(e.value) ==>
              && (r.Success? <==> exists i :: 0 <= i < |old(db.users)| && old(db.users)[i].email == email
                                              && old(db.users)[i].accountId == accountId)
              && forall i :: 0 <= i < |db.users| ==>
                   db.users[i] == if old(db.users)[i].email == email && old(db.users)[i].accountId == accountId
                                  then UserMapper.Assign(old(db.users)[i], e)
                                  else old(db.users)[i]
  {
    if QuoteFree(email) && UserMapper.QuoteFreeValue(e.value) {
      EmailUpdateEffect(db.users, email, accountId, e);
    }
    var updated := UserDao.Update(db, [e], EmailAccountConditions(email, accountId));
    if updated.Failure? {
      return Failure(ServiceLayer(None));
    }
    r := Success(());
  }

  /** A status is written by its name, which carries no quote. */
  lemma StatusNameQuoteFree(status: UserStatus)
    ensures QuoteFree(StatusName(status))
  {
    var name := StatusName(status);
    forall i | 0 <= i < |name| ensures name[i] != '\'' {
      if status == CREATED {
        assert name == "CREATED";
      } else if status == ACTIVE {
        assert name == "ACTIVE";
      } else {
        assert name == "SUSPENDED";
      }
    }
  }

  /**
   * updateUserStatus: set the status of the user with that email in that
   * account. A null status or email fails in Map.of; no matching row fails
   * as updateUserPassword does. The effect is exact for an email without a
   * quote.
   */
  method UpdateUserStatus(db: Database, accountId: int, email: Option<string>, status: Option<UserStatus>) returns (r: Result<(), Error>)
    requires db.Valid()
    modifies db
    ensures db.Valid()
    ensures db.State() == old(db.State()).(users := db.users) && UserMapper.KeysKept(old(db.users), db.users)
    ensures status.None? || email.None? ==> r == Failure(NullReference) && db.State() == old(db.State())
    ensures status.Some? && email.Some? && r.Failure? ==> r.error == ServiceLayer(None)
    ensures status.Some? && email.Some? && QuoteFree(email.value) ==>
              && (r.Success? <==> exists i :: 0 <= i < |old(db.users)| && old(db.users)[i].email == email.value
                                              && old(db.users)[i].accountId == accountId)
              && forall i :: 0 <= i < |db.users| ==>
                   db.users[i] == if old(db.users)[i].email == email.value && old(db.users)[i].accountId == accountId
                                  then old(db.users)[i].(status := status.value)
                                  else old(db.users)[i]
  {
    if status.None? || email.None? {
      return Failure(NullReference);
    }
    StatusNameQuoteFree(status.value);
    r := UpdateByEmail(db, accountId, email.value, Entry("status", Plain(StatusName(status.value))));
  }

  /** The login-time SET entries: last_login and current_login, as literal text. */
  function LoginUpdates(): seq<Entry> {
    [Entry("last_login", Plain(CURRENT_LOGIN_REFERENCE)), Entry("current_login", Plain(CURRENT_TIMESTAMP))]
  }

  /** The login-time WHERE entries: the email, and the account only when one is given. */
  function LoginConditions(email: string, accountId: Option<int>): seq<Entry> {
    [Entry("email", Plain(email))] + (if accountId.Some? then [Entry("account_id", Plain(DecimalString(accountId.value)))] else [])
  }

  /** The rows updateLastLoginTime touches: the email, in the given account or, without one, in every account. */
  predicate LoginTarget(row: UserRow, email: string, accountId: Option<int>) {
    row.email == email && (accountId.Some? ==> row.accountId == accountId.value)
  }

  lemma LoginConditionsMatch(row: UserRow, email: string, accountId: Option<int>)
    ensures UserMapper.Matches(row, LoginConditions(email, accountId)) <==> LoginTarget(row, email, accountId)
  {
    var conditions := LoginConditions(email, accountId);
    if UserMapper.Matches(row, conditions) {
      assert UserMapper.Holds(row, conditions[0]);
      if accountId.Some? {
        assert UserMapper.Holds(row, conditions[1]);
        DecimalStringInjective(row.accountId, accountId.value);
      }
    }
  }

  /** The login UPDATE's two texts carry no quote. */
  lemma LoginUpdatesQuoteFree()
    ensures UserMapper.QuoteFreeEntries(LoginUpdates())
  {
    assert CURRENT_LOGIN_REFERENCE == "$col:current_login";
    assert CURRENT_TIMESTAMP == "CURRENT_TIMESTAMP";
  }

  /**
   * The login UPDATE for an email without a quote: accepted, it matches
   * exactly the login targets and stamps both login columns on them.
   */
  lemma LoginUpdateEffect(users: seq<UserRow>, email: string, accountId: Option<int>)
    requires QuoteFree(email)
    ensures UserMapper.WellFormedUpdate(LoginUpdates(), LoginConditions(email, accountId))
    ensures UserMapper.MatchCount(users, LoginConditions(email, accountId)) > 0 <==>
              exists i :: 0 <= i < |users| && LoginTarget(users[i], email, accountId)
    ensures forall i :: 0 <= i < |users| ==>
              UserMapper.UpdatedUsers(users, LoginUpdates(), LoginConditions(email, accountId))[i]
              == if LoginTarget(users[i], email, accountId)
                 then users[i].(lastLogin := Some(CURRENT_LOGIN_REFERENCE), currentLogin := Some(CURRENT_TIMESTAMP))
                 else users[i]
  {
    var updates := LoginUpdates();
    var conditions := LoginConditions(email, accountId);
    LoginUpdatesQuoteFree();
    if accountId.Some? {
      UserMapper.DecimalStringQuoteFree(accountId.value);
    }
    forall i | 0 <= i < |users| ensures UserMapper.Matches(users[i], conditions) <==> LoginTarget(users[i], email, accountId) {
      LoginConditionsMatch(users[i], email, accountId);
    }
    forall i | 0 <= i < |users|
      ensures UserMapper.AssignAll(users[i], updates)
              == users[i].(lastLogin := Some(CURRENT_LOGIN_REFERENCE), currentLogin := Some(CURRENT_TIMESTAMP))
    {
      assert updates[..1] == [updates[0]];
      AssignSingle(users[i], updates[0]);
    }
  }

  /**
   * updateLastLoginTime: on the target rows, last_login and current_login
   * receive the literal text the statement carries. A null accountId (a
   * root login) drops the account filter. No matching row is a
   * ServiceLayerException wrapping the DAO's exception. The effect is exact
   * for an email without a quote.
   */
  method UpdateLastLoginTime(db: Database, accountId: Option<int>, email: string) returns (r: Result<(), Error>)
    requires db.Valid()
    modifies db
    ensures db.Valid()
    ensures db.State() == old(db.State()).(users := db.users) && UserMapper.KeysKept(old(db.users), db.users)
    ensures r.Failure? ==> || (r.error == ServiceLayer(Some(DaoLayer(Some(SqlError)))) && db.State() == old(db.State()))
                           || r.error == ServiceLayer(Some(DaoLayer(Some(DaoLayer(None)))))
    ensures QuoteFree(email) ==>
              && (r.Success? <==> exists i :: 0 <= i < |old(db.users)| && LoginTarget(old(db.users)[i], email, accountId))
              && (r.Failure? ==> r.error == ServiceLayer(Some(DaoLayer(Some(DaoLayer(None))))))
              && forall i :: 0 <= i < |db.users| ==>
                   db.users[i] == if LoginTarget(old(db.users)[i], email, accountId)
                                  then old(db.users)[i].(lastLogin := Some(CURRENT_LOGIN_REFERENCE), currentLogin := Some(CURRENT_TIMESTAMP))
                                  else old(db.users)[i]
  {
    var updates := LoginUpdates();
    var conditions := LoginConditions(email, accountId);
    if QuoteFree(email) {
      LoginUpdateEffect(db.users, email, accountId);
    }
    var updated := UserDao.Update(db, updates, conditions);
    if updated.Failure? {
      return Failure(ServiceLayer(Some(updated.error)));
    }
    r := Success(());
  }

  /**
   * As written, the login update never carries the previous login over: the
   * builder quotes "$col:current_login" like any other text, so a target row
   * whose current_login held anything else loses that value.
   */
  lemma LoginUpdateLosesPreviousLogin(users: seq<UserRow>, email: string, accountId: Option<int>, i: int)
    requires QuoteFree(email)
    requires 0 <= i < |users| && LoginTarget(users[i], email, accountId)
    requires users[i].currentLogin != Some(CURRENT_LOGIN_REFERENCE)
    ensures UserMapper.UpdatedUsers(users, LoginUpdates(), LoginConditions(email, accountId))[i].lastLogin != users[i].currentLogin
  {
    LoginUpdateEffect(users, email, accountId);
  }

  /** The evidently intended login update: current_login moves to last_login, and the login time becomes current_login. */
  function LoginRotated(users: seq<UserRow>, email: string, accountId: Option<int>, now: string): (after: seq<UserRow>)
    ensures |after| == |users|
  {
    seq(|users|, i requires 0 <= i < |users| =>
      if LoginTarget(users[i], email, accountId) then users[i].(lastLogin := users[i].currentLogin, currentLogin := Some(now))
      else users[i])
  }

  /**
   * updateLastLoginTime as evidently intended: the same target rows and the
   * same failure, but last_login receives the previous current_login.
   */
  method RotateLastLoginTime(db: Database, accountId: Option<int>, email: string, now: string) returns (r: Result<(), Error>)
    requires db.Valid()
    modifies db
    ensures db.Valid()
    ensures r.Success? <==> exists i :: 0 <= i < |old(db.users)| && LoginTarget(old(db.users)[i], email, accountId)
    ensures r.Failure? ==> r == Failure(ServiceLayer(Some(DaoLayer(Some(DaoLayer(None)))))) && db.State() == old(db.State())
    ensures db.State() == old(db.State()).(users := db.users) && |db.users| == |old(db.users)|
    ensures r.Success? ==> db.users == LoginRotated(old(db.users), email, accountId, now)
    ensures r.Success? ==> forall i :: 0 <= i < |db.users| && LoginTarget(old(db.users)[i], email, accountId) ==>
              db.users[i] == old(db.users)[i].(lastLogin := old(db.users)[i].currentLogin, currentLogin := Some(now))
    ensures forall i :: 0 <= i < |db.users| && !LoginTarget(old(db.users)[i], email, accountId) ==> db.users[i] == old(db.users)[i]
  {
    if !exists i :: 0 <= i < |db.users| && LoginTarget(db.users[i], email, accountId) {
      return Failure(ServiceLayer(Some(DaoLayer(Some(DaoLayer(None))))));
    }
    var after := LoginRotated(db.users, email, accountId, now);
    assert forall i :: 0 <= i < |after| ==> after[i].id == db.users[i].id;
    db.users := after;
    r := Success(());
  }

  /** listUsersByAccountId: the account's users as the DAO lists them. */
  function ListUsersByAccountId(s: DbState, accountId: int): (r: Result<seq<User>, Error>)
    ensures r.Success?
    ensures forall u :: u in r.value ==> u.accountId == accountId
    ensures forall row :: row in s.users && row.accountId == accountId ==> UserMapper.UserOf(s, row) in r.value
    ensures forall u :: u in r.value ==> exists row :: row in s.users && row.accountId == accountId && u == UserMapper.UserOf(s, row)
  {
    Success(UserDao.ListByAccountId(s, accountId))
  }

  /** A nullable map value: null renders as SQL null. */
  function NullableText(v: Option<string>): (value: SqlValue)
    ensures UserMapper.Literal(value) == v
  {
    if v.Some? then Plain(v.value) else SqlNull
  }

  /** The profile SET entries: first and last name always, middle name only when given. */
  function ProfileUpdates(firstName: Option<string>, lastName: Option<string>, middleName: Option<string>): seq<Entry> {
    [Entry("first_name", NullableText(firstName)), Entry("last_name", NullableText(lastName))]
    + (if middleName.Some? then [Entry("middle_name", Plain(middleName.value))] else [])
  }

  /** Map.of("id", userId, "account_id", accountId) as WHERE entries. */
  function IdConditions(userId: int, accountId: int): seq<Entry> {
    [Entry("id", Plain(DecimalString(userId))), Entry("account_id", Plain(DecimalString(accountId)))]
  }

  /** A row after a profile update: names replaced, a null middle name leaving the old one. */
  function WithProfile(row: UserRow, firstName: Option<string>, lastName: Option<string>, middleName: Option<string>): UserRow {
    row.(firstName := firstName, lastName := lastName,
         middleName := if middleName.Some? then middleName else row.middleName)
  }

  lemma ProfileAssignment(row: UserRow, firstName: Option<string>, lastName: Option<string>, middleName: Option<string>)
    ensures forall k :: 0 <= k < |ProfileUpdates(firstName, lastName, middleName)| ==> UserMapper.Assignable(ProfileUpdates(firstName, lastName, middleName)[k])
    ensures UserMapper.AssignAll(row, ProfileUpdates(firstName, lastName, middleName)) == WithProfile(row, firstName, lastName, middleName)
  {
    var updates := ProfileUpdates(firstName, lastName, middleName);
    var two := updates[..2];
    assert two[..1] == [updates[0]];
    AssignSingle(row, updates[0]);
    if middleName.Some? {
      assert updates[..2] == two;
    } else {
      assert updates == two;
    }
  }

  /** The profile entries with updated_at set as updateUser sets it. */
  function UserUpdates(firstName: Option<string>, lastName: Option<string>, middleName: Option<string>): seq<Entry> {
    ProfileUpdates(firstName, lastName, middleName) + [Entry("updated_at", Plain(CURRENT_TIMESTAMP))]
  }

  lemma UserUpdateAssignment(row: UserRow, firstName: Option<string>, lastName: Option<string>, middleName: Option<string>)
    ensures forall k :: 0 <= k < |UserUpdates(firstName, lastName, middleName)| ==> UserMapper.Assignable(UserUpdates(firstName, lastName, middleName)[k])
    ensures UserMapper.AssignAll(row, UserUpdates(firstName, lastName, middleName))
            == WithProfile(row, firstName, lastName, middleName).(updatedAt := Some(CURRENT_TIMESTAMP))
  {
    var updates := UserUpdates(firstName, lastName, middleName);
    ProfileAssignment(row, firstName, lastName, middleName);
    assert updates[..|updates| - 1] == ProfileUpdates(firstName, lastName, middleName);
  }

  /** The (id, account_id) WHERE clause selects exactly the user's row, so it matches iff the user exists. */
  lemma IdConditionsSelect(users: seq<UserRow>, userId: int, accountId: int)
    ensures forall i :: 0 <= i < |users| ==>
              (UserMapper.Matches(users[i], IdConditions(userId, accountId)) <==> users[i].id == userId && users[i].accountId == accountId)
    ensures UserMapper.MatchCount(users, IdConditions(userId, accountId)) > 0 <==>
              exists i :: 0 <= i < |users| && users[i].id == userId && users[i].accountId == accountId
  {
    forall i | 0 <= i < |users|
      ensures UserMapper.Matches(users[i], IdConditions(userId, accountId)) <==> users[i].id == userId && users[i].accountId == accountId
    {
      UserMapper.IdAndAccountConditions(users[i], userId, accountId);
    }
  }

  /** A nullable name the builder's quotes delimit exactly. */
  predicate QuoteFreeName(name: Option<string>) {
    name.Some? ==> QuoteFree(name.value)
  }

  predicate QuoteFreeNames(firstName: Option<string>, lastName: Option<string>, middleName: Option<string>) {
    QuoteFreeName(firstName) && QuoteFreeName(lastName) && QuoteFreeName(middleName)
  }

  /** Names without a quote make the profile UPDATE well formed, with or without updated_at. */
  lemma ProfileUpdateWellFormed(firstName: Option<string>, lastName: Option<string>, middleName: Option<string>, userId: int, accountId: int)
    requires QuoteFreeNames(firstName, lastName, middleName)
    ensures UserMapper.WellFormedUpdate(ProfileUpdates(firstName, lastName, middleName), IdConditions(userId, accountId))
    ensures UserMapper.WellFormedUpdate(UserUpdates(firstName, lastName, middleName), IdConditions(userId, accountId))
  {
    IdConditionsWellFormed(userId, accountId);
    ProfileEntriesQuoteFree(firstName, lastName, middleName);
    ProfileColumnsDistinct(firstName, lastName, middleName);
  }

  /** The profile SET entries are assignable and assign distinct columns, with or without updated_at. */
  lemma ProfileColumnsDistinct(firstName: Option<string>, lastName: Option<string>, middleName: Option<string>)
    ensures var profile := ProfileUpdates(firstName, lastName, middleName);
            && (forall k :: 0 <= k < |profile| ==> UserMapper.Assignable(profile[k]))
            && (forall i, j :: 0 <= i < j < |profile| ==> profile[i].column != profile[j].column)
    ensures var stamped := UserUpdates(firstName, lastName, middleName);
            && (forall k :: 0 <= k < |stamped| ==> UserMapper.Assignable(stamped[k]))
            && (forall i, j :: 0 <= i < j < |stamped| ==> stamped[i].column != stamped[j].column)
  {
    var profile := ProfileUpdates(firstName, lastName, middleName);
    var stamped := UserUpdates(firstName, lastName, middleName);
    assert forall k :: 0 <= k < |profile| ==> profile[k].column in {"first_name", "last_name", "middle_name"};
    assert stamped[..|profile|] == profile && stamped[|profile|].column == "updated_at";
  }

  /** The (id, account_id) WHERE entries name users columns and hold decimal digits only. */
  lemma IdConditionsWellFormed(userId: int, accountId: int)
    ensures forall k :: 0 <= k < |IdConditions(userId, accountId)| ==> IdConditions(userId, accountId)[k].column in UserMapper.USER_COLUMNS
    ensures UserMapper.QuoteFreeEntries(IdConditions(userId, accountId))
  {
    UserMapper.DecimalStringQuoteFree(userId);
    UserMapper.DecimalStringQuoteFree(accountId);
  }

  /** Quote-free names give quote-free SET entries, with or without updated_at. */
  lemma ProfileEntriesQuoteFree(firstName: Option<string>, lastName: Option<string>, middleName: Option<string>)
    requires QuoteFreeNames(firstName, lastName, middleName)
    ensures UserMapper.QuoteFreeEntries(ProfileUpdates(firstName, lastName, middleName))
    ensures UserMapper.QuoteFreeEntries(UserUpdates(firstName, lastName, middleName))
  {
    assert CURRENT_TIMESTAMP == "CURRENT_TIMESTAMP";
  }

  /** The SET entries of the profile write: updateUser's carry updated_at as well. */
  function ProfileWrite(firstName: Option<string>, lastName: Option<string>, middleName: Option<string>, stamp: bool): seq<Entry> {
    if stamp then UserUpdates(firstName, lastName, middleName) else ProfileUpdates(firstName, lastName, middleName)
  }

  /** A row after the profile write: updateUser also stamps updated_at. */
  function Edited(row: UserRow, firstName: Option<string>, lastName: Option<string>, middleName: Option<string>, stamp: bool): UserRow {
    var named := WithProfile(row, firstName, lastName, middleName);
    if stamp then named.(updatedAt := Some(CURRENT_TIMESTAMP)) else named
  }

  /** The users table after the profile write on (userId, accountId). */
  function ProfileEdited(users: seq<UserRow>, userId: int, accountId: int,
                         firstName: Option<string>, lastName: Option<string>, middleName: Option<string>, stamp: bool): (after: seq<UserRow>)
    ensures |after| == |users|
  {
    seq(|users|, i requires 0 <= i < |users| =>
      if users[i].id == userId && users[i].accountId == accountId then Edited(users[i], firstName, lastName, middleName, stamp) else users[i])
  }

  /**
   * For names without a quote, the profile UPDATE is accepted and turns the
   * user's row, and only it, into its edited form.
   */
  lemma ProfileWriteEffect(users: seq<UserRow>, userId: int, accountId: int,
                           firstName: Option<string>, lastName: Option<string>, middleName: Option<string>, stamp: bool)
    requires QuoteFreeNames(firstName, lastName, middleName)
    ensures UserMapper.WellFormedUpdate(ProfileWrite(firstName, lastName, middleName, stamp), IdConditions(userId, accountId))
    ensures UserMapper.UpdatedUsers(users, ProfileWrite(firstName, lastName, middleName, stamp), IdConditions(userId, accountId))
            == ProfileEdited(users, userId, accountId, firstName, lastName, middleName, stamp)
  {
    var updates := ProfileWrite(firstName, lastName, middleName, stamp);
    var conditions := IdConditions(userId, accountId);
    ProfileUpdateWellFormed(firstName, lastName, middleName, userId, accountId);
    var after := UserMapper.UpdatedUsers(users, updates, conditions);
    var edited := ProfileEdited(users, userId, accountId, firstName, lastName, middleName, stamp);
    forall i | 0 <= i < |users|
      ensures after[i] == edited[i]
    {
      UserMapper.IdAndAccountConditions(users[i], userId, accountId);
      if stamp {
        UserUpdateAssignment(users[i], firstName, lastName, middleName);
      } else {
        ProfileAssignment(users[i], firstName, lastName, middleName);
      }
    }
    assert after == edited;
  }

  /**
   * The profile UPDATE of updateUserProfile (stamp false) and updateUser
   * (stamp true), keyed by id and account, on a user known to exist. For
   * names without a quote it always matches the user's row, so the DAO's
   * zero-row failure cannot happen; a name with a quote may make the
   * statement fail or rewrite other columns.
   */
  method WriteProfile(db: Database, accountId: int, userId: int,
                      firstName: Option<string>, lastName: Option<string>, middleName: Option<string>, stamp: bool)
    returns (r: Result<(), Error>)
    requires db.Valid()
    requires exists i :: 0 <= i < |db.users| && db.users[i].id == userId && db.users[i].accountId == accountId
    modifies db
    ensures db.Valid()
    ensures db.State() == old(db.State()).(users := db.users) && UserMapper.KeysKept(old(db.users), db.users)
    ensures r.Failure? ==> || (r.error == DaoLayer(Some(SqlError)) && db.State() == old(db.State()))
                           || r.error == DaoLayer(Some(DaoLayer(None)))
    ensures QuoteFreeNames(firstName, lastName, middleName) ==>
              r == Success(()) && db.users == ProfileEdited(old(db.users), userId, accountId, firstName, lastName, middleName, stamp)
  {
    var updates := ProfileWrite(firstName, lastName, middleName, stamp);
    var conditions := IdConditions(userId, accountId);
    if QuoteFreeNames(firstName, lastName, middleName) {
      IdConditionsSelect(db.users, userId, accountId);
      ProfileWriteEffect(db.users, userId, accountId, firstName, lastName, middleName, stamp);
    }
    var updated := UserDao.Update(db, updates, conditions);
    if updated.Failure? {
      return Failure(updated.error);
    }
    r := Success(());
  }

  /**
   * updateUserProfile: the user must exist in the account; then its names are
   * written (a null middle name leaves the stored one). Email is never
   * written by names without a quote. A failed lookup propagates as it is; a
   * failed write is a ServiceLayerException wrapping the DAO's exception.
   */
  method UpdateUserProfile(db: Database, accountId: int, userId: int, request: ProfileUpdateRequest) returns (r: Result<(), Error>)
    requires db.Valid()
    modifies db
    ensures db.Valid()
    ensures db.State() == old(db.State()).(users := db.users) && UserMapper.KeysKept(old(db.users), db.users)
    ensures r.Success? ==> exists i :: 0 <= i < |old(db.users)| && old(db.users)[i].id == userId && old(db.users)[i].accountId == accountId
    ensures (forall i :: 0 <= i < |old(db.users)| ==> !(old(db.users)[i].id == userId && old(db.users)[i].accountId == accountId))
            ==> r == Failure(ResourceNotFound) && db.State() == old(db.State())
    ensures r.Failure? && r.error != ResourceNotFound ==>
              || (r.error == ServiceLayer(Some(DaoLayer(Some(SqlError)))) && db.State() == old(db.State()))
              || r.error == ServiceLayer(Some(DaoLayer(Some(DaoLayer(None)))))
    ensures (exists i :: 0 <= i < |old(db.users)| && old(db.users)[i].id == userId && old(db.users)[i].accountId == accountId)
            && QuoteFreeNames(request.firstName, request.lastName, request.middleName) ==>
              r == Success(()) && db.users == ProfileEdited(old(db.users), userId, accountId,
                                                            request.firstName, request.lastName, request.middleName, false)
  {
    var found := FindByAccountIdAndUserId(db.State(), accountId, userId);
    UserMapper.FindByAccountIdAndUserIdNeverFails(db.State(), accountId, userId);
    if found.Failure? {
      IdConditionsSelect(db.users, userId, accountId);
      return Failure(found.error);
    }
    FoundUserIsStored(db.State(), accountId, userId);
    var written := WriteProfile(db, accountId, userId, request.firstName, request.lastName, request.middleName, false);
    if written.Failure? {
      return Failure(ServiceLayer(Some(written.error)));
    }
    r := Success(());
  }

  /** A profile write changes the named user's names and nothing that identifies a row. */
  lemma ProfileEditKeepsIdentity(users: seq<UserRow>, userId: int, accountId: int,
                                 firstName: Option<string>, lastName: Option<string>, middleName: Option<string>, stamp: bool, i: int)
    requires 0 <= i < |users|
    ensures var after := ProfileEdited(users, userId, accountId, firstName, lastName, middleName, stamp)[i];
            && after.id == users[i].id && after.accountId == users[i].accountId && after.email == users[i].email
            && after.status == users[i].status && after.password == users[i].password
            && (users[i].id == userId && users[i].accountId == accountId ==>
                  after.firstName == firstName && after.lastName == lastName
                  && after.middleName == (if middleName.Some? then middleName else users[i].middleName))
            && (!(users[i].id == userId && users[i].accountId == accountId) ==> after == users[i])
  {
  }

  /** A user the lookup finds has a row, so its id is a users id. */
  lemma FoundUserIsStored(s: DbState, accountId: int, userId: int)
    requires FindByAccountIdAndUserId(s, accountId, userId).Success?
    ensures userId in UserIds(s)
    ensures exists i :: 0 <= i < |s.users| && s.users[i].id == userId && s.users[i].accountId == accountId
  {
    var row :| row in s.users && row.id == userId && row.accountId == accountId
               && FindByAccountIdAndUserId(s, accountId, userId).value == UserMapper.UserOf(s, row);
    var i :| 0 <= i < |s.users| && s.users[i] == row;
  }

  /** roleService.findById for each id, in order. */
  function Lookups(s: DbState, roleIds: seq<int>, accountId: int): (lookups: seq<Result<Role, Error>>)
    ensures |lookups| == |roleIds|
    ensures forall i :: 0 <= i < |roleIds| ==> lookups[i] == RoleService.FindById(s, roleIds[i], accountId)
  {
    seq(|roleIds|, i requires 0 <= i < |roleIds| => RoleService.FindById(s, roleIds[i], accountId))
  }

  /** All the values of a sequence of outcomes, or the first failure among them. */
  function Collect<T>(outcomes: seq<Result<T, Error>>): (r: Result<seq<T>, Error>)
    ensures r.Success? ==> |r.value| == |outcomes|
    decreases |outcomes|
  {
    if outcomes == [] then Success([])
    else if outcomes[0].Failure? then Failure(outcomes[0].error)
    else
      var rest := Collect(outcomes[1..]);
      if rest.Failure? then Failure(rest.error) else Success([outcomes[0].value] + rest.value)
  }

  /**
   * Collecting succeeds exactly when every outcome is a success, and then
   * yields their values in order; otherwise it fails with the first failure.
   */
  lemma {:induction false} CollectMeaning<T>(outcomes: seq<Result<T, Error>>)
    ensures var r := Collect(outcomes);
            && (r.Success? <==> forall i :: 0 <= i < |outcomes| ==> outcomes[i].Success?)
            && (r.Success? ==> forall i :: 0 <= i < |outcomes| ==> r.value[i] == outcomes[i].value)
            && (r.Failure? ==> exists i :: && 0 <= i < |outcomes| && outcomes[i] == Failure(r.error)
                                           && forall k :: 0 <= k < i ==> outcomes[k].Success?)
    decreases |outcomes|
  {
    if outcomes != [] {
      var tail := outcomes[1..];
      CollectMeaning(tail);
      var r := Collect(outcomes);
      var rest := Collect(tail);
      if outcomes[0].Failure? {
        assert outcomes[0] == Failure(r.error);
      } else if rest.Failure? {
        assert r == Failure(rest.error);
        var j :| 0 <= j < |tail| && tail[j] == Failure(rest.error) && forall k :: 0 <= k < j ==> tail[k].Success?;
        assert outcomes[j + 1] == Failure(r.error);
        forall k | 0 <= k < j + 1 ensures outcomes[k].Success? {
          if k > 0 {
            assert outcomes[k] == tail[k - 1];
          }
        }
      } else {
        assert r == Success([outcomes[0].value] + rest.value);
        forall i | 0 <= i < |outcomes| ensures outcomes[i].Success? && r.value[i] == outcomes[i].value {
          if i > 0 {
            assert outcomes[i] == tail[i - 1];
            assert r.value[i] == rest.value[i - 1];
          }
        }
      }
    }
  }

  /** A failure after only successes is the failure collecting reports. */
  lemma CollectFirstFailure<T>(outcomes: seq<Result<T, Error>>, i: nat)
    requires i < |outcomes| && outcomes[i].Failure?
    requires forall k :: 0 <= k < i ==> outcomes[k].Success?
    ensures Collect(outcomes) == Failure(outcomes[i].error)
  {
    CollectMeaning(outcomes);
    var r := Collect(outcomes);
    var j :| 0 <= j < |outcomes| && outcomes[j] == Failure(r.error) && forall k :: 0 <= k < j ==> outcomes[k].Success?;
    assert j >= i;
    assert j <= i;
  }

  /** When every outcome succeeds, collecting yields exactly their values. */
  lemma CollectAllValues<T>(outcomes: seq<Result<T, Error>>, values: seq<T>)
    requires |values| == |outcomes|
    requires forall k :: 0 <= k < |outcomes| ==> outcomes[k].Success? && values[k] == outcomes[k].value
    ensures Collect(outcomes) == Success(values)
  {
    CollectMeaning(outcomes);
    assert Collect(outcomes).value == values;
  }

  /** The roles the ids name in the account, in order, or the first lookup's failure. */
  function ResolveRoles(s: DbState, roleIds: seq<int>, accountId: int): (r: Result<seq<Role>, Error>)
    ensures r.Success? ==> |r.value| == |roleIds|
  {
    Collect(Lookups(s, roleIds, accountId))
  }

  /**
   * The validation loop of updateUserRoles and updateUser: look every id up
   * in the account, collecting the roles; the first lookup that fails ends it.
   */
  method ValidateRoles(db: Database, roleIds: seq<int>, accountId: int) returns (r: Result<seq<Role>, Error>)
    ensures r == ResolveRoles(db.State(), roleIds, accountId)
  {
    ghost var lookups := Lookups(db.State(), roleIds, accountId);
    var validRoles: seq<Role> := [];
    var i := 0;
    while i < |roleIds|
      invariant 0 <= i <= |roleIds|
      invariant |validRoles| == i
      invariant forall k :: 0 <= k < i ==> lookups[k].Success? && validRoles[k] == lookups[k].value
    {
      var role := RoleService.FindById(db.State(), roleIds[i], accountId);
      assert role == lookups[i];
      if role.Failure? {
        CollectFirstFailure(lookups, i);
        return Failure(role.error);
      }
      validRoles := validRoles + [role.value];
      i := i + 1;
    }
    CollectAllValues(lookups, validRoles);
    r := Success(validRoles);
  }

  /** The user's links after delete-then-insert: every other link kept, the user's links in the account replaced. */
  function ReplacedLinks(links: set<UserRoleLink>, userId: int, roleIds: seq<int>, accountId: int): set<UserRoleLink> {
    UserDao.WithoutLinksOf(links, userId, accountId) + UserMapper.UserRoleLinks(userId, roleIds, accountId)
  }

  /** The role ids a user is linked to within an account. */
  function LinkedRoleIds(links: set<UserRoleLink>, userId: int, accountId: int): set<int> {
    set l | l in links && l.userId == userId && l.accountId == accountId :: l.roleId
  }

  /** After the replacement the user's links in the account name exactly the requested ids. */
  lemma ReplacedRoleIdsExact(links: set<UserRoleLink>, userId: int, roleIds: seq<int>, accountId: int)
    ensures LinkedRoleIds(ReplacedLinks(links, userId, roleIds, accountId), userId, accountId) == set id | id in roleIds
  {
    var after := ReplacedLinks(links, userId, roleIds, accountId);
    forall id | id in roleIds ensures id in LinkedRoleIds(after, userId, accountId) {
      assert UserRoleLink(userId, id, accountId) in after;
    }
  }

  /** The replacement leaves every other user's and every other account's links alone. */
  lemma ReplacedLinksKeepOthers(links: set<UserRoleLink>, userId: int, roleIds: seq<int>, accountId: int, l: UserRoleLink)
    requires !(l.userId == userId && l.accountId == accountId)
    ensures l in ReplacedLinks(links, userId, roleIds, accountId) <==> l in links
  {
  }

  /** Replacing twice with the same ids is replacing once. */
  lemma ReplaceIdempotent(links: set<UserRoleLink>, userId: int, roleIds: seq<int>, accountId: int)
    ensures ReplacedLinks(ReplacedLinks(links, userId, roleIds, accountId), userId, roleIds, accountId)
            == ReplacedLinks(links, userId, roleIds, accountId)
  {
    var once := ReplacedLinks(links, userId, roleIds, accountId);
    var twice := ReplacedLinks(once, userId, roleIds, accountId);
    forall l | l in once ensures l in twice {
      if l.userId == userId && l.accountId == accountId {
        assert l in UserMapper.UserRoleLinks(userId, roleIds, accountId);
      }
    }
  }

  /** Every requested role that resolved is a role row of the account. */
  lemma ResolvedRolesBelongToAccount(s: DbState, roleIds: seq<int>, accountId: int)
    requires ResolveRoles(s, roleIds, accountId).Success?
    ensures forall id :: id in roleIds ==> exists row :: row in s.roles && row.id == id && row.accountId == accountId
  {
    CollectMeaning(Lookups(s, roleIds, accountId));
    forall id | id in roleIds ensures exists row :: row in s.roles && row.id == id && row.accountId == accountId {
      var i :| 0 <= i < |roleIds| && roleIds[i] == id;
      var role := RoleService.FindById(s, id, accountId).value;
      assert RoleRow(id, role.name, role.description, accountId) in s.roles;
    }
  }

  /** The outcome of updateUserRoles on a database state, before anything is written. */
  function RoleUpdateOutcome(s: DbState, accountId: int, userId: int, roleIds: Option<seq<int>>): Result<(), Error> {
    match FindByAccountIdAndUserId(s, accountId, userId)
    case Failure(e) => Failure(e)
    case Success(_) =>
      if roleIds.None? then Failure(NullReference)
      else
        match ResolveRoles(s, roleIds.value, accountId)
        case Failure(e) => Failure(e)
        case Success(_) => Success(())
  }

  /**
   * updateUserRoles (rollbackFor ServiceLayerException): the user must exist;
   * every requested id must resolve to a role of the account before anything
   * is deleted; then the user's links in the account are replaced by exactly
   * the requested ones. A null id list is a NullPointerException.
   */
  method UpdateUserRoles(db: Database, accountId: int, userId: int, roleIds: Option<seq<int>>) returns (r: Result<(), Error>)
    requires db.Valid()
    modifies db
    ensures db.Valid()
    ensures r == RoleUpdateOutcome(old(db.State()), accountId, userId, roleIds)
    ensures r.Failure? ==> db.State() == old(db.State())
    ensures r.Failure? <==> || (forall i :: 0 <= i < |old(db.users)| ==> !(old(db.users)[i].id == userId && old(db.users)[i].accountId == accountId))
                            || roleIds.None?
                            || exists i :: 0 <= i < |roleIds.value| && RoleService.FindById(old(db.State()), roleIds.value[i], accountId).Failure?
    ensures r.Success? ==>
              db.State() == old(db.State()).(userRoles := ReplacedLinks(old(db.userRoles), userId, roleIds.value, accountId))
  {
    var found := FindByAccountIdAndUserId(db.State(), accountId, userId);
    UserMapper.FindByAccountIdAndUserIdNeverFails(db.State(), accountId, userId);
    if found.Failure? {
      return Failure(found.error);
    }
    if roleIds.None? {
      return Failure(NullReference);
    }
    CollectMeaning(Lookups(db.State(), roleIds.value, accountId));
    FoundUserIsStored(db.State(), accountId, userId);
    r := ReplaceUserRoles(db, accountId, userId, roleIds.value);
  }

  /**
   * The role step shared by updateUserRoles and updateUser: validate every
   * id, then delete the user's links in the account and insert the new
   * ones. Nothing is written unless every id resolves.
   */
  method ReplaceUserRoles(db: Database, accountId: int, userId: int, roleIds: seq<int>) returns (r: Result<(), Error>)
    requires db.Valid() && userId in UserIds(db.State())
    modifies db
    ensures db.Valid()
    ensures ResolveRoles(old(db.State()), roleIds, accountId).Success? ==> r == Success(())
    ensures ResolveRoles(old(db.State()), roleIds, accountId).Failure? ==>
              r == Failure(ResolveRoles(old(db.State()), roleIds, accountId).error) && db.State() == old(db.State())
    ensures r.Success? ==> db.State() == old(db.State()).(userRoles := ReplacedLinks(old(db.userRoles), userId, roleIds, accountId))
  {
    var validRoles := ValidateRoles(db, roleIds, accountId);
    if validRoles.Failure? {
      return Failure(validRoles.error);
    }
    ReplaceSucceeds(db.State(), userId, roleIds, accountId);
    UserDao.DeleteUserRoles(db, userId, accountId);
    var linked := UserDao.AssignUserRoles(db, userId, roleIds, accountId);
    assert linked.Success?;
    r := Success(());
  }

  /**
   * After the user's links in the account are deleted, inserting the
   * resolved ids for an existing user always adds a row, so the DAO's
   * zero-row and foreign-key failures cannot happen.
   */
  lemma ReplaceSucceeds(s: DbState, userId: int, roleIds: seq<int>, accountId: int)
    requires ResolveRoles(s, roleIds, accountId).Success?
    ensures forall i :: 0 <= i < |roleIds| ==> roleIds[i] in RoleIds(s)
    ensures roleIds != [] ==> !(UserMapper.UserRoleLinks(userId, roleIds, accountId) <= UserDao.WithoutLinksOf(s.userRoles, userId, accountId))
  {
    ResolvedRolesBelongToAccount(s, roleIds, accountId);
    forall i | 0 <= i < |roleIds| ensures roleIds[i] in RoleIds(s) {
      assert roleIds[i] in roleIds;
    }
    if roleIds != [] {
      assert UserRoleLink(userId, roleIds[0], accountId) in UserMapper.UserRoleLinks(userId, roleIds, accountId);
    }
  }

  /** A role lookup reads only the roles, permissions and their links, never the users table. */
  lemma FindRoleIgnoresUsers(s: DbState, users: seq<UserRow>, roleId: int, accountId: int)
    ensures RoleService.FindById(s.(users := users), roleId, accountId) == RoleService.FindById(s, roleId, accountId)
  {
    var t := s.(users := users);
    assert RoleMapper.FindByAccountIdAndId(t, roleId, accountId) == RoleMapper.FindByAccountIdAndId(s, roleId, accountId) by {
      assert t.roles == s.roles && t.rolePermissions == s.rolePermissions && t.permissions == s.permissions;
      assert RoleMapper.PermissionsOfRole(t, roleId) == RoleMapper.PermissionsOfRole(s, roleId);
    }
  }

  /** So resolving role ids gives the same outcome before and after a write to users. */
  lemma ResolveRolesIgnoresUsers(s: DbState, users: seq<UserRow>, roleIds: seq<int>, accountId: int)
    ensures ResolveRoles(s.(users := users), roleIds, accountId) == ResolveRoles(s, roleIds, accountId)
  {
    var t := s.(users := users);
    forall i | 0 <= i < |roleIds| ensures RoleService.FindById(t, roleIds[i], accountId) == RoleService.FindById(s, roleIds[i], accountId) {
      FindRoleIgnoresUsers(s, users, roleIds[i], accountId);
    }
    assert Lookups(t, roleIds, accountId) == Lookups(s, roleIds, accountId);
  }

  /** Whether updateUser replaces the roles: the id list is non-null and non-empty. */
  predicate ReplacesRoles(request: UserUpdateRequest) {
    request.roleIds.Some? && request.roleIds.value != []
  }

  /**
   * updateUser (rollbackFor ServiceLayerException): the user must exist;
   * names and updated_at are written; then, when a non-empty id list is
   * given, every id must resolve in the account and the user's links in the
   * account are replaced by exactly those. A failed profile write or role
   * lookup undoes everything. The profile effect is exact for names without
   * a quote.
   */
  method UpdateUser(db: Database, accountId: int, userId: int, request: UserUpdateRequest) returns (r: Result<(), Error>)
    requires db.Valid()
    modifies db
    ensures db.Valid()
    ensures r.Failure? ==> db.State() == old(db.State())
    ensures (forall i :: 0 <= i < |old(db.users)| ==> !(old(db.users)[i].id == userId && old(db.users)[i].accountId == accountId))
            ==> r == Failure(ResourceNotFound)
    ensures (exists i :: 0 <= i < |old(db.users)| && old(db.users)[i].id == userId && old(db.users)[i].accountId == accountId)
            && QuoteFreeNames(request.firstName, request.lastName, request.middleName) ==>
              if ReplacesRoles(request) && ResolveRoles(old(db.State()), request.roleIds.value, accountId).Failure?
              then r == Failure(ResolveRoles(old(db.State()), request.roleIds.value, accountId).error)
              else r == Success(())
    ensures r.Failure? && r.error != ResourceNotFound ==>
              || (ReplacesRoles(request) && ResolveRoles(old(db.State()), request.roleIds.value, accountId).Failure?
                  && r.error == ResolveRoles(old(db.State()), request.roleIds.value, accountId).error)
              || r.error == ServiceLayer(Some(DaoLayer(Some(SqlError))))
              || r.error == ServiceLayer(Some(DaoLayer(Some(DaoLayer(None)))))
    ensures r.Success? ==>
              && (exists i :: 0 <= i < |old(db.users)| && old(db.users)[i].id == userId && old(db.users)[i].accountId == accountId)
              && !(ReplacesRoles(request) && ResolveRoles(old(db.State()), request.roleIds.value, accountId).Failure?)
              && UserMapper.KeysKept(old(db.users), db.users)
              && db.State() == old(db.State()).(
                   users := db.users,
                   userRoles := if ReplacesRoles(request)
                                then ReplacedLinks(old(db.userRoles), userId, request.roleIds.value, accountId)
                                else old(db.userRoles))
    ensures r.Success? && QuoteFreeNames(request.firstName, request.lastName, request.middleName) ==>
              db.users == ProfileEdited(old(db.users), userId, accountId, request.firstName, request.lastName, request.middleName, true)
  {
    var found := FindByAccountIdAndUserId(db.State(), accountId, userId);
    UserMapper.FindByAccountIdAndUserIdNeverFails(db.State(), accountId, userId);
    if found.Failure? {
      IdConditionsSelect(db.users, userId, accountId);
      return Failure(found.error);
    }
    FoundUserIsStored(db.State(), accountId, userId);
    r := EditStoredUser(db, accountId, userId, request);
  }

  /**
   * updateUser once the user is found: the profile write, then the role
   * step, in one transaction that any failure rolls back.
   */
  method EditStoredUser(db: Database, accountId: int, userId: int, request: UserUpdateRequest) returns (r: Result<(), Error>)
    requires db.Valid()
    requires exists i :: 0 <= i < |db.users| && db.users[i].id == userId && db.users[i].accountId == accountId
    modifies db
    ensures db.Valid()
    ensures r.Failure? ==> db.State() == old(db.State())
    ensures QuoteFreeNames(request.firstName, request.lastName, request.middleName) ==>
              if ReplacesRoles(request) && ResolveRoles(old(db.State()), request.roleIds.value, accountId).Failure?
              then r == Failure(ResolveRoles(old(db.State()), request.roleIds.value, accountId).error)
              else r == Success(())
    ensures r.Failure? ==>
              || (ReplacesRoles(request) && ResolveRoles(old(db.State()), request.roleIds.value, accountId).Failure?
                  && r.error == ResolveRoles(old(db.State()), request.roleIds.value, accountId).error)
              || r.error == ServiceLayer(Some(DaoLayer(Some(SqlError))))
              || r.error == ServiceLayer(Some(DaoLayer(Some(DaoLayer(None)))))
    ensures r.Success? ==>
              && !(ReplacesRoles(request) && ResolveRoles(old(db.State()), request.roleIds.value, accountId).Failure?)
              && UserMapper.KeysKept(old(db.users), db.users)
              && db.State() == old(db.State()).(
                   users := db.users,
                   userRoles := if ReplacesRoles(request)
                                then ReplacedLinks(old(db.userRoles), userId, request.roleIds.value, accountId)
                                else old(db.userRoles))
    ensures r.Success? && QuoteFreeNames(request.firstName, request.lastName, request.middleName) ==>
              db.users == ProfileEdited(old(db.users), userId, accountId, request.firstName, request.lastName, request.middleName, true)
  {
    var snapshot := db.State();
    var written := WriteProfile(db, accountId, userId, request.firstName, request.lastName, request.middleName, true);
    if written.Failure? {
      db.Restore(snapshot);
      return Failure(ServiceLayer(Some(written.error)));
    }
    assert userId in UserIds(db.State()) by {
      var i :| 0 <= i < |snapshot.users| && snapshot.users[i].id == userId && snapshot.users[i].accountId == accountId;
      assert db.users[i].id == userId;
    }
    r := ReplaceRolesOrRollBack(db, snapshot, accountId, userId, request);
  }

  /**
   * The role step of updateUser, after the profile write: the user's links
   * are replaced when the request carries role ids, and a failed lookup
   * rolls the whole transaction back to the snapshot.
   */
  method ReplaceRolesOrRollBack(db: Database, snapshot: DbState, accountId: int, userId: int, request: UserUpdateRequest)
    returns (r: Result<(), Error>)
    requires db.Valid() && Consistent(snapshot) && userId in UserIds(db.State())
    requires db.State() == snapshot.(users := db.users)
    modifies db
    ensures db.Valid()
    ensures var rejected := ReplacesRoles(request) && ResolveRoles(snapshot, request.roleIds.value, accountId).Failure?;
            && (r.Failure? <==> rejected)
            && (rejected ==> r == Failure(ResolveRoles(snapshot, request.roleIds.value, accountId).error) && db.State() == snapshot)
            && (!rejected ==> r == Success(()) && db.users == old(db.users) && db.State() == snapshot.(
                  users := db.users,
                  userRoles := if ReplacesRoles(request)
                               then ReplacedLinks(snapshot.userRoles, userId, request.roleIds.value, accountId)
                               else snapshot.userRoles))
  {
    if ReplacesRoles(request) {
      var ids := request.roleIds.value;
      ResolveRolesIgnoresUsers(snapshot, db.users, ids, accountId);
      var replaced := ReplaceUserRoles(db, accountId, userId, ids);
      if replaced.Failure? {
        db.Restore(snapshot);
        return Failure(replaced.error);
      }
    }
    r := Success(());
  }
}
