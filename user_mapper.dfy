/**
 * UserMapper: the SQL statements on users and user_roles, the userMap result
 * map with its role and permission joins, and the meaning of the dynamic
 * UPDATE whose text UpdateQueryBuilder renders.
 */
module UserMapper {
  import opened Wrappers
  import opened Failures
  import opened JavaText
  import opened Tables
  import opened UpdateQueryBuilder

  /** getPermissionsByRoleId on the user side: id and name only. */
  function ShortPermissionsOfRole(s: DbState, roleId: int): (perms: seq<Permission>)
    ensures var rows := PermissionRowsFor(s.rolePermissions, s.permissions, roleId);
            |perms| == |rows| && forall i :: 0 <= i < |rows| ==> perms[i] == Permission(rows[i].id, rows[i].name, None)
  {
    var rows := PermissionRowsFor(s.rolePermissions, s.permissions, roleId);
    seq(|rows|, i requires 0 <= i < |rows| => Permission(rows[i].id, rows[i].name, None))
  }

  /** A role as getRolesByUserId maps it: id, name, description, no account, short permissions. */
  function UserSideRole(s: DbState, r: RoleRow): Role {
    Role(r.id, r.name, r.description, None, ShortPermissionsOfRole(s, r.id))
  }

  /** getRolesByUserId: `roles r JOIN user_roles ur ON ur.role_id = r.id WHERE ur.user_id = ?`. */
  function RolesOfUser(s: DbState, userId: int): set<Role> {
    set l, r | l in s.userRoles && r in s.roles && l.userId == userId && l.roleId == r.id :: UserSideRole(s, r)
  }

  /** userMap applied to a stored row. */
  function UserOf(s: DbState, row: UserRow): (u: User)
    ensures u.id == row.id && u.email == row.email && u.accountId == row.accountId && u.status == row.status
    ensures u.password == row.password && u.userType == row.userType
    ensures u.firstName == row.firstName && u.lastName == row.lastName && u.middleName == row.middleName
    ensures u.roles == RolesOfUser(s, row.id)
  {
    User(row.id, row.firstName, row.lastName, row.middleName, row.email, row.userType, row.accountId,
         row.status, row.password, RolesOfUser(s, row.id))
  }

  /** selectOne over a user query, mapped through userMap. */
  function SelectUser(s: DbState, rows: seq<UserRow>): (r: Result<Option<User>, Error>)
    ensures r.Failure? <==> |rows| > 1
    ensures r.Failure? ==> r.error == SqlError
    ensures r == Success(None) <==> rows == []
    ensures r.Success? && r.value.Some? ==> |rows| == 1 && r.value.value == UserOf(s, rows[0])
  {
    match SelectOne(rows)
    case Failure(e) => Failure(e)
    case Success(None) => Success(None)
    case Success(Some(row)) => Success(Some(UserOf(s, row)))
  }

  /** `... FROM users WHERE email = ? AND account_id = ?`. */
  function FindByAccountIdAndEmail(s: DbState, accountId: int, email: string): (r: Result<Option<User>, Error>)
    ensures r.Success? && r.value.Some? ==>
              exists row :: row in s.users && row.email == email && row.accountId == accountId && r.value.value == UserOf(s, row)
    ensures r == Success(None) <==> forall row :: row in s.users ==> !(row.email == email && row.accountId == accountId)
    ensures r.Failure? <==> exists i, j :: 0 <= i < j < |s.users| && s.users[i].email == email && s.users[j].email == email
                                           && s.users[i].accountId == accountId && s.users[j].accountId == accountId
  {
    var p := (row: UserRow) => row.email == email && row.accountId == accountId;
    var rows := Where(s.users, p);
    assert rows != [] ==> rows[0] in rows;
    ManySelected(s.users, p);
    SelectUser(s, rows)
  }

  /** `... FROM users WHERE id = ? AND account_id = ?`. */
  function FindByAccountIdAndUserId(s: DbState, accountId: int, id: int): (r: Result<Option<User>, Error>)
    ensures r.Success? && r.value.Some? ==>
              exists row :: row in s.users && row.id == id && row.accountId == accountId && r.value.value == UserOf(s, row)
    ensures r == Success(None) <==> forall row :: row in s.users ==> !(row.id == id && row.accountId == accountId)
    ensures r.Failure? <==> exists i, j :: 0 <= i < j < |s.users| && s.users[i].id == id && s.users[j].id == id
                                           && s.users[i].accountId == accountId && s.users[j].accountId == accountId
  {
    var p := (row: UserRow) => row.id == id && row.accountId == accountId;
    var rows := Where(s.users, p);
    assert rows != [] ==> rows[0] in rows;
    ManySelected(s.users, p);
    SelectUser(s, rows)
  }

  /** `... FROM users WHERE email = ?`: any account. */
  function FindByEmail(s: DbState, email: string): (r: Result<Option<User>, Error>)
    ensures r.Success? && r.value.Some? ==>
              exists row :: row in s.users && row.email == email && r.value.value == UserOf(s, row)
    ensures r == Success(None) <==> forall row :: row in s.users ==> row.email != email
    ensures r.Failure? <==> exists i, j :: 0 <= i < j < |s.users| && s.users[i].email == email && s.users[j].email == email
  {
    var p := (row: UserRow) => row.email == email;
    var rows := Where(s.users, p);
    assert rows != [] ==> rows[0] in rows;
    ManySelected(s.users, p);
    SelectUser(s, rows)
  }

  /** An id lookup never sees two rows, because user ids are unique. */
  lemma FindByAccountIdAndUserIdNeverFails(s: DbState, accountId: int, id: int)
    requires Consistent(s)
    ensures FindByAccountIdAndUserId(s, accountId, id).Success?
  {
    WhereAtMostOne(s.users, (row: UserRow) => row.id == id && row.accountId == accountId);
  }

  /** A WHERE selects more than one row exactly when two rows at different positions satisfy it. */
  lemma ManySelected<T(!new)>(rows: seq<T>, p: T -> bool)
    ensures |Where(rows, p)| > 1 <==> exists i, j :: 0 <= i < j < |rows| && p(rows[i]) && p(rows[j])
  {
    if exists i, j :: 0 <= i < j < |rows| && p(rows[i]) && p(rows[j]) {
      var i, j :| 0 <= i < j < |rows| && p(rows[i]) && p(rows[j]);
      TwoMatchesSelected(rows, p, i, j);
    } else {
      WhereAtMostOne(rows, p);
    }
  }

  /** Two matching rows at different positions are both selected. */
  lemma {:induction false} TwoMatchesSelected<T(!new)>(rows: seq<T>, p: T -> bool, i: int, j: int)
    requires 0 <= i < j < |rows| && p(rows[i]) && p(rows[j])
    ensures |Where(rows, p)| >= 2
    decreases |rows|
  {
    var init := rows[..|rows| - 1];
    if j < |rows| - 1 {
      assert init[i] == rows[i] && init[j] == rows[j];
      TwoMatchesSelected(init, p, i, j);
    } else {
      assert init[i] == rows[i];
      assert rows[i] in Where(init, p);
    }
  }

  /** The columns of users this model knows. */
  const USER_COLUMNS: set<string> :=
    {"id", "first_name", "last_name", "middle_name", "email", "type", "status", "account_id",
     "password", "updated_at", "last_login", "current_login"}

  /** The columns an UPDATE may assign in this model. */
  const ASSIGNABLE_COLUMNS: set<string> :=
    {"first_name", "last_name", "middle_name", "email", "status", "password", "updated_at", "last_login", "current_login"}

  function TypeName(t: UserType): string {
    match t
    case PASSWORD => "PASSWORD"
    case OtherUserType(name) => name
  }

  /** A column's value as text; None is SQL NULL. */
  function ColumnText(row: UserRow, column: string): Option<string> {
    if column == "id" then Some(DecimalString(row.id))
    else if column == "first_name" then row.firstName
    else if column == "last_name" then row.lastName
    else if column == "middle_name" then row.middleName
    else if column == "email" then Some(row.email)
    else if column == "type" then Some(TypeName(row.userType))
    else if column == "status" then Some(StatusName(row.status))
    else if column == "account_id" then Some(DecimalString(row.accountId))
    else if column == "password" then row.password
    else if column == "updated_at" then row.updatedAt
    else if column == "last_login" then row.lastLogin
    else if column == "current_login" then row.currentLogin
    else None
  }

  /** A value the builder's quotes delimit exactly: null, a timestamp, or a text without a quote. */
  predicate QuoteFreeValue(v: SqlValue) {
    v.Plain? ==> QuoteFree(v.text)
  }

  predicate QuoteFreeEntries(entries: seq<Entry>) {
    forall k :: 0 <= k < |entries| ==> QuoteFreeValue(entries[k].value)
  }

  /** Every value of the statement is quote-free, so its text says what its entries say. */
  predicate QuoteFreeStatement(updates: seq<Entry>, conditions: seq<Entry>) {
    QuoteFreeEntries(updates) && QuoteFreeEntries(conditions)
  }

  /** The text a rendered quote-free value stands for; None for the unquoted null. */
  function Literal(v: SqlValue): (lit: Option<string>)
    ensures lit.None? <==> v.SqlNull?
  {
    match v
    case SqlNull => None
    case Timestamp(t) => Some(FormatTimestamp(t))
    case Plain(text) => Some(text)
  }

  /** `col = value` in a WHERE clause: `= null` is never true. */
  predicate Holds(row: UserRow, c: Entry) {
    Literal(c.value).Some? && ColumnText(row, c.column) == Literal(c.value)
  }

  /** The WHERE clause: every condition joined by AND. */
  predicate Matches(row: UserRow, conditions: seq<Entry>) {
    forall k :: 0 <= k < |conditions| ==> Holds(row, conditions[k])
  }

  /** An assignment the table takes: a known column and a value the column's type takes. */
  predicate Assignable(e: Entry) {
    && e.column in ASSIGNABLE_COLUMNS
    && (e.column == "email" ==> Literal(e.value).Some?)
    && (e.column == "status" ==> Literal(e.value).Some? && ParseStatus(Literal(e.value).value).Some?)
  }

  function Assign(row: UserRow, e: Entry): (updated: UserRow)
    requires Assignable(e)
    ensures updated.id == row.id && updated.accountId == row.accountId && updated.userType == row.userType
    ensures e.column != "email" ==> updated.email == row.email
    ensures ColumnText(updated, e.column) == (if e.column == "status" then Some(StatusName(updated.status)) else Literal(e.value))
  {
    var lit := Literal(e.value);
    if e.column == "first_name" then row.(firstName := lit)
    else if e.column == "last_name" then row.(lastName := lit)
    else if e.column == "middle_name" then row.(middleName := lit)
    else if e.column == "email" then row.(email := lit.value)
    else if e.column == "status" then row.(status := ParseStatus(lit.value).value)
    else if e.column == "password" then row.(password := lit)
    else if e.column == "updated_at" then row.(updatedAt := lit)
    else if e.column == "last_login" then row.(lastLogin := lit)
    else row.(currentLogin := lit)
  }

  /** The SET clause applied to one row, entry by entry. */
  function AssignAll(row: UserRow, updates: seq<Entry>): UserRow
    requires forall k :: 0 <= k < |updates| ==> Assignable(updates[k])
    decreases |updates|
  {
    if updates == [] then row else Assign(AssignAll(row, updates[..|updates| - 1]), updates[|updates| - 1])
  }

  /**
   * A statement the database accepts and reads as its entries say:
   * non-empty SET and WHERE, distinct assigned columns, known columns, and
   * no quote in any value.
   */
  predicate WellFormedUpdate(updates: seq<Entry>, conditions: seq<Entry>) {
    && updates != [] && conditions != []
    && (forall k :: 0 <= k < |updates| ==> Assignable(updates[k]))
    && (forall i, j :: 0 <= i < j < |updates| ==> updates[i].column != updates[j].column)
    && (forall k :: 0 <= k < |conditions| ==> conditions[k].column in USER_COLUMNS)
    && QuoteFreeStatement(updates, conditions)
  }

  /** An UPDATE of users neither adds nor removes rows; this model also keeps each row's id and account. */
  predicate KeysKept(before: seq<UserRow>, after: seq<UserRow>) {
    && |after| == |before|
    && forall i :: 0 <= i < |before| ==> after[i].id == before[i].id && after[i].accountId == before[i].accountId
  }

  function UpdatedUsers(users: seq<UserRow>, updates: seq<Entry>, conditions: seq<Entry>): (after: seq<UserRow>)
    requires forall k :: 0 <= k < |updates| ==> Assignable(updates[k])
    ensures |after| == |users|
    ensures forall i :: 0 <= i < |users| ==>
              after[i] == if Matches(users[i], conditions) then AssignAll(users[i], updates) else users[i]
  {
    seq(|users|, i requires 0 <= i < |users| =>
      if Matches(users[i], conditions) then AssignAll(users[i], updates) else users[i])
  }

  function MatchCount(users: seq<UserRow>, conditions: seq<Entry>): (n: nat)
    ensures n <= |users|
    ensures n == 0 <==> forall i :: 0 <= i < |users| ==> !Matches(users[i], conditions)
  {
    var rows := Where(users, (row: UserRow) => Matches(row, conditions));
    assert rows != [] ==> rows[0] in rows;
    assert forall i :: 0 <= i < |users| && Matches(users[i], conditions) ==> users[i] in rows;
    |rows|
  }

  /** create: `INSERT INTO users (...)` with generated keys; no password column is written. */
  method Create(db: Database, user: NewUser) returns (rowCount: int, id: int)
    requires db.Valid()
    modifies db
    ensures db.Valid()
    ensures rowCount == 1 && id == old(db.nextUserId)
    ensures db.State() == old(db.State()).(
              users := old(db.users) + [UserRow(id, user.firstName, user.lastName, user.middleName, user.email,
                                                user.userType, user.status, user.accountId, None,
                                                user.additionalAttributes, None, None, None)],
              nextUserId := id + 1)
  {
    id := db.nextUserId;
    var row := UserRow(id, user.firstName, user.lastName, user.middleName, user.email,
                       user.userType, user.status, user.accountId, None, user.additionalAttributes, None, None, None);
    db.users := db.users + [row];
    db.nextUserId := id + 1;
    rowCount := 1;
  }

  /** The links one batch insert asks for. */
  function UserRoleLinks(userId: int, roleIds: seq<int>, accountId: int): (links: set<UserRoleLink>)
    ensures forall l :: l in links <==> l.userId == userId && l.accountId == accountId && l.roleId in roleIds
  {
    set roleId | roleId in roleIds :: UserRoleLink(userId, roleId, accountId)
  }

  /**
   * insertUserRoles: one batch INSERT with `ON CONFLICT DO NOTHING`. An empty
   * list renders no VALUES; an unknown user or role id violates a foreign
   * key. Otherwise the links are added and the count is the number that were
   * not already there.
   */
  method InsertUserRoles(db: Database, userId: int, roleIds: seq<int>, accountId: int) returns (r: Result<int, Error>)
    requires db.Valid()
    modifies db
    ensures db.Valid()
    ensures r.Failure? <==> (|| roleIds == []
             || userId !in UserIds(old(db.State()))
             || exists i :: 0 <= i < |roleIds| && roleIds[i] !in RoleIds(old(db.State())))
    ensures r.Failure? ==> r.error == SqlError && db.State() == old(db.State())
    ensures r.Success? ==>
              && r.value == |UserRoleLinks(userId, roleIds, accountId) - old(db.userRoles)|
              && db.State() == old(db.State()).(userRoles := old(db.userRoles) + UserRoleLinks(userId, roleIds, accountId))
  {
    if roleIds == [] || userId !in UserIds(db.State())
       || exists i :: 0 <= i < |roleIds| && roleIds[i] !in RoleIds(db.State()) {
      return Failure(SqlError);
    }
    var links := UserRoleLinks(userId, roleIds, accountId);
    LinksPointAtIssuedKeys(db.State(), userId, roleIds, accountId);
    AddUserRolesConsistent(db.State(), links);
    r := Success(|links - db.userRoles|);
    db.userRoles := db.userRoles + links;
  }

  /** Links to an existing user and existing roles point below both id counters. */
  lemma LinksPointAtIssuedKeys(s: DbState, userId: int, roleIds: seq<int>, accountId: int)
    requires Consistent(s)
    requires userId in UserIds(s)
    requires forall i :: 0 <= i < |roleIds| ==> roleIds[i] in RoleIds(s)
    ensures forall l :: l in UserRoleLinks(userId, roleIds, accountId) ==> l.userId < s.nextUserId && l.roleId < s.nextRoleId
  {
    var user :| user in s.users && user.id == userId;
    forall l | l in UserRoleLinks(userId, roleIds, accountId) ensures l.userId < s.nextUserId && l.roleId < s.nextRoleId {
      var i :| 0 <= i < |roleIds| && roleIds[i] == l.roleId;
      var role :| role in s.roles && role.id == roleIds[i];
    }
  }

  /**
   * update: the statement UpdateQueryBuilder renders, executed. When no value
   * carries a quote, the statement means what its entries say: it is
   * rejected unless well formed, and otherwise changes exactly the matching
   * rows and counts them. A quote in a value is copied into the text
   * unescaped, so the text no longer says what the entries say: the database
   * may reject it (an unbalanced quote), or run a statement that assigns
   * other columns or matches other rows. Only what the database guarantees
   * either way is promised then.
   */
  method Update(db: Database, updates: seq<Entry>, conditions: seq<Entry>) returns (r: Result<int, Error>)
    requires db.Valid()
    modifies db
    ensures db.Valid()
    ensures db.State() == old(db.State()).(users := db.users) && KeysKept(old(db.users), db.users)
    ensures r.Failure? ==> r.error == SqlError && db.State() == old(db.State())
    ensures QuoteFreeStatement(updates, conditions) && !WellFormedUpdate(updates, conditions) ==> r.Failure?
    ensures WellFormedUpdate(updates, conditions) ==>
              && r == Success(MatchCount(old(db.users), conditions))
              && db.users == UpdatedUsers(old(db.users), updates, conditions)
  {
    if !QuoteFreeStatement(updates, conditions) {
      var rejected: bool :| true;
      if rejected {
        return Failure(SqlError);
      }
      assert KeysKept(db.users, db.users);
      var after: seq<UserRow> :| KeysKept(db.users, after);
      var count: nat :| true;
      KeysKeptConsistent(db.State(), after);
      db.users := after;
      return Success(count);
    }
    if !WellFormedUpdate(updates, conditions) {
      return Failure(SqlError);
    }
    r := Success(MatchCount(db.users, conditions));
    var after := UpdatedUsers(db.users, updates, conditions);
    forall k | 0 <= k < |after| ensures after[k].id == db.users[k].id && after[k].accountId == db.users[k].accountId {
      AssignAllKeepsKeys(db.users[k], updates);
    }
    db.users := after;
  }

  /** An UPDATE never changes a row's id, account or type, nor its email unless email is assigned. */
  lemma {:induction false} AssignAllKeepsKeys(row: UserRow, updates: seq<Entry>)
    requires forall k :: 0 <= k < |updates| ==> Assignable(updates[k])
    ensures var after := AssignAll(row, updates);
            after.id == row.id && after.accountId == row.accountId && after.userType == row.userType
    ensures (forall k :: 0 <= k < |updates| ==> updates[k].column != "email") ==> AssignAll(row, updates).email == row.email
    decreases |updates|
  {
    if updates != [] {
      AssignAllKeepsKeys(row, updates[..|updates| - 1]);
    }
  }

  /** After the SET clause, each assigned column holds its entry's value (the last one, columns being distinct). */
  lemma {:induction false} AssignAllWrites(row: UserRow, updates: seq<Entry>, k: int)
    requires forall i :: 0 <= i < |updates| ==> Assignable(updates[i])
    requires forall i, j :: 0 <= i < j < |updates| ==> updates[i].column != updates[j].column
    requires 0 <= k < |updates| && updates[k].column != "status"
    ensures ColumnText(AssignAll(row, updates), updates[k].column) == Literal(updates[k].value)
    decreases |updates|
  {
    var last := |updates| - 1;
    if k == last {
    } else {
      var init := updates[..last];
      AssignAllWrites(row, init, k);
      AssignOtherColumn(AssignAll(row, init), updates[last], updates[k].column);
    }
  }

  /** A decimal rendering is a sign and digits, never a quote. */
  lemma DecimalStringQuoteFree(n: int)
    ensures QuoteFree(DecimalString(n))
  {
    var m: nat := if n < 0 then -n else n;
    DigitsAreDigits(m);
    var text := DecimalString(n);
    forall i | 0 <= i < |text| ensures text[i] != '\'' {
      if n < 0 && i > 0 {
        assert text[i] == Digits(m)[i - 1];
      }
    }
  }

  /** Rewriting user rows but not their keys keeps the database consistent. */
  lemma KeysKeptConsistent(s: DbState, users: seq<UserRow>)
    requires Consistent(s) && KeysKept(s.users, users)
    ensures Consistent(s.(users := users))
  {
    forall i, j | 0 <= i < j < |users| ensures users[i].id != users[j].id {
      assert users[i].id == s.users[i].id && users[j].id == s.users[j].id;
    }
  }

  /** Assigning one column leaves the text of every other column as it was. */
  lemma AssignOtherColumn(row: UserRow, e: Entry, column: string)
    requires Assignable(e) && column != e.column
    ensures ColumnText(Assign(row, e), column) == ColumnText(row, column)
  {
    var lit := Literal(e.value);
    var updated := Assign(row, e);
    if e.column == "first_name" {
      assert updated == row.(firstName := lit);
    } else if e.column == "last_name" {
      assert updated == row.(lastName := lit);
    } else if e.column == "middle_name" {
      assert updated == row.(middleName := lit);
    } else if e.column == "email" {
      assert updated == row.(email := lit.value);
    } else if e.column == "status" {
      assert updated == row.(status := ParseStatus(lit.value).value);
    } else if e.column == "password" {
      assert updated == row.(password := lit);
    } else if e.column == "updated_at" {
      assert updated == row.(updatedAt := lit);
    } else if e.column == "last_login" {
      assert updated == row.(lastLogin := lit);
    } else {
      assert updated == row.(currentLogin := lit);
    }
  }

  /** Conditions on id and account_id rendered from longs select exactly that user of that account. */
  lemma IdAndAccountConditions(row: UserRow, userId: int, accountId: int)
    ensures Matches(row, [Entry("id", Plain(DecimalString(userId))), Entry("account_id", Plain(DecimalString(accountId)))])
            <==> row.id == userId && row.accountId == accountId
  {
    var conditions := [Entry("id", Plain(DecimalString(userId))), Entry("account_id", Plain(DecimalString(accountId)))];
    if Matches(row, conditions) {
      assert Holds(row, conditions[0]) && Holds(row, conditions[1]);
      DecimalStringInjective(row.id, userId);
      DecimalStringInjective(row.accountId, accountId);
    }
  }

  /** Re-inserting links that all exist adds nothing and counts zero. */
  lemma ReinsertIsNoOp(s: DbState, userId: int, roleIds: seq<int>, accountId: int)
    requires UserRoleLinks(userId, roleIds, accountId) <= s.userRoles
    ensures s.userRoles + UserRoleLinks(userId, roleIds, accountId) == s.userRoles
    ensures |UserRoleLinks(userId, roleIds, accountId) - s.userRoles| == 0
  {
    assert UserRoleLinks(userId, roleIds, accountId) - s.userRoles == {};
  }

  /** A loaded user's roles are exactly the roles some user_roles link of that user points at. */
  lemma UserRolesAreLinked(s: DbState, userId: int, r: RoleRow)
    requires r in s.roles
    ensures (exists l :: l in s.userRoles && l.userId == userId && l.roleId == r.id) ==>
              UserSideRole(s, r) in RolesOfUser(s, userId)
    ensures forall role :: role in RolesOfUser(s, userId) ==>
              exists l, row :: l in s.userRoles && row in s.roles && l.userId == userId && l.roleId == row.id
                               && role == UserSideRole(s, row)
  {
  }
}
