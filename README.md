# Identity core: OTP lifecycle, JWT filter, users and roles

A Dafny model of the core of a multi-tenant identity backend (Spring,
MyBatis, PostgreSQL). Accounts hold users, users hold roles, and roles hold
permissions. The model covers these parts:

- **UpdateQueryBuilder**: renders the `SET` and `WHERE` fragments of the
  dynamic `UPDATE users` statement. `GetQuerySet` is the source's loop over
  the map entries. It is proved against a `Join` specification, and lemmas
  say where each rendered entry and each delimiter lands.
- **JwtFilter**: the request filter. It takes the `Bearer ` token from the
  Authorization header, reads the `email`, `isRoot` and `accountId` claims
  with the source's casts and its lenient number coercion, and picks a root
  or an account principal. It authenticates that principal only when nothing
  is installed yet. `Filter.DoFilterInternal` updates a `SecurityContext`
  object and is proved against the pure decision `Decide`. Claim extraction
  (signature and expiry) and the authentication manager are function
  parameters.
- **OtpService**: one-time codes keyed by email. `OtpStore` holds the otp
  table as a map from email to row. Its methods are create, find, update,
  delete, markOtpAsUsed, processOtpValidation, validateOtp and the send and
  resend path. They are proved against the pure steps `Classify`,
  `ValidationStep` and `SendStep`. The clock, the generated code and the
  delivery outcome are inputs.
- **Tables**: a `Database` class holds the users, roles, permissions,
  user_roles and role_permissions tables and the two id counters. `Valid()`
  says keys are unique and links point at issued keys. A transaction's
  rollback is a snapshot that `Restore` puts back; the id counters keep the
  values they reached, as database sequences do.
- **RoleMapper and UserMapper**: the SQL statements as functions over the
  tables, and the inserts as methods on `Database`. This covers the result
  maps with their permission and role joins, MyBatis `selectOne`, the
  `ON CONFLICT DO NOTHING` batch insert of user roles, and the meaning of
  the dynamic `UPDATE` row by row. The builder copies a value between quotes
  without escaping it, so that meaning is exact only when no value holds a
  quote; for the rest the model keeps what the database still guarantees
  (see Findings).
- **RoleDao and UserDao**: all-or-nothing creation with links, the update
  that treats zero affected rows as a failure, and the finders. Each wraps a
  mapper exception in `DaoLayerException`.
- **RoleService and UserService**: creation with per-account uniqueness of
  role names and user emails, the finders that turn "absent" into
  `ResourceNotFoundException`, and the password, status, login-time,
  profile, role and full-user updates. Each update states its error cases,
  its rollback, and its exact effect on the tables when its values hold no
  quote.

Exceptions are values of the `Failures.Error` datatype. A wrapping exception
keeps its cause, so a contract says both what surfaced and why. Integers are
unbounded, except where the source narrows them. The submitted code is a
Java `int`. The filter's `accountId` is coerced to a `long` by wrapping or
by truncation and saturation.

## Model

| member | source | states |
|---|---|---|
| JavaText.DigitsRoundTrip | src/main/java/com/spring/security/service/OtpServiceImpl.java:163 | Reading back the decimal digits `String.valueOf` produces for a natural number gives that number. |
| JavaText.DecimalStringInjective | src/main/java/com/spring/security/service/OtpServiceImpl.java:163-167 | Two integers with the same `String.valueOf` text are equal, so the code comparison identifies one submitted int. |
| JavaText.LeadingZeroNeverRendered | src/main/java/com/spring/security/service/OtpServiceImpl.java:163 | No integer renders as a string of two or more characters beginning with '0'. |
| JavaText.DecimalStringNotBlank | src/main/java/com/spring/security/service/OtpServiceImpl.java:221 | A code that is an integer's decimal text is never blank, so the blank-code guard lets it through. |
| UpdateQueryBuilder.GetQuerySet | src/main/java/com/spring/security/dao/UpdateQueryBuilder.java:35-59 | The loop yields the rendered entries with " delimiter " between consecutive entries and never after the last; an empty map yields "". |
| UpdateQueryBuilder.Update | src/main/java/com/spring/security/dao/UpdateQueryBuilder.java:20-33 | The statement targets the given table; SET joins the updates with ",", WHERE joins the conditions with "AND". |
| UpdateQueryBuilder.JoinPart | src/main/java/com/spring/security/dao/UpdateQueryBuilder.java:35-59 | Each rendered entry appears verbatim at its offset in the fragment, and the last one ends the fragment. |
| UpdateQueryBuilder.JoinSeparator | src/main/java/com/spring/security/dao/UpdateQueryBuilder.java:53-55 | Between entry k and entry k+1 the fragment holds exactly the separator. |
| UpdateQueryBuilder.QuerySetLength | src/main/java/com/spring/security/dao/UpdateQueryBuilder.java:35-59 | For n >= 1 entries, the fragment's length is the total rendered length plus (n-1) times the delimiter's length plus two. |
| UpdateQueryBuilder.NullRendersUnquoted | src/main/java/com/spring/security/dao/UpdateQueryBuilder.java:42-43 | A null value renders as `col = null`, unquoted. |
| UpdateQueryBuilder.PlainRendersQuotedVerbatim | src/main/java/com/spring/security/dao/UpdateQueryBuilder.java:49-51 | Any other value renders as the column, ` = '`, the value's text unescaped, and a closing quote. |
| UpdateQueryBuilder.TimestampLayout | src/main/java/com/spring/security/dao/UpdateQueryBuilder.java:44-48 | For a four-digit year, a LocalDateTime renders as 23 characters in the yyyy-MM-dd HH:mm:ss.SSS layout, and each field reads back as the date-time's value. |
| UpdateQueryBuilder.PadRoundTrip | src/main/java/com/spring/security/dao/UpdateQueryBuilder.java:44-48 | A zero-padded field has exactly the pattern's width and reads back as the number. |
| UpdateQueryBuilder.QuoteFreeLiteralReadsBack | src/main/java/com/spring/security/dao/UpdateQueryBuilder.java:49-51 | A value without a quote, rendered between the builder's quotes, reads back as a SQL string literal of exactly that text. |
| UpdateQueryBuilder.UnescapedQuoteEndsLiteral | src/main/java/com/spring/security/dao/UpdateQueryBuilder.java:49-51 | A value with a quote inside reads back only up to that quote, so the literal differs from the value. |
| UpdateQueryBuilder.InjectedValueRendersAsTwoAssignments | src/main/java/com/spring/security/dao/UpdateQueryBuilder.java:49-51 | One entry whose value holds `', col = '` renders the same SET text as two separate assignments. |
| UpdateQueryBuilder.AlwaysTrueDisjunctRendered | src/main/java/com/spring/security/dao/UpdateQueryBuilder.java:49-51 | A condition value ending in `' OR '1'='1` renders as the intended condition followed by an always-true disjunct. |
| UpdateQueryBuilder.EscapedLiteralReadsBack | src/main/java/com/spring/security/dao/UpdateQueryBuilder.java:49-51 | Any value, with its quotes doubled, reads back as a SQL string literal of exactly that value. |
| UpdateQueryBuilder.EscapeQuoteFree | src/main/java/com/spring/security/dao/UpdateQueryBuilder.java:49-51 | Doubling quotes leaves a value without quotes as it is, so escaping changes nothing for the inputs the model pins down. |
| JwtFilter.BearerToken | src/main/java/com/spring/security/filter/JwtFilter.java:56-59 | A token exists iff the header is present and starts with "Bearer "; the header is then the prefix followed by the token. |
| JwtFilter.BearerSchemeIsCaseSensitive | src/main/java/com/spring/security/filter/JwtFilter.java:58 | "Bearer " + t yields t; "bearer " and "BEARER " yield no token. |
| JwtFilter.WrapToLong | src/main/java/com/spring/security/filter/JwtFilter.java:68-72 | `longValue` of an integral claim lies in the long range, keeps in-range values, and agrees with the value modulo 2^64. |
| JwtFilter.TruncateToLong | src/main/java/com/spring/security/filter/JwtFilter.java:71 | `longValue` of a decimal claim keeps its sign, truncates toward zero (in range, the result times 10^scale is the largest such multiple not past the decimal), and saturates to Long.MAX_VALUE / Long.MIN_VALUE past the long range. |
| JwtFilter.AccountIdClaim | src/main/java/com/spring/security/filter/JwtFilter.java:68-72 | accountId is non-null iff the claim is present and numeric; it is then a long; absent or non-numeric gives null. |
| JwtFilter.AccountIdCoercion | src/main/java/com/spring/security/filter/JwtFilter.java:68-72 | An in-range integer is kept exactly; text or absence gives null; a whole decimal is saturated to the long range. |
| JwtFilter.ReadClaims | src/main/java/com/spring/security/filter/JwtFilter.java:64-72 | The casts succeed iff email is absent or a string and isRoot is a boolean; the reading then carries exactly those claims and the coerced accountId. |
| JwtFilter.AccountIdNeverRejects | src/main/java/com/spring/security/filter/JwtFilter.java:68-72 | Changing or removing the accountId claim never changes whether the claims can be read. |
| JwtFilter.Decide | src/main/java/com/spring/security/filter/JwtFilter.java:48-98 | No bearer token continues with the current authentication; an installed authentication is never replaced; rejection iff a bearer token is present and the claims cannot be extracted or read, or an email is present, nothing is installed, and the manager returns nothing; with readable claims, an email, nothing installed and an authentication from the manager, that authentication is installed. |
| JwtFilter.Filter.DoFilterInternal | src/main/java/com/spring/security/filter/JwtFilter.java:48-98 | The chain continues iff the decision proceeds; the context then holds the decided authentication; on rejection (AuthenticationException) the context is unchanged. |
| JwtFilter.MissingIsRootRejects | src/main/java/com/spring/security/filter/JwtFilter.java:66 | A readable token without an isRoot claim is rejected, even when an authentication is already installed. |
| JwtFilter.SelectsPrincipalByIsRoot | src/main/java/com/spring/security/filter/JwtFilter.java:77-90 | With an email and nothing installed, isRoot selects a root principal (email only) or an account principal (coerced accountId and email); the outcome is exactly what the manager returns for it. |
| JwtFilter.NoEmailInstallsNothing | src/main/java/com/spring/security/filter/JwtFilter.java:77 | Claims without an email but with a boolean isRoot continue the request and install nothing. |
| OtpService.Classify | src/main/java/com/spring/security/service/OtpServiceImpl.java:147-171 | NOT_FOUND iff there is no record; EXPIRED iff the expiry is strictly before now; VALID iff the record is unexpired and its code is the submitted int's decimal text; INVALID iff unexpired with any other code. |
| OtpService.MarkedUsed | src/main/java/com/spring/security/service/OtpServiceImpl.java:178-191 | Only the row matching both email and code gets used = true; every other row and the key set stay as they were. |
| OtpService.OtpStore.Create | src/main/java/com/spring/security/service/OtpServiceImpl.java:53-67 | The email's row becomes the code, created now, expiring 180 seconds later, not used; other emails are untouched. |
| OtpService.OtpStore.Find | src/main/java/com/spring/security/service/OtpServiceImpl.java:75-87 | The email's record if there is one, otherwise ResourceNotFoundException. |
| OtpService.OtpStore.Update | src/main/java/com/spring/security/service/OtpServiceImpl.java:94-105 | On an existing row only the code and the expiry (now + 3 minutes) change; with no row, nothing changes. |
| OtpService.OtpStore.Delete | src/main/java/com/spring/security/service/OtpServiceImpl.java:112-119 | The email's row is removed and nothing else. |
| OtpService.OtpStore.MarkOtpAsUsed | src/main/java/com/spring/security/service/OtpServiceImpl.java:178-191 | The table becomes `MarkedUsed` of the old table for the code's email and value. |
| OtpService.OtpStore.ProcessOtpValidation | src/main/java/com/spring/security/service/OtpServiceImpl.java:147-171 | The status is the classification; only VALID marks the record used; any other status leaves the table unchanged. |
| OtpService.OtpStore.ValidateOtp | src/main/java/com/spring/security/service/OtpServiceImpl.java:126-138 | The outcome and the new table are `ValidationStep` of the old table: an unknown email fails with ServiceLayerException, otherwise the classified status. |
| OtpService.OtpStore.SendOtpToEmail | src/main/java/com/spring/security/service/OtpServiceImpl.java:218-230 | The outcome and table are `SendStep`: a null or blank code fails with nothing stored; otherwise the code is stored, and a delivery failure surfaces wrapped. |
| OtpService.OtpStore.SendOtp | src/main/java/com/spring/security/service/OtpServiceImpl.java:208-211 | The same effect as sendOtpToEmail. |
| OtpService.OtpStore.ResendOtp | src/main/java/com/spring/security/service/OtpServiceImpl.java:198-201 | The same effect as sendOtpToEmail. |
| OtpService.ExpiryCheckedBeforeCode | src/main/java/com/spring/security/service/OtpServiceImpl.java:157-167 | A matching code past its expiry reports EXPIRED, not VALID. |
| OtpService.ExpiryInstantStillValid | src/main/java/com/spring/security/service/OtpServiceImpl.java:157-161 | At exactly the expiry instant a matching code is still VALID (the check is strictly-before). |
| OtpService.LeadingZeroCodeNeverValid | src/main/java/com/spring/security/service/OtpServiceImpl.java:163-167 | A stored code of two or more characters starting with '0' can never validate. |
| OtpService.AtMostOneValidSubmission | src/main/java/com/spring/security/service/OtpServiceImpl.java:163-167 | At most one submitted int validates a given record. |
| OtpService.OnlyValidWrites | src/main/java/com/spring/security/service/OtpServiceImpl.java:126-171 | Any outcome other than VALID leaves the table unchanged; VALID sets used on the email's row and nothing else. |
| OtpService.ValidateNeverReportsNotFound | src/main/java/com/spring/security/service/OtpServiceImpl.java:126-138 | validateOtp never returns NOT_FOUND; an unknown email is a ServiceLayerException. |
| OtpService.ReplayAfterValid | src/main/java/com/spring/security/service/OtpServiceImpl.java:147-171 | The classifier never reads `used`, so a code that validated validates again up to its expiry. |
| OtpService.ResendReplacesCode | src/main/java/com/spring/security/service/OtpServiceImpl.java:218-230 | After a resend, within the new window the previous code reports INVALID and the new code reports VALID. |
| OtpService.SendStoresBeforeNotifying | src/main/java/com/spring/security/service/OtpServiceImpl.java:218-242 | A null or blank code stores nothing; otherwise the code is stored whatever the delivery outcome, and success means delivery succeeded. |
| Tables.PermissionRowsForExact | src/main/java/com/spring/security/dao/mapper/RoleMapper.java:46-50 | The permission join yields exactly the permission rows some link of the role points at. |
| RoleMapper.RolePermissionsAreLinked | src/main/java/com/spring/security/dao/mapper/RoleMapper.java:46-50 | A loaded role's permissions are exactly the stored permissions linked to it by role_permissions. |
| RoleMapper.FindByAccountIdAndId | src/main/java/com/spring/security/dao/mapper/RoleMapper.java:31-44 | A found role is roleResultMap of a stored row with that id and account; null iff no row has that id in that account. |
| RoleMapper.FindByAccountIdAndIdNeverFails | src/main/java/com/spring/security/dao/mapper/RoleMapper.java:31-44 | With unique role ids the id lookup never raises TooManyResults. |
| RoleMapper.FindByIdIsAccountScoped | src/main/java/com/spring/security/dao/mapper/RoleMapper.java:31 | A role of another account is never found by id. |
| RoleMapper.ListByAccountId | src/main/java/com/spring/security/dao/mapper/RoleMapper.java:52-55 | Every listed role is roleResultMap of a stored row of the account not named ROOT, and every such row's role is listed. |
| RoleMapper.FindByNameAndAccountId | src/main/java/com/spring/security/dao/mapper/RoleMapper.java:57-59 | A found role is roleResultMap of a stored row with that name and account; null iff no row has that name in that account. |
| RoleMapper.Create | src/main/java/com/spring/security/dao/mapper/RoleMapper.java:15-18 | Appends the role row under the next id, advances the counter, and returns the role with no permissions yet. |
| RoleMapper.InsertRolePermissions | src/main/java/com/spring/security/dao/mapper/RoleMapper.java:21-29 | Fails with nothing written iff the list is empty or a role or permission id is unknown; otherwise appends one link per id and returns the list's length. |
| UserMapper.UserOf | src/main/java/com/spring/security/dao/mapper/UserMapper.java:44-60 | The result map keeps every column of the row (id, email, account, status, password, type and the three names), and its roles are exactly the roles the user's links join. |
| UserMapper.UserRolesAreLinked | src/main/java/com/spring/security/dao/mapper/UserMapper.java:62-73 | A loaded user's roles are exactly the stored roles that a user_roles link of that user points at. |
| UserMapper.FindByAccountIdAndEmail | src/main/java/com/spring/security/dao/mapper/UserMapper.java:44-60 | A found user is a stored row with that email in that account; null iff there is no such row; TooManyResults iff two rows share that email in that account. |
| UserMapper.FindByAccountIdAndUserId | src/main/java/com/spring/security/dao/mapper/UserMapper.java:81-84 | A found user is a stored row with that id in that account; null iff there is no such row; TooManyResults iff two rows share that id in that account. |
| UserMapper.FindByEmail | src/main/java/com/spring/security/dao/mapper/UserMapper.java:86-89 | A found user has that email in some account; null iff none has it; fails iff two rows share it. |
| UserMapper.FindByAccountIdAndUserIdNeverFails | src/main/java/com/spring/security/dao/mapper/UserMapper.java:81-84 | With unique user ids the id lookup never raises TooManyResults. |
| UserMapper.Create | src/main/java/com/spring/security/dao/mapper/UserMapper.java:25-30 | Appends the user row under the next id with no password or timestamps, advances the counter, and reports one row. |
| UserMapper.UserRoleLinks | src/main/java/com/spring/security/dao/mapper/UserMapper.java:33-42 | A link is requested iff it joins the user to one of the listed roles in the account. |
| UserMapper.InsertUserRoles | src/main/java/com/spring/security/dao/mapper/UserMapper.java:33-42 | Fails with nothing written iff the list is empty or a user or role id is unknown; otherwise adds the links and counts only those not already present. |
| UserMapper.ReinsertIsNoOp | src/main/java/com/spring/security/dao/mapper/UserMapper.java:39 | Re-inserting links that all exist changes nothing and counts zero. |
| UserMapper.Update | src/main/java/com/spring/security/dao/mapper/UserMapper.java:91-92 | With no quote in any value: a malformed statement fails with nothing written, and a well-formed one rewrites exactly the matching rows by the SET clause and counts them. With a quote in a value: either SqlError with nothing written, or only the users table changes and every row keeps its id and account. |
| UserMapper.MatchCount | src/main/java/com/spring/security/dao/mapper/UserMapper.java:91-92 | The count is at most the row count, and zero iff no row satisfies the WHERE clause. |
| UserMapper.Assign | src/main/java/com/spring/security/dao/mapper/UserMapper.java:91-92 | Assigning a column keeps id, account and type (and email unless assigned); the column then holds the value's text. This is the meaning Update gives a well-formed, quote-free SET clause. |
| UserMapper.AssignAllKeepsKeys | src/main/java/com/spring/security/dao/mapper/UserMapper.java:91-92 | A SET clause, read as Update reads a quote-free one, keeps id, account and type, and keeps email unless email is assigned. |
| UserMapper.AssignAllWrites | src/main/java/com/spring/security/dao/mapper/UserMapper.java:91-92 | After a SET clause with distinct columns, read as Update reads a quote-free one, each assigned column holds its entry's value. |
| UserMapper.AssignOtherColumn | src/main/java/com/spring/security/dao/mapper/UserMapper.java:91-92 | Assigning one column, read as Update reads a quote-free entry, leaves every other column's text unchanged. |
| UserMapper.IdAndAccountConditions | src/main/java/com/spring/security/dao/mapper/UserMapper.java:91-92 | A WHERE clause on id and account_id rendered from longs matches exactly the row with that id in that account. |
| RoleDao.Create | src/main/java/com/spring/security/dao/RoleDaoImpl.java:37-86 | Fails iff a permission id is unknown, and then no role or link is written (only the drawn id stays used); otherwise adds the role under the next id with one link per permission id, and returns it with no permissions. |
| RoleDao.FindById | src/main/java/com/spring/security/dao/RoleDaoImpl.java:93-102 | The mapper's answer; a mapper exception surfaces as DaoLayerException wrapping it. |
| RoleDao.List | src/main/java/com/spring/security/dao/RoleDaoImpl.java:110-119 | Exactly the account's roles other than ROOT: every listed role is the image of a qualifying row, and every qualifying row is listed. |
| RoleDao.FindByName | src/main/java/com/spring/security/dao/RoleDaoImpl.java:129-138 | The mapper's answer; a mapper exception surfaces as DaoLayerException wrapping it. |
| UserDao.Create | src/main/java/com/spring/security/dao/UserDaoImpl.java:35-93 | Fails iff a role id is unknown, and then the user insert is rolled back (only the drawn id stays used); otherwise adds the user under the next id with exactly the requested role links and returns the id. |
| UserDao.NewUserLinksAreNew | src/main/java/com/spring/security/dao/UserDaoImpl.java:84-88 | A new user has no links, so a non-empty role list always inserts a row and the zero-row failure cannot occur. |
| UserDao.Update | src/main/java/com/spring/security/dao/UserDaoImpl.java:157-173 | Only the users table changes and rows keep their keys. With no quote in any value, a malformed statement fails with nothing written; a well-formed one rewrites the matching rows and succeeds iff some row matched. A failure is the mapper's SqlError with nothing written, or zero affected rows. |
| UserDao.FindById | src/main/java/com/spring/security/dao/UserDaoImpl.java:101-111 | The mapper's answer; a mapper exception surfaces as DaoLayerException wrapping it. |
| UserDao.FindByAccountIdAndEmail | src/main/java/com/spring/security/dao/UserDaoImpl.java:119-132 | The mapper's answer; a mapper exception surfaces as DaoLayerException wrapping it. |
| UserDao.FindByEmail | src/main/java/com/spring/security/dao/UserDaoImpl.java:140-149 | The mapper's answer; a mapper exception surfaces as DaoLayerException wrapping it. |
| UserDao.DeleteUserRoles | src/main/java/com/spring/security/service/UserServiceImpl.java:377 | Removes exactly the user's links within the account; every other table is unchanged. |
| UserDao.AssignUserRoles | src/main/java/com/spring/security/service/UserServiceImpl.java:381 | An empty list does nothing; otherwise fails with nothing written iff an id is unknown or every link already exists; success adds exactly the requested links. |
| UserDao.ListByAccountId | src/main/java/com/spring/security/service/UserServiceImpl.java:307 | Exactly the account's users: every listed user is the result map of one of the account's rows, and every row of it is listed. |
| RoleService.FindByName | src/main/java/com/spring/security/service/RoleServiceImpl.java:124-137 | Succeeds iff exactly one row has the name in the account, returning that role; no row gives ResourceNotFoundException; several give a wrapped DAO failure. |
| RoleService.FindById | src/main/java/com/spring/security/service/RoleServiceImpl.java:99-115 | A found role is roleResultMap of the stored row with that id and account; ResourceNotFoundException iff no row has that id in that account. |
| RoleService.List | src/main/java/com/spring/security/service/RoleServiceImpl.java:82-90 | Every listed role is the image of a stored row of the account not named ROOT, and every such row's role is listed. |
| RoleService.Create | src/main/java/com/spring/security/service/RoleServiceImpl.java:32-58 | ResourceAlreadyExistException iff the name exists in the account, writing nothing; an unknown permission id is a wrapped DAO failure that writes no row (the drawn id stays used); success adds the role with its links; unique names are preserved. |
| RoleService.CreatePreservesUniqueNames | src/main/java/com/spring/security/service/RoleServiceImpl.java:37-52 | Adding a role under a name the account lacks keeps role names unique per account. |
| RoleService.RoleExistsIffOneRow | src/main/java/com/spring/security/service/RoleServiceImpl.java:67-74 | Under unique names, isRoleExists holds iff some row of the account carries the name. |
| UserService.FindByAccountIdAndUserId | src/main/java/com/spring/security/service/UserServiceImpl.java:176-189 | A found user has that id and account and is stored; ResourceNotFoundException iff there is no such row; a DAO failure loses its cause. |
| UserService.FindByAccountIdAndEmail | src/main/java/com/spring/security/service/UserServiceImpl.java:197-210 | Succeeds iff exactly one row has the email in the account, returning it; ResourceNotFoundException iff there is none. |
| UserService.UserExistsIffRow | src/main/java/com/spring/security/service/UserServiceImpl.java:147-154 | Under unique emails, isUserAlreadyExists holds iff some row of the account has the email. |
| UserService.BuildUser | src/main/java/com/spring/security/service/UserServiceImpl.java:114-117 | A built user is of type PASSWORD, in status CREATED, in the given account. |
| UserService.BuildRootUser | src/main/java/com/spring/security/service/UserServiceImpl.java:119-122 | As buildUser, holding exactly the given roles. |
| UserService.CreateUser | src/main/java/com/spring/security/service/UserServiceImpl.java:70-84 | An existing (account, email) fails with nothing written; an unknown role id fails with no row written (the drawn id stays used); otherwise the user and its links are added and the code is sent; a failed send keeps the user and surfaces wrapped; unique emails are preserved. |
| UserService.BuildRootRoles | src/main/java/com/spring/security/service/UserServiceImpl.java:124-168 | Fails iff the account already has a ROOT role, writing nothing; otherwise adds the ROOT role with no permissions and returns it as the only element. |
| UserService.PersistRootUser | src/main/java/com/spring/security/service/UserServiceImpl.java:92-96 | Fails with ResourceAlreadyExistException, writing nothing, iff a user already has the email in the account or the account already has a ROOT role; otherwise adds the ROOT role, the user and the one link between them, keeping names and emails unique. |
| UserService.CreateRootUser | src/main/java/com/spring/security/service/UserServiceImpl.java:86-105 | Every failure leaves the OTP store unchanged and writes no row (a failure after the ids are drawn leaves them used); an existing user or ROOT role gives ResourceAlreadyExistException with nothing changed; otherwise it succeeds iff the send does, with the ROOT role, the user, its one link and the stored code. |
| UserService.RootUserHoldsOnlyRoot | src/main/java/com/spring/security/service/UserServiceImpl.java:86-105 | The created root user, read back, holds exactly one role: the account's new ROOT role. |
| UserService.AddingAbsentEmailKeepsUnique | src/main/java/com/spring/security/service/UserServiceImpl.java:107-112 | Appending a user whose email the account lacks keeps emails unique per account. |
| UserService.EmailAccountConditionsMatch | src/main/java/com/spring/security/service/UserServiceImpl.java:225-227 | The email-and-account WHERE clause, as Update reads it, matches a row iff it has that email in that account. |
| UserService.EmailUpdateEffect | src/main/java/com/spring/security/service/UserServiceImpl.java:225-227 | For an email and a value without a quote, a one-column update keyed by email and account is accepted, matches some row iff such a user exists, and assigns the column on exactly those rows. |
| UserService.UpdateUserPassword | src/main/java/com/spring/security/service/UserServiceImpl.java:219-233 | A null password is IllegalArgumentException and a null email NullPointerException, with nothing written; any other failure is a ServiceLayerException without cause; only users change and rows keep their keys; for an email and an encoded password without a quote, success iff a user has the email in the account, and exactly those rows get the encoded password. |
| UserService.UpdateUserStatus | src/main/java/com/spring/security/service/UserServiceImpl.java:241-253 | A null status or email is NullPointerException with nothing written; any other failure is a ServiceLayerException without cause; only users change; for an email without a quote, success iff a user has the email in the account, and exactly those rows get the status. |
| UserService.LoginConditionsMatch | src/main/java/com/spring/security/service/UserServiceImpl.java:283-288 | The login WHERE clause, as Update reads it, matches the email, restricted to the account only when one is given. |
| UserService.LoginUpdateEffect | src/main/java/com/spring/security/service/UserServiceImpl.java:278-290 | For an email without a quote, the login update is accepted, matches iff a target row exists, and writes the two literal texts into last_login and current_login of exactly the target rows. |
| UserService.UpdateLastLoginTime | src/main/java/com/spring/security/service/UserServiceImpl.java:273-296 | Only users change and rows keep their keys; a failure wraps the DAO exception. For an email without a quote: success iff a target row exists, the target rows get the literal last_login and current_login texts, and other rows are unchanged. |
| UserService.LoginUpdateLosesPreviousLogin | src/main/java/com/spring/security/service/UserServiceImpl.java:278-281 | For an email without a quote, a target row whose current_login held any other value does not have that value in last_login afterwards. |
| UserService.RotateLastLoginTime | src/main/java/com/spring/security/service/UserServiceImpl.java:273-296 | Intended login update: the same targets and failure (nothing written); on success the users table is exactly the rotated one, where each target's last_login takes its previous current_login, current_login takes the login time and every other column is kept, and every other row is unchanged. |
| UserService.ListUsersByAccountId | src/main/java/com/spring/security/service/UserServiceImpl.java:304-314 | Exactly the account's users: each listed user is the result map of one of the account's rows, and every row of it is listed. |
| UserService.ProfileAssignment | src/main/java/com/spring/security/service/UserServiceImpl.java:332-338 | The profile SET clause replaces first and last name (null writes null) and the middle name only when one is given. |
| UserService.UserUpdateAssignment | src/main/java/com/spring/security/service/UserServiceImpl.java:408-416 | updateUser's SET clause does the same and also stamps updated_at. |
| UserService.IdConditionsSelect | src/main/java/com/spring/security/service/UserServiceImpl.java:340 | The id-and-account WHERE clause matches exactly the row with that id in that account, and matches iff that user exists. |
| UserService.ProfileWriteEffect | src/main/java/com/spring/security/service/UserServiceImpl.java:332-341 | For names without a quote, the profile update is accepted and turns the user's row, and only it, into its edited form. |
| UserService.WriteProfile | src/main/java/com/spring/security/service/UserServiceImpl.java:340-341 | On an existing user, only users change and rows keep their keys; for names without a quote the write succeeds and the users table becomes its profile-edited form; otherwise a failure is SqlError with nothing written or zero affected rows. |
| UserService.UpdateUserProfile | src/main/java/com/spring/security/service/UserServiceImpl.java:324-348 | An absent user is ResourceNotFoundException with nothing written; a failed write is a ServiceLayerException wrapping the DAO exception; only users change; for an existing user and names without a quote it succeeds and applies the profile edit. |
| UserService.ProfileEditKeepsIdentity | src/main/java/com/spring/security/service/UserServiceImpl.java:332-340 | The profile edit (the effect for names without a quote) never changes id, account, email, status or password; it sets the named user's names and leaves other rows as they were. |
| UserService.CollectMeaning | src/main/java/com/spring/security/service/UserServiceImpl.java:366-374 | Collecting lookups succeeds iff all succeed, yielding their values in order; otherwise it fails with the first failure. |
| UserService.ValidateRoles | src/main/java/com/spring/security/service/UserServiceImpl.java:366-374 | The loop returns the resolved roles in order, or the first lookup's failure. |
| UserService.ResolvedRolesBelongToAccount | src/main/java/com/spring/security/service/UserServiceImpl.java:366-374 | When validation succeeds, every requested id is a role row of the account. |
| UserService.ReplacedRoleIdsExact | src/main/java/com/spring/security/service/UserServiceImpl.java:376-381 | After delete-then-assign, the user's role ids in the account are exactly the requested ids. |
| UserService.ReplacedLinksKeepOthers | src/main/java/com/spring/security/service/UserServiceImpl.java:376-381 | Links of other users or other accounts are kept unchanged. |
| UserService.ReplaceIdempotent | src/main/java/com/spring/security/service/UserServiceImpl.java:376-381 | Replacing twice with the same ids is the same as replacing once. |
| UserService.ReplaceSucceeds | src/main/java/com/spring/security/service/UserServiceImpl.java:376-381 | After validation, every id is a stored role, and after the delete a non-empty list always inserts a new link, so the DAO cannot fail. |
| UserService.ReplaceUserRoles | src/main/java/com/spring/security/service/UserServiceImpl.java:366-381 | Fails with the first lookup failure and nothing written iff some id does not resolve; otherwise succeeds with the user's links replaced. |
| UserService.UpdateUserRoles | src/main/java/com/spring/security/service/UserServiceImpl.java:357-388 | Fails with nothing written iff the user is absent, the id list is null, or some id does not resolve in the account; success replaces the user's links by exactly the requested ones. |
| UserService.ResolveRolesIgnoresUsers | src/main/java/com/spring/security/service/UserServiceImpl.java:419-430 | Role lookups never read the users table, so the profile write before them does not change their outcome. |
| UserService.UpdateUser | src/main/java/com/spring/security/service/UserServiceImpl.java:398-447 | An absent user is ResourceNotFoundException; every failure leaves the tables as they were (rollback); for names without a quote, an unresolved id fails, otherwise success applies the stamped profile edit and, for a non-empty id list, the link replacement; with a quoted name, a failed write is a wrapped DAO failure, and success still replaces the links as requested while users keep their keys. |

## Left out

- OTP DAO: its SQL is not part of this model. The otp table is one row per email; `create` inserts or replaces; `findByEmail` returns the row whatever its used flag says. Replay therefore stays VALID (`ReplayAfterValid`); a DAO that filtered on `used` would change that.
- OtpService.OtpStore.ValidateOtp: a missing record makes `find` throw, so validateOtp fails with ServiceLayerException and never reports NOT_FOUND. This follows the code; a specification-level NOT_FOUND result is not produced.
- OtpService.OtpStore.Create: `Instant.now()` is read twice; the model reads the clock once, so expiry is exactly creation plus 180 seconds.
- OtpService: DAO failures inside create, update, delete and markOtpAsUsed are not modelled, because the DAO is not part of this model; those operations always succeed.
- JwtFilter.Decide: a null accountId for a non-root principal is not rejected; the account principal carries it. This follows the code.
- JwtFilter: claim extraction (signature, expiry, parsing), the authentication manager and logging are parameters or left out; a throwing manager is modelled as returning no authentication.
- JwtFilter.WrapToLong: BigDecimal and other Number subclasses are not distinguished; integral values wrap as BigInteger.longValue does, decimals truncate and saturate as Double.longValue does, and the floating-point rounding of a Double is not modelled.
- RoleDao.Create: the returned role has an empty permission list, because the result map runs at insert time, before any link exists.
- UserService.FindByAccountIdAndEmail: isUserAlreadyExists treats a DAO failure (two rows with the email) as "does not exist"; this follows the code.
- Some exception paths cannot be reached in the model and are asserted unreachable instead of modelled: the zero-row and DAO catches of updateUserRoles and of createRootUser's persist step (their ids were just validated or drawn), the `role == null` checks after roleService.findById (findById never returns null), and createRootUser's wrapping of role-creation failures other than an existing ROOT role (a role without permission ids cannot fail to insert). The DAO catches of updateUserProfile and updateUser are reachable through a value with a quote and are modelled.
- UserMapper.Update: for a statement with a quote in a value, the model does not say which rows or columns change or what count comes back. It promises only what holds however the database reads the text: a rejected statement writes nothing, and an accepted one changes only users rows and keeps each row's id and account. An injected assignment to id or account_id, and injected text that reaches other tables, are not modelled.
- UserMapper.Assign: states the meaning of one assignment of a quote-free SET clause; Update applies it only to well-formed statements, which hold no quote.
- UserMapper.AssignAllKeepsKeys: about the quote-free meaning, as UserMapper.Assign.
- UserMapper.AssignAllWrites: about the quote-free meaning, as UserMapper.Assign.
- UserMapper.AssignOtherColumn: about the quote-free meaning, as UserMapper.Assign.
- UserDao.Update: pins the effect only when no value holds a quote; otherwise it carries over the weaker promise of UserMapper.Update.
- UserService.EmailAccountConditionsMatch: the quote-free meaning of the WHERE clause; an email with a quote may match other rows (the always-true disjunct of the Findings row).
- UserService.EmailUpdateEffect: requires an email and a value without a quote.
- UserService.UpdateUserPassword: the exact effect is stated for an email and an encoded password without a quote; otherwise only the failure kind, the users-only change and the kept keys are promised.
- UserService.UpdateUserStatus: the exact effect is stated for an email without a quote; otherwise as UserService.UpdateUserPassword.
- UserService.LoginConditionsMatch: the quote-free meaning of the WHERE clause, as UserService.EmailAccountConditionsMatch.
- UserService.LoginUpdateEffect: requires an email without a quote.
- UserService.UpdateLastLoginTime: the exact effect is stated for an email without a quote. A null email is not modelled: HashMap takes it, the statement then tests `email = null`, matches nothing, and fails as a zero-row update.
- UserService.LoginUpdateLosesPreviousLogin: stated for an email without a quote.
- UserService.ProfileAssignment: states the quote-free meaning of the profile SET clause, as UserMapper.Assign; UserService.ProfileWriteEffect uses it only for names without a quote.
- UserService.UserUpdateAssignment: the quote-free meaning of the SET clause with updated_at, as UserService.ProfileAssignment.
- UserService.ProfileWriteEffect: requires names without a quote.
- UserService.WriteProfile: the exact effect is stated for names without a quote; otherwise only the failure kind, the users-only change and the kept keys are promised.
- UserService.UpdateUserProfile: the exact effect is stated for names without a quote; otherwise as UserService.WriteProfile, with the failure wrapped.
- UserService.ProfileEditKeepsIdentity: about the quote-free profile edit; a name with a quote can rewrite email, status or password, as the Findings row shows.
- UserService.UpdateUser: the profile effect is stated for names without a quote; with a quoted name the users table may change in any way that keeps row keys, and a failure is still rolled back.
- Null `Long` ids are not modelled; ids are integers. A null accountId or userId would make Map.of throw NullPointerException in updateUserPassword, updateUserStatus, updateUserProfile and updateUser.
- Timestamps are stored as the literal text the statement carries (`'CURRENT_TIMESTAMP'`, `'$col:current_login'`); the database's interpretation of those strings is not modelled.
- Map iteration order: Map.of and HashMap are given one fixed entry order; the source's order is unspecified and only affects the SQL text, not its effect.
- Foreign keys are assumed on user_roles and role_permissions; role_permissions has no unique constraint, so duplicate links are kept.
- forgotPassword has an empty body and is not modelled.
- Controllers, DTO conversion, the email and notification services, JWT issuance, password hashing (a function parameter), logging, activity auditing and concurrency are not modelled.
- UserDao.DeleteUserRoles, UserDao.AssignUserRoles and UserDao.ListByAccountId are called by the user service but are declared neither by UserDao nor by UserMapper; they are modelled by the meaning their names and the neighbouring statements give. A DAO failure of listByAccountId is not modelled.
- UserService.UpdateUserPassword, UserService.UpdateUserStatus and UserService.UpdateLastLoginTime call `userDao.update` with a table name as a first argument; the model uses the two-map update of UserDaoImpl.
- UserService.BuildRootRoles: createRootRole's declared return type does not match what buildRootRoles expects; the model returns the created role.
- ResourceNotFoundException and ResourceAlreadyExistException are taken to be subclasses of ServiceLayerException, as the catch blocks imply.

## Findings

| source | as written | input that shows it | evidently intended | confidence | as-written member | corrected member |
|---|---|---|---|---|---|---|
| src/main/java/com/spring/security/service/UserServiceImpl.java:278-281 with src/main/java/com/spring/security/dao/UpdateQueryBuilder.java:49-51 | last_login receives the quoted text '$col:current_login', because the builder has no column-reference case | any login of a user whose current_login holds an earlier login time | last_login takes the previous current_login value | medium, not executed | UserService.LoginUpdateLosesPreviousLogin | UserService.RotateLastLoginTime |
| src/main/java/com/spring/security/dao/UpdateQueryBuilder.java:49-51 | a text value is put between quotes without doubling the quotes inside it | a first name `x', email = 'a@evil.com` in updateUserProfile renders a second assignment to email; an email `x' OR '1'='1` in updateUserPassword matches every user of the account; a name such as `O'Brien` ends the literal early and the statement fails | each quote inside a value doubled (or the value bound as a parameter), so the literal reads back as the value | high, not executed | UpdateQueryBuilder.InjectedValueRendersAsTwoAssignments | UpdateQueryBuilder.EscapedLiteralReadsBack |

The escaped rendering reads back as the value for every value, and it agrees with the builder's rendering on values without a quote (`UpdateQueryBuilder.EscapeQuoteFree`). That is why `UserMapper.Update` pins the exact effect exactly for those values.
