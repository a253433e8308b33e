# Library management backend — a Dafny model

This project models the core of a small library-management web backend:

- lending books (`borrow_book`, `return_borrow`, `get_borrow`, `list_borrows`) and the per-book counter of copies on the shelf;
- request authentication: a bearer JWT first, then an `X-API-Key` header; the active-user check; role-based permission checks;
- the static permission catalog: twelve permissions, three roles and the permissions each role gets;
- login and token refresh;
- token claim assembly and API-key issuance;
- first-run seeding of the roles and the administrator.

The database is a value with one `map<int, Row>` per table, keyed by primary key (`Models.Db`). Every service call is a pure function from a database to a `Result`: the updated database plus the response on success, or one of the errors the service raises. A failed call changes nothing, as a rolled-back transaction would.

Cryptography, JSON and the clock are opaque. They enter as function parameters:

- `sign` (JWT encode), `decode` (JWT decode, which includes the expiry check);
- `digest` (SHA-256 hex), `verify` (bcrypt check), `hash` (bcrypt hash);
- `loads` and `dumps` (JSON);
- `now` (seconds since the epoch).

A property that needs one of these to behave takes that behaviour as a stated precondition:

- `Security.DecodesAt(sign, decode, t)` says what python-jose's `jwt.decode` does at time `t`, called as `decode_token` calls it (no audience, no access token, no leeway), on a token the codec signed whose `exp`, `nbf` and `iat` are integers where present. It gives back the claims when every claim check passes (`Security.Accepted`): `exp` not yet gone by, `nbf` reached, `sub` and `jti` strings, and no `aud` or `at_hash` claim. It refuses the token when any of these checks fails. Tokens of any other shape, and tokens from anywhere else, are left unconstrained. `Security.DecodesAtIsRealizable` builds such a decoder for any signer that maps distinct claim sets to distinct tokens.
- `Seeding.JsonRoundTrip(loads, dumps)` says that `json.loads` reads back, as a set, the list `json.dumps` wrote.

Modules follow the source layout:

| module | file | models |
|---|---|---|
| `Outcomes` | outcomes.dfy | `Option`, `Result`, and the HTTP and database errors |
| `Text` | text.dfy | `lower`, `capitalize`, `str(int)` and `int(str)` |
| `Tables` | tables.dfy | row lookups with `scalar_one_or_none` semantics, auto-increment keys, `ORDER BY id`, `OFFSET`/`LIMIT` |
| `Models` | models.dfy | the ORM rows |
| `Permissions` | permissions.dfy | `app/core/permissions.py` |
| `Security` | security.dfy | `app/core/security.py` |
| `Deps` | deps.dfy | `app/core/deps.py` |
| `AuthService` | auth_service.dfy | `app/services/auth_service.py` |
| `BorrowService` | borrow_service.dfy | `app/services/borrow_service.py` |
| `Seeding` | seed.dfy | `app/db/seed.py` |

Modelling conventions:

- A query that expects at most one row but finds several fails with `MultipleResultsFound`. This is the `scalar_one_or_none` exception.
- An `int()` that fails is `MalformedSubject`.
- A foreign-key or unique-constraint violation at flush or commit is `IntegrityError`.
- An `OverflowError` from date arithmetic is `DateOverflow`.
- Python truthiness is modelled explicitly:
  - an empty header counts as absent;
  - a `user_id` of 0 counts as absent;
  - an empty `permissions` text is read as `"[]"`.

## Model

| member | source | states |
|---|---|---|
| Text.Lower | app/core/deps.py:27 | lower-casing keeps the length and maps each character on its own, so a header that starts with `Bearer ` in any case is recognised |
| Text.IntRoundTrip | app/core/deps.py:41 | `int(str(n)) == n` for every integer, so the subject login writes is read back as the same user id |
| Text.IntToString | app/services/auth_service.py:27 | `str(n)` is a literal `int()` accepts, with a minus sign exactly when `n` is negative and never a plus sign |
| Text.ParseInt | app/core/deps.py:41 | `int(s)` succeeds iff `s` is an optional sign followed by at least one digit; a leading minus gives a value ≤ 0, any other success a value ≥ 0 |
| Text.Capitalize | app/db/seed.py:24 | `capitalize()` keeps the length, upper-cases the first character and lower-cases every other one |
| Tables.FindRow | app/services/user_service.py:47-49 | `scalar_one_or_none`: no row iff nothing matches; one row is the unique match; "many" means two distinct matching rows |
| Tables.FreshKey | app/services/borrow_service.py:40-42 | an inserted row gets a key that is positive, unused, and larger than every existing key |
| Tables.SortedKeys | app/services/borrow_service.py:52 | `ORDER BY id`: the keys in strictly increasing order, each key exactly once |
| Tables.Window | app/services/borrow_service.py:52 | `OFFSET skip LIMIT limit`: the page length is `min(limit, max(0, n - skip))`, and entry i is entry `skip + i` of the ordered list |
| Permissions.PermissionsToStrings | app/core/permissions.py:58-59 | the result has the same length as the input, and entry i is the value of permission i |
| Permissions.ValueInjective | app/core/permissions.py:7-22 | the twelve permission values are pairwise distinct |
| Permissions.RoleValueInjective | app/core/permissions.py:25-28 | the three role values are pairwise distinct |
| Permissions.AdminHasEveryPermission | app/core/permissions.py:31-36 | every permission is on the admin list |
| Permissions.AdminHasNoDuplicates | app/core/permissions.py:31-36 | no permission appears twice on the admin list |
| Permissions.AdminSortedByValue | app/core/permissions.py:36 | the admin list is in strictly ascending order of value, under Python's string order |
| Permissions.LibrarianExcludesTwo | app/core/permissions.py:37-48 | the librarian has every permission except `role:manage` and `member:delete` |
| Permissions.MemberIsFour | app/core/permissions.py:49-54 | the member has exactly `book:read`, `borrow:create`, `borrow:read` and `borrow:return` |
| Permissions.RolesNested | app/core/permissions.py:35-55 | member ⊆ librarian ⊆ admin, and every role has a catalog entry |
| Security.TokenClaims | app/core/security.py:28-42 | the signed claims are the caller's keys plus `exp`, `iat` and `type`; `iat` is now, `exp` is `iat` plus the lifetime, and `type` is the given type; every other caller claim is kept unchanged |
| Security.AccessClaims | app/core/security.py:45-47 | an access token has type `access`, expires the configured minutes after now, and keeps the caller's claims |
| Security.RefreshClaims | app/core/security.py:50-52 | a refresh token has type `refresh`, expires the configured days after now, and keeps the caller's claims |
| Security.DefaultLifetimes | app/core/config.py:13-14 | by default an access token lives 1800 s (30 minutes) and a refresh token 604800 s (7 days) |
| Security.AccessTokenLifetime | app/core/security.py:45-63 | for caller claims whose `nbf`, if any, is an integer, an access token decodes to the claims it was created with iff the request time is at most `now` plus the access lifetime and the caller's claims pass python-jose's checks (so a token made from `{"aud": "api"}` is `InvalidToken`); otherwise it is `InvalidToken` |
| Security.RefreshTokenLifetime | app/core/security.py:50-63 | for caller claims whose `nbf`, if any, is an integer, a refresh token decodes to the claims it was created with iff the request time is at most `now` plus the refresh lifetime and the caller's claims pass python-jose's checks; otherwise it is `InvalidToken` |
| Security.DecodeToken | app/core/security.py:55-63 | every decoder failure becomes the single error `InvalidToken`; a success returns the decoded claims |
| Security.DecodesAtIsRealizable | app/core/security.py:55-63 | for every signer that maps distinct claim sets to distinct tokens, a decoder exists that returns a token's claims exactly when python-jose's claim checks pass and refuses it otherwise, so the assumption the token lemmas make is consistent |
| Security.GenerateApiKey | app/core/security.py:66-77 | the raw key is the configured prefix followed by the random part, and the stored hash is `hash_api_key` of the whole raw key, prefix included |
| Deps.BearerToken | app/core/deps.py:28 | the token is everything after the first space of the header |
| Deps.TokenUser | app/core/deps.py:27-48 | errors in order: an undecodable token, a wrong `type` ("Invalid token type"), a missing or null `sub` ("Invalid token payload"); success iff the subject parses to the id of an active user, who is returned |
| Deps.ApiKeyUser | app/core/deps.py:51-73 | a key without the prefix is refused before anything is hashed; success iff exactly one active key row has the key's hash and its user is active |
| Deps.Authenticate | app/core/deps.py:21-78 | a bearer header (any letter case) decides the outcome through the token branch alone; otherwise a non-empty API key decides it through the key branch; with neither credential the result is "Not authenticated"; every authenticated user exists and is active |
| Deps.RequireActive | app/core/deps.py:81-89 | succeeds iff the user is active; otherwise 400 "Inactive user" |
| Deps.AssignedPermissions | app/core/deps.py:103-106 | text that `json.loads` cannot parse grants nothing; parsed text grants exactly the parsed values |
| Deps.EmptyTextReadsAsEmptyList | app/core/deps.py:104 | an empty permission text grants exactly what the text `[]` grants |
| Deps.UnparsableRoleGrantsNothing | app/core/deps.py:103-113 | with an unparsable role text, the permission check passes iff nothing is required, and is "Insufficient permissions" otherwise |
| Deps.MissingPermissions | app/core/deps.py:108 | empty iff every required value is granted; every listed value is required and not granted |
| Deps.RequirePermissions | app/core/deps.py:92-117 | with no role: "User has no role"; success iff the role grants every required value; every refusal is 403 |
| Deps.Authorize | app/core/deps.py:92-95 | an authentication error passes through unchanged; otherwise the outcome is the permission check on the authenticated user, so a route succeeds iff authentication succeeds and the role grants every required value; "Inactive user" never occurs, because authentication already insists on an active user |
| Deps.BearerIsExclusive | app/core/deps.py:26-27 | with a bearer header, the API-key header and the digest function have no influence on the result |
| Deps.NonBearerFallsThrough | app/core/deps.py:27-51 | without a bearer header, the outcome is the same as if no Authorization header were sent |
| Deps.PrefixCheckedBeforeHashing | app/core/deps.py:51-56 | a non-empty key without the prefix gets "Invalid API key prefix", whatever the database holds |
| Deps.AuthenticatedUsersAreActive | app/core/deps.py:81-89 | `get_current_active_user` never refuses a user that `get_current_user` returned |
| Deps.GeneratedKeyAuthenticates | app/core/deps.py:51-73 | a key from `generate_api_key` whose hash is stored on exactly one active row authenticates that row's active owner |
| AuthService.Login | app/services/auth_service.py:14-29 | an unknown user, an inactive user and a wrong password all give the same "Incorrect username or password"; success iff exactly one user has the name, is active and the password verifies; the pair is issued for `str(user.id)` |
| AuthService.Refresh | app/services/auth_service.py:32-48 | an undecodable token is `InvalidToken`; any type but `refresh` is "Invalid token type"; success iff the type is refresh and `sub` is present; the new pair is for `str(sub)`, and no user is looked up |
| AuthService.IssuedPairCarriesSubject | app/services/auth_service.py:27-28 | the pair issued for `sub` carries `sub` in both tokens, typed `access` and `refresh`; each token decodes exactly until its own lifetime has passed |
| AuthService.RefreshedSubjectResolvesAlike | app/services/auth_service.py:46 | `str()` at refresh followed by `int()` at authentication resolves a string or integer subject to the same user id as before the refresh |
| AuthService.AccessTokenAuthenticates | app/services/auth_service.py:27 | the access token issued at `now` for an active user's id, sent as `Bearer <token>` at time `t`, authenticates that user while `t` is within the access lifetime, and is `InvalidToken` after it |
| AuthService.LoginThenAuthenticate | app/services/auth_service.py:14-29 | the access token from a successful login, presented within its lifetime, authenticates the user who logged in |
| AuthService.RefreshTokenIsNotAccess | app/services/auth_service.py:28 | a login's refresh token sent as a bearer credential is refused: "Invalid token type" while it is unexpired, `InvalidToken` after |
| AuthService.RefreshTokenRefusedAsBearer | app/core/deps.py:29-34 | a refresh token issued for any subject, sent as a bearer credential, is "Invalid token type" within its lifetime and `InvalidToken` after |
| AuthService.AccessTokenCannotRefresh | app/services/auth_service.py:34-38 | a login's access token never yields a new pair: "Invalid token type" while it is unexpired, `InvalidToken` after |
| AuthService.RefreshReissues | app/services/auth_service.py:39-48 | a refresh token issued for `sub` yields a new pair for the same `sub` while it is within its lifetime, and `InvalidToken` after it |
| AuthService.RefreshKeepsSubject | app/services/auth_service.py:32-48 | within its lifetime, refreshing a login's refresh token gives exactly the pair a fresh login would give at that time; after it, `InvalidToken` |
| BorrowService.BorrowOwner | app/services/borrow_service.py:18-21 | a member always borrows for themself; staff borrow for the named user when a non-zero id is given, and for themself when no id or id 0 is given |
| BorrowService.BorrowBook | app/services/borrow_service.py:13-43 | errors in order: unknown book is 404, no copies left is 409, a due date outside `datetime`'s range (or more than 999999999 days) is `OverflowError`, an unknown owner fails at flush; success iff none of these applies; the new loan gets a fresh id, is active, is due `days` days after now, and belongs to the resolved owner; the counter drops by one and stays non-negative; other tables are unchanged |
| BorrowService.GetBorrow | app/services/borrow_service.py:59-61 | the loan with that id, if there is one |
| BorrowService.GetAfterBorrow | app/services/borrow_service.py:40-61 | after a successful borrow, `get_borrow` of the new id returns the new loan, and every other id reads as before |
| BorrowService.ReturnBorrow | app/services/borrow_service.py:64-89 | errors in order: 404 for an unknown loan, then 403 for a member who does not own it; success iff neither applies; an already returned loan comes back with nothing changed; otherwise the loan is closed at `now` and its book, if it still exists, gets one copy back |
| BorrowService.VisibleIds | app/services/borrow_service.py:52-54 | the keys a user may list, in strictly increasing order: every key for staff, the member's own for a member |
| BorrowService.ListBorrows | app/services/borrow_service.py:46-56 | the page is the `OFFSET`/`LIMIT` window of the visible loans in ascending id order |
| BorrowService.MemberListsOwnLoans | app/services/borrow_service.py:53-54 | a member's page holds only the member's own loans |
| BorrowService.StaffListsEveryLoan | app/services/borrow_service.py:52-56 | with a large enough limit, staff see every loan |
| BorrowService.OpenLoansAfterInsert | app/services/borrow_service.py:31-40 | adding an open loan of a book adds exactly one to that book's open loans |
| BorrowService.OpenLoansAfterClose | app/services/borrow_service.py:85-86 | closing an open loan removes exactly one from its book's open loans |
| BorrowService.BorrowKeepsStock | app/services/borrow_service.py:39 | borrowing keeps "available + open loans" the same for every book |
| BorrowService.ReturnKeepsStock | app/services/borrow_service.py:82-86 | returning keeps "available + open loans" the same for every book |
| BorrowService.BorrowPreservesInvariants | app/services/borrow_service.py:27-39 | borrowing preserves "available + open loans = total" and "available ≥ 0" |
| BorrowService.ReturnPreservesInvariants | app/services/borrow_service.py:77-86 | returning preserves "available + open loans = total" and "available ≥ 0" |
| BorrowService.CounterBounds | app/services/borrow_service.py:27-28 | under the invariants every counter lies between 0 and the book's total |
| BorrowService.ReturnIsIdempotent | app/services/borrow_service.py:77-78 | a second return changes nothing and gives back the same record |
| Seeding.SeedRole | app/db/seed.py:19-27 | a role name with several rows fails; an existing row is kept as it is; a missing name gets the catalog row under a fresh key; afterwards exactly one row has the name |
| Seeding.SeedAdmin | app/db/seed.py:31-46 | fails iff the admin role is not unique, several users are named "admin", or the admin must be created while its e-mail is taken; with no admin role the error is `NoResultFound`; an existing admin user means no change; otherwise one active admin user is added, referring to the admin role |
| Seeding.SeedRoles | app/db/seed.py:19-27 | the role loop fails only with `MultipleResultsFound`, and on success keeps every row it found |
| Seeding.Seed | app/db/seed.py:12-52 | seeding fails only with `MultipleResultsFound` or `IntegrityError`, never `NoResultFound`, since the loop has just created the admin role; on success the API keys, books and loans are unchanged |
| Seeding.SeedRolesEffect | app/db/seed.py:19-27 | the role loop keeps every row it found and ends with exactly one row per visited name; every added row is the catalog row of a name that had none |
| Seeding.SeedRolesNoop | app/db/seed.py:20-21 | when every name already has exactly one row, the loop changes nothing |
| Seeding.SeedCatalogRoles | app/db/seed.py:19-29 | after the loop over the catalog, every role name has exactly one row |
| Seeding.SeedEffect | app/db/seed.py:12-52 | seeding changes only roles and users, keeps every existing row, and leaves one row per catalog role and exactly one user named "admin" |
| Seeding.SeedAddsMissingRole | app/db/seed.py:21-27 | a missing role is added with its name, the description "<Name> role", and the JSON dump of its permission values |
| Seeding.SeedCreatesAdminOnlyWhenAbsent | app/db/seed.py:37-46 | users change only if no user was named "admin"; in that case exactly one user is added, and it refers to a role named "admin" |
| Seeding.SeedIsIdempotent | app/db/seed.py:12-52 | seeding a seeded database changes nothing |
| Seeding.AdminDescription | app/db/seed.py:24 | the admin role's description is "Admin role" |
| Seeding.LibrarianDescription | app/db/seed.py:24 | the librarian role's description is "Librarian role" |
| Seeding.MemberDescription | app/db/seed.py:24 | the member role's description is "Member role" |
| Seeding.DumpedListGrants | app/db/seed.py:25 | a role whose text is the JSON dump of a permission list grants exactly those permissions when the permission check reads it back |
| Seeding.CatalogRoleGrants | app/db/seed.py:22-26 | a seeded role grants exactly its catalog permissions |
| Seeding.AdminCatalogText | app/db/seed.py:25 | the seeded admin row stores the JSON dump of the whole sorted admin list |
| Seeding.SeededAdminIsAllowedEverything | app/db/seed.py:39-45 | on a fresh database, the seeded administrator passes every permission check |

## Left out

- Cryptography is opaque: JWT signing and verification, bcrypt and SHA-256 are parameters. Properties about issued tokens assume `Security.DecodesAt`. Properties about stored permissions assume `Seeding.JsonRoundTrip`.
- Security.DecodesAt: constrains only tokens whose `exp`, `nbf` and `iat` are integers where present. A token whose time claim is, say, a numeric string or a list is unconstrained: python-jose accepts the first, and the second raises `TypeError` rather than an error `decode_token` translates. `iss` is never checked, because no issuer is configured. Clock leeway is zero, as in the source.
- Security.DecodesAtIsRealizable: shows that the assumption can be met, not that python-jose's `jwt.decode` meets it. That it does is read off python-jose's documented claim checks.
- `hash_password` and `verify_password` are not modelled beyond being parameters. The hash that seeding stores is `hash("Admin@1234")`, whatever `hash` is.
- Security.GenerateApiKey: the model gives the return-value contract of app/core/security.py:70-72, for the hex digest of the random bytes passed as `randomHex`. As written, line 69 calls `hashlib.token_bytes`. `hashlib` has no such function, so every call raises `AttributeError` and no key is ever returned. The model states the format and the hash of the evidently intended key, not randomness or uniqueness.
- Clock and expiry: `now` and the request time `t` are parameters in whole seconds. The decoder in force at `t` is constrained by `Security.DecodesAt`. `AuthService.Login` and `AuthService.IssuePair` stamp both tokens with one `now`. In the source each `_create_token` call reads the clock itself (app/core/security.py:34), so the refresh token's `iat` and `exp` can be a moment later than the access token's. Timezone-aware datetimes are plain integers. Sub-second parts of `exp` and `iat` are not modelled, because JWT encoding truncates them to whole seconds.
- Deps.AssignedPermissions: `loads` stands for `set(json.loads(text))`. `None` is the `JSONDecodeError` that the source turns into the empty set. A JSON value that parses but cannot be made into a set (a number) raises `TypeError` in the source; the model folds that case into `loads`.
- Text.ParseInt: `int()` is modelled on an optional sign and ASCII digits only. Python's surrounding whitespace, `_` separators and non-ASCII digits are not accepted. Python also refuses literals longer than 4300 digits (`sys.int_info.str_digits_check_threshold`); the model has no such limit.
- Text.IntToString: `str(n)` is total in the model. Python raises `ValueError` for integers of more than 4300 digits. The only integers converted in the core are 32-bit user ids, far below that limit.
- Text.IntRoundTrip: holds for every integer in the model. In Python it holds up to the 4300-digit limit, which the 32-bit ids that reach it never approach.
- Text.Capitalize: ASCII only. Python's `capitalize()` applies full Unicode case mapping, which can change the length ('ß' becomes 'Ss'). Seeding applies it only to the three ASCII role names.
- Text.Lower: case mapping is ASCII only.
- Security.ToInt: float claim values are not modelled.
- BorrowService.ListBorrows: `skip` and `limit` are natural numbers. Negative values are rejected by the database and are not modelled.
- AuthService.Login, Seeding.SeedRole, Seeding.SeedAdmin: the lookups by username, role name and e-mail compare strings exactly. The backend is MySQL (app/core/config.py:27-31), whose default collation compares case- and accent-insensitively. So in the source `login("ADMIN", …)` finds the `admin` row, while the model answers "Incorrect username or password". Collations are not modelled.
- Tables.FreshKey: auto-increment is modelled as largest key + 1. A real sequence can skip values or reuse them after deletions. Ids are unbounded integers, while the id columns are MySQL `INT` (app/models/user.py:12,23,40, app/models/book.py:11, app/models/borrow.py:20) and stop at 2^31-1; the insert that would pass that bound is not modelled.
- BorrowService.ReturnBorrow: copy counters are unbounded integers. `available_copies` is an `INT` column (app/models/book.py:18-19), so an increment past 2^31-1 is refused by the database in the source and succeeds in the model.
- Concurrency is not modelled. Two requests racing on the same book's counter are out of scope; each call is one atomic transaction.
- API-key expiry: `expires_at` is stored but never checked by the authenticator, and the model does the same.
- The `overdue` loan status exists but nothing assigns it. The model carries the constructor and, like the source, treats such a loan as open.
- The book, user, role and API-key CRUD services, the HTTP routers and the response schemas are not part of this model. `get_user_by_username` is modelled inside `AuthService.Login` as a lookup on a unique column.
- Table creation, the session machinery and the console output of seeding are left out. Seeding is modelled as one transaction: any error leaves the database unchanged.
- Timestamp columns (`created_at`, `updated_at`) are not modelled.
