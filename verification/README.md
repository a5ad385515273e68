# porsan authentication core in Dafny

A functional model of the login and token subsystem of the porsan
survey/event service (a FastAPI application), together with the validators
and table operations around it:

- minting access and refresh JWTs and classifying a presented token;
- the `user_tokens` store and the user lookups, soft delete and update;
- login, logout, registration and the start-up seeding;
- the event listing, update and delete routes;
- the object keys and permanent links of uploaded images.

Every table is an immutable sequence of records in insertion order. The
clock (`now`, integer seconds), the signing key, the password hasher, the
bucket settings and the super-admin credentials are parameters. A JWT is an
abstract codec: a token is either `Signed(payload, key)` or an arbitrary
string. Decoding checks the key first and then expiry, and a token is
expired once `now >= exp` (section 4.1.4 of RFC 7519). Password hashing is a
pair of uninterpreted functions. Object keys are percent-encoded as Python's
`urllib.parse.quote` does with `safe='/'`: the unreserved characters of
section 2.3 of RFC 3986 and `/` stay, and every other character becomes its
UTF-8 bytes written `%XY` (section 2.1 of RFC 3986).

Modules follow the source files:

| module | source |
|---|---|
| `Jwt` | the JWT codec, abstract |
| `Middleware` | app/middleware/auth_middleware.py |
| `Models` | app/models/models.py |
| `AuthSchemas` | app/schemas/auth.py |
| `UserCrud` | app/crud/user.py, plus `get_user` and `delete_user` of app/crud/auth.py |
| `AuthCrud` | app/crud/auth.py |
| `Login` | app/routers/auth.py |
| `Admin` | app/routers/admin.py |
| `UserRouter` | app/routers/user.py |
| `Seeding` | app/services/services.py |
| `EventSchemas` | app/schemas/event.py |
| `EventAdmin` | app/routers/event_admin.py |
| `Uploader` | app/services/uploader.py |
| `Percent` | `urllib.parse.quote` |

`Wrappers`, `Http`, `Text` and `Seqs` are shared support modules.
- `Wrappers` holds `Option`, `Result` and the set/unset form field.
- `Http` holds the error status codes.
- `Text` holds ASCII character classes, `str(n)`, lower-casing and substring search.
- `Seqs` holds the query shapes `filter`, `first` and `offset`/`limit`.

The code is modelled as written, except at the few places listed further down where, as written, it cannot run at all. These behaviours of the source show up in the model's lemmas:
- Login never looks at `is_active`, so a soft-deleted user still logs in (`Login.InactiveUserCanLogIn`).
- The token gate makes no kind check, so a refresh token works as a bearer token for seven days (`Middleware.RefreshTokenAcceptedAsBearer`).
- Registration stores the submitted password unhashed (`UserRouter.RegisterThenLogin`); with the real bcrypt context the later login then fails with a server error, see "Left out".
- The user update form has no `password` key, so `update_user` never changes a password (`AuthCrud.UpdateUserKeepsPassword`).
- The admin form's misspelt `passowrd` field never reaches the stored password (`Admin.UpdateCurrentAdminKeepsPassword`).
- The event update form carries none of the creation form's length rules, while the row it returns is checked against them: an update that breaks them is committed and then answered with a 500, and so is every later lookup of that event (`EventAdmin.BlankSubjectCommittedBehind500`).

Where the source is inconsistent with itself, the model departs from the code as written and makes one choice:
- The login route calls `create_tokens(user_id, role_id)` (app/routers/auth.py:31), but `create_tokens` takes only the user id (app/middleware/auth_middleware.py:49). As written, that call raises `TypeError`, so every accepted login ends in a server error before any token is stored. The model calls it with the user id, giving the login the route evidently intends.
- The routes read and write `password`, `access_token`, `refresh_token` and the profile columns of a user. The table definition instead has `hashed_password` and none of the others (app/models/models.py:33-49), and it defines no `University`, `Department`, `Event`, `EventImage` or `UserImage` tables. The model uses the columns the routes use.
- `revoke_token` and `get_active_tokens` call `datetime.now(datetime.timezone.utc)` (app/crud/auth.py:39, app/crud/auth.py:46). On the `datetime` class this raises `AttributeError`. The model takes `now` as a parameter instead.
- The seeding builds roles with a `desc=` keyword (app/services/services.py:22-24), while the role table has no such column (app/models/models.py:26-31 names it `description`). As written, that constructor raises `TypeError` on an empty role table. The model stores the three texts as descriptions.
- `create_tokens` reads the clock four times (app/middleware/auth_middleware.py:53-66). The model reads it once, so the returned expiries equal the `exp` claims exactly.

## Model

| member | source | states |
|---|---|---|
| Jwt.Decode | app/middleware/auth_middleware.py:109-124 | a token decodes to its claims only if it was signed with this key and `now < exp`; a token signed with this key whose `exp <= now` is expired; anything else is invalid |
| Jwt.DecodeEncode | app/middleware/auth_middleware.py:109-119 | decoding an encoded payload with the same key gives the payload back before `exp`, and reports expiry from `exp` on |
| Jwt.DecodeOtherKey | app/middleware/auth_middleware.py:123-124 | a token signed under another key never decodes, whatever its expiry |
| Text.ParseNatToString | app/middleware/auth_middleware.py:30 | the `sub` claim `str(user_id)` parses back to the user id |
| Middleware.CreateAccessToken | app/middleware/auth_middleware.py:25-34 | the access payload has `sub` = the user id, `token_type` "access", and `exp = now + delta`; with no delta or a zero delta, `exp` is 15 minutes ahead |
| Middleware.CreateRefreshToken | app/middleware/auth_middleware.py:37-46 | the refresh payload has `sub` = the user id, `token_type` "refresh", and `exp = now + delta`, falling back to 7 days |
| Middleware.CreateTokens | app/middleware/auth_middleware.py:49-67 | the access expiry is `now + 60` and the refresh expiry is `now + 604800`, so access expires first; each returned expiry equals the `exp` inside its token; both tokens carry the user id; the two tokens differ |
| Middleware.AuthMiddleware | app/middleware/auth_middleware.py:103-124 | a missing or empty token gives 401 "No auth token, access denied"; a correctly signed token is accepted before `exp` with its claims as encoded, and gives 401 "Token expired" from `exp` on; every other token gives 401 "Token is not valid…" (each outcome as an if-and-only-if) |
| Middleware.RejectionsDistinct | app/middleware/auth_middleware.py:106-124 | the three rejection messages are pairwise different |
| Middleware.IssuedAccessToken | app/middleware/auth_middleware.py:53-56 | a freshly minted access token authenticates its user, as kind "access", for exactly 60 seconds, and is reported expired afterwards |
| Middleware.RefreshTokenAcceptedAsBearer | app/middleware/auth_middleware.py:110-119 | a refresh token passes the gate for 7 days and is reported with `token_type` "refresh", because no kind check is made |
| Middleware.ForeignTokenInvalid | app/middleware/auth_middleware.py:121-124 | a token signed under another key is "not valid" even when expired, because the signature is checked first |
| Models.NewUser | app/models/models.py:39-42 | a new user defaults to role 1, token version 0 and active, with no login time and no stored tokens |
| Models.NewUserToken | app/models/models.py:51-63 | a new token record keeps the given fields, is not revoked and has no `revoked_at` |
| Models.NextUserId | app/models/models.py:35 | the next serial id is larger than every id in use |
| Models.PurgeUser | app/models/models.py:54 | a hard delete of a user also removes exactly that user's token records, each other row kept as often as it occurred and in its order |
| Models.ParseSurveyStatus | app/models/models.py:73-75 | only a status's own name parses to that status |
| Models.SurveyStatusRoundTrip | app/models/models.py:73-75 | the check constraint admits exactly "draft", "active" and "closed", and each name round-trips |
| Models.ParseQuestionType | app/models/models.py:92-94 | only a question type's own name parses to that type |
| Models.QuestionTypeRoundTrip | app/models/models.py:92-94 | exactly "multiple_choice", "text", "rating" and "dropdown" are admitted, and each round-trips |
| AuthSchemas.ParseTokenType | app/schemas/auth.py:7-9 | only a kind's own name parses to that kind |
| AuthSchemas.TokenTypeRoundTrip | app/schemas/auth.py:7-9 | exactly "access" and "refresh" name a token kind, and the two names differ |
| AuthSchemas.CheckLength | app/schemas/auth.py:12-16 | a length-constrained field accepts its value unchanged iff the length is within bounds, and too short is reported first |
| AuthSchemas.ValidateUsername | app/schemas/auth.py:33-39 | a username is accepted unchanged iff it is alphanumeric; a space is reported before any other bad character |
| AuthSchemas.UsernameField | app/schemas/auth.py:12-18 | the username field accepts exactly alphanumeric names of 3 to 50 characters |
| AuthSchemas.ValidatePassword | app/schemas/auth.py:41-49 | accepted iff at least 8 characters with a digit and an upper-case letter; failures are reported in that order |
| AuthSchemas.PasswordField | app/schemas/auth.py:26-31 | the password field accepts exactly the passwords the validator accepts |
| AuthSchemas.PasswordFieldHidesValidatorLengthCheck | app/schemas/auth.py:26-49 | the field's `min_length` runs first, so the validator's own length message is never reported |
| AuthSchemas.ValidateNewPassword | app/schemas/auth.py:70-74 | a non-empty new password is refused iff the current password is absent or empty; otherwise the value passes unchanged |
| AuthSchemas.MakeTokenResponse | app/schemas/auth.py:145-159 | `token_type` defaults to "bearer"; the token and `expires_in` are kept |
| UserCrud.GetUser | app/crud/user.py:15-16 | the first user with the username, or none exactly when no user has it |
| UserCrud.GetUserById | app/crud/user.py:19-20 | the first user with the id, or none exactly when no user has it |
| UserCrud.CheckUnique | app/crud/user.py:22-27 | true iff no user has the username and no user has the email |
| UserCrud.DeleteUser | app/crud/user.py:30-37 | none for an unknown name; otherwise the first user with the name only gets `is_active` cleared, and every other row stays |
| UserCrud.DeleteUserIdempotent | app/crud/user.py:30-37 | deleting twice leaves the table as deleting once |
| UserCrud.DeleteUserIsSoft | app/crud/user.py:35 | the deleted user can still be looked up, now inactive |
| UserCrud.DeleteUserKeepsTableValid | app/crud/user.py:30-37 | the soft delete keeps ids, usernames and emails unique |
| AuthCrud.CreateUserToken | app/crud/auth.py:12-34 | refused iff the refresh token is already stored (reported as such) or no user row has the id (the foreign key); otherwise appends exactly one record with the given fields, not revoked, leaving existing records and keeping refresh tokens unique |
| AuthCrud.RevokeToken | app/crud/auth.py:36-40 | every record with the refresh token becomes revoked at `now`; no other field changes and records with another token are unchanged |
| AuthCrud.RevokeUnknownIsNoOp | app/crud/auth.py:37-39 | revoking a token no record carries changes nothing |
| AuthCrud.RevokeTwice | app/crud/auth.py:39 | revoking twice gives the flags of one revocation; only `revoked_at` takes the later time |
| AuthCrud.GetActiveTokens | app/crud/auth.py:42-47 | exactly the user's unrevoked records whose refresh expiry is after `now`, each as often as it is stored, in store order |
| AuthCrud.RevokedNeverActive | app/crud/auth.py:36-47 | after a revocation, no active-token query lists that refresh token |
| AuthCrud.RevokeKeepsOtherSessions | app/crud/auth.py:36-47 | revoking one token leaves the user's other active sessions active |
| AuthCrud.CreatedTokenIsActive | app/crud/auth.py:12-47 | a stored token whose refresh expiry is ahead is listed last among the user's active tokens |
| AuthCrud.UpdateData | app/crud/auth.py:59 | the update yields exactly the keys of the fields that were set, each with its submitted value (possibly null) |
| AuthCrud.HashPasswordKey | app/crud/auth.py:61-62 | a `password` key is replaced by the hash of its value under `hashed_password`, every other key kept; a null password fails as hashing `None` raises; without the key the data is unchanged |
| AuthCrud.UpdateUser | app/crud/auth.py:54-69 | none for an unknown name; otherwise only the first matching user changes, and only in `email` when that was set; refused exactly when a non-null email was set that another row already holds |
| AuthCrud.UpdateUserKeepsPassword | app/crud/auth.py:59-65 | through the update form the stored password never changes |
| AuthCrud.EmptyUpdateIsNoOp | app/crud/auth.py:54-69 | an update that sets nothing leaves the table unchanged and returns the user |
| AuthCrud.UpdateUserKeepsTableValid | app/crud/auth.py:64-67 | an accepted update keeps ids, usernames and emails unique |
| Login.Login | app/routers/auth.py:14-47 | refused with 401 "Invalid credentials" iff the name is unknown or the password does not verify; on success only that user's row changes, taking the freshly minted token pair and `last_login = now`, and the response is that access token, "bearer", 60 |
| Login.LoginRejectsUniformly | app/routers/auth.py:18-25 | an unknown name and a wrong password get identical answers |
| Login.LoginThenAuthenticate | app/routers/auth.py:31-47 | the access token a login returns authenticates that user, as kind "access", for the next 60 seconds |
| Login.InactiveUserCanLogIn | app/routers/auth.py:18-25 | a soft-deleted user with the right password logs in, because `is_active` is not consulted |
| Login.LoginKeepsTableValid | app/routers/auth.py:31-40 | a login keeps ids, usernames and emails unique |
| Admin.GetMe | app/routers/admin.py:60-67 | 401 iff no user has the id; otherwise exactly that user's id and username |
| Admin.ApplyAdminUpdate | app/routers/admin.py:79-81 | each of the form's fields overwrites its column (the optional ones become set); id, password, role, email, tokens, `is_active`, `token_version`, `last_login`, id number and address stay |
| Admin.UpdateCurrentAdmin | app/routers/admin.py:74-84 | succeeds iff a row has the id and no other row holds the new username, and every failure is a server error; on success only the first row with the id changes, to the form's values |
| Admin.UpdateCurrentAdminKeepsPassword | app/routers/admin.py:14 | the misspelt `passowrd` field never changes the stored password |
| Admin.AdminLogout | app/routers/admin.py:118-128 | 404 "Admin not found! or logged out" iff the user is missing or holds no access token; otherwise only that row changes, with both tokens cleared |
| Admin.LogoutTwiceFails | app/routers/admin.py:122-126 | a second logout in a row is the 404 |
| Admin.LoginThenLogout | app/routers/admin.py:122-128 | with unique ids, a login puts the user in the logged-in state, and a logout by that id succeeds and leaves it logged out |
| Admin.LogoutFromLoggedIn | app/routers/admin.py:122-128 | for a logged-in row that is the first with its id, a logout by that id succeeds and the session then reads as logged out |
| Admin.LogoutKeepsTableValid | app/routers/admin.py:125-127 | a logout keeps ids, usernames and emails unique |
| UserRouter.PhoneNumberShape | app/routers/user.py:15 | a phone number matches iff it is "09" followed by exactly nine digits |
| UserRouter.IdNumberShape | app/routers/user.py:17 | an id number matches iff it is exactly ten digits |
| UserRouter.OmittedIdsDefaultToOne | app/routers/user.py:18-19 | leaving `university_id` or `department_id` out of the form behaves exactly as sending 1, so the stored id is 1; sending 0 breaks the `ge=1` rule |
| UserRouter.ProfileOf | app/routers/user.py:59-60 | the form's fields are written to the new row's columns unchanged, an omitted university or department id as 1 |
| UserRouter.Register | app/routers/user.py:55-65 | a form breaking a field rule is refused; a taken username gives 409 "username already exists" and no change; otherwise exactly one row is appended with a fresh id, role 1, no email and the password as submitted |
| UserRouter.RegisterTwiceConflicts | app/routers/user.py:57-58 | registering the same username again is the 409 |
| UserRouter.RegisterKeepsTableValid | app/routers/user.py:57-63 | a registration keeps ids, usernames and emails unique |
| UserRouter.RegisterThenLogin | app/routers/user.py:59-60 | because the password is stored unhashed, a later login succeeds exactly when the hasher accepts the password against the plain text |
| Seeding.SuperAdmin | app/services/services.py:44-55 | the seeded admin has the configured username, the hash of the configured password, role 3 and status true |
| Seeding.SeedReferenceTables | app/services/services.py:21-36 | an empty role table gets exactly roles 1 "user", 2 "admin" and 3 "superadmin"; empty university and department tables get their one default row; non-empty tables are left untouched |
| Seeding.InitializeSuperAdmin | app/services/services.py:13-64 | the super admin is added only when no user has role 3, and afterwards one exists unless the insert failed; it fails, leaving the users untouched, iff the username is taken or role 3 is missing |
| Seeding.SeedIdempotent | app/services/services.py:21-58 | running the seeding a second time changes nothing and ends the same way |
| Seeding.SeedEmptyDatabase | app/services/services.py:18-58 | an empty database ends with the three roles, the defaults and exactly the super admin |
| Seeding.DefaultRolesDistinct | app/services/services.py:22-24 | the three seeded roles have distinct ids and names |
| Seeding.SeedKeepsTableValid | app/services/services.py:38-58 | the seeding keeps ids, usernames and emails unique |
| Seeding.SeededAdminCanLogIn | app/services/services.py:44-55 | with a sound hasher, a super admin created by the seeding logs in with the configured username and password |
| Seeding.SuperAdminProfileWellFormed | app/services/services.py:47-54 | the seeded phone number, id number, sid and names obey the registration form's rules |
| EventSchemas.DatesNotOrdered | app/schemas/event.py:22-23 | an event may end before it starts and still pass every rule |
| EventAdmin.Matching | app/routers/event_admin.py:56-64 | exactly the events meeting every given filter, each as often as it occurs in the table, in table order |
| EventAdmin.ImageUrl | app/routers/event_admin.py:83 | the first image of the event, or none exactly when it has none |
| EventAdmin.ListEvents | app/routers/event_admin.py:45-87 | every entry meets the filters and carries its event's first image; the entries are the matching events from position `skip` on, at most `limit` of them |
| EventAdmin.ListEventsInTableOrder | app/routers/event_admin.py:66 | the listed events keep table order |
| EventAdmin.ListEventsComplete | app/routers/event_admin.py:54-66 | from offset 0 with room for the table, no matching event is missed |
| EventAdmin.EmptySearchIsNoCondition | app/routers/event_admin.py:60-64 | an empty search term filters nothing, while a non-empty one drops rows whose subject and description are null |
| EventAdmin.SearchIgnoresCase | app/routers/event_admin.py:62-63 | the search term's case does not change the result |
| EventAdmin.GetEvent | app/routers/event_admin.py:92-102 | 404 "Event not found" iff no event has the id; otherwise the first such event is answered iff it passes the `EventDB` response model (subject of 3..20 characters, description null or 3..50, text at most 300, code at most 20, both dates present), and a 500 is answered when it does not |
| EventAdmin.StoredRowServed | app/schemas/event.py:18-43 | a row stored from a creation form reads back as that form, so the response model accepts it exactly when the creation form's rules accept the form |
| EventAdmin.ApplyEventUpdate | app/routers/event_admin.py:118-120 | each field set in the update (possibly to null) overwrites its column; unset fields, the id and the creation time stay |
| EventAdmin.UpdateEvent | app/routers/event_admin.py:104-125 | 404 iff no event has the id, and then the table is unchanged; otherwise only the first such event changes, only in the fields that were set, and the change is committed whatever the answer; the answer is the updated row iff it passes the `EventDB` response model, and a 500 otherwise |
| EventAdmin.UpdateThenGet | app/routers/event_admin.py:92-125 | a later lookup of the id answers exactly what the update answered, so an update that ended in a 500 leaves an event every lookup answers with a 500 |
| EventAdmin.EmptyEventUpdateIsNoOp | app/routers/event_admin.py:114-125 | an update setting nothing leaves the table unchanged and answers what a lookup of the id answers |
| EventAdmin.UpdateEventIdempotent | app/routers/event_admin.py:114-125 | sending the same update twice leaves the table, and gets the answer, of sending it once |
| EventAdmin.UpdateCanBreakCreationRules | app/schemas/event.py:29-35 | an update may set a subject no valid creation form could hold, or null, and the row it leaves fails the response model |
| EventAdmin.BlankSubjectCommittedBehind500 | app/routers/event_admin.py:118-125 | blanking an existing event's subject stores the empty subject, answers 500, and leaves every later lookup of the event answering 500 |
| EventAdmin.DeleteEvent | app/routers/event_admin.py:129-142 | 404 iff no event has the id; otherwise exactly the first such event is removed |
| EventAdmin.DeleteEventThenGet | app/routers/event_admin.py:136-141 | with unique ids, a deleted event is gone: fetching or deleting it again is the 404, and one row fewer remains |
| EventAdmin.DeleteEventImage | app/routers/event_admin.py:179-197 | 404 "Image not found" iff no image has both ids; otherwise exactly the first such image is removed |
| EventAdmin.DeleteEventImageKeepsOtherEvents | app/routers/event_admin.py:187-190 | an image of another event always survives an image delete |
| EventAdmin.SaveNames | app/routers/event_admin.py:161 | one save name per uploaded file, in order, each the event id, "_" and that file's identifier |
| EventAdmin.SplitSaveName | app/routers/event_admin.py:161 | whatever a save name is split into rebuilds that save name |
| EventAdmin.SaveNameRoundTrip | app/routers/event_admin.py:161 | a save name gives back its event id and identifier |
| EventAdmin.SaveNamesDistinct | app/routers/event_admin.py:161 | distinct identifiers give distinct save names |
| Uploader.ObjectKey | app/services/uploader.py:47 | the key is destination, "/", save name, ".", format, with the separators at fixed positions |
| Uploader.ObjectKeyInjective | app/services/uploader.py:59 | with destination and format fixed, distinct save names give distinct keys |
| Uploader.PermaLink | app/services/uploader.py:59-60 | every link starts with "https://" |
| Uploader.PermaLinkDecodes | app/services/uploader.py:59-60 | what follows the host in a link percent-decodes to the key's UTF-8 bytes |
| Uploader.PermaLinkVerbatim | app/services/uploader.py:59-60 | for an endpoint "https://host" and a key of unreserved characters and "/", the link is "https://" + bucket + "." + host + "/" + key |
| Uploader.GeneratePermaLinks | app/services/uploader.py:56-63 | exactly one link per save name, in the same order, each built from that name's object key |
| Uploader.UploadImages | app/services/uploader.py:39-54 | files pair with save names up to the shorter list; each stored object is its file under its key; the first missing file stops the run with "Error with file N: File for N is None", and such an error occurs iff some paired file is missing |
| Uploader.UploadAndLink | app/routers/event_admin.py:162-164 | a missing file raises out of the upload, so the route returns no link; otherwise one link per save name, and every stored object's link is the link at the same position, built from that object's own key |
| Percent.UnquoteQuote | app/services/uploader.py:59 | percent-decoding a quoted key gives back the key's UTF-8 bytes |
| Percent.QuoteSafeIdentity | app/services/uploader.py:59 | a key of unreserved characters and "/" is quoted verbatim |
| Percent.QuoteUrlSafe | app/services/uploader.py:59 | a quoted key holds only unreserved characters, "/" and "%" |

## Left out

- Real JWT signing, verification and serialisation, and bcrypt through passlib. These are foreign libraries, modelled as an abstract codec and an uninterpreted hasher.
- Jwt.Decode: a decoded payload that is empty (`if verified_token:` failing, so the route returns nothing) is not modelled, because every payload the service mints has all three claims.
- Middleware.AuthMiddleware: the 401 "Not authenticated" that the OAuth2 bearer scheme itself raises for a missing header is not modelled. Only the route's own checks are.
- The module-level `create_tokens` (app/middleware/auth_middleware.py:80-100). It calls the token builders with a keyword they do not accept and nothing calls it.
- `get_current_user`, `get_admin` and `get_super_admin`. They are defined in no file of the repository, so the model has no role-based authorization. The authenticated user's id is a parameter of the admin routes.
- Timezones, `datetime` arithmetic and the naive `datetime.now()` of the login route. Times are integer seconds.
- Middleware.CreateTokens: the four separate clock readings are one `now`, so a real call's returned expiries can differ from the embedded `exp` by the time between readings.
- AuthCrud.CreateUserToken: when the refresh token is repeated and the user is unknown at once, the model reports the repeated token; which violation the database names first is not modelled.
- Column length limits (`String(50)` and the like), NOT NULL checks that the routes would violate against the shipped table definition (a registered user has no email), and `created_at`/`updated_at` timestamps.
- UserRouter.RegisterThenLogin: the password hasher's `verify` is a total boolean function. With the bcrypt-only passlib context (app/middleware/auth_middleware.py:20, app/middleware/auth_middleware.py:77), `verify` raises `UnknownHashError` (a `ValueError`) on a stored plain-text password, so the real login of a registered user answers with a server error rather than a 401 or a success. That outcome is not represented.
- Models.PurgeUser: the other cascades and `SET NULL` rules of app/models/models.py are not modelled; no route hard-deletes a user.
- The tables behind surveys, questions, choices, responses, notifications and settings, beyond the two enumerated columns.
- Admin.UpdateCurrentAdmin: the field constraints of the admin form are not modelled (`university_id <= 1`, `sid` pattern, lengths, the duplicated `degree` field). The form arrives already validated. The server error for a missing row stands for the exception `setattr` on `None` raises.
- UserRouter.Register: a form breaking a field rule is refused as one `InvalidBody` outcome, without the framework's 422 error list.
- UserRouter.Register: a Python `datetime` birth date is an integer.
- The other routes of app/routers/user.py (`login`, `update`, `logout`, `upload-profile`, the event join and leave routes, `request-resume`). They return fixed messages.
- `get_users`, `upload_admin_image` and `upload_event_image`. The first is a listing join; the other two are storage I/O. Only their save-name and link construction is modelled.
- `create_event`. The router object is reassigned after it is declared (app/routers/event_admin.py:36, app/routers/event_admin.py:40), so it is never mounted.
- EventAdmin.ListEvents: the random `teacher_name`, `user_rate` and `progress` fields are left out because they are nondeterministic. The SQL query has no ORDER BY, so table order stands for the database's order. Negative `skip` and `limit` are excluded by the `nat` type.
- EventAdmin.ILike: `%` and `_` inside a search term are plain characters, not wildcards, and case folding covers ASCII only.
- EventAdmin.GetEvent: the `images` list of the `EventDB` response model is not checked. Whether an image row carries the `new_images` field that `EventImageDB` requires depends on a table definition that is not part of this model; only the event's own columns are checked.
- EventAdmin.DeleteEvent: what happens to the deleted event's image rows depends on a table definition that is not part of this model. They are left as they are.
- Uploader.UploadImages: the S3 transfer, and the RuntimeError for credential or transfer failures, are not modelled. Every present file is stored.
- Seeding.InitializeSuperAdmin: an unset environment variable (a `None` username or password) and the logging are not modelled.
- Text: Python's `str.isalnum`, `str.isdigit`, `str.isupper` and the regular expression `\d` are modelled on ASCII. Python also accepts other Unicode letters and digits.
- The alembic migration, SMTP, database session plumbing, CORS and app wiring, the template routes and the static JavaScript.
