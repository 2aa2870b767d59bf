# Verified model of the gateway and auth-service kernels

This project models the stateful kernels of the monorepo and proves what they keep over whole runs:

- **Rate limiting** (`LocalLimiter`, `RedisLimiter`, `RedisProtocol`, `RedisPromise`). The mutex-protected counters with their
  cleanup sweep, the Redis sorted set with its separate check and add steps, and the two limiters that share one
  counter because they derive the same key.
- **Filter builders** (`SqlLanguage`, `SqlEngine`, `SqlBuilders`, `Like`, `Paging`, `Text`). The five list builders
  are run as the step-by-step text assembly they are; the text is then lexed, parsed and evaluated in three-valued
  logic, and each method is proved to return the requested page of exactly the matching rows.
- **Accounts, roles and permissions** (`Accounts`, `TenantUsecase`, `UserUsecase`, `Roles`, `RoleManagement`,
  `PermissionCodec`). Tables with the constraints of the migration, statements over arbitrary row arguments, and the
  use cases on top.
- **Sessions and authentication** (`Sessions`, `SessionListing`, `SessionUsecase`, `AuthUsecase`,
  `AuthAnswers`, `AuthRuns`). Whole runs of the statements and the use cases, and what each authentication call answers
  and writes in terms of the tables' own columns.
- **Concurrent fan-out** (`FanOut`, `FanOutAnswers`). Goroutines and a buffered channel as a protocol, then the aggregation over maps
  whose iteration order is not determined.

Objects whose methods update state are classes whose methods are proved against functions of the old state; runs are
sequences of calls or of statements, and the statement-level runs cover every interleaving of concurrent requests.
Times are integers and each call takes the time it reads as a parameter. Identifiers are natural numbers; freshly
drawn identifiers, bcrypt hashes and the outcome of the Redis pipeline are parameters. SHA-256 and the bcrypt
comparison are arbitrary functions in `AuthUsecase.Config`.

`dafny verify dfyconfig.toml` checks everything.

## Where the code and its documentation differ

- `README.md:234` promises refresh-token rotation. `AuthUsecase.RefreshToken` always fails: it inserts the session it
  has just read again, under the primary key that row already has.
- `access_token_id` is unique and every session the code inserts carries the empty string there, because
  `GenerateAccessToken` writes the identifier to its own copy of the claims. Hence at most one login ever succeeds on
  a database that starts without sessions (`AuthRuns.AtMostOneLoginSucceeds`). The session properties in `Sessions`
  are stated for arbitrary inserts, so they do not depend on this.
- Tokens carry the nil session id, which is set after the token has been made; logging out with one finds no session.
- `README.md:231` and `api-gateway/README.md:129` describe a sliding window. The Redis limiter is one over whole
  seconds, in which all admissions of a second count once, so with a burst of two or more a flood within one second
  passes whole; `RedisPromise` says for exactly which bursts and windows a window never holds more than `burst`
  admissions. The local limiter restarts a fixed window on demand.
- `GetUserPermissions` does not look at the role's status although `GetRolesByUserID` does; the model keeps that.

## Model

| member | source | states |
|---|---|---|
| `LocalLimiter.RateLimiter.constructor` | api-gateway/internal/middleware/ratelimit.go:31-36 | a new limiter has an empty cache |
| `LocalLimiter.RateLimiter.IsAllowedLocal` | api-gateway/internal/middleware/ratelimit.go:144-170 | the whole new cache and the answer: a key without a live window starts one and is admitted whatever the burst, a full counter rejects with the rest of the window, clipped at zero, any other counter advances |
| `LocalLimiter.RateLimiter.Cleanup` | api-gateway/internal/middleware/ratelimit.go:183-197 | deleting while iterating in any order leaves exactly the entries not older than two minutes |
| `LocalLimiter.RateLimiter.Limit` | api-gateway/internal/middleware/ratelimit.go:45-86 | one limiter's middleware: disabled it lets everything through; otherwise a burst or window that is set is the one applied, an unset one is the configured default, and an unset default window is one minute |
| `LocalLimiter.RateLimiter.HandleRequest` | api-gateway/cmd/gateway/main.go:100-124 | the whole chain: the global limiter, then authentication, then the endpoint limiter where the route has one, on one key; the new cache and the answer are one step of the runs the next four lemmas are about |
| `LocalLimiter.RouteHalvesItsBurst` | api-gateway/cmd/gateway/main.go:100-124 | runs of the whole chain on a route configured with a burst and a window: at most half that burst, rounded up, gets through in one counter window, whatever other keys do |
| `LocalLimiter.RouteAdmitsExactly` | api-gateway/cmd/gateway/main.go:100-124 | for authorized requests within a minute and the route's window of the first, exactly min(half the default burst rounded up, half the route's burst rounded down) of them at most |
| `LocalLimiter.OpenRouteAdmitsExactly` | api-gateway/internal/middleware/ratelimit.go:45-64 | on a route without limits of its own the default burst counts in full within a minute |
| `LocalLimiter.TurnedAwayCostsOneUnit` | api-gateway/cmd/gateway/main.go:100-124 | a request that authentication turns away is not admitted and costs its key one unit like any other |
| `LocalLimiter.WholeRunBound` | api-gateway/internal/middleware/ratelimit.go:144-197 | for every burst and every window that is not negative, over every run on a monotone clock with any traffic on other keys and any sweeps: a closed interval of k times min(window, two minutes) holds at most (k+1)*max(1,burst)-1 admissions of one key |
| `LocalLimiter.WholeRunBoundSharp` | api-gateway/internal/middleware/ratelimit.go:144-170 | for every burst of at least one, some run without sweeps admits (k+1)*burst-1 requests in k windows, provided k is at most the number of nanoseconds in the window; for windows up to two minutes that is the bound above |
| `LocalLimiter.SweepsInvisibleUpToTwoMinutes` | api-gateway/internal/middleware/ratelimit.go:144-197 | inserting sweeps anywhere changes no answer of any run if and only if no window is longer than two minutes |
| `LocalLimiter.RetryAfterExact` | api-gateway/internal/middleware/ratelimit.go:151-166 | after a rejection, with any other traffic and sweeps in between, the next request on the key is admitted exactly when it comes more than the returned delay later |
| `LocalLimiter.SharedCounterHalvesBurst` | api-gateway/cmd/gateway/main.go:100-124 | over every serial run, for any two windows and however many requests authentication stops in between, one counter window lets at most ceil(max(1,burst)/2) requests through both limiters |
| `LocalLimiter.CeilingReached` | api-gateway/cmd/gateway/main.go:100-124 | that ceiling is reached, for all windows and every endpoint burst up to the global one |
| `LocalLimiter.AlignedWindowExact` | api-gateway/cmd/gateway/main.go:100-124 | when all visits are authorized and fall into the window the first one opens, exactly how many are admitted, as a function of the two bursts |
| `RedisLimiter.RateLimiter.constructor` | api-gateway/internal/middleware/ratelimit.go:31-36 | no key exists in Redis and the fallback cache is empty |
| `RedisLimiter.RateLimiter.Oldest` | api-gateway/internal/middleware/ratelimit.go:119-125 | visiting the members in any order yields the lowest score |
| `RedisLimiter.RateLimiter.IsAllowedRedis` | api-gateway/internal/middleware/ratelimit.go:100-141 | prune, count, and either reject with the delay from the oldest score or add and renew the deadline; the set of every other key is as it was; when the pipeline fails, exactly the in-memory decision |
| `RedisLimiter.KeysAreSeparate` | api-gateway/internal/middleware/ratelimit.go:101 | two clients share a Redis key if and only if they are the same |
| `RedisLimiter.KeysDoNotInterfere` | api-gateway/internal/middleware/ratelimit.go:100-141 | over every run of calls on any keys, with any limits and any pipeline failures on the way, the answers Redis gives to one key are those of its own serial run, hence of a sliding log of that key's own requests |
| `RedisLimiter.KeyExpires` | api-gateway/internal/middleware/ratelimit.go:133-137 | after an admission the set is kept for the window in whole seconds, at least one, and is gone from then on |
| `RedisLimiter.MemberInjective` | api-gateway/internal/middleware/ratelimit.go:133 | different seconds give different members of one key |
| `RedisLimiter.PrunedIsWindow` | api-gateway/internal/middleware/ratelimit.go:105-116 | after pruning, the members are exactly the admitted seconds in (now-W, now], counted once each |
| `RedisLimiter.SerialRunIsSlidingLog` | api-gateway/internal/middleware/ratelimit.go:100-141 | every serial run answers like a reference that remembers all admissions, and the same with and without the key expiring at its deadline |
| `RedisLimiter.NeverRejectsAboveWindowSeconds` | api-gateway/internal/middleware/ratelimit.go:118-138 | no serial run is ever rejected if and only if the burst exceeds the whole seconds of the window |
| `RedisPromise.WindowPromiseInSeconds` | api-gateway/internal/middleware/ratelimit.go:99-141 | the documented promise, at most `burst` admitted requests in every window, with time in whole seconds as the limiter takes it: kept by every serial run if and only if the burst is at most one (or the window has no whole second) |
| `RedisPromise.WindowPromiseInRealTime` | api-gateway/internal/middleware/ratelimit.go:99-141 | the same in real time: kept by every serial run if and only if nothing is ever admitted or the window is empty |
| `RedisPromise.FloodOfOneSecondIsAdmitted` | api-gateway/internal/middleware/ratelimit.go:133-137 | the input that breaks it: for a burst of two or more, any number of requests within one second are all admitted |
| `RedisPromise.LateAndEarly` | api-gateway/internal/middleware/ratelimit.go:102-107 | the input that breaks it in real time for a burst of one: two requests less than a window apart, one at the end of a second and one as soon as that second has left the window |
| `RedisPromise.SecondsStayWithinBurst` | api-gateway/internal/middleware/ratelimit.go:105-118 | what every serial run does keep: the admissions of a window lie in at most `burst` different seconds, so a client sending at most one request per second is held to the burst |
| `RedisLimiter.DelayIsThreshold` | api-gateway/internal/middleware/ratelimit.go:120-127 | the returned delay never ends before the oldest second leaves the window, and ends at that instant exactly for windows of whole seconds |
| `RedisLimiter.RetryAfterExactForWholeSeconds` | api-gateway/internal/middleware/ratelimit.go:107-130 | in every serial run, the delay is the exact threshold for a lone retry if and only if the window is a whole number of seconds |
| `RedisProtocol.OvershootBounded` | api-gateway/internal/middleware/ratelimit.go:105-140 | with check and add as separate steps of any number of interleaved clients with arbitrary clocks, set size plus pending adds never exceeds burst-1+K when at most K clients are in between |
| `RedisProtocol.SingleClientKeepsBurst` | api-gateway/internal/middleware/ratelimit.go:105-140 | with one client at a time the set never exceeds the burst |
| `RedisProtocol.OvershootReached` | api-gateway/internal/middleware/ratelimit.go:105-140 | for every window, every burst of at least one and every K of at least one, some interleaving (of clients with different clocks) fills the set to burst-1+K |
| `SqlLanguage.TextRoundTrip` | services/auth-service/internal/repository/postgres/audit_repo.go:83-86 | lexing and parsing the printed form of any condition gives the condition back, AND binding tighter than OR |
| `SqlEngine.JoinIsConjunction` | services/auth-service/internal/repository/postgres/audit_repo.go:83-86 | joining the conditions with " AND " prints their conjunction, whatever ORs they contain |
| `SqlEngine.WhereParses` | services/auth-service/internal/repository/postgres/user_repo.go:171-174 | the rendered WHERE text parses to the conjunction and its placeholders are exactly $1..$n for n arguments |
| `SqlEngine.ConditionDecides` | services/auth-service/internal/repository/postgres/user_repo.go:171-174 | evaluated in three-valued logic with the arguments (and any later ones) bound, the text keeps a row exactly when every condition holds of it |
| `SqlEngine.TailParses` | services/auth-service/internal/repository/postgres/user_repo.go:198-206 | the last two placeholders are read as limit and offset |
| `SqlBuilders.AuditMeaning` | services/auth-service/internal/repository/postgres/audit_repo.go:41-86 | the six optional audit filters: the conditions hold of a row exactly when it matches every filter field that is set, NULL columns included |
| `SqlBuilders.RoleMeaning` | services/auth-service/internal/repository/postgres/role_repo.go:96-125 | the same for roles: own or global tenant, status, search |
| `SqlBuilders.SessionMeaning` | services/auth-service/internal/repository/postgres/session_repo.go:93-115 | the same for sessions, including the two fixed texts for ended and running sessions |
| `SqlBuilders.UserMeaning` | services/auth-service/internal/repository/postgres/user_repo.go:143-174 | the same for users; deleted users never match |
| `SqlBuilders.TenantMeaning` | services/auth-service/internal/repository/postgres/tenant_repo.go:111-140 | the same for tenants, with the nullable domain in the search |
| `SqlBuilders.CountMeansQuery` | services/auth-service/internal/repository/postgres/user_repo.go:176-181 | COUNT with the rendered WHERE text, read from that text, yields the number of matching rows; the words around it are not read |
| `SqlBuilders.PageMeansQuery` | services/auth-service/internal/repository/postgres/user_repo.go:198-210 | the page query, its WHERE text and its LIMIT/OFFSET tail each read from their text, delivers the slice of the matching rows at limit and offset, or breaks off before the first row if one is negative; the words between are not read |
| `SqlBuilders.RunStatements` | services/auth-service/internal/repository/postgres/user_repo.go:176-229 | running both queries yields the page and the total; when the page query breaks off, an empty page and no error |
| `SqlBuilders.FetchPage` | services/auth-service/internal/repository/postgres/user_repo.go:198-229 | appending limit and offset, querying and scanning, without asking whether the rows broke off |
| `SqlBuilders.ListAudit` | services/auth-service/internal/repository/postgres/audit_repo.go:40-137 | end to end, the step-by-step builder returns the requested page of exactly the matching rows, in table order (empty for a negative limit or offset), and their total |
| `SqlBuilders.ListRoles` | services/auth-service/internal/repository/postgres/role_repo.go:95-176 | the same for roles |
| `SqlBuilders.ListSessions` | services/auth-service/internal/repository/postgres/session_repo.go:92-161 | the same for the sessions of one user |
| `SqlBuilders.ListUsers` | services/auth-service/internal/repository/postgres/user_repo.go:142-230 | the same for users |
| `SqlBuilders.ListTenants` | services/auth-service/internal/repository/postgres/tenant_repo.go:110-185 | the same for tenants |
| `SqlBuilders.AppendComparison` | services/auth-service/internal/repository/postgres/audit_repo.go:45-49 | one optional comparison keeps texts, arguments and index in step: the index is always one more than the number of arguments |
| `SqlBuilders.AppendSearch` | services/auth-service/internal/repository/postgres/user_repo.go:162-169 | one optional search keeps them in step with three uses of a single placeholder |
| `SqlBuilders.ListingPagesPartition` | services/auth-service/internal/repository/postgres/user_repo.go:193-206 | for a fixed row order, reading all counted pages yields every matching row once and in order |
| `SqlBuilders.EndedAndRunningAreComplements` | services/auth-service/internal/repository/postgres/session_repo.go:107-113 | the ended and the running list of a user split all of that user's sessions: nothing in both, nothing lost |
| `Like.SearchIsContainmentIff` | services/auth-service/internal/repository/postgres/user_repo.go:162-168 | a search finds exactly the texts that contain it in any case if and only if it has no percent sign, underscore or backslash |
| `Like.WildcardFindsMore` | services/auth-service/internal/repository/postgres/user_repo.go:162-168 | every search with one of these characters finds a text, given explicitly, that does not contain it |
| `SessionListing.ListsAreResolvingAndDead` | services/auth-service/internal/repository/postgres/session_repo.go:67-113 | for any session table, the running list holds exactly the user's sessions that the refresh lookup finds by their own token, and the ended list exactly the dead ones |
| `SessionListing.RunningIsResolving` | services/auth-service/internal/repository/postgres/session_repo.go:107-113 | the same for a single row |
| `Paging.Paginated` | pkg/response/response.go:164-179 | for every page size but zero, negative ones included: the count is at least one exactly when the size is positive, or negative and the total is neither its magnitude nor at least twice that; for positive sizes it is the one number of pages that suffices with none superfluous |
| `Paging.PagesPartition` | pkg/response/response.go:164-179 | the slices at 0, limit, 2*limit, ... for that many pages concatenate to the whole list |
| `Paging.ReportedPageHoldsOffset` | services/auth-service/internal/delivery/http/user_handler.go:61-83 | for any offset and any limit but zero, offset/limit+1 in truncating division is the page holding the row at the offset if and only if the limit is positive and the offset is not negative or a multiple of it |
| `Paging.ReportedPageIsCounted` | services/auth-service/internal/delivery/http/user_handler.go:61-83 | for an offset inside the list it is one of the counted pages |
| `Accounts.TenantRepo.Create` | services/auth-service/internal/repository/postgres/tenant_repo.go:26-38 | the new table or the constraint violated: primary key, unique code, unique domain, deleted rows included |
| `Accounts.TenantRepo.Update` | services/auth-service/internal/repository/postgres/tenant_repo.go:188-201 | only a row that is not deleted is written; unique columns still bind |
| `Accounts.TenantRepo.Delete` | services/auth-service/internal/repository/postgres/tenant_repo.go:204-216 | exactly one live row becomes inactive and deleted |
| `Accounts.TenantRepo.Find` | services/auth-service/internal/repository/postgres/tenant_repo.go:41-109 | a live row the key selects if and only if there is one |
| `Accounts.UserRepo.Create` | services/auth-service/internal/repository/postgres/user_repo.go:26-39 | the new table or the violated key, username index or foreign key |
| `Accounts.UserRepo.Update` | services/auth-service/internal/repository/postgres/user_repo.go:233-248 | only live rows are written and only their editable columns |
| `Accounts.UserRepo.Delete` | services/auth-service/internal/repository/postgres/user_repo.go:251-263 | exactly one live row becomes blocked and deleted |
| `Accounts.UserRepo.UpdateLastLogin` | services/auth-service/internal/repository/postgres/user_repo.go:266-271 | two columns of one row, deleted or not |
| `Accounts.UserRepo.Find` | services/auth-service/internal/repository/postgres/user_repo.go:42-139 | a live row the key selects if and only if there is one |
| `Accounts.UserRepo.CreateCredential` | services/auth-service/internal/repository/postgres/user_repo.go:274-287 | the new credentials or the violated key; last use starts empty |
| `Accounts.UserRepo.UpdateCredential` | services/auth-service/internal/repository/postgres/user_repo.go:345-357 | four columns of one row |
| `Accounts.UserRepo.GetActiveCredentialByType` | services/auth-service/internal/repository/postgres/user_repo.go:321-342 | a usable credential of the user that none is newer than, or none if there is none |
| `Accounts.RunKeepsInvariant` | services/auth-service/internal/repository/postgres/user_repo.go:233-271 | over every interleaving of the statements with arbitrary row arguments: deleted users are blocked, deleted tenants inactive, users point at tenants, live usernames unique |
| `Accounts.DeletedUserStaysFrozen` | services/auth-service/internal/repository/postgres/user_repo.go:233-271 | no run of statements changes a deleted user's row except the two last-login columns |
| `Accounts.DeletedTenantNeverChanges` | services/auth-service/internal/repository/postgres/tenant_repo.go:188-216 | no run of statements changes a deleted tenant's row at all |
| `Accounts.TombstonesAreFinal` | services/auth-service/internal/repository/postgres/user_repo.go:251-263 | from an empty database, whoever is deleted at any point is blocked or inactive ever after and selected by no lookup |
| `Accounts.DeletionIsExact` | services/auth-service/internal/repository/postgres/user_repo.go:251-263 | a deletion touches one row, takes effect at once and is idempotent |
| `Accounts.UserInsertionIsExact` | services/auth-service/internal/repository/postgres/user_repo.go:26-39 | column by column: when an insertion succeeds, and the one row it adds |
| `Accounts.UserUpdateIsExact` | services/auth-service/internal/repository/postgres/user_repo.go:233-248 | the columns an update of a live user writes, those it leaves alone, and when it meets a username |
| `Accounts.LastLoginIsExact` | services/auth-service/internal/repository/postgres/user_repo.go:266-271 | two columns of one row, whether or not it is deleted |
| `Accounts.TenantStatementsAreExact` | services/auth-service/internal/repository/postgres/tenant_repo.go:26-216 | when insertion and update succeed, the row they leave, and the columns a soft deletion sets |
| `Accounts.CredentialStatementsAreExact` | services/auth-service/internal/repository/postgres/user_repo.go:274-357 | a new credential starts unused; an update leaves owner, kind and creation time alone |
| `TenantUsecase.TenantUsecase.CreateTenant` | services/auth-service/internal/usecase/tenant_usecase.go:31-77 | new table and error, given as a function of the call |
| `TenantUsecase.TenantUsecase.UpdateTenant` | services/auth-service/internal/usecase/tenant_usecase.go:106-138 | the same for reading, editing field by field and writing back |
| `TenantUsecase.TenantUsecase.DeleteTenant` | services/auth-service/internal/usecase/tenant_usecase.go:141-158 | the same for deletion |
| `TenantUsecase.CreationOutcome` | services/auth-service/internal/usecase/tenant_usecase.go:32-68 | exactly when a creation succeeds, conflicts or fails as internal: internal if and only if just the rows its checks pass over (deleted tenants, empty domains) hold the code or domain |
| `TenantUsecase.CodesAreNeverReused` | services/auth-service/internal/usecase/tenant_usecase.go:31-158 | over every run of calls, a code once used can never be created again: a conflict while the holder lives, an internal error afterwards (unless the domain conflicts) |
| `TenantUsecase.CreationIsExact` | services/auth-service/internal/usecase/tenant_usecase.go:31-77 | on every table and from the request's own fields: conflict, internal error or success, each under its own condition, and the active row added |
| `TenantUsecase.EditIsExact` | services/auth-service/internal/usecase/tenant_usecase.go:106-138 | the fields that are set are written, code and the rest kept; not found and internal each under its own condition |
| `TenantUsecase.DeletionIsExact` | services/auth-service/internal/usecase/tenant_usecase.go:141-158 | a live tenant is marked inactive and deleted, anything else is not found |
| `UserUsecase.UserUsecase.CreateUser` | services/auth-service/internal/usecase/user_usecase.go:38-125 | the whole new state and result for every path, including a user row left behind when the password cannot be stored |
| `UserUsecase.UserUsecase.UpdateUser` | services/auth-service/internal/usecase/user_usecase.go:155-202 | new table and error of reading, editing and writing back |
| `UserUsecase.UserUsecase.DeleteUser` | services/auth-service/internal/usecase/user_usecase.go:205-221 | not found exactly for missing or deleted users, otherwise the soft deletion |
| `UserUsecase.UserUsecase.AssignRoles` | services/auth-service/internal/usecase/user_usecase.go:114-117 | the assignment loop, failed assignments skipped |
| `UserUsecase.RequestedRolesHeld` | services/auth-service/internal/usecase/user_usecase.go:114-117 | after the loop the new user holds exactly the requested roles that exist, and nobody else's roles change |
| `UserUsecase.UpdatesNeverClash` | services/auth-service/internal/usecase/user_usecase.go:155-186 | in every state the statements can reach, editing a live user never fails and keeps the invariant |
| `UserUsecase.DeletionFreesUsername` | services/auth-service/internal/usecase/user_usecase.go:205-221 | a deleted user's username is free at once, unlike a deleted tenant's code |
| `UserUsecase.CreationKeepsEmailsUnique` | services/auth-service/internal/usecase/user_usecase.go:49-89 | a creation that is not refused keeps emails unique per tenant among live users |
| `UserUsecase.UpdateKeepsEmailsUniqueIff` | services/auth-service/internal/usecase/user_usecase.go:155-186 | an edit, which does not check, keeps them unique if and only if no other live user of the tenant has the new email |
| `UserUsecase.CreationIsExact` | services/auth-service/internal/usecase/user_usecase.go:38-89 | from the request's own fields: each refusal under its own condition, and the row added, with status 0 read as active |
| `UserUsecase.PasswordIsStored` | services/auth-service/internal/usecase/user_usecase.go:91-112 | the password is stored active under the fresh id, or absent if none was given; storing fails exactly for a password that cannot be hashed or an id in use |
| `UserUsecase.EditIsExact` | services/auth-service/internal/usecase/user_usecase.go:155-202 | the columns asked for are written and no other, not found exactly for missing or deleted users |
| `Roles.RunKeepsIntact` | services/auth-service/migrations/001_init.up.sql:109-175 | over every run of statements, keys are the rows' ids, every grant, assignment and tenant reference points at existing rows, and the unique columns hold |
| `Roles.SystemRolesAreProtected` | services/auth-service/internal/repository/postgres/role_repo.go:179-198 | no run of statements, whatever rows they carry, changes or removes a system-defined role |
| `Roles.GetUserPermissions` | services/auth-service/internal/repository/postgres/role_repo.go:350-380 | the join, in any row order, returns without duplicates exactly the permissions reachable through unexpired assignments, whatever the role's status |
| `Roles.JoinGrants` | services/auth-service/internal/repository/postgres/role_repo.go:350-358 | the inner join adds the grants of one role once each |
| `Roles.GetRolesByUserID` | services/auth-service/internal/repository/postgres/role_repo.go:294-325 | exactly the active roles held through unexpired assignments, without duplicates |
| `Roles.PermissionsAgainstRoles` | services/auth-service/internal/repository/postgres/role_repo.go:294-358 | a user has every permission of every listed role, and no more if and only if no inactive role still held adds one |
| `Roles.DeactivationKeepsPermissions` | services/auth-service/internal/repository/postgres/role_repo.go:350-358 | deactivating a role hides it but takes no permission away |
| `Roles.DeletionRemovesExactlyItsGrants` | services/auth-service/internal/repository/postgres/role_repo.go:194-198 | deleting a role removes its grants and assignments and nothing else; each user keeps exactly what other held roles justify |
| `Roles.AssignmentsAreExact` | services/auth-service/internal/repository/postgres/role_repo.go:328-347 | assigning, removing and withdrawing touch one pair each and leave all others; an assigned role is held without expiry whatever was there before |
| `Roles.ExpiryEndsAssignments` | services/auth-service/internal/repository/postgres/role_repo.go:294-358 | what a user holds and reaches, in terms of the assignment rows and their expiry |
| `RoleManagement.RoleRepo.Create` | services/auth-service/internal/repository/postgres/role_repo.go:25-37 | new state, or the violated constraint of the INSERT: key, unique pair or tenant reference |
| `RoleManagement.RoleRepo.Update` | services/auth-service/internal/repository/postgres/role_repo.go:179-191 | the same for the UPDATE, which passes over system roles |
| `RoleManagement.RoleRepo.Delete` | services/auth-service/internal/repository/postgres/role_repo.go:194-198 | the row and, by cascade, what points at it |
| `RoleManagement.RoleRepo.AssignPermission` | services/auth-service/internal/repository/postgres/role_repo.go:232-241 | the statement's new state or the violated foreign key; what that state is, GrantTakesEffect says |
| `RoleManagement.GrantTakesEffect` | services/auth-service/internal/repository/postgres/role_repo.go:232-241 | after a grant succeeds, everyone holding the role reaches the permission and no other pair has come or gone; it fails exactly if the pair is new and one end does not exist |
| `RoleManagement.RoleRepo.AssignRoleToUser` | services/auth-service/internal/repository/postgres/role_repo.go:328-340 | inserted or renewed without expiry, so held for ever unless removed |
| `RoleManagement.RoleRepo.GetByCode` | services/auth-service/internal/repository/postgres/role_repo.go:63-92 | a row of that code with the tenant or without one, if and only if there is one |
| `RoleManagement.RoleRepo.GetByID` | services/auth-service/internal/repository/postgres/role_repo.go:40-60 | the row with the id |
| `RoleManagement.RoleUsecase.CreateRole` | services/auth-service/internal/usecase/role_usecase.go:34-75 | new state and result, including the loop of grants; a role for a tenant that does not exist is an internal error |
| `RoleManagement.CreationIsExact` | services/auth-service/internal/usecase/role_usecase.go:34-75 | when a creation succeeds; a pair is granted afterwards if and only if it was before, or it is the new role with a requested permission that exists; every other table is as it was apart from the new role row |
| `RoleManagement.GrantsAreExact` | services/auth-service/internal/usecase/role_usecase.go:63-66 | the same for the loop of grants alone |
| `RoleManagement.RoleUsecase.UpdateRole` | services/auth-service/internal/usecase/role_usecase.go:99-133 | not found, forbidden, internal or the edited row |
| `RoleManagement.RoleUsecase.DeleteRole` | services/auth-service/internal/usecase/role_usecase.go:136-157 | not found, forbidden or the cascade |
| `RoleManagement.EditIsExact` | services/auth-service/internal/usecase/role_usecase.go:99-133 | the columns asked for are written, code, tenant and the rest kept; not found and forbidden each under its own condition |
| `RoleManagement.DeletionIsExact` | services/auth-service/internal/usecase/role_usecase.go:136-157 | the role, its grants and its holders go and nothing else; not found and forbidden each under its own condition |
| `RoleManagement.SerialRunsKeepCodesUnique` | services/auth-service/internal/usecase/role_usecase.go:34-157 | over every serial run of calls, no two roles share tenant and code, a missing tenant counted as a value |
| `RoleManagement.SeedCodesUnique` | services/auth-service/migrations/001_init.up.sql:311-316 | the seeded roles satisfy that and the table invariant |
| `RoleManagement.LookupByCodeIsBounded` | services/auth-service/internal/repository/postgres/role_repo.go:63-92 | from the seed, after any serial run, a lookup by code matches at most one role without a tenant and at most two with one |
| `RoleManagement.TwoMatchesOccur` | services/auth-service/internal/repository/postgres/role_repo.go:67-71 | two matches do occur, for exactly the tenants that exist |
| `RoleManagement.InterleavedCreationsDuplicate` | services/auth-service/internal/usecase/role_usecase.go:35-61 | two creations interleaved between check and insert: the first goes through if its tenant exists, the second, leaving a duplicate, if and only if the role has no tenant |
| `RoleManagement.CallsKeepIntact` | services/auth-service/internal/usecase/role_usecase.go:34-157 | every run of calls keeps the table invariant |
| `PermissionCodec.PermissionStrings` | services/auth-service/internal/usecase/auth_usecase.go:501-507 | element by element the resource:action string |
| `PermissionCodec.HasPermission` | pkg/auth/jwt.go:95-103 | true exactly if the string or the wildcard string is in the claims |
| `PermissionCodec.HasRole` | pkg/auth/jwt.go:106-113 | true exactly if the role is in the claims |
| `PermissionCodec.EncodingCollisions` | services/auth-service/internal/usecase/auth_usecase.go:501-507 | two permissions share a string if and only if they are equal or split it at different colons |
| `PermissionCodec.ColonFreeEncodingInjective` | services/auth-service/internal/usecase/auth_usecase.go:501-507 | for colon-free resources the encoding is injective |
| `PermissionCodec.OnlyTheWildcardPairEncodesAsWildcard` | pkg/auth/jwt.go:98 | only the pair of two stars encodes as the wildcard string |
| `PermissionCodec.TokenCheckAgrees` | pkg/auth/jwt.go:95-103 | for colon-free resources the string check grants exactly the listed permissions |
| `PermissionCodec.TokenCheckRightEverywhere` | pkg/auth/jwt.go:95-103 | for arbitrary resources it is right on all queries if and only if the list is closed under re-splitting its strings or holds the wildcard |
| `Sessions.SessionRepo.Create` | services/auth-service/internal/repository/postgres/session_repo.go:25-39 | the row inserted, or the constraint that refuses it and no change |
| `Sessions.SessionRepo.GetByID` | services/auth-service/internal/repository/postgres/session_repo.go:42-64 | the row with the id |
| `Sessions.SessionRepo.GetByRefreshTokenHash` | services/auth-service/internal/repository/postgres/session_repo.go:67-89 | an unrevoked, unexpired row with the hash, if and only if there is one |
| `Sessions.SessionRepo.Revoke` | services/auth-service/internal/repository/postgres/session_repo.go:164-168 | one row revoked, again if it already was |
| `Sessions.SessionRepo.RevokeAllUserSessions` | services/auth-service/internal/repository/postgres/session_repo.go:171-187 | row by row in any order: exactly the user's unrevoked sessions other than the excepted one |
| `Sessions.SessionRepo.UpdateActivity` | services/auth-service/internal/repository/postgres/session_repo.go:190-194 | two columns of one row |
| `Sessions.ChecksDifferOnlyAtExpiry` | services/auth-service/internal/domain/session.go:35-37 | the in-memory check and the lookup disagree exactly for an unrevoked session at the instant of its expiry |
| `Sessions.RowsAreWriteOnce` | services/auth-service/internal/repository/postgres/session_repo.go:25-194 | over every run of statements, rows are never removed, never change id, user, hash, token id or expiry, and are never un-revoked |
| `Sessions.RunKeepsColumnsUnique` | services/auth-service/migrations/001_init.up.sql:186-200 | hashes and access-token ids stay unique over every run |
| `Sessions.DeadSessionsStayDead` | services/auth-service/internal/repository/postgres/session_repo.go:67-73 | once revoked or expired, a session's refresh token resolves to nothing after any further statements and at any later time |
| `Sessions.OnlyCreationHashesExist` | services/auth-service/internal/repository/postgres/session_repo.go:25-39 | every row of a reachable table carries the identity it was inserted with |
| `Sessions.TokensResolveToTheirCreation` | services/auth-service/internal/repository/postgres/session_repo.go:67-73 | in every reachable table a hash resolves to at most one session, the one created with it |
| `Sessions.BulkRevocationIsExact` | services/auth-service/internal/repository/postgres/session_repo.go:171-187 | bulk revocation ends all of the user's sessions but the excepted one and leaves every other row as it was |
| `Sessions.InsertionIsExact` | services/auth-service/internal/repository/postgres/session_repo.go:25-39 | when an insert is refused, column by column, and the row it adds otherwise |
| `Sessions.RowStatementsAreExact` | services/auth-service/internal/repository/postgres/session_repo.go:164-194 | the two columns revoking writes and the two touching writes, in one row |
| `Sessions.RevocationEndsOne` | services/auth-service/internal/repository/postgres/session_repo.go:164-168 | over any run after it, a revoked session stays revoked and its token resolves to no row at all |
| `Sessions.SessionsHaveUsers` | services/auth-service/internal/repository/postgres/session_repo.go:25-39 | over every run, sessions belong to users that existed when they were inserted |
| `SessionUsecase.SessionUsecase.RevokeSession` | services/auth-service/internal/usecase/session_usecase.go:35-60 | not found, already revoked, or the row revoked |
| `SessionUsecase.SessionUsecase.RevokeAllOtherSessions` | services/auth-service/internal/usecase/session_usecase.go:63-68 | the bulk revocation with the current session excepted |
| `SessionUsecase.SessionUsecase.UpdateSessionActivity` | services/auth-service/internal/usecase/session_usecase.go:80-85 | the activity columns of one row |
| `SessionUsecase.RevokedOnce` | services/auth-service/internal/usecase/session_usecase.go:35-60 | after a successful revocation and any further statements, every other one of that session is refused and changes nothing |
| `SessionUsecase.RevocationIsExact` | services/auth-service/internal/usecase/session_usecase.go:35-60 | not found, already revoked or past its expiry, or one row revoked, each under its own condition |
| `SessionUsecase.RefusedExactlyWhenDead` | services/auth-service/internal/usecase/session_usecase.go:41-43 | away from the instant of expiry the call is refused as revoked exactly for the sessions whose token no longer resolves |
| `SessionUsecase.OnlyTheCurrentSurvives` | services/auth-service/internal/usecase/session_usecase.go:63-68 | over any later run, of the sessions a user had only the current one can still resolve |
| `AuthUsecase.GenerateAccessToken` | pkg/auth/jwt.go:43-56 | the token is the claims given with the fresh identifier; that the caller's own claims keep the empty one shows in the session row of GenerateTokenPair |
| `AuthUsecase.RoleCodes` | services/auth-service/internal/usecase/auth_usecase.go:493-499 | element by element the role code |
| `AuthUsecase.CollectRoles` | services/auth-service/internal/usecase/auth_usecase.go:99-103 | the codes of exactly the active roles held |
| `AuthUsecase.CollectPermissions` | services/auth-service/internal/usecase/auth_usecase.go:105-109 | the strings of exactly the reachable permissions |
| `AuthUsecase.AuthUsecase.Login` | services/auth-service/internal/usecase/auth_usecase.go:49-138 | for a user the lookup may yield and the newest password credential: the one error of the first check that fails and no change at all, or the session, last-login and credential writes and the issued claims; what those are, the next three lemmas say in the tables' own columns |
| `AuthAnswers.LoginAnswers` | services/auth-service/internal/usecase/auth_usecase.go:49-138 | on every database, each of the four errors and success exactly under its own condition on the account, its tenant, its newest active password and the session table; every error leaves the database as it was |
| `AuthAnswers.LoginWrites` | services/auth-service/internal/usecase/auth_usecase.go:110-124 | a successful login writes one session row, given column by column, two columns of the user and two of the credential that opened, and nothing else |
| `AuthAnswers.IssuedTokenIsExact` | services/auth-service/internal/usecase/auth_usecase.go:397-461 | the token of a successful login carries the user's tenant and email, the drawn identifier and no session; its roles are exactly the codes of active roles held through unexpired assignments; for colon-free resources it passes the check of a permission if and only if some role so held grants it, or grants the pair of stars |
| `AuthUsecase.AuthUsecase.GenerateTokenPair` | services/auth-service/internal/usecase/auth_usecase.go:397-461 | the session row inserted (with the empty access-token id) and the token issued with the nil session, or neither |
| `AuthUsecase.AuthUsecase.Register` | services/auth-service/internal/usecase/auth_usecase.go:141-229 | every refusal leaves the database alone; otherwise a user, its credential and at most the default role, with the user row left behind when the password cannot be stored |
| `AuthAnswers.ChecksAreExact` | services/auth-service/internal/usecase/auth_usecase.go:142-168 | the shared checks of registration and creation: not found, inactive tenant and conflict, each exactly under its own condition |
| `AuthAnswers.RegistrationAnswers` | services/auth-service/internal/usecase/auth_usecase.go:141-229 | each error and success exactly under its own condition, the row left behind field by field against the request, its status pending, and the credential stored |
| `AuthAnswers.RegistrationAssigns` | services/auth-service/internal/usecase/auth_usecase.go:211-218 | a success assigns one role of code ROLE_USER of the tenant or of none, without expiry, or none exactly if there is none; no other assignment changes |
| `AuthUsecase.AuthUsecase.CheckRegistration` | services/auth-service/internal/usecase/auth_usecase.go:142-168 | the order of the registration checks |
| `AuthUsecase.AuthUsecase.CreateAccount` | services/auth-service/internal/usecase/auth_usecase.go:170-209 | the insertions and their failures |
| `AuthUsecase.AuthUsecase.AssignDefaultRole` | services/auth-service/internal/usecase/auth_usecase.go:211-218 | one role of that code if there is any, none otherwise |
| `AuthUsecase.AuthUsecase.RefreshToken` | services/auth-service/internal/usecase/auth_usecase.go:232-306 | for all inputs and states an error and no change to the database |
| `AuthAnswers.RefreshAnswers` | services/auth-service/internal/usecase/auth_usecase.go:232-306 | which error: for the session the lookup yields, or for none, each under its own condition |
| `AuthUsecase.AuthUsecase.Logout` | services/auth-service/internal/usecase/auth_usecase.go:309-325 | the row revoked, or not found |
| `AuthUsecase.AuthUsecase.ChangePassword` | services/auth-service/internal/usecase/auth_usecase.go:328-370 | the new hash and the bulk revocation, or one of three errors and no change |
| `AuthAnswers.PasswordChangeAnswers` | services/auth-service/internal/usecase/auth_usecase.go:328-370 | for a newest active password of the user: success exactly if there is one, it has a hash the old password matches and the new one can be hashed; each of the three errors exactly under its own condition, leaving the database as it was; success writes the new hash and ends the user's unrevoked sessions and nothing else |
| `AuthRuns.AtMostOneSessionEver` | services/auth-service/migrations/001_init.up.sql:186-190 | over any interleaving of session statements whose inserts carry the empty access-token id, as all the use cases' do, at most one insert ever succeeds |
| `AuthRuns.LoginSucceedsIffNoSessionYet` | services/auth-service/internal/usecase/auth_usecase.go:430-450 | with the right password of an active user in an active tenant, a login succeeds if and only if the session table is empty |
| `AuthRuns.LoginIsGuarded` | services/auth-service/internal/usecase/auth_usecase.go:54-114 | on every database, a successful login means a live active user in a live active tenant whose newest credential matches, and exactly one new session, that user's, to which the refresh token resolves until it expires; every failed one changes nothing |
| `AuthRuns.LoginNeedsEmptyTable` | services/auth-service/internal/usecase/auth_usecase.go:430-450 | on a database whose sessions all carry the empty access-token id, a login succeeds only while there is none, and keeps that so |
| `AuthRuns.AtMostOneLoginSucceeds` | services/auth-service/internal/usecase/auth_usecase.go:49-138 | in every run of use-case calls from a database without sessions, no two logins succeed |
| `AuthRuns.RefreshFailsUnderInterleaving` | services/auth-service/internal/usecase/auth_usecase.go:287-295 | whatever statements run between lookup and insert, the refresh's insert violates the primary key |
| `AuthRuns.IssuedTokensNameNoSession` | services/auth-service/internal/usecase/auth_usecase.go:413-453 | the session id in an issued token names no session: logging out with it revokes nothing, and revoking all others with it revokes all |
| `AuthRuns.PasswordChangeEndsSessions` | services/auth-service/internal/usecase/auth_usecase.go:356-364 | after a password change none of the user's sessions resolves in any later run, other users' rows are untouched, and the next login checks the new hash if the credential was strictly newest |
| `AuthRuns.DeletedUsersStayOut` | services/auth-service/internal/usecase/auth_usecase.go:54-66 | a user deleted at any point of any run is selected by no later lookup, no later successful login is for that user, and a refresh of a session left over fails as for an account that does not exist |
| `AuthAnswers.RegisteredCannotLogIn` | services/auth-service/internal/usecase/auth_usecase.go:173-188 | after every accepted registration, whatever became of its password, no login yields a token for the new account, and a login with its email and tenant answers that the user is inactive, changing nothing |
| `AuthRuns.TokenMatchesTables` | pkg/auth/jwt.go:95-103 | end to end: for colon-free resources the check on issued claims grants exactly what the tables let the user reach, or everything on the wildcard |
| `FanOut.NobodyBlocks` | api-gateway/internal/proxy/proxy.go:176-191 | in every reachable state no sender blocks, some step is enabled until all answers are received, and then each was received once |
| `FanOut.RunsKeepInvariant` | api-gateway/internal/proxy/proxy.go:176-193 | every run of sends and receives collects in some completion order, each request exactly once |
| `FanOut.CollectResults` | api-gateway/internal/proxy/proxy.go:188-193 | the receiving loop over any order of arrival |
| `FanOut.FanOutDeterministic` | api-gateway/internal/proxy/proxy.go:169-194 | the result map is the same for all completion orders if and only if no key is requested twice with different answers; distinct keys suffice |
| `FanOut.MergeResponses` | api-gateway/internal/aggregator/aggregator.go:123-138 | the merging loops over any iteration order |
| `FanOut.MergeDeterministicIff` | api-gateway/internal/aggregator/aggregator.go:123-138 | the merge is independent of the iteration order if and only if no output key receives two different values |
| `FanOut.Aggregate` | api-gateway/internal/aggregator/aggregator.go:52-95 | the loop over the parts yields the answer that the parts, the collected results, the merge type and some iteration order determine |
| `FanOut.AggregateWithRequest` | api-gateway/internal/aggregator/aggregator.go:49-96 | the whole call, for any completion order, gives one of the possible answers the determinism result speaks of |
| `FanOutAnswers.PickRealized` | api-gateway/internal/proxy/proxy.go:176-193 | whichever request of each key is chosen, some completion order makes exactly those answer last |
| `FanOutAnswers.AnswerDeterministicIff` | api-gateway/internal/aggregator/aggregator.go:49-96 | for all requests, repeated keys included: the client sees one answer for all completion and iteration orders if and only if the requests of each key agree on error and value, or, when nothing fails and the parts are merged, no field is written with two values and every field is always written |
| `FanOutAnswers.AnswerContents` | api-gateway/internal/aggregator/aggregator.go:49-138 | what any possible answer shows: partial exactly if one of the answers taken is in error, then every key's value and a line for each error; otherwise every key's value, or that under "results", or the merged fields, each from some part and none missing |
| `FanOutAnswers.AnswerForAgreeingKeys` | api-gateway/internal/aggregator/aggregator.go:49-96 | when no key is asked twice with different answers: if and only if a part failed, nothing is merged, or the output keys do not clash |

## Left out

- HTTP handlers, headers, CORS, logging, recovery, configuration and start-up: plumbing with one branch each.
- `generateKey`: the key of a request is a parameter, the same for both limiters.
- Limiter counters are values in the map, not pointers; windows are not negative where a bound is stated, and on the Redis path times start at zero. Times and counts do not overflow.
- Redis beyond the sorted-set commands used, and errors of its later commands: a failing ZADD, EXPIRE or ZRANGE is not modelled. In `RedisProtocol` a key may disappear at any step, which covers expiry.
- RedisLimiter.SerialRunIsSlidingLog: one key with a fixed burst and window, as one route has.
- LocalLimiter.RetryAfterExact: windows of at most two minutes; beyond that the sweep may admit earlier.
- ORDER BY and the SELECT list: rows come in a given order; `Sort` and `Order` are pasted into the text by the code and are not part of the parsed fragment.
- Like.SearchIsContainmentIff: case folding covers the ASCII letters only.
- Columns that carry no rule (device name, IP address, user agent, phone, avatar, config, descriptions, created_by) and NULL in columns the code always fills.
- SqlBuilders.ListUsers: `RoleID` of the filter is in the type and, as in the code, has no effect; likewise `UserID` of the session filter.
- Database and network errors other than constraint violations and the negative limits the page query breaks off on. While rows are being read such an error would go unnoticed and cut the page short.
- A page size of zero, which `Paginated` would divide by: the handlers replace it before the call.
- JWT signing and parsing, claim lifetimes, bcrypt, SHA-256 and UUID generation: parameters or arbitrary functions. A token is the claims it carries.
- `SeedCodesUnique` covers the seeded roles and the system tenant; seeded permissions and grants are not part of the initial state.
- Audit-log writing, profiles, attributes, OAuth clients and identity providers: no invariant of the modelled tables depends on them.
- Use cases that pass one statement through (assigning and removing roles and permissions, getters, `GetMe`): covered by the statements.
- AuthUsecase.AuthUsecase.Login: the errors of reading roles and permissions are not modelled, and the last-login and credential writes that follow a login always succeed.
- RoleManagement.SerialRunsKeepCodesUnique: for serial runs; `InterleavedCreationsDuplicate` says exactly what interleaving breaks.
- `FanOutWithRequest`, `Forward` and JSON decoding: a response is given with its decoded body.
