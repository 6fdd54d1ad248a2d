# Wellness backend: a verified Dafny model

This project models the request handlers of a small Express/MySQL backend for
a workplace wellness application:

- employees record their mood (check-ins, limited to one per cooldown
  interval), keep private diary entries and file support requests;
- HR users list employees, see who checked in today, read aggregate
  statistics and manage support requests;
- a bearer-token middleware identifies the caller, and register/login issue
  the tokens;
- two maintenance scripts rewrite stored passwords in bulk.

Each SQL table is an in-memory sequence owned by a class (`CheckinStore`,
`SupportStore`, `DiaryStore`, `UsersTable`). Each handler that writes is a
method with a `modifies` clause, and each method is specified by a pure
function of the old table (`PostOutcome`, `CreateOutcome`, `PatchOutcome`,
`RegisterOutcome`, …). Read-only handlers are functions over the tables. The
HR views are pure functions over the users, checkins and support_requests
tables, with the current day as a parameter. The password scripts update an
`array<User>` in place.

The SQL clauses are shared in module `Order`:

- `WHERE` is `Filter`;
- `ORDER BY` is a stable insertion sort `Sort` under a total preorder;
- `LIMIT` is `Take`;
- `SELECT DISTINCT` is `Distinct`.

JavaScript `a || b` is modelled with `Option`. An absent field and `""` (or
`0` for numbers) are both falsy.

Some things are parameters rather than modelled:

- the clock: `now` in milliseconds and `today` as a day number;
- the environment: `Config`, meaning the production flag and the parsed
  `CHECKIN_INTERVAL_SECONDS`;
- bcrypt `hash`/`compare` and jsonwebtoken `sign`/`verify`, passed as
  function values.

Modules, one per source file plus three shared ones:

| module | file | models |
|---|---|---|
| `Js` | js.dfy | `\|\|` falsiness, ASCII `toLowerCase`, `startsWith`, `split` on one character |
| `Order` | order.dfy | WHERE / ORDER BY / LIMIT / DISTINCT and their properties |
| `Schema` | schema.dfy | the rows of users, checkins, support_requests, diary_entries; `DATE()`; the HR gate |
| `Checkins` | checkins.dfy | src/routes/checkins.routes.js |
| `Support` | support.dfy | src/routes/support.routes.js |
| `Diary` | diary.dfy | src/routes/diary.routes.js |
| `Employees` | employees.dfy | src/routes/employees.routes.js |
| `AuthMiddleware` | auth_middleware.dfy | src/middleware/auth.middleware.js |
| `AuthController` | auth_controller.dfy | src/controllers/auth.controller.js |
| `PasswordScripts` | password_scripts.dfy | scripts/hashAllPasswords.js, scripts/setMultiplePasswords.js |

Three behaviours of the code are worth stating plainly:

- `AgeSeconds` floors the elapsed time, as `Math.floor` does in
  src/routes/checkins.routes.js:34. Flooring and truncation differ only when
  the last check-in lies in the future.
- A refusal's `retryAfter` exceeds the interval when the stored time is later
  than `now` (clock skew). `Admit` proves `retryAfter <= interval` only under
  `last <= now`.
- The database default fills `created_at`, and the POST response reports its
  own `new Date()`. The model uses the one parameter `now` for both the
  stored value and the response.

## Model

| member | source | states |
|---|---|---|
| Schema.DayOf | src/routes/checkins.routes.js:105 | `DATE(created_at)`: the day whose span of milliseconds contains the timestamp |
| Schema.IsHR | src/routes/employees.routes.js:16-20 | the HR gate passes only the exact role string "HR", never an absent or empty role |
| Js.Or | src/routes/support.routes.js:12 | `a \|\| b` on strings: the result is truthy iff either is; `a` when truthy, else `b` |
| Js.OrNum | src/middleware/auth.middleware.js:24 | `a \|\| b` on numbers, where 0 is falsy |
| Js.OrElse | src/routes/support.routes.js:14 | `x \|\| "default"`: the value when truthy, else the default |
| Js.OrNull | src/routes/checkins.routes.js:50 | `x \|\| null`: None exactly when `x` is falsy, otherwise `x`, never `""` |
| Js.ToLower | src/routes/support.routes.js:22-24 | same length, every character lower-cased, and the result is lower-case |
| Js.ToLowerOfLower | src/routes/support.routes.js:22-24 | lower-casing a lower-case string changes nothing |
| Js.StartsWith | scripts/hashAllPasswords.js:16 | `startsWith(prefix)`: true iff the string is the prefix followed by something |
| Js.Split | src/middleware/auth.middleware.js:15 | `split(sep)` gives at least one piece, and no piece contains the separator |
| Js.Join | scripts/setMultiplePasswords.js:5 | gluing a non-empty list of separator-free pieces and splitting again gives back the pieces |
| Js.JoinSplit | scripts/setMultiplePasswords.js:5 | joining the pieces of a split with the separator gives back the string |
| Js.SplitCount | src/middleware/auth.middleware.js:15 | a split has one more piece than the string has separators |
| Js.SplitNoSeparator | src/middleware/auth.middleware.js:15 | a string without the separator splits into itself alone |
| Js.SplitAtFirst | src/middleware/auth.middleware.js:15 | `w + sep + t` with `w` separator-free splits into `w` followed by the pieces of `t` |
| Order.Filter | src/routes/checkins.routes.js:70 | WHERE keeps exactly the rows satisfying the condition, and no more rows than there were |
| Order.FilterAppend | src/routes/checkins.routes.js:48-50 | filtering a table with one appended row changes the result only by that row |
| Order.FilterNone | src/routes/employees.routes.js:207 | a condition no row meets selects nothing |
| Order.FilterCounts | src/routes/checkins.routes.js:70 | WHERE keeps every copy of a matching row and no copy of any other row |
| Order.NewestFirstSorted | src/routes/checkins.routes.js:70 | `ORDER BY created_at DESC` is a permutation ordered by decreasing created_at |
| Order.FilterKeepsSorted | src/routes/support.routes.js:206 | deleting rows keeps the remaining rows in their order |
| Order.RecentLimit | src/routes/checkins.routes.js:86 | `parseInt(limit) \|\| 10`: never 0; the parsed value when non-zero, else 10 |
| Order.Take | src/routes/checkins.routes.js:88 | LIMIT n yields the first `min(n, rows)` rows |
| Order.Insert | src/routes/checkins.routes.js:70 | inserting adds exactly the new element |
| Order.Sort | src/routes/checkins.routes.js:70 | ORDER BY keeps the length and the set of rows |
| Order.InsertPermutes | src/routes/checkins.routes.js:70 | insertion adds one copy of the element to the multiset |
| Order.SortPermutes | src/routes/checkins.routes.js:70 | ORDER BY only reorders: the multiset of rows is unchanged |
| Order.InsertSorted | src/routes/checkins.routes.js:70 | inserting into an ordered sequence keeps it ordered under a total preorder |
| Order.SortSorted | src/routes/checkins.routes.js:70 | ORDER BY's result is ordered by its key |
| Order.Distinct | src/routes/employees.routes.js:124 | SELECT DISTINCT keeps every row value once, and no duplicates remain |
| Order.SortKeepsDistinct | src/routes/employees.routes.js:124-135 | ordering distinct rows keeps them distinct |
| Order.DistinctMultiset | src/routes/employees.routes.js:124 | a sequence without duplicates holds each value at most once |
| Checkins.IntervalSeconds | src/routes/checkins.routes.js:19-23 | the override when set; else 86400 in production and 120 otherwise |
| Checkins.AgeSeconds | src/routes/checkins.routes.js:32-34 | `floor((now - last) / 1000)`: the whole seconds elapsed, never negative when `last <= now` |
| Checkins.Admit | src/routes/checkins.routes.js:31-46 | no earlier check-in is admitted; else admitted iff age >= interval; a refusal has `retryAfter = interval - age`, at least 1 and at most the interval when `last <= now` |
| Checkins.BoundaryIsAdmitted | src/routes/checkins.routes.js:35 | an age exactly equal to the interval is admitted |
| Checkins.JustShortIsRefused | src/routes/checkins.routes.js:35-36 | 1 ms short of the interval is refused with `retryAfter` 1 |
| Checkins.LatestCreatedAt | src/routes/checkins.routes.js:26-29 | the caller's greatest `created_at`, or None iff the caller has no check-in |
| Checkins.LatestIsMaximum | src/routes/checkins.routes.js:26-29 | any caller row no older than all the caller's rows gives the latest `created_at` |
| Checkins.PostOutcome | src/routes/checkins.routes.js:8-58 | 400 iff the mood is missing or invalid; else 201 iff admitted, 429 with the same `retryAfter` otherwise; the new row is `{id, user, mood, notes or NULL, now}` |
| Checkins.FirstCheckinAdmitted | src/routes/checkins.routes.js:31 | a user with no check-in is admitted with any valid mood |
| Checkins.CanSubmitAgreesWithPost | src/routes/checkins.routes.js:143-172 | /can-submit's verdict and a valid-mood POST agree on admission and `retryAfter` |
| Checkins.AppendLeavesOthers | src/routes/checkins.routes.js:48-50 | an insert for one user leaves every other user's rows unchanged |
| Checkins.MyCheckins | src/routes/checkins.routes.js:66-72 | every copy of each of the caller's rows and no other row (multiplicities as in the table), newest first |
| Checkins.TodayCheckins | src/routes/checkins.routes.js:101-108 | every copy of each of the caller's rows dated today and no other row, newest first |
| Checkins.Recent | src/routes/checkins.routes.js:83-90 | a prefix of the caller's newest-first check-ins of length `min(limit, count)`; the query fails iff the limit is negative |
| Checkins.CheckinStore.FindLatest | src/routes/checkins.routes.js:118-130 | a scan that finds a caller's row with the greatest `created_at`, or None iff there is none |
| Checkins.CheckinStore.LatestTime | src/routes/checkins.routes.js:26-29 | the caller's latest `created_at`, as `LatestCreatedAt` |
| Checkins.CheckinStore.CanSubmit | src/routes/checkins.routes.js:143-172 | the admission rule on the table's latest time; read-only |
| Checkins.CheckinStore.Latest | src/routes/checkins.routes.js:118-130 | 404 iff the caller has no check-in, else a row of the caller's with the latest time |
| Checkins.CheckinStore.Append | src/routes/checkins.routes.js:48-50 | appends exactly one row with a fresh id |
| Checkins.CheckinStore.Submit | src/routes/checkins.routes.js:8-58 | answers `PostOutcome` of the old table; appends one row only when 201, else leaves the table as it was; keeps stored moods valid |
| Support.NormalizeUrgency | src/routes/support.routes.js:16-24 | always one of low/medium/high/crisis; the lower-cased value when it matches, else "low" |
| Support.NormalizeUrgencyIdempotent | src/routes/support.routes.js:16-24 | normalising twice equals normalising once |
| Support.Resolve | src/routes/support.routes.js:12-25 | request_type, subject, message, urgency and phone fall back in the fixed order |
| Support.MessageFallback | src/routes/support.routes.js:14 | the message is empty iff both message and description are falsy; else the first truthy one |
| Support.CreateOutcome | src/routes/support.routes.js:27-67 | 400 iff the resolved message is empty; else the new row with status "pending" and a valid urgency |
| Support.PatchOutcome | src/routes/support.routes.js:161-185 | 403 for non-HR before the status is looked at, then 400 for an invalid status, then 404 for an unknown id |
| Support.SetStatus | src/routes/support.routes.js:174-176 | only the rows with that id change, and only in status and updated_at |
| Support.DeleteOutcome | src/routes/support.routes.js:200-216 | 403 for non-HR; 200 iff the id exists, else 404 |
| Support.RemoveId | src/routes/support.routes.js:206-207 | exactly the other rows remain, in their order |
| Support.RemoveIdCount | src/routes/support.routes.js:206-211 | with unique increasing ids, a delete removes one row when the id exists and none otherwise |
| Support.MyRequests | src/routes/support.routes.js:77-83 | every copy of each of the caller's requests and no other row, newest first |
| Support.RecentRequests | src/routes/support.routes.js:93-100 | the caller's newest `limit` requests; an absent limit is 10, a given 0 stays 0, a negative limit fails |
| Support.AllRequests | src/routes/support.routes.js:110-122 | 403 iff not HR; else every request (as a multiset), newest first |
| Support.PendingRequests | src/routes/support.routes.js:132-144 | 403 iff not HR; else every copy of each pending request and no other row, newest first |
| Support.SupportStore.Create | src/routes/support.routes.js:8-67 | answers `CreateOutcome`; appends one row only on 201; stored urgencies and statuses stay valid |
| Support.SupportStore.ApplyStatus | src/routes/support.routes.js:174-176 | a loop rewriting the table to `SetStatus`; the affected count is 0 iff no row has the id |
| Support.SupportStore.UpdateStatus | src/routes/support.routes.js:155-185 | answers `PatchOutcome`; the table becomes `SetStatus` on success and is unchanged otherwise |
| Support.SupportStore.Delete | src/routes/support.routes.js:195-216 | answers `DeleteOutcome`; the table becomes `RemoveId` on success and is unchanged otherwise |
| Diary.ShareableOrFalse | src/routes/diary.routes.js:25 | `is_shareable \|\| false` is true iff the flag is true |
| Diary.CreateOutcome | src/routes/diary.routes.js:13-36 | 400 iff emotion or content is falsy; else the row with `is_shareable` defaulted to false |
| Diary.GetEntry | src/routes/diary.routes.js:81-91 | the entry only when both id and owner match, and 404 iff there is none |
| Diary.Overwrite | src/routes/diary.routes.js:107-115 | only rows matching (id, owner) get the sent emotion, content and is_shareable |
| Diary.OverwriteLeavesOthers | src/routes/diary.routes.js:107-115 | other owners' rows never change, and nothing changes when no row matches |
| Diary.RemoveEntry | src/routes/diary.routes.js:136-137 | exactly the non-matching rows remain, in order; nothing changes when no row matches |
| Diary.FilterAll | src/routes/diary.routes.js:136-137 | a condition every row meets keeps the table as it is |
| Diary.MyEntries | src/routes/diary.routes.js:46-52 | every copy of each of the caller's entries and no other row, newest first |
| Diary.RecentEntries | src/routes/diary.routes.js:63-70 | a prefix of the caller's newest-first entries of length `min(limit, count)`, with limit `parseInt \|\| 10` |
| Diary.DiaryStore.Create | src/routes/diary.routes.js:8-36 | answers `CreateOutcome`; inserts one row only on 201 |
| Diary.DiaryStore.Update | src/routes/diary.routes.js:101-121 | 200 iff a row matches (id, owner), else 404; the table becomes `Overwrite` |
| Diary.DiaryStore.Delete | src/routes/diary.routes.js:131-143 | 200 iff a row matches (id, owner), else 404; the table becomes `RemoveEntry` |
| Employees.Views | src/routes/employees.routes.js:23-29 | the selected columns of each user, one per row |
| Employees.LexLeTotal | src/routes/employees.routes.js:32 | the name order compares any two names |
| Employees.LexLeTransitive | src/routes/employees.routes.js:32 | the name order is transitive |
| Employees.ByNameIsPreorder | src/routes/employees.routes.js:32 | ordering by full_name is a total preorder |
| Employees.ListByName | src/routes/employees.routes.js:22-33 | a permutation of the selected users' views (one per selected row), ordered by full_name |
| Employees.AllEmployees | src/routes/employees.routes.js:8-33 | 403 iff not HR; else a permutation of the EMPLOYEE users' views, one per row, by name |
| Employees.ByDepartment | src/routes/employees.routes.js:72-98 | 403 iff not HR; else a permutation of the views of that department's employees, one per row, by name |
| Employees.JoinUser | src/routes/employees.routes.js:131-134 | one row per check-in of that employee dated today |
| Employees.JoinAll | src/routes/employees.routes.js:131-134 | the inner join: exactly the (employee, today's check-in) pairs |
| Employees.RowByNameIsPreorder | src/routes/employees.routes.js:135 | ordering present rows by full_name is a total preorder |
| Employees.PresentToday | src/routes/employees.routes.js:109-136 | 403 iff not HR; else exactly the joined pairs, without duplicates, by name |
| Employees.PresentIds | src/routes/employees.routes.js:123-136 | the listed ids are exactly the employees with a check-in today |
| Employees.AbsentToday | src/routes/employees.routes.js:147-176 | 403 iff not HR; else a permutation of the views of the employees with no check-in today, one per row, by name |
| Employees.AbsentViewIds | src/routes/employees.routes.js:147-176 | the listed ids are exactly the employees without a check-in today |
| Employees.PresentAbsentPartition | src/routes/employees.routes.js:123-176 | present and absent ids are disjoint and together are all employee ids |
| Employees.IdSet | src/routes/employees.routes.js:203 | `COUNT(DISTINCT u.id)`'s set: exactly the ids that occur in the rows |
| Employees.TailUniqueIds | src/routes/employees.routes.js:203 | dropping the first row keeps ids unique |
| Employees.HeadIdNew | src/routes/employees.routes.js:203 | with unique ids the first row's id is not among the others' |
| Employees.IdSetSize | src/routes/employees.routes.js:203 | with unique ids there are as many distinct ids as rows |
| Employees.ProductPositive | src/routes/employees.routes.js:209-211 | a LEFT JOIN of at least one row with at least one row has at least one row |
| Employees.JoinedRows | src/routes/employees.routes.js:209-211 | the LEFT JOINs give at least one row per employee |
| Employees.PendingIds | src/routes/employees.routes.js:206 | `COUNT(DISTINCT sr.id)`: each pending request of an employee once, and no other id |
| Employees.ProductMonotone | src/routes/employees.routes.js:207-211 | fewer matching check-in rows give fewer joined rows |
| Employees.PositiveRows | src/routes/employees.routes.js:207-211 | the positive rows are some of the joined rows |
| Employees.Fraction | src/routes/employees.routes.js:207 | an AVG of a 0/1 indicator lies between 0 and 1 |
| Employees.PositivePercentage | src/routes/employees.routes.js:207-211 | the AVG is NULL iff there is no employee, and otherwise lies between 0 and 1 |
| Employees.Stats | src/routes/employees.routes.js:187-212 | 403 iff not HR; total, present, pending as distinct counts; absent = total - present >= 0 |
| Employees.SubsetSize | src/routes/employees.routes.js:204-205 | a subset is no larger than its superset |
| Employees.DifferenceSize | src/routes/employees.routes.js:205 | `total - present` is the size of the set difference |
| Employees.AbsentListLength | src/routes/employees.routes.js:147-176 | /absent-today has one row per absent employee row |
| Employees.AbsentIds | src/routes/employees.routes.js:150-176 | the absent rows' ids are the employee ids without a check-in today |
| Employees.AbsentCountMatchesList | src/routes/employees.routes.js:205 | with unique ids, absent_today equals the length of /absent-today |
| Employees.NoPositiveRows | src/routes/employees.routes.js:207 | with only POST-accepted moods, no joined row counts as positive |
| Employees.EmployeesExist | src/routes/employees.routes.js:211 | the WHERE leaves rows iff some user is an employee |
| Employees.ZeroRatio | src/routes/employees.routes.js:207 | AVG over rows that are all 0 is 0 |
| Employees.PositiveMoodIsZero | src/routes/employees.routes.js:207 | with only POST-accepted moods, `PositivePercentage` (the AVG) is 0 iff an employee exists and NULL iff none does |
| Employees.GroupByMood | src/routes/employees.routes.js:233-238 | `GROUP BY mood` never yields a group with count 0 |
| Employees.AddMood | src/routes/employees.routes.js:234-237 | counting one more check-in adds only that mood's group |
| Employees.AddMoodSum | src/routes/employees.routes.js:234-237 | counting one more check-in adds one to the total of the groups |
| Employees.AddMoodCount | src/routes/employees.routes.js:234-237 | counting a check-in adds one to its mood's count and leaves other moods' counts |
| Employees.HeadDistinct | src/routes/employees.routes.js:234-237 | the groups after the first have other moods and stay distinct |
| Employees.ConsDistinct | src/routes/employees.routes.js:234-237 | a group of a new mood in front keeps the moods distinct |
| Employees.AddMoodDistinct | src/routes/employees.routes.js:234-237 | counting a check-in never creates a second group for a mood |
| Employees.GroupByMoodCounts | src/routes/employees.routes.js:234-237 | one group per mood, each counting that mood's check-ins, summing to the number of check-ins |
| Employees.Anonymize | src/routes/employees.routes.js:242 | the selected columns: mood, notes and created_at |
| Employees.AnonymizeHidesIdentity | src/routes/employees.routes.js:242 | the feed cannot tell apart check-ins that differ only in id and user |
| Employees.CheckinsReport | src/routes/employees.routes.js:223-251 | 403 iff not HR; one non-empty group per mood, each with that mood's count of today's check-ins, summing to today's check-ins; at most 50 newest rows with only mood, notes and created_at |
| AuthMiddleware.HeaderToken | src/middleware/auth.middleware.js:15-19 | the second space-separated piece, only when it exists and is non-empty; never contains a space |
| AuthMiddleware.VerifyToken | src/middleware/auth.middleware.js:6-34 | 403 "Token requerido" without a header, 403 "Token inválido" without a token, 401 when verification fails; otherwise next with `id \|\| userId` and `role \|\| userRole` |
| AuthMiddleware.SchemeIgnored | src/middleware/auth.middleware.js:15 | any `<word> <token>` yields the token, whatever the word |
| AuthMiddleware.ExtraPiecesIgnored | src/middleware/auth.middleware.js:15 | only the piece after the first space counts |
| AuthMiddleware.SchemeAloneHasNoToken | src/middleware/auth.middleware.js:15-19 | "Bearer" alone has no token |
| AuthMiddleware.DoubleSpaceHasNoToken | src/middleware/auth.middleware.js:15-19 | "Bearer  x" (two spaces) has no token |
| AuthMiddleware.WellFormedHeaderReachesOracle | src/middleware/auth.middleware.js:21-32 | a well-formed header reaches verification; next iff it succeeds, and 401 iff it fails |
| AuthController.FirstIndex | src/controllers/auth.controller.js:74-82 | the position of the first user with the email, or the table length |
| AuthController.FirstWithEmail | src/controllers/auth.controller.js:74-82 | None iff no user has the email; else the first such user |
| AuthController.NewUser | src/controllers/auth.controller.js:30-36 | the inserted row: the sent name, email and role, `hash(password)` in place of the password, no department |
| AuthController.RegisterOutcome | src/controllers/auth.controller.js:8-52 | 400 iff a field is falsy; else 400 iff the email is taken; else 201 with the new id, the role as sent and a token for `{id, role}` |
| AuthController.LoginOutcome | src/controllers/auth.controller.js:62-106 | 400 with login's own message ("Por favor proporciona email y contraseña") iff email or password is falsy; the same 401 for an unknown email and a wrong password; else a token for the matched user's `{id, role}` |
| AuthController.UsersTable.FindByEmail | src/controllers/auth.controller.js:20-23 | a scan returning the first user with the email, or None iff none has it |
| AuthController.UsersTable.Register | src/controllers/auth.controller.js:8-52 | answers `RegisterOutcome`; inserts one row storing `hash(password)` only on 201; emails stay unique |
| AuthController.UsersTable.Login | src/controllers/auth.controller.js:62-106 | answers `LoginOutcome` without writing |
| AuthController.UsersTable.Logout | src/controllers/auth.controller.js:116-120 | 200 "Sesión cerrada correctamente", with no state change |
| AuthController.FailuresIndistinguishable | src/controllers/auth.controller.js:78-89 | an unknown email and a wrong password give the identical 401 response |
| AuthController.FirstWithEmailUnique | src/controllers/auth.controller.js:74-82 | with unique emails, the lookup finds the one user with that email |
| AuthController.RegisterThenLogin | src/controllers/auth.controller.js:30-52 | after register, logging in with the same password succeeds with the new id and role |
| AuthController.LoginTokenRoundTrip | src/controllers/auth.controller.js:92-94 | login's token, sent as `<scheme> <token>`, passes the middleware with the user's id and role |
| PasswordScripts.Rehash | scripts/hashAllPasswords.js:16-25 | only the password can change; a "$2" row is unchanged, any other gets `hash(password)` |
| PasswordScripts.HashAll | scripts/hashAllPasswords.js:13-28 | ids and emails never change; "$2" rows are unchanged; every other password becomes `hash(password)` |
| PasswordScripts.CountUnhashed | scripts/hashAllPasswords.js:13-27 | the rows not starting with "$2", at most the table size |
| PasswordScripts.HashAllPasswords | scripts/hashAllPasswords.js:4-30 | the backup receives the rows before any change; the table becomes `HashAll`; `updated` is `CountUnhashed` |
| PasswordScripts.UnhashedStep | scripts/hashAllPasswords.js:16-27 | each visited row adds one to the count exactly when not yet hashed |
| PasswordScripts.HashAllIdempotent | scripts/hashAllPasswords.js:16-19 | when hashes start with "$2", a second run changes nothing and updates nothing |
| PasswordScripts.HashAllChangesExactlyUnhashed | scripts/hashAllPasswords.js:16-25 | when hashes start with "$2", a row changes iff it was not hashed |
| PasswordScripts.PasswordToSet | scripts/setMultiplePasswords.js:4 | `argv[2] \|\| "123456"` |
| PasswordScripts.ExcludeList | scripts/setMultiplePasswords.js:5 | the comma-split list, comma-free pieces that join back to the argument; `["juan@example.com"]` by default |
| PasswordScripts.DefaultExcludeIsOne | scripts/setMultiplePasswords.js:5 | the default exclusion string splits into the one address |
| PasswordScripts.SetShared | scripts/setMultiplePasswords.js:13-25 | excluded users are unchanged; every other user gets the one shared hash |
| PasswordScripts.NotExcludedStep | scripts/setMultiplePasswords.js:15-24 | each visited row adds one to the count exactly when its email is not excluded |
| PasswordScripts.SetMultiplePasswords | scripts/setMultiplePasswords.js:13-25 | the table becomes `SetShared`; `updated` is the number of non-excluded rows |
| PasswordScripts.RunSetMultiplePasswords | scripts/setMultiplePasswords.js:4-25 | the defaults, one hash computed before the loop, then the loop |
| PasswordScripts.SharedPasswordAfterwards | scripts/setMultiplePasswords.js:10-22 | all non-excluded users end with the same password; ids and emails are unchanged; a second run changes nothing |
| PasswordScripts.UpdatedCountsNonExcluded | scripts/setMultiplePasswords.js:13-27 | updated plus skipped rows equal the table size |

## Left out

- Concurrency: the check-in POST reads the latest row and then inserts. Two concurrent requests can both pass the cooldown. Handlers are modelled as sequential calls.
- `parseInt` on the environment and on query strings is modelled by its result. The interval is an integer parameter, and a `NaN` interval (which makes `age < NaN` false) is not modelled.
- Checkins.Recent, Diary.RecentEntries: a non-numeric limit is the absent case; a parsed `NaN` is not distinguished from a missing value.
- Support.RecentRequests: a non-numeric `limit` string, which `parseInt` turns into `NaN` after the `|| 10`, is not modelled; the limit is the parsed integer or absent.
- The clock, `CURDATE()` and its time zone are parameters (`now`, `today`). `DATE()` is a division by the milliseconds in a day in one fixed zone.
- Response timestamps (`new Date().toISOString()`), `console` output and the 500 paths for store failures are left out. Store failure appears only as `QueryFailed` for a negative LIMIT.
- String collation: every string comparison is exact code-point comparison, where MySQL's default collation is case-insensitive. This covers `ORDER BY full_name`, the email lookup, and the equality filters `u.role = 'EMPLOYEE'`, `u.department = ?` and `status = 'pending'`. Register stores any role it is sent. So a user registered with role "employee" is listed by the HR endpoints in the database but not in this model.
- Timestamps: `created_at` is modelled in milliseconds. A DATETIME or TIMESTAMP default without fractional seconds stores whole seconds, which can move the admission boundary of `Admit` by up to one second. The table definitions are not part of the repository, so the model assumes the stored time is the request time `now`.
- Diary.Overwrite: a PUT that omits `emotion` or `content` writes NULL (`None`), since mysql2 sends `undefined` as NULL. The table definitions are not part of the repository; if those columns are NOT NULL, that request ends in a 500 rather than the 200 modelled here.
- bcrypt and jsonwebtoken internals: `hash`, `compare`, `sign` and `verify` are function parameters. Salt randomness is not modelled (`hash` is deterministic here), nor is the 8h token expiry.
- AuthMiddleware.VerifyToken: claims are modelled as optional numbers and strings; a claim of another JSON type is not modelled.
- Support.PatchOutcome, Support.DeleteOutcome, Support.SupportStore.UpdateStatus, Support.SupportStore.Delete: the route id is an integer here. In the source it is the `req.params.id` string, which MySQL converts when comparing it with the id column ('5abc' matches 5, 'abc' matches nothing). Every string behaves like some integer, so each outcome is reachable, but the conversion itself is not modelled.
- Diary.GetEntry, Diary.Overwrite, Diary.RemoveEntry, Diary.DiaryStore.Update, Diary.DiaryStore.Delete: the same holds for the diary's route id.
- Diary.ShareableOrFalse: `is_shareable` is an optional boolean. The source passes any truthy JSON value through `is_shareable || false` on create, and any value as sent on update (a `1`, say); other JSON types are not modelled.
- A token without an id claim passes the middleware with an absent `userId`. What the handlers then do with it is not modelled: they take the caller's id as an integer.
- `typeof password === "string"` in hashAllPasswords: stored passwords are strings here. A NULL password, which the script would hash as `"null"`, is not modelled.
- PasswordScripts.HashAllPasswords: rows are updated by position, which equals `UPDATE ... WHERE id = ?` because ids are unique. The users table definition is not part of this model, so a key collision of the backup INSERT on a second run is not modelled.
- AuthController.UsersTable.Register: `hash(password) != password` cannot be stated without knowing bcrypt; the contract states only that `hash(password)` is stored.
- Employees: `/summary` reads the `employee_summary` view, whose definition is not in the repository, so it is not modelled.
- Employees.AbsentToday: `NOT IN` over a subquery that yields a NULL `user_id` returns no rows in SQL; check-in rows here always carry a user id.
- Employees.Stats: the percentage is modelled as an exact rational (`real`), not MySQL's decimal rounding.
- src/routes/user.routes.js and scripts/setUserPassword.js are single parametrised statements without branching and are not part of this model. The same holds for src/server.js (app wiring, CORS), src/config/db.js (the connection pool), scripts/testLogins.js (an HTTP client) and scripts/listUsers.js (a print of a SELECT).
- Support.SupportStore.ApplyStatus, Diary.DiaryStore.Update: the affected count is the number of rows matched. Both rewrite `updated_at = NOW()` and answer 404 on `affectedRows === 0`. A repeat PATCH or PUT with the same values in the same second changes no column, so MySQL counts the row as matched but not changed. The mysql2 client connects with the FOUND_ROWS flag by default, so `affectedRows` reports matched rows and the 404 check sees the row. The connection settings are not part of this model.
