# QR code tracker — a verified model of its core

The tracker follows physical QR codes through a closed lifecycle:
`inactive → active → completed`. Every status change is written to an append-only audit trail.

On the server:
- An admin creates codes, one at a time or in bulk.
- A user activates an inactive code, scanning it by its value, and becomes its custodian.
- An employee completes an active code.
- Requests carry a bearer token.
- Middleware admits routes by role (`user`, `employee`, `admin`).
- Accounts are registered and logged in with a validated email and password.

The web client has:
- two tables, QR codes and users, with search, filter, column sort and per-status counts;
- a modal where codes are typed one per line or auto-generated.

The model is split into modules that follow the program's structure:

| file | module | what it models |
|---|---|---|
| `types.dfy` | `Types` | the enumerations and the records of `qr_codes`, `status_history` and `users`, and the token payload |
| `repository.dfy` | `Repository` | `QRCodeRepository` as a class holding the code table, the history log, id counters and a logical clock |
| `lifecycle.dfy` | `Lifecycle` | what one service call may do to the table, and the custody invariant over any run of calls |
| `service.dfy` | `Service` | `QRCodeService` as methods over the repository, plus the employee-gated completion route |
| `auth.dfy` | `Auth` | `authenticate`, `authorize`, `requireEmployee` and `requireAdmin` |
| `auth_service.dfy` | `Accounts` | `AuthService`: register checks, the email regular expression as a string test, login, profile, role change, password stripping |
| `bulk_insert.dfy` | `BulkInsert` | the interpolated `VALUES` text of `createBulk` and how PostgreSQL reads it back |
| `text.dfy`, `lists.dfy` | `Text`, `Lists` | the JavaScript string and array built-ins the code relies on: `toLowerCase`, `includes`, `trim`, `split`, `join`, `filter`, a stable `sort`, and `localeCompare` as a total order |
| `table_view.dfy` | `TableView` | the sort comparator and the sort-toggle state machine both table screens share |
| `qr_code_screen.dfy`, `user_screen.dfy` | `QRCodeScreen`, `UserScreen` | the filter-and-sort pipelines, `handleSort` on the component state, and `getStatusCount` |
| `qr_code_generation.dfy` | `QRCodeGeneration` | the code-list parser, random codes, the clamped auto-generate, submit, cancel, the count input, and the disabled register button |

Transactions are modelled as "the whole effect or none". Every `Result.Err` or `None` path leaves the state `unchanged`.

The headline property is `Lifecycle.RunKeepsCustody`: a code's custodian is unset exactly while the code is inactive. It holds in every state reached by any sequence of create, bulk-create, activate and complete calls, where no bulk-created code contains a single quote. `createBulk` writes the codes into the SQL text unescaped. `BulkInsert.QuoteFreeValuesAsIntended` shows that this text inserts exactly the intended rows when no code holds a quote. `BulkInsert.InjectedTuple` shows that a crafted code inserts an active row with no custodian (see "## Findings"). Each of those service methods promises `Lifecycle.StoreStep` for its own call. `Lifecycle.RunOnlyMovesForward` adds that a status never moves backwards and that a completed record never changes again.

## Model

| member | source | states |
|---|---|---|
| Repository.QRCodeRepository.constructor | server/src/database/migrations/001_initial_schema.ts:33-55 | an empty code table and history log satisfying the table constraints |
| Repository.QRCodeRepository.Create | server/src/repositories/QRCodeRepository.ts:8-17 | inserts one inactive, unassigned record with a fresh id, appended to the table; a code already present breaks UNIQUE(code) and changes nothing; the constraints are kept |
| Repository.QRCodeRepository.FindById | server/src/repositories/QRCodeRepository.ts:20-29 | the record with that id, and nothing exactly when no record has it |
| Repository.QRCodeRepository.FindByCode | server/src/repositories/QRCodeRepository.ts:32-41 | the record with that code value, and nothing exactly when no record has it |
| Repository.QRCodeRepository.FindByStatus | server/src/repositories/QRCodeRepository.ts:44-48 | exactly the records with that status, each as often as in the table and no other, newest created first |
| Repository.QRCodeRepository.FindByUserId | server/src/repositories/QRCodeRepository.ts:51-55 | exactly the records assigned to that user, each as often as in the table and no other, most recently updated first |
| Repository.QRCodeRepository.UpdateStatus | server/src/repositories/QRCodeRepository.ts:58-118 | a missing id changes nothing and returns nothing; otherwise only that record changes: the new status, the custodian `assignToUserId` when given else the current one, and a new update time; exactly one history row (previous status, new status, actor, notes) is appended in the same step; the transition itself is not checked |
| Repository.QRCodeRepository.GetStatusHistory | server/src/repositories/QRCodeRepository.ts:121-143 | exactly the history rows of that code, each as often as in the log and no other, most recent first |
| Repository.QRCodeRepository.FindAll | server/src/repositories/QRCodeRepository.ts:146-155 | a negative `offset` or `limit` is refused by the database, and nothing else is; otherwise the page of the newest-first listing starting at `offset`, at most `limit` long, of the exact length the table allows, newest first |
| Repository.QRCodeRepository.CreateBulk | server/src/repositories/QRCodeRepository.ts:158-182 | fails exactly for an empty list, a code repeated in the batch, or a code already stored, and then changes nothing; otherwise appends one inactive, unassigned row per code in batch order |
| BulkInsert.IntendedTuples | server/src/repositories/QRCodeRepository.ts:158-182 | the rows a parameterised insert writes: one per code, in order, the code verbatim and `inactive` |
| BulkInsert.CreateBulkIsParameterised | server/src/repositories/QRCodeRepository.ts:158-182 | the rows `CreateBulk` appends are exactly those intended tuples |
| BulkInsert.QuoteFreeValuesAsIntended | server/src/repositories/QRCodeRepository.ts:164-170 | when no code holds a single quote, the interpolated values list reads back as exactly the intended tuples |
| BulkInsert.InjectedTuple | server/src/repositories/QRCodeRepository.ts:164-170 | the code `<v>', '<st>') --` is read as the single row (`<v>`, `<st>`), not as that code, inactive |
| BulkInsert.LoneQuote | server/src/repositories/QRCodeRepository.ts:164-170 | a code holding exactly one single quote, not directly followed by a comma and with no `--` after it, is not read as a tuple: the interpolated statement then has an odd number of quotes and no comment, so PostgreSQL refuses it |
| BulkInsert.QuoteExamples | server/src/repositories/QRCodeRepository.ts:164-170 | `X', 'active') --` inserts the row (`X`, `active`); `O'Brien` is a syntax error |
| Repository.NewestCreatedFirst | server/src/repositories/QRCodeRepository.ts:45 | rows kept in creation order, filtered and read back to front, are ordered newest first |
| Repository.NewestChangedFirst | server/src/repositories/QRCodeRepository.ts:127 | the same for history rows and their change times |
| Repository.AppendKeepsHistory | server/src/repositories/QRCodeRepository.ts:96-107 | appending a history row stamped at the next tick keeps the log's ids distinct and its times in order |
| Repository.ReplaceKeepsKeys | server/src/repositories/QRCodeRepository.ts:82-93 | rewriting one record in place, keeping its id, code and creation time, keeps the keys unique and the creation order |
| Lifecycle.StepKeepsCustody | server/src/types/index.ts:32 | one legal step of the table keeps "user unset iff inactive" |
| Lifecycle.RunKeepsCustody | server/src/types/index.ts:32 | every state of a run that starts from a table satisfying the invariant satisfies it |
| Lifecycle.RunOnlyMovesForward | server/src/services/QRCodeService.ts:22-24 | along a run a record keeps its place, id and code; its status rank never decreases; once completed it never changes |
| Service.Dedup | server/src/services/QRCodeService.ts:152 | `[...new Set(codes)]`: no duplicates, and exactly the codes of the batch |
| Service.DedupKeepsFirstOccurrenceOrder | server/src/services/QRCodeService.ts:152 | the deduplicated codes come in the order of their first occurrences |
| Service.ExistingCodes | server/src/services/QRCodeService.ts:154-160 | exactly the batch codes already stored, each as often as in the batch and no other; empty iff none of the batch is stored |
| Service.ExistingCodesInBatchOrder | server/src/services/QRCodeService.ts:154-165 | for a batch without repeats, the stored codes are collected, and named in the error message, in batch order |
| Service.QRCodeService.CollectExisting | server/src/services/QRCodeService.ts:154-160 | the lookup loop collects exactly `ExistingCodes` of the unique codes, in their order |
| Service.QRCodeService.GetInactiveQRCodes | server/src/services/QRCodeService.ts:8-10 | the repository's `findByStatus('inactive')`: every inactive code exactly as often as in the table, no other, newest first |
| Service.QRCodeService.GetQRCodesByStatus | server/src/services/QRCodeService.ts:100-102 | the repository's `findByStatus`: every code with that status exactly as often as in the table, no other, newest first |
| Service.QRCodeService.GetUserQRCodes | server/src/services/QRCodeService.ts:95-97 | the repository's `findByUserId`: every code in that user's custody exactly as often as in the table, no other, most recently updated first |
| Service.QRCodeService.GetAllQRCodes | server/src/services/QRCodeService.ts:183-185 | the repository's `findAll`, with `limit` 50 and `offset` 0 by default: an error exactly when either is negative, otherwise exactly `min(limit, count - offset)` codes (none past the end), the k-th being the (offset+k)-th newest |
| Service.QRCodeService.GetQRCodeDetails | server/src/services/QRCodeService.ts:104-125 | "QR code not found" exactly when no record has the id; otherwise the repository's `findById` record and `getStatusHistory` rows: each of its history rows exactly as often as in the log, newest first |
| Service.QRCodeService.ActivateQRCode | server/src/services/QRCodeService.ts:13-49 | looks the code up by value; an unknown code fails with "QR code not found" and a non-inactive one with "QR code is not available for activation", both changing nothing; succeeds iff the code is stored and inactive, then makes it active and assigned to the user and appends one history row with that user as actor and the note "QR code activated by user"; a legal step that keeps the custody invariant |
| Service.QRCodeService.CompleteQRCode | server/src/services/QRCodeService.ts:52-92 | looks the record up by id; an unknown id fails with "QR code not found" and a non-active code with "QR code must be active to complete", both changing nothing; succeeds iff the record is active, then completes it keeping its custodian and appends one history row with the employee as actor and the notes, or "QR code completed by employee" when they are absent or empty |
| Service.QRCodeService.CreateQRCode | server/src/services/QRCodeService.ts:128-146 | succeeds iff the code is not stored; a stored code fails with "QR code already exists" and changes nothing; otherwise exactly one inactive, unassigned record is appended and the history is untouched |
| Service.QRCodeService.CreateBulkQRCodes | server/src/services/QRCodeService.ts:149-180 | succeeds iff the batch is non-empty and none of its unique codes is stored; otherwise it names the stored ones in order, or reports the server error for an empty batch, and changes nothing; on success appends exactly the unique codes as inactive records and reports their count |
| Service.QRCodeService.CompleteRoute | server/src/routes/index.ts:45 | a missing user gets 401 "Authentication required" and a plain user 403 "Insufficient permissions", both before the store is touched; otherwise `completeQRCode` runs with the requesting user as the employee: "QR code not found" or "QR code must be active to complete" with nothing changed, or the record completed in place keeping its custodian and one history row from `active` to `completed` naming that user with the notes or the default note |
| Service.ReplaceIsStep | server/src/repositories/QRCodeRepository.ts:82-93 | replacing one record by a legal successor is a legal table step |
| Service.AppendIsStep | server/src/repositories/QRCodeRepository.ts:8-17 | appending inactive, unassigned records is a legal table step |
| Auth.BearerToken | server/src/utils/auth.ts:49 | the token is the header with its seven-character `Bearer ` prefix removed; prefix and token give back the header |
| Auth.Authenticate | server/src/utils/auth.ts:40-58 | a missing header or one without `Bearer ` gives 401 "No token provided"; a token verification rejects gives 401 "Invalid token"; both leave `req.user` alone; otherwise `req.user` is the payload and the request goes on |
| Auth.Authorize | server/src/utils/auth.ts:61-75 | goes on iff there is a user whose role is listed; 401 "Authentication required" without a user, 403 "Insufficient permissions" for an unlisted role |
| Auth.RequireEmployee | server/src/utils/auth.ts:77 | admits exactly employees and admins; no user gets 401 "Authentication required", a plain user 403 "Insufficient permissions" |
| Auth.RequireAdmin | server/src/utils/auth.ts:79 | admits exactly admins; no user gets 401 "Authentication required", any other role 403 "Insufficient permissions" |
| Accounts.EmailCheckIsPattern | server/src/services/AuthService.ts:17-20 | the string test accepts exactly what `^[^\s@]+@[^\s@]+\.[^\s@]+$` matches, read position by position |
| Accounts.ValidEmailMatchesPattern | server/src/services/AuthService.ts:17 | every email the string test accepts matches the pattern |
| Accounts.PatternAtIsValidEmail | server/src/services/AuthService.ts:17 | every email the pattern matches, with its `@` and interior `.` given, passes the string test |
| Accounts.RequestError | server/src/services/AuthService.ts:12-25 | no error iff all four fields are present, the email matches the pattern and the password has at least 8 characters; a missing field is reported first, then the email format, then the password length |
| Accounts.FindByEmail | server/src/services/AuthService.ts:28 | the user with exactly that email, and nothing exactly when none has it |
| Accounts.FindUser | server/src/services/AuthService.ts:116 | the user with that id, and nothing exactly when none has it |
| Accounts.Strip | server/src/services/AuthService.ts:54 | every modelled field but the password hash is kept: id, email, names and role (the timestamps are not modelled, see "## Left out") |
| Accounts.RegisterCheckAsWritten | server/src/services/AuthService.ts:12-38 | the checks as written: admits only a valid request whose lowercased email is not stored, but refuses a case variant of a stored email with the server error |
| Accounts.RegisterCheck | server/src/services/AuthService.ts:12-31 | admits exactly a valid request whose lowercased email is not stored; a stored one gets "User with this email already exists" and never the server error |
| Accounts.CaseVariantDuplicate | server/src/services/AuthService.ts:28-38 | for a valid request whose email is not lowercase but whose lowercase form is stored, the code as written answers "Internal server error" and the corrected check answers that the user exists |
| Accounts.CaseVariantDuplicateExample | server/src/services/AuthService.ts:28-38 | with `b@x.io` stored, registering `B@x.io` shows the discrepancy |
| Accounts.RegisterChecksAdmitAlike | server/src/services/AuthService.ts:28-31 | over a table of lowercase emails both forms admit the same requests |
| Accounts.AuthService.constructor | server/src/database/migrations/001_initial_schema.ts:19-30 | an empty, well-formed users table |
| Accounts.AuthService.Register | server/src/services/AuthService.ts:9-67 | a refused request changes nothing and reports the check's message; an admitted one appends exactly one user with the lowercased email, the hashed password and role `user`, returns it without the password and a token for it, and keeps ids and emails unique and emails lowercase; the duplicate check is the corrected `RegisterCheck` (see "## Left out") |
| Accounts.AppendKeepsWellFormed | server/src/services/AuthService.ts:37-43 | adding a user with a fresh id and an unused lowercase email keeps the table well formed |
| Accounts.LoginOutcome | server/src/services/AuthService.ts:70-111 | both fields required; succeeds iff the lowercased email is stored and the password compares equal to its hash, returning the user without the password and a token; an unknown email and a wrong password get the same "Invalid email or password" |
| Accounts.LoginAfterRegister | server/src/services/AuthService.ts:37-43 | after registering, logging in with the same password and the email in any letter case finds the new account |
| Accounts.ProfileOutcome | server/src/services/AuthService.ts:114-132 | succeeds iff a user has the id, returning that user without the password; otherwise "User not found" |
| Accounts.AuthService.UpdateUserRole | server/src/services/AuthService.ts:135-153 | an unknown id gives "User not found" and changes nothing; otherwise only that user's role changes and the user is returned without the password; the table stays well formed |
| Accounts.ProfileAfterRoleUpdate | server/src/services/AuthService.ts:114-153 | after a role change the profile reports the new role |
| Accounts.AllUsers | server/src/services/AuthService.ts:156-168 | one entry per user, newest registered first, each without the password |
| Text.ToLower | webapp/src/app/components/QRCodeScreen.tsx:48 | same length, every ASCII capital lowered, no capital left |
| Text.ToLowerIdempotent | server/src/services/AuthService.ts:38 | lowercasing twice is lowercasing once |
| Text.IncludesIffOccurs | webapp/src/app/components/QRCodeScreen.tsx:48-50 | `includes` holds exactly when the term occurs at some position |
| Text.IncludesEmpty | webapp/src/app/components/QRCodeScreen.tsx:48 | every string includes the empty term |
| Text.TrimSlice | webapp/src/app/components/QRCodeGeneration.tsx:42 | `trim()` cuts only white space, and only off the two ends |
| Text.TrimBlank | webapp/src/app/components/QRCodeGeneration.tsx:34-35 | `trim()` gives the empty string exactly on blank input |
| Text.TrimTrimmed | webapp/src/app/components/QRCodeGeneration.tsx:42 | a string that neither starts nor ends in white space is left alone |
| Text.SplitJoin | webapp/src/app/components/QRCodeGeneration.tsx:36-41 | splitting what was joined gives the pieces back |
| Text.SplitAround | webapp/src/app/components/QRCodeGeneration.tsx:35-41 | splitting around one separator splits each side on its own |
| Text.NatToString | server/src/services/QRCodeService.ts:172 | decimal digits without a leading zero that read back as the number |
| Text.CompareAntisymmetric | webapp/src/app/components/QRCodeScreen.tsx:60-64 | comparing b with a is the negation of comparing a with b |
| Text.CompareTransitive | webapp/src/app/components/QRCodeScreen.tsx:60-64 | the order chains |
| Lists.Filter | webapp/src/app/components/QRCodeScreen.tsx:45-55 | `filter` keeps only elements satisfying the predicate, each satisfying element as often as in the input |
| Lists.FilterMembers | webapp/src/app/components/QRCodeScreen.tsx:45-55 | an element is kept iff it is in the input and satisfies the predicate |
| Lists.FilterCount | webapp/src/app/components/QRCodeScreen.tsx:45-55 | every element is kept exactly as often as in the input when it satisfies the predicate, and never otherwise |
| Lists.SortBySorted | webapp/src/app/components/QRCodeScreen.tsx:56-65 | the sort with a consistent comparator is ordered and a permutation |
| Lists.SortByStable | webapp/src/app/components/QRCodeScreen.tsx:56-65 | the sort is stable: elements that all tie with one another come out in their input order |
| TableView.DirectedCompare | webapp/src/app/components/QRCodeScreen.tsx:60-64 | the comparator is -1, 0 or 1, and 0 exactly on equal keys |
| TableView.DescReversesAsc | webapp/src/app/components/QRCodeScreen.tsx:60-64 | `desc` compares every pair exactly the other way round from `asc` |
| TableView.SortByKeySorted | webapp/src/app/components/UserScreen.tsx:59-68 | the sorted rows are a permutation of the input, ordered by key in the chosen direction |
| TableView.SortByKeyStable | webapp/src/app/components/UserScreen.tsx:59-68 | rows with the same sort key keep their input order |
| TableView.NextSort | webapp/src/app/components/QRCodeScreen.tsx:67-74 | the clicked field becomes the sort field; the direction is `asc` unless the same field was clicked while ascending |
| TableView.NextSortTwiceRestores | webapp/src/app/components/QRCodeScreen.tsx:67-74 | two clicks on the sorted column restore the state, the first flipping the direction |
| TableView.NextSortTwiceOnNewField | webapp/src/app/components/UserScreen.tsx:70-77 | the first click on another column sorts it ascending, the second descending |
| QRCodeScreen.FilteredAndSorted | webapp/src/app/components/QRCodeScreen.tsx:45-55 | each row shown exactly as often as fetched when it passes, never otherwise; a row passes iff the lowercased term occurs in its lowercased id, code or present owner id and the filter is `all` or its status |
| QRCodeScreen.FilteredAndSortedOrder | webapp/src/app/components/QRCodeScreen.tsx:56-65 | the shown rows are ordered by the sort column's value, a missing one read as `''`, in the chosen direction |
| QRCodeScreen.UnfilteredShowsAll | webapp/src/app/components/QRCodeScreen.tsx:46-54 | with no search term and filter `all`, the shown rows are a permutation of the fetched ones |
| QRCodeScreen.StatusCount | webapp/src/app/components/QRCodeScreen.tsx:85-87 | at most the number of rows, and zero exactly when no row has that status |
| QRCodeScreen.StatusCountsSum | webapp/src/app/components/QRCodeScreen.tsx:85-87 | when every row has one of the three statuses, the three counts add up to the number of rows |
| QRCodeScreen.QRCodeTable.constructor | webapp/src/app/components/QRCodeScreen.tsx:24-28 | nothing fetched, empty search, filter `all`, sorted by id ascending |
| QRCodeScreen.QRCodeTable.HandleSort | webapp/src/app/components/QRCodeScreen.tsx:67-74 | the sort state becomes `NextSort` of the old one; the rows, search and filter stay; the same rows are shown |
| UserScreen.FilteredAndSorted | webapp/src/app/components/UserScreen.tsx:48-58 | each user shown exactly as often as fetched when it passes, never otherwise; a user passes iff the lowercased term occurs in the lowercased email, first or last name and the filter is `all` or the role |
| UserScreen.FilteredAndSortedOrder | webapp/src/app/components/UserScreen.tsx:59-68 | the shown users are ordered by the chosen field in the chosen direction |
| UserScreen.UnfilteredShowsAll | webapp/src/app/components/UserScreen.tsx:49-57 | with no search term and filter `all`, the shown users are a permutation of all users |
| UserScreen.UserTable.constructor | webapp/src/app/components/UserScreen.tsx:27-31 | no users, empty search, filter `all`, sorted by last name ascending |
| UserScreen.UserTable.HandleSort | webapp/src/app/components/UserScreen.tsx:70-77 | the sort state becomes `NextSort` of the old one; the users, search and filter stay; the same users are shown |
| QRCodeGeneration.AlphabetIsCodeChars | webapp/src/app/components/QRCodeGeneration.tsx:18 | the alphabet has 36 characters, each a capital letter or a digit |
| QRCodeGeneration.GenerateRandomQRCode | webapp/src/app/components/QRCodeGeneration.tsx:16-24 | twelve characters, each a capital ASCII letter or a digit |
| QRCodeGeneration.KeepCodes | webapp/src/app/components/QRCodeGeneration.tsx:42-43 | no more codes than lines, none empty |
| QRCodeGeneration.ParseCodes | webapp/src/app/components/QRCodeGeneration.tsx:70-73 | no parsed code is empty |
| QRCodeGeneration.ParsedCodesTrimmed | webapp/src/app/components/QRCodeGeneration.tsx:40-43 | every parsed code is non-empty, starts and ends with a non-white-space character, and spans no line break |
| QRCodeGeneration.KeepCodesAppend | webapp/src/app/components/QRCodeGeneration.tsx:42-43 | the codes of two runs of lines are the codes of each run, in order |
| QRCodeGeneration.ParseTrim | webapp/src/app/components/QRCodeGeneration.tsx:34 | trimming the whole text first changes no parsed code |
| QRCodeGeneration.ParseEmptyIffBlank | webapp/src/app/components/QRCodeGeneration.tsx:70-73 | the text holds no code exactly when it is blank |
| QRCodeGeneration.ParseJoin | webapp/src/app/components/QRCodeGeneration.tsx:36 | generated codes written one per line parse back to exactly themselves |
| QRCodeGeneration.ParseAppendLines | webapp/src/app/components/QRCodeGeneration.tsx:35-36 | a line break and generated codes after a text add exactly those codes after the text's own |
| QRCodeGeneration.ClampCount | webapp/src/app/components/QRCodeGeneration.tsx:27 | between 1 and 10; the count itself inside that range, 1 below it, 10 above it |
| QRCodeGeneration.CountInput | webapp/src/app/components/QRCodeGeneration.tsx:113 | never 0; a non-zero parsed number is kept, a non-number or 0 gives 1 |
| QRCodeGeneration.AutoGenerateAppends | webapp/src/app/components/QRCodeGeneration.tsx:26-37 | after auto-generating, the parsed codes are the old ones followed by exactly the new ones |
| QRCodeGeneration.AutoGenerateEnablesRegister | webapp/src/app/components/QRCodeGeneration.tsx:150 | after auto-generating the register button is enabled |
| QRCodeGeneration.RegisterDisabledIffBlank | webapp/src/app/components/QRCodeGeneration.tsx:150 | the register button is disabled exactly while the text is blank |
| QRCodeGeneration.RegisterModal.constructor | webapp/src/app/components/QRCodeGeneration.tsx:13-14 | an empty text and count 1 |
| QRCodeGeneration.RegisterModal.SetAutoGenCount | webapp/src/app/components/QRCodeGeneration.tsx:113 | the count becomes `CountInput` of the parsed value; text and modal stay |
| QRCodeGeneration.RegisterModal.HandleAutoGenerate | webapp/src/app/components/QRCodeGeneration.tsx:26-37 | generates exactly the clamped count of codes, each twelve capitals or digits, and the text becomes the trimmed old text, a line break if that is non-empty, then the codes one per line; count and modal stay |
| QRCodeGeneration.RegisterModal.HandleSubmit | webapp/src/app/components/QRCodeGeneration.tsx:39-57 | with no parsed code nothing changes and the "add at least one" alert is shown; otherwise the alert reports the number of codes, the text is cleared and the modal closed |
| QRCodeGeneration.RegisterModal.HandleCancel | webapp/src/app/components/QRCodeGeneration.tsx:59-62 | the text is cleared and the modal closed; the count stays |

## Left out

- The PostgreSQL driver, connection handling, `BEGIN`/`COMMIT`/`ROLLBACK` and `client.release()` are not modelled. A transaction is one method whose whole effect happens or none of it does.
- Repository.QRCodeRepository.CreateBulk: it is the intended parameterised insert, which stores every code verbatim and inactive. The source builds the `VALUES` text by interpolating each code between single quotes, unescaped (server/src/repositories/QRCodeRepository.ts:164). `BulkInsert` models that text and how it is read back. The text is read as intended when no code holds a single quote (`BulkInsert.QuoteFreeValuesAsIntended`). A code with exactly one quote and no `--` after it, as `O'Brien`, leaves a string literal open, so the statement is a syntax error (`BulkInsert.LoneQuote`); the service's catch answers that with "Internal server error" (server/src/services/QRCodeService.ts:176-178). A code such as `X', 'active') --` inserts the code `X` as `active` with no custodian, which breaks the custody invariant `Lifecycle.RunKeepsCustody` states (`BulkInsert.InjectedTuple`); see "## Findings". Other quoted codes may insert rows, because PostgreSQL reads `VALUES` items as expressions: `x'||'` inserts `x`. The model's reader covers only tuples of two plain literals and makes no claim about such codes.
- The timestamps of QR codes and history rows (`created_at`, `updated_at`, `changed_at` and the `updated_at` trigger) are a logical clock that ticks once per committed write. Record ids are natural numbers from counters standing for generated UUIDs.
- Accounts.Strip: users carry no `createdAt` or `updatedAt` (server/src/types/index.ts:23-24, server/src/repositories/UserRepository.ts:92-93). So the users that Accounts.AuthService.Register, Accounts.LoginOutcome, Accounts.ProfileOutcome, Accounts.AuthService.UpdateUserRole and Accounts.AllUsers return lack those two fields, and a role change does not move `updated_at`.
- Ids that are not UUID strings are not modelled. In the source, a `qrCodeId` or user id that PostgreSQL cannot cast to UUID makes the query throw, and the service's catch answers "Internal server error". This affects `completeQRCode` and `getQRCodeDetails` (server/src/services/QRCodeService.ts:59 and :106) and `updateRole` (server/src/repositories/UserRepository.ts:59-67). The model's ids are always well formed, so it can only answer "QR code not found" or "User not found" there.
- Foreign keys are not modelled. `status_history.changed_by` references `users(id)` (server/src/database/migrations/001_initial_schema.ts:51), and so does `qr_codes.user_id` (:38). In the source, an actor or custodian id with no user makes `updateStatus` throw, and the service's catch answers "Internal server error". The model takes user ids as given and accepts them (Repository.QRCodeRepository.UpdateStatus, Service.QRCodeService.ActivateQRCode, Service.QRCodeService.CompleteQRCode).
- Repository.QRCodeRepository.FindAll: a negative `limit` or `offset` is an error result, standing for PostgreSQL's refusal, which `getAllQRCodes` does not catch. The controller's `parseInt(...) || 50` and `|| 0` (server/src/controllers/QRCodeController.ts:267-268) and its 500 answer are not modelled.
- Column length limits are not modelled: `code` and `email` are VARCHAR(255), `first_name` and `last_name` VARCHAR(100) (server/src/database/migrations/001_initial_schema.ts:22-25 and :36). A longer value is a database error in the source, answered with "Internal server error"; the model accepts it.
- Repository.QRCodeRepository.FindAll: rows with equal `created_at` are listed newest-inserted first. `ORDER BY created_at DESC` leaves such ties, for instance the rows of one bulk insert, in no particular order. The same holds for Repository.QRCodeRepository.FindByStatus and Repository.QRCodeRepository.GetStatusHistory, for Repository.QRCodeRepository.FindByUserId, whose rows with equal `updated_at` (`ORDER BY updated_at DESC`) are listed most recently updated first, and for the service getters built on them. The stated `createdAt`/`updatedAt`/`changedAt` order is what the source promises.
- Concurrency is not modelled. The service checks the status outside the repository's transaction, so concurrent activations could interleave. The model is a single-threaded sequence of calls.
- bcrypt hashing and comparison, and JWT signing and verification, are function parameters.
- Accounts.AuthService.Register: for a case-variant duplicate email (`B@x.io` when `b@x.io` is stored) it answers "User with this email already exists", the intended behaviour of the corrected check `Accounts.RegisterCheck`. The source as written answers "Internal server error" there; that behaviour is modelled by `Accounts.RegisterCheckAsWritten` and `Accounts.CaseVariantDuplicate`, see "## Findings".
- Auth.Authenticate: the case where `next()` itself throws, after `req.user` is set, and is answered with "Invalid token" is not modelled.
- `UserRepository` is a sequence of user records. Its SQL, and the `ON DELETE` effects of deleting users or codes, are not modelled.
- Repository.QRCodeRepository.GetStatusHistory: the join with `users` that adds the actor's display name and email is not modelled.
- Accounts.AllUsers: the order is newest registered first, as the users table lists it. The table keeps users in registration order.
- `localeCompare` is modelled as code-point lexicographic order (`Text.Compare`). The sort lemmas rely only on it being a consistent total order.
- `toLowerCase` is modelled on ASCII letters only.
- String lengths count characters, not UTF-16 code units.
- `Math.random` is modelled as an arbitrary choice of alphabet position.
- `parseInt` is an `Option<int>` parameter (`None` for `NaN`).
- `alert` and `console.log` become returned values or are dropped.
- The web `QRCode` type is not part of this model. The row fields are read off the screen's own use of them: `id`, `code`, `status` and an optional `userId`.
- QRCodeScreen.StatusCount: the result is stated by its bounds, by "zero iff absent" and by the sum lemma, not by an element-wise count equation.
- The HTTP controllers, route wiring (apart from the completion route's role gate), `server.ts`, the database configuration and the migration runner are not modelled.
- The Next.js proxy routes, `AuthProvider`, `fetchWithAuth` and all JSX rendering are not modelled.
- The unused `mockQRCodes` array is not modelled, nor is the modal's backend submission, which the client marks as not implemented.
- The screens' data fetching (`useEffect`) is not modelled; the fetched rows are the classes' `qrCodes` and `users` fields.
- TableView.NextSortTwiceRestores, TableView.NextSortTwiceOnNewField and QRCodeGeneration.AlphabetIsCodeChars follow from the definitions alone; they are stated for the reader.

## Findings

| source | as written | input that shows it | evidently intended | confidence | as-written member | corrected member |
|---|---|---|---|---|---|---|
| server/src/repositories/QRCodeRepository.ts:164 | each code is interpolated between single quotes without escaping, so a quote in a code ends the literal | the batch `X', 'active') --` (or `O'Brien`) | a parameterised insert storing every code verbatim with status `inactive` | not executed | BulkInsert.QuoteExamples | Repository.QRCodeRepository.CreateBulk |
| server/src/services/AuthService.ts:28-38 | the duplicate lookup uses the email as typed, but the row is stored lowercased; a case variant of a stored email passes the lookup, breaks UNIQUE(email) on insert, and the catch-all answers "Internal server error" | `b@x.io` stored, register `B@x.io` with a valid password and names | "User with this email already exists" | not executed | Accounts.CaseVariantDuplicateExample | Accounts.RegisterCheck |
