# Library gate: visit tracking, history queries and uploads in Dafny

This project models the core of a library gate system. Students punch in and out at the
gate. A staff page lists and exports the visit history. Two spreadsheet paths load the
student roster. Each handler becomes a pure function from the state it reads (the `visits`
table, the query string, the page's filter state, the sheet rows, the stored
re-authentication time) to what it produces (the new table and flash message, the SQL
statement and its rows, the request body, the file name, the new component state).

Modules, one per source component, plus four helper modules:

- `Visits`: the `/student-status` handler and both `/punch` handlers of
  `library-gate/index.js`. The `visits` table is a sequence of rows. An open visit is a row
  whose `punch_out_time` is NULL.
- `History`: the `/api/history` handler. This covers the clause and parameter arrays it
  builds and the SQL text it assembles. It also covers what MySQL returns for that text:
  the selected rows, `ORDER BY punch_in_time DESC`, and `TIMESTAMPDIFF(MINUTE, …)`,
  which truncates toward zero.
- `HistoryPage`: the filter state of `HistoryPage.js`, including `handleFilterChange` and
  `clearFilters`. It also covers the pruning of empty filters into the query string and
  the export file name.
- `StudentDetails`: the row mapping and validation of the new-student upload, and the
  filter of the register-number update, both from `StudentDetailsPage.js`.
- `ImportStudents`: the loop of `import_students.js`. It covers the skip rule, the
  upsert issued for every usable row, and the inserted/updated counters.
- `ProtectedRoute`: the five-minute re-authentication window, through `checkAuth` and
  `handleVerifySuccess`.
- Helpers: `Common` (`Option`, `Result`), `Seqs` (filter and map over sequences with
  their membership and count facts), `Text` (decimal strings, `parseInt`, `Number`,
  MySQL's string-to-number conversion, `join`), and `JsValues` (JavaScript truthiness
  and `||`).

The environment is passed in as parameters:

- The clock is an `Instant` (for the database) or a millisecond count (for the browser).
- The database's answers to the import's statements are an oracle `answer: nat -> ExecResult`,
  where `answer(k)` is the result of the k-th statement executed.
- Spreadsheet contents arrive as rows of JavaScript values.

The model follows the code in three places a reader may not expect:

- Punch-out closes every open visit of the student, because the `UPDATE` has no
  `LIMIT`. Under the one-open-visit invariant this is exactly one row
  (`Visits.PunchOutAffectsOneRow`).
- `/api/history` reads only `year`, `month` and `day`. Given the page's query string,
  the gate's handler would ignore the `purpose`, `fromDate` and `toDate` filters.
- The first `/punch` handler registered is the one Express runs. It inserts without
  checking for an open visit (see Findings).

## Model

| member | source | states |
|---|---|---|
| `Visits.OpenVisitIds` | library-gate/index.js:113-116 | the open-visit query returns nothing exactly when the student has no open visit; it returns the id of every open visit of theirs, and every id it returns belongs to one |
| `Visits.OpenVisitIdsCountsOpenRows` | library-gate/index.js:211-213 | the query returns one id per open row of the student, so `affectedRows` of the punch-out `UPDATE` is the number of rows it closes |
| `Visits.Close` | library-gate/index.js:211 | an open visit of the student gets `now` as its punch-out time, any other row is left as it is, and afterwards the row is not open for the student; id, student, purpose and punch-in never change |
| `Visits.StudentStatus` | library-gate/index.js:105-118 | an empty student id is refused; otherwise the reply echoes the id and says IN exactly when an open visit of that student exists |
| `Visits.PunchInUnguarded` | library-gate/index.js:132-135 | the insert appends one open visit for the student, with the given purpose and time; earlier rows are untouched; its id differs from every id in the table, and sequential ids stay sequential |
| `Visits.NewVisit` | library-gate/index.js:133-134 | the inserted row is open, carries the student, purpose and time, and gets an id larger than every id in the table, which is the next sequential id while the ids are 1, 2, … |
| `Visits.MaxId` | library-gate/index.js:133-134 | the largest id in the table: every id is at most it, and some row carries it |
| `Visits.PunchInGuarded` | library-gate/index.js:200-209 | with an open visit the table is unchanged and the flash says "already punched in"; otherwise the visit is inserted |
| `Visits.PunchOut` | library-gate/index.js:210-217 | every open visit of the student is closed at `now` and every other row is kept; afterwards no open visit remains; with nothing to close the table is unchanged and the flash reports no open session |
| `Visits.HandlePunchAsRegistered` | library-gate/index.js:129-150 | punch_in always adds a row and leaves the student IN; punch_out leaves them OUT; any other action changes nothing |
| `Visits.HandlePunch` | library-gate/index.js:197-224 | punch_in leaves the student IN: with a visit already open the table is unchanged, otherwise exactly one row is appended; punch_out leaves them OUT; any other action changes nothing; "at most one open visit per student" is preserved, and so, separately, are sequential ids |
| `Visits.GuardedPunchInKeepsInvariant` | library-gate/index.js:201-209 | checking before inserting keeps at most one open visit per student; separately, it keeps the ids sequential |
| `Visits.UnguardedPunchInBreaksInvariant` | library-gate/index.js:132-134 | punching in a student who is already IN leaves two open visits of theirs |
| `Visits.PunchOutKeepsInvariant` | library-gate/index.js:211-212 | closing visits keeps at most one open visit per student; separately, it keeps the ids sequential |
| `Visits.PunchOutAffectsOneRow` | library-gate/index.js:211-213 | under the invariant, `affectedRows` is 1 when the student is IN and 0 otherwise |
| `Visits.SecondPunchOutFails` | library-gate/index.js:211-214 | a second consecutive punch-out reports no open session and changes nothing |
| `Visits.SessionRoundTrip` | library-gate/index.js:197-224 | a punch-in makes the status IN, and a punch-out after it makes it OUT |
| `History.BuildQuery` | library-gate/index.js:162-179 | there are as many params as clauses, at most three; a clause is present exactly when its query value is non-empty; each param is that clause's value; the order is year, month, day |
| `History.BuildQueryReadsOnlyDateParts` | library-gate/index.js:162 | two query strings that agree on `year`, `month` and `day` build the same query |
| `History.JoinedClausePlaceholders` | library-gate/index.js:182 | the clauses joined with ` AND ` carry one `?` per clause |
| `History.WhereSql` | library-gate/index.js:181-183 | the WHERE part is empty exactly when there are no clauses; otherwise it starts with ` WHERE `, and a single clause appears alone after it |
| `History.WherePlaceholders` | library-gate/index.js:181-183 | the WHERE part carries one `?` per clause and is empty without clauses |
| `History.SqlText` | library-gate/index.js:164-185 | every statement starts with the same select and ends with the same ordering, with the WHERE part between them; without clauses it is the select followed by the ordering |
| `History.SqlPlaceholders` | library-gate/index.js:164-185 | the full statement carries exactly one `?` per clause |
| `History.SqlPlaceholdersMatchParams` | library-gate/index.js:164-188 | the statement binds exactly as many placeholders as `params` has values |
| `History.NoFiltersNoWhere` | library-gate/index.js:181-185 | without filters the statement is the select followed directly by the ordering |
| `History.DurationMinutes` | library-gate/index.js:164 | the duration is NULL exactly for an open visit; otherwise it is the elapsed time in whole minutes, truncated toward zero for either sign |
| `History.DurationExample` | library-gate/index.js:164 | a visit from 10:00:00 to 10:45:30 lasts 45 minutes |
| `History.SortByPunchInDesc` | library-gate/index.js:185 | the rows come out latest punch-in first, as a permutation of the rows in |
| `History.SelectRows` | library-gate/index.js:181-188 | a visit is returned exactly when it is in the table and satisfies every clause, as often as it occurs in the table |
| `History.QueryHistory` | library-gate/index.js:161-190 | every reply row carries its visit's duration, and the rows are ordered by punch-in time, latest first |
| `History.MatchesImpliesSelects` | library-gate/index.js:168-179 | a visit whose date parts equal every supplied filter satisfies the WHERE clause |
| `History.SelectsImpliesMatches` | library-gate/index.js:168-179 | a visit that satisfies the WHERE clause matches every supplied filter |
| `History.SelectsIffMatches` | library-gate/index.js:168-183 | the WHERE clause selects exactly the visits that match the supplied filters |
| `History.QueryHistoryContents` | library-gate/index.js:161-190 | the reply holds each matching visit as often as the table does, and nothing else |
| `History.NoFiltersAllVisits` | library-gate/index.js:181-190 | without filters the reply is a permutation of the whole table |
| `HistoryPage.ChangeFilter` | library-frontend/src/HistoryPage.js:50-55 | the changed input takes the new value and every other filter keeps its own |
| `HistoryPage.ChangeFilterActivation` | library-frontend/src/HistoryPage.js:50-55 | a change to a non-empty value makes that filter active with the new value; a change to empty removes its key from the query; every other filter stays active exactly when it was set |
| `HistoryPage.ClearFilters` | library-frontend/src/HistoryPage.js:57-66 | every filter is empty |
| `HistoryPage.ActiveFilters` | library-frontend/src/HistoryPage.js:20-22 | the active filters are entries of the filter object, in order, and all have non-empty values |
| `HistoryPage.EntriesListEveryField` | library-frontend/src/HistoryPage.js:6-13 | the entries list each of the six inputs with its value, and nothing else |
| `HistoryPage.ActiveFiltersExactly` | library-frontend/src/HistoryPage.js:69-71 | an input is among the active filters exactly when its value is non-empty |
| `HistoryPage.ToQuery` | library-frontend/src/HistoryPage.js:20-22 | the object built from entries has exactly the keys of those entries |
| `HistoryPage.ToQueryValue` | library-frontend/src/HistoryPage.js:20-23 | a key whose entries all carry one value maps to that value |
| `HistoryPage.ActiveFiltersQuery` | library-frontend/src/HistoryPage.js:20-23 | the object built from the active filters has a key exactly for each non-empty filter, holding that filter's value, and no other key |
| `HistoryPage.QueryOf` | library-frontend/src/HistoryPage.js:20-23 | the query string sent holds a key exactly for each non-empty filter, named as the filter and carrying its value, and nothing else |
| `HistoryPage.ServerReadsPageDateParts` | library-frontend/src/HistoryPage.js:23-27 | given the page's query string, the gate's history handler would read each date part back exactly as the page holds it, and an unset one as empty |
| `HistoryPage.PageFiltersBecomeClauses` | library-frontend/src/HistoryPage.js:17-27 | given the page's query string, the gate's history handler would build a clause exactly for each date filter set on the page, each parameter being that filter's value; the other filters add none |
| `HistoryPage.MonthPart` | library-frontend/src/HistoryPage.js:81 | the month part is a month name exactly when the value is a numeral from 1 to 12, and then it is that month; out-of-range and non-numeric values give the empty string |
| `HistoryPage.MonthPartOfSelectValue` | library-frontend/src/HistoryPage.js:81 | each value "1" to "12" of the month select names its month in the file name |
| `HistoryPage.NamePartsFollowActiveFilters` | library-frontend/src/HistoryPage.js:78-85 | the file name's parts are "History" followed by one part per active filter, in order |
| `HistoryPage.ExportFileName` | library-frontend/src/HistoryPage.js:77-93 | with no active filter the name is the dated default; otherwise it is the parts joined with `_` plus `.xlsx`; the name starts with `History_` exactly when some filter is active |
| `HistoryPage.ClearedFiltersExportDefault` | library-frontend/src/HistoryPage.js:87-92 | after clearing, no filter is active and the export uses the dated default name |
| `HistoryPage.ClearedFiltersListEveryVisit` | library-frontend/src/HistoryPage.js:57-66 | after clearing, the page's query string, given to the gate's history handler, would return every visit of the table, each as often as it occurs |
| `StudentDetails.EitherColumn` | library-frontend/src/StudentDetailsPage.js:106-108 | a number is read from its unspaced header when that cell is truthy, and otherwise from the spaced header (`Register Number`, `Admission Number`) |
| `StudentDetails.ToNewStudent` | library-frontend/src/StudentDetailsPage.js:119-125 | the register number sent is truthy exactly when either register column is, and it is `null` otherwise; the name, department and admission number are taken from the row |
| `StudentDetails.MapRows` | library-frontend/src/StudentDetailsPage.js:105-126 | the mapping succeeds exactly when every row has a name, an admission number and a department, and then maps each row; otherwise the error carries the first bad row's position among the parsed rows plus 2 |
| `StudentDetails.ErrorMessage` | library-frontend/src/StudentDetailsPage.js:113-117 | the message starts with "Missing required fields in row ", the number after that prefix reads back as the reported row number, and the message ends with the list of required fields |
| `StudentDetails.HandleNewStudentsUpload` | library-frontend/src/StudentDetailsPage.js:102-136 | the students are posted exactly when every row is valid; otherwise an error about the first bad row is shown and nothing is sent |
| `StudentDetails.ToUpdate` | library-frontend/src/StudentDetailsPage.js:157-160 | each number is taken from its unspaced column when that cell is truthy, and from the spaced column (`Admission Number`, `Register Number`) otherwise |
| `StudentDetails.RegisterUpdates` | library-frontend/src/StudentDetailsPage.js:156-161 | the updates sent are a subsequence of the mapped rows, and every one has both numbers |
| `StudentDetails.RegisterUpdatesExactly` | library-frontend/src/StudentDetailsPage.js:156-161 | every complete row is sent; every update sent comes from some row; incomplete mappings are never sent |
| `ImportStudents.Skipped` | library-gate/import_students.js:48-51 | a row is skipped exactly when the statement built from it would lack its register number, name or admission number |
| `ImportStudents.UpsertsAreUsableRowsInOrder` | library-gate/import_students.js:46-62 | the statements of an error-free run are the usable rows, each turned into its statement, in sheet order |
| `ImportStudents.Upserts` | library-gate/import_students.js:46-62 | an error-free run issues at most one statement per row |
| `ImportStudents.UpsertsAreComplete` | library-gate/import_students.js:48-51 | no statement issued has a missing register number, name or admission number |
| `ImportStudents.UpsertsCountUsableRows` | library-gate/import_students.js:46-51 | the statements issued number the rows minus the skipped rows |
| `ImportStudents.CountersPartitionAffecting` | library-gate/import_students.js:64-72 | inserted plus updated counts every statement that affected a row, each exactly once |
| `ImportStudents.ExecuteRows` | library-gate/import_students.js:42-73 | without an error it issues exactly the upserts of the usable rows in sheet order, and the counters count the inserting and the updating answers; after an error it has issued a prefix of them, ending with the statement that threw |
| `ImportStudents.ImportData` | library-gate/import_students.js:31-73 | an empty sheet stops before any statement; the import completes exactly when every statement succeeds, with inserted + updated at most the number of statements; otherwise it aborts after a prefix whose last statement threw |
| `ProtectedRoute.CheckAuth` | library-frontend/src/ProtectedRoute.js:17-31 | after the check nothing is loading and exactly one of "authenticated" and "modal shown" holds; access is granted exactly when a stored time parses and less than 300000 ms have passed since it |
| `ProtectedRoute.HandleVerifySuccess` | library-frontend/src/ProtectedRoute.js:40-44 | the stored string parses back to the current time, the page is authenticated and the modal is closed |
| `ProtectedRoute.RecheckAfterVerifyGrants` | library-frontend/src/ProtectedRoute.js:40-44 | a check at the instant of re-authentication grants access |
| `ProtectedRoute.WindowIsStrict` | library-frontend/src/ProtectedRoute.js:21 | 299999 ms after re-authenticating the page is shown; at 300000 ms the modal is shown |
| `ProtectedRoute.GrantIsMonotone` | library-frontend/src/ProtectedRoute.js:21 | a grant at some instant is also a grant at every earlier instant |
| `Text.ParseInt` | library-frontend/src/ProtectedRoute.js:21 | `parseInt(s, 10)` is a number exactly when `s` has an optional sign followed by at least one digit |
| `Text.IntToStringParses` | library-frontend/src/ProtectedRoute.js:41 | `parseInt` reads back every integer that `toString` writes |
| `Text.JsNumber` | library-frontend/src/HistoryPage.js:81 | `Number(s)` is an integer exactly when `s` is a non-empty string of digits |
| `Text.NatToStringNumber` | library-frontend/src/HistoryPage.js:81 | a written number reads back both in JavaScript and in MySQL |
| `JsValues.Or` | library-frontend/src/StudentDetailsPage.js:106 | `a || b` is the first operand when that is truthy and the second otherwise; so it is truthy exactly when one of the operands is |
| `Seqs.Filter` | library-frontend/src/HistoryPage.js:21 | a filter keeps a subsequence whose every element passes the test |

## Left out

- HTTP, Express routing, sessions, `requireLogin`, flash storage, redirects and rendering
  are left out. Each handler's effect is its result value.
- Database I/O is left out. The `visits` table is a sequence. A failed query
  (`catch (err)`) is modelled only in the import, where it ends the loop.
- Concurrency is left out. Two requests interleaving between the guarded handler's check
  and its insert could still open two visits.
- The browser's clock and `toISOString` are left out: the current time and today's date
  are parameters.
- Spreadsheet parsing (`XLSX.read`, `sheet_to_json`) is left out. Rows arrive already
  parsed. A cell holds `undefined`, `null`, a string or an integer. Fractional numbers and
  the booleans `sheet_to_json` produces for TRUE/FALSE cells are not modelled.
  `sheet_to_json` with default options drops blank rows. So the row number of an upload
  error (position among the parsed rows plus 2) is the sheet row only when no blank row
  comes before the bad row.
- The server behind `http://localhost:3100` that the page calls is not part of this
  model. The page lemmas relate the page's query string to the `/api/history` handler of
  the gate server, which reads the same parameter names. The upload and export endpoints
  are left out.
- The XLSX export encoder is left out. Only the file name is modelled.
- The identity lookup between register and admission numbers is not part of this model.
  It lives in server code that is not among the modelled files.
- `database_setup.js` is left out. It declares `visits` with other identifier columns
  than the `student_id` the handlers use. The model follows the handlers.
- MySQL collation is left out. `student_id = ?` is modelled as exact string equality.
  Under a case-insensitive collation, MySQL also treats ids that differ only in letter
  case as equal. Depending on the collation, it may also ignore accents or trailing
  spaces.
- `History.SortByPunchInDesc`: rows with equal `punch_in_time` come out in an order
  MySQL does not promise. The model fixes one order and claims only sortedness and
  permutation.
- `Text.ParseInt`: leading whitespace, which `parseInt` skips, is not modelled. A
  `lastReauthTime` the page itself writes never has it.
- `Text.JsNumber`: only non-empty digit strings are modelled, and every other string is
  read as not a number. `Number` does not agree on these: it reads `""` as 0 and accepts
  `"0x1"`, `"0b1"`, `"0o1"`, `"Infinity"`, whitespace, signs, decimals and exponents.
  None of these reaches the month name: the month select only offers "1" to "12", and
  an empty month is not an active filter.
- `Text.LeadingValue`: MySQL's conversion of a string compared with an integer is modelled
  as the value of the leading digits. Leading whitespace, signs, decimals and exponents
  are left out: MySQL reads `"1e1"` as 10 where the model reads 1. The year and day
  inputs are `type="number"` fields, which accept such forms. The warning MySQL raises is
  left out too.
- Repeated query keys are left out. `QueryString` holds one string per key. Express
  turns `?year=1&year=2` into an array, mysql2 expands it into a parameter list that
  makes the SQL invalid, and the handler answers 500.
- `Visits.IdsSequential`: ids equal 1, 2, … only as long as no row has been deleted and
  no insert has failed or been rolled back. Deleting a student cascades to their visits,
  and a failed insert uses up its id; both leave gaps in the AUTO_INCREMENT ids. An
  insert fails, for instance, when the first `/punch` handler inserts an unknown student
  id that violates the foreign key. Each invariant lemma states the two invariants
  separately, so "at most one open visit" does not depend on this one.
- `Visits.NewVisit`: the id is one above the largest id present in the table, not the
  table's AUTO_INCREMENT counter, which the model does not track. That id is always fresh.
  MySQL can hand out a larger one after a failed or rolled-back insert, or after the
  row with the largest id was deleted. The clause `IdsSequential(store) ==> id ==
  |store| + 1` holds only on a table that has seen neither.
- The flash texts are reduced to tags, one per kind of message. The handlers word some of
  them differently: the first handler's punch-in message names the purpose and the
  second's does not. The two "no open session" messages also differ slightly.
- The meaning of `insertId` is left to the oracle. The import counts what the driver
  reports, and the model does not derive whether a statement inserted or updated.
- Console output, the connection set-up and `connection.end()` of the import are left
  out.
- `handleModalCancel` and the navigation around the modal are left out. They change no
  state that the window check reads.

## Findings

| source | as written | input that shows it | evidently intended | confidence | as-written member | corrected member |
|---|---|---|---|---|---|---|
| library-gate/index.js:129-135 | two `app.post('/punch', …)` handlers are registered; Express dispatches to the first, which inserts on `punch_in` without checking for an open visit, so the guarded handler at lines 197-209 never runs | a student with an open visit sends `action = punch_in`: a second open visit is inserted and the flash reports success | refuse the punch-in with "already punched in", as the second handler does | not executed | `Visits.UnguardedPunchInBreaksInvariant` | `Visits.GuardedPunchInKeepsInvariant` |
