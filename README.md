# Employee directory reconciliation

This project models the employee reconciliation engine of the `EmployeeSyncController` in Dafny. The engine takes a spreadsheet export posted as JSON: a list of rows, each keyed by header text. It brings the `get_employee_info` table in line with that export in one of two modes.

- **initialize** (replace mode):
  - lists the keys already in the table;
  - classifies every payload row as skipped (not an object, missing ID, duplicate ID) or accepted;
  - works out which old keys are missing from the payload;
  - appends a log entry, truncates the table and inserts the accepted rows.
- **sync** (merge mode):
  - runs the same loop, but splits accepted rows into *created* and *updated* against a snapshot of the existing keys;
  - forces `status_description = 'ACTIVE'` on every accepted row;
  - appends a log entry;
  - updates every row carrying a known key and inserts the rest;
  - marks every missing key `INACTIVE`.

`mapRow` turns one spreadsheet row into the canonical record. For each field it walks an ordered list of header spellings and takes the first one present with a value other than `''`; the ID is trimmed. `toDate` yields null for an empty value, passes an ISO date through unchanged and sends anything else to PHP's date parser.

Modules, in dependency order:

- `Php` (php.dfy): PHP values as the JSON decoder produces them, and the built-ins whose exact behaviour matters here: `array_key_exists`, `empty`, the `(string)` cast, `trim`, and `array_values(array_diff(...))`.
- `RowMapping` (rowmapping.dfy): the header aliases, the `$get` closure, `mapRow` and `toDate`, all as pure functions.
- `Reconcile` (reconcile.dfy):
  - the classification loop, as the method `ClassifyRows`, proved equal to the function `Classify`;
  - an independent per-row reference account (`VerdictAt`, `RefSkipped`, `RefAccepted`);
  - the lemmas relating the two.
- `Directory` (directory.dfy): the table row, the log entry, and a `Database` class holding both tables plus a ghost journal of every write in order. Its methods are the five write statements the controller issues; the `pluck` query that reads the keys is the function `Keys`.
- `Writes` (writes.dfy): the table each mode leaves behind, as functions of the old table and the accepted rows, with closed-form, row-by-row lemmas about the result.
- `EmployeeSync` (controller.dfy): the two entry points and their transaction loops, as module-level methods that take the `Database` as a parameter.
- `Scenarios` (scenarios.dfy): worked cases proved about the model.

Functions without a row of their own are specified by the lemmas in the table:
- `IsEmpty` by `BlankIdIsEmpty` and the `ToDate` lemmas;
- `ToStr` by `IntToDecimalValue` (integers) and the scenarios `IdIsTrimmed` and `ZeroIdRejected`;
- `EmpnoOf` and `RowEmpno` by `RowEmpnoSpec`;
- `MapRow` by `MapRowSpec`, `MapRowBirthdate` and `RowEmpnoSpec`;
- `ToDate` by `ToDateIgnoresParser`, `ToDateIsoDigits`, `ToDateNull` and `ToDateIsIso`;
- `Normalize` and `NormalizeAll` by `NormalizeAllSpec`;
- `NewEmployee` by `InitializeOutcome` and `NewRowsAfterSync`;
- `Refresh`, `UpdateWhere` and `SetStatusWhereIn` by `Refreshed`, `UpdateWhereKeepsKeys`, `SetStatusKeepsKeys`, `OldRowsAfterSync` and the scenarios `UpdateA`, `UpsertAD` and `MarkBC`;
- `Upsert` by `UpsertLayout`, and `MarkMissing` by `UpsertThenMark`.

In the table below, a source cell starting with `app/` refers to `app/Http/Controllers/EmployeeSyncController.php` unless another path is given.

## Model

| member | source | states |
|---|---|---|
| Php.IndexOfKeySpec | app/Http/Controllers/EmployeeSyncController.php:281 | A key is found exactly when some entry has it, and then at its first entry. |
| Php.LookupSpec | app/Http/Controllers/EmployeeSyncController.php:281 | `array_key_exists` fails exactly when no entry has the key; otherwise it yields the value of an entry with that key. |
| Php.NatToDecimal | app/Http/Controllers/EmployeeSyncController.php:289 | The decimal form of a natural number is non-empty, has only digits and no leading zero, and is "0" exactly for 0. |
| Php.IntToDecimal | app/Http/Controllers/EmployeeSyncController.php:289 | `(string)` of an integer is non-empty, is "0" exactly for 0, and starts with '-' exactly for a negative number. |
| Php.NatToDecimalValue | app/Http/Controllers/EmployeeSyncController.php:289 | The decimal text of a natural number, read back digit by digit, is that number. |
| Php.NatToDecimalInjective | app/Http/Controllers/EmployeeSyncController.php:289 | Two natural numbers have the same decimal text exactly when they are equal. |
| Php.IntToDecimalValue | app/Http/Controllers/EmployeeSyncController.php:289 | `(string)` of an integer is an optional '-' followed by digits, and read back it is that integer. |
| Php.IntToDecimalInjective | app/Http/Controllers/EmployeeSyncController.php:289 | Two integers cast to the same string exactly when they are equal, so distinct numeric IDs give distinct keys. |
| Php.LeadingEndSpec | app/Http/Controllers/EmployeeSyncController.php:289 | The leading run that `trim` strips holds only trim characters and is maximal. |
| Php.TrailingStartSpec | app/Http/Controllers/EmployeeSyncController.php:289 | The trailing run that `trim` strips holds only trim characters and is maximal. |
| Php.TrimSpec | app/Http/Controllers/EmployeeSyncController.php:289 | `trim` yields an infix of its input. Everything cut before and after it is a trim character, and the result neither starts nor ends with one. |
| Php.TrimEnds | app/Http/Controllers/EmployeeSyncController.php:289 | The result of `trim` neither starts nor ends with a trim character. |
| Php.TrimAllBlank | app/Http/Controllers/EmployeeSyncController.php:289 | A string made only of trim characters trims to "". |
| Php.Diff | app/Http/Controllers/EmployeeSyncController.php:81 | `array_values(array_diff(a, b))` is no longer than `a`. |
| Php.DiffMembership | app/Http/Controllers/EmployeeSyncController.php:81 | An element is in `array_diff(a, b)` exactly when it is in `a` and not in `b`. |
| Php.DiffAllIn | app/Http/Controllers/EmployeeSyncController.php:213 | `array_diff(a, b)` is empty when every element of `a` is in `b`. |
| Php.DiffAppend | app/Http/Controllers/EmployeeSyncController.php:81 | `array_diff` distributes over a concatenated first argument; the order is kept. |
| Php.DiffSameElements | app/Http/Controllers/EmployeeSyncController.php:213 | `array_diff` depends only on which elements its second argument holds, so repeats in it make no difference. |
| RowMapping.GetFirstMatch | app/Http/Controllers/EmployeeSyncController.php:279-286 | `$get` returns null when no alias is present with a value other than ''. Otherwise it returns the value under the first alias that is. |
| RowMapping.MapRowSpec | app/Http/Controllers/EmployeeSyncController.php:277-320 | Each of the fourteen columns `mapRow` fills with `$get` holds the value under the first of its headers that is present and not '', or null when there is none. |
| RowMapping.MapRowBirthdate | app/Http/Controllers/EmployeeSyncController.php:291-307 | The stored birth date is `toDate` of the first date header present with a value other than '', and null when neither header is. |
| RowMapping.ToDateIgnoresParser | app/Http/Controllers/EmployeeSyncController.php:322-330 | On an empty value or on a string matching `^\d{4}-\d{2}-\d{2}$`, the result is the same whatever the date parser does. |
| RowMapping.ToDateIsoDigits | app/Http/Controllers/EmployeeSyncController.php:328-330 | Four, two and two digits joined by '-' come back unchanged. |
| RowMapping.ToDateNull | app/Http/Controllers/EmployeeSyncController.php:322-339 | The result is null exactly when the value is empty, or when it is not an ISO date and `strtotime` fails on it. |
| RowMapping.ToDateIsIso | app/Http/Controllers/EmployeeSyncController.php:322-339 | When the parser only answers with four-digit years (0000 to 9999) in `Y-m-d` form, every date `toDate` yields matches the ISO pattern (PCRE `$`, so one final newline is allowed). |
| RowMapping.RowEmpnoSpec | app/Http/Controllers/EmployeeSyncController.php:288-289 | `mapRow`'s key is null exactly when "EMPLOYEE ID NUMBER" is absent, '' or null. Otherwise it is the trimmed string of that entry, with no trim character at either end. |
| RowMapping.BlankIdTrimsToEmpty | app/Http/Controllers/EmployeeSyncController.php:288-289 | An all-blank ID becomes "" rather than null. |
| Reconcile.ClassifyRows | app/Http/Controllers/EmployeeSyncController.php:161-210 | The `foreach` loop, shared by both modes (the initialize loop at lines 42-78 is the same loop in `Initialize` mode), computes exactly `Classify`. Its counters equal the lengths of their lists and add up to the number of payload rows. |
| Reconcile.NormalizeAllSpec | app/Http/Controllers/EmployeeSyncController.php:42-52 | Payload entry `i` keeps its index. It counts as an object exactly when it is a PHP array, and then carries `mapRow` of that array. |
| Reconcile.BlankIdIsEmpty | app/Http/Controllers/EmployeeSyncController.php:55 | The model's blank-key test is PHP's `empty()` on a null-or-string key: null, '' and '0'. |
| Reconcile.ClassifyCounts | app/Http/Controllers/EmployeeSyncController.php:42-78 | Every row is counted once. created + updated + skipped = payload length, created + updated = number of accepted rows, and initialize's `updated` is 0. |
| Reconcile.ClassifyAccepted | app/Http/Controllers/EmployeeSyncController.php:64-77 | The accepted keys are pairwise distinct and are exactly the payload's non-blank keys. Accepted row `j` carries key `j`. Sync marks it ACTIVE; initialize gives it no status. Which payload row's fields it holds is given by `ClassifyMatchesVerdicts`. |
| Reconcile.ClassifyIncoming | app/Http/Controllers/EmployeeSyncController.php:183 | In sync, `$incomingEmpnosAll` is every non-blank key in payload order, repeats included; in initialize it stays empty. |
| Reconcile.ClassifySplit | app/Http/Controllers/EmployeeSyncController.php:195-204 | Initialize: `created` equals the accepted keys in payload order and `updated` is empty. Sync: `created` is the accepted keys not in the snapshot and `updated` is those in it, each in payload order. |
| Reconcile.InterMembership | app/Http/Controllers/EmployeeSyncController.php:198 | A key is in the intersection exactly when it is in both lists. |
| Reconcile.SyncSplitsAccepted | app/Http/Controllers/EmployeeSyncController.php:198-204 | In sync, a key is updated exactly when it is accepted and in the snapshot, and created exactly when it is accepted and not in it. The two lists are disjoint and together are the accepted keys. |
| Reconcile.ClassifyMatchesVerdicts | app/Http/Controllers/EmployeeSyncController.php:161-209 | The loop's skip list, accepted keys and accepted rows equal those of the per-row reference. Not an object, then missing ID, then duplicate ID are tried in that order. An accepted row is the payload row's mapped record, forced ACTIVE in sync and without a status in initialize. |
| Reconcile.ValidKeysMembership | app/Http/Controllers/EmployeeSyncController.php:185 | A key is among the earlier keys exactly when an earlier row carries it. |
| Reconcile.FirstOccurrenceWins | app/Http/Controllers/EmployeeSyncController.php:64-72 | A row with a key is accepted exactly when no earlier row had that key. Otherwise it is a duplicate skip that records the key. |
| Reconcile.AcceptedRowIsFirstOccurrence | app/Http/Controllers/EmployeeSyncController.php:185-209 | Each accepted payload row is kept next to its key with its own mapped fields. Because only a key's first row is accepted, the fields kept for a key are those of its first row. |
| Reconcile.SkipsCarryKeyOnlyForDuplicates | app/Http/Controllers/EmployeeSyncController.php:185-192 | A skip record carries a key exactly when its reason is the duplicate ID. |
| Reconcile.MissingIsExistingMinusAccepted | app/Http/Controllers/EmployeeSyncController.php:213 | In both modes `missing` is the existing keys minus the accepted keys, in the existing list's order. It holds only existing, non-accepted keys. |
| Reconcile.AcceptedIgnoresSnapshot | app/Http/Controllers/EmployeeSyncController.php:161-210 | The accepted keys and rows, the incoming keys and the skip list do not depend on the snapshot. |
| Directory.Keys | app/Http/Controllers/EmployeeSyncController.php:141-145 | `pluck('empno')->filter()` holds a key exactly when it is not null, '' or '0' and some row carries it. |
| Directory.KeysAppend | app/Http/Controllers/EmployeeSyncController.php:141-145 | The key list of two blocks of rows is the concatenation of their key lists. |
| Directory.KeysSameEmpnos | app/Http/Controllers/EmployeeSyncController.php:141-145 | The key list depends only on each row's key. |
| Directory.UpdateWhereKeepsKeys | app/Http/Controllers/EmployeeSyncController.php:240-242 | `where('empno', k)->update(row)` with a row keyed `k` changes no row's key and no key list. |
| Directory.SetStatusKeepsKeys | app/Http/Controllers/EmployeeSyncController.php:253-258 | The bulk INACTIVE update changes no mapped column and no key list. |
| Directory.Database.AppendLog | app/Http/Controllers/EmployeeSyncController.php:224-228 | Appends one log entry, journals it and leaves the employee table alone. |
| Directory.Database.Truncate | app/Http/Controllers/EmployeeSyncController.php:99 | Empties the employee table, journals it and leaves the log alone. |
| Directory.Database.Insert | app/Http/Controllers/EmployeeSyncController.php:247 | Appends one row and journals it. |
| Directory.Database.UpdateWhereEmpno | app/Http/Controllers/EmployeeSyncController.php:240-242 | Rewrites every row whose key is `k` and journals it. |
| Directory.Database.UpdateStatusWhereIn | app/Http/Controllers/EmployeeSyncController.php:253-258 | Sets the status of every row whose key is listed and journals it. |
| Writes.InsertedRows | app/Http/Controllers/EmployeeSyncController.php:103-107 | The insert loop adds one row per prepared row, in order. |
| Writes.InsertWrites | app/Http/Controllers/EmployeeSyncController.php:102-108 | The insert loop journals only table writes, no log entry. |
| Writes.UpsertWrites | app/Http/Controllers/EmployeeSyncController.php:234-249 | The sync write loop journals only table writes. |
| Writes.MarkWrites | app/Http/Controllers/EmployeeSyncController.php:252-259 | The INACTIVE step journals only table writes. |
| Writes.FreshRows | app/Http/Controllers/EmployeeSyncController.php:243-248 | Every row the write loop inserts has a key outside the snapshot. |
| Writes.FreshRowsFromRows | app/Http/Controllers/EmployeeSyncController.php:243-248 | Every row the write loop inserts is one of the prepared rows. |
| Writes.Refreshed | app/Http/Controllers/EmployeeSyncController.php:237-242 | Updates keep a row's key, password and account status. |
| Writes.UpsertLayout | app/Http/Controllers/EmployeeSyncController.php:234-249 | The write loop keeps every old row in place, each updated by the rows with its key, and appends the inserted rows, which later updates never hit. |
| Writes.RefreshedDirect | app/Http/Controllers/EmployeeSyncController.php:237-242 | With distinct keys, an old row ends up rewritten by the one prepared row with its key, or unchanged if there is none. |
| Writes.FreshKeys | app/Http/Controllers/EmployeeSyncController.php:201-204 | The inserted rows' keys are exactly `created`: the accepted keys outside the snapshot, in order. |
| Writes.KeysOfInserted | app/Http/Controllers/EmployeeSyncController.php:103-107 | Inserting rows with non-blank keys into an empty table gives exactly those keys as its key list. |
| Writes.InitializeOutcome | app/Http/Controllers/EmployeeSyncController.php:99-108 | After initialize the table holds exactly the accepted rows, in payload order, one per key and with no status. They are the per-row reference's accepted rows, so each holds the mapped fields of its key's first payload row. Its key list is the accepted keys, each once. It does not depend on what the table held before. |
| Writes.ValidKeysNonBlank | app/Http/Controllers/EmployeeSyncController.php:55-62 | No accepted key is null, '' or '0'. |
| Writes.UpsertThenMark | app/Http/Controllers/EmployeeSyncController.php:231-260 | Sync keeps every old row in place, updated and then marked, and appends the inserted rows, which the INACTIVE step never touches. |
| Writes.OldRowsAfterSync | app/Http/Controllers/EmployeeSyncController.php:231-260 | After sync no old row is deleted or moved, and none changes its key, password or account status. An accepted key's row holds the incoming fields and is ACTIVE. A missing key's row is INACTIVE and otherwise unchanged. Every other row is unchanged. |
| Writes.NewRowsAfterSync | app/Http/Controllers/EmployeeSyncController.php:243-248 | Sync appends one row per created key, in `created` order. Each is ACTIVE, has no password or account status, and holds an accepted row's fields. |
| Writes.KeysAfterSync | app/Http/Controllers/EmployeeSyncController.php:231-260 | After sync the key list is the old one followed by `created`. |
| Writes.SyncUpdatesOldRows | app/Http/Controllers/EmployeeSyncController.php:207 | `OldRowsAfterSync` for the classification loop's own accepted rows and missing keys. |
| Writes.SyncKeys | app/Http/Controllers/EmployeeSyncController.php:231-260 | For the loop's own results, sync grows the table by exactly `created` and its key list becomes the snapshot followed by `created`. |
| Writes.EveryAcceptedPresent | app/Http/Controllers/EmployeeSyncController.php:231-260 | Every accepted row has a row in the synced table with its fields and ACTIVE. |
| Writes.SyncHasEveryAccepted | app/Http/Controllers/EmployeeSyncController.php:207-209 | The same, for the classification loop's own accepted rows. |
| Writes.FirstRowsStored | app/Http/Controllers/EmployeeSyncController.php:185-248 | The first payload row carrying each key ends up in the table with its own mapped fields: ACTIVE after sync, without a status after initialize. |
| Writes.SecondSyncCreatesNothing | app/Http/Controllers/EmployeeSyncController.php:141-213 | Re-running the same sync creates nothing, accepts the same keys and reports the same `missing` list: rows marked INACTIVE stay in the table. |
| EmployeeSync.Initialize | app/Http/Controllers/EmployeeSyncController.php:17-119 | A non-array body gives the 422 message and changes nothing. Otherwise the response carries the summary and details of the classification. The same summary is logged. The journal shows the log entry, then the truncate, then one insert per accepted row. The table ends as the accepted rows. |
| EmployeeSync.InsertBatch | app/Http/Controllers/EmployeeSyncController.php:102-108 | The insert transaction appends the accepted rows in order and journals one insert each. |
| EmployeeSync.Sync | app/Http/Controllers/EmployeeSyncController.php:129-272 | A non-array body gives the 422 message and changes nothing. Otherwise the response carries summary and details, including `updated`. The same summary is logged before any table write. The table ends as `SyncedTable` of the old one. |
| EmployeeSync.ApplyBatch | app/Http/Controllers/EmployeeSyncController.php:231-260 | The sync transaction applies the upserts in order, then the INACTIVE step when `missing` is non-empty, journaling each write. |
| Scenarios.KeysABC | app/Http/Controllers/EmployeeSyncController.php:141-145 | A table holding A, B and C has key list [A, B, C]. |
| Scenarios.SyncABCWithADReport | app/Http/Controllers/EmployeeSyncController.php:161-213 | Existing keys {A, B, C} synced with rows A and D give created=[D], updated=[A], no skips and missing=[B, C]. |
| Scenarios.SyncABCWithADTable | app/Http/Controllers/EmployeeSyncController.php:231-260 | After that sync, row 0 is A rewritten with the incoming first name and ACTIVE, B and C are INACTIVE, and D is appended ACTIVE; nothing is deleted. |
| Scenarios.UpdateA | app/Http/Controllers/EmployeeSyncController.php:237-242 | The update for A rewrites A's row with the incoming fields and ACTIVE, and leaves B and C as they were. |
| Scenarios.UpsertAD | app/Http/Controllers/EmployeeSyncController.php:234-249 | Upserting A and then D rewrites row 0 and appends D. |
| Scenarios.MarkBC | app/Http/Controllers/EmployeeSyncController.php:251-258 | Marking B and C INACTIVE changes only those two rows' status. |
| Scenarios.DuplicateIdSkipped | app/Http/Controllers/EmployeeSyncController.php:64-75 | Of two rows with ID E001 and different first names, the second is skipped as a duplicate and records the ID. The first row's fields are the ones kept. |
| Scenarios.ObjectBodyIsIterated | app/Http/Controllers/EmployeeSyncController.php:19-26 | A JSON object body is a PHP array: it passes the `is_array` guard, and its members are iterated as rows. |
| Scenarios.IdIsTrimmed | app/Http/Controllers/EmployeeSyncController.php:288-289 | " E001\t" becomes "E001". |
| Scenarios.ZeroIdRejected | app/Http/Controllers/EmployeeSyncController.php:55-62 | An ID of 0 or "0" survives the alias lookup but is skipped as missing. |
| Scenarios.AliasFallback | app/Http/Controllers/EmployeeSyncController.php:279-286 | A later alias is used when the preferred header holds ''. |
| Scenarios.NullHeaderNoFallback | app/Http/Controllers/EmployeeSyncController.php:279-286 | A preferred header holding JSON null is used as it is: `$get` returns null and does not fall back to a later alias. |
| Scenarios.ZeroDateNotIso | app/Http/Controllers/EmployeeSyncController.php:322-339 | The zero date `0000-00-00 00:00:00` goes to the parser; when the parser answers `-0001-11-30`, that is the stored value, and it does not match the ISO pattern. |
| Scenarios.DatePassThrough | app/Http/Controllers/EmployeeSyncController.php:322-330 | ISO dates pass unchanged, also with one final newline. Empty values give null without calling the parser. Other strings are the parser's answer. |

## Left out

- HTTP and JSON transport are left out: the body is modelled as the decoded PHP value `all()` returns, and the response as a datatype. This covers `json_encode` of the logged payload and summary, the `status` field and the route file.
- `strtotime` and `date('Y-m-d', ...)` depend on the locale and the clock, so they are a parameter `DateParser`; `None` stands for `strtotime` returning false.
- `now()` timestamps (`created_at`, `updated_at`) and the auto-increment `id` are not modelled: they are clock reads and database bookkeeping with no logic.
- Database typing is not modelled: column lengths, the `date`, `integer` and `decimal` coercions, collation-aware key comparison (keys compare as exact strings) and write failures. `DB::transaction` is modelled as its writes applied in order; a rollback after a failed write is not.
- Concurrent requests are not modelled; the controller does not coordinate them either.
- Converting an array to a string yields "Array" here; PHP also raises a warning, which Laravel may turn into an exception.
- `mapRow` is applied to every payload entry before the loop (`NormalizeAll`) rather than inside it. This gives the same result, because it is pure.
- The request body is modelled as the value `$request->json()->all()` hands to the controller, and the framework code that produces it is not part of this model. If that code casts the decoded JSON with `(array)`, as Laravel's `Request::json()` does, `all()` is always an array. Then the 422 branch cannot be reached over HTTP, and a scalar body such as `5` is iterated as the one-row payload `[5]`, so `initialize` still truncates the table. The model keeps the guard as written and shows both branches.
- A JSON object body decodes to a PHP array, so `is_array` lets it through and its members are iterated as rows instead of being answered with 422. The model follows the code.
- A second identical sync does not report `missing = []`: the rows it marked INACTIVE stay in the table and are missing again (`Writes.SecondSyncCreatesNothing`).
- `app/Console/Commands/SyncEmployeesFromSheet.php` only fetches a sheet over HTTP and posts it; it is not part of this model.
- Writes.SyncHasEveryAccepted: it says that a matching ACTIVE row exists, not where; the positions are given by SyncUpdatesOldRows (old keys) and NewRowsAfterSync (created keys).
- RowMapping.ToDateIsIso: it assumes a parser that only yields four-digit years. `date('Y-m-d', ...)` does not: years outside 0 to 9999 give output that fails the ISO pattern, such as a five-digit year, and the zero date `0000-00-00 00:00:00` becomes `-0001-11-30` (`Scenarios.ZeroDateNotIso`).
- The existing keys are read with `pluck('empno')` and no `orderBy`, so the model takes them in table (insertion) order. That is what MySQL/InnoDB returns when it scans by the auto-increment primary key, but SQL does not promise it. The order of `missing`, and the lemmas that fix it (`Writes.KeysAfterSync`, `Scenarios.KeysABC`, `Scenarios.SyncABCWithADReport`), rely on this.
