# Flat-file record store and its controllers

This project models the CSV record store behind a Minecraft server manager. Records live in a data file whose header names the schema. An index file holds one line per filed key with its data line and tombstone flag. The process keeps an in-memory index that maps each key to that pair. Deletion is soft: a `deleted` column is set to 1 and the index is rebuilt. `vacuum` compacts the file.

Three details of the code are easy to miss, and the model keeps them: the constructor appends `deleted` to the schema before it checks the key column (src/data/database/database.py:24-25); `vacuum` returns `None`; and `rebuild_index` files tombstoned keys too, with flag 1 (src/data/database/database.py:126-130).

On top of the store sit:
- the server repository, which projects and merges server settings;
- the user repository, which stores a password hash per user name;
- two controllers. They validate registration and password changes, compute page metadata, and turn store errors into booleans or messages.

The model is functional:
- both files are sequences of rows, and a row is a `map<string, string>`;
- a call that can raise returns a `Step` with the state it left and the error it raised;
- `Consistency.Consistent` is the invariant tying the index to the data file: every row is filed at its own line under its own key, and every index entry names a row with that key and flag.

Modules:
- `Results`: `Option`, `Result` and the error kinds.
- `Text`: Python's `str(n)`, `int(s)` and `s.strip()`.
- `Store`: the `Database` class.
- `Consistency`: the invariant and which operations keep it.
- `StoreFindings`: concrete stores that exhibit the load defect and the synthetic-key collision.
- `Paging`: floor division and page counts.
- `UserRepo`, `ServerRepo`: the repositories.
- `Controller`: src/controller/controller.py.
- `UserController`: src/controller/user.py.

## Model

| member | source | states |
|---|---|---|
| Store.OpenWith | src/data/database/database.py:19-25 | the constructor appends `deleted` before checking the key column, so it fails exactly when the key column is neither a given field nor `deleted`; on success the files found (or empty ones) and the loaded index are kept |
| Store.Open | src/data/database/database.py:55-86 | construction with the corrected loader: fails exactly as the constructor does, otherwise the index files every key the index file mentions |
| Store.OpenAsWritten | src/data/database/database.py:74-86 | construction with `_load_index` as written: every entry of the loaded index has flag 0, tombstones are dropped |
| Store.LoadActiveIndex | src/data/database/database.py:84 | the as-written loader keeps only logged keys, all with flag 0, and keeps every key that some flag-0 line mentions |
| Store.LoadIndex | src/data/database/database.py:84 | the loader that keeps every line files exactly the keys the index file mentions |
| Store.WriteRow | src/data/database/database.py:99-103 | the written row has exactly the schema's fields and keeps every value the record gives for them |
| Store.AtomicRewrite | src/data/database/database.py:88-111 | a successful rewrite writes no more rows than it read, each with exactly the schema's fields |
| Store.RebuildIndex | src/data/database/database.py:113-130 | the scan completes exactly when every row's flag parses, and then writes one index line per row |
| Store.InsertKey | src/data/database/database.py:137-142 | a given key other than `None` is used as is; a record without the key column, or whose key is the text `None`, gets `str(len(index) + 1)` |
| Store.Insert | src/data/database/database.py:132-156 | a raise leaves the store untouched; a key already indexed raises DuplicateKey; a new key fails exactly when a field lies outside the schema; success appends one row and files the key at line `len(index)`, leaving every other entry as it was |
| Store.Get | src/data/database/database.py:158-176 | nothing for an absent or tombstoned key; for any other flag, the data row at the indexed line when the file has that line, and nothing when it does not |
| Store.SelectActive | src/data/database/database.py:178-189 | `get_all` fails exactly when some row's flag does not parse, and then with BadFlag |
| Store.SelectKeepsOrder | src/data/database/database.py:183-189 | the rows `get_all` returns are exactly the rows at the flag-0 lines, each once, in file order |
| Store.SelectedAreActive | src/data/database/database.py:186-188 | every row `get_all` returns has flag 0 |
| Store.GetAll | src/data/database/database.py:178-189 | fails, with BadFlag, exactly when some flag does not parse; otherwise lists the rows at exactly the flag-0 lines, in file order |
| Store.Update | src/data/database/database.py:191-208 | NotFound for an absent or tombstoned key, then KeyImmutable when the updates name the key column; a raise leaves the store untouched; success changes only the rows and keeps their number |
| Store.Delete | src/data/database/database.py:210-227 | an absent or tombstoned key is a silent no-op; key column and schema are kept and no rows are added |
| Store.Drop | src/data/database/database.py:229-241 | both files and the index are emptied, schema and key column kept |
| Store.Count | src/data/database/database.py:243-248 | the count never exceeds the number of index entries, and equals it exactly when every entry has flag 0 |
| Store.Vacuum | src/data/database/database.py:250-263 | schema kept, no rows added, and on success one index line per remaining row |
| Text.DecimalRoundTrip | src/data/database/database.py:128 | `int(str(n)) == n`, so a flag written as text reads back as the number |
| Text.ParseIgnoresSpace | src/data/database/database.py:128 | `int()` reads a number with whitespace on either side as the number itself |
| Text.StripEmptyIffBlank | src/controller/user.py:21 | `password.strip() == ""` holds exactly for all-whitespace passwords |
| Consistency.ConsistentFacts | src/data/database/database.py:52-53 | a consistent store has distinct row keys, 0/1 flags, and indexes exactly the rows' keys |
| Consistency.ConsistentSize | src/data/database/database.py:148 | a consistent store has one index entry per data row, so `len(index)` is the line an appended row lands on |
| Consistency.LoadIndexAppend | src/data/database/database.py:153 | loading an index file with one more line files that line's entry over the rest |
| Consistency.LoadActiveIndexAppend | src/data/database/database.py:84 | as written, one more index line files its entry when its flag is 0 and is skipped otherwise |
| Consistency.ActiveLoadAgrees | src/data/database/database.py:84 | the as-written loader agrees with the line-keeping loader on every key whose last line has flag 0 |
| Consistency.ActiveLoadIsFull | src/data/database/database.py:84 | when no key's last index line is a tombstone, the as-written loader loads the whole index |
| Consistency.RebuildKeys | src/data/database/database.py:126-130 | over distinct keys and readable flags the rebuild completes with one entry per row |
| Consistency.RebuildEntries | src/data/database/database.py:126-130 | the rebuild files every row, tombstones included, as (its line, its flag) |
| Consistency.RebuildLogLines | src/data/database/database.py:124-130 | the rebuilt index file lists the scanned rows in file order, each with its key, line and flag |
| Consistency.RebuildLog | src/data/database/database.py:74-86 | a load of the rebuilt index file that keeps every line gives back the rebuilt in-memory index |
| Consistency.RebuildResolves | src/data/database/database.py:126-130 | every entry the rebuild files names a row with that key and flag |
| Consistency.RebuiltConsistent | src/data/database/database.py:113-130 | rows with distinct keys and 0/1 flags are consistent with their rebuilt index |
| Consistency.ConsistentIsRebuilt | src/data/database/database.py:113-130 | on a consistent store the rebuild reproduces the index already in memory |
| Consistency.OpenFresh | src/data/database/database.py:61-72 | a store opened on missing files is empty, consistent, and counts 0 |
| Consistency.ReopenRestores | src/data/database/database.py:19-86 | with the corrected loader, reopening the files of a consistent store gives back exactly that store |
| Consistency.ColdReopenRestoresIff | src/data/database/database.py:74-86 | as written, reopening the files of a consistent store gives that store back exactly when it holds no tombstone |
| Consistency.InsertAppends | src/data/database/database.py:144-155 | a successful insert filed a new key inside the schema and appended its stored form |
| Consistency.StoredFormReads | src/data/database/database.py:147-152 | the appended row holds the key, flag 0, and every field of the record |
| Consistency.InsertKeepsConsistent | src/data/database/database.py:132-156 | a successful insert keeps the store consistent and adds one to the count |
| Consistency.InsertThenGet | src/data/database/database.py:158-176 | after an insert `get` of the new key answers with its stored form and every other key answers as before |
| Consistency.GetFindsActive | src/data/database/database.py:163-175 | on a consistent store `get` finds exactly the active keys, each with its own row |
| Consistency.RewriteKeepsEveryRow | src/data/database/database.py:97-105 | a rewrite whose step writes every row writes one line per row, in order |
| Consistency.RewriteRejectsUnknown | src/data/database/database.py:99-103 | one written row with a field outside the schema fails the whole rewrite |
| Consistency.MergeRewrite | src/data/database/database.py:202-207 | with updates inside the schema the `update` rewrite merges into the matching rows and copies the others |
| Consistency.UpdateOutcome | src/data/database/database.py:196-207 | for an active key and updates without the key column, `update` succeeds exactly when the updates stay inside the schema, and otherwise raises UnknownField |
| Consistency.UpdateRewrites | src/data/database/database.py:202-207 | `update` replaces only the key's row, by that row with the updates merged in; row count and order are kept |
| Consistency.UpdateKeepsConsistent | src/data/database/database.py:191-208 | an update that keeps the flag needs no rebuild: the store stays consistent and the count is unchanged |
| Consistency.UpdateThenGet | src/data/database/database.py:191-208 | after an update `get` of the key answers with the old row merged with the updates; other keys are unchanged |
| Consistency.DeleteRewrites | src/data/database/database.py:221-222 | the soft delete rewrites only the key's row, with `deleted` set to 1 |
| Consistency.DeleteTombstones | src/data/database/database.py:210-227 | deleting an active key raises nothing, keeps the row in place as a tombstone, files the key as (line, 1), and rewrites the index file from the rows |
| Consistency.DeleteKeepsConsistent | src/data/database/database.py:210-248 | after a delete the store is consistent, `get` of the key is nothing, and the count dropped by one |
| Consistency.VacuumRewriteIsGetAll | src/data/database/database.py:257-262 | the vacuum rewrite writes exactly what `get_all` returns |
| Consistency.SelectAllActive | src/data/database/database.py:183-189 | rows that are all active are returned whole |
| Consistency.VacuumKeepsActive | src/data/database/database.py:250-263 | vacuum succeeds exactly when `get_all` does, and then the file holds exactly the active rows |
| Consistency.VacuumIdempotent | src/data/database/database.py:250-263 | a second vacuum leaves the store as the first one did |
| Consistency.VacuumConsistent | src/data/database/database.py:250-263 | vacuum of a consistent store raises nothing and leaves it consistent |
| Consistency.VacuumCompacts | src/data/database/database.py:243-263 | after vacuum the row count equals the count, which is unchanged |
| Consistency.CountIsActiveRows | src/data/database/database.py:243-248 | on a consistent store the count equals the number of rows `get_all` returns |
| Consistency.DropEmpties | src/data/database/database.py:229-241 | after `drop` the store is consistent, counts 0, and finds nothing |
| StoreFindings.TombstonedRows | src/data/database/database.py:210-227 | insert then delete of `a` leaves one tombstoned row and one index line with flag 1 |
| StoreFindings.ColdReopenForgets | src/data/database/database.py:84 | as written, reopening those files yields an empty index over one row, which is not consistent |
| StoreFindings.ColdReopenMisaddresses | src/data/database/database.py:84 | as written, inserting `b` after that reopen succeeds, and `get("b")` answers with the tombstoned row of `a` |
| StoreFindings.WarmReopenFindsInsert | src/data/database/database.py:74-86 | corrected, the reopen restores the store and `get("b")` answers with the row of `b` |
| StoreFindings.ReopenThenInsert | src/data/database/database.py:74-156 | corrected, reopening any consistent store then inserting behaves as inserting without the reopen |
| StoreFindings.SyntheticKeyCollides | src/data/database/database.py:137-145 | a record without a key, inserted after a caller-given key `"2"`, draws the synthetic key `"2"` and raises DuplicateKey without touching the files |
| Paging.FloorDiv | src/controller/controller.py:48 | Python's `//` rounds toward negative infinity, for either sign of divisor |
| Paging.PageCount | src/controller/controller.py:48 | `(total + limit - 1) // limit` raises exactly for a zero limit |
| Paging.PageCountIsCeiling | src/controller/controller.py:48 | for a positive limit the page count is the ceiling of total / limit |
| Paging.CeilingUnique | src/controller/controller.py:48 | the ceiling is the only page count with that property |
| Paging.Listing | src/controller/controller.py:45-56 | the unclamped metadata fails exactly for limit 0 and otherwise reports page, limit and total as given |
| Paging.NegativeLimitAccepted | src/controller/controller.py:45-56 | a negative limit is not rejected and gives page counts that are not ceilings |
| Paging.ClampedListing | src/controller/user.py:47-60 | the clamped metadata never fails and replaces a limit of 0 or below by 5 |
| Paging.ClampedListingPages | src/controller/user.py:48-52 | the clamped page count is the ceiling of total / limit |
| UserRepo.Open | src/data/repositories/user.py:5-12 | with the corrected loader: the user store is keyed by `username` over `username`, `password_hash` and `deleted`, holds the rows found, and indexes every logged key |
| UserRepo.Insert | src/data/repositories/user.py:14-22 | a raise leaves the store as it was; on a user store the insert raises exactly when the key is already indexed, tombstoned or not |
| UserRepo.Get | src/data/repositories/user.py:24-25 | nothing for an absent or deleted name; on a consistent store a row comes back exactly for an active user, and it is that user's row |
| UserRepo.IsUsernameTaken | src/data/repositories/user.py:27-28 | a name never stored is free; on a consistent store a name is taken exactly when it is indexed with flag 0 |
| UserRepo.Count | src/data/repositories/user.py:36-37 | on a consistent store, the number of user rows `get_all` lists |
| UserRepo.VerifyPassword | src/data/repositories/user.py:39-47 | false for a user `get` does not find, otherwise the hash check against the stored hash |
| UserRepo.InsertThenFind | src/data/repositories/user.py:14-22 | a stored user is found under its name with the hash and flag 0, and the count grows by one |
| ServerRepo.Open | src/data/repositories/server.py:4-10 | with the corrected loader: the server store is keyed by `id` over the sixteen server fields and `deleted`, holds the rows found, and indexes every logged key |
| ServerRepo.Insert | src/data/repositories/server.py:12-13 | a raise leaves the store as it was; a new key is refused only for a field outside the sixteen settings; on a consistent store the server is then found under its key |
| ServerRepo.Get | src/data/repositories/server.py:15-16 | nothing for an absent or deleted id; on a consistent store the answer is falsy exactly when no active server has the id |
| ServerRepo.Delete | src/data/repositories/server.py:29-30 | an absent or deleted id changes nothing; on a consistent store an active server is tombstoned, the store stays consistent, `get` no longer finds it and the count drops by one |
| ServerRepo.Count | src/data/repositories/server.py:46-47 | on a consistent store, the number of server rows `get_all` lists |
| ServerRepo.InsertThenDelete | src/data/repositories/server.py:12-30 | a server inserted is found with the count one higher; deleting it hides it and restores the count |
| ServerRepo.Properties | src/data/repositories/server.py:32-41 | nothing exactly when `get` finds nothing; otherwise the record without `id`, `name` and `deleted`, values unchanged |
| ServerRepo.PropertiesOfServer | src/data/repositories/server.py:32-41 | a stored server's properties are exactly its fourteen settings |
| ServerRepo.UpdateAsWritten | src/data/repositories/server.py:21-24 | a server `get` does not find raises not-found before the store is called |
| ServerRepo.UpdateAsWrittenAlwaysRaises | src/data/repositories/server.py:21-27 | as written every update raises not-found or KeyImmutable and leaves the store as it was |
| ServerRepo.Update | src/data/repositories/server.py:21-24 | corrected update: a server `get` does not find raises not-found before the store is called |
| ServerRepo.UpdateOutcomes | src/data/repositories/server.py:21-27 | corrected, the update of a stored server succeeds exactly when the data stays inside the schema, otherwise raises UnknownField with the store unchanged |
| ServerRepo.UpdateMerges | src/data/repositories/server.py:26-27 | corrected, `get` afterwards answers with the stored record merged with the data, `id` kept; other servers unchanged |
| Controller.RegisterUser | src/controller/controller.py:22-32 | a taken name answers false without inserting; a raise leaves the store as it was |
| Controller.RegisterFreshName | src/controller/controller.py:22-32 | a free name registers and is then found with its hash |
| Controller.ReRegisterAfterDelete | src/controller/controller.py:22-32 | a deleted name counts as free, yet registering it again raises DuplicateKey |
| Controller.UsersPage | src/controller/controller.py:45-56 | the user page metadata fails exactly for limit 0 and reports the user count |
| Controller.ServersPage | src/controller/controller.py:95-106 | the server page metadata fails exactly for limit 0 and reports the server count |
| Controller.PagesCoverActiveRows | src/controller/controller.py:45-56 | with a positive limit the pages reported cover exactly the active rows |
| Controller.UpdateUser | src/controller/controller.py:58-65 | false, with the store unchanged, for an absent or tombstoned user or an update of the name |
| Controller.UpdateUserApplies | src/controller/controller.py:58-65 | an update of a stored user inside the schema answers true and is visible to `get` |
| Controller.DeleteUser | src/controller/controller.py:67-74 | an absent or already deleted user answers true with the store unchanged |
| Controller.DeleteUserRemoves | src/controller/controller.py:67-74 | deleting a stored user answers true, hides the user and lowers the count by one |
| Controller.UpdateServerAsWritten | src/controller/controller.py:108-115 | a server `get` does not find answers false |
| Controller.UpdateServerAsWrittenFails | src/controller/controller.py:108-115 | with the repository's update as written, every server update answers false and changes nothing |
| Controller.UpdateServer | src/controller/controller.py:108-115 | corrected: a server `get` does not find answers false |
| Controller.UpdateServerReports | src/controller/controller.py:108-115 | corrected, a stored server's update answers true exactly when the data stays inside the schema |
| Controller.DeleteServer | src/controller/controller.py:117-124 | an absent or already deleted server answers true with the store unchanged |
| Controller.DeleteServerRemoves | src/controller/controller.py:117-124 | deleting a stored server answers true, hides it and lowers the count by one |
| Controller.StartServer | src/controller/controller.py:129-136 | the not-found message for a server `get` does not find, the started message otherwise |
| Controller.MessagesDiffer | src/controller/controller.py:132-136 | the two messages never coincide |
| Controller.StartServerIffStored | src/controller/controller.py:129-136 | the started message is given exactly for an active server |
| UserController.RegisterUser | src/controller/user.py:16-34 | false without inserting for a taken name or an unacceptable password; a raise leaves the store as it was |
| UserController.RegisterPasswordRule | src/controller/user.py:21-27 | for a free name the answer is false exactly for a blank password or one under six characters |
| UserController.RegisterStores | src/controller/user.py:29-34 | a free name with an acceptable password answers true and is then found with its hash |
| UserController.UsersPage | src/controller/user.py:47-60 | the metadata reports the user count and replaces a limit of 0 or below by 5 |
| UserController.UsersPageCovers | src/controller/user.py:48-52 | the page count is the ceiling of the user count over the clamped limit |
| UserController.UpdatePasswordAsWritten | src/controller/user.py:62-74 | a blank or short new password, or a failing old password, answers `"error"` with the store unchanged |
| UserController.UpdatePasswordAsWrittenNeverChanges | src/controller/user.py:62-88 | as written no password is ever changed: the store is left as it was, and a permitted change answers False |
| UserController.UpdatePassword | src/controller/user.py:62-74 | corrected change: the same refusals, checked in the same order |
| UserController.UpdatePasswordChanges | src/controller/user.py:62-88 | corrected, a permitted change succeeds, keeps the store consistent, stores the new hash, and later checks use it |
| UserController.DeleteUser | src/controller/user.py:90-93 | a user `get` does not find answers false with the store unchanged |
| UserController.DeleteUserReports | src/controller/user.py:90-101 | on a consistent store the answer is true exactly for a stored user, who is then hidden, and the count drops by one |
| UserController.VacuumUsers | src/controller/user.py:106-107 | `vacuum_users` leaves the user store exactly as it was |
| UserController.VacuumUsersKeepsTombstones | src/controller/user.py:106-107 | with a deleted user present, the store keeps more rows than the store's own `vacuum` would |

## Left out

- File handles, CSV quoting and escaping, and the temporary-file move are not modelled. Each file is a sequence of rows, and a successful rewrite replaces the rows in one step.
- Logging and the colour log set-up in the constructor are left out. They have no effect on the state.
- `_initialize_files` is folded into construction: a missing file reads as an empty one.
- The store defines no `get_page`, `close`, `__enter__` or `__exit__`, yet the callers use them.
  - The paginators are modelled for their page metadata only.
  - The context-manager use in src/data/repositories/user.py is taken as a plain construction.
  - `close` is not modelled.
- bcrypt hashing and checking are parameters. `hash` is the already hashed text, and `checkpw` is an arbitrary function.
- src/controller/user.py imports a legacy `database.repositories.user` module. That module is not part of this model; these controllers are modelled over src/data/repositories/user.py.
- `authenticate_user`, `get_user`, `count_users`, `get_server` and `count_servers` are one-line delegations to modelled repository calls.
- `get_all` of both repositories delegates unchanged to `Store.GetAll`.
- `vacuum_users` and `vacuum_servers` in src/controller/controller.py call `Store.Vacuum` and return its `None`.
- `create_server` is left out. It inserts through `ServerRepo.Insert` and returns a success message naming the server, or the text of the exception the insert raised; Python's exception texts are not modelled.
- `dump_database` is left out: it writes a zip archive of the store files.
- Text.ParseInt: Python's `int()` also accepts underscores between digits and non-ASCII decimal digits. The model reads such a `deleted` value as unparsable, which raises BadFlag. The store itself writes only `0` and `1`, but `update` writes whatever `deleted` text its caller passes.
- Store.KeyOf: a row without the key column has the key `""` in the model. Python's `row[self.key_column]` raises KeyError there (src/data/database/database.py:127, 203). Every row the store writes has all schema fields, so only a file written by another program lacks the column.
- UserRepo.Open, ServerRepo.Open: both repositories are opened with the corrected loader `Store.Open`, not with `_load_index` as written. The loader as written is `Store.OpenAsWritten`, and `Consistency.ColdReopenRestoresIff` states when the two differ.
- Store.OpenWith: the constructor appends `deleted` to the caller's own list object (src/data/database/database.py:24-25). The model builds a new schema value instead, so a second construction over the same list, which would carry two `deleted` entries, is not represented. Both repositories pass a fresh list literal.
- Store.OpenWith: the index file is read as a sequence of well-formed entries. A malformed index line makes `int(line)`, `int(deleted)` or the three-name unpacking raise ValueError, which escapes the constructor because only FileNotFoundError and StopIteration are caught (src/data/database/database.py:84-85); the model has no such failure.
- Store.Get: Python pairs the raw CSV values with `self.schema` (src/data/database/database.py:173-175), while the model returns the row keyed by the file's header. The two differ only when the header is not the schema.
- Store.Delete: its contract only bounds the result. What it does to a consistent store is stated by `Consistency.DeleteTombstones` and `Consistency.DeleteKeepsConsistent`. An index rebuild failing on a bad flag after the update is possible only outside that invariant.
- UserRepo.VerifyPassword: requires the user store's shape, because the source reads `password_hash` from the row without a check.

## Findings

| source | as written | input that shows it | evidently intended | confidence | as-written member | corrected member |
|---|---|---|---|---|---|---|
| src/data/database/database.py:84 | `_load_index` keeps only index lines with flag 0, while `insert` files a new key at line `len(index)` | fresh files, `insert({"id": "a"})`, `delete("a")`, reopen, `insert({"id": "b"})`: `b` is filed at line 0, and `get("b")` answers with the deleted row of `a` | the reload keeps tombstoned entries, as `rebuild_index` does, so `len(index)` equals the row count | not executed | StoreFindings.ColdReopenMisaddresses | StoreFindings.WarmReopenFindsInsert |
| src/data/repositories/server.py:26-27 | `update` merges the data into the full stored record and passes it, `id` included, to the store's `update` | any stored server and any data: the store raises because the key column is named, and `update_server` answers false | pass the changed fields without the key column | not executed | ServerRepo.UpdateAsWrittenAlwaysRaises | ServerRepo.UpdateMerges |
| src/controller/user.py:76-79 | the password change passes `{"username", "password"}` to the store's `update` | a stored user, the right old password and a new password of six or more characters: the store raises because the key column is named, and the call returns False | set `password_hash` to the hash of the new password | not executed | UserController.UpdatePasswordAsWrittenNeverChanges | UserController.UpdatePasswordChanges |
