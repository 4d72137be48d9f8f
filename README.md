# NBA Stat Hub — a Dafny model of its core

NBA Stat Hub is a small desktop application over one SQLite file. Its core has three parts.

- **Importer** (`data_importer.py`). It loads three CSV datasets: NBA advanced statistics, NBA injuries and US housing data. Each file is cleaned and reconciled into dimension and fact tables.
- **Application features** (`app_features.py`):
  - user registration, login and player predictions, with a process-wide current user;
  - three read-only analytical views;
  - a text-table formatter for query results.
- **Connection wrapper** (`db_manager.py`). A context manager that refuses statements outside a `with` block, commits on a normal exit and rolls back on an exception. Beside it sits a one-time schema setup.

## How the model is built

**Database as values.** The database is a value `Db`: one map per table, keyed by primary key (module `Database`). These pieces are written out:
- the statements the application issues;
- the two bulk conflict policies, `INSERT OR IGNORE` and `INSERT OR REPLACE` (module `Tables`);
- the three queries whose rows the application reads back.

**Connection state.** The file is a class `Disk`: whether it exists, whether the schema script has created its tables, and its committed contents. The connection wrapper is a class `DatabaseManager` with these fields:
- an open flag;
- whether the connected file has the tables;
- a transaction flag;
- `pending`, what the connection sees;
- the last rowid.

Every statement method checks the open flag first, as the source checks `_cursor`. A statement that names a table then needs the tables. `sqlite3.connect` creates an absent file with no tables at all, and there every such statement raises OperationalError ("no such table").

**Importer.** Each import is three things:
- a pure plan: the batches it sends, and how it ends;
- a function `…Run` giving the contents the connection sees afterwards;
- an imperative method over the `DatabaseManager`, proved to end exactly as the function says.

The season loop and the fact loop are `while`/`for` loops, proved against the functions that specify them. `run_importer` runs the three imports over one connection: they commit together or not at all.

**Features.** They are a class `Session` holding `CURRENT_USER_ID`. Each feature opens its own `DatabaseManager` on the shared `Disk`.

**Formatter.** `format_results` keeps the source's nested width loop over an array and its line-by-line output loop. Both are proved against a functional description of the table. Properties of the table are lemmas: widths, line count, line lengths, and column alignment.

**Parameters.** What pandas, SQLite and the operating system decide is passed in:
- cell conversions, date parsing and the view queries' results are functions;
- "the file can be opened" and "the directory exists" are booleans;
- today's date is a string.

### Where the code and its description disagree
The model follows the code in each case.

- The imports are described as independent pipelines, where one failure does not stop the others. In the code, all three run inside one `with` block (data_importer.py:288-291), and nothing catches an exception inside a pipeline. So a failure anywhere rolls back all three, and later pipelines do not run. `Importer.RunImporter` states this.
- Malformed input is described as dropped row by row. In the code, some of it raises:
  - a season label with no integer before its first '-' raises (data_importer.py:68-70);
  - a housing group whose income cells are all missing raises, from `int()` of a NaN mean (data_importer.py:264).
- `run_importer` does not call `setup_database`. When data_importer.py runs as a script (data_importer.py:297-298) and the file is absent, its connection creates the file without tables. Every import that reaches a statement then raises OperationalError. A later `setup_database` skips the file because it exists, so the tables are never created. The application itself calls `setup_database` (app_main.py:58) before `run_importer` (app_main.py:66), so there the tables exist. `Importer.RunImporter`, `Importer.RefusedImportChangesNothing` and `DbManager.SetupDatabase` state this.

## Model

| member | source | states |
|---|---|---|
| Common.Strip | data_importer.py:168 | the result has no leading or trailing white space, is no longer than the input, and text already stripped is returned unchanged; its content is fixed by `Common.StripInfix` |
| Common.TrimLeftSuffix | data_importer.py:168 | `lstrip()` keeps a suffix of the input |
| Common.StripInfix | data_importer.py:168 | `strip()` is the input between a run of leading and a run of trailing white space: with the edge clauses of `Common.Strip`, exactly the input without its surrounding white space |
| Common.Before | app_features.py:43 | the text before the first separator: a prefix without the separator, followed in the input by the separator unless it is the whole input |
| Common.Take | data_importer.py:187 | `notes[:50]`: a prefix of the text, of length min(50, length) |
| Common.ParseIntOfIntToString | data_importer.py:68 | `int(str(n)) == n` for every integer, negative ones included |
| Common.ParseIntOfNonDigit | data_importer.py:68 | stripped text that starts with a digit and has, later, a character that is neither a digit nor '_' is not an integer |
| Common.ParseIntOfGrouped | data_importer.py:68 | two runs of digits joined by one underscore read as the digits together: `int('2015_16')` is 201516 |
| Common.FormatDateRoundTrip | data_importer.py:165 | every date the import stores as 'YYYY-MM-DD' reads back as the date it was parsed to |
| Common.FormatDate | data_importer.py:165 | the stored date text is ten characters, digits with '-' at positions 4 and 7 |
| Ids.Unique | data_importer.py:58 | `unique()`: distinct values, each value of the input listed, in order of first appearance |
| Ids.DenseIds | data_importer.py:58 | the value at position k of the distinct values has id k + 1, and only input values have ids |
| Ids.DenseIdsSpec | data_importer.py:58-59 | every value gets an id, the ids are exactly 1..(number of distinct values), and different values get different ids |
| Ids.DenseIdsFollowFirstAppearance | data_importer.py:58 | a value has a smaller id than another exactly when it first appears earlier |
| Ids.FirstIndexUnique | data_importer.py:58 | a first occurrence is the position `FirstIndex` finds |
| Ids.PositionInUnique | data_importer.py:58-59 | a value's id is one more than its position among the distinct values, which lists it at its first occurrence |
| Tables.InsertOrIgnore | data_importer.py:76-80 | `INSERT OR IGNORE` batch: the keys become old ∪ batch keys, stored rows never change, and a new key gets the first row of the batch with it |
| Tables.InsertOrReplace | data_importer.py:97-101 | `INSERT OR REPLACE` batch: the keys become old ∪ batch keys, rows of keys not in the batch are kept, and every batch key holds the last row of the batch with it |
| Tables.InsertOrIgnoreIdempotent | data_importer.py:136-139 | re-running an `INSERT OR IGNORE` batch changes nothing |
| Tables.InsertOrIgnoreOfPresentKeys | data_importer.py:77 | a batch whose keys are all present leaves the table as it was |
| Tables.InsertOrReplaceIdempotent | data_importer.py:97-101 | re-running an `INSERT OR REPLACE` batch changes nothing |
| Tables.LastPairWithKey | data_importer.py:97-101 | every key of a batch has a last pair carrying it |
| Tables.ScanOrder | data_importer.py:171-172 | the row order the model assumes for a query without ORDER BY: every key once, in strictly increasing rowid order (an assumption, listed under Left out) |
| Tables.ScanIndex | data_importer.py:171-172 | every key has a position in the scan |
| Tables.NextRowId | app_features.py:39 | the rowid a new account or prediction receives is unused and larger than every existing one |
| Order.StrLessTotal | data_importer.py:236 | Python's string order compares any two different strings |
| Order.StrLessTransitive | data_importer.py:236 | Python's string order is transitive |
| Order.KeyLessTransitive | data_importer.py:236 | the (city, state) tuple order is transitive |
| Order.SortedKeys | data_importer.py:236-239 | the groups in the order `groupby` emits them: every pair once, strictly increasing by city and then state |
| Order.SortedKeysComplete | data_importer.py:236-239 | every (city, state) pair of the set is listed |
| Order.SortedKeysDistinct | data_importer.py:236-239 | no group is listed twice |
| Frames.StripColumns | data_importer.py:55 | each column name is stripped, and the rows are kept as they are |
| Frames.ColumnIndex | data_importer.py:59 | the position of the first column with the name, or none exactly when the name is absent |
| Frames.Column | data_importer.py:59 | `df[name]`: KeyError(name) exactly when the column is absent, otherwise each row's cell in that column, in row order |
| Frames.SeriesColumn | data_importer.py:58-62 | `df[name].unique()`: KeyError when the column is absent, AttributeError exactly when several columns share the name, otherwise that column's cells |
| Frames.IndicesWhere | data_importer.py:164 | the positions kept by a filter, in increasing order, every kept position included |
| Database.PlayerNameRows | data_importer.py:171-172 | the bio query returns each player's name and id, in the assumed scan order of `Tables.ScanOrder`: increasing id |
| Database.PlayerNameRowsComplete | data_importer.py:171-172 | every player has a row in the bio query |
| Database.AccountsWithEmail | app_features.py:66-67 | the account query is empty exactly when no account has the email |
| Database.AccountsWithEmailFirst | app_features.py:66-67 | the first row of the account query is the first account in the scan with the email, with its stored hash |
| Database.ContainsOccurs | app_features.py:90-91 | `LIKE '%fragment%'` containment holds exactly when the fragment occurs at some position of the name |
| Database.PlayersLikeFirst | app_features.py:90-91 | the player query is empty exactly when no name matches; otherwise its first row is the first matching player in the scan |
| DbManager.SetupDatabase | db_manager.py:12-34 | an existing file is left alone, with or without its tables; a missing schema raises FileNotFoundError and creates nothing; otherwise the new file holds every table, empty |
| DbManager.TablesRefusal | db_manager.py:62 | a statement that names a table is refused exactly when the file has no tables, with OperationalError |
| DbManager.DatabaseManager.constructor | db_manager.py:54-57 | a new manager has no connection and no transaction |
| DbManager.DatabaseManager.Enter | db_manager.py:59-69 | a connection that cannot be made raises and changes nothing; otherwise the connection sees the committed contents and whether the file has the tables, and an absent file is created empty and without tables |
| DbManager.DatabaseManager.Exit | db_manager.py:71-80 | commits the pending contents after a normal exit, keeps the committed ones after an exception, and is closed afterwards in both cases |
| DbManager.DatabaseManager.Begin | db_manager.py:82-85 | does nothing without a connection, raises on a nested BEGIN, otherwise opens a transaction |
| DbManager.DatabaseManager.Commit | db_manager.py:87-90 | the pending contents become the committed ones; without a connection nothing changes |
| DbManager.DatabaseManager.Rollback | db_manager.py:92-95 | the pending statements are discarded; without a connection nothing changes |
| DbManager.DatabaseManager.Execute | db_manager.py:97-102 | AttributeError without a cursor, OperationalError without the tables; otherwise the statement takes effect and reports its rowid, or fails leaving the contents as they were |
| DbManager.DatabaseManager.ExecuteMany | db_manager.py:104-108 | AttributeError without a cursor, OperationalError without the tables; otherwise the batch is applied |
| DbManager.DatabaseManager.FetchAll | db_manager.py:110-115 | AttributeError without a cursor, OperationalError without the tables; otherwise every row of the query over what the connection sees |
| DbManager.DatabaseManager.FetchView | db_manager.py:110-115 | a query whose rows SQLite computes: AttributeError without a cursor, OperationalError without the tables, otherwise the query's own result |
| DbManager.DatabaseManager.FetchOne | db_manager.py:117-122 | AttributeError without a cursor, OperationalError without the tables; otherwise the first row of the query, or none when it has no rows |
| DbManager.DatabaseManager.FetchLastInsertRowId | app_features.py:39 | AttributeError without a cursor; otherwise the rowid of the last successful insert |
| StatsImport.SeasonId | data_importer.py:66-73 | a missing season label raises ValueError('nan') |
| StatsImport.SeasonIdOfInteger | data_importer.py:68 | a label that is an integer is its own season id |
| StatsImport.SeasonIdOfRange | data_importer.py:70 | a label 'YYYY-…' such as '2015-16' has the id of its first year |
| StatsImport.SeasonIdOfGrouped | data_importer.py:68 | a label such as '2015_16' is an integer to `int()`, so its id is 201516, not its first year |
| StatsImport.RangeIsNotInteger | data_importer.py:68-70 | such a label is not an integer as a whole, so the fallback is taken |
| StatsImport.RowsInOrder | data_importer.py:66-73 | a walk that succeeds yields one row per label |
| StatsImport.RowsInOrderSpec | data_importer.py:66-73 | the walk over labels succeeds exactly when every label has a row, yields those rows in order, and otherwise fails with the error of the first label that has none |
| StatsImport.RowsInOrderOfFailedPrefix | data_importer.py:66-73 | once a prefix of the labels fails, the whole walk fails the same way |
| StatsImport.SeasonRows | data_importer.py:73 | `season_data` has one pair per distinct season label |
| StatsImport.SeasonRowsSpec | data_importer.py:66-73 | each label's pair is (its season id, its label) on success; any label without an id makes the loop fail |
| StatsImport.SeasonIdMap | data_importer.py:72 | every label is a key of `season_id_map` |
| StatsImport.SeasonIdMapValues | data_importer.py:72 | every key of `season_id_map` is a label mapped to the id of one of its rows |
| StatsImport.SeasonIdMapIds | data_importer.py:72 | after a successful loop, every label maps to its own season id |
| StatsImport.SeasonTablesStep | data_importer.py:66-73 | one more label either appends its pair and records its id, or ends the loop with its error |
| StatsImport.SeasonTablesOfFailedPrefix | data_importer.py:66-73 | the season loop's first error is the import's error |
| StatsImport.MapSeasons | data_importer.py:66-73 | the season loop builds `season_data` and `season_id_map`, or stops with the first error |
| StatsImport.BioRows | data_importer.py:84-95 | one bio row per distinct player, under ids 1..k |
| StatsImport.BioRowsWritten | data_importer.py:84-101 | after the write, every player of the file holds the row of its first occurrence under its dense id: its age (possibly missing) as birth date, its position or 'N/A', and salary 0 |
| StatsImport.StatColumns | data_importer.py:105-106 | the stat columns are exactly the columns not in the ignore list, in column order |
| StatsImport.RowFacts | data_importer.py:126-132 | a row gives at most one fact per stat column |
| StatsImport.RowIds | data_importer.py:123-124 | each row's player and season ids are those its labels map to |
| StatsImport.ConcatMembers | data_importer.py:119-132 | a fact is in the accumulated list exactly when it is in one row's facts |
| StatsImport.FactsByRow | data_importer.py:119-132 | row i contributes the facts of its own cells, under its own ids |
| StatsImport.RowFactsMembers | data_importer.py:126-132 | a fact is in a row's list exactly when one of its stat cells is present and reads as a number |
| StatsImport.FactsMembers | data_importer.py:119-132 | `fact_advanced_data` holds a fact exactly when some row and some stat column give it; missing or non-numeric cells are skipped one by one |
| StatsImport.CollectFacts | data_importer.py:119-132 | the fact loop accumulates the facts row by row, in row-major then stat-id order |
| StatsImport.CollectRowFacts | data_importer.py:126-132 | the inner loop yields the row's facts in stat-id order |
| StatsImport.StatColumnIndices | data_importer.py:127 | each stat is read from a column of that name; facts are collected this way only when the names are distinct or there are no rows (`StatsImport.PassingStatsDistinct`) |
| StatsImport.ReadStats | data_importer.py:55-73 | the reading part, when it succeeds, gives every row a player and a season label with an id |
| StatsImport.PlanStats | data_importer.py:42-140 | when statements are refused the import raises and writes nothing, and once the file is read the error is the refusal |
| StatsImport.PlanWrites | data_importer.py:84-140 | the part after the season batch sends no seasons |
| StatsImport.PassingStatsDistinct | data_importer.py:84-127 | an import that passes over a file with rows had one column each for player, season, age and pos, and no stat name twice; repeated names raise |
| StatsImport.ApplyStats | data_importer.py:76-139 | only seasons, players, stat types and facts change; an empty plan changes nothing |
| StatsImport.StatsRun | data_importer.py:42-140 | `import_nba_stats` changes only its four tables, and when its statements are refused it changes nothing and fails |
| StatsImport.StatsRunStable | data_importer.py:76-139 | running the stats import again over what the first run wrote changes nothing and ends the same way |
| StatsImport.ImportNbaStats | data_importer.py:42-50 | a file that could not be loaded is skipped; otherwise the connection ends as `StatsRun` says |
| StatsImport.ImportStatsFrame | data_importer.py:52-140 | a loaded file ends as the plan says |
| StatsImport.ReadStatsFrame | data_importer.py:55-73 | strips the columns, reads the player and season columns, and runs the season loop, as `ReadStats` says |
| StatsImport.WriteStats | data_importer.py:76-140 | the season batch needs a cursor and the tables; the rest follows as planned |
| StatsImport.WriteBiosAndFacts | data_importer.py:84-140 | a missing `age` or `pos` column stops the import after the seasons, and so does a repeated one when there are rows, with ValueError; otherwise the bios are replaced, then stat types and facts follow |
| StatsImport.WriteStatTypesAndFacts | data_importer.py:104-140 | stat types with ids 1..n are inserted OR IGNORE; then, when there are rows and two stat columns share a name, ValueError from `if pd.notna(value)` of a Series; otherwise the collected facts are inserted OR IGNORE |
| Frames.RenameColumns | data_importer.py:162 | `rename(columns=...)` maps every column name through the renaming, keeps the order of the columns and leaves the rows untouched |
| InjuryImport.Reports | data_importer.py:164-168 | the surviving rows are exactly those with a name and a parseable date, in file order, with their original positions, stripped names and parsed dates |
| InjuryImport.NameIndex | data_importer.py:174 | a NULL bio name makes building the index raise AttributeError |
| InjuryImport.NameIndexOk | data_importer.py:174 | the index exists exactly when every fetched name is present |
| InjuryImport.NameIndexKeys | data_importer.py:174 | every fetched name, stripped, is a key |
| InjuryImport.NameIndexLastRow | data_importer.py:174 | every key maps to the id of the last fetched row with that stripped name |
| InjuryImport.NamedPlayerIndexed | data_importer.py:171-174 | every named player is in the index built from the bio table |
| InjuryImport.IndexedNameOfPlayer | data_importer.py:171-174 | a name several players share resolves to the one fetched last: the largest id, under the assumed scan order |
| InjuryImport.NameIndexOfPlayers | data_importer.py:171-176 | the index knows exactly the stripped names of the bio table |
| InjuryImport.Matched | data_importer.py:176-177 | the kept reports are exactly those whose name is in the index, in file order |
| InjuryImport.InjuryRowsFails | data_importer.py:181-192 | building the rows fails exactly when some report matches and there is no notes column, with KeyError('notes') |
| InjuryImport.InjuryRowsSound | data_importer.py:181-192 | every row written comes from a matched report: key position + 1, the player's id, 'YYYY-MM-DD' date, no return date, notes cut to 50 or 'Unknown', full notes or '', and the dataset citation |
| InjuryImport.InjuryRowsComplete | data_importer.py:181-192 | every matched report is written |
| InjuryImport.InjuryRowsOrdered | data_importer.py:183 | report ids strictly increase in file order, so no two collide |
| InjuryImport.ReadInjuries | data_importer.py:158-168 | the reports read keep the file order |
| InjuryImport.PlanInjuries | data_importer.py:146-199 | a failed import, or one whose statements are refused, sends no rows |
| InjuryImport.PlanMatches | data_importer.py:171-199 | when statements are refused (no cursor, or no tables) the bio query raises that error and nothing is sent |
| InjuryImport.InjuriesRun | data_importer.py:146-199 | `import_nba_injuries` changes only the injury table, keeps every stored report, and changes nothing when it fails |
| InjuryImport.InjuriesRunStable | data_importer.py:195-199 | running the injury import again, with the same bios, changes nothing and ends the same way |
| InjuryImport.ImportNbaInjuries | data_importer.py:146-154 | a file that could not be loaded is skipped; otherwise the connection ends as `InjuriesRun` says |
| InjuryImport.WriteInjuries | data_importer.py:171-199 | the bio query, the name index and the batch insert end as `PlanMatches` says |
| HousingImport.RenamedColumnPresent | data_importer.py:228-233 | a present column is present under its new name |
| HousingImport.ReadHousing | data_importer.py:220-233 | the four renamed columns, one cell per file row |
| HousingImport.GroupValues | data_importer.py:236-238 | a group has at most one value per row |
| HousingImport.GroupKeysCover | data_importer.py:236-241 | every row with a city and a state lands in a listed group |
| HousingImport.GroupKeysSound | data_importer.py:236-241 | every listed group has a row, and the groups are listed in strictly increasing order |
| HousingImport.SumOverGroupsTotal | data_importer.py:236-239 | over distinct groups covering every keyed row, the group totals add up to the total over the keyed rows |
| HousingImport.PopulationConserved | data_importer.py:236-239 | grouping loses and double-counts no population: the group sums add up to the population of every row with a city and a state |
| HousingImport.Trunc | data_importer.py:263-264 | `int()` of a number truncates toward zero |
| HousingImport.CityLabels | data_importer.py:243 | each group's label is city + '-' + state |
| HousingImport.CityLabelInjective | data_importer.py:243-245 | when no state contains '-', different groups get different labels |
| HousingImport.CityLabelCollision | data_importer.py:243-245 | otherwise two different groups can share a label, and so a city id |
| HousingImport.CityIds | data_importer.py:244-245 | every group's label has a city id |
| HousingImport.CityIdsShared | data_importer.py:244-245 | two groups share a city id exactly when they share a label |
| HousingImport.CityIdsRange | data_importer.py:244 | city ids run from 1 to at most the number of groups |
| HousingImport.CityRows | data_importer.py:248-251 | one city row per group |
| HousingImport.CityRowsSpec | data_importer.py:248-251 | each group's city row has its city id, city, state and country 'USA' |
| HousingImport.DemographicsRowsFail | data_importer.py:260-268 | the demographics rows fail exactly when some group has no income at all, with ValueError |
| HousingImport.DemographicsRowsSpec | data_importer.py:260-268 | each group's row has its city id, truncated population sum, truncated mean income and poverty rate 0.0 |
| HousingImport.PlanHousing | data_importer.py:223-273 | a file without the four columns is skipped without error; without a cursor or without the tables the city batch raises; a failure sends no demographics |
| HousingImport.HousingRun | data_importer.py:207-273 | `import_housing_data` changes only the two city tables and keeps every stored row; a skipped or refused run changes nothing |
| HousingImport.HousingRunStable | data_importer.py:252-273 | running the housing import again changes nothing and ends the same way |
| HousingImport.HousingRunStores | data_importer.py:260-273 | after a successful run, a new city id holds the demographics of the first group with that label |
| HousingImport.HousingRunPasses | data_importer.py:260-273 | a run that passes built every demographics row and inserted them all |
| HousingImport.ImportHousingData | data_importer.py:207-226 | a file that could not be loaded is skipped; otherwise the connection ends as `HousingRun` says |
| HousingImport.WriteHousing | data_importer.py:247-273 | the city batch, then the demographics batch, or the demographics error with the cities already sent |
| Importer.StatsStep | data_importer.py:289 | the stats step changes only its four tables |
| Importer.InjuriesStep | data_importer.py:290 | the injury step changes only the injury table |
| Importer.HousingStep | data_importer.py:291 | the housing step changes only the two city tables |
| Importer.ImportKeepsUserData | data_importer.py:288-291 | the importer never touches accounts, profiles or predictions |
| Importer.StatsStepStable | data_importer.py:289 | the stats step is stable under a re-run |
| Importer.InjuriesStepStable | data_importer.py:290 | the injury step is stable under a re-run |
| Importer.HousingStepStable | data_importer.py:291 | the housing step is stable under a re-run |
| Importer.ImportAllStable | data_importer.py:279-291 | importing the same files a second time leaves the file as the first import left it, and ends the same way |
| Importer.RefusedImportChangesNothing | data_importer.py:279-291 | in a file without the tables nothing is imported, and a loaded stats file makes the whole import raise |
| Importer.RunImporter | data_importer.py:279-291 | without the datasets directory nothing changes; a failed connection raises; otherwise an absent file is created without tables, and the three imports, refused in a file without tables, commit together or not at all |
| Importer.RunImports | data_importer.py:288-291 | stats, then injuries, then housing; the first that raises ends the block |
| Accounts.RegisterFailure | app_features.py:49-52 | every failure is reported as unsuccessful, an integrity error as 'already registered' |
| Accounts.RegisterTakenEmail | app_features.py:35-36 | a taken email is refused with an integrity error |
| Accounts.RegisterNewEmail | app_features.py:32-45 | on a consistent database a new email registers: exactly one account and its profile, named by the text before '@', are added under a fresh id |
| Accounts.ProfileInserted | app_features.py:42-43 | the profile goes in under the new account's id |
| Accounts.RegisterKeepsValid | app_features.py:31-45 | registration keeps emails unique and gives every account exactly one profile |
| Accounts.AddAccountKeepsValid | app_features.py:35-43 | an account with an unused email, added with its profile, keeps the database consistent |
| Accounts.AccountFound | app_features.py:66-67 | the account query finds a row exactly when the email is taken, and its first row is an account with that email |
| Accounts.LoginFinds | app_features.py:66-74 | an unknown email never logs in; a known one logs in exactly when the found account's hash equals the password's |
| Accounts.LoginOnSpec | app_features.py:66-71 | on a consistent database, login succeeds as `id` exactly when `id` is the account with that email and that hash |
| Accounts.LoginUnknownEmail | app_features.py:69-74 | an unknown email never logs in |
| Accounts.LoginAfterRegister | app_features.py:22-76 | registering and then logging in with the same credentials logs in as the new account |
| Accounts.FirstMatch | app_features.py:90-96 | the player found is a player in the table |
| Accounts.SubmitWith | app_features.py:93-103 | no player found ends it; a user without an account is refused by the foreign key; otherwise exactly one prediction is added, for the found player, under a fresh id |
| Accounts.PlayerFound | app_features.py:90-96 | the search finds nothing exactly when no name contains the trimmed query; otherwise it finds the matching player with the smallest id, under the assumed scan order |
| Accounts.NoPlayerLike | app_features.py:90-94 | the scan is empty exactly when no player matches |
| Accounts.FirstPlayer | app_features.py:90-96 | the first row of a non-empty search is a matching player, and no smaller id matches, under the assumed scan order |
| Accounts.NoMatchBefore | app_features.py:90 | no player scanned before the first match matches |
| Accounts.Session.constructor | app_features.py:10 | the session starts with no user logged in |
| Accounts.Session.CurrentUser | app_features.py:14-16 | returns the logged-in user |
| Accounts.Session.Register | app_features.py:22-52 | empty credentials are refused without touching the file; in a file without the tables the insert raises OperationalError; otherwise the account and its profile are committed together or not at all, and every failure becomes a message |
| Accounts.Session.Login | app_features.py:56-76 | the current user becomes the account found with a matching hash, or none; a connection failure, or a file without the tables, leaves it unchanged with an error message; committed contents never change |
| Accounts.Session.SubmitPrediction | app_features.py:80-108 | without a user nothing is written; in a file without the tables the player query raises; otherwise the prediction about the first matching player is committed, or nothing is |
| Accounts.Submit | app_features.py:88-108 | the body of the `with` block: without the tables the player query raises OperationalError; otherwise the submission ends as `SubmitWith` says |
| Accounts.Record | app_features.py:93-108 | the found player's prediction is committed, or a refused insert is rolled back |
| Analytics.RunView | app_features.py:123-142 | a view returns its rows with its header; any failure, a file without the tables included, gives no rows and the same header; nothing committed changes |
| Analytics.TopAdvancedStat | app_features.py:116-142 | header [Player Name, '<stat> Value', Rank]; no rows on failure |
| Analytics.MostInjuredPlayers | app_features.py:144-170 | header [Player Name, Total Injuries, Injury Rank]; no rows on failure |
| Analytics.DemographicsSummary | app_features.py:172-195 | header [City, State, Median Household Income, Population]; no rows on failure |
| Format.Repeat | app_features.py:211 | `'-' * w`: w copies of the character |
| Format.LJust | app_features.py:215 | `ljust(w)`: the text padded with spaces to width w, or unchanged when it is longer |
| Format.Widths | app_features.py:205 | one width per header item |
| Format.FormatResults | app_features.py:199-226 | the result is the table described by `Formatted` |
| Format.ColumnWidths | app_features.py:204-208 | the nested loop computes every column's width, or fails exactly when some row is longer than the header |
| Format.ColumnWidthNext | app_features.py:206-208 | scanning one more row widens each column to that row's item |
| Format.Render | app_features.py:210-223 | the output is the table's lines joined by '\n', with no trailing newline |
| Format.FormattedOutcome | app_features.py:201-208 | the no-data message is returned exactly when there are no rows, and IndexError exactly when some row is longer than the header |
| Format.ColumnWidthIsMax | app_features.py:204-208 | each column is as wide as its widest entry, header included, and no wider |
| Format.WidthsBound | app_features.py:204-208 | every header item and every cell fits its column |
| Format.JoinWithLength | app_features.py:211 | a joined string is as long as its parts plus one separator between each two |
| Format.SeparatorLength | app_features.py:211 | the separator is sum(widths) + 3·columns + 1 long |
| Format.RowLineLength | app_features.py:215 | a full row line is sum(widths) + 3·columns + 1 long |
| Format.RowLinesLength | app_features.py:219-222 | every full data row line has that same length |
| Format.LineLengths | app_features.py:210-223 | with full rows: the table has rows + 4 lines, all sum(widths) + 3·columns + 1 long (4 with no columns) |
| Format.OutputLineCount | app_features.py:210-226 | with no newline in any item, the output holds rows + 3 newlines |
| Format.JoinWithAt | app_features.py:215 | each part of a joined string starts after the earlier parts and their separators |
| Format.CellAt | app_features.py:215-221 | in a row line, item j sits at its column's offset, left-justified to its column's width |
| Format.ColumnsAligned | app_features.py:214-222 | header and data items of column j all start at the same offset, each padded to the column's width |

## Left out
- CSV reading (`pd.read_csv`) is left out. A loaded file is a `Frame` of optional text cells, and a file that is missing or cannot be parsed is `None`.
- `str()` of items is left out. The formatter receives items already converted to text.
- `pd.to_datetime` is a parameter `parseDate` returning an optional date.
- `float()` of a stat cell is a parameter `toFloat`.
- The number a housing cell holds is a parameter `toReal`.
- Floating-point rounding is left out: the population sum and the income mean are exact reals.
- pandas' `groupby` is modelled as sorting the groups by city, then state.
- `LIKE` is modelled as case-insensitive containment for ASCII letters. The `%` and `_` wildcards inside a query string are left out.
- Analytics.TopAdvancedStat: the ranking, joining and `LIMIT` of the SQL query are not modelled. The query's result is a parameter, and only the fallback and the header are stated.
- Analytics.MostInjuredPlayers: the grouping and ranking query is a parameter, for the same reason.
- Analytics.DemographicsSummary: the `PRINTF` formatting and ordering query is a parameter, for the same reason.
- SHA-256 (`hash_password`) is an opaque deterministic function held by the session.
- Accounts.Session.Register: the text of an internal error (`{e}`) is a parameter `describe` of `Accounts.Text`. Only the error kind is modelled.
- `DATE('now')` is a parameter `today`.
- `print` and logging are left out.
- `os.makedirs` is left out. Whether the datasets directory and the schema file exist are booleans.
- The PRAGMA and `row_factory` are left out.
- SQLite's file locking is left out.
- The schema script's own failure modes are left out: `SetupDatabase` treats a present schema file as one that applies cleanly.
- SQLite constraints beyond email uniqueness, the account–profile link and the prediction foreign keys are left out. The batch inserts are taken as not failing.
- Tables.ScanOrder: the row order of a query without ORDER BY is taken to be increasing rowid order, the order of a full table scan. SQLite does not promise it, and a plan that uses an index would give another order.
- Database.PlayerNameRows: its increasing id order rests on that assumption.
- Accounts.PlayerFound: "the smallest id" rests on that assumption; which player a search finds is otherwise up to SQLite.
- Accounts.FirstPlayer: "no smaller id matches" rests on that assumption.
- InjuryImport.IndexedNameOfPlayer: "the largest id" rests on that assumption; which player a shared name resolves to is otherwise up to SQLite.
- Common.ParseInt: Unicode decimal digits other than 0-9, which `int()` also accepts, are not integers here.
- Frames.Column: when several columns share a name, it reads the first of them. The stats import raises where pandas does (`Frames.SeriesColumn`, `StatsImport.PassingStatsDistinct`). The injury and housing imports take their renamed column names to be distinct.
- A file with only part of the schema is not modelled: a file has all the tables or none.
- Concurrency and the GUI (`gui_logic.py`, `app_main.py`) are not part of this model.
