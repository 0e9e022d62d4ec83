# Network monitor: main server core

A Dafny model of the storage and query core of the network monitor's main
server (`main_server.py`). Remote agents POST traffic reports (upload and
download rates). The server accepts a report only from an address on an
allow-list file. It stores the report only while a saving-status file says
`enabled`. Each sender gets its own sample table, named `traffic_` followed by
its address with dots turned into underscores. Two read paths query the
stored samples: the latest sample for every allow-listed address, and a
time-windowed history for one address.

SQLite is replaced by a value `SampleStore.Db`, which holds two things:

- a directory of senders, mapping each address to its hostname and first-seen time;
- a map from table name to the sequence of rows appended to that table.

Inside the request handlers the same store is the class
`MainServer.MonitorStore`, whose two map fields the handlers update in place.
The clock is an integer number of seconds, passed in as `now`. The two
configuration files are passed in as values: the allow-list is the file's
lines (`None` when the file is absent), and the saving status is the file's
content (`None` when absent).

Modules, from the bottom up:

- `Outcomes`: `Option` and the HTTP outcome `Status`.
- `Text`: Python's `str.strip()`. It removes every character `str.isspace()`
  accepts, including the Unicode spaces.
- `AccessPolicy`: `is_server_allowed` and `is_db_saving_enabled`.
- `TenantSchema`: the table-name derivation.
- `SampleStore`: the store as a value, plus these operations on it:
  - register a sender;
  - create a table if it does not exist (`CREATE TABLE IF NOT EXISTS`);
  - append a sample;
  - the latest-sample query for one address;
  - the history window.
- `ReportGateway`: the decision flow of `receive_report` as a function on
  the store, and what a series of reports does to it.
- `MainServer`: the class with `EnsureServerTable`, `ReceiveReport` and the
  `GetLatestData` loop. Each method is proved against the functions above.

Where the code and the system's written design disagree, the model follows
the code:

- **History of a missing table.** The design says the history of an address
  with no table is an empty sequence. The code answers 404
  (main_server.py:217-218), and `SampleStore.History` returns `NotFound`.
- **Table names can collide.** The design calls for a table-name derivation
  that never collides. The code makes the name by plain character
  substitution, so `10.0.0.1` and `10_0_0_1` share a table.
  `TenantSchema.TableNameCollision` proves this. `TenantSchema.TableNameInjective`
  proves the name is unique among addresses without `_`, which covers every
  IPv4 address.

## Model

| member | source | states |
|---|---|---|
| Text.Strip | main_server.py:74 | `line.strip()`: the result is empty or begins and ends with a non-whitespace character |
| Text.StripDecompose | main_server.py:84 | every string is leading whitespace, then its stripped part, then trailing whitespace |
| Text.StripPadded | main_server.py:74 | stripping whitespace padding off a trimmed string gives that string back, so the decomposition is unique |
| Text.StripIff | main_server.py:74 | `strip()` gives `t` exactly when `t` is trimmed and the input is `t` with only whitespace around it |
| Text.StripIdempotent | main_server.py:74 | stripping twice is the same as stripping once |
| AccessPolicy.AllowedServers | main_server.py:74 | one entry per line of the list file, each that line stripped, so none begins or ends with whitespace |
| AccessPolicy.IsServerAllowed | main_server.py:69-76 | allowed exactly when the list file exists and some stripped line equals the address; fails closed without the file; an allowed address never begins or ends with whitespace |
| AccessPolicy.AllowedIff | main_server.py:69-76 | an address is allowed exactly when it is trimmed and some line of the list is that address with only whitespace around it (both directions) |
| AccessPolicy.IsDbSavingEnabled | main_server.py:79-86 | fails closed when the status file is absent; a file holding exactly `enabled` enables saving |
| AccessPolicy.SavingEnabledIff | main_server.py:79-86 | saving is enabled exactly when the status file exists and holds `enabled` with only whitespace around it; fails closed without the file |
| TenantSchema.ReplaceDots | main_server.py:54 | `replace('.', '_')`: same length, every `.` becomes `_`, every other character is kept in place, and no `.` is left |
| TenantSchema.TableName | main_server.py:54 | the name is `traffic_` followed by the address with every `.` turned into `_`: it has the address's length plus 8, contains no `.`, puts `_` where the address has `.`, and keeps every other character in place |
| TenantSchema.TableNameRoundTrip | main_server.py:54 | for an address without `_`, the address can be read back from its table name |
| TenantSchema.TableNameInjective | main_server.py:54 | two `_`-free addresses with the same table name are equal |
| TenantSchema.TableNameCollision | main_server.py:54 | `10.0.0.1` and `10_0_0_1` are distinct yet derive the same table name |
| SampleStore.RegisterSender | main_server.py:111-118 | a sender row is added only for a new address, with the given hostname and time; existing rows and all tables are unchanged |
| SampleStore.EnsureTable | main_server.py:54-62 | afterwards the sender's table exists; it is new and empty exactly when it was missing; the directory and every other table are unchanged |
| SampleStore.EnsureTableIdempotent | main_server.py:55-62 | creating the table a second time changes nothing |
| SampleStore.AppendSample | main_server.py:124-125 | exactly one row is added, at the end of the named table, with the current time, the next row id and the two rates; nothing else changes; sequential row ids stay sequential |
| SampleStore.Newest | main_server.py:180-181 | the chosen row has the largest timestamp in the table, and no later-inserted row has the same timestamp |
| SampleStore.LatestFor | main_server.py:170-191 | `no_data` exactly when the address's table is missing or empty; otherwise a row of that table whose timestamp is maximal |
| SampleStore.Cutoff | main_server.py:224 | the window's lower bound is never after now, and with the default of 24 hours it is 86400 seconds before now |
| SampleStore.Window | main_server.py:221-224 | every row kept is at or after the cutoff; every row of the table at or after the cutoff is kept as many times as it is stored |
| SampleStore.WindowPositions | main_server.py:221-224 | the window is a subsequence of the table: its rows occur in the table at increasing positions |
| SampleStore.WindowKeepsOrder | main_server.py:221-225 | filtering a table in time order gives rows in time order |
| SampleStore.SortByTime | main_server.py:225 | `ORDER BY timestamp`: the result is in ascending time order and is a permutation of its input |
| SampleStore.SortSortedIsIdentity | main_server.py:225 | sorting rows that are already in time order leaves them unchanged |
| SampleStore.History | main_server.py:199-235 | checks are made in a fixed order: not allowed gives `Forbidden`; otherwise a missing table gives `NotFound`; otherwise `Ok`, with exactly the window's rows (each as often as it is stored) in ascending time order, and `hours` defaulting to 24 |
| SampleStore.HistoryOfSortedTable | main_server.py:213-226 | for a table in time order, the history is exactly the window, in table order |
| SampleStore.WindowCoversAll | main_server.py:224 | a window reaching back past every row returns the whole table |
| SampleStore.WindowPastAll | main_server.py:224 | a window starting after every row returns nothing |
| ReportGateway.WellFormed | main_server.py:93 | the shape check: a body is present and has both `upload` and `download`; `MalformedRejectedFirst` states what failing it does |
| ReportGateway.HostnameOf | main_server.py:116 | `data.get('hostname', 'unknown')`: `unknown` only when the member is missing; a JSON `null` becomes SQL NULL; a given string is kept |
| ReportGateway.Persist | main_server.py:106-125 | the saving path: the address is in the directory afterwards, the sender's table exists afterwards, and it has grown by exactly one row |
| ReportGateway.Submit | main_server.py:88-134 | one report: bad request exactly when the body is malformed; forbidden exactly when it is well-formed and the sender is not allowed; the store changes only on success |
| ReportGateway.SubmitEach | main_server.py:88-134 | reports submitted one after another; when the sender is not allowed or saving is off, the store is unchanged after any number of them |
| ReportGateway.MalformedRejectedFirst | main_server.py:93-94 | a body that is missing, or lacks `upload` or `download`, is a bad request whatever the list and toggle say, and the store is unchanged |
| ReportGateway.UnauthorizedRejected | main_server.py:100-102 | a well-formed report from an address not on the list is forbidden; the store is unchanged |
| ReportGateway.DisabledSavingDiscards | main_server.py:105-134 | an allowed report with saving disabled succeeds and the store is unchanged |
| ReportGateway.AcceptedReportPersists | main_server.py:105-129 | with saving enabled: a sender row is added only for a new address (hostname defaults to `unknown`, first seen now); the sender's table gains exactly one sample at its end; every other table is untouched |
| ReportGateway.StoreChangesOnlyWhenSaved | main_server.py:93-134 | the store changes exactly when the report is well-formed, the sender is allowed and saving is enabled |
| ReportGateway.SubmitKeepsValid | main_server.py:112-125 | every report keeps the store invariant: row ids are sequential, and every table belongs to a registered sender |
| ReportGateway.SavedReportAppendsOne | main_server.py:121-125 | one saved report adds exactly one row to the sender's table |
| ReportGateway.SavedReportKeepsOthers | main_server.py:121-125 | one saved report leaves every other table as it was |
| ReportGateway.SubmitEachAppends | main_server.py:121-125 | N saved reports from one sender add exactly N rows to its table, in order, with consecutive ids |
| ReportGateway.SubmitEachFrame | main_server.py:121-125 | N saved reports from one sender leave every other table as it was |
| ReportGateway.NewestOfSortedIsLast | main_server.py:180-181 | in a table in time order, the latest row is the last one inserted |
| ReportGateway.QueriesOnReadings | main_server.py:170-191 | for a table holding readings in time order: the latest entry is the last reading; a window reaching back to the first returns them all; a window starting after the last returns none |
| ReportGateway.RepeatedReports | main_server.py:88-235 | a new allowed sender reports N readings with saving enabled and the clock never going back: its table holds exactly those N rows; the latest query returns the N-th; the history returns all N in order, or none for a later window |
| MainServer.MonitorStore.constructor | main_server.py:35-42 | the server starts with no senders and no sample tables, and the store invariant holds |
| MainServer.MonitorStore.EnsureServerTable | main_server.py:49-66 | for a registered sender, returns the derived table name; the new store is `EnsureTable` of the old one and the store invariant is kept |
| MainServer.MonitorStore.RegisterServer | main_server.py:111-118 | the in-place directory insert leaves the store equal to `RegisterSender` of the old one and keeps the store invariant |
| MainServer.MonitorStore.InsertSample | main_server.py:124-125 | the in-place row insert leaves the store equal to `AppendSample` of the old one and keeps the store invariant |
| MainServer.MonitorStore.SaveReport | main_server.py:106-129 | the in-place saving path (register, ensure the table, append) leaves the store equal to `Persist` of the old one and keeps the store invariant |
| MainServer.MonitorStore.ReceiveReport | main_server.py:88-134 | the status and the new store are exactly those of `Submit` on the old store; the store invariant is kept |
| MainServer.MonitorStore.GetLatestData | main_server.py:155-194 | no list file gives `NotFound` with no data; otherwise `Ok`, with an entry exactly for every stripped line of the list, each equal to `LatestFor` that address |

## Left out

- The Flask layer is not modelled: routing, `request`, `jsonify`, and the JSON shape of replies. Outcomes are the `Status` datatype and the rows are values.
- The parsing of the `hours` query argument (main_server.py:207) is not modelled. `hours` is a parameter that defaults to 24.
- Negative `hours` is not modelled: `hours` is a `nat`.
- `get_servers` (main_server.py:136-153) is not part of this model.
- The `index` endpoint (main_server.py:240-251) is not part of this model.
- Logging (main_server.py:12-16, and every `logging` call) has no effect on the store and is left out.
- Reading the two configuration files is left out. Their contents are parameters, and `readlines` is assumed to have split the list file already.
- `init_db` (main_server.py:27-46) is left out. The constructor starts from the empty store it creates.
- SQLite connections, commits and transactions are not modelled. The model saves a new sender's first report. Reading the code, the real server likely cannot (nothing was executed). Python's `sqlite3` opens a transaction implicitly before the INSERT into `servers` (main_server.py:117), so the report's connection then holds the database write lock. `ensure_server_table` runs its CREATE TABLE on a second connection (main_server.py:50-55). For a table that does not exist yet, that statement needs the same lock. So for a brand-new sender it would wait out the default 5-second busy timeout, fail with "database is locked", and the request would end in a 500 with the INSERT rolled back, on every attempt. A sender whose table already exists is not affected.
- The SQL text built with f-strings is not modelled. So are its injection issues, and what SQLite does with a table name that is not a plain identifier (for example an IPv6 address containing `:`).
- The existence check on `sqlite_master` is modelled as exact membership of the name among the table keys.
- Exception-to-500 paths are left out. The model's store never fails, so there is no storage-error outcome.
- Upload and download rates are opaque `real` values carried through unchanged. JSON `null` or non-numeric rates are not modelled.
- The report body is modelled only as a JSON object whose `upload` and `download` members are present or missing, and whose `hostname` is missing, `null` or a string. Other bodies are not modelled. On a JSON string or list, `'upload' in data` (main_server.py:93) is a substring or element test, so a body such as `"uploaddownload"` or `["upload", "download"]` passes the shape check. It then gets 403, or success with saving off, or a 500 from `data.get` or `data['upload']` inside the `try` with saving on. A falsy body (`0`, `0.0`, `false`, `""`, `[]`, `{}`, `null`) is caught by `not data` and gets 400 like a missing one. A truthy number or `true` reaches the `in` test at line 93 and raises there, outside the `try`.
- A `hostname` that is neither a string nor `null` is not modelled. A number or boolean is bound as a number and stored as text in the `TEXT` column. A list or an object cannot be bound by `sqlite3`. So for a new sender the INSERT at main_server.py:117-118 raises inside the `try`, the request ends in the 500 of line 132, and nothing is saved.
- `CURRENT_TIMESTAMP` and the `datetime('now', ...)` comparison are an integer clock in seconds. The sender's first-seen time and the sample's timestamp are the same `now`.
- Concurrent requests are not modelled, including the race between two create-if-not-exists calls.
- SampleStore.Newest: SQL does not fix which row wins a tie on the newest timestamp. The model picks the one inserted last.
- SampleStore.History: it promises no order among rows with equal timestamps, because `ORDER BY timestamp` does not fix one either. Its body still sorts stably, so tied rows come out in insertion order.
- SampleStore.HistoryOfSortedTable, ReportGateway.QueriesOnReadings, ReportGateway.RepeatedReports: these admit equal timestamps. Readings in the same second are realistic, since `CURRENT_TIMESTAMP` has one-second resolution. Their table-order conclusions hold only for the model's own tie-breaks: the stable sort for the history, and last-inserted for the latest row. For rows sharing a timestamp, SQLite may return another order in the history, and another of the tied rows as the latest. With strictly increasing times the conclusions are the only possible answers.
- The `id` of a `servers` row (AUTOINCREMENT) is not modelled; the code only checks that the row exists.
