# Hardware telemetry collector — a Dafny model

This project models the core of a Windows monitoring agent and the dashboard helpers that read its data.

The agent samples hardware sensors (temperature, power, load, clock, video memory) and per-process usage every 30 seconds. It stores them in a three-table SQLite file, `metrics.db`:

- `component`, keyed by serial number;
- `component_statistic`, keyed by (serial number, timestamp);
- `process`, keyed by (pid, timestamp).

The model covers four source files.

- **Storage engine** (`OpenHardwareMonitor/DatabaseHelper.cs`), module `DatabaseHelper`.
  - The class `Database` holds the connection flag, the set of created tables and the three tables as maps.
  - Its methods carry the helper's argument checks and insert semantics: insert-or-ignore for components, insert-or-replace for statistics, a plain insert for processes.
  - It also models clear-all, the idempotent close, and the bounded linear-backoff retry loop that the DDL and the clear use.
- **Collector** (`OpenHardwareMonitor/Program.cs`), module `Program`. It covers:
  - the lifetime argument;
  - serial-number resolution with its SHA-256 fallback;
  - the per-hardware sensor fold;
  - the per-item persist step with failure isolation;
  - the process loop;
  - one whole collection cycle;
  - the command-line loop of `Main` and what each command does to the store.
- **Logger** (`OpenHardwareMonitor/Logger.cs`), module `Logger`. It covers:
  - the level filter;
  - the entry format;
  - rotation of the active log past 5 MiB;
  - clean-up that keeps the ten greatest archive names, with the in-place sort of the listing;
  - the acquire, skip and release discipline of the global mutex around each write.
- **Dashboard helpers** (`Display/db_interface.py`), module `DbInterface`. It covers:
  - `rebuild_path`;
  - the debug-level to database-path table;
  - the six-hour backup rule;
  - the effect of `create_backup` on the folder, modelled as a set of file names;
  - the grouping of joined rows into the dictionary the graphs read, with the empty-result sentinel.

Support modules:

- `Wrappers`: Option, Result, Outcome.
- `Text`: .NET white space, ordinal substring search and ordering, join and split, decimal numerals.
- `Utf8`: the encoder behind `Encoding.UTF8.GetBytes`.
- `CivilTime`: Python `datetime` and the `%Y_%m_%d_%H` stamp.

How values are represented:

- Sensor and counter readings are opaque `real` values.
- Timestamps are DateTime ticks.
- Lifetimes are whole days.
- A database engine error is a boolean input per call (or per attempt, for the retried statements).
- The hardware list, the sensors, the WMI answers, the process list and SHA-256 are inputs.

Some behaviour of the code differs from what the system is documented to do. The model follows the code:

- A duplicate `(pid, timestamp)` process insert is documented to replace the row. The code issues a plain `INSERT` against `PRIMARY KEY (pid, timestamp)`, so the duplicate fails (DatabaseHelper.cs:56 and 171). `Database.InsertProcess` rejects it and leaves the table unchanged.
- The storage engine is documented to compute `end_of_life` from the lifetime. In the code the helper takes the `endOfLife` value as an argument. The caller's value is the timestamp plus the lifetime, as Program.cs:287 logs it (`Program.EndOfLife`).
- Every write is documented to go through the retry policy. In the code only the three `CREATE TABLE` statements and the three `DELETE`s retry; inserts fail on the first engine error.
- A sampling tick is documented to be dropped while a cycle is running. The code takes a blocking `lock`, so ticks queue. Timers are not modelled.

## Model

| member | source | states |
|---|---|---|
| DatabaseHelper.RunWithRetry | OpenHardwareMonitor/DatabaseHelper.cs:227-243 | A statement is tried at most `maxRetries + 1` times. The call returns at the first success. Every earlier attempt failed. It fails exactly when all attempts fail. The k-th sleep is 100·k ms. |
| DatabaseHelper.BackoffTotal | OpenHardwareMonitor/DatabaseHelper.cs:237-240 | n retries sleep 100·n(n+1)/2 ms in total. With the default three retries a statement is given up after 600 ms of backoff. |
| DatabaseHelper.Database.constructor | OpenHardwareMonitor/DatabaseHelper.cs:9 | Before any call there is no connection and no table. The store satisfies the row rules and the foreign key. |
| DatabaseHelper.Database.InitializeDatabase | OpenHardwareMonitor/DatabaseHelper.cs:12-64 | It opens the connection and creates component, component_statistic and process in that order. Each creation is retried. The first table whose retries run out stops the sequence with InitializationFailure. Rows are untouched. |
| DatabaseHelper.Database.ComponentExists | OpenHardwareMonitor/DatabaseHelper.cs:66-88 | A blank serial is an argument error before the store is touched. With a connection and no engine error, the answer is whether a row with exactly that serial exists. An engine error is OperationFailure. |
| DatabaseHelper.Database.InsertComponent | OpenHardwareMonitor/DatabaseHelper.cs:90-120 | A blank serial, then a blank device type, is refused first. After that it is insert-if-absent: an existing serial keeps its first attributes and a new serial gets the given ones. The other tables are outside its frame. |
| DatabaseHelper.ExistsAfterInsert | OpenHardwareMonitor.Tests/DatabaseHelperTests.cs:56-81 | On an empty component table a valid serial is reported absent. After InsertComponent of it, it is reported present. |
| DatabaseHelper.InsertTwiceKeepsFirst | OpenHardwareMonitor/DatabaseHelper.cs:101-103 | Inserting one serial twice with different attributes keeps the first write's attributes. |
| DatabaseHelper.Database.InsertComponentStatistic | OpenHardwareMonitor/DatabaseHelper.cs:122-162 | A blank serial or machine state is refused. Otherwise the row under (serial, timestamp) is replaced by the new values, including the given end of life, and every other row stays. |
| DatabaseHelper.Database.InsertProcess | OpenHardwareMonitor/DatabaseHelper.cs:164-189 | There is no argument check. A new (pid, timestamp) adds exactly one row. An existing key or an engine error fails with OperationFailure and leaves the table as it was. |
| DatabaseHelper.Database.ClearDatabase | OpenHardwareMonitor/DatabaseHelper.cs:191-208 | The three tables are deleted in order, each with retries. On success all three are empty. On failure the tables before the failing one are empty, the rest are unchanged, and the error is OperationFailure. |
| DatabaseHelper.Database.CloseConnection | OpenHardwareMonitor/DatabaseHelper.cs:210-225 | Afterwards there is no connection. A second call changes nothing. |
| Program.Wrap32 | OpenHardwareMonitor/Program.cs:169-171 | C#'s unchecked `int` product: always in 32-bit range, and equal to the true product when that fits. |
| Program.ParseDecimal | OpenHardwareMonitor/Program.cs:163-164 | `int.TryParse` accepts the numeral of any n < 2³¹ and gives back n. |
| Program.ParseLifetimeUnits | OpenHardwareMonitor/Program.cs:160-171 | "N" followed by d, w, m or y is N, 7N, 30N or 365N days. A count beyond TimeSpan's range is an overflow. |
| Program.ParseLifetimeErrors | OpenHardwareMonitor/Program.cs:157-172 | Each of the three refusals happens exactly when its cause holds: a blank argument, a prefix `int.TryParse` rejects, or a last character outside d/w/m/y. |
| Program.ParseLifetimeAsWrittenErrors | OpenHardwareMonitor/Program.cs:157-172 | The parser as written, which Main uses, refuses for exactly the same three causes. |
| Program.ParseLifetimeThirtyDays | OpenHardwareMonitor/Program.cs:168 | "30d" is 30 days. |
| Program.ParseLifetimeTwoWeeks | OpenHardwareMonitor/Program.cs:169 | "2w" is 14 days. |
| Program.ParseLifetimeOneYear | OpenHardwareMonitor/Program.cs:171 | "1y" is 365 days. |
| Program.ParseLifetimeUnknownUnit | OpenHardwareMonitor/Program.cs:172 | "5x" is refused for its unit. |
| Program.ParseNumeral | OpenHardwareMonitor/Program.cs:160-171 | On a numeral plus unit, the as-written parser returns the wrapped product and the corrected one the exact product. |
| Program.AsWrittenAgrees | OpenHardwareMonitor/Program.cs:166-171 | The as-written and corrected parsers agree on every argument the corrected one accepts. |
| Program.WrappedLifetime | OpenHardwareMonitor/Program.cs:170 | "143165577m" is 14 days as written, although 4294967310 days is beyond any TimeSpan. |
| Program.TypeName | OpenHardwareMonitor/Program.cs:189 | The device type written for a component is never blank. |
| Program.BitConverterWithoutDashes | OpenHardwareMonitor/Program.cs:390 | Removing the dashes from `BitConverter.ToString` leaves two upper-case hex digits per byte. |
| Program.HexRoundTrip | OpenHardwareMonitor/Program.cs:390 | That hex text is all hex digits and reads back to the bytes it came from. |
| Program.FallbackSerialFormat | OpenHardwareMonitor/Program.cs:384-392 | The fallback serial is exactly 16 upper-case hex digits. They spell the first eight bytes of SHA-256 over the UTF-8 text "{type}-{name}-{identifier}". |
| Program.FallbackSeedInjective | OpenHardwareMonitor/Program.cs:386 | Distinct hardware gives distinct hashed text whenever the identifiers hold no '-' (identifiers are slash paths such as "/intelcpu/0"); names may hold any dashes. Equal type, name and identifier give the same serial. |
| Program.LastDash | OpenHardwareMonitor/Program.cs:386 | In "{name}-{identifier}" with a dash-free identifier, the last '-' splits the text back into the same name and identifier. |
| Program.SerialResolution | OpenHardwareMonitor/Program.cs:350-382 | The WMI answer for the type's fixed (class, property) is kept unless it is blank, "Not Available" or "Default string". Otherwise, and for types with no lookup, the hash fallback is used. The result is never blank. |
| Program.LastValueWins | OpenHardwareMonitor/Program.cs:216-238 | For each reading the last valued sensor feeding it decides its value. Sensors without a value are skipped. |
| Program.LastValueUnset | OpenHardwareMonitor/Program.cs:190-195 | A reading that no valued sensor feeds stays 0. |
| Program.ClockClassification | OpenHardwareMonitor/Program.cs:240-250 | A clock whose name contains "Core" is the core clock. Otherwise one containing "Memory" is the memory clock. Any other clock is ignored. The "GPU …" alternatives never change the outcome. |
| Program.Truncate | OpenHardwareMonitor/Program.cs:254 | The `(int)` cast of the video-memory reading rounds toward zero. |
| Program.ReadSensors | OpenHardwareMonitor/Program.cs:216-257 | The sensor loop leaves each local equal to the last value of the sensors that feed it. vRam is that value truncated. |
| Program.Catch | OpenHardwareMonitor/Program.cs:290-297 | Only DatabaseOperationException is caught per item. Any other error reaches the cycle's catch. |
| Program.StoreItem | OpenHardwareMonitor/Program.cs:259-297 | The component is inserted only when ComponentExists says it is absent, and always before the statistic. An end of life outside DateTime's range stops the pass after the component calls and before the statistic, escaping to the cycle. Otherwise, on success, the statistic is stored under (serial, timestamp). A store failure skips this item only. No connection aborts the cycle. The row rules and the foreign key are kept. |
| Program.CollectHardwareItem | OpenHardwareMonitor/Program.cs:184-298 | One hardware pass stores the component built from the type's stock speeds and the truncated vRam. It stores an "Active" statistic of the folded readings with end of life equal to timestamp plus lifetime exactly when that end of life is a valid DateTime and the calls succeed; an out-of-range end of life escapes the per-item catch. The serial it resolves is never refused by the argument checks. |
| Program.CollectHardware | OpenHardwareMonitor/Program.cs:184-298 | Over a cycle: every stored component keeps its attributes; statistics of other timestamps stay; every new or changed statistic is an "Active" row at the cycle's timestamp and end of life. With a valid end of life, every item without an engine fault gets its statistic, whatever fails for other items. With an end of life past DateTime's range no statistic is written, and the loop ends at the first item that gets past its component calls, which any faultless item does. |
| Program.ProcessFoldAddsOnly | OpenHardwareMonitor/Program.cs:303-342 | The process loop never rewrites or drops a row. Every row it adds is for the cycle's timestamp, a pid other than 0 and an end of life DateTime can hold. |
| Program.ProcessFoldRecords | OpenHardwareMonitor/Program.cs:303-342 | A measured process other than pid 0 whose insert succeeds has its row afterwards, whatever failed for the other processes, provided the end of life is a valid DateTime. |
| Program.ProcessFoldOutOfRange | OpenHardwareMonitor/Program.cs:313-336 | With an end of life past DateTime's range every process insert throws, is caught for that process, and no row is added. |
| Program.MonitorProcesses | OpenHardwareMonitor/Program.cs:300-342 | The process loop leaves the process table equal to the fold over the process list. |
| Program.CollectCycle | OpenHardwareMonitor/Program.cs:176-348 | A cycle is the hardware loop, then the process loop, under one timestamp. Missing the connection ends the whole cycle before anything changes. An end of life past DateTime's range writes no statistic and no process row, and ends the cycle before the process loop once an item passes its component calls. Otherwise it has the guarantees of both loops. |
| Program.LongLifetimeOutOfRange | OpenHardwareMonitor/Program.cs:38-44 | `--lifetime 8000y` is accepted as 2,920,000 days, and from 2025 on its end of life lies past DateTime's last tick. |
| Program.ParseArguments | OpenHardwareMonitor/Program.cs:22-59 | The argument loop decides the same command as the scan `Scan` from the default lifetime. Like Main, it uses the lifetime parser as written. |
| Program.ScanSkips | OpenHardwareMonitor/Program.cs:22-59 | Arguments that are not one of the four keywords are passed over. |
| Program.ScanDefault | OpenHardwareMonitor/Program.cs:22 | Without keywords the agent monitors with the default 365 days. |
| Program.ScanStopsAtCommand | OpenHardwareMonitor/Program.cs:25-37 | The first `init-db` or `clear-db` ends the scan, whatever follows. |
| Program.ScanLifetime | OpenHardwareMonitor/Program.cs:38-44 | `--lifetime V` sets the lifetime the as-written parser gives V for the rest of the scan. A V it refuses is fatal. A trailing `--lifetime` is ignored. |
| Program.ScanLifetimeExact | OpenHardwareMonitor/Program.cs:38-44 | Wherever the exact reading accepts V, `--lifetime V` sets the exact count of days. |
| Program.ScanWrappedLifetime | OpenHardwareMonitor/Program.cs:38-44 | `--lifetime 143165577m` starts monitoring with a lifetime of 14 days. |
| Program.ScanPruneNow | OpenHardwareMonitor/Program.cs:45-57 | `prune-now --lifetime V` uses what the as-written parser gives V, whatever came before; a V it refuses is fatal. A bare `prune-now` uses the lifetime so far. |
| Program.RunAgent | OpenHardwareMonitor/Program.cs:18-153 | A bad lifetime exits 1 and leaves the store untouched. `init-db` exits 0 exactly when all three tables get created. `clear-db` exits 0 exactly when the three tables get created and the three DELETEs get through; then all three tables are empty, and when creation fails no row changes. Monitoring keeps every stored component and the foreign key. After a successful initialisation it closes the connection at the end. |
| Program.ClearStore | OpenHardwareMonitor/Program.cs:31-37 | `clear-db` exits 0 exactly when the three tables get created and the three DELETEs get through, leaving every table empty. When creation fails it exits 1 with no row changed. |
| Program.AllTablesPresent | OpenHardwareMonitor/DatabaseHelper.cs:191-208 | Once all three tables exist, a DELETE fails only for the engine's own reasons. |
| Logger.ParseMinimumLevelNames | OpenHardwareMonitor/Logger.cs:33 | A level's name in the setting selects that level. A missing setting leaves Debug. |
| Logger.FilterMonotone | OpenHardwareMonitor/Logger.cs:9-16 | Debug < Info < Warning < Error < Critical. Critical always passes, everything passes a Debug minimum, and raising the minimum never lets more through. |
| Logger.ArchiveNameShape | OpenHardwareMonitor/Logger.cs:71-93 | Every rotation name matches the clean-up pattern `OHM_Log_*.log`, which compares prefix and extension without regard to ASCII case. The active `OHM_Log.log` does not match. |
| Logger.GetArchiveFiles | OpenHardwareMonitor/Logger.cs:71 | The listing holds each file of the folder that matches `OHM_Log_*.log` in any letter case, once. It holds nothing else, in whatever order. |
| Logger.ArchiveNameInjective | OpenHardwareMonitor/Logger.cs:91-93 | Two rotations get the same archive name exactly when they happen in the same second. |
| Logger.RotationKeepsText | OpenHardwareMonitor/Logger.cs:84-103 | Rotation happens only for an existing log larger than 5·1024·1024 bytes. The old text then moves whole into a new archive and the active log restarts empty. Older archives are untouched. |
| Logger.LogStore.RotateLogFileIfNeeded | OpenHardwareMonitor/Logger.cs:84-103 | The Logs folder becomes the rotated one. |
| Logger.FormatDetailedEntry | OpenHardwareMonitor/Logger.cs:160-177 | The entry starts with the time, level, thread and message header. It carries an exception section only with an exception, and an inner section only when that has an inner exception. |
| Logger.EntryLines | OpenHardwareMonitor/Logger.cs:160-177 | An entry with single-line texts reads back as the header line plus two lines per exception section. |
| Logger.SortNames | OpenHardwareMonitor/Logger.cs:74 | The archive listing is sorted in place and remains a permutation of itself. |
| Logger.CleanupKeepsNewest | OpenHardwareMonitor/Logger.cs:71-79 | With ten or fewer archives nothing is deleted. Otherwise only names before the ten greatest are deleted, and none of those ten. |
| Logger.LogStore.CleanUpOldArchives | OpenHardwareMonitor/Logger.cs:67-82 | Works on any folder. It lists the folder's `OHM_Log_*.log` files itself, each once. With ten or fewer nothing changes. With more than ten the listing is sorted and the first n−10 names are deleted, except the ones that cannot be. Only archive files are deleted, each sorting before every one of the ten greatest, and those ten stay. No file is added or changed, and the active log is untouched. |
| Logger.CleanupOfFolder | OpenHardwareMonitor/Logger.cs:71-79 | Cleanup of a folder's sorted listing deletes only archive-named files, all before the ten greatest names, and keeps those ten. |
| Logger.DistinctPermutation | OpenHardwareMonitor/Logger.cs:74 | Sorting a listing without repeated names leaves it without repeats. |
| Logger.LogStore.InitializeLogFile | OpenHardwareMonitor/Logger.cs:42-65 | Works on any folder. The active log exists afterwards, empty if it was created. The archives doomed by the folder's own listing are removed. |
| Logger.WriteTraceBalanced | OpenHardwareMonitor/Logger.cs:119-143 | As written, the mutex is acquired unless the wait times out, and released exactly when WaitOne returned true. Nothing is appended without it. An abandoned mutex is acquired and never released. |
| Logger.AbandonedMutexKept | OpenHardwareMonitor/Logger.cs:122-143 | A write that meets an abandoned mutex acquires it, appends nothing, and never releases it. |
| Logger.ReleasingTraceBalanced | OpenHardwareMonitor/Logger.cs:119-143 | With an abandoned mutex counted as acquired, every write that takes the mutex releases it as its last event. |
| Logger.WriteAppends | OpenHardwareMonitor/Logger.cs:129-133 | A successful write ends the active log with the entry and "\r\n". Earlier text stays as its prefix or moves whole to the new archive. |
| Logger.LogStore.WriteToFile | OpenHardwareMonitor/Logger.cs:117-144 | One write yields its mutex trace and the folder after rotation plus the append. An abandoned mutex leaves the logger holding it one more time, with the folder unchanged. |
| Logger.LogStore.WriteToFileReleasing | OpenHardwareMonitor/Logger.cs:117-144 | The corrected write: the logger holds the mutex no more afterwards than before, and an abandoned mutex is written under like a signalled one. |
| Logger.LogStore.Log | OpenHardwareMonitor/Logger.cs:105-115 | An entry below the minimum level changes neither the files nor the mutex. Any other entry is formatted and written by WriteToFile as written. |
| Logger.LogStore.constructor | OpenHardwareMonitor/Logger.cs:29-40 | Works on any existing Logs folder. The minimum level comes from the setting. The log file exists, created empty if it was missing. The archives doomed by the folder's own sorted listing are deleted. Then "Logger initialized" goes through the level filter: if it passes, the folder is the one after that write, and the mutex stays held only after an abandoned wait. |
| CivilTime.HourStampRoundTrip | Display/db_interface.py:68 | Parsing a backup stamp gives back the hour it was made in. |
| CivilTime.HourStampExact | Display/db_interface.py:68 | Every stamp the parser accepts is the stamp of the hour it parses to. |
| DbInterface.FirstMarkedSpec | Display/db_interface.py:131-141 | The component found is marked and none before it is. Nothing is found only when none is marked. |
| DbInterface.RebuildPath | Display/db_interface.py:122-144 | The result is the parts joined with "/" up to and including the first one naming a root marker. Otherwise, including for no parts, it is the working directory. |
| DbInterface.RebuiltPathComponents | Display/db_interface.py:127-141 | When no part contains '/', as Windows path parts never do, the rebuilt root splits back on "/" into exactly those parts. A POSIX root part "/" falls outside this. |
| DbInterface.DatabaseLevels | Display/db_interface.py:158-182 | Level 0 is `root/metrics.db`. Levels 1 to 6 are six different files of `Display/tests/sample_dbs`. Any other level is the level-1 file. An empty root is ".". |
| DbInterface.LastDotPartOfBackup | Display/db_interface.py:68 | The text after the last "." of a backup name is its hour stamp. |
| DbInterface.BackupAge | Display/db_interface.py:61-76 | With a first listed backup from hour t, a new backup is needed exactly when six hours have passed since the start of t. |
| DbInterface.BackupFreshness | Display/db_interface.py:61-76 | A backup just made is fresh. Six hours later it no longer is. |
| DbInterface.BackupFolder.CreateBackupAsWritten | Display/db_interface.py:79-103 | No change when no backup is needed. A bad stamp or a missing database is an error. Otherwise the folder becomes (folder + new backup) − every listed backup. |
| DbInterface.AsWrittenLosesBackup | Display/db_interface.py:94-103 | If the new name was listed, the as-written update leaves no backup at all. |
| DbInterface.AsWrittenScenario | Display/db_interface.py:86-103 | With an old backup and one from this hour listed, a backup is needed. The as-written update leaves only the database; the corrected one keeps the new backup. |
| DbInterface.BackupFolder.CreateBackup | Display/db_interface.py:79-103 | The same as the as-written update, except that the backup just written is not deleted. |
| DbInterface.BackupSetKeepsNewest | Display/db_interface.py:92-103 | After a backup the new one is the only backup of the database. The database remains and no other file changes. |
| DbInterface.KeyOrderMembers | Display/db_interface.py:236-243 | The dictionary's keys are exactly the "{serial} ({device_type})" labels of the rows. |
| DbInterface.GroupedStep | Display/db_interface.py:241-245 | Filing a row appends its sample to its label's list, creating the list when the label is new. No other list changes. |
| DbInterface.GroupedTotal | Display/db_interface.py:219-245 | The lists together hold exactly as many entries as there are joined rows. |
| DbInterface.ReadMetrics | Display/db_interface.py:219-251 | The loop builds the grouped dictionary in first-seen key order. With no rows it returns {"No Components Found": [0]}, so the result is never empty. |

## Left out

- `PruneOldData` and the pruning timer: `PruneOldData` is called by `prune-now` and by the daily timer but defined in none of the files modelled. `Program.RunAgent` therefore models `prune-now` as the initialisation only.
- Concurrency: the helper's `_lock`, `collectionLock`, the two timers and the named mutex. Everything is sequential here. The mutex appears as the event trace of each write and as a count of the holds the logger has not given back. Which thread owns it is not modelled, so a wait after an abandoned one is still an input rather than an immediate success.
- Console output, the administrator check and relaunch, `Environment.Exit` and `Console.ReadLine`. The collections made before Enter is pressed are a list of ticks.
- WMI, `PerformanceCounter`, the hardware library, `Process.GetProcesses` and SHA-256 are inputs. The distinct-hardware-to-distinct-serial property needs SHA-256 collision freedom. Only the injectivity of the hashed text is proved, for identifiers without '-'. The hardware library's identifiers are slash-separated paths, but the model does not derive that, so two items whose identifiers hold '-' could in principle share a seed.
- Float conversions (MB and GB arithmetic, `float.Parse` of the CPU share): readings are opaque.
- `create_mtg_database`, `check_db`, `get_git_root`, `get_proj_root` and `read_processes`: schema text, subprocess and filesystem probing. The project root is a parameter of `GetDatabase`.
- `FormatLogEntry`: its result is never used. The `[Conditional("DEBUG")]` `Debug` wrapper is left out too: it is compiled out of release builds.
- File system failures other than those modelled: `Directory.GetFiles` or `CreateDirectory` failing, a failed `File.Move` other than an existing archive name, `SQLiteConnection.Open` failing.
- The `TimeSpan`/`DateTime` mismatch between Program.cs and DatabaseHelper.cs. The helper takes an end of life, and the caller passes timestamp plus lifetime, as it logs. That conversion is placed at the statistic and process inserts, so an end of life DateTime cannot hold throws before the row is written; in the statistic's case the component calls have already run.
- DbInterface.BackupFolder.CreateBackup, DbInterface.BackupFolder.CreateBackupAsWritten: names are compared case-sensitively. On Windows, `glob.glob(db + ".*")`, `os.path.exists` and `os.remove` ignore letter case. A backup such as `METRICS.DB.2025_01_01_00` beside `metrics.db` is therefore listed and deleted by the code, but the model does not count it as a backup. Its folder also treats names that differ only in case as two files.
- DbInterface.GetDatabase, DbInterface.DatabaseLevels: joins with POSIX `os.path.join`. The dashboard launches `OpenHardwareMonitor.exe` (Display/ohm_interface.py:16 and 26), so on Windows `ntpath.join` applies: level 0 is `root\metrics.db`, and `\` and a drive prefix also count as separators.
- DatabaseHelper.Database.InitializeDatabase: opening the connection always succeeds in the model.
- Program.ParseInt32: the culture's sign symbols are taken to be '-' and '+'.
- Logger.ParseMinimumLevel: the numeric, comma-separated and white-space-padded forms that `Enum.TryParse` also accepts fall back to Debug here.
- Logger.SortNames: sorts by ordinal order where `Array.Sort` uses the culture's comparer. The two agree on the rotation names, which differ only in digits. Listed names in mixed letter case, such as `ohm_log_x.LOG` beside `OHM_Log_20250101_000000.log`, may sort differently, so a different set of old archives may be deleted.
- Logger.IsArchiveName: folds ASCII letters only, where Windows compares names with its own upper-case table. It also leaves out the legacy match of a three-letter extension pattern against longer extensions (`*.log` also finding `x.logx` through 8.3 short names).
- Program.Truncate: states the cast only for values in `int` range. C# leaves an out-of-range cast unspecified.
- CivilTime.ParseHourStamp: accepts only the zero-padded form. `strptime` also accepts shorter fields, and the model reports those as unmatched.
- Program.HexBytes: is total, reading a non-hex character as 0. It serves only as the inverse in `Program.HexRoundTrip`.

## Findings

| source | as written | input that shows it | evidently intended | confidence | as-written member | corrected member |
|---|---|---|---|---|---|---|
| OpenHardwareMonitor/Program.cs:169-171 | `value * 7`, `value * 30` and `value * 365` are computed in unchecked 32-bit `int` before `TimeSpan.FromDays`. | `--lifetime 143165577m`: 30 × 143165577 = 4294967310 wraps to 14, so the agent monitors with 14 days instead of refusing the argument (`Program.ScanWrappedLifetime`). | The product is taken exactly, and a count too large for a TimeSpan is refused. | not executed; the arithmetic is certain, the input is unusual | Program.ParseLifetimeAsWritten, Program.WrappedLifetime | Program.ParseLifetime, Program.ParseLifetimeUnits |
| Display/db_interface.py:92-103 | The new backup gets the current hour's name, then every name from the earlier glob is removed, including that same name when it was already listed. | A folder holding `metrics.db`, a backup at least six hours old listed first, and one from the current hour. A backup is needed, and afterwards no backup is left. | The backup just written is kept and only the older ones are removed. | not executed; needs a same-hour backup beside an older one, e.g. after an interrupted run | DbInterface.BackupFolder.CreateBackupAsWritten, DbInterface.AsWrittenScenario | DbInterface.BackupFolder.CreateBackup, DbInterface.BackupSetKeepsNewest |
| OpenHardwareMonitor/Logger.cs:122-143 | `WaitOne(100)` on an abandoned mutex takes it and throws AbandonedMutexException before `mutexAcquired` is set; the catch swallows it and the `finally` releases only when the flag is true. | Another process holding the `OHM_Logger_Mutex` ends without releasing it while the agent logs. The write is skipped and the agent keeps the mutex, so other processes time out on every later write. | An abandoned wait counts as acquired: the write goes ahead and the mutex is released. | not executed; needs another logging process to die holding the mutex | Logger.LogStore.WriteToFile, Logger.AbandonedMutexKept | Logger.LogStore.WriteToFileReleasing, Logger.ReleasingTraceBalanced |

Main's argument loop and `Logger.LogStore.Log` follow the code as written, so they use the as-written halves. The corrected halves stand beside them.
