/** The dashboard's helpers in Display/db_interface.py: locating the
    project root and the database, the six-hourly backup, and grouping the
    joined metric rows for the graphs. */
module DbInterface {
  import opened Wrappers
  import opened Text
  import opened CivilTime

  // =====================================================================
  // rebuild_path

  /** Directory names (or parts of them) that mark the project root. */
  const RootMarkers: seq<string> := ["MSCS-710L-711-25S-PROJECT", "OpenHardwareMonitor"]

  predicate IsMarked(part: string) {
    exists m :: 0 <= m < |RootMarkers| && Contains(part, RootMarkers[m])
  }

  /** The index of the first path component holding a marker. */
  function FirstMarked(parts: seq<string>): (r: Option<nat>)
    ensures r.Some? ==> r.value < |parts|
  {
    if |parts| == 0 then None
    else if IsMarked(parts[0]) then Some(0)
    else match FirstMarked(parts[1..])
      case None => None
      case Some(i) => Some(i + 1)
  }

  /** FirstMarked finds a marked component with none marked before it,
      and finds nothing only when no component is marked. */
  lemma {:induction false} FirstMarkedSpec(parts: seq<string>)
    ensures FirstMarked(parts).Some? ==>
      var i := FirstMarked(parts).value;
      IsMarked(parts[i]) && forall j :: 0 <= j < i ==> !IsMarked(parts[j])
    ensures FirstMarked(parts).None? ==> forall j :: 0 <= j < |parts| ==> !IsMarked(parts[j])
  {
    if |parts| > 0 && !IsMarked(parts[0]) {
      FirstMarkedSpec(parts[1..]);
      assert forall j :: 1 <= j < |parts| ==> parts[j] == parts[1..][j - 1];
    }
  }

  /** A marked component with none marked before it is the one found. */
  lemma {:induction false} FirstMarkedUnique(parts: seq<string>, i: nat)
    requires i < |parts| && IsMarked(parts[i])
    requires forall j :: 0 <= j < i ==> !IsMarked(parts[j])
    ensures FirstMarked(parts) == Some(i)
  {
    if i > 0 {
      assert !IsMarked(parts[0]);
      assert forall j :: 0 <= j < i - 1 ==> parts[1..][j] == parts[j + 1];
      FirstMarkedUnique(parts[1..], i - 1);
    }
  }

  /** The path rebuilt up to and including the first marked component, or
      the working directory when none is marked. */
  function RebuiltPath(parts: seq<string>, cwd: string): string {
    match FirstMarked(parts)
    case Some(i) => Join(parts[..i + 1], "/")
    case None => cwd
  }

  /** rebuild_path: joins the components with '/' one at a time and stops
      at the first one that holds a marker. */
  method RebuildPath(splitPath: seq<string>, cwd: string) returns (r: string)
    ensures r == RebuiltPath(splitPath, cwd)
  {
    var rebuiltPath := "";
    for i := 0 to |splitPath|
      invariant rebuiltPath == Join(splitPath[..i], "/")
      invariant forall j :: 0 <= j < i ==> !IsMarked(splitPath[j])
    {
      var component := splitPath[i];
      if i == 0 {
        rebuiltPath := component;
      } else {
        rebuiltPath := rebuiltPath + "/" + component;
      }
      assert splitPath[..i + 1][..i] == splitPath[..i];
      for m := 0 to |RootMarkers|
        invariant forall n :: 0 <= n < m ==> !Contains(component, RootMarkers[n])
      {
        if Contains(component, RootMarkers[m]) {
          FirstMarkedUnique(splitPath, i);
          return rebuiltPath;
        }
      }
    }
    FirstMarkedSpec(splitPath);
    r := cwd;
  }

  /** The rebuilt root splits back into the components it was made of, up
      to and including the first marked one. */
  lemma RebuiltPathComponents(parts: seq<string>, cwd: string, i: nat)
    requires FirstMarked(parts) == Some(i)
    requires forall k :: 0 <= k < |parts| ==> '/' !in parts[k]
    ensures Split(RebuiltPath(parts, cwd), '/') == parts[..i + 1]
  {
    var joined := RebuiltPathIsJoin(parts, cwd, i);
    JoinedPrefixSplits(parts, i, joined);
  }

  lemma RebuiltPathIsJoin(parts: seq<string>, cwd: string, i: nat) returns (joined: string)
    requires FirstMarked(parts) == Some(i)
    ensures i < |parts| && joined == Join(parts[..i + 1], "/") && RebuiltPath(parts, cwd) == joined
  {
    joined := Join(parts[..i + 1], "/");
  }

  lemma JoinedPrefixSplits(parts: seq<string>, i: nat, joined: string)
    requires i < |parts| && joined == Join(parts[..i + 1], "/")
    requires forall k :: 0 <= k < |parts| ==> '/' !in parts[k]
    ensures Split(joined, '/') == parts[..i + 1]
  {
    var prefix := parts[..i + 1];
    forall k | 0 <= k < |prefix|
      ensures '/' !in prefix[k]
    {
      assert prefix[k] == parts[k];
    }
    SplitJoin(prefix, '/');
  }

  // =====================================================================
  // get_database

  /** `os.path.join(a, b)` on POSIX. */
  function PosixJoin(a: string, b: string): string {
    if |b| > 0 && b[0] == '/' then b
    else if |a| == 0 || a[|a| - 1] == '/' then a + b
    else a + "/" + b
  }

  const SamplePath: string := "Display/tests/sample_dbs"

  /** The sample database each debug level from 1 to 6 selects; any other
      level falls back to the sample metrics.db. */
  function SampleName(debug: int): string {
    if debug == 2 then "normal.db"
    else if debug == 3 then "empty.db"
    else if debug == 4 then "missing.db"
    else if debug == 5 then "unexpected.db"
    else if debug == 6 then "corrupted.db"
    else "metrics.db"
  }

  /** get_database, with the project root passed in; an empty root is ".". */
  function GetDatabase(debug: int, projRoot: string): string {
    var root := if projRoot == "" then "." else projRoot;
    if debug == 0 then PosixJoin(root, "metrics.db")
    else PosixJoin(PosixJoin(root, SamplePath), SampleName(debug))
  }

  /** Level 0 is the live database next to the root; every other level is
      a file of the sample directory, levels 1 to 6 are six different files,
      and any other level is the same file as level 1. */
  lemma DatabaseLevels(projRoot: string, debug: int)
    ensures debug != 0 ==> GetDatabase(debug, projRoot) != GetDatabase(0, projRoot)
    ensures debug != 0 ==>
      (GetDatabase(debug, projRoot) ==
       PosixJoin(if projRoot == "" then "." else projRoot, SamplePath) + "/" + SampleName(debug))
    ensures (debug < 0 || 6 < debug) ==> GetDatabase(debug, projRoot) == GetDatabase(1, projRoot)
    ensures 1 <= debug <= 6 ==> forall other :: 1 <= other <= 6 && other != debug ==>
      GetDatabase(other, projRoot) != GetDatabase(debug, projRoot)
  {
    var root := if projRoot == "" then "." else projRoot;
    var sample := PosixJoin(root, SamplePath);
    PosixJoinShape(root, SamplePath);
    if debug != 0 {
      SampleLevel(root, sample, debug);
    }
    if 1 <= debug <= 6 {
      forall other | 1 <= other <= 6 && other != debug
        ensures GetDatabase(other, projRoot) != GetDatabase(debug, projRoot)
      {
        SampleLevel(root, sample, other);
        AppendDistinct(sample + "/", SampleName(other), SampleName(debug));
      }
    }
  }

  lemma SampleLevel(root: string, sample: string, debug: int)
    requires debug != 0 && root != "" && sample == PosixJoin(root, SamplePath)
    ensures GetDatabase(debug, root) == sample + "/" + SampleName(debug)
    ensures GetDatabase(debug, root) != GetDatabase(0, root)
  {
    PosixJoinShape(root, "metrics.db");
    PosixJoinShape(root, SamplePath);
    PosixJoinShape(sample, SampleName(debug));
  }

  /** Joining a relative name adds it after at most one '/'. */
  lemma PosixJoinShape(a: string, b: string)
    requires |b| > 0 && b[0] != '/'
    ensures |a| + |b| <= |PosixJoin(a, b)| <= |a| + |b| + 1
    ensures PosixJoin(a, b)[|PosixJoin(a, b)| - 1] == b[|b| - 1]
    ensures |a| > 0 && a[|a| - 1] != '/' ==> PosixJoin(a, b) == a + "/" + b
  {
  }

  lemma AppendDistinct(p: string, a: string, b: string)
    requires a != b
    ensures p + a != p + b
  {
    assert (p + a)[|p|..] == a;
    assert (p + b)[|p|..] == b;
  }

  // =====================================================================
  // need_new_backup

  /** `name.split(".")[-1]` */
  function LastDotPart(name: string): string {
    var parts := Split(name, '.');
    parts[|parts| - 1]
  }

  /** need_new_backup: a backup is needed when there is none, or when at
      least six hours have passed since the stamp of the first name listed;
      a first name whose stamp does not parse raises. */
  function NeedNewBackup(backups: seq<string>, now: DateTime): Result<bool, StampError>
    requires IsValid(now)
  {
    if |backups| == 0 then Success(true)
    else
      match ParseHourStamp(LastDotPart(backups[0]))
      case Failure(e) => Failure(e)
      case Success(stamp) => Success(Micros(now) - Micros(stamp) >= 6 * MicrosPerHour)
  }

  /** The name a backup of `db` made at `now` gets. */
  function BackupName(db: string, now: DateTime): string
    requires IsValid(now)
  {
    db + "." + FormatHourStamp(now)
  }

  lemma LastDotPartOfBackup(db: string, t: DateTime)
    requires IsValid(t)
    ensures LastDotPart(BackupName(db, t)) == FormatHourStamp(t)
  {
    SplitConcat(db, '.', FormatHourStamp(t));
    assert BackupName(db, t) == db + ['.'] + FormatHourStamp(t);
  }

  /** When the first listed backup was made at `t`, a new one is needed
      exactly when six hours have passed since the start of `t`'s hour. */
  lemma BackupAge(db: string, t: DateTime, rest: seq<string>, now: DateTime)
    requires IsValid(t) && IsValid(now)
    ensures NeedNewBackup([BackupName(db, t)] + rest, now) ==
      Success(Micros(now) - Micros(FloorToHour(t)) >= 6 * MicrosPerHour)
  {
    LastDotPartOfBackup(db, t);
    HourStampRoundTrip(t);
  }

  /** A backup just made is fresh, and six hours later it no longer is. */
  lemma BackupFreshness(db: string, t: DateTime, rest: seq<string>, later: DateTime)
    requires IsValid(t) && IsValid(later)
    ensures NeedNewBackup([BackupName(db, t)] + rest, t) == Success(false)
    ensures Micros(later) >= Micros(t) + 6 * MicrosPerHour ==>
      NeedNewBackup([BackupName(db, t)] + rest, later) == Success(true)
  {
    BackupAge(db, t, rest, t);
    BackupAge(db, t, rest, later);
  }

  // =====================================================================
  // create_backup

  datatype BackupError = BadStamp(error: StampError) | MissingDatabase

  /** `glob(db + ".*")`: every file whose name continues `db` with a dot. */
  predicate IsBackupOf(name: string, db: string) {
    StartsWith(name, db + ".")
  }

  /** The folder the database and its backups live in, as a set of names. */
  class BackupFolder {
    var files: set<string>

    constructor (files: set<string>)
      ensures this.files == files
    {
      this.files := files;
    }

    /** The glob result: exactly the backups of `db`, each once. */
    ghost predicate Listed(db: string, currentBackups: seq<string>)
      reads this
    {
      && (forall i, j :: 0 <= i < j < |currentBackups| ==> currentBackups[i] != currentBackups[j])
      && (forall f :: f in currentBackups <==> f in files && IsBackupOf(f, db))
    }

    /** create_backup as written: remove a same-hour name if one exists, copy
        the database to it, then remove every backup listed before, which
        includes that same-hour name whenever it existed. */
    method CreateBackupAsWritten(db: string, currentBackups: seq<string>, now: DateTime)
      returns (r: Outcome<BackupError>)
      requires IsValid(now) && Listed(db, currentBackups)
      modifies this
      ensures NeedNewBackup(currentBackups, now).Failure? ==>
        r == Fail(BadStamp(NeedNewBackup(currentBackups, now).error)) && files == old(files)
      ensures NeedNewBackup(currentBackups, now) == Success(false) ==> r.Pass? && files == old(files)
      ensures NeedNewBackup(currentBackups, now) == Success(true) && db !in old(files) ==>
        r == Fail(MissingDatabase) && files == old(files) - {BackupName(db, now)}
      ensures NeedNewBackup(currentBackups, now) == Success(true) && db in old(files) ==>
        r.Pass? && files == AsWrittenBackupSet(old(files), BackupName(db, now), set f | f in currentBackups)
    {
      var need := NeedNewBackup(currentBackups, now);
      if need.Failure? {
        return Fail(BadStamp(need.error));
      }
      if !need.value {
        return Pass;
      }
      var newBackup := BackupName(db, now);
      if newBackup in files {
        files := files - {newBackup};
      }
      if db !in files {
        return Fail(MissingDatabase);
      }
      files := files + {newBackup};
      ghost var copied := files;
      for i := 0 to |currentBackups|
        invariant files == copied - set j | 0 <= j < i :: currentBackups[j]
      {
        files := files - {currentBackups[i]};
      }
      assert (set j | 0 <= j < |currentBackups| :: currentBackups[j]) == set f | f in currentBackups;
      r := Pass;
    }

    /** create_backup with the evident intent: the backup just made is kept
        when its name was already listed. */
    method CreateBackup(db: string, currentBackups: seq<string>, now: DateTime)
      returns (r: Outcome<BackupError>)
      requires IsValid(now) && Listed(db, currentBackups)
      modifies this
      ensures NeedNewBackup(currentBackups, now).Failure? ==>
        r == Fail(BadStamp(NeedNewBackup(currentBackups, now).error)) && files == old(files)
      ensures NeedNewBackup(currentBackups, now) == Success(false) ==> r.Pass? && files == old(files)
      ensures NeedNewBackup(currentBackups, now) == Success(true) && db !in old(files) ==>
        r == Fail(MissingDatabase) && files == old(files) - {BackupName(db, now)}
      ensures NeedNewBackup(currentBackups, now) == Success(true) && db in old(files) ==>
        r.Pass? && files == BackupSet(old(files), BackupName(db, now), set f | f in currentBackups)
    {
      var need := NeedNewBackup(currentBackups, now);
      if need.Failure? {
        return Fail(BadStamp(need.error));
      }
      if !need.value {
        return Pass;
      }
      var newBackup := BackupName(db, now);
      if newBackup in files {
        files := files - {newBackup};
      }
      if db !in files {
        return Fail(MissingDatabase);
      }
      files := files + {newBackup};
      ghost var copied := files;
      for i := 0 to |currentBackups|
        invariant files == copied - ((set j | 0 <= j < i :: currentBackups[j]) - {newBackup})
      {
        if currentBackups[i] != newBackup {
          files := files - {currentBackups[i]};
        }
      }
      assert (set j | 0 <= j < |currentBackups| :: currentBackups[j]) == set f | f in currentBackups;
      r := Pass;
    }
  }

  /** The folder after create_backup as written. */
  function AsWrittenBackupSet(files: set<string>, newBackup: string, listed: set<string>): set<string> {
    (files + {newBackup}) - listed
  }

  /** The folder after the corrected create_backup. */
  function BackupSet(files: set<string>, newBackup: string, listed: set<string>): set<string> {
    (files + {newBackup}) - (listed - {newBackup})
  }

  /** After a backup is made, the new backup is the only backup of `db` in
      the folder, the database is still there, and no other file changed. */
  lemma BackupSetKeepsNewest(files: set<string>, db: string, now: DateTime, listed: set<string>)
    requires IsValid(now) && db in files
    requires forall f :: f in listed <==> f in files && IsBackupOf(f, db)
    ensures var after := BackupSet(files, BackupName(db, now), listed);
      && (forall f :: f in after && IsBackupOf(f, db) <==> f == BackupName(db, now))
      && db in after
      && (forall f :: !IsBackupOf(f, db) && f != BackupName(db, now) ==> (f in after <==> f in files))
  {
    var name := BackupName(db, now);
    assert IsBackupOf(name, db) by {
      assert name[..|db + "."|] == db + ".";
    }
    assert !IsBackupOf(db, db);
  }

  /** The as-written update loses the new backup whenever its name was
      listed, and then leaves no backup of `db` at all. */
  lemma AsWrittenLosesBackup(files: set<string>, db: string, now: DateTime, listed: set<string>)
    requires IsValid(now)
    requires forall f :: f in listed <==> f in files && IsBackupOf(f, db)
    requires BackupName(db, now) in listed
    ensures var after := AsWrittenBackupSet(files, BackupName(db, now), listed);
      BackupName(db, now) !in after && forall f :: f in after ==> !IsBackupOf(f, db)
  {
  }

  /** Two listed backups, the first at least six hours old and the second
      from the current hour: a backup is needed, and the as-written update
      deletes both the old one and the one it has just written. */
  lemma AsWrittenScenario(db: string, earlier: DateTime, now: DateTime)
    requires IsValid(earlier) && IsValid(now)
    requires Micros(now) >= Micros(earlier) + 6 * MicrosPerHour
    ensures NeedNewBackup([BackupName(db, earlier), BackupName(db, now)], now) == Success(true)
    ensures AsWrittenBackupSet({db, BackupName(db, earlier), BackupName(db, now)}, BackupName(db, now),
                               {BackupName(db, earlier), BackupName(db, now)}) == {db}
    ensures BackupSet({db, BackupName(db, earlier), BackupName(db, now)}, BackupName(db, now),
                      {BackupName(db, earlier), BackupName(db, now)}) == {db, BackupName(db, now)}
  {
    BackupFreshness(db, earlier, [BackupName(db, now)], now);
    assert [BackupName(db, earlier)] + [BackupName(db, now)] == [BackupName(db, earlier), BackupName(db, now)];
    assert |BackupName(db, earlier)| > |db|;
    assert |BackupName(db, now)| > |db|;
  }

  // =====================================================================
  // read_metrics: grouping the joined rows

  /** One row of the component_statistic/component join, in column order. */
  datatype JoinedRow = JoinedRow(serial: string, timestamp: string, temperature: real, usage: real,
                                 powerConsumption: real, coreSpeed: Option<real>, memorySpeed: Option<real>,
                                 totalRam: Option<real>, deviceType: string)

  /** A list element of the result: a row's metrics, or the 0 of the
      empty-result sentinel. */
  datatype Entry = Sample(timestamp: string, temperature: real, usage: real, powerConsumption: real,
                          coreSpeed: Option<real>, memorySpeed: Option<real>, totalRam: Option<real>)
                 | Zero

  const NoComponentsFound: string := "No Components Found"

  /** The drop-down label a row is filed under: "{serial} ({device_type})". */
  function GroupKey(row: JoinedRow): string {
    row.serial + " (" + row.deviceType + ")"
  }

  function SampleOf(row: JoinedRow): Entry {
    Sample(row.timestamp, row.temperature, row.usage, row.powerConsumption, row.coreSpeed, row.memorySpeed,
           row.totalRam)
  }

  /** The samples of the rows filed under `key`, in query order. */
  function Filter(rows: seq<JoinedRow>, key: string): seq<Entry> {
    if |rows| == 0 then []
    else Filter(rows[..|rows| - 1], key) + (if GroupKey(rows[|rows| - 1]) == key then [SampleOf(rows[|rows| - 1])] else [])
  }

  predicate Distinct(keys: seq<string>) {
    forall i, j :: 0 <= i < j < |keys| ==> keys[i] != keys[j]
  }

  /** The keys in the order a dict first receives them. */
  function KeyOrder(rows: seq<JoinedRow>): (keys: seq<string>)
    ensures Distinct(keys)
  {
    if |rows| == 0 then []
    else
      var before := KeyOrder(rows[..|rows| - 1]);
      var key := GroupKey(rows[|rows| - 1]);
      if key in before then before else before + [key]
  }

  /** Every key is the key of some row, and every row's key is listed. */
  lemma {:induction false} KeyOrderMembers(rows: seq<JoinedRow>)
    ensures forall i :: 0 <= i < |rows| ==> GroupKey(rows[i]) in KeyOrder(rows)
    ensures forall k :: k in KeyOrder(rows) ==> exists i :: 0 <= i < |rows| && GroupKey(rows[i]) == k
    decreases |rows|
  {
    if |rows| > 0 {
      var init := rows[..|rows| - 1];
      KeyOrderMembers(init);
      forall k | k in KeyOrder(rows)
        ensures exists i :: 0 <= i < |rows| && GroupKey(rows[i]) == k
      {
        if k in KeyOrder(init) {
          var i :| 0 <= i < |init| && GroupKey(init[i]) == k;
          assert rows[i] == init[i];
        } else {
          assert GroupKey(rows[|rows| - 1]) == k;
        }
      }
      forall i | 0 <= i < |rows|
        ensures GroupKey(rows[i]) in KeyOrder(rows)
      {
        if i < |rows| - 1 {
          assert rows[i] == init[i];
        }
      }
    }
  }

  /** The dictionary read_metrics fills: each key's rows, in query order. */
  function Grouped(rows: seq<JoinedRow>): map<string, seq<Entry>> {
    map k | k in KeyOrder(rows) :: Filter(rows, k)
  }

  lemma {:induction false} FilterAbsent(rows: seq<JoinedRow>, key: string)
    requires key !in KeyOrder(rows)
    ensures Filter(rows, key) == []
    decreases |rows|
  {
    if |rows| > 0 {
      FilterAbsent(rows[..|rows| - 1], key);
    }
  }

  lemma FilterSnoc(rows: seq<JoinedRow>, row: JoinedRow, key: string)
    ensures Filter(rows + [row], key) == Filter(rows, key) + (if GroupKey(row) == key then [SampleOf(row)] else [])
  {
    assert (rows + [row])[..|rows|] == rows;
  }

  lemma KeyOrderSnoc(rows: seq<JoinedRow>, row: JoinedRow)
    ensures KeyOrder(rows + [row])
         == if GroupKey(row) in KeyOrder(rows) then KeyOrder(rows) else KeyOrder(rows) + [GroupKey(row)]
  {
    assert (rows + [row])[..|rows|] == rows;
  }

  /** Filing one more row appends its sample to its key's list, creating the
      list when the key is new, and touches no other list. */
  lemma GroupedStep(rows: seq<JoinedRow>, row: JoinedRow)
    ensures var g := Grouped(rows); var k := GroupKey(row);
      Grouped(rows + [row]) == g[k := (if k in g then g[k] else []) + [SampleOf(row)]]
  {
    var all := rows + [row];
    var g := Grouped(rows);
    var k := GroupKey(row);
    var rhs := g[k := (if k in g then g[k] else []) + [SampleOf(row)]];
    var after := Grouped(all);
    KeyOrderSnoc(rows, row);
    assert after.Keys == rhs.Keys;
    forall j | j in after
      ensures after[j] == rhs[j]
    {
      FilterSnoc(rows, row, j);
      if j == k && k !in g {
        FilterAbsent(rows, k);
      }
    }
  }

  /** The sum of the list lengths over `keys`. */
  function Total(keys: seq<string>, groups: map<string, seq<Entry>>): nat
    requires forall k :: k in keys ==> k in groups
  {
    if |keys| == 0 then 0 else Total(keys[..|keys| - 1], groups) + |groups[keys[|keys| - 1]]|
  }

  lemma {:induction false} TotalStep(keys: seq<string>, g: map<string, seq<Entry>>, k: string, e: Entry)
    requires Distinct(keys) && k in keys && k in g
    requires forall j :: j in keys ==> j in g
    ensures Total(keys, g[k := g[k] + [e]]) == Total(keys, g) + 1
    decreases |keys|
  {
    var init := keys[..|keys| - 1];
    var last := keys[|keys| - 1];
    if last != k {
      assert k in init by {
        var i :| 0 <= i < |keys| && keys[i] == k;
        assert i < |keys| - 1 && init[i] == k;
      }
      TotalStep(init, g, k, e);
    } else {
      assert k !in init;
      TotalUnaffected(init, g, k, g[k] + [e]);
    }
  }

  lemma {:induction false} TotalUnaffected(keys: seq<string>, g: map<string, seq<Entry>>, k: string, v: seq<Entry>)
    requires k !in keys
    requires forall j :: j in keys ==> j in g
    ensures Total(keys, g[k := v]) == Total(keys, g)
    decreases |keys|
  {
    if |keys| > 0 {
      TotalUnaffected(keys[..|keys| - 1], g, k, v);
    }
  }

  /** No row is lost or counted twice: the lists hold as many entries as
      the query returned rows. */
  lemma {:induction false} GroupedTotal(rows: seq<JoinedRow>)
    ensures Total(KeyOrder(rows), Grouped(rows)) == |rows|
    decreases |rows|
  {
    if |rows| > 0 {
      var init := rows[..|rows| - 1];
      var row := rows[|rows| - 1];
      assert init + [row] == rows;
      GroupedTotal(init);
      GroupedStep(init, row);
      var ko, g := KeyOrder(init), Grouped(init);
      var k := GroupKey(row);
      var g' := g[k := (if k in g then g[k] else []) + [SampleOf(row)]];
      assert Grouped(rows) == g';
      if k in ko {
        assert KeyOrder(rows) == ko;
        TotalStep(ko, g, k, SampleOf(row));
      } else {
        assert KeyOrder(rows) == ko + [k];
        assert (ko + [k])[..|ko|] == ko;
        assert k !in g;
        assert [] + [SampleOf(row)] == [SampleOf(row)];
        assert g' == g[k := [SampleOf(row)]];
        TotalUnaffected(ko, g, k, [SampleOf(row)]);
        assert Total(ko + [k], g') == Total(ko, g') + |g'[k]|;
      }
    }
  }

  /** The grouping loop of read_metrics, including the sentinel for an
      empty result. `keys` is the dictionary's key order. */
  method ReadMetrics(rows: seq<JoinedRow>) returns (keys: seq<string>, groups: map<string, seq<Entry>>)
    ensures |keys| > 0 && Distinct(keys) && forall k :: k in groups <==> k in keys
    ensures |rows| == 0 ==> keys == [NoComponentsFound] && groups == map[NoComponentsFound := [Zero]]
    ensures |rows| > 0 ==> keys == KeyOrder(rows) && groups == Grouped(rows)
    ensures |rows| > 0 ==> Total(keys, groups) == |rows|
  {
    keys := [];
    groups := map[];
    for i := 0 to |rows|
      invariant keys == KeyOrder(rows[..i]) && groups == Grouped(rows[..i])
    {
      var row := rows[i];
      var key := GroupKey(row);
      GroupedStep(rows[..i], row);
      assert rows[..i + 1] == rows[..i] + [row];
      if key !in groups {
        groups := groups[key := []];
        keys := keys + [key];
      }
      groups := groups[key := groups[key] + [SampleOf(row)]];
    }
    assert rows[..|rows|] == rows;
    KeyOrderMembers(rows);
    GroupedTotal(rows);
    if |keys| == 0 {
      keys := [NoComponentsFound];
      groups := map[NoComponentsFound := [Zero]];
    }
  }
}
