/** The storage engine of the collector (OpenHardwareMonitor/DatabaseHelper.cs):
    one SQLite file holding three tables, reached through one static
    connection. Each table is a map from its primary key to the rest of the
    row; SQL text, connection strings and the lock are not modelled. */
module DatabaseHelper {
  import opened Wrappers
  import opened Text

  /** A single-precision reading from a sensor or counter; the model never
      does arithmetic on it. */
  type Reading = real

  datatype Table = ComponentTable | StatisticTable | ProcessTable

  /** The order in which the schema is created and the tables are cleared. */
  const TableOrder: seq<Table> := [ComponentTable, StatisticTable, ProcessTable]

  /** A `component` row, keyed by its serial number; a C# null is `None`. */
  datatype Component = Component(
    deviceType: string,
    vRam: Option<int>,
    stockCoreSpeed: Option<Reading>,
    stockMemorySpeed: Option<Reading>)

  /** Times are DateTime ticks. */
  datatype StatisticKey = StatisticKey(serial: string, timestamp: int)

  datatype Statistic = Statistic(
    machineState: string,
    temperature: Reading,
    usage: Reading,
    powerConsumption: Option<Reading>,
    coreSpeed: Option<Reading>,
    memorySpeed: Option<Reading>,
    totalRam: Reading,
    endOfLife: int)

  datatype ProcessKey = ProcessKey(pid: int, timestamp: int)

  datatype ProcessRow = ProcessRow(cpuUsage: Reading, memoryUsage: Reading, endOfLife: int)

  /** What the helper throws. `NoConnection` is the InvalidOperationException
      ADO.NET raises for a command whose connection is null; the helper does
      not wrap it. */
  datatype Error =
    | InvalidArgument(paramName: string)
    | OperationFailure(message: string)
    | InitializationFailure(message: string)
    | NoConnection

  /** The default `maxRetries` of ExecuteNonQueryWithRetry. */
  const MaxRetries: nat := 3

  /** The sleep after the k-th failed attempt is k times this many milliseconds. */
  const BackoffStepMs: nat := 100

  /** Some attempt among the first `maxRetries + 1` succeeds. */
  ghost predicate Succeeds(fails: nat -> bool, maxRetries: nat) {
    exists k: nat :: k <= maxRetries && !fails(k)
  }

  /** ExecuteNonQueryWithRetry: run a statement until it succeeds, sleeping
      100, 200, ... ms between attempts, and let the failure through once
      `maxRetries` retries have failed. `fails(k)` says whether the attempt
      made when `retryCount == k` throws SQLiteException; `sleeps` lists the
      sleeps in the order they happen. */
  method RunWithRetry(fails: nat -> bool, maxRetries: nat) returns (ok: bool, attempts: nat, sleeps: seq<nat>)
    ensures 1 <= attempts <= maxRetries + 1
    ensures forall k: nat :: k < attempts - 1 ==> fails(k)
    ensures ok <==> !fails(attempts - 1)
    ensures !ok ==> attempts == maxRetries + 1
    ensures ok <==> Succeeds(fails, maxRetries)
    ensures |sleeps| == attempts - 1
    ensures forall k :: 0 <= k < |sleeps| ==> sleeps[k] == BackoffStepMs * (k + 1)
  {
    var retryCount: nat := 0;
    sleeps := [];
    while true
      invariant retryCount <= maxRetries
      invariant forall k: nat :: k < retryCount ==> fails(k)
      invariant |sleeps| == retryCount
      invariant forall k :: 0 <= k < |sleeps| ==> sleeps[k] == BackoffStepMs * (k + 1)
      decreases maxRetries - retryCount
    {
      if !fails(retryCount) {
        return true, retryCount + 1, sleeps;
      }
      if retryCount == maxRetries {
        return false, retryCount + 1, sleeps;
      }
      retryCount := retryCount + 1;
      sleeps := sleeps + [BackoffStepMs * retryCount];
    }
  }

  function TotalSleep(sleeps: seq<nat>): nat {
    if |sleeps| == 0 then 0 else TotalSleep(sleeps[..|sleeps| - 1]) + sleeps[|sleeps| - 1]
  }

  /** The linear backoff waits 100 * n * (n + 1) / 2 ms over n retries; with
      the default three retries a statement is given up after 600 ms of sleep. */
  lemma {:induction false} BackoffTotal(sleeps: seq<nat>)
    requires forall k :: 0 <= k < |sleeps| ==> sleeps[k] == BackoffStepMs * (k + 1)
    ensures 2 * TotalSleep(sleeps) == BackoffStepMs * |sleeps| * (|sleeps| + 1)
    ensures |sleeps| == MaxRetries ==> TotalSleep(sleeps) == 600
  {
    if |sleeps| > 0 {
      BackoffTotal(sleeps[..|sleeps| - 1]);
    }
  }

  /** Every statement of `TableOrder` up to index `i` gets through its retries. */
  ghost predicate AllSucceedUpTo(i: nat, fails: (Table, nat) -> bool)
    requires i < |TableOrder|
  {
    forall j :: 0 <= j <= i ==> Succeeds((k: nat) => fails(TableOrder[j], k), MaxRetries)
  }

  lemma SetOfPrefix(base: set<Table>, i: nat)
    requires i <= |TableOrder|
    ensures base + (set j | 0 <= j < i :: TableOrder[j]) ==
      base + (if i > 0 then {ComponentTable} else {})
           + (if i > 1 then {StatisticTable} else {})
           + (if i > 2 then {ProcessTable} else {})
  {
    var prefix := set j | 0 <= j < i :: TableOrder[j];
    assert i > 0 ==> TableOrder[0] in prefix;
    assert i > 1 ==> TableOrder[1] in prefix;
    assert i > 2 ==> TableOrder[2] in prefix;
  }

  class Database {
    /** `dbConnection != null` */
    var open: bool
    /** The tables the file holds. */
    var tables: set<Table>
    var components: map<string, Component>
    var statistics: map<StatisticKey, Statistic>
    var processes: map<ProcessKey, ProcessRow>

    /** The rules the helper's argument checks enforce on every row it writes. */
    ghost predicate Valid()
      reads this
    {
      && (forall s :: s in components ==> !IsBlank(s) && !IsBlank(components[s].deviceType))
      && (forall k :: k in statistics ==> !IsBlank(k.serial) && !IsBlank(statistics[k].machineState))
    }

    /** The FOREIGN KEY of `component_statistic`, which SQLite does not
        enforce here (no `PRAGMA foreign_keys`): the collector keeps it. */
    ghost predicate ForeignKeysHold()
      reads this
    {
      forall k :: k in statistics ==> k.serial in components
    }

    /** A metrics.db that does not exist yet, with no connection open. */
    constructor ()
      ensures Valid() && ForeignKeysHold()
      ensures !open && tables == {}
      ensures components == map[] && statistics == map[] && processes == map[]
    {
      open := false;
      tables := {};
      components := map[];
      statistics := map[];
      processes := map[];
    }

    /** InitializeDatabase: open a connection, then create the three tables
        (if absent) in `TableOrder`, each under the retry policy; the first
        statement that exhausts its retries ends it with
        DatabaseInitializationException. Rows are never touched. */
    method InitializeDatabase(transient: (Table, nat) -> bool) returns (r: Outcome<Error>)
      modifies this`open, this`tables
      ensures open
      ensures tables == old(tables)
        + (if AllSucceedUpTo(0, transient) then {ComponentTable} else {})
        + (if AllSucceedUpTo(1, transient) then {StatisticTable} else {})
        + (if AllSucceedUpTo(2, transient) then {ProcessTable} else {})
      ensures r.Pass? <==> AllSucceedUpTo(2, transient)
      ensures r.Fail? ==> r.error == InitializationFailure("Failed to initialize database")
    {
      open := true;
      for i := 0 to |TableOrder|
        invariant open
        invariant forall j :: 0 <= j < i ==> Succeeds((k: nat) => transient(TableOrder[j], k), MaxRetries)
        invariant tables == old(tables) + set j | 0 <= j < i :: TableOrder[j]
      {
        var t := TableOrder[i];
        var ok, _, _ := RunWithRetry((k: nat) => transient(t, k), MaxRetries);
        if !ok {
          SetOfPrefix(old(tables), i);
          return Fail(InitializationFailure("Failed to initialize database"));
        }
        tables := tables + {t};
      }
      SetOfPrefix(old(tables), |TableOrder|);
      r := Pass;
    }

    /** ComponentExists: argument check first, then a count query. */
    method ComponentExists(serialNumber: string, engineError: bool) returns (r: Result<bool, Error>)
      ensures IsBlank(serialNumber) ==> r == Failure(InvalidArgument("serialNumber"))
      ensures !IsBlank(serialNumber) && !open ==> r == Failure(NoConnection)
      ensures !IsBlank(serialNumber) && open && (ComponentTable !in tables || engineError) ==>
        r == Failure(OperationFailure("Failed to check component existence"))
      ensures !IsBlank(serialNumber) && open && ComponentTable in tables && !engineError ==>
        r == Success(serialNumber in components)
    {
      if IsBlank(serialNumber) {
        return Failure(InvalidArgument("serialNumber"));
      }
      if !open {
        return Failure(NoConnection);
      }
      if ComponentTable !in tables || engineError {
        return Failure(OperationFailure("Failed to check component existence"));
      }
      r := Success(serialNumber in components);
    }

    /** InsertComponent: INSERT OR IGNORE, so a serial already present keeps
        the attributes it was first stored with. */
    method InsertComponent(serialNumber: string, deviceType: string, vRam: Option<int>,
                           stockCoreSpeed: Option<Reading>, stockMemorySpeed: Option<Reading>,
                           engineError: bool) returns (r: Outcome<Error>)
      requires Valid()
      modifies this`components
      ensures Valid()
      ensures IsBlank(serialNumber) ==> r == Fail(InvalidArgument("serialNumber"))
      ensures !IsBlank(serialNumber) && IsBlank(deviceType) ==> r == Fail(InvalidArgument("deviceType"))
      ensures !IsBlank(serialNumber) && !IsBlank(deviceType) && !open ==> r == Fail(NoConnection)
      ensures !IsBlank(serialNumber) && !IsBlank(deviceType) && open && (ComponentTable !in tables || engineError) ==>
        r == Fail(OperationFailure("Failed to insert component"))
      ensures r.Pass? <==> !IsBlank(serialNumber) && !IsBlank(deviceType) && open && ComponentTable in tables && !engineError
      ensures components ==
        if r.Pass? && serialNumber !in old(components)
        then old(components)[serialNumber := Component(deviceType, vRam, stockCoreSpeed, stockMemorySpeed)]
        else old(components)
    {
      if IsBlank(serialNumber) {
        return Fail(InvalidArgument("serialNumber"));
      }
      if IsBlank(deviceType) {
        return Fail(InvalidArgument("deviceType"));
      }
      if !open {
        return Fail(NoConnection);
      }
      if ComponentTable !in tables || engineError {
        return Fail(OperationFailure("Failed to insert component"));
      }
      if serialNumber !in components {
        components := components[serialNumber := Component(deviceType, vRam, stockCoreSpeed, stockMemorySpeed)];
      }
      r := Pass;
    }

    /** InsertComponentStatistic: INSERT OR REPLACE keyed by (serial, timestamp);
        the component is not looked up. */
    method InsertComponentStatistic(serialNumber: string, timestamp: int, machineState: string,
                                    temperature: Reading, usage: Reading, powerConsumption: Option<Reading>,
                                    coreSpeed: Option<Reading>, memorySpeed: Option<Reading>,
                                    totalRam: Reading, endOfLife: int, engineError: bool)
      returns (r: Outcome<Error>)
      requires Valid()
      modifies this`statistics
      ensures Valid()
      ensures IsBlank(serialNumber) ==> r == Fail(InvalidArgument("serialNumber"))
      ensures !IsBlank(serialNumber) && IsBlank(machineState) ==> r == Fail(InvalidArgument("machineState"))
      ensures !IsBlank(serialNumber) && !IsBlank(machineState) && !open ==> r == Fail(NoConnection)
      ensures !IsBlank(serialNumber) && !IsBlank(machineState) && open && (StatisticTable !in tables || engineError) ==>
        r == Fail(OperationFailure("Failed to insert component statistic"))
      ensures r.Pass? <==> !IsBlank(serialNumber) && !IsBlank(machineState) && open && StatisticTable in tables && !engineError
      ensures statistics ==
        if r.Pass?
        then old(statistics)[StatisticKey(serialNumber, timestamp) :=
               Statistic(machineState, temperature, usage, powerConsumption, coreSpeed, memorySpeed, totalRam, endOfLife)]
        else old(statistics)
    {
      if IsBlank(serialNumber) {
        return Fail(InvalidArgument("serialNumber"));
      }
      if IsBlank(machineState) {
        return Fail(InvalidArgument("machineState"));
      }
      if !open {
        return Fail(NoConnection);
      }
      if StatisticTable !in tables || engineError {
        return Fail(OperationFailure("Failed to insert component statistic"));
      }
      statistics := statistics[StatisticKey(serialNumber, timestamp) :=
        Statistic(machineState, temperature, usage, powerConsumption, coreSpeed, memorySpeed, totalRam, endOfLife)];
      r := Pass;
    }

    /** InsertProcess: a plain INSERT with no argument checks; a row already
        stored under (pid, timestamp) violates the primary key. */
    method InsertProcess(pid: int, timestamp: int, cpuUsage: Reading, memoryUsage: Reading,
                         endOfLife: int, engineError: bool) returns (r: Outcome<Error>)
      modifies this`processes
      ensures !open ==> r == Fail(NoConnection)
      ensures open && (ProcessTable !in tables || engineError || ProcessKey(pid, timestamp) in old(processes)) ==>
        r == Fail(OperationFailure("Failed to insert process"))
      ensures r.Pass? <==>
        open && ProcessTable in tables && !engineError && ProcessKey(pid, timestamp) !in old(processes)
      ensures processes ==
        if r.Pass? then old(processes)[ProcessKey(pid, timestamp) := ProcessRow(cpuUsage, memoryUsage, endOfLife)]
        else old(processes)
    {
      if !open {
        return Fail(NoConnection);
      }
      var key := ProcessKey(pid, timestamp);
      if ProcessTable !in tables || engineError || key in processes {
        return Fail(OperationFailure("Failed to insert process"));
      }
      processes := processes[key := ProcessRow(cpuUsage, memoryUsage, endOfLife)];
      r := Pass;
    }

    /** ClearDatabase: `DELETE FROM` each table in `TableOrder` under the retry
        policy. A DELETE on a missing table fails on every attempt. The first
        statement to exhaust its retries ends the call; tables emptied before
        it stay empty. */
    method ClearDatabase(transient: (Table, nat) -> bool) returns (r: Outcome<Error>)
      requires Valid()
      modifies this`components, this`statistics, this`processes
      ensures Valid()
      ensures !open ==> r == Fail(NoConnection)
      ensures r.Pass? <==> open && AllSucceedUpTo(2, Failing(transient))
      ensures open && r.Fail? ==> r.error == OperationFailure("Failed to clear database")
      ensures components == if open && AllSucceedUpTo(0, Failing(transient)) then map[] else old(components)
      ensures statistics == if open && AllSucceedUpTo(1, Failing(transient)) then map[] else old(statistics)
      ensures processes == if open && AllSucceedUpTo(2, Failing(transient)) then map[] else old(processes)
      ensures r.Pass? ==> ForeignKeysHold()
    {
      if !open {
        return Fail(NoConnection);
      }
      var fails := Failing(transient);
      for i := 0 to |TableOrder|
        invariant forall j :: 0 <= j < i ==> Succeeds((k: nat) => fails(TableOrder[j], k), MaxRetries)
        invariant components == if i > 0 then map[] else old(components)
        invariant statistics == if i > 1 then map[] else old(statistics)
        invariant processes == if i > 2 then map[] else old(processes)
      {
        var t := TableOrder[i];
        var ok, _, _ := RunWithRetry((k: nat) => fails(t, k), MaxRetries);
        if !ok {
          return Fail(OperationFailure("Failed to clear database"));
        }
        match t
        case ComponentTable => components := map[];
        case StatisticTable => statistics := map[];
        case ProcessTable => processes := map[];
      }
      r := Pass;
    }

    /** A `DELETE FROM t` attempt fails when the table is missing or the engine
        reports a transient error. */
    function Failing(transient: (Table, nat) -> bool): (Table, nat) -> bool
      reads this
    {
      var present := tables;
      (t: Table, k: nat) => t !in present || transient(t, k)
    }

    /** CloseConnection: close and drop the connection if there is one; the
        file and its rows stay. A second call finds no connection and does
        nothing. */
    method CloseConnection()
      modifies this`open
      ensures !open
      ensures !old(open) ==> unchanged(this)
    {
      open := false;
    }
  }

  /** A valid serial is absent from an empty component table and present
      once InsertComponent has stored it. */
  method ExistsAfterInsert(db: Database, serialNumber: string, deviceType: string)
    returns (before: Result<bool, Error>, after: Result<bool, Error>)
    requires db.Valid() && db.open && ComponentTable in db.tables && db.components == map[]
    requires !IsBlank(serialNumber) && !IsBlank(deviceType)
    modifies db`components
    ensures before == Success(false) && after == Success(true)
  {
    before := db.ComponentExists(serialNumber, false);
    var inserted := db.InsertComponent(serialNumber, deviceType, None, None, None, false);
    after := db.ComponentExists(serialNumber, false);
  }

  /** Inserting the same serial twice keeps what the first insert stored. */
  method InsertTwiceKeepsFirst(db: Database, serialNumber: string, first: Component, second: Component)
    returns (stored: Option<Component>)
    requires db.Valid() && db.open && ComponentTable in db.tables && serialNumber !in db.components
    requires !IsBlank(serialNumber) && !IsBlank(first.deviceType) && !IsBlank(second.deviceType)
    modifies db`components
    ensures stored == Some(first)
  {
    var r1 := db.InsertComponent(serialNumber, first.deviceType, first.vRam, first.stockCoreSpeed,
                                 first.stockMemorySpeed, false);
    var r2 := db.InsertComponent(serialNumber, second.deviceType, second.vRam, second.stockCoreSpeed,
                                 second.stockMemorySpeed, false);
    stored := if serialNumber in db.components then Some(db.components[serialNumber]) else None;
  }
}
