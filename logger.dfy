/** The collector's file logger (OpenHardwareMonitor/Logger.cs): the level
    filter, rotation of the active log past 5 MiB, retention of the ten
    newest archives, and the global mutex around each write. */
module Logger {
  import opened Wrappers
  import opened Text
  import opened Utf8
  import opened CivilTime

  // =====================================================================
  // Levels

  datatype LogLevel = Debug | Info | Warning | Error | Critical

  /** The enum's underlying value. */
  function Rank(level: LogLevel): nat {
    match level
    case Debug => 0
    case Info => 1
    case Warning => 2
    case Error => 3
    case Critical => 4
  }

  function LevelName(level: LogLevel): string {
    match level
    case Debug => "Debug"
    case Info => "Info"
    case Warning => "Warning"
    case Error => "Error"
    case Critical => "Critical"
  }

  /** `Enum.TryParse` of the MinimumLogLevel setting: a level's name gives
      that level; a missing or unknown setting leaves the default, Debug. */
  function ParseMinimumLevel(setting: Option<string>): LogLevel {
    match setting
    case None => Debug
    case Some(s) =>
      if s == "Info" then Info
      else if s == "Warning" then Warning
      else if s == "Error" then Error
      else if s == "Critical" then Critical
      else Debug
  }

  lemma ParseMinimumLevelNames(level: LogLevel)
    ensures ParseMinimumLevel(Some(LevelName(level))) == level
    ensures ParseMinimumLevel(None) == Debug
  {
  }

  /** The filter in `Log`: an entry is written unless its level is below the
      minimum. */
  predicate Passes(level: LogLevel, minimum: LogLevel) {
    !(Rank(level) < Rank(minimum))
  }

  /** Debug < Info < Warning < Error < Critical; Critical always passes,
      everything passes a Debug minimum, and raising the minimum never lets
      more through. */
  lemma FilterMonotone(level: LogLevel, low: LogLevel, high: LogLevel)
    ensures Rank(Debug) < Rank(Info) < Rank(Warning) < Rank(Error) < Rank(Critical)
    ensures Passes(Critical, low) && Passes(level, Debug)
    ensures Rank(low) <= Rank(high) && Passes(level, high) ==> Passes(level, low)
    ensures Passes(level, level)
  {
  }

  // =====================================================================
  // Files

  const LogFileName: string := "OHM_Log.log"
  const MaxLogFileSize: nat := 5 * 1024 * 1024
  const MaxArchivedLogs: nat := 10
  const NewLine: string := "\r\n"

  /** `OHM_Log_{now:yyyyMMdd_HHmmss}.log` */
  function ArchiveName(now: DateTime): string
    requires IsValid(now)
  {
    "OHM_Log_" + Padded(now.year, 4) + Padded(now.month, 2) + Padded(now.day, 2) + "_"
      + Padded(now.hour, 2) + Padded(now.minute, 2) + Padded(now.second, 2) + ".log"
  }

  /** The names `Directory.GetFiles(LogDirectory, "OHM_Log_*.log")`
      matches: the prefix and the extension compared without regard to
      ASCII case, with anything (possibly nothing) between them. */
  predicate IsArchiveName(name: string) {
    && |name| >= |"OHM_Log_.log"|
    && FoldCase(name[..8]) == "ohm_log_"
    && FoldCase(name[|name| - 4..]) == ".log"
  }

  /** Archive names are found by the archive listing and the active log
      is not. */
  lemma ArchiveNameShape(t: DateTime)
    requires IsValid(t)
    ensures IsArchiveName(ArchiveName(t))
    ensures !IsArchiveName(LogFileName)
  {
    var a := ArchiveName(t);
    assert |a| == 27 && a[..8] == "OHM_Log_" && a[23..] == ".log";
    assert FoldCase("OHM_Log_") == "ohm_log_";
    assert FoldCase(".log") == ".log";
    assert FoldCase(LogFileName[..8])[7] == '.';
  }

  /** Two rotations get the same archive name exactly when they happen in
      the same second. */
  lemma ArchiveNameInjective(t: DateTime, u: DateTime)
    requires IsValid(t) && IsValid(u)
    ensures ArchiveName(t) == ArchiveName(u) <==>
      (t.year, t.month, t.day, t.hour, t.minute, t.second) == (u.year, u.month, u.day, u.hour, u.minute, u.second)
  {
    if ArchiveName(t) == ArchiveName(u) {
      var y, mo, d, h, mi, sec := Padded(t.year, 4), Padded(t.month, 2), Padded(t.day, 2),
                                  Padded(t.hour, 2), Padded(t.minute, 2), Padded(t.second, 2);
      var y', mo', d', h', mi', sec' := Padded(u.year, 4), Padded(u.month, 2), Padded(u.day, 2),
                                        Padded(u.hour, 2), Padded(u.minute, 2), Padded(u.second, 2);
      PeelRight("OHM_Log_" + y + mo + d + "_" + h + mi + sec, ".log", "OHM_Log_" + y' + mo' + d' + "_" + h' + mi' + sec', ".log");
      PeelRight("OHM_Log_" + y + mo + d + "_" + h + mi, sec, "OHM_Log_" + y' + mo' + d' + "_" + h' + mi', sec');
      PeelRight("OHM_Log_" + y + mo + d + "_" + h, mi, "OHM_Log_" + y' + mo' + d' + "_" + h', mi');
      PeelRight("OHM_Log_" + y + mo + d + "_", h, "OHM_Log_" + y' + mo' + d' + "_", h');
      PeelRight("OHM_Log_" + y + mo + d, "_", "OHM_Log_" + y' + mo' + d', "_");
      PeelRight("OHM_Log_" + y + mo, d, "OHM_Log_" + y' + mo', d');
      PeelRight("OHM_Log_" + y, mo, "OHM_Log_" + y', mo');
      PeelRight("OHM_Log_", y, "OHM_Log_", y');
      PaddedInjective(t.year, u.year, 4);
      PaddedInjective(t.month, u.month, 2);
      PaddedInjective(t.day, u.day, 2);
      PaddedInjective(t.hour, u.hour, 2);
      PaddedInjective(t.minute, u.minute, 2);
      PaddedInjective(t.second, u.second, 2);
    }
  }

  lemma PeelRight(x: string, y: string, x': string, y': string)
    requires |y| == |y'| && x + y == x' + y'
    ensures x == x' && y == y'
  {
    assert x == (x + y)[..|x|] && x' == (x' + y')[..|x'|];
    assert y == (x + y)[|x|..] && y' == (x' + y')[|x'|..];
  }

  lemma PaddedInjective(m: nat, n: nat, width: nat)
    requires m < Pow10(width) && n < Pow10(width) && Padded(m, width) == Padded(n, width)
    ensures m == n
  {
    PaddedValue(m, width);
    PaddedValue(n, width);
  }

  /** The Logs directory: the active log, if present, and the other files
      by name with their contents. */
  datatype LogFiles = LogFiles(activeExists: bool, active: string, archives: map<string, string>)

  /** The active log's `FileInfo.Length`: UTF-8 bytes, as AppendAllText
      writes them. */
  function ActiveSize(files: LogFiles): nat {
    |Encode(files.active)|
  }

  predicate NeedsRotation(files: LogFiles) {
    files.activeExists && ActiveSize(files) > MaxLogFileSize
  }

  /** The Logs directory after RotateLogFileIfNeeded. `File.Move` refuses an
      existing destination; the exception is caught and nothing changes. */
  function Rotated(files: LogFiles, now: DateTime): LogFiles
    requires IsValid(now)
  {
    if NeedsRotation(files) && ArchiveName(now) !in files.archives
    then LogFiles(true, "", files.archives[ArchiveName(now) := files.active])
    else files
  }

  /** Rotation loses no text: an over-size log moves whole into a fresh
      archive and is recreated empty, every other file keeps its content,
      and a log at or under 5 MiB is left alone. */
  lemma RotationKeepsText(files: LogFiles, now: DateTime)
    requires IsValid(now)
    ensures var after := Rotated(files, now);
      && (forall n :: n in files.archives ==> n in after.archives && after.archives[n] == files.archives[n])
      && (after != files ==> after.archives[ArchiveName(now)] == files.active && ActiveSize(after) == 0
                             && |after.archives| == |files.archives| + 1)
      && (!NeedsRotation(files) ==> after == files)
      && (NeedsRotation(after) ==> after == files)
  {
    var after := Rotated(files, now);
    if after != files {
      assert Encode("") == [];
    }
  }

  // =====================================================================
  // Entries

  /** What an exception contributes to an entry. */
  datatype ExceptionInfo = ExceptionInfo(typeName: string, message: string, stackTrace: string,
                                         inner: Option<ExceptionInfo>)

  /** `yyyy-MM-dd HH:mm:ss.fff` */
  function DetailedStamp(now: DateTime): string
    requires IsValid(now)
  {
    Padded(now.year, 4) + "-" + Padded(now.month, 2) + "-" + Padded(now.day, 2) + " "
      + Padded(now.hour, 2) + ":" + Padded(now.minute, 2) + ":" + Padded(now.second, 2) + "."
      + Padded(now.microsecond / 1000, 3)
  }

  function EntryHeader(level: LogLevel, message: string, now: DateTime, threadId: nat): string
    requires IsValid(now)
  {
    "[" + DetailedStamp(now) + "] [" + LevelName(level) + "] [Thread:" + DecimalString(threadId) + "] " + message
  }

  function ExceptionLine(e: ExceptionInfo): string { "Exception: " + e.typeName + ": " + e.message }
  function StackTraceLine(e: ExceptionInfo): string { "Stack Trace: " + e.stackTrace }
  function InnerExceptionLine(e: ExceptionInfo): string { "Inner Exception: " + e.typeName + ": " + e.message }
  function InnerStackTraceLine(e: ExceptionInfo): string { "Inner Stack Trace: " + e.stackTrace }

  function ExceptionSection(e: ExceptionInfo): string {
    NewLine + ExceptionLine(e) + NewLine + StackTraceLine(e)
  }

  function InnerSection(e: ExceptionInfo): string {
    NewLine + InnerExceptionLine(e) + NewLine + InnerStackTraceLine(e)
  }

  /** FormatDetailedEntry: the header, then an exception section when there
      is an exception, then an inner-exception section when it has one. */
  method FormatDetailedEntry(level: LogLevel, message: string, exception: Option<ExceptionInfo>,
                             now: DateTime, threadId: nat) returns (entry: string)
    requires IsValid(now)
    ensures entry == DetailedEntry(level, message, exception, now, threadId)
    ensures StartsWith(entry, EntryHeader(level, message, now, threadId))
    ensures entry == EntryHeader(level, message, now, threadId) <==> exception.None?
  {
    entry := EntryHeader(level, message, now, threadId);
    if exception.Some? {
      entry := entry + ExceptionSection(exception.value);
      if exception.value.inner.Some? {
        entry := entry + InnerSection(exception.value.inner.value);
      }
    }
  }

  /** The number of sections an entry carries. */
  function SectionCount(exception: Option<ExceptionInfo>): nat {
    match exception
    case None => 0
    case Some(e) => if e.inner.Some? then 2 else 1
  }

  /** The entry FormatDetailedEntry builds, as one expression. */
  function DetailedEntry(level: LogLevel, message: string, exception: Option<ExceptionInfo>,
                         now: DateTime, threadId: nat): string
    requires IsValid(now)
  {
    WithSections(EntryHeader(level, message, now, threadId), exception)
  }

  function WithSections(header: string, exception: Option<ExceptionInfo>): string {
    header
      + (if exception.Some? then ExceptionSection(exception.value) else "")
      + (if exception.Some? && exception.value.inner.Some? then InnerSection(exception.value.inner.value) else "")
  }

  predicate SingleLine(s: string) { '\n' !in s }

  predicate SingleLineException(e: ExceptionInfo) {
    SingleLine(e.typeName) && SingleLine(e.message) && SingleLine(e.stackTrace)
  }

  /** The lines an entry reads as in the log file, each without its
      terminating line feed (the carriage return stays with the line). */
  function EntryLineList(level: LogLevel, message: string, exception: Option<ExceptionInfo>,
                         now: DateTime, threadId: nat): seq<string>
    requires IsValid(now)
  {
    LinesOf(EntryHeader(level, message, now, threadId), exception)
  }

  function LinesOf(header: string, exception: Option<ExceptionInfo>): seq<string> {
    match exception
    case None => [header]
    case Some(e) =>
      match e.inner
      case None => [header + "\r", ExceptionLine(e) + "\r", StackTraceLine(e)]
      case Some(i) =>
        [header + "\r", ExceptionLine(e) + "\r", StackTraceLine(e) + "\r", InnerExceptionLine(i) + "\r",
         InnerStackTraceLine(i)]
  }

  lemma JoinSnoc(parts: seq<string>, sep: string, x: string)
    requires |parts| > 0
    ensures Join(parts + [x], sep) == Join(parts, sep) + sep + x
  {
    assert (parts + [x])[..|parts|] == parts;
  }

  lemma HeaderSingleLine(level: LogLevel, message: string, now: DateTime, threadId: nat)
    requires IsValid(now) && SingleLine(message)
    ensures SingleLine(EntryHeader(level, message, now, threadId))
  {
    DecimalRoundTrip(threadId);
    var stamp := DetailedStamp(now);
    assert forall i :: 0 <= i < |stamp| ==> stamp[i] != '\n';
    var digits := DecimalString(threadId);
    assert forall i :: 0 <= i < |digits| ==> digits[i] != '\n';
    var name := LevelName(level);
    assert forall i :: 0 <= i < |name| ==> name[i] != '\n';
  }

  lemma JoinThree(a: string, b: string, c: string, sep: string)
    ensures Join([a, b, c], sep) == a + sep + b + sep + c
  {
    JoinSnoc([a], sep, b);
    assert [a] + [b] == [a, b];
    JoinSnoc([a, b], sep, c);
    assert [a, b] + [c] == [a, b, c];
  }

  lemma JoinFive(a: string, b: string, c: string, d: string, e: string, sep: string)
    ensures Join([a, b, c, d, e], sep) == a + sep + b + sep + c + sep + d + sep + e
  {
    JoinThree(a, b, c, sep);
    JoinSnoc([a, b, c], sep, d);
    assert [a, b, c] + [d] == [a, b, c, d];
    JoinSnoc([a, b, c, d], sep, e);
    assert [a, b, c, d] + [e] == [a, b, c, d, e];
  }

  /** A line break is a carriage return ending one line and a line feed
      starting the next. */
  lemma Regroup(h: string, x: string, y: string)
    ensures h + (NewLine + x + NewLine + y) == (h + "\r") + "\n" + (x + "\r") + "\n" + y
  {
    assert NewLine == "\r" + "\n";
  }

  lemma SectionsJoin(header: string, exception: Option<ExceptionInfo>)
    ensures WithSections(header, exception) == Join(LinesOf(header, exception), "\n")
  {
    if exception.Some? {
      var e := exception.value;
      if e.inner.Some? {
        InnerSectionsJoin(header, e, e.inner.value);
      } else {
        ExceptionSectionJoin(header, e);
      }
    }
  }

  lemma ExceptionSectionJoin(header: string, e: ExceptionInfo)
    ensures header + ExceptionSection(e)
         == Join([header + "\r", ExceptionLine(e) + "\r", StackTraceLine(e)], "\n")
  {
    Regroup(header, ExceptionLine(e), StackTraceLine(e));
    JoinThree(header + "\r", ExceptionLine(e) + "\r", StackTraceLine(e), "\n");
  }

  lemma InnerSectionsJoin(header: string, e: ExceptionInfo, i: ExceptionInfo)
    ensures header + ExceptionSection(e) + InnerSection(i)
         == Join([header + "\r", ExceptionLine(e) + "\r", StackTraceLine(e) + "\r", InnerExceptionLine(i) + "\r",
                  InnerStackTraceLine(i)], "\n")
  {
    TwoSectionsJoin(header, ExceptionLine(e), StackTraceLine(e), InnerExceptionLine(i), InnerStackTraceLine(i));
  }

  lemma TwoSectionsJoin(h: string, x: string, y: string, z: string, w: string)
    ensures h + (NewLine + x + NewLine + y) + (NewLine + z + NewLine + w)
         == Join([h + "\r", x + "\r", y + "\r", z + "\r", w], "\n")
  {
    Regroup(h, x, y);
    Regroup(h + (NewLine + x + NewLine + y), z, w);
    JoinFive(h + "\r", x + "\r", y + "\r", z + "\r", w, "\n");
  }

  /** An entry whose message and exception texts hold no line feed reads
      back from the file as its header line followed by two lines per
      exception section; every line but the last ends with the carriage
      return of the "\r\n" break. */
  lemma EntryLines(level: LogLevel, message: string, exception: Option<ExceptionInfo>, now: DateTime,
                   threadId: nat)
    requires IsValid(now) && SingleLine(message)
    requires exception.Some? ==> SingleLineException(exception.value)
    requires exception.Some? && exception.value.inner.Some? ==> SingleLineException(exception.value.inner.value)
    ensures var lines := Split(DetailedEntry(level, message, exception, now, threadId), '\n');
      && lines == EntryLineList(level, message, exception, now, threadId)
      && |lines| == 1 + 2 * SectionCount(exception)
      && lines[0] == EntryHeader(level, message, now, threadId) + (if exception.Some? then "\r" else "")
  {
    HeaderSingleLine(level, message, now, threadId);
    SectionsSplit(EntryHeader(level, message, now, threadId), exception);
  }

  lemma SectionsSplit(header: string, exception: Option<ExceptionInfo>)
    requires SingleLine(header)
    requires exception.Some? ==> SingleLineException(exception.value)
    requires exception.Some? && exception.value.inner.Some? ==> SingleLineException(exception.value.inner.value)
    ensures Split(WithSections(header, exception), '\n') == LinesOf(header, exception)
    ensures |LinesOf(header, exception)| == 1 + 2 * SectionCount(exception)
  {
    SectionsJoin(header, exception);
    LinesSingle(header, exception);
    SplitJoin(LinesOf(header, exception), '\n');
  }

  lemma LinesSingle(header: string, exception: Option<ExceptionInfo>)
    requires SingleLine(header)
    requires exception.Some? ==> SingleLineException(exception.value)
    requires exception.Some? && exception.value.inner.Some? ==> SingleLineException(exception.value.inner.value)
    ensures forall k :: 0 <= k < |LinesOf(header, exception)| ==> SingleLine(LinesOf(header, exception)[k])
  {
    assert SingleLine("\r");
    if exception.Some? {
      var e := exception.value;
      ExceptionLinesSingle(e);
      if e.inner.Some? {
        ExceptionLinesSingle(e.inner.value);
      }
    }
  }

  lemma ExceptionLinesSingle(e: ExceptionInfo)
    requires SingleLineException(e)
    ensures SingleLine(ExceptionLine(e) + "\r") && SingleLine(StackTraceLine(e) + "\r") && SingleLine(StackTraceLine(e))
    ensures SingleLine(InnerExceptionLine(e) + "\r") && SingleLine(InnerStackTraceLine(e))
  {
    assert SingleLine("Exception: ") && SingleLine(": ") && SingleLine("Stack Trace: ");
    assert SingleLine("Inner Exception: ") && SingleLine("Inner Stack Trace: ") && SingleLine("\r");
  }

  // =====================================================================
  // Sorting the archive listing

  predicate AdjacentSorted(s: seq<string>) {
    forall k :: 0 < k < |s| ==> LexLe(s[k - 1], s[k])
  }

  predicate Sorted(s: seq<string>) {
    forall i, j :: 0 <= i < j < |s| ==> LexLe(s[i], s[j])
  }

  predicate Distinct(s: seq<string>) {
    forall i, j :: 0 <= i < j < |s| ==> s[i] != s[j]
  }

  /** A name occurs at most once in a listing without repeats. */
  lemma {:induction false} DistinctCount(s: seq<string>, x: string)
    requires Distinct(s)
    ensures multiset(s)[x] <= 1
    decreases |s|
  {
    if |s| > 0 {
      var init := s[..|s| - 1];
      assert s == init + [s[|s| - 1]];
      assert Distinct(init) by {
        forall i, j | 0 <= i < j < |init| ensures init[i] != init[j] {
          assert init[i] == s[i] && init[j] == s[j];
        }
      }
      DistinctCount(init, x);
      if s[|s| - 1] == x {
        assert x !in init by {
          forall i | 0 <= i < |init| ensures init[i] != x {
            assert init[i] == s[i];
          }
        }
      }
    }
  }

  /** Reordering a listing without repeats leaves it without repeats. */
  lemma DistinctPermutation(a: seq<string>, b: seq<string>)
    requires Distinct(a) && multiset(a) == multiset(b)
    ensures Distinct(b)
  {
    forall i, j | 0 <= i < j < |b| ensures b[i] != b[j] {
      if b[i] == b[j] {
        assert b == b[..j] + [b[j]] + b[j + 1..];
        assert b[..j][i] == b[i];
        assert multiset(b)[b[i]] >= 2;
        DistinctCount(a, b[i]);
        assert false;
      }
    }
  }

  lemma {:induction false} AdjacentSortedIsSorted(s: seq<string>)
    requires AdjacentSorted(s)
    ensures Sorted(s)
    decreases |s|
  {
    if |s| > 1 {
      var init := s[..|s| - 1];
      AdjacentSortedIsSorted(init);
      forall i, j | 0 <= i < j < |s|
        ensures LexLe(s[i], s[j])
      {
        if j < |s| - 1 {
          assert s[i] == init[i] && s[j] == init[j];
        } else if i < j - 1 {
          assert s[i] == init[i] && s[j - 1] == init[j - 1];
          LexLeTransitive(s[i], s[j - 1], s[j]);
        }
      }
    }
  }

  /** `Array.Sort` on the listing: an in-place insertion sort under the
      ordinal order of names. */
  method SortNames(a: array<string>)
    modifies a
    ensures Sorted(a[..])
    ensures multiset(a[..]) == multiset(old(a[..]))
  {
    var i := 1;
    while i < a.Length
      invariant a.Length == 0 || 1 <= i <= a.Length
      invariant forall k :: 0 < k < i && k < a.Length ==> LexLe(a[k - 1], a[k])
      invariant multiset(a[..]) == multiset(old(a[..]))
    {
      InsertLast(a, i);
      i := i + 1;
    }
    AdjacentSortedIsSorted(a[..]);
  }

  /** One step of the insertion sort: `a[i]` moves down by adjacent swaps
      until it is not below its left neighbour, leaving `a[..i + 1]`
      sorted. */
  method InsertLast(a: array<string>, i: nat)
    requires 0 < i < a.Length
    requires forall k :: 0 < k < i ==> LexLe(a[k - 1], a[k])
    modifies a
    ensures forall k :: 0 < k <= i ==> LexLe(a[k - 1], a[k])
    ensures multiset(a[..]) == multiset(old(a[..]))
  {
    var j := i;
    while 0 < j && !LexLe(a[j - 1], a[j])
      invariant 0 <= j <= i
      invariant Sifting(a[..], i, j)
      invariant multiset(a[..]) == multiset(old(a[..]))
    {
      ghost var before := a[..];
      SiftStep(before, i, j);
      a[j - 1], a[j] := a[j], a[j - 1];
      assert a[..] == before[j - 1 := before[j]][j := before[j - 1]];
      j := j - 1;
    }
    SiftDone(a[..], i, j);
  }

  /** The state of the sifting loop: the first `i + 1` names are in order
      except, possibly, at the moving name's position `j`, and its two
      neighbours are in order with each other. */
  predicate Sifting(s: seq<string>, i: nat, j: nat)
    requires j <= i < |s|
  {
    && (forall k :: 0 < k <= i && k != j ==> LexLe(s[k - 1], s[k]))
    && (0 < j < i ==> LexLe(s[j - 1], s[j + 1]))
  }

  lemma SiftStep(s: seq<string>, i: nat, j: nat)
    requires 0 < j <= i < |s| && Sifting(s, i, j) && !LexLe(s[j - 1], s[j])
    ensures Sifting(s[j - 1 := s[j]][j := s[j - 1]], i, j - 1)
  {
    LexLeTotal(s[j - 1], s[j]);
  }

  lemma SiftDone(s: seq<string>, i: nat, j: nat)
    requires j <= i < |s| && Sifting(s, i, j) && (j == 0 || LexLe(s[j - 1], s[j]))
    ensures forall k :: 0 < k <= i ==> LexLe(s[k - 1], s[k])
  {
  }

  // =====================================================================
  // The logger's state

  /** What one write did with the global mutex. */
  datatype MutexEvent = Acquired | TimedOut | Appended | Released

  /** How `globalMutex.WaitOne(100)` ends: the mutex comes in time, the wait
      times out, or its previous owner ended without releasing it, in which
      case the call takes the mutex and then throws AbandonedMutexException. */
  datatype WaitOutcome = Signalled | Timeout | Abandoned

  /** A listing of a folder holding `archives` by the pattern
      `OHM_Log_*.log`: every archive-named file, each once. */
  ghost predicate ListsArchives(listing: seq<string>, archives: map<string, string>) {
    && Distinct(listing)
    && (forall n :: n in listing <==> n in archives && IsArchiveName(n))
  }

  /** `Directory.GetFiles(LogDirectory, "OHM_Log_*.log")`: the archive-named
      files of the folder, each once, in an order the file system picks. */
  method GetArchiveFiles(archives: map<string, string>) returns (listing: array<string>)
    ensures fresh(listing)
    ensures ListsArchives(listing[..], archives)
  {
    var remaining := set n | n in archives && IsArchiveName(n);
    listing := new string[|remaining|];
    var i := 0;
    while remaining != {}
      invariant 0 <= i <= listing.Length
      invariant i + |remaining| == listing.Length
      invariant Distinct(listing[..i])
      invariant forall k :: 0 <= k < i ==> listing[k] !in remaining
      invariant forall n :: n in remaining ==> n in archives && IsArchiveName(n)
      invariant forall n :: n in archives && IsArchiveName(n) ==> n in remaining || n in listing[..i]
      invariant forall k :: 0 <= k < i ==> listing[k] in archives && IsArchiveName(listing[k])
    {
      var n :| n in remaining;
      ghost var listed := listing[..i];
      listing[i] := n;
      assert listing[..i + 1] == listed + [n];
      remaining := remaining - {n};
      i := i + 1;
    }
    assert listing[..] == listing[..i];
  }

  class LogStore {
    var minimumLevel: LogLevel
    var files: LogFiles
    /** How many times the logger has taken the global mutex without giving
        it back; the mutex is recursive for the thread that owns it. */
    var ownership: nat
    ghost var trace: seq<MutexEvent>

    /** The static constructor: read the minimum level from the setting,
        initialize the log file (which trims the archives of the folder
        `existing`), then log "Logger initialized" at Info. */
    constructor (setting: Option<string>, existing: LogFiles, locked: string -> bool,
                 now: DateTime, threadId: nat, wait: WaitOutcome, appendFails: bool)
      requires IsValid(now)
      ensures minimumLevel == ParseMinimumLevel(setting)
      ensures files.activeExists
      ensures ownership == if Passes(Info, minimumLevel) && wait == Abandoned then 1 else 0
      ensures trace == if Passes(Info, minimumLevel) then WriteTrace(wait, appendFails) else []
      ensures exists sorted :: (
        && ListsArchives(sorted, existing.archives)
        && (|sorted| > MaxArchivedLogs ==> Sorted(sorted))
        && var init := LogFiles(true, if existing.activeExists then existing.active else "",
                                existing.archives - Doomed(sorted, locked));
           files == if Passes(Info, minimumLevel)
                    then AfterWrite(init, DetailedEntry(Info, "Logger initialized", None, now, threadId), now,
                                    wait == Signalled, appendFails)
                    else init)
    {
      minimumLevel := ParseMinimumLevel(setting);
      files := existing;
      ownership := 0;
      trace := [];
      new;
      ghost var sorted := InitializeLogFile(locked);
      ghost var init := files;
      assert init == LogFiles(true, if existing.activeExists then existing.active else "",
                              existing.archives - Doomed(sorted, locked));
      Log(Info, "Logger initialized", None, now, threadId, wait, appendFails);
    }

    /** InitializeLogFile: create the log, empty, if it does not exist, then
        clean up old archives. */
    method InitializeLogFile(locked: string -> bool) returns (ghost sorted: seq<string>)
      modifies this`files
      ensures files.activeExists
      ensures files.active == if old(files.activeExists) then old(files.active) else ""
      ensures ListsArchives(sorted, old(files.archives))
      ensures |sorted| > MaxArchivedLogs ==> Sorted(sorted)
      ensures files.archives == old(files.archives) - Doomed(sorted, locked)
    {
      if !files.activeExists {
        files := files.(activeExists := true, active := "");
      }
      sorted := CleanUpOldArchives(locked);
    }

    /** RotateLogFileIfNeeded */
    method RotateLogFileIfNeeded(now: DateTime)
      requires IsValid(now)
      modifies this`files
      ensures files == Rotated(old(files), now)
    {
      if files.activeExists && |Encode(files.active)| > MaxLogFileSize {
        var archivePath := ArchiveName(now);
        if archivePath in files.archives {
          return;
        }
        files := files.(archives := files.archives[archivePath := files.active]);
        files := files.(activeExists := true, active := "");
      }
    }

    /** WriteToFile: wait up to 100 ms for the mutex; on a timeout the write
        is skipped. With the mutex, rotate if needed and append the line
        (`appendFails` is an I/O error, which is caught), then release it.
        An abandoned mutex is taken by WaitOne, which then throws before
        `mutexAcquired` is set: the catch swallows the exception and the
        `finally` block, seeing `false`, never releases the mutex. */
    method WriteToFile(message: string, now: DateTime, wait: WaitOutcome, appendFails: bool)
      requires IsValid(now)
      modifies this`files, this`ownership, this`trace
      ensures ownership == old(ownership) + (if wait == Abandoned then 1 else 0)
      ensures trace == old(trace) + WriteTrace(wait, appendFails)
      ensures files == AfterWrite(old(files), message, now, wait == Signalled, appendFails)
    {
      var mutexAcquired := false;
      if wait == Abandoned {
        ownership := ownership + 1;
        trace := trace + [Acquired];
        return;
      }
      mutexAcquired := wait == Signalled;
      if !mutexAcquired {
        trace := trace + [TimedOut];
        return;
      }
      ownership := ownership + 1;
      trace := trace + [Acquired];
      RotateLogFileIfNeeded(now);
      if !appendFails {
        files := files.(activeExists := true, active := files.active + message + NewLine);
        trace := trace + [Appended];
      }
      if mutexAcquired {
        ownership := ownership - 1;
        trace := trace + [Released];
      }
    }

    /** WriteToFile as evidently intended: an AbandonedMutexException still
        hands over the mutex, so it counts as acquired; the write goes ahead
        and the mutex is released. */
    method WriteToFileReleasing(message: string, now: DateTime, wait: WaitOutcome, appendFails: bool)
      requires IsValid(now)
      modifies this`files, this`ownership, this`trace
      ensures ownership == old(ownership)
      ensures trace == old(trace) + ReleasingTrace(wait, appendFails)
      ensures files == AfterWrite(old(files), message, now, wait != Timeout, appendFails)
    {
      var mutexAcquired := wait != Timeout;
      if !mutexAcquired {
        trace := trace + [TimedOut];
        return;
      }
      ownership := ownership + 1;
      trace := trace + [Acquired];
      RotateLogFileIfNeeded(now);
      if !appendFails {
        files := files.(activeExists := true, active := files.active + message + NewLine);
        trace := trace + [Appended];
      }
      ownership := ownership - 1;
      trace := trace + [Released];
    }

    /** Log: entries below the minimum level are dropped without touching
        the files or the mutex. */
    method Log(level: LogLevel, message: string, exception: Option<ExceptionInfo>, now: DateTime,
               threadId: nat, wait: WaitOutcome, appendFails: bool)
      requires IsValid(now)
      modifies this`files, this`ownership, this`trace
      ensures !Passes(level, minimumLevel) ==>
        files == old(files) && trace == old(trace) && ownership == old(ownership)
      ensures Passes(level, minimumLevel) ==>
        && ownership == old(ownership) + (if wait == Abandoned then 1 else 0)
        && trace == old(trace) + WriteTrace(wait, appendFails)
        && files == AfterWrite(old(files), DetailedEntry(level, message, exception, now, threadId), now,
                               wait == Signalled, appendFails)
    {
      if !Passes(level, minimumLevel) {
        return;
      }
      var detailedEntry := FormatDetailedEntry(level, message, exception, now, threadId);
      WriteToFile(detailedEntry, now, wait, appendFails);
    }

    /** CleanUpOldArchives: list the archives; when there are more than ten,
        sort the listing and delete all but the last ten. A file that cannot
        be deleted (`locked`) is skipped silently. `sorted` is the listing
        as the deletions see it. */
    method CleanUpOldArchives(locked: string -> bool) returns (ghost sorted: seq<string>)
      modifies this`files
      ensures ListsArchives(sorted, old(files.archives))
      ensures |sorted| > MaxArchivedLogs ==> Sorted(sorted)
      ensures files.activeExists == old(files.activeExists) && files.active == old(files.active)
      ensures files.archives == old(files.archives) - Doomed(sorted, locked)
      ensures |sorted| <= MaxArchivedLogs ==> files == old(files)
      ensures forall n :: n in files.archives ==> n in old(files.archives) && files.archives[n] == old(files.archives)[n]
      ensures forall n :: n in old(files.archives) && n !in files.archives ==>
        && IsArchiveName(n)
        && forall j :: 0 <= j < |sorted| && |sorted| - MaxArchivedLogs <= j ==>
             LexLe(n, sorted[j]) && n != sorted[j]
      ensures forall j :: 0 <= j < |sorted| && |sorted| - MaxArchivedLogs <= j ==>
        sorted[j] in files.archives
    {
      var archiveFiles := GetArchiveFiles(files.archives);
      if archiveFiles.Length <= MaxArchivedLogs {
        sorted := archiveFiles[..];
        ListedAreArchives(sorted, files.archives);
        return;
      }
      ghost var found := archiveFiles[..];
      SortNames(archiveFiles);
      sorted := archiveFiles[..];
      var i := 0;
      while i < archiveFiles.Length - MaxArchivedLogs
        invariant 0 <= i <= archiveFiles.Length - MaxArchivedLogs
        invariant archiveFiles[..] == sorted
        invariant files.activeExists == old(files.activeExists) && files.active == old(files.active)
        invariant files.archives == old(files.archives) - DoomedPrefix(sorted, i, locked)
      {
        DoomedPrefixStep(sorted, i, locked);
        if !locked(archiveFiles[i]) {
          files := files.(archives := files.archives - {archiveFiles[i]});
        }
        i := i + 1;
      }
      CleanupOfFolder(found, sorted, old(files.archives), locked);
    }
  }

  lemma ListedAreArchives(listing: seq<string>, archives: map<string, string>)
    requires ListsArchives(listing, archives)
    ensures forall j :: 0 <= j < |listing| ==> listing[j] in archives && IsArchiveName(listing[j])
  {
    forall j | 0 <= j < |listing|
      ensures listing[j] in archives && IsArchiveName(listing[j])
    {
      assert listing[j] in listing;
    }
  }

  /** Cleanup of a folder's sorted archive listing deletes only archives,
      each sorting before every one of the last ten, and keeps those ten. */
  lemma CleanupOfFolder(listing: seq<string>, sorted: seq<string>, archives: map<string, string>,
                        locked: string -> bool)
    requires ListsArchives(listing, archives)
    requires Sorted(sorted) && multiset(sorted) == multiset(listing) && |sorted| > MaxArchivedLogs
    ensures ListsArchives(sorted, archives)
    ensures var after := archives - Doomed(sorted, locked);
      && (forall n :: n in archives && n !in after ==>
            && IsArchiveName(n)
            && forall j :: |sorted| - MaxArchivedLogs <= j < |sorted| ==> LexLe(n, sorted[j]) && n != sorted[j])
      && (forall j :: |sorted| - MaxArchivedLogs <= j < |sorted| ==> sorted[j] in after)
  {
    DistinctPermutation(listing, sorted);
    forall n
      ensures n in sorted <==> n in listing
    {
      assert n in sorted <==> n in multiset(sorted);
      assert n in listing <==> n in multiset(listing);
    }
    CleanupKeepsNewest(sorted, locked);
    var after := archives - Doomed(sorted, locked);
    forall n | n in archives && n !in after
      ensures IsArchiveName(n)
    {
      var k :| 0 <= k < |sorted| - MaxArchivedLogs && !locked(sorted[k]) && sorted[k] == n;
      assert n in multiset(listing);
    }
    forall j | |sorted| - MaxArchivedLogs <= j < |sorted|
      ensures sorted[j] in after
    {
      assert sorted[j] in multiset(listing);
    }
  }

  /** The mutex events of one write as written: a timeout alone; the
      acquisition, the append unless it failed, and the release; or, for an
      abandoned mutex, the acquisition alone. */
  function WriteTrace(wait: WaitOutcome, appendFails: bool): seq<MutexEvent> {
    match wait
    case Signalled => [Acquired] + (if appendFails then [] else [Appended]) + [Released]
    case Timeout => [TimedOut]
    case Abandoned => [Acquired]
  }

  /** The mutex events of one write when an abandoned mutex counts as
      acquired. */
  function ReleasingTrace(wait: WaitOutcome, appendFails: bool): seq<MutexEvent> {
    WriteTrace(if wait == Abandoned then Signalled else wait, appendFails)
  }

  /** The Logs directory after one WriteToFile of `message`. */
  function AfterWrite(files: LogFiles, message: string, now: DateTime, acquired: bool, appendFails: bool): LogFiles
    requires IsValid(now)
  {
    if !acquired then files
    else
      var rotated := Rotated(files, now);
      if appendFails then rotated else rotated.(activeExists := true, active := rotated.active + message + NewLine)
  }

  /** As written, a write releases the mutex exactly when WaitOne returned
      true, appends only while holding it, and ends with the release; an
      abandoned mutex is acquired and never released. */
  lemma WriteTraceBalanced(wait: WaitOutcome, appendFails: bool)
    ensures var t := WriteTrace(wait, appendFails);
      && (Acquired in t <==> wait != Timeout)
      && (Released in t <==> wait == Signalled)
      && (Appended in t <==> wait == Signalled && !appendFails)
      && (|t| > 0 && t[|t| - 1] == Released <==> wait == Signalled)
  {
  }

  /** The abandoned-mutex write as written: the mutex is acquired and the
      trace has no release. */
  lemma AbandonedMutexKept(appendFails: bool)
    ensures Acquired in WriteTrace(Abandoned, appendFails)
    ensures Released !in WriteTrace(Abandoned, appendFails)
    ensures Appended !in WriteTrace(Abandoned, appendFails)
  {
    assert WriteTrace(Abandoned, appendFails) == [Acquired];
  }

  /** With an abandoned mutex counted as acquired, every write that takes
      the mutex releases it, and ends with the release. */
  lemma ReleasingTraceBalanced(wait: WaitOutcome, appendFails: bool)
    ensures var t := ReleasingTrace(wait, appendFails);
      && (Acquired in t <==> Released in t)
      && (Acquired in t <==> wait != Timeout)
      && (Appended in t <==> wait != Timeout && !appendFails)
      && (|t| > 0 && t[|t| - 1] == Released <==> wait != Timeout)
  {
  }

  /** A successful write ends the active log with the message and its line
      break, and loses no earlier text: the old log is either still its
      prefix or moved whole into an archive. */
  lemma WriteAppends(files: LogFiles, message: string, now: DateTime)
    requires IsValid(now)
    ensures var after := AfterWrite(files, message, now, true, false);
      && after.activeExists
      && EndsWith(after.active, message + NewLine)
      && (StartsWith(after.active, files.active)
          || (ArchiveName(now) in after.archives && after.archives[ArchiveName(now)] == files.active))
      && (forall n :: n in files.archives ==> n in after.archives && after.archives[n] == files.archives[n])
  {
    var rotated := Rotated(files, now);
    RotationKeepsText(files, now);
    var after := AfterWrite(files, message, now, true, false);
    assert after.active == rotated.active + (message + NewLine);
    if rotated == files {
      assert after.active[..|files.active|] == files.active;
    }
  }

  /** The names the first `count` entries of the listing delete. */
  function DoomedPrefix(sorted: seq<string>, count: nat, locked: string -> bool): set<string>
    requires count <= |sorted|
  {
    set i | 0 <= i < count && !locked(sorted[i]) :: sorted[i]
  }

  lemma DoomedPrefixStep(sorted: seq<string>, count: nat, locked: string -> bool)
    requires count < |sorted|
    ensures DoomedPrefix(sorted, count + 1, locked)
         == DoomedPrefix(sorted, count, locked) + (if locked(sorted[count]) then {} else {sorted[count]})
  {
  }

  /** The names cleanup deletes: those before the last ten, unless locked. */
  function Doomed(sorted: seq<string>, locked: string -> bool): set<string> {
    if |sorted| <= MaxArchivedLogs then {} else DoomedPrefix(sorted, |sorted| - MaxArchivedLogs, locked)
  }

  /** Cleanup keeps the ten greatest names: nothing is deleted from a
      listing of ten or fewer, every deleted name sorts before every one of
      the last ten, and none of those ten is deleted. */
  lemma CleanupKeepsNewest(sorted: seq<string>, locked: string -> bool)
    requires Sorted(sorted)
    requires Distinct(sorted)
    ensures |sorted| <= MaxArchivedLogs ==> Doomed(sorted, locked) == {}
    ensures forall d, j :: d in Doomed(sorted, locked) && |sorted| - MaxArchivedLogs <= j < |sorted| ==>
      LexLe(d, sorted[j]) && d != sorted[j]
    ensures |sorted| > MaxArchivedLogs ==>
      forall j :: |sorted| - MaxArchivedLogs <= j < |sorted| ==> sorted[j] !in Doomed(sorted, locked)
  {
  }
}
