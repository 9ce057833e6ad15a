/** Python `datetime` values at microsecond resolution, and the
    "%Y_%m_%d_%H" stamp the dashboard puts on backup names. */
module CivilTime {
  import opened Wrappers
  import opened Text

  datatype DateTime = DateTime(year: int, month: int, day: int, hour: int, minute: int, second: int,
                               microsecond: int)

  predicate IsLeapYear(y: int) {
    y % 4 == 0 && (y % 100 != 0 || y % 400 == 0)
  }

  function DaysInMonth(y: int, m: int): (n: int)
    requires 1 <= m <= 12
    ensures 28 <= n <= 31
  {
    if m == 2 then (if IsLeapYear(y) then 29 else 28)
    else if m == 4 || m == 6 || m == 9 || m == 11 then 30
    else 31
  }

  /** The range `datetime` accepts. */
  predicate IsValid(t: DateTime) {
    && 1 <= t.year <= 9999
    && 1 <= t.month <= 12
    && 1 <= t.day <= DaysInMonth(t.year, t.month)
    && 0 <= t.hour < 24 && 0 <= t.minute < 60 && 0 <= t.second < 60
    && 0 <= t.microsecond < 1_000_000
  }

  function DaysBeforeYear(y: int): int
    requires 1 <= y
  {
    var p := y - 1;
    p * 365 + p / 4 - p / 100 + p / 400
  }

  function DaysBeforeMonth(y: int, m: int): int
    requires 1 <= m <= 12
  {
    if m == 1 then 0 else DaysBeforeMonth(y, m - 1) + DaysInMonth(y, m - 1)
  }

  /** `date.toordinal()`: 1 for 0001-01-01. */
  function Ordinal(t: DateTime): int
    requires IsValid(t)
  {
    DaysBeforeYear(t.year) + DaysBeforeMonth(t.year, t.month) + t.day
  }

  const MicrosPerHour: int := 3_600_000_000

  /** Microseconds since 0001-01-01 00:00 minus one day: differences of
      this are what `datetime` subtraction yields. */
  function Micros(t: DateTime): int
    requires IsValid(t)
  {
    (((Ordinal(t) * 24 + t.hour) * 60 + t.minute) * 60 + t.second) * 1_000_000 + t.microsecond
  }

  /** The start of the hour `t` falls in. */
  function FloorToHour(t: DateTime): (h: DateTime)
    requires IsValid(t)
    ensures IsValid(h)
    ensures 0 <= Micros(t) - Micros(h) < MicrosPerHour
  {
    DateTime(t.year, t.month, t.day, t.hour, 0, 0, 0)
  }

  /** `t.strftime("%Y_%m_%d_%H")` */
  function FormatHourStamp(t: DateTime): (s: string)
    requires IsValid(t)
    ensures |s| == 13 && '.' !in s
  {
    var s := Padded(t.year, 4) + "_" + Padded(t.month, 2) + "_" + Padded(t.day, 2) + "_" + Padded(t.hour, 2);
    assert forall i :: 0 <= i < |s| ==> IsDigit(s[i]) || s[i] == '_';
    s
  }

  datatype StampError = Unmatched | OutOfRange

  /** `datetime.strptime(s, "%Y_%m_%d_%H")` for the zero-padded form:
      four year digits, then two digits each for month, day and hour,
      separated by '_'; a field out of range is a ValueError too. */
  function ParseHourStamp(s: string): (r: Result<DateTime, StampError>)
    ensures r.Success? ==> IsValid(r.value) && r.value == FloorToHour(r.value)
  {
    if |s| != 13 || s[4] != '_' || s[7] != '_' || s[10] != '_'
       || !AllDigits(s[..4]) || !AllDigits(s[5..7]) || !AllDigits(s[8..10]) || !AllDigits(s[11..])
    then Failure(Unmatched)
    else
      var year, month, day, hour := DigitsValue(s[..4]), DigitsValue(s[5..7]), DigitsValue(s[8..10]),
                                    DigitsValue(s[11..]);
      DigitsValueBound(s[..4]);
      if year < 1 || month < 1 || 12 < month || 23 < hour then Failure(OutOfRange)
      else if day < 1 || DaysInMonth(year, month) < day then Failure(OutOfRange)
      else Success(DateTime(year, month, day, hour, 0, 0, 0))
  }

  /** Parsing a stamp gives back the hour it was made from. */
  lemma HourStampRoundTrip(t: DateTime)
    requires IsValid(t)
    ensures ParseHourStamp(FormatHourStamp(t)) == Success(FloorToHour(t))
  {
    var s := FormatHourStamp(t);
    assert s[..4] == Padded(t.year, 4);
    assert s[5..7] == Padded(t.month, 2);
    assert s[8..10] == Padded(t.day, 2);
    assert s[11..] == Padded(t.hour, 2);
    PaddedValue(t.year, 4);
    PaddedValue(t.month, 2);
    PaddedValue(t.day, 2);
    PaddedValue(t.hour, 2);
  }

  /** Every stamp the parser accepts is the one its hour formats to. */
  lemma HourStampExact(s: string)
    requires ParseHourStamp(s).Success?
    ensures FormatHourStamp(ParseHourStamp(s).value) == s
  {
    var t := ParseHourStamp(s).value;
    PaddedDigits(s[..4]);
    PaddedDigits(s[5..7]);
    PaddedDigits(s[8..10]);
    PaddedDigits(s[11..]);
    var f := FormatHourStamp(t);
    assert f[..4] == s[..4] && f[5..7] == s[5..7] && f[8..10] == s[8..10] && f[11..] == s[11..];
    assert forall i :: 0 <= i < 13 ==> f[i] == s[i];
  }
}
