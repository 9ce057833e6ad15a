/** The collector's own logic (OpenHardwareMonitor/Program.cs): lifetime
    arguments, serial-number resolution, the per-hardware sensor fold, the
    sampling cycle that persists hardware and process rows, and the
    command-line scan of Main. The hardware library, WMI, the process list
    and SHA-256 are inputs. */
module Program {
  import opened Wrappers
  import opened Text
  import opened Utf8
  import opened DatabaseHelper

  // =====================================================================
  // ParseLifetimeArgument

  /** The lifetime used when no `--lifetime` argument is given, in days. */
  const DefaultLifetimeDays: int := 365

  /** `TimeSpan.FromDays` throws OverflowException beyond this many days. */
  const MaxTimeSpanDays: int := 10675199

  const TicksPerDay: int := 864_000_000_000

  datatype LifetimeError =
    | BlankLifetime     // "Lifetime argument cannot be empty"
    | InvalidFormat     // "Invalid lifetime format"
    | UnknownUnit       // "Unknown lifetime unit. Use d, w, m, or y"
    | DaysOverflow      // OverflowException from TimeSpan.FromDays

  /** The white space `int.TryParse` skips before and after the number. */
  predicate IsNumberWhite(c: char) { ('\t' <= c <= '\r') || c == ' ' }

  function TrimStart(s: string): string {
    if |s| > 0 && IsNumberWhite(s[0]) then TrimStart(s[1..]) else s
  }

  function TrimEnd(s: string): string {
    if |s| > 0 && IsNumberWhite(s[|s| - 1]) then TrimEnd(s[..|s| - 1]) else s
  }

  predicate InInt32(v: int) { -0x8000_0000 <= v < 0x8000_0000 }

  /** `int.TryParse(s, out v)` with NumberStyles.Integer: optional white space,
      an optional sign, at least one ASCII digit, optional white space, and a
      value that fits in 32 bits. */
  function ParseInt32(s: string): (r: Option<int>)
    ensures r.Some? ==> InInt32(r.value)
  {
    var t := TrimEnd(TrimStart(s));
    var signed := |t| > 0 && (t[0] == '-' || t[0] == '+');
    var digits := if signed then t[1..] else t;
    if |digits| == 0 || !AllDigits(digits) then None
    else
      var magnitude: int := DigitsValue(digits);
      var v: int := if signed && t[0] == '-' then -magnitude else magnitude;
      if InInt32(v) then Some(v) else None
  }

  lemma TrimDigits(s: string)
    requires |s| > 0 && AllDigits(s)
    ensures TrimEnd(TrimStart(s)) == s
  {
  }

  /** The numeral `int.ToString()` writes parses back to the same number. */
  lemma ParseDecimal(n: nat)
    requires n < 0x8000_0000
    ensures ParseInt32(DecimalString(n)) == Some(n)
  {
    DecimalRoundTrip(n);
    TrimDigits(DecimalString(n));
  }

  /** Days per unit letter; `None` for any other letter. */
  function UnitDays(unit: char): Option<int> {
    match unit
    case 'd' => Some(1)
    case 'w' => Some(7)
    case 'm' => Some(30)
    case 'y' => Some(365)
    case _ => None
  }

  /** C#'s unchecked 32-bit `int` multiplication result. */
  function Wrap32(x: int): (r: int)
    ensures InInt32(r)
    ensures InInt32(x) ==> r == x
  {
    (x + 0x8000_0000) % 0x1_0000_0000 - 0x8000_0000
  }

  function FromDays(days: int): Result<int, LifetimeError> {
    if days < -MaxTimeSpanDays || days > MaxTimeSpanDays then Failure(DaysOverflow) else Success(days)
  }

  /** ParseLifetimeArgument as written: `value * 7` and the like are computed
      in unchecked 32-bit arithmetic before they reach TimeSpan.FromDays. */
  function ParseLifetimeAsWritten(arg: string): Result<int, LifetimeError> {
    if IsBlank(arg) then Failure(BlankLifetime)
    else
      var unit := arg[|arg| - 1];
      match ParseInt32(arg[..|arg| - 1])
      case None => Failure(InvalidFormat)
      case Some(value) =>
        match UnitDays(unit)
        case None => Failure(UnknownUnit)
        case Some(factor) => FromDays(Wrap32(value * factor))
  }

  /** ParseLifetimeArgument with the product taken exactly, so that a count
      too large for a TimeSpan is refused instead of wrapping: "N" followed
      by d, w, m or y is N, 7N, 30N or 365N days. */
  function ParseLifetime(arg: string): Result<int, LifetimeError> {
    if IsBlank(arg) then Failure(BlankLifetime)
    else
      var unit := arg[|arg| - 1];
      match ParseInt32(arg[..|arg| - 1])
      case None => Failure(InvalidFormat)
      case Some(value) =>
        match UnitDays(unit)
        case None => Failure(UnknownUnit)
        case Some(factor) => FromDays(value * factor)
  }

  /** A numeral followed by a unit letter is its count of days times the
      unit's length; a count too large for a TimeSpan is an overflow. */
  lemma ParseLifetimeUnits(n: nat, unit: char, factor: int)
    requires n < 0x8000_0000 && UnitDays(unit) == Some(factor)
    ensures n * factor <= MaxTimeSpanDays ==> ParseLifetime(DecimalString(n) + [unit]) == Success(n * factor)
    ensures n * factor > MaxTimeSpanDays ==> ParseLifetime(DecimalString(n) + [unit]) == Failure(DaysOverflow)
  {
    var arg := DecimalString(n) + [unit];
    ParseDecimal(n);
    assert arg[..|arg| - 1] == DecimalString(n);
    DecimalRoundTrip(n);
    NonBlankWitness(arg, 0);
  }

  /** The three ways the argument is refused, in the order they are checked. */
  lemma ParseLifetimeErrors(arg: string)
    ensures IsBlank(arg) <==> ParseLifetime(arg) == Failure(BlankLifetime)
    ensures !IsBlank(arg) && ParseInt32(arg[..|arg| - 1]).None? <==> ParseLifetime(arg) == Failure(InvalidFormat)
    ensures (!IsBlank(arg) && ParseInt32(arg[..|arg| - 1]).Some? && arg[|arg| - 1] !in "dwmy")
            <==> ParseLifetime(arg) == Failure(UnknownUnit)
  {
  }

  /** The parser as written refuses exactly the same arguments for the same
      three reasons; only the accepted counts can differ. */
  lemma ParseLifetimeAsWrittenErrors(arg: string)
    ensures IsBlank(arg) <==> ParseLifetimeAsWritten(arg) == Failure(BlankLifetime)
    ensures !IsBlank(arg) && ParseInt32(arg[..|arg| - 1]).None? <==> ParseLifetimeAsWritten(arg) == Failure(InvalidFormat)
    ensures (!IsBlank(arg) && ParseInt32(arg[..|arg| - 1]).Some? && arg[|arg| - 1] !in "dwmy")
            <==> ParseLifetimeAsWritten(arg) == Failure(UnknownUnit)
  {
  }

  /** The unit cases of Program.cs:168-171: "30d", "2w", "1y" are 30, 14 and 365 days. */
  lemma ParseLifetimeThirtyDays()
    ensures ParseLifetime("30d") == Success(30)
  {
    ParseNumeral(30, 'd', 1);
    assert DecimalString(30) + "d" == "30d";
  }

  lemma ParseLifetimeTwoWeeks()
    ensures ParseLifetime("2w") == Success(14)
  {
    ParseNumeral(2, 'w', 7);
    assert DecimalString(2) + "w" == "2w";
  }

  lemma ParseLifetimeOneYear()
    ensures ParseLifetime("1y") == Success(365)
  {
    ParseNumeral(1, 'y', 365);
    assert DecimalString(1) + "y" == "1y";
  }

  /** ... and "5x" is refused for its unit. */
  lemma ParseLifetimeUnknownUnit()
    ensures ParseLifetime("5x") == Failure(UnknownUnit)
  {
    ParseDecimal(5);
    assert "5x"[..1] == DecimalString(5);
  }

  /** The two readings agree on every argument the exact one accepts. */
  lemma AsWrittenAgrees(arg: string)
    requires ParseLifetime(arg).Success?
    ensures ParseLifetimeAsWritten(arg) == ParseLifetime(arg)
  {
  }

  /** Both readings on a numeral followed by a unit letter. */
  lemma ParseNumeral(n: nat, unit: char, factor: int)
    requires n < 0x8000_0000 && UnitDays(unit) == Some(factor)
    ensures ParseLifetimeAsWritten(DecimalString(n) + [unit]) == FromDays(Wrap32(n * factor))
    ensures ParseLifetime(DecimalString(n) + [unit]) == FromDays(n * factor)
  {
    var arg := DecimalString(n) + [unit];
    ParseDecimal(n);
    assert arg[..|arg| - 1] == DecimalString(n);
    DecimalRoundTrip(n);
    NonBlankWitness(arg, 0);
  }

  /** "143165577m" is 4294967310 days, which wraps to 14 days as written,
      while the count itself is far beyond what a TimeSpan holds. */
  lemma WrappedLifetime(n: nat)
    requires n == 143165577
    ensures ParseLifetimeAsWritten(DecimalString(n) + "m") == Success(14)
    ensures ParseLifetime(DecimalString(n) + "m") == Failure(DaysOverflow)
  {
    ParseNumeral(n, 'm', 30);
    WrapAt(n);
  }

  lemma WrapAt(n: int)
    requires n == 143165577
    ensures Wrap32(n * 30) == 14 && n * 30 > MaxTimeSpanDays
  {
  }

  // =====================================================================
  // GetHardwareSerialNumber and GenerateDeterministicSerialNumber

  /** The hardware kinds of the OpenHardwareMonitor library, by enum order. */
  datatype HardwareType = Mainboard | SuperIO | CPU | RAM | GpuNvidia | GpuAti | TBalancer | Heatmaster | HDD

  /** `HardwareType.ToString()` */
  function TypeName(t: HardwareType): (name: string)
    ensures !IsBlank(name)
  {
    var name := match t
      case Mainboard => "Mainboard"
      case SuperIO => "SuperIO"
      case CPU => "CPU"
      case RAM => "RAM"
      case GpuNvidia => "GpuNvidia"
      case GpuAti => "GpuAti"
      case TBalancer => "TBalancer"
      case Heatmaster => "Heatmaster"
      case HDD => "HDD";
    NonBlankWitness(name, 0);
    name
  }

  /** A hardware item as the collector sees it; `identifier` is the text of
      its `Identifier`. */
  datatype Hardware = Hardware(hardwareType: HardwareType, name: string, identifier: string)

  /** The WMI class and property a type's serial number is read from. */
  function SerialQuery(t: HardwareType): Option<(string, string)> {
    match t
    case CPU => Some(("Win32_Processor", "ProcessorId"))
    case GpuNvidia => Some(("Win32_VideoController", "PNPDeviceID"))
    case GpuAti => Some(("Win32_VideoController", "PNPDeviceID"))
    case RAM => Some(("Win32_PhysicalMemory", "SerialNumber"))
    case Mainboard => Some(("Win32_BaseBoard", "SerialNumber"))
    case HDD => Some(("Win32_DiskDrive", "SerialNumber"))
    case _ => None
  }

  const NotAvailable: string := "Not Available"
  const DefaultString: string := "Default string"

  /** A platform answer that does not identify the device. */
  predicate IsPlaceholder(serial: string) {
    IsBlank(serial) || serial == NotAvailable || serial == DefaultString
  }

  /** A SHA-256 digest: 32 bytes. */
  type Digest = s: seq<byte> | |s| == 32 witness seq(32, _ => 0 as byte)

  /** Upper-case hexadecimal digits, as `BitConverter.ToString` writes them. */
  function HexDigit(d: nat): (c: char)
    requires d < 16
  {
    "0123456789ABCDEF"[d]
  }

  predicate IsHexDigit(c: char) { ('0' <= c <= '9') || ('A' <= c <= 'F') }

  /** The value of a hexadecimal digit; 0 for any other character. */
  function HexValue(c: char): (d: nat)
    ensures d < 16
  {
    if '0' <= c <= '9' then (c as int) - ('0' as int)
    else if 'A' <= c <= 'F' then (c as int) - ('A' as int) + 10
    else 0
  }

  lemma HexDigitValue(d: nat)
    requires d < 16
    ensures IsHexDigit(HexDigit(d)) && HexValue(HexDigit(d)) == d
  {
  }

  function ByteHex(b: byte): (s: string)
    ensures |s| == 2 && IsHexDigit(s[0]) && IsHexDigit(s[1]) && '-' !in s
  {
    HexDigitValue(b as nat / 16);
    HexDigitValue(b as nat % 16);
    [HexDigit(b as nat / 16), HexDigit(b as nat % 16)]
  }

  /** `BitConverter.ToString(bytes)`: two digits per byte, separated by '-'. */
  function BitConverterString(bytes: seq<byte>): string {
    if |bytes| == 0 then ""
    else if |bytes| == 1 then ByteHex(bytes[0])
    else BitConverterString(bytes[..|bytes| - 1]) + "-" + ByteHex(bytes[|bytes| - 1])
  }

  /** `s.Replace(c, "")` for a one-character `c`. */
  function RemoveChar(s: string, c: char): (r: string)
    ensures c !in r
  {
    if |s| == 0 then ""
    else RemoveChar(s[..|s| - 1], c) + (if s[|s| - 1] == c then "" else [s[|s| - 1]])
  }

  /** Two hexadecimal digits per byte, without separators. */
  function Hex(bytes: seq<byte>): (s: string)
    ensures |s| == 2 * |bytes|
  {
    if |bytes| == 0 then "" else Hex(bytes[..|bytes| - 1]) + ByteHex(bytes[|bytes| - 1])
  }

  predicate AllHexDigits(s: string) {
    forall i :: 0 <= i < |s| ==> IsHexDigit(s[i])
  }

  /** Reads pairs of hexadecimal digits back into bytes (a trailing odd
      character is ignored). */
  function HexBytes(s: string): seq<byte>
  {
    if |s| < 2 then []
    else HexBytes(s[..|s| - 2]) + [(HexValue(s[|s| - 2]) * 16 + HexValue(s[|s| - 1])) as byte]
  }

  lemma {:induction false} RemoveCharAppend(a: string, b: string, c: char)
    ensures RemoveChar(a + b, c) == RemoveChar(a, c) + RemoveChar(b, c)
    decreases |b|
  {
    if |b| == 0 {
      assert a + b == a;
    } else {
      assert (a + b)[..|a + b| - 1] == a + b[..|b| - 1];
      RemoveCharAppend(a, b[..|b| - 1], c);
    }
  }

  lemma {:induction false} RemoveCharAbsent(s: string, c: char)
    requires c !in s
    ensures RemoveChar(s, c) == s
    decreases |s|
  {
    if |s| > 0 {
      RemoveCharAbsent(s[..|s| - 1], c);
    }
  }

  /** Dropping the separators of `BitConverter.ToString` leaves the plain
      hexadecimal string. */
  lemma {:induction false} BitConverterWithoutDashes(bytes: seq<byte>)
    ensures RemoveChar(BitConverterString(bytes), '-') == Hex(bytes)
    decreases |bytes|
  {
    if |bytes| == 1 {
      RemoveCharAbsent(ByteHex(bytes[0]), '-');
      assert Hex(bytes) == Hex([]) + ByteHex(bytes[0]);
    } else if |bytes| > 1 {
      var init := bytes[..|bytes| - 1];
      BitConverterWithoutDashes(init);
      DashRemoved(BitConverterString(init), ByteHex(bytes[|bytes| - 1]));
    }
  }

  lemma DashRemoved(x: string, last: string)
    requires '-' !in last
    ensures RemoveChar(x + "-" + last, '-') == RemoveChar(x, '-') + last
  {
    var y := x + "-";
    assert y[..|y| - 1] == x && y[|y| - 1] == '-';
    assert RemoveChar(y, '-') == RemoveChar(x, '-');
    RemoveCharAppend(y, last, '-');
    RemoveCharAbsent(last, '-');
  }

  lemma {:induction false} HexPrefix(bytes: seq<byte>, k: nat)
    requires k <= |bytes|
    ensures Hex(bytes)[..2 * k] == Hex(bytes[..k])
    decreases |bytes|
  {
    if k < |bytes| {
      var init := bytes[..|bytes| - 1];
      HexPrefix(init, k);
      assert init[..k] == bytes[..k];
    } else {
      assert bytes[..k] == bytes;
    }
  }

  /** Reading the hexadecimal string back gives the bytes it was made from. */
  lemma {:induction false} HexRoundTrip(bytes: seq<byte>)
    ensures AllHexDigits(Hex(bytes)) && HexBytes(Hex(bytes)) == bytes
    decreases |bytes|
  {
    if |bytes| > 0 {
      var init := bytes[..|bytes| - 1];
      var b := bytes[|bytes| - 1];
      HexRoundTrip(init);
      assert Hex(bytes) == Hex(init) + ByteHex(b);
      HexBytesSnoc(Hex(init), b);
      assert init + [b] == bytes;
    }
  }

  lemma HexBytesSnoc(h: string, b: byte)
    requires AllHexDigits(h)
    ensures AllHexDigits(h + ByteHex(b))
    ensures HexBytes(h + ByteHex(b)) == HexBytes(h) + [b]
  {
    var s := h + ByteHex(b);
    var hi, lo := b as nat / 16, b as nat % 16;
    assert s[..|s| - 2] == h;
    HexDigitValue(hi);
    HexDigitValue(lo);
    assert HexValue(s[|s| - 2]) == hi && HexValue(s[|s| - 1]) == lo;
    assert hi * 16 + lo == b as nat;
    assert HexBytes(s) == HexBytes(h) + [(hi * 16 + lo) as byte];
  }

  /** The text the fallback serial is a hash of. */
  function SerialSeed(hw: Hardware): string {
    TypeName(hw.hardwareType) + "-" + hw.name + "-" + hw.identifier
  }

  /** GenerateDeterministicSerialNumber: the first 16 characters of the
      dash-free `BitConverter` text of SHA-256 over the UTF-8 seed. */
  function GenerateDeterministicSerialNumber(hw: Hardware, sha256: seq<byte> -> Digest): string {
    var text := RemoveChar(BitConverterString(sha256(Encode(SerialSeed(hw)))), '-');
    BitConvertedLength(sha256(Encode(SerialSeed(hw))));
    text[..16]
  }

  lemma BitConvertedLength(d: Digest)
    ensures |RemoveChar(BitConverterString(d), '-')| == 64
  {
    BitConverterWithoutDashes(d);
  }

  /** The fallback serial is 16 upper-case hexadecimal digits that spell the
      first eight bytes of the digest of "{type}-{name}-{identifier}". */
  lemma FallbackSerialFormat(hw: Hardware, sha256: seq<byte> -> Digest)
    ensures |GenerateDeterministicSerialNumber(hw, sha256)| == 16
    ensures forall i :: 0 <= i < 16 ==> IsHexDigit(GenerateDeterministicSerialNumber(hw, sha256)[i])
    ensures GenerateDeterministicSerialNumber(hw, sha256) == Hex(sha256(Encode(SerialSeed(hw)))[..8])
    ensures HexBytes(GenerateDeterministicSerialNumber(hw, sha256)) == sha256(Encode(SerialSeed(hw)))[..8]
  {
    var d := sha256(Encode(SerialSeed(hw)));
    BitConverterWithoutDashes(d);
    HexPrefix(d, 8);
    HexRoundTrip(d[..8]);
  }

  /** Hardware items with the same type, name and identifier get the same
      fallback serial; when identifiers hold no '-' (they are paths such as
      "/intelcpu/0"), changing any of the three changes the hashed text,
      whatever dashes the names hold. */
  lemma FallbackSeedInjective(a: Hardware, b: Hardware)
    requires '-' !in a.identifier && '-' !in b.identifier
    requires SerialSeed(a) == SerialSeed(b)
    ensures a == b
  {
    TypeNameNoDash(a.hardwareType);
    TypeNameNoDash(b.hardwareType);
    DashTripleSplit(TypeName(a.hardwareType), a.name, a.identifier,
                    TypeName(b.hardwareType), b.name, b.identifier);
    TypeNameInjective(a.hardwareType, b.hardwareType);
  }

  /** "x-y-z" with no '-' in `x` nor `z` determines all three parts. */
  lemma DashTripleSplit(x1: string, y1: string, z1: string, x2: string, y2: string, z2: string)
    requires '-' !in x1 && '-' !in z1 && '-' !in x2 && '-' !in z2
    requires x1 + "-" + y1 + "-" + z1 == x2 + "-" + y2 + "-" + z2
    ensures x1 == x2 && y1 == y2 && z1 == z2
  {
    var s := x1 + "-" + y1 + "-" + z1;
    assert s == x1 + "-" + (y1 + "-" + z1);
    assert s == x2 + "-" + (y2 + "-" + z2);
    FirstDash(x1, y1 + "-" + z1);
    FirstDash(x2, y2 + "-" + z2);
    LastDash(y1, z1, y2, z2);
  }

  /** In `x + "-" + y` with no '-' in `y`, the last '-' precedes `y`. */
  lemma LastDash(x1: string, y1: string, x2: string, y2: string)
    requires '-' !in y1 && '-' !in y2
    requires x1 + "-" + y1 == x2 + "-" + y2
    ensures x1 == x2 && y1 == y2
  {
    var s := x1 + "-" + y1;
    LastDashIndex(x1, y1);
    LastDashIndex(x2, y2);
    assert y1 == s[|x1| + 1..] == y2;
    assert x1 == s[..|x1|] == x2;
  }

  /** Position of the last `c` in `s`, or -1. */
  function LastIndexOf(s: string, c: char): (r: int)
    ensures -1 <= r < |s|
    ensures 0 <= r ==> s[r] == c
  {
    if |s| == 0 then -1
    else if s[|s| - 1] == c then |s| - 1
    else LastIndexOf(s[..|s| - 1], c)
  }

  lemma {:induction false} LastDashIndex(x: string, y: string)
    requires '-' !in y
    ensures LastIndexOf(x + "-" + y, '-') == |x|
    decreases |y|
  {
    var s := x + "-" + y;
    if |y| > 0 {
      var y' := y[..|y| - 1];
      assert s[..|s| - 1] == x + "-" + y';
      assert s[|s| - 1] == y[|y| - 1];
      LastDashIndex(x, y');
    }
  }

  /** In `x + "-" + y` with no '-' in `x`, the first '-' follows `x`. */
  lemma FirstDash(x: string, y: string)
    requires '-' !in x
    ensures IndexOf(x + "-" + y, '-') == |x|
    ensures (x + "-" + y)[..|x|] == x && (x + "-" + y)[|x| + 1..] == y
  {
    var s := x + "-" + y;
    assert s[..|x|] == x;
    IndexOfUnique(s, '-', |x|);
  }

  lemma TypeNameNoDash(t: HardwareType)
    ensures '-' !in TypeName(t)
  {
  }

  lemma TypeNameInjective(t: HardwareType, u: HardwareType)
    requires TypeName(t) == TypeName(u)
    ensures t == u
  {
  }

  /** GetHardwareSerialNumber: the platform's answer for the type's lookup,
      unless it is blank or a placeholder, in which case the hash fallback. */
  function GetHardwareSerialNumber(hw: Hardware, wmi: (string, string) -> string,
                                   sha256: seq<byte> -> Digest): string {
    var answer := match SerialQuery(hw.hardwareType)
      case Some((wmiClass, property)) => wmi(wmiClass, property)
      case None => NotAvailable;
    if IsPlaceholder(answer) then GenerateDeterministicSerialNumber(hw, sha256) else answer
  }

  /** The resolved serial is never blank nor a placeholder, so the store's
      argument checks never refuse it; a usable platform answer is kept as
      is, anything else is replaced by the fallback. */
  lemma SerialResolution(hw: Hardware, wmi: (string, string) -> string, sha256: seq<byte> -> Digest)
    ensures !IsPlaceholder(GetHardwareSerialNumber(hw, wmi, sha256))
    ensures SerialQuery(hw.hardwareType).None? ==>
      GetHardwareSerialNumber(hw, wmi, sha256) == GenerateDeterministicSerialNumber(hw, sha256)
    ensures SerialQuery(hw.hardwareType).Some? ==>
      var answer := wmi(SerialQuery(hw.hardwareType).value.0, SerialQuery(hw.hardwareType).value.1);
      GetHardwareSerialNumber(hw, wmi, sha256) ==
        if IsPlaceholder(answer) then GenerateDeterministicSerialNumber(hw, sha256) else answer
  {
    FallbackSerialFormat(hw, sha256);
    var serial := GenerateDeterministicSerialNumber(hw, sha256);
    assert !IsWhiteSpace(serial[0]);
    NonBlankWitness(serial, 0);
  }

  // =====================================================================
  // OnTimedEvent: the sensor fold

  /** The sensor kinds of the OpenHardwareMonitor library. */
  datatype SensorType = Voltage | Clock | Temperature | Load | Fan | Flow | Control | Level
                      | Factor | Power | Data | SmallData | Throughput

  /** A sensor as read after `Update()`; `value` is None when it has no reading. */
  datatype Sensor = Sensor(sensorType: SensorType, name: string, value: Option<Reading>)

  /** The locals of the per-hardware loop a sensor can set. */
  datatype Slot = TemperatureSlot | PowerSlot | LoadSlot | CoreClockSlot | MemoryClockSlot | VRamSlot

  /** The slot the if-chain of the sensor loop assigns a sensor to, if any. */
  function SlotOf(s: Sensor): Option<Slot> {
    match s.sensorType
    case Temperature => Some(TemperatureSlot)
    case Power => Some(PowerSlot)
    case Load => Some(LoadSlot)
    case Clock =>
      if Contains(s.name, "Core") || Contains(s.name, "GPU Core") then Some(CoreClockSlot)
      else if Contains(s.name, "Memory") || Contains(s.name, "GPU Memory") then Some(MemoryClockSlot)
      else None
    case Data => if Contains(s.name, "GPU Memory") then Some(VRamSlot) else None
    case _ => None
  }

  /** A sensor that has a reading and is assigned to `slot`. */
  predicate Feeds(s: Sensor, slot: Slot) {
    s.value.Some? && SlotOf(s) == Some(slot)
  }

  /** The reading a slot holds after the loop over `sensors`: that of the
      last sensor feeding it, or the initial 0. */
  function LastValue(sensors: seq<Sensor>, slot: Slot): Reading {
    if |sensors| == 0 then 0.0
    else if Feeds(sensors[|sensors| - 1], slot) then sensors[|sensors| - 1].value.value
    else LastValue(sensors[..|sensors| - 1], slot)
  }

  /** The last sensor feeding a slot decides its value. */
  lemma {:induction false} LastValueWins(sensors: seq<Sensor>, slot: Slot, j: nat)
    requires j < |sensors| && Feeds(sensors[j], slot)
    requires forall k :: j < k < |sensors| ==> !Feeds(sensors[k], slot)
    ensures LastValue(sensors, slot) == sensors[j].value.value
    decreases |sensors|
  {
    if j < |sensors| - 1 {
      LastValueWins(sensors[..|sensors| - 1], slot, j);
    }
  }

  /** A slot no sensor feeds keeps its initial 0. */
  lemma {:induction false} LastValueUnset(sensors: seq<Sensor>, slot: Slot)
    requires forall k :: 0 <= k < |sensors| ==> !Feeds(sensors[k], slot)
    ensures LastValue(sensors, slot) == 0.0
    decreases |sensors|
  {
    if |sensors| > 0 {
      LastValueUnset(sensors[..|sensors| - 1], slot);
    }
  }

  /** The "GPU Core" and "GPU Memory" alternatives never decide anything:
      a clock sensor is a core clock when its name contains "Core", else a
      memory clock when it contains "Memory", else ignored. */
  lemma ClockClassification(s: Sensor)
    requires s.sensorType == Clock
    ensures SlotOf(s) ==
      if Contains(s.name, "Core") then Some(CoreClockSlot)
      else if Contains(s.name, "Memory") then Some(MemoryClockSlot)
      else None
  {
    assert "GPU Core" == "GPU " + "Core";
    assert "GPU Memory" == "GPU " + "Memory";
    if Contains(s.name, "GPU Core") {
      ContainsLonger(s.name, "GPU ", "Core");
    }
    if Contains(s.name, "GPU Memory") {
      ContainsLonger(s.name, "GPU ", "Memory");
    }
  }

  /** `(int)x` for a float within int range: rounds toward zero. */
  function Truncate(x: real): (n: int)
    ensures 0.0 <= x ==> n as real <= x < n as real + 1.0
    ensures x < 0.0 ==> n as real - 1.0 < x <= n as real
  {
    if 0.0 <= x then x.Floor else -((-x).Floor)
  }

  /** What the sensor loop leaves in the item's locals. */
  datatype SensorReadings = SensorReadings(temperature: Reading, powerConsumption: Reading, load: Reading,
                                           coreClock: Reading, memoryClock: Reading, vRam: int)

  /** The sensor loop of one hardware item: each valued sensor overwrites
      the local its type (and, for clocks and data, its name) selects. */
  method ReadSensors(sensors: seq<Sensor>) returns (r: SensorReadings)
    ensures r.temperature == LastValue(sensors, TemperatureSlot)
    ensures r.powerConsumption == LastValue(sensors, PowerSlot)
    ensures r.load == LastValue(sensors, LoadSlot)
    ensures r.coreClock == LastValue(sensors, CoreClockSlot)
    ensures r.memoryClock == LastValue(sensors, MemoryClockSlot)
    ensures r.vRam == Truncate(LastValue(sensors, VRamSlot))
  {
    var temperature, powerConsumption, load, coreClock, memoryClock := 0.0, 0.0, 0.0, 0.0, 0.0;
    var vRam := 0;
    var i := 0;
    while i < |sensors|
      invariant 0 <= i <= |sensors|
      invariant temperature == LastValue(sensors[..i], TemperatureSlot)
      invariant powerConsumption == LastValue(sensors[..i], PowerSlot)
      invariant load == LastValue(sensors[..i], LoadSlot)
      invariant coreClock == LastValue(sensors[..i], CoreClockSlot)
      invariant memoryClock == LastValue(sensors[..i], MemoryClockSlot)
      invariant vRam == Truncate(LastValue(sensors[..i], VRamSlot))
    {
      var sensor := sensors[i];
      assert sensors[..i + 1][..i] == sensors[..i];
      if sensor.value.Some? {
        var value := sensor.value.value;
        if sensor.sensorType == Temperature {
          temperature := value;
        } else if sensor.sensorType == Power {
          powerConsumption := value;
        } else if sensor.sensorType == Load {
          load := value;
        } else if sensor.sensorType == Clock {
          if Contains(sensor.name, "Core") || Contains(sensor.name, "GPU Core") {
            coreClock := value;
          } else if Contains(sensor.name, "Memory") || Contains(sensor.name, "GPU Memory") {
            memoryClock := value;
          }
        } else if sensor.sensorType == Data && Contains(sensor.name, "GPU Memory") {
          vRam := Truncate(value);
        }
      }
      i := i + 1;
    }
    assert sensors[..|sensors|] == sensors;
    r := SensorReadings(temperature, powerConsumption, load, coreClock, memoryClock, vRam);
  }

  /** The stock (core, memory) speeds recorded for a new component: the CPU's
      maximum clock, the fixed GPU defaults, the RAM's speed, else zeros. */
  function StockSpeeds(t: HardwareType, cpuBaseClock: Reading, ramSpeed: Reading): (Reading, Reading) {
    match t
    case CPU => (cpuBaseClock, 0.0)
    case GpuNvidia => (1200.0, 7000.0)
    case GpuAti => (1200.0, 7000.0)
    case RAM => (0.0, ramSpeed)
    case _ => (0.0, 0.0)
  }

  // =====================================================================
  // OnTimedEvent: the persist step and the process loop

  /** Which of the item's three store calls the engine fails. */
  datatype ItemFaults = ItemFaults(existsError: bool, insertComponentError: bool, insertStatisticError: bool)

  const NoFaults := ItemFaults(false, false, false)

  datatype HardwareItem = HardwareItem(hardware: Hardware, sensors: seq<Sensor>, faults: ItemFaults)

  /** What a cycle reads from the platform besides the hardware list:
      the WMI lookup, SHA-256, the CPU's maximum clock, the RAM speed and
      the total visible memory. */
  datatype Platform = Platform(wmi: (string, string) -> string, sha256: seq<byte> -> Digest,
                               cpuBaseClock: Reading, ramSpeed: Reading, totalRam: Reading)

  /** How one item's store calls end: stored, skipped by the per-item catch
      of DatabaseOperationException, or escaping to the cycle's catch, either
      as a helper exception or as the ArgumentOutOfRangeException of an end
      of life that `DateTime.Add` cannot represent. */
  datatype StepOutcome = Stored | Skipped(error: Error) | Aborted(error: Error) | EndOfLifeOutOfRange {
    predicate EndsCycle() { Aborted? || EndOfLifeOutOfRange? }
  }

  function Catch(e: Error): (o: StepOutcome)
    ensures o.Skipped? <==> e.OperationFailure?
  {
    if e.OperationFailure? then Skipped(e) else Aborted(e)
  }

  function ItemSerial(item: HardwareItem, p: Platform): string {
    GetHardwareSerialNumber(item.hardware, p.wmi, p.sha256)
  }

  /** The component row a new item is stored with. */
  function ItemComponent(item: HardwareItem, p: Platform): Component {
    var stock := StockSpeeds(item.hardware.hardwareType, p.cpuBaseClock, p.ramSpeed);
    Component(TypeName(item.hardware.hardwareType), Some(Truncate(LastValue(item.sensors, VRamSlot))),
              Some(stock.0), Some(stock.1))
  }

  const Active: string := "Active"

  /** `DateTime.MaxValue.Ticks`, 9999-12-31 23:59:59.9999999. */
  const MaxDateTimeTicks: int := 3_155_378_975_999_999_999

  /** The ticks a DateTime can hold; `DateTime.Add` throws
      ArgumentOutOfRangeException for a result outside them. */
  predicate InDateRange(ticks: int) { 0 <= ticks <= MaxDateTimeTicks }

  /** `timestamp.Add(dataLifetime)`, in ticks; a value outside InDateRange
      is the exception `Add` throws. */
  function EndOfLife(timestamp: int, lifetimeDays: int): int {
    timestamp + lifetimeDays * TicksPerDay
  }

  /** The statistic row an item is stored with in a cycle. */
  function ItemStatistic(item: HardwareItem, p: Platform, timestamp: int, lifetimeDays: int): Statistic {
    var s := item.sensors;
    Statistic(Active, LastValue(s, TemperatureSlot), LastValue(s, LoadSlot), Some(LastValue(s, PowerSlot)),
              Some(LastValue(s, CoreClockSlot)), Some(LastValue(s, MemoryClockSlot)),
              p.totalRam, EndOfLife(timestamp, lifetimeDays))
  }

  /** One pass of the hardware loop: read the sensors, resolve the serial,
      insert the component when ComponentExists says it is absent, then the
      statistic. The component is always stored before its statistic, so the
      foreign key keeps holding. */
  method CollectHardwareItem(db: Database, item: HardwareItem, p: Platform, timestamp: int, lifetimeDays: int)
    returns (outcome: StepOutcome)
    requires db.Valid()
    modifies db`components, db`statistics
    ensures db.Valid()
    ensures old(db.ForeignKeysHold()) ==> db.ForeignKeysHold()
    ensures outcome.Stored? ==> ItemSerial(item, p) in db.components
    ensures outcome.Aborted? <==> !db.open
    ensures outcome.Aborted? ==> outcome.error == NoConnection
    ensures outcome.EndOfLifeOutOfRange? <==>
      db.open && ComponentTable in db.tables && !item.faults.existsError
      && (ItemSerial(item, p) in old(db.components) || !item.faults.insertComponentError)
      && !InDateRange(EndOfLife(timestamp, lifetimeDays))
    ensures outcome.Stored? <==>
      db.open && ComponentTable in db.tables && !item.faults.existsError
      && (ItemSerial(item, p) in old(db.components) || !item.faults.insertComponentError)
      && InDateRange(EndOfLife(timestamp, lifetimeDays))
      && StatisticTable in db.tables && !item.faults.insertStatisticError
    ensures db.components ==
      if db.open && ComponentTable in db.tables && !item.faults.existsError
         && ItemSerial(item, p) !in old(db.components) && !item.faults.insertComponentError
      then old(db.components)[ItemSerial(item, p) := ItemComponent(item, p)]
      else old(db.components)
    ensures db.statistics ==
      if outcome.Stored?
      then old(db.statistics)[StatisticKey(ItemSerial(item, p), timestamp) := ItemStatistic(item, p, timestamp, lifetimeDays)]
      else old(db.statistics)
  {
    var readings := ReadSensors(item.sensors);
    var serialNumber := GetHardwareSerialNumber(item.hardware, p.wmi, p.sha256);
    SerialResolution(item.hardware, p.wmi, p.sha256);
    var deviceType := TypeName(item.hardware.hardwareType);
    var stock := StockSpeeds(item.hardware.hardwareType, p.cpuBaseClock, p.ramSpeed);
    NonBlankWitness(Active, 0);
    var component := Component(deviceType, Some(readings.vRam), Some(stock.0), Some(stock.1));
    var statistic := Statistic(Active, readings.temperature, readings.load, Some(readings.powerConsumption),
                               Some(readings.coreClock), Some(readings.memoryClock), p.totalRam,
                               EndOfLife(timestamp, lifetimeDays));
    assert component == ItemComponent(item, p);
    assert statistic == ItemStatistic(item, p, timestamp, lifetimeDays);
    outcome := StoreItem(db, serialNumber, component, statistic, timestamp, item.faults);
  }

  /** The database half of one pass of the hardware loop, for a resolved
      serial and the rows built from the readings. The statistic's end of
      life is computed as the last argument of InsertComponentStatistic,
      after the component calls. */
  method StoreItem(db: Database, serialNumber: string, component: Component, statistic: Statistic,
                   timestamp: int, faults: ItemFaults) returns (outcome: StepOutcome)
    requires db.Valid()
    requires !IsBlank(serialNumber) && !IsBlank(component.deviceType) && !IsBlank(statistic.machineState)
    modifies db`components, db`statistics
    ensures db.Valid()
    ensures old(db.ForeignKeysHold()) ==> db.ForeignKeysHold()
    ensures outcome.Stored? ==> serialNumber in db.components
    ensures outcome.Aborted? <==> !db.open
    ensures outcome.Aborted? ==> outcome.error == NoConnection
    ensures outcome.EndOfLifeOutOfRange? <==>
      db.open && ComponentTable in db.tables && !faults.existsError
      && (serialNumber in old(db.components) || !faults.insertComponentError)
      && !InDateRange(statistic.endOfLife)
    ensures outcome.Stored? <==>
      db.open && ComponentTable in db.tables && !faults.existsError
      && (serialNumber in old(db.components) || !faults.insertComponentError)
      && InDateRange(statistic.endOfLife)
      && StatisticTable in db.tables && !faults.insertStatisticError
    ensures db.components ==
      if db.open && ComponentTable in db.tables && !faults.existsError
         && serialNumber !in old(db.components) && !faults.insertComponentError
      then old(db.components)[serialNumber := component]
      else old(db.components)
    ensures db.statistics ==
      if outcome.Stored? then old(db.statistics)[StatisticKey(serialNumber, timestamp) := statistic]
      else old(db.statistics)
  {
    var found := db.ComponentExists(serialNumber, faults.existsError);
    if found.Failure? {
      return Catch(found.error);
    }
    if !found.value {
      var inserted := db.InsertComponent(serialNumber, component.deviceType, component.vRam,
                                         component.stockCoreSpeed, component.stockMemorySpeed,
                                         faults.insertComponentError);
      if inserted.Fail? {
        return Catch(inserted.error);
      }
    }
    if !InDateRange(statistic.endOfLife) {
      // the end-of-life argument, timestamp.Add(dataLifetime), throws
      return EndOfLifeOutOfRange;
    }
    var recorded := db.InsertComponentStatistic(serialNumber, timestamp, statistic.machineState,
                                                statistic.temperature, statistic.usage,
                                                statistic.powerConsumption, statistic.coreSpeed,
                                                statistic.memorySpeed, statistic.totalRam,
                                                statistic.endOfLife, faults.insertStatisticError);
    if recorded.Fail? {
      return Catch(recorded.error);
    }
    outcome := Stored;
  }

  /** What the collector learns about a process: its CPU share and working
      set, or an exception while reading them. */
  datatype Measurement = Measured(cpuUsage: Reading, memoryUsage: Reading) | Inaccessible

  /** One entry of `Process.GetProcesses()`, with whether the engine fails
      its insert. */
  datatype Probe = Probe(pid: int, measurement: Measurement, insertError: bool)

  /** The process table after the process loop: every measured process
      other than pid 0 whose insert succeeds adds a row; every failure is
      caught for that process alone, the ArgumentOutOfRangeException of an
      end of life beyond DateTime included. */
  function ProcessFold(rows: map<ProcessKey, ProcessRow>, probes: seq<Probe>, timestamp: int,
                       endOfLife: int, writable: bool): map<ProcessKey, ProcessRow>
  {
    if |probes| == 0 then rows
    else
      var before := ProcessFold(rows, probes[..|probes| - 1], timestamp, endOfLife, writable);
      var probe := probes[|probes| - 1];
      var key := ProcessKey(probe.pid, timestamp);
      if probe.pid != 0 && probe.measurement.Measured? && InDateRange(endOfLife) && writable
         && !probe.insertError && key !in before
      then before[key := ProcessRow(probe.measurement.cpuUsage, probe.measurement.memoryUsage, endOfLife)]
      else before
  }

  /** The process loop adds rows and never rewrites or drops one; every row
      it adds is for this cycle's timestamp and a pid other than 0. */
  lemma {:induction false} ProcessFoldAddsOnly(rows: map<ProcessKey, ProcessRow>, probes: seq<Probe>, timestamp: int,
                                               endOfLife: int, writable: bool)
    ensures forall k :: k in rows ==>
      (k in ProcessFold(rows, probes, timestamp, endOfLife, writable)
       && ProcessFold(rows, probes, timestamp, endOfLife, writable)[k] == rows[k])
    ensures forall k :: k in ProcessFold(rows, probes, timestamp, endOfLife, writable) && k !in rows ==>
      k.pid != 0 && k.timestamp == timestamp && writable && InDateRange(endOfLife)
    decreases |probes|
  {
    if |probes| > 0 {
      ProcessFoldAddsOnly(rows, probes[..|probes| - 1], timestamp, endOfLife, writable);
    }
  }

  /** Failure isolation: a measured process other than pid 0 whose insert
      succeeds has a row afterwards, whatever happened to the others. */
  lemma {:induction false} ProcessFoldRecords(rows: map<ProcessKey, ProcessRow>, probes: seq<Probe>, timestamp: int,
                                              endOfLife: int, i: nat)
    requires i < |probes|
    requires probes[i].pid != 0 && probes[i].measurement.Measured? && !probes[i].insertError
    requires InDateRange(endOfLife)
    ensures ProcessKey(probes[i].pid, timestamp) in ProcessFold(rows, probes, timestamp, endOfLife, true)
    decreases |probes|
  {
    var init := probes[..|probes| - 1];
    if i < |probes| - 1 {
      assert init[i] == probes[i];
      ProcessFoldRecords(rows, init, timestamp, endOfLife, i);
      ProcessFoldAddsOnly(ProcessFold(rows, init, timestamp, endOfLife, true), [probes[|probes| - 1]],
                          timestamp, endOfLife, true);
      assert ProcessFold(rows, probes, timestamp, endOfLife, true)
          == ProcessFold(ProcessFold(rows, init, timestamp, endOfLife, true), [probes[|probes| - 1]],
                         timestamp, endOfLife, true);
    }
  }

  /** With an end of life DateTime cannot hold, every insert of the process
      loop throws before it reaches the helper: no row is added. */
  lemma {:induction false} ProcessFoldOutOfRange(rows: map<ProcessKey, ProcessRow>, probes: seq<Probe>,
                                                 timestamp: int, endOfLife: int, writable: bool)
    requires !InDateRange(endOfLife)
    ensures ProcessFold(rows, probes, timestamp, endOfLife, writable) == rows
    decreases |probes|
  {
    if |probes| > 0 {
      ProcessFoldOutOfRange(rows, probes[..|probes| - 1], timestamp, endOfLife, writable);
    }
  }

  /** The process loop of a cycle. */
  method MonitorProcesses(db: Database, probes: seq<Probe>, timestamp: int, endOfLife: int)
    modifies db`processes
    ensures db.processes ==
      ProcessFold(old(db.processes), probes, timestamp, endOfLife, db.open && ProcessTable in db.tables)
  {
    var i := 0;
    while i < |probes|
      invariant 0 <= i <= |probes|
      invariant db.processes ==
        ProcessFold(old(db.processes), probes[..i], timestamp, endOfLife, db.open && ProcessTable in db.tables)
    {
      assert probes[..i + 1][..i] == probes[..i];
      var probe := probes[i];
      if probe.pid != 0 {
        match probe.measurement
        case Measured(cpuUsage, memoryUsage) =>
          if InDateRange(endOfLife) {
            var _ := db.InsertProcess(probe.pid, timestamp, cpuUsage, memoryUsage, endOfLife, probe.insertError);
          }
        case Inaccessible =>
      }
      i := i + 1;
    }
    assert probes[..|probes|] == probes;
  }

  /** Rows a cycle may leave behind: every component already stored keeps
      its attributes. */
  ghost predicate ComponentsKept(before: map<string, Component>, after: map<string, Component>) {
    forall s :: s in before ==> s in after && after[s] == before[s]
  }

  lemma ComponentsKeptTransitive(a: map<string, Component>, b: map<string, Component>, c: map<string, Component>)
    requires ComponentsKept(a, b) && ComponentsKept(b, c)
    ensures ComponentsKept(a, c)
  {
  }

  /** Statistics a cycle at `timestamp` may leave behind: rows of other
      timestamps stay as they were, and any other row is an "Active" row of
      this cycle with its end of life. */
  ghost predicate StatisticsOfCycle(before: map<StatisticKey, Statistic>, after: map<StatisticKey, Statistic>,
                                    timestamp: int, endOfLife: int) {
    && (forall k :: k in before && k.timestamp != timestamp ==> k in after)
    && (forall k :: k in after ==>
          (k in before && after[k] == before[k])
          || (k.timestamp == timestamp && after[k].machineState == Active && after[k].endOfLife == endOfLife))
  }

  lemma StatisticsOfCycleTransitive(a: map<StatisticKey, Statistic>, b: map<StatisticKey, Statistic>,
                                    c: map<StatisticKey, Statistic>, timestamp: int, endOfLife: int)
    requires StatisticsOfCycle(a, b, timestamp, endOfLife) && StatisticsOfCycle(b, c, timestamp, endOfLife)
    ensures StatisticsOfCycle(a, c, timestamp, endOfLife)
  {
    forall k | k in c
      ensures (k in a && c[k] == a[k])
           || (k.timestamp == timestamp && c[k].machineState == Active && c[k].endOfLife == endOfLife)
    {
    }
  }

  /** Every item of the first `n` without injected faults has its statistic
      at `timestamp`. */
  ghost predicate FaultlessStored(items: seq<HardwareItem>, n: nat, p: Platform, timestamp: int,
                                  statistics: map<StatisticKey, Statistic>)
    requires n <= |items|
  {
    forall j :: 0 <= j < n && items[j].faults == NoFaults ==>
      StatisticKey(ItemSerial(items[j], p), timestamp) in statistics
  }

  lemma FaultlessStoredStep(items: seq<HardwareItem>, i: nat, p: Platform, timestamp: int,
                            before: map<StatisticKey, Statistic>, after: map<StatisticKey, Statistic>)
    requires i < |items| && before.Keys <= after.Keys
    requires FaultlessStored(items, i, p, timestamp, before)
    requires items[i].faults == NoFaults ==> StatisticKey(ItemSerial(items[i], p), timestamp) in after
    ensures FaultlessStored(items, i + 1, p, timestamp, after)
  {
  }

  /** What one pass of the hardware loop guarantees to the loop around it. */
  method CollectItemStep(db: Database, item: HardwareItem, p: Platform, timestamp: int, lifetimeDays: int)
    returns (outcome: StepOutcome)
    requires db.Valid()
    modifies db`components, db`statistics
    ensures db.Valid()
    ensures old(db.ForeignKeysHold()) ==> db.ForeignKeysHold()
    ensures outcome.Aborted? <==> !db.open
    ensures outcome.EndOfLifeOutOfRange? ==> !InDateRange(EndOfLife(timestamp, lifetimeDays))
    ensures !db.open ==> unchanged(db)
    ensures ComponentsKept(old(db.components), db.components)
    ensures old(db.statistics).Keys <= db.statistics.Keys
    ensures StatisticsOfCycle(old(db.statistics), db.statistics, timestamp, EndOfLife(timestamp, lifetimeDays))
    ensures !InDateRange(EndOfLife(timestamp, lifetimeDays)) ==> db.statistics == old(db.statistics)
    ensures (db.open && ComponentTable in db.tables && item.faults == NoFaults
             && !InDateRange(EndOfLife(timestamp, lifetimeDays))) ==> outcome.EndOfLifeOutOfRange?
    ensures db.open && ComponentTable in db.tables && StatisticTable in db.tables && item.faults == NoFaults
            && InDateRange(EndOfLife(timestamp, lifetimeDays)) ==>
      StatisticKey(ItemSerial(item, p), timestamp) in db.statistics
  {
    outcome := CollectHardwareItem(db, item, p, timestamp, lifetimeDays);
  }

  /** No item among the first `n` is free of injected faults. */
  ghost predicate NoneFaultless(items: seq<HardwareItem>, n: nat)
    requires n <= |items|
  {
    forall j :: 0 <= j < n ==> items[j].faults != NoFaults
  }

  /** The hardware loop of a cycle. An end of life out of DateTime's range
      ends it at the first item that gets past its component calls. */
  method CollectHardware(db: Database, items: seq<HardwareItem>, p: Platform, timestamp: int, lifetimeDays: int)
    returns (aborted: bool)
    requires db.Valid()
    modifies db`components, db`statistics
    ensures db.Valid()
    ensures old(db.ForeignKeysHold()) ==> db.ForeignKeysHold()
    ensures InDateRange(EndOfLife(timestamp, lifetimeDays)) ==> (aborted <==> !db.open && |items| > 0)
    ensures aborted ==> |items| > 0 && (!db.open || !InDateRange(EndOfLife(timestamp, lifetimeDays)))
    ensures !db.open ==> unchanged(db)
    ensures ComponentsKept(old(db.components), db.components)
    ensures StatisticsOfCycle(old(db.statistics), db.statistics, timestamp, EndOfLife(timestamp, lifetimeDays))
    ensures !InDateRange(EndOfLife(timestamp, lifetimeDays)) ==> db.statistics == old(db.statistics)
    ensures (!InDateRange(EndOfLife(timestamp, lifetimeDays)) && db.open && ComponentTable in db.tables
             && exists i :: 0 <= i < |items| && items[i].faults == NoFaults) ==> aborted
    ensures db.open && ComponentTable in db.tables && StatisticTable in db.tables
            && InDateRange(EndOfLife(timestamp, lifetimeDays)) ==>
      forall i :: 0 <= i < |items| && items[i].faults == NoFaults ==>
        StatisticKey(ItemSerial(items[i], p), timestamp) in db.statistics
  {
    var eol := EndOfLife(timestamp, lifetimeDays);
    ghost var keysHeld := db.ForeignKeysHold();
    ghost var reachable := db.open && ComponentTable in db.tables;
    ghost var live := reachable && StatisticTable in db.tables && InDateRange(eol);
    var i := 0;
    while i < |items|
      invariant 0 <= i <= |items|
      invariant db.open || i == 0
      invariant !db.open ==> unchanged(db)
      invariant db.Valid()
      invariant keysHeld ==> db.ForeignKeysHold()
      invariant ComponentsKept(old(db.components), db.components)
      invariant StatisticsOfCycle(old(db.statistics), db.statistics, timestamp, eol)
      invariant !InDateRange(eol) ==> db.statistics == old(db.statistics)
      invariant reachable && !InDateRange(eol) ==> NoneFaultless(items, i)
      invariant live ==> FaultlessStored(items, i, p, timestamp, db.statistics)
    {
      ghost var before := db.statistics;
      ghost var componentsBefore := db.components;
      var outcome := CollectItemStep(db, items[i], p, timestamp, lifetimeDays);
      if outcome.EndsCycle() {
        return true;
      }
      StatisticsOfCycleTransitive(old(db.statistics), before, db.statistics, timestamp, eol);
      ComponentsKeptTransitive(old(db.components), componentsBefore, db.components);
      if live {
        FaultlessStoredStep(items, i, p, timestamp, before, db.statistics);
      }
      i := i + 1;
    }
    aborted := false;
  }

  /** OnTimedEvent: one collection cycle at `timestamp`. The hardware loop
      stores each item; a per-item DatabaseOperationException skips that
      item only. An exception that escapes it (no connection, or an end of
      life past DateTime's range) ends the whole cycle, process loop
      included. */
  method CollectCycle(db: Database, items: seq<HardwareItem>, probes: seq<Probe>, p: Platform,
                      timestamp: int, lifetimeDays: int) returns (aborted: bool)
    requires db.Valid()
    modifies db`components, db`statistics, db`processes
    ensures db.Valid()
    ensures old(db.ForeignKeysHold()) ==> db.ForeignKeysHold()
    ensures InDateRange(EndOfLife(timestamp, lifetimeDays)) ==> (aborted <==> !db.open && |items| > 0)
    ensures aborted ==> |items| > 0 && (!db.open || !InDateRange(EndOfLife(timestamp, lifetimeDays)))
    ensures aborted ==> db.processes == old(db.processes)
    ensures aborted && !db.open ==> unchanged(db)
    ensures !aborted ==>
      (db.processes == ProcessFold(old(db.processes), probes, timestamp, EndOfLife(timestamp, lifetimeDays),
                                   db.open && ProcessTable in db.tables))
    ensures ComponentsKept(old(db.components), db.components)
    ensures StatisticsOfCycle(old(db.statistics), db.statistics, timestamp, EndOfLife(timestamp, lifetimeDays))
    ensures !InDateRange(EndOfLife(timestamp, lifetimeDays)) ==>
      db.statistics == old(db.statistics) && db.processes == old(db.processes)
    ensures (!InDateRange(EndOfLife(timestamp, lifetimeDays)) && db.open && ComponentTable in db.tables
             && exists i :: 0 <= i < |items| && items[i].faults == NoFaults) ==> aborted
    ensures db.open && ComponentTable in db.tables && StatisticTable in db.tables
            && InDateRange(EndOfLife(timestamp, lifetimeDays)) ==>
      forall i :: 0 <= i < |items| && items[i].faults == NoFaults ==>
        StatisticKey(ItemSerial(items[i], p), timestamp) in db.statistics
  {
    aborted := CollectHardware(db, items, p, timestamp, lifetimeDays);
    if !aborted {
      MonitorProcesses(db, probes, timestamp, EndOfLife(timestamp, lifetimeDays));
      if !InDateRange(EndOfLife(timestamp, lifetimeDays)) {
        ProcessFoldOutOfRange(old(db.processes), probes, timestamp, EndOfLife(timestamp, lifetimeDays),
                              db.open && ProcessTable in db.tables);
      }
    }
  }

  /** `DateTime` ticks of 2025-01-01 00:00. */
  const Ticks2025: int := 638_712_864_000_000_000

  /** `--lifetime 8000y` is accepted, since 2,920,000 days fit a TimeSpan,
      but from 2025 on its end of life lies past DateTime's last tick, so
      every cycle ends without a statistic or a process row. */
  lemma LongLifetimeOutOfRange(timestamp: int)
    requires timestamp >= Ticks2025
    ensures ParseLifetimeAsWritten(DecimalString(8000) + "y") == Success(2920000)
    ensures !InDateRange(EndOfLife(timestamp, 2920000))
  {
    ParseNumeral(8000, 'y', 365);
  }

  // =====================================================================
  // Main: the argument loop and what each command does

  /** What the argument loop decides: a one-shot store command, the
      monitoring agent with a lifetime, or the fatal-error exit when a
      lifetime does not parse. */
  datatype Command = InitDb | ClearDb | PruneNow(lifetimeDays: int) | Monitor(lifetimeDays: int)
                   | Fatal(error: LifetimeError)

  predicate IsKeyword(arg: string) {
    arg == "init-db" || arg == "clear-db" || arg == "--lifetime" || arg == "prune-now"
  }

  /** The argument loop read from position 0 with the lifetime so far. Main
      calls ParseLifetimeArgument as written, so a lifetime whose day count
      wraps in 32 bits is accepted with the wrapped count. */
  function Scan(args: seq<string>, lifetimeDays: int): Command
    decreases |args|
  {
    if |args| == 0 then Monitor(lifetimeDays)
    else if args[0] == "init-db" then InitDb
    else if args[0] == "clear-db" then ClearDb
    else if args[0] == "--lifetime" && 1 < |args| then
      match ParseLifetimeAsWritten(args[1])
      case Failure(e) => Fatal(e)
      case Success(days) => Scan(args[2..], days)
    else if args[0] == "prune-now" then
      if 1 < |args| && args[1] == "--lifetime" && 2 < |args| then
        match ParseLifetimeAsWritten(args[2])
        case Failure(e) => Fatal(e)
        case Success(days) => PruneNow(days)
      else PruneNow(lifetimeDays)
    else Scan(args[1..], lifetimeDays)
  }

  /** The loop over `args` in Main, starting from the default lifetime. */
  method ParseArguments(args: seq<string>) returns (cmd: Command)
    ensures cmd == Scan(args, DefaultLifetimeDays)
  {
    var lifetimeDays := DefaultLifetimeDays;
    var i := 0;
    while i < |args|
      invariant 0 <= i <= |args|
      invariant Scan(args, DefaultLifetimeDays) == Scan(args[i..], lifetimeDays)
      decreases |args| - i
    {
      assert args[i..][1..] == args[i + 1..];
      if args[i] == "init-db" {
        return InitDb;
      } else if args[i] == "clear-db" {
        return ClearDb;
      } else if args[i] == "--lifetime" && i + 1 < |args| {
        var parsed := ParseLifetimeAsWritten(args[i + 1]);
        if parsed.Failure? {
          return Fatal(parsed.error);
        }
        lifetimeDays := parsed.value;
        assert args[i..][2..] == args[i + 2..];
        i := i + 1;
      } else if args[i] == "prune-now" {
        if i + 1 < |args| && args[i + 1] == "--lifetime" && i + 2 < |args| {
          var parsed := ParseLifetimeAsWritten(args[i + 2]);
          if parsed.Failure? {
            return Fatal(parsed.error);
          }
          lifetimeDays := parsed.value;
        }
        return PruneNow(lifetimeDays);
      }
      i := i + 1;
    }
    cmd := Monitor(lifetimeDays);
  }

  /** Arguments that are none of the four keywords are passed over. */
  lemma {:induction false} ScanSkips(prefix: seq<string>, rest: seq<string>, lifetimeDays: int)
    requires forall k :: 0 <= k < |prefix| ==> !IsKeyword(prefix[k])
    ensures Scan(prefix + rest, lifetimeDays) == Scan(rest, lifetimeDays)
    decreases |prefix|
  {
    if |prefix| > 0 {
      var args := prefix + rest;
      assert args[0] == prefix[0] && !IsKeyword(args[0]);
      assert args[1..] == prefix[1..] + rest;
      assert Scan(args, lifetimeDays) == Scan(args[1..], lifetimeDays);
      ScanSkips(prefix[1..], rest, lifetimeDays);
    } else {
      assert prefix + rest == rest;
    }
  }

  /** With no keyword at all the agent monitors with the default 365 days. */
  lemma ScanDefault(args: seq<string>)
    requires forall k :: 0 <= k < |args| ==> !IsKeyword(args[k])
    ensures Scan(args, DefaultLifetimeDays) == Monitor(365)
  {
    ScanSkips(args, [], DefaultLifetimeDays);
    assert args + [] == args;
  }

  /** The first command keyword ends the scan: whatever follows `init-db`
      or `clear-db` is never looked at. */
  lemma ScanStopsAtCommand(prefix: seq<string>, command: string, rest: seq<string>, lifetimeDays: int)
    requires forall k :: 0 <= k < |prefix| ==> !IsKeyword(prefix[k])
    requires command == "init-db" || command == "clear-db"
    ensures Scan(prefix + [command] + rest, lifetimeDays) == if command == "init-db" then InitDb else ClearDb
  {
    assert prefix + [command] + rest == prefix + ([command] + rest);
    ScanSkips(prefix, [command] + rest, lifetimeDays);
  }

  /** `--lifetime V` sets the lifetime for the rest of the scan, a bad `V`
      ends it fatally, and a `--lifetime` with nothing after it is
      ignored. */
  lemma ScanLifetime(value: string, rest: seq<string>, lifetimeDays: int)
    ensures Scan(["--lifetime"], lifetimeDays) == Monitor(lifetimeDays)
    ensures ParseLifetimeAsWritten(value).Failure? ==>
      Scan(["--lifetime", value] + rest, lifetimeDays) == Fatal(ParseLifetimeAsWritten(value).error)
    ensures ParseLifetimeAsWritten(value).Success? ==>
      Scan(["--lifetime", value] + rest, lifetimeDays) == Scan(rest, ParseLifetimeAsWritten(value).value)
  {
    assert (["--lifetime", value] + rest)[2..] == rest;
    assert ["--lifetime"][1..] == [];
  }

  /** Wherever the exact reading accepts `V`, the scan sets the lifetime the
      exact reading gives. */
  lemma ScanLifetimeExact(value: string, rest: seq<string>, lifetimeDays: int)
    requires ParseLifetime(value).Success?
    ensures Scan(["--lifetime", value] + rest, lifetimeDays) == Scan(rest, ParseLifetime(value).value)
  {
    AsWrittenAgrees(value);
    ScanLifetime(value, rest, lifetimeDays);
  }

  /** `--lifetime 143165577m` starts monitoring with a lifetime of 14 days. */
  lemma ScanWrappedLifetime(lifetimeDays: int)
    ensures Scan(["--lifetime", DecimalString(143165577) + "m"], lifetimeDays) == Monitor(14)
  {
    WrappedLifetime(143165577);
    ScanLifetime(DecimalString(143165577) + "m", [], lifetimeDays);
    assert ["--lifetime", DecimalString(143165577) + "m"] + [] == ["--lifetime", DecimalString(143165577) + "m"];
  }

  /** `prune-now --lifetime V` prunes with `V` whatever lifetime was set
      before and whatever follows; a bare `prune-now` uses the lifetime so
      far. */
  lemma ScanPruneNow(value: string, rest: seq<string>, lifetimeDays: int)
    ensures ParseLifetimeAsWritten(value).Failure? ==>
      Scan(["prune-now", "--lifetime", value] + rest, lifetimeDays) == Fatal(ParseLifetimeAsWritten(value).error)
    ensures ParseLifetimeAsWritten(value).Success? ==>
      Scan(["prune-now", "--lifetime", value] + rest, lifetimeDays) == PruneNow(ParseLifetimeAsWritten(value).value)
    ensures Scan(["prune-now"], lifetimeDays) == PruneNow(lifetimeDays)
  {
  }

  /** The `clear-db` command: initialize, then clear; an exception from
      either reaches Main's catch and exits 1. */
  method ClearStore(db: Database, init: (Table, nat) -> bool, clear: (Table, nat) -> bool) returns (exitCode: int)
    requires db.Valid()
    modifies db
    ensures db.Valid()
    ensures exitCode == 0 || exitCode == 1
    ensures exitCode == 0 <==> AllSucceedUpTo(2, init) && AllSucceedUpTo(2, clear)
    ensures exitCode == 0 ==> db.components == map[] && db.statistics == map[] && db.processes == map[]
    ensures !AllSucceedUpTo(2, init) ==>
      db.components == old(db.components) && db.statistics == old(db.statistics)
      && db.processes == old(db.processes)
  {
    var r := db.InitializeDatabase(init);
    if r.Fail? {
      return 1;
    }
    AllTablesPresent(db, clear);
    var cleared := db.ClearDatabase(clear);
    return if cleared.Pass? then 0 else 1;
  }

  /** Once every table exists, a DELETE fails only for the engine's own
      reasons. */
  lemma AllTablesPresent(db: Database, clear: (Table, nat) -> bool)
    requires ComponentTable in db.tables && StatisticTable in db.tables && ProcessTable in db.tables
    ensures AllSucceedUpTo(2, db.Failing(clear)) <==> AllSucceedUpTo(2, clear)
  {
    var failing := db.Failing(clear);
    forall j | 0 <= j <= 2
      ensures Succeeds((k: nat) => failing(TableOrder[j], k), MaxRetries)
          <==> Succeeds((k: nat) => clear(TableOrder[j], k), MaxRetries)
    {
      assert TableOrder[j] in db.tables;
      SucceedsAlike((k: nat) => failing(TableOrder[j], k), (k: nat) => clear(TableOrder[j], k));
    }
  }

  lemma SucceedsAlike(f: nat -> bool, g: nat -> bool)
    requires forall k: nat :: f(k) == g(k)
    ensures Succeeds(f, MaxRetries) <==> Succeeds(g, MaxRetries)
  {
    if Succeeds(f, MaxRetries) {
      var k: nat :| k <= MaxRetries && !f(k);
      assert !g(k);
    }
    if Succeeds(g, MaxRetries) {
      var k: nat :| k <= MaxRetries && !g(k);
      assert !f(k);
    }
  }

  /** One firing of the collection timer (the first one is the warm-up
      collection before the timers start). */
  datatype Tick = Tick(items: seq<HardwareItem>, probes: seq<Probe>, timestamp: int)

  /** Main after the argument loop. `init` and `clear` drive the retries of
      the store's DDL and DELETEs; `ticks` are the collections made before
      Enter is pressed. Returns the process exit code. */
  method RunAgent(db: Database, cmd: Command, init: (Table, nat) -> bool, clear: (Table, nat) -> bool,
                  ticks: seq<Tick>, p: Platform) returns (exitCode: int)
    requires db.Valid()
    modifies db
    ensures db.Valid()
    ensures cmd.Fatal? ==> exitCode == 1 && unchanged(db)
    ensures cmd == InitDb ==> exitCode == (if AllSucceedUpTo(2, init) then 0 else 1)
    ensures cmd == ClearDb ==> (exitCode == 0 <==> AllSucceedUpTo(2, init) && AllSucceedUpTo(2, clear))
    ensures cmd == ClearDb ==> exitCode == 0 || exitCode == 1
    ensures cmd == ClearDb && exitCode == 0 ==>
      db.components == map[] && db.statistics == map[] && db.processes == map[]
    ensures cmd == ClearDb && !AllSucceedUpTo(2, init) ==>
      db.components == old(db.components) && db.statistics == old(db.statistics)
      && db.processes == old(db.processes)
    ensures cmd.Monitor? ==> exitCode == 0
    ensures cmd.Monitor? && AllSucceedUpTo(2, init) ==> !db.open
    ensures cmd.Monitor? || cmd == InitDb || cmd.PruneNow? ==>
      db.components == old(db.components) || (cmd.Monitor? && ComponentsKept(old(db.components), db.components))
    ensures cmd.Monitor? && old(db.ForeignKeysHold()) ==> db.ForeignKeysHold()
  {
    match cmd
    case Fatal(_) =>
      return 1;
    case InitDb =>
      var r := db.InitializeDatabase(init);
      return if r.Pass? then 0 else 1;
    case ClearDb =>
      exitCode := ClearStore(db, init, clear);
    case PruneNow(_) =>
      var r := db.InitializeDatabase(init);
      return if r.Pass? then 0 else 1;
    case Monitor(lifetimeDays) =>
      var r := db.InitializeDatabase(init);
      if r.Fail? {
        return 0;
      }
      var i := 0;
      while i < |ticks|
        invariant 0 <= i <= |ticks|
        invariant db.Valid() && db.open
        invariant old(db.ForeignKeysHold()) ==> db.ForeignKeysHold()
        invariant ComponentsKept(old(db.components), db.components)
      {
        var _ := CollectCycle(db, ticks[i].items, ticks[i].probes, p, ticks[i].timestamp, lifetimeDays);
        i := i + 1;
      }
      db.CloseConnection();
      return 0;
  }
}
