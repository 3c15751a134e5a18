/** The command line of the memory-reservation demos: `TryParseSize` (the same
    in 03-Memory/ReserveMemory/Program.cs, ReserveMemory/Program.cs and
    DataTypes/Program.cs) and `TryParseArguments` with its help check
    (03-Memory/ReserveMemory/Program.cs). */
module SizeArguments {
  import opened Common
  import opened Text

  const LongMaxValue: int := 0x7FFF_FFFF_FFFF_FFFF
  const KiB: nat := 0x400
  const MiB: nat := 0x10_0000
  const GiB: nat := 0x4000_0000
  const TiB: nat := 0x100_0000_0000

  // ---------------------------------------------------------------------------
  // TryParseSize
  // ---------------------------------------------------------------------------

  /** The unit a size ends with: none, or one of the suffixes `TryParseSize` tests. */
  datatype Unit = Bytes | Kilo | Mega | Giga | Tera

  /** The factors 1, 1 << 10, 1 << 20, 1 << 30 and 1 << 40. */
  function Factor(unit: Unit): (r: nat)
    ensures r >= 1
  {
    match unit
      case Bytes => 1
      case Kilo => 0x400
      case Mega => 0x10_0000
      case Giga => 0x4000_0000
      case Tera => 0x100_0000_0000
  }

  function SuffixText(unit: Unit): (r: string)
    ensures |r| == (if unit == Bytes then 0 else 2)
  {
    match unit
      case Bytes => ""
      case Kilo => "KB"
      case Mega => "MB"
      case Giga => "GB"
      case Tera => "TB"
  }

  /** The first suffix, in the order KB, MB, GB, TB, that the text ends with. The
      four are distinct two-letter strings, so at most one matches. */
  function UnitOf(u: string): (unit: Unit)
    ensures forall other: Unit :: other != Bytes && EndsWith(u, SuffixText(other)) ==> unit == other
    ensures unit != Bytes ==> EndsWith(u, SuffixText(unit))
  {
    if EndsWith(u, "KB") then Kilo
    else if EndsWith(u, "MB") then Mega
    else if EndsWith(u, "GB") then Giga
    else if EndsWith(u, "TB") then Tera
    else Bytes
  }

  /** value * factor, multiplied out with the unit's constant. */
  function Scale(v: int, unit: Unit): (r: int)
    ensures v >= 0 ==> r >= v
    ensures v < 0 ==> r <= v
  {
    match unit
      case Bytes => v
      case Kilo => v * 0x400
      case Mega => v * 0x10_0000
      case Giga => v * 0x4000_0000
      case Tera => v * 0x100_0000_0000
  }

  /** What `TryParseSize` yields: the trimmed, upper-cased text split into a
      numeral and a unit, and the numeral's value times the unit's factor; nothing
      when the numeral does not parse or the product is negative or beyond a
      `long`. */
  function SizeOf(s: string): (r: Option<nat>)
    ensures r.Some? ==> r.value <= LongMaxValue
  {
    var u := ToUpper(Trim(s));
    var unit := UnitOf(u);
    match ParseInteger(u[..|u| - |SuffixText(unit)|])
      case None => None
      case Some(v) =>
        var product := Scale(v, unit);
        if product < 0 || product > LongMaxValue then None else Some(product)
  }

  /** The suffix tests of TryParseSize: the first of KB, MB, GB and TB that the
      text ends with is cut off, and the unit is recorded. */
  method StripSuffix(u: string) returns (unit: Unit, num: string)
    ensures unit == UnitOf(u) && num == u[..|u| - |SuffixText(unit)|]
  {
    unit := Bytes;
    num := u;
    if EndsWith(u, "KB") {
      unit := Kilo;
      num := u[..|u| - 2];
    } else if EndsWith(u, "MB") {
      unit := Mega;
      num := u[..|u| - 2];
    } else if EndsWith(u, "GB") {
      unit := Giga;
      num := u[..|u| - 2];
    } else if EndsWith(u, "TB") {
      unit := Tera;
      num := u[..|u| - 2];
    }
  }

  /** TryParseSize: trim, upper-case, strip one suffix, parse the rest, scale. */
  method TryParseSize(s: string) returns (ok: bool, bytes: int)
    ensures ok == SizeOf(s).Some?
    ensures bytes == if ok then SizeOf(s).value else 0
  {
    bytes := 0;
    var t := Trim(s);
    var u := ToUpper(t);
    var unit, num := StripSuffix(u);
    SizeOfParts(s, u, num, unit);
    var value := ParseInteger(num);
    if value.None? {
      return false, 0;
    }
    var asLong := Scale(value.value, unit);
    if asLong < 0 || asLong > LongMaxValue {
      return false, 0;
    }
    bytes := asLong;
    ok := true;
  }

  lemma ScaleIsProduct(v: int, unit: Unit)
    ensures Scale(v, unit) == v * Factor(unit)
  {
  }

  /** The suffix of a unit as written, in upper or lower case. */
  function Spelling(unit: Unit, lower: bool): (r: string)
    ensures |r| == |SuffixText(unit)|
    ensures ToUpper(r) == SuffixText(unit)
    ensures unit != Bytes ==> r[|r| - 1] == (if lower then 'b' else 'B')
  {
    if lower then
      match unit
        case Bytes => ""
        case Kilo => "kb"
        case Mega => "mb"
        case Giga => "gb"
        case Tera => "tb"
    else SuffixText(unit)
  }

  /** What SizeOf makes of a text that trims and upper-cases to a numeral followed
      by a unit's suffix. */
  lemma SizeOfParts(s: string, u: string, num: string, unit: Unit)
    requires ToUpper(Trim(s)) == u && UnitOf(u) == unit && u[..|u| - |SuffixText(unit)|] == num
    ensures SizeOf(s) == match ParseInteger(num)
      case None => None
      case Some(v) => var p := Scale(v, unit); if p < 0 || p > LongMaxValue then None else Some(p)
  {
    var cut := u[..|u| - |SuffixText(unit)|];
    assert cut == num;
    assert SizeOf(s) == match ParseInteger(cut)
      case None => None
      case Some(v) => var p := Scale(v, unit); if p < 0 || p > LongMaxValue then None else Some(p);
  }

  lemma NotWhite(c: char)
    requires '0' <= c <= '9' || 'A' <= c <= 'Z' || 'a' <= c <= 'z' || c == '-'
    ensures !IsWhiteSpace(c)
  {
  }

  /** A number's text followed by a suffix has nothing to trim. */
  lemma TrimNumeral(i: int, unit: Unit, lower: bool)
    ensures var s := IntToString(i) + Spelling(unit, lower); Trim(s) == s
  {
    var t := IntToString(i);
    var s := t + Spelling(unit, lower);
    NotWhite(s[0]);
    NotWhite(s[|s| - 1]);
    TrimStartNoop(s);
    TrimEndNoop(s);
  }

  lemma UpperNumeral(i: int, unit: Unit, lower: bool)
    ensures ToUpper(IntToString(i) + Spelling(unit, lower)) == IntToString(i) + SuffixText(unit)
  {
    var t := IntToString(i);
    var sp := Spelling(unit, lower);
    var s := t + sp;
    forall j | 0 <= j < |s| ensures ToUpper(s)[j] == (t + SuffixText(unit))[j] {
      if j >= |t| {
        assert s[j] == sp[j - |t|];
        assert ToUpper(sp)[j - |t|] == ToUpperChar(sp[j - |t|]);
      }
    }
  }

  /** A numeral followed by a unit's suffix is read with that unit. */
  lemma UnitOfNumeral(i: int, unit: Unit)
    ensures UnitOf(IntToString(i) + SuffixText(unit)) == unit
  {
    var u := IntToString(i) + SuffixText(unit);
    if unit == Bytes {
      assert u[|u| - 1] != 'B';
    } else {
      assert u[|u| - 2..] == SuffixText(unit);
      assert EndsWith(u, SuffixText(unit));
    }
  }

  /** A numeral followed by a suffix, in upper or lower case or none, is read as
      the numeral times the suffix's factor; negative numerals and products beyond
      a `long` are rejected. */
  lemma SizeOfNumeral(i: int, unit: Unit, lower: bool)
    ensures SizeOf(IntToString(i) + Spelling(unit, lower)) ==
      if 0 <= i && i * Factor(unit) <= LongMaxValue then Some(i * Factor(unit)) else None
  {
    var s := IntToString(i) + Spelling(unit, lower);
    TrimNumeral(i, unit, lower);
    UpperNumeral(i, unit, lower);
    UnitOfNumeral(i, unit);
    var u := IntToString(i) + SuffixText(unit);
    assert u[..|u| - |SuffixText(unit)|] == IntToString(i);
    SizeOfParts(s, u, IntToString(i), unit);
    ParseIntegerRoundTrip(i);
    ScaleIsProduct(i, unit);
  }

  /** Trimming before the call, as ReserveMemory and DataTypes do, changes nothing. */
  lemma TrimBeforeIsRedundant(s: string)
    ensures SizeOf(Trim(s)) == SizeOf(s)
  {
    TrimIdempotent(s);
  }

  // ---------------------------------------------------------------------------
  // TryParseArguments
  // ---------------------------------------------------------------------------

  /** 100 * 1024 * 1024: the object size when no `--objectSize` is given. */
  const DefaultObjectSize: nat := 100 * 1024 * 1024
  /** Totals below one KiB are refused. */
  const MinimumTotal: nat := 1024

  datatype ArgError =
    | MissingObjectSizeValue   // "--objectSize requires a value."
    | InvalidObjectSize        // "Invalid object size: ..."
    | ObjectSizeOutOfRange     // "Object size must be between 1 byte and 2 GB."
    | MissingIterateValue      // "--iterate requires a value."
    | InvalidIterationCount    // "Invalid iteration count: ..."
    | MissingSize              // "Please specify total size to allocate."
    | InvalidSizeFormat        // "Invalid size format."
    | SizeBelowMinimum         // "Total size must be at least 1 KB."

  /** The three out-parameters of a successful parse. */
  datatype Options = Options(bytesToAllocate: nat, objectSize: nat, iterations: nat)

  /** The loop's state: the two option values so far and the last size argument. */
  datatype Scan = Scan(objectSize: nat, iterations: nat, sizeArg: Option<string>)

  const InitialScan := Scan(DefaultObjectSize, 1, None)

  predicate IsObjectSizeFlag(a: string)
  {
    a == "--objectSize" || a == "-o"
  }

  predicate IsIterateFlag(a: string)
  {
    a == "--iterate" || a == "-i"
  }

  /** The option values a scan can hold. */
  predicate ValidScan(st: Scan)
  {
    1 <= st.objectSize <= IntMaxValue && 1 <= st.iterations <= IntMaxValue
  }

  /** The loop of TryParseArguments over the arguments not yet looked at. An
      option consumes the argument after it; any other argument not starting with
      '-' becomes the size argument; unknown dash arguments are passed over. */
  function ScanRest(rest: seq<string>, st: Scan): (r: Result<Scan, ArgError>)
    decreases |rest|
  {
    if |rest| == 0 then Ok(st)
    else if IsObjectSizeFlag(rest[0]) then
      if |rest| < 2 then Err(MissingObjectSizeValue)
      else match SizeOf(rest[1])
        case None => Err(InvalidObjectSize)
        case Some(n) =>
          if n < 1 || n > IntMaxValue then Err(ObjectSizeOutOfRange)
          else ScanRest(rest[2..], st.(objectSize := n))
    else if IsIterateFlag(rest[0]) then
      if |rest| < 2 then Err(MissingIterateValue)
      else match ParseInt32(rest[1])
        case None => Err(InvalidIterationCount)
        case Some(k) =>
          if k < 1 then Err(InvalidIterationCount)
          else ScanRest(rest[2..], st.(iterations := k))
    else if !StartsWith(rest[0], "-") then ScanRest(rest[1..], st.(sizeArg := Some(rest[0])))
    else ScanRest(rest[1..], st)
  }

  /** After the loop: a size argument must be present, parse, and be at least 1 KiB. */
  function Finish(st: Scan): (r: Result<Options, ArgError>)
  {
    match st.sizeArg
      case None => Err(MissingSize)
      case Some(a) =>
        match SizeOf(a)
          case None => Err(InvalidSizeFormat)
          case Some(b) =>
            if b < MinimumTotal then Err(SizeBelowMinimum)
            else Ok(Options(b, st.objectSize, st.iterations))
  }

  /** TryParseArguments, with its out-parameters as the result. */
  function ParseArguments(args: seq<string>): (r: Result<Options, ArgError>)
  {
    match ScanRest(args, InitialScan)
      case Err(e) => Err(e)
      case Ok(st) => Finish(st)
  }

  /** TryParseArguments: one pass over the arguments, skipping option values. */
  method TryParseArguments(args: seq<string>) returns (r: Result<Options, ArgError>)
    ensures r == ParseArguments(args)
  {
    var objectSize: nat := DefaultObjectSize;
    var iterations: nat := 1;
    var sizeArg: Option<string> := None;
    var i := 0;
    while i < |args|
      invariant 0 <= i <= |args|
      invariant ScanRest(args[i..], Scan(objectSize, iterations, sizeArg)) == ScanRest(args, InitialScan)
      decreases |args| - i
    {
      ghost var rest := args[i..];
      ghost var st := Scan(objectSize, iterations, sizeArg);
      if IsObjectSizeFlag(args[i]) {
        if i + 1 >= |args| {
          ObjectSizeStep(rest, st);
          return Err(MissingObjectSizeValue);
        }
        var ok, objSizeBytes := TryParseSize(args[i + 1]);
        ObjectSizeStep(rest, st);
        if !ok {
          return Err(InvalidObjectSize);
        }
        if objSizeBytes < 1 || objSizeBytes > IntMaxValue {
          return Err(ObjectSizeOutOfRange);
        }
        objectSize := objSizeBytes;
        i := i + 1;
        assert rest[2..] == args[i + 1..];
      } else if IsIterateFlag(args[i]) {
        if i + 1 >= |args| {
          IterateStep(rest, st);
          return Err(MissingIterateValue);
        }
        var parsed := ParseInt32(args[i + 1]);
        IterateStep(rest, st);
        if parsed.None? || parsed.value < 1 {
          return Err(InvalidIterationCount);
        }
        iterations := parsed.value;
        i := i + 1;
        assert rest[2..] == args[i + 1..];
      } else {
        PlainStep(rest, st);
        if !StartsWith(args[i], "-") {
          sizeArg := Some(args[i]);
        }
        assert rest[1..] == args[i + 1..];
      }
      i := i + 1;
    }
    var st := Scan(objectSize, iterations, sizeArg);
    assert args[i..] == [];
    r := Finish(st);
  }

  /** One step of the scan at an object-size flag. */
  lemma ObjectSizeStep(rest: seq<string>, st: Scan)
    requires |rest| >= 1 && IsObjectSizeFlag(rest[0])
    ensures |rest| < 2 ==> ScanRest(rest, st) == Err(MissingObjectSizeValue)
    ensures |rest| >= 2 ==>
      ScanRest(rest, st) == (
        match SizeOf(rest[1])
          case None => Err(InvalidObjectSize)
          case Some(n) =>
            if n < 1 || n > IntMaxValue then Err(ObjectSizeOutOfRange)
            else ScanRest(rest[2..], st.(objectSize := n)))
  {
  }

  /** One step of the scan at an iteration flag. */
  lemma IterateStep(rest: seq<string>, st: Scan)
    requires |rest| >= 1 && IsIterateFlag(rest[0])
    ensures |rest| < 2 ==> ScanRest(rest, st) == Err(MissingIterateValue)
    ensures |rest| >= 2 ==>
      ScanRest(rest, st) == (
        match ParseInt32(rest[1])
          case None => Err(InvalidIterationCount)
          case Some(k) => if k < 1 then Err(InvalidIterationCount) else ScanRest(rest[2..], st.(iterations := k)))
  {
  }

  /** One step of the scan at any other argument. */
  lemma PlainStep(rest: seq<string>, st: Scan)
    requires |rest| >= 1 && !IsObjectSizeFlag(rest[0]) && !IsIterateFlag(rest[0])
    ensures ScanRest(rest, st) ==
      if !StartsWith(rest[0], "-") then ScanRest(rest[1..], st.(sizeArg := Some(rest[0])))
      else ScanRest(rest[1..], st)
  {
  }

  /** A successful parse has a total of at least 1 KiB that fits a `long`, an
      object size between 1 and int.MaxValue, and at least one iteration. */
  lemma ParsedBounds(args: seq<string>)
    requires ParseArguments(args).Ok?
    ensures var o := ParseArguments(args).value;
      MinimumTotal <= o.bytesToAllocate <= LongMaxValue
      && 1 <= o.objectSize <= IntMaxValue && 1 <= o.iterations <= IntMaxValue
  {
    ScanKeepsValid(args, InitialScan);
  }

  lemma {:induction false} ScanKeepsValid(rest: seq<string>, st: Scan)
    requires ValidScan(st)
    ensures ScanRest(rest, st).Ok? ==> ValidScan(ScanRest(rest, st).value)
    decreases |rest|
  {
    if |rest| > 0 {
      if IsObjectSizeFlag(rest[0]) {
        if |rest| >= 2 && SizeOf(rest[1]).Some? && 1 <= SizeOf(rest[1]).value <= IntMaxValue {
          ScanKeepsValid(rest[2..], st.(objectSize := SizeOf(rest[1]).value));
        }
      } else if IsIterateFlag(rest[0]) {
        if |rest| >= 2 && ParseInt32(rest[1]).Some? && ParseInt32(rest[1]).value >= 1 {
          ScanKeepsValid(rest[2..], st.(iterations := ParseInt32(rest[1]).value));
        }
      } else if !StartsWith(rest[0], "-") {
        ScanKeepsValid(rest[1..], st.(sizeArg := Some(rest[0])));
      } else {
        ScanKeepsValid(rest[1..], st);
      }
    }
  }

  /** A scan that completes on a prefix carries on over the rest from the state
      the prefix left. */
  lemma {:induction false} ScanAppend(a: seq<string>, b: seq<string>, st: Scan)
    requires ScanRest(a, st).Ok?
    ensures ScanRest(a + b, st) == ScanRest(b, ScanRest(a, st).value)
    decreases |a|
  {
    if |a| == 0 {
      assert a + b == b;
    } else {
      var ab := a + b;
      assert ab[0] == a[0];
      if IsObjectSizeFlag(a[0]) {
        assert ab[1] == a[1] && ab[2..] == a[2..] + b;
        ScanAppend(a[2..], b, st.(objectSize := SizeOf(a[1]).value));
      } else if IsIterateFlag(a[0]) {
        assert ab[1] == a[1] && ab[2..] == a[2..] + b;
        ScanAppend(a[2..], b, st.(iterations := ParseInt32(a[1]).value));
      } else if !StartsWith(a[0], "-") {
        assert ab[1..] == a[1..] + b;
        ScanAppend(a[1..], b, st.(sizeArg := Some(a[0])));
      } else {
        assert ab[1..] == a[1..] + b;
        ScanAppend(a[1..], b, st);
      }
    }
  }

  /** The size argument is the last plain argument: appending one replaces any
      earlier size argument and keeps the options. */
  lemma LastSizeArgumentWins(args: seq<string>, s: string)
    requires ScanRest(args, InitialScan).Ok? && !StartsWith(s, "-")
    ensures ScanRest(args + [s], InitialScan) == Ok(ScanRest(args, InitialScan).value.(sizeArg := Some(s)))
  {
    ScanAppend(args, [s], InitialScan);
  }

  /** An unknown argument starting with '-' is ignored. */
  lemma UnknownDashArgumentIgnored(args: seq<string>, s: string)
    requires ScanRest(args, InitialScan).Ok?
    requires StartsWith(s, "-") && !IsObjectSizeFlag(s) && !IsIterateFlag(s)
    ensures ScanRest(args + [s], InitialScan) == ScanRest(args, InitialScan)
  {
    ScanAppend(args, [s], InitialScan);
  }

  /** `--objectSize v` sets the object size when v is a size in [1, int.MaxValue],
      and fails otherwise; with no value after it the parse fails. */
  lemma ObjectSizeOption(args: seq<string>, flag: string, v: string)
    requires ScanRest(args, InitialScan).Ok? && IsObjectSizeFlag(flag)
    ensures ScanRest(args + [flag], InitialScan) == Err(MissingObjectSizeValue)
    ensures var st := ScanRest(args, InitialScan).value;
      ScanRest(args + [flag, v], InitialScan) ==
        match SizeOf(v)
          case None => Err(InvalidObjectSize)
          case Some(n) => if 1 <= n <= IntMaxValue then Ok(st.(objectSize := n)) else Err(ObjectSizeOutOfRange)
  {
    ScanAppend(args, [flag], InitialScan);
    ScanAppend(args, [flag, v], InitialScan);
  }

  /** `--iterate v` sets the iteration count when v is an int of at least 1, and
      fails otherwise; with no value after it the parse fails. */
  lemma IterateOption(args: seq<string>, flag: string, v: string)
    requires ScanRest(args, InitialScan).Ok? && IsIterateFlag(flag)
    ensures ScanRest(args + [flag], InitialScan) == Err(MissingIterateValue)
    ensures var st := ScanRest(args, InitialScan).value;
      ScanRest(args + [flag, v], InitialScan) ==
        match ParseInt32(v)
          case None => Err(InvalidIterationCount)
          case Some(k) => if k >= 1 then Ok(st.(iterations := k)) else Err(InvalidIterationCount)
  {
    ScanAppend(args, [flag], InitialScan);
    ScanAppend(args, [flag, v], InitialScan);
  }

  /** A lone size argument gives the defaults: 100 MiB objects, one iteration. */
  lemma SizeArgumentAlone(s: string)
    requires !StartsWith(s, "-")
    ensures ParseArguments([s]) ==
      match SizeOf(s)
        case None => Err(InvalidSizeFormat)
        case Some(b) => if b < MinimumTotal then Err(SizeBelowMinimum) else Ok(Options(b, DefaultObjectSize, 1))
  {
    assert !IsObjectSizeFlag(s) && !IsIterateFlag(s);
    assert [s][1..] == [];
    assert ScanRest([s], InitialScan) == Ok(InitialScan.(sizeArg := Some(s)));
  }

  /** Arguments that all start with '-' and are neither option flag leave the
      scan where it was: each one is passed over. */
  lemma {:induction false} DashArgumentsKeepScan(rest: seq<string>, st: Scan)
    requires forall k :: 0 <= k < |rest| ==>
      StartsWith(rest[k], "-") && !IsObjectSizeFlag(rest[k]) && !IsIterateFlag(rest[k])
    ensures ScanRest(rest, st) == Ok(st)
    decreases |rest|
  {
    if |rest| > 0 {
      PlainStep(rest, st);
      assert forall k :: 0 <= k < |rest[1..]| ==> rest[1..][k] == rest[k + 1];
      DashArgumentsKeepScan(rest[1..], st);
    }
  }

  /** Without a plain argument the size is missing: when every argument starts
      with '-' and none is an option flag, the parse fails with MissingSize. */
  lemma NoSizeArgument(args: seq<string>)
    requires forall k :: 0 <= k < |args| ==>
      StartsWith(args[k], "-") && !IsObjectSizeFlag(args[k]) && !IsIterateFlag(args[k])
    ensures ParseArguments(args) == Err(MissingSize)
  {
    DashArgumentsKeepScan(args, InitialScan);
  }

  /** The two smallest instances: no arguments, and one unknown dash argument. */
  lemma NoSizeArgumentExamples()
    ensures ParseArguments([]) == Err(MissingSize)
    ensures ParseArguments(["-x"]) == Err(MissingSize)
  {
    assert StartsWith("-x", "-");
    NoSizeArgument(["-x"]);
  }

  // ---------------------------------------------------------------------------
  // The command line of 03-Memory/ReserveMemory
  // ---------------------------------------------------------------------------

  const LohThreshold: nat := 85_000

  /** Where an object of this size is allocated: the large object heap from
      85,000 bytes on. */
  predicate IsLoh(objectSize: nat)
  {
    objectSize >= LohThreshold
  }

  datatype Stop = ShowUsage | BadArguments(error: ArgError)

  /** Main's decision before allocating: usage for no arguments or a help word
      first; the parse result otherwise. */
  function ReserveMemoryCommand(args: seq<string>): (r: Result<Options, Stop>)
    ensures r.Ok? ==> ParseArguments(args) == Ok(r.value)
    ensures r.Err? && r.error.BadArguments? ==> ParseArguments(args) == Err(r.error.error)
  {
    if |args| == 0 || args[0] in {"-h", "--help", "/?", "help"} then Err(ShowUsage)
    else match ParseArguments(args)
      case Err(e) => Err(BadArguments(e))
      case Ok(o) => Ok(o)
  }

  /** The help words stop the program whatever follows. */
  lemma HelpStops(rest: seq<string>, word: string)
    requires word in {"-h", "--help", "/?", "help"}
    ensures ReserveMemoryCommand([word] + rest) == Err(ShowUsage)
    ensures ReserveMemoryCommand([]) == Err(ShowUsage)
  {
  }

  /** A command line that gets past the usage check and the argument parse runs
      with at least 1 KiB to allocate that fits a `long`, an object size in
      [1, int.MaxValue] and at least one iteration; its first argument is no
      help word. */
  lemma RunningCommandBounds(args: seq<string>)
    requires ReserveMemoryCommand(args).Ok?
    ensures |args| > 0 && args[0] !in {"-h", "--help", "/?", "help"}
    ensures var o := ReserveMemoryCommand(args).value;
      MinimumTotal <= o.bytesToAllocate <= LongMaxValue
      && 1 <= o.objectSize <= IntMaxValue && 1 <= o.iterations <= IntMaxValue
  {
    ParsedBounds(args);
  }

  /** The default object size, 100 MiB, lands in the large object heap; 80 KiB
      does not, 100 KiB does, as the usage examples say. */
  lemma HeapOfSizes()
    ensures IsLoh(DefaultObjectSize)
    ensures !IsLoh(80 * KiB) && IsLoh(100 * KiB)
  {
  }
}
