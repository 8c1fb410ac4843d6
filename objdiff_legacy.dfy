/** The Go implementation's `objdiff` report schema (the flat, older message
    that legacy.go fills in) and the conversion of the legacy JSON report into
    it (objdiff/legacy.go). Percentages are `real`s. */
module ObjdiffLegacy {
  import opened Wrappers
  import opened Ints
  import opened Text

  // ---------------------------------------------------------------------------
  // The objdiff schema

  datatype ReportItem = ReportItem(
    name: string,
    demangledName: Option<string>,
    address: Option<u64>,
    size: u64,
    fuzzyMatchPercent: real)

  datatype ReportUnit = ReportUnit(
    name: string,
    fuzzyMatchPercent: real,
    totalCode: u64,
    matchedCode: u64,
    totalData: u64,
    matchedData: u64,
    totalFunctions: u32,
    matchedFunctions: u32,
    complete: Option<bool>,
    moduleName: Option<string>,
    moduleId: Option<u32>,
    sections: seq<ReportItem>,
    functions: seq<ReportItem>)

  datatype Report = Report(
    fuzzyMatchPercent: real,
    totalCode: u64,
    matchedCode: u64,
    matchedCodePercent: real,
    totalData: u64,
    matchedData: u64,
    matchedDataPercent: real,
    totalFunctions: u32,
    matchedFunctions: u32,
    matchedFunctionsPercent: real,
    units: seq<ReportUnit>)

  // ---------------------------------------------------------------------------
  // The legacy JSON schema

  datatype LegacyItem = LegacyItem(
    name: string,
    demangledName: Option<string>,
    address: Option<string>,
    size: u64,
    fuzzyMatchPercent: real)

  datatype LegacyUnit = LegacyUnit(
    name: string,
    fuzzyMatchPercent: real,
    totalCode: u64,
    matchedCode: u64,
    totalData: u64,
    matchedData: u64,
    totalFunctions: u32,
    matchedFunctions: u32,
    complete: Option<bool>,
    moduleName: Option<string>,
    moduleId: Option<u32>,
    sections: seq<LegacyItem>,
    functions: seq<LegacyItem>)

  datatype LegacyReport = LegacyReport(
    fuzzyMatchPercent: real,
    totalCode: u64,
    matchedCode: u64,
    matchedCodePercent: real,
    totalData: u64,
    matchedData: u64,
    matchedDataPercent: real,
    totalFunctions: u32,
    matchedFunctions: u32,
    matchedFunctionsPercent: real,
    units: seq<LegacyUnit>)

  // ---------------------------------------------------------------------------
  // strconv.ParseUint(s, base, 64), value only

  /** The digit value of c in any base up to 36, as `ParseUint` reads it:
      decimal digits, then letters of either case from 10. */
  function DigitOf(c: char): Option<nat> {
    if '0' <= c <= '9' then Some(c as int - '0' as int)
    else if 'a' <= c <= 'z' then Some(c as int - 'a' as int + 10)
    else if 'A' <= c <= 'Z' then Some(c as int - 'A' as int + 10)
    else None
  }

  predicate IsDigit(c: char, base: nat) {
    DigitOf(c).Some? && DigitOf(c).value < base
  }

  /** Every character is a digit of the base. */
  predicate AllDigits(s: string, base: nat)
    decreases |s|
  {
    s == [] || (IsDigit(s[0], base) && AllDigits(s[1..], base))
  }

  /** The numeric value of digits s written after an accumulated value n
      (the reference reading: no bound, no malformed input). */
  function DigitsValue(n: nat, s: string, base: nat): nat
    requires AllDigits(s, base)
    decreases |s|
  {
    if s == [] then n else DigitsValue(n * base + DigitOf(s[0]).value, s[1..], base)
  }

  /** The digit loop, left to right from accumulated value n (which is at most
      MAX_U64): a character that is no digit of the base gives 0, and a step
      whose cutoff or sum test shows it would pass MAX_U64 gives MAX_U64,
      whichever comes first. */
  function ParseDigits(s: string, base: nat, n: nat): (r: u64)
    requires 2 <= base <= 36 && n <= MAX_U64
    decreases |s|
  {
    if s == [] then n
    else if !IsDigit(s[0], base) then 0
    else
      var cutoff := MAX_U64 / base + 1;
      if n >= cutoff then MAX_U64
      else
        MulAtLeast(n, base);
        var n1 := n * base + DigitOf(s[0]).value;
        if n1 > MAX_U64 then MAX_U64 else ParseDigits(s[1..], base, n1)
  }

  /** `strconv.ParseUint(s, base, 64)`, ignoring its error: 0 for an empty or
      malformed string, MAX_U64 on overflow. */
  function ParseUint(s: string, base: nat): u64
    requires 2 <= base <= 36
  {
    if s == [] then 0 else ParseDigits(s, base, 0)
  }

  /** The cutoff test and the sum test together say exactly "the next value
      passes MAX_U64". */
  lemma CutoffMeansOverflow(n: nat, base: nat, d: nat)
    requires 2 <= base <= 36 && d < base
    ensures (n >= MAX_U64 / base + 1 || n * base + d > MAX_U64) <==> n * base + d > MAX_U64
  {
    if n >= MAX_U64 / base + 1 {
      assert n * base >= (MAX_U64 / base + 1) * base;
    }
  }

  lemma {:induction false} DigitsValueGrows(n: nat, s: string, base: nat)
    requires 2 <= base && AllDigits(s, base)
    ensures DigitsValue(n, s, base) >= n
    decreases |s|
  {
    if s != [] {
      MulAtLeast(n, base);
      DigitsValueGrows(n * base + DigitOf(s[0]).value, s[1..], base);
    }
  }

  lemma MulAtLeast(n: nat, b: nat)
    requires b >= 1
    ensures n * b >= n
  {
  }

  /** ParseDigits from an accumulated n reads s as the digits that follow n,
      saturating at MAX_U64. */
  lemma {:induction false} ParseDigitsValue(s: string, base: nat, n: nat)
    requires 2 <= base <= 36 && n <= MAX_U64 && AllDigits(s, base)
    ensures DigitsValue(n, s, base) <= MAX_U64 ==> ParseDigits(s, base, n) == DigitsValue(n, s, base)
    ensures DigitsValue(n, s, base) > MAX_U64 ==> ParseDigits(s, base, n) == MAX_U64
    decreases |s|
  {
    if s != [] {
      var d := DigitOf(s[0]).value;
      CutoffMeansOverflow(n, base, d);
      if n * base + d <= MAX_U64 {
        ParseDigitsValue(s[1..], base, n * base + d);
      } else {
        DigitsValueGrows(n * base + d, s[1..], base);
      }
    }
  }

  /** A well-formed digit string within range parses to its value; past
      MAX_U64 it parses to MAX_U64. */
  lemma ParseUintOfDigits(s: string, base: nat)
    requires 2 <= base <= 36 && s != [] && AllDigits(s, base)
    ensures DigitsValue(0, s, base) <= MAX_U64 ==> ParseUint(s, base) == DigitsValue(0, s, base)
    ensures DigitsValue(0, s, base) > MAX_U64 ==> ParseUint(s, base) == MAX_U64
  {
    ParseDigitsValue(s, base, 0);
  }

  /** A character that is no digit of the base, reached before any overflow,
      makes the result 0, whatever follows it. */
  lemma ParseUintMalformed(p: string, c: char, rest: string, base: nat)
    requires 2 <= base <= 36 && !IsDigit(c, base)
    requires AllDigits(p, base) && DigitsValue(0, p, base) <= MAX_U64
    ensures ParseUint(p + [c] + rest, base) == 0
  {
    MalformedFrom(p, c, rest, base, 0);
  }

  lemma {:induction false} MalformedFrom(p: string, c: char, rest: string, base: nat, n: nat)
    requires 2 <= base <= 36 && n <= MAX_U64 && !IsDigit(c, base)
    requires AllDigits(p, base) && DigitsValue(n, p, base) <= MAX_U64
    ensures ParseDigits(p + [c] + rest, base, n) == 0
    decreases |p|
  {
    if p == [] {
      assert (p + [c] + rest)[0] == c;
    } else {
      var n1 := DigitsValueFirst(n, p, base);
      ParseDigitsStep(p, c, rest, base, n);
      MalformedFrom(p[1..], c, rest, base, n1);
    }
  }

  /** The first digit of p moves into the accumulator, which never shrinks. */
  lemma DigitsValueFirst(n: nat, p: string, base: nat) returns (n1: nat)
    requires 2 <= base <= 36 && p != [] && AllDigits(p, base)
    ensures IsDigit(p[0], base) && AllDigits(p[1..], base)
    ensures n1 == n * base + DigitOf(p[0]).value
    ensures DigitsValue(n, p, base) == DigitsValue(n1, p[1..], base) >= n1
  {
    n1 := n * base + DigitOf(p[0]).value;
    DigitsValueGrows(n1, p[1..], base);
  }

  /** One digit of p read without overflow: ParseDigits continues on the rest. */
  lemma ParseDigitsStep(p: string, c: char, rest: string, base: nat, n: nat)
    requires 2 <= base <= 36 && n <= MAX_U64 && p != [] && IsDigit(p[0], base)
    requires n * base + DigitOf(p[0]).value <= MAX_U64
    ensures ParseDigits(p + [c] + rest, base, n) == ParseDigits(p[1..] + [c] + rest, base, n * base + DigitOf(p[0]).value)
  {
    var s := p + [c] + rest;
    assert s[0] == p[0] && s[1..] == p[1..] + [c] + rest;
    CutoffMeansOverflow(n, base, DigitOf(p[0]).value);
  }

  // ---------------------------------------------------------------------------
  // Conversion

  /** `legacyReportItem.convert`'s address: none gives 0; "0x" then base 16;
      anything else base 10; parse errors ignored. */
  function ParseAddress(address: Option<string>): u64 {
    match address
    case None => 0
    case Some(s) => if StartsWith(s, "0x") then ParseUint(s[2..], 16) else ParseUint(s, 10)
  }

  /** `legacyReportItem.convert` */
  function ConvertItem(i: LegacyItem): (r: ReportItem)
    ensures r.name == i.name && r.demangledName == i.demangledName && r.size == i.size
    ensures r.fuzzyMatchPercent == i.fuzzyMatchPercent
    ensures r.address.Some?
  {
    ReportItem(i.name, i.demangledName, Some(ParseAddress(i.address)), i.size, i.fuzzyMatchPercent)
  }

  /** The item loops of `legacyReportUnit.convert`: one converted item per
      item, in order. */
  method ConvertItems(items: seq<LegacyItem>) returns (r: seq<ReportItem>)
    ensures |r| == |items| && forall k :: 0 <= k < |items| ==> r[k] == ConvertItem(items[k])
  {
    r := [];
    for k := 0 to |items|
      invariant |r| == k && forall j :: 0 <= j < k ==> r[j] == ConvertItem(items[j])
    {
      r := r + [ConvertItem(items[k])];
    }
  }

  function ConvertUnitSpec(u: LegacyUnit): ReportUnit {
    ReportUnit(u.name, u.fuzzyMatchPercent, u.totalCode, u.matchedCode, u.totalData, u.matchedData,
               u.totalFunctions, u.matchedFunctions, u.complete, u.moduleName, u.moduleId,
               seq(|u.sections|, k requires 0 <= k < |u.sections| => ConvertItem(u.sections[k])),
               seq(|u.functions|, k requires 0 <= k < |u.functions| => ConvertItem(u.functions[k])))
  }

  /** `legacyReportUnit.convert`: the scalar and optional fields copied,
      sections and functions converted one for one. */
  method ConvertUnit(u: LegacyUnit) returns (r: ReportUnit)
    ensures r == ConvertUnitSpec(u)
  {
    var sections := ConvertItems(u.sections);
    var functions := ConvertItems(u.functions);
    r := ReportUnit(u.name, u.fuzzyMatchPercent, u.totalCode, u.matchedCode, u.totalData, u.matchedData,
                    u.totalFunctions, u.matchedFunctions, u.complete, u.moduleName, u.moduleId,
                    sections, functions);
  }

  function ConvertSpec(l: LegacyReport): Report {
    Report(l.fuzzyMatchPercent, l.totalCode, l.matchedCode, l.matchedCodePercent, l.totalData,
           l.matchedData, l.matchedDataPercent, l.totalFunctions, l.matchedFunctions,
           l.matchedFunctionsPercent,
           seq(|l.units|, k requires 0 <= k < |l.units| => ConvertUnitSpec(l.units[k])))
  }

  /** `legacyReport.convert` */
  method Convert(l: LegacyReport) returns (r: Report)
    ensures r == ConvertSpec(l)
  {
    var units: seq<ReportUnit> := [];
    for k := 0 to |l.units|
      invariant |units| == k && forall j :: 0 <= j < k ==> units[j] == ConvertUnitSpec(l.units[j])
    {
      var u := ConvertUnit(l.units[k]);
      units := units + [u];
    }
    r := Report(l.fuzzyMatchPercent, l.totalCode, l.matchedCode, l.matchedCodePercent, l.totalData,
                l.matchedData, l.matchedDataPercent, l.totalFunctions, l.matchedFunctions,
                l.matchedFunctionsPercent, units);
  }

  /** The conversion copies the ten aggregates, and keeps the units' count,
      order, names, counters and optional fields; each unit keeps its
      sections' and functions' count, order, names and sizes. */
  lemma ConvertPreserves(l: LegacyReport)
    ensures var r := ConvertSpec(l);
      && r.fuzzyMatchPercent == l.fuzzyMatchPercent && r.totalCode == l.totalCode
      && r.matchedCode == l.matchedCode && r.matchedCodePercent == l.matchedCodePercent
      && r.totalData == l.totalData && r.matchedData == l.matchedData
      && r.matchedDataPercent == l.matchedDataPercent && r.totalFunctions == l.totalFunctions
      && r.matchedFunctions == l.matchedFunctions && r.matchedFunctionsPercent == l.matchedFunctionsPercent
      && |r.units| == |l.units|
      && forall k :: 0 <= k < |l.units| ==> UnitCopied(l.units[k], r.units[k])
  {
    forall k | 0 <= k < |l.units|
      ensures UnitCopied(l.units[k], ConvertSpec(l).units[k])
    {
      var u := l.units[k];
      assert ConvertSpec(l).units[k] == ConvertUnitSpec(u);
    }
  }

  ghost predicate UnitCopied(u: LegacyUnit, r: ReportUnit) {
    && r.name == u.name && r.fuzzyMatchPercent == u.fuzzyMatchPercent
    && r.totalCode == u.totalCode && r.matchedCode == u.matchedCode
    && r.totalData == u.totalData && r.matchedData == u.matchedData
    && r.totalFunctions == u.totalFunctions && r.matchedFunctions == u.matchedFunctions
    && r.complete == u.complete && r.moduleName == u.moduleName && r.moduleId == u.moduleId
    && |r.sections| == |u.sections| && |r.functions| == |u.functions|
    && (forall j :: 0 <= j < |u.sections| ==> r.sections[j].name == u.sections[j].name && r.sections[j].size == u.sections[j].size)
    && (forall j :: 0 <= j < |u.functions| ==> r.functions[j].name == u.functions[j].name && r.functions[j].size == u.functions[j].size)
  }

  // ---------------------------------------------------------------------------
  // Address parsing cases

  /** A missing address is 0, and the converted item always has one. */
  lemma MissingAddressIsZero(i: LegacyItem)
    requires i.address.None?
    ensures ConvertItem(i).address == Some(0)
  {
  }

  /** "0x" then hexadecimal digits parses the digits in base 16. */
  lemma HexAddress(digits: string)
    requires digits != [] && AllDigits(digits, 16) && DigitsValue(0, digits, 16) <= MAX_U64
    ensures ParseAddress(Some("0x" + digits)) == DigitsValue(0, digits, 16)
  {
    var s := "0x" + digits;
    assert s[..2] == "0x" && s[2..] == digits;
    ParseUintOfDigits(digits, 16);
  }

  /** Any other address parses whole in base 10. */
  lemma DecimalAddress(s: string)
    requires !StartsWith(s, "0x") && s != [] && AllDigits(s, 10)
    ensures DigitsValue(0, s, 10) <= MAX_U64 ==> ParseAddress(Some(s)) == DigitsValue(0, s, 10)
    ensures DigitsValue(0, s, 10) > MAX_U64 ==> ParseAddress(Some(s)) == MAX_U64
  {
    ParseUintOfDigits(s, 10);
  }

  /** "0x" alone and "0X1F" (an upper-case X is no prefix, and no decimal
      digit) both become 0. */
  lemma MalformedAddresses()
    ensures ParseAddress(Some("0x")) == 0
    ensures ParseAddress(Some("0X1F")) == 0
  {
    assert "0x"[2..] == [];
    var s := "0X1F";
    assert !StartsWith(s, "0x") by { assert s[..2] != "0x" by { assert s[1] != 'x'; } }
    assert s == "0" + ['X'] + "1F";
    assert AllDigits("0", 10) by { assert "0"[1..] == []; }
    ParseUintMalformed("0", 'X', "1F", 10);
  }
}
