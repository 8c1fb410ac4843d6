/** Pull-request change summaries (handlers/shared.go): markdown tables of
    the measures that differ between a base and a head report, per-function
    match changes, and the comment body that pairs base and head report
    files of the same version. Percent rendering with two decimals is the
    parameter `fmt2`. */
module Changes {
  import opened Wrappers
  import opened Ints
  import opened Text
  import opened Seqs
  import opened ReportData
  import O = ObjdiffReport

  // ---------------------------------------------------------------------------
  // Input: the change set the external diff tool produces

  datatype ChangeItemInfo = ChangeItemInfo(fuzzyMatchPercent: real, size: u64)

  datatype ChangeItem = ChangeItem(name: string, from: Option<ChangeItemInfo>, to: Option<ChangeItemInfo>)

  datatype ChangeUnit = ChangeUnit(name: string, from: Option<Measures>, to: Option<Measures>, functions: seq<ChangeItem>)

  datatype ChangeSet = ChangeSet(from: Option<Measures>, to: Option<Measures>, units: seq<ChangeUnit>)

  // ---------------------------------------------------------------------------
  // Arrows and differences

  const INC_ARROW: string := "${\\color{green}▲}$"
  const DEC_ARROW: string := "${\\color{red}▼}$"

  /** `intArrow` / `floatArrow`: up for a rise, down for a fall, nothing
      when equal. Floats are compared as reals: the sign of a float
      difference of finite values is the sign of the exact difference. */
  function Arrow(diff: real): string {
    if diff > 0.0 then " " + INC_ARROW else if diff < 0.0 then " " + DEC_ARROW else ""
  }

  /** The arrow tells rise, fall and no change apart, and nothing else. */
  lemma ArrowSign(a: real, b: real)
    ensures Arrow(a) == "" <==> a == 0.0
    ensures Arrow(a) == Arrow(b) <==> (a > 0.0 <==> b > 0.0) && (a < 0.0 <==> b < 0.0)
  {
    assert (" " + INC_ARROW)[10] != (" " + DEC_ARROW)[10];
  }

  /** A row's count difference: `int64(curr) - int64(prev)`, each operand
      reinterpreted as two's complement and the subtraction wrapping. */
  function IntDiff(prev: u64, curr: u64): i64 {
    SubI64(AsI64(curr), AsI64(prev))
  }

  /** Below 2^63 the difference is exact. */
  lemma IntDiffExact(prev: u64, curr: u64)
    requires prev < TWO_63 && curr < TWO_63
    ensures IntDiff(prev, curr) == curr - prev
  {
  }

  /** At 2^63 and above it is not: a size rising from 0 to 2^63 reads as a
      fall. */
  lemma IntDiffWrapsAtTopBit()
    ensures IntDiff(0, TWO_63) == -TWO_63
    ensures Arrow(IntDiff(0, TWO_63) as real) == " " + DEC_ARROW
  {
  }

  // ---------------------------------------------------------------------------
  // Rows

  function Pct(fmt2: real -> string, x: real): string {
    fmt2(x) + "%"
  }

  /** `floatRow`. */
  function FloatRow(fmt2: real -> string, name: string, prev: real, curr: real): string {
    "|" + name + "|" + Pct(fmt2, prev) + "|" + Pct(fmt2, curr) + "|" + Pct(fmt2, curr - prev) + Arrow(curr - prev) + "|"
  }

  /** `sizeRow`: counts of 64 bits, so the difference wraps. */
  function SizeRow(name: string, prev: u64, curr: u64): string {
    var diff := IntDiff(prev, curr);
    "|" + name + "|" + NatToDecimal(prev) + "|" + NatToDecimal(curr) + "|" + IntToDecimal(diff) + Arrow(diff as real) + "|"
  }

  /** `intRow`: counts of 32 bits, whose difference in 64 bits is exact. */
  function IntRow(name: string, prev: u32, curr: u32): (r: string)
    ensures r == SizeRow(name, prev, curr)
  {
    IntDiffExact(prev, curr);
    "|" + name + "|" + NatToDecimal(prev) + "|" + NatToDecimal(curr) + "|" + IntToDecimal(curr - prev) + Arrow((curr - prev) as real) + "|"
  }

  /** `intPercentRow`: the arrow follows the count, not the percent. */
  function IntPercentRow(fmt2: real -> string, name: string, prev: u64, prevPct: real, curr: u64, currPct: real): string {
    var diff := IntDiff(prev, curr);
    "|" + name + "|" + NatToDecimal(prev) + " (" + Pct(fmt2, prevPct) + ")|" + NatToDecimal(curr) + " (" + Pct(fmt2, currPct) + ")|"
      + IntToDecimal(diff) + " (" + Pct(fmt2, currPct - prevPct) + ")" + Arrow(diff as real) + "|"
  }

  /** The rows of a measures table, in the order they are listed. */
  datatype Metric = FuzzyMatch | TotalCode | MatchedCode | TotalData | MatchedData | TotalFunctions | MatchedFunctions

  /** Whether a metric gets a row: its value differs, or for a matched
      metric its count or its percent does. */
  predicate Changed(m: Metric, p: Measures, c: Measures) {
    match m
    case FuzzyMatch => p.fuzzyMatchPercent != c.fuzzyMatchPercent
    case TotalCode => p.totalCode != c.totalCode
    case MatchedCode => p.matchedCode != c.matchedCode || p.matchedCodePercent != c.matchedCodePercent
    case TotalData => p.totalData != c.totalData
    case MatchedData => p.matchedData != c.matchedData || p.matchedDataPercent != c.matchedDataPercent
    case TotalFunctions => p.totalFunctions != c.totalFunctions
    case MatchedFunctions => p.matchedFunctions != c.matchedFunctions || p.matchedFunctionsPercent != c.matchedFunctionsPercent
  }

  function MetricRow(fmt2: real -> string, m: Metric, p: Measures, c: Measures): string {
    match m
    case FuzzyMatch => FloatRow(fmt2, "Fuzzy match", p.fuzzyMatchPercent, c.fuzzyMatchPercent)
    case TotalCode => SizeRow("Total code", p.totalCode, c.totalCode)
    case MatchedCode => IntPercentRow(fmt2, "Matched code", p.matchedCode, p.matchedCodePercent, c.matchedCode, c.matchedCodePercent)
    case TotalData => SizeRow("Total data", p.totalData, c.totalData)
    case MatchedData => IntPercentRow(fmt2, "Matched data", p.matchedData, p.matchedDataPercent, c.matchedData, c.matchedDataPercent)
    case TotalFunctions => IntRow("Total functions", p.totalFunctions, c.totalFunctions)
    case MatchedFunctions =>
      IntPercentRow(fmt2, "Matched functions", p.matchedFunctions, p.matchedFunctionsPercent, c.matchedFunctions, c.matchedFunctionsPercent)
  }

  function RowIf(fmt2: real -> string, m: Metric, p: Measures, c: Measures): (r: seq<string>)
    ensures r == [] <==> !Changed(m, p, c)
  {
    if Changed(m, p, c) then [MetricRow(fmt2, m, p, c)] else []
  }

  /** The rows of the metrics that changed, in the fixed order. */
  function ChangedRows(fmt2: real -> string, p: Measures, c: Measures): seq<string> {
    RowIf(fmt2, FuzzyMatch, p, c) + RowIf(fmt2, TotalCode, p, c) + RowIf(fmt2, MatchedCode, p, c)
      + RowIf(fmt2, TotalData, p, c) + RowIf(fmt2, MatchedData, p, c) + RowIf(fmt2, TotalFunctions, p, c)
      + RowIf(fmt2, MatchedFunctions, p, c)
  }

  /** Seven parts joined: empty exactly when every part is, and holding
      what each part holds. */
  lemma Concat7<T>(a: seq<T>, b: seq<T>, c: seq<T>, d: seq<T>, e: seq<T>, f: seq<T>, g: seq<T>)
    ensures var s := a + b + c + d + e + f + g;
      && (s == [] <==> a == [] && b == [] && c == [] && d == [] && e == [] && f == [] && g == [])
      && (forall x :: x in a || x in b || x in c || x in d || x in e || x in f || x in g ==> x in s)
      && |s| == |a| + |b| + |c| + |d| + |e| + |f| + |g|
  {
  }

  /** Every changed metric has its row; no row at all means nothing changed. */
  lemma ChangedRowsComplete(fmt2: real -> string, p: Measures, c: Measures)
    ensures ChangedRows(fmt2, p, c) == [] <==> forall m :: !Changed(m, p, c)
    ensures forall m :: Changed(m, p, c) ==> MetricRow(fmt2, m, p, c) in ChangedRows(fmt2, p, c)
    ensures |ChangedRows(fmt2, p, c)| <= 7
  {
    Concat7(RowIf(fmt2, FuzzyMatch, p, c), RowIf(fmt2, TotalCode, p, c), RowIf(fmt2, MatchedCode, p, c),
            RowIf(fmt2, TotalData, p, c), RowIf(fmt2, MatchedData, p, c), RowIf(fmt2, TotalFunctions, p, c),
            RowIf(fmt2, MatchedFunctions, p, c));
    forall m | Changed(m, p, c)
      ensures MetricRow(fmt2, m, p, c) in ChangedRows(fmt2, p, c)
    {
      var x := MetricRow(fmt2, m, p, c);
      assert x in RowIf(fmt2, m, p, c);
      match m
      case FuzzyMatch => assert x in RowIf(fmt2, FuzzyMatch, p, c);
      case TotalCode => assert x in RowIf(fmt2, TotalCode, p, c);
      case MatchedCode => assert x in RowIf(fmt2, MatchedCode, p, c);
      case TotalData => assert x in RowIf(fmt2, TotalData, p, c);
      case MatchedData => assert x in RowIf(fmt2, MatchedData, p, c);
      case TotalFunctions => assert x in RowIf(fmt2, TotalFunctions, p, c);
      case MatchedFunctions => assert x in RowIf(fmt2, MatchedFunctions, p, c);
    }
  }

  /** A table: nothing without rows, else the header, a newline and the rows
      joined by newlines. */
  function Table(header: string, rows: seq<string>): (t: string)
    requires header != ""
    ensures t == "" <==> rows == []
  {
    if rows == [] then "" else header + "\n" + Join(rows, "\n")
  }

  const MEASURES_HEADER: string := "|Metric|Previous|Current|Change|\n|-|-|-|-|"

  /** `measuresTable`; a missing side reads as all-zero measures. */
  function MeasuresTableSpec(fmt2: real -> string, prev: Option<Measures>, curr: Option<Measures>): string {
    if prev.None? && curr.None? then ""
    else Table(MEASURES_HEADER, ChangedRows(fmt2, prev.GetOr(EMPTY_MEASURES), curr.GetOr(EMPTY_MEASURES)))
  }

  /** One `if` of `measuresTable`: the row is appended exactly when its
      metric changed. */
  lemma AddRow(fmt2: real -> string, m: Metric, p: Measures, c: Measures, before: seq<string>, after: seq<string>)
    requires after == if Changed(m, p, c) then before + [MetricRow(fmt2, m, p, c)] else before
    ensures after == before + RowIf(fmt2, m, p, c)
  {
  }

  /** The seven appends together give the changed rows. */
  lemma ChangedRowsChain(fmt2: real -> string, p: Measures, c: Measures, r1: seq<string>, r2: seq<string>,
                         r3: seq<string>, r4: seq<string>, r5: seq<string>, r6: seq<string>, r7: seq<string>)
    requires r1 == [] + RowIf(fmt2, FuzzyMatch, p, c)
    requires r2 == r1 + RowIf(fmt2, TotalCode, p, c)
    requires r3 == r2 + RowIf(fmt2, MatchedCode, p, c)
    requires r4 == r3 + RowIf(fmt2, TotalData, p, c)
    requires r5 == r4 + RowIf(fmt2, MatchedData, p, c)
    requires r6 == r5 + RowIf(fmt2, TotalFunctions, p, c)
    requires r7 == r6 + RowIf(fmt2, MatchedFunctions, p, c)
    ensures r7 == ChangedRows(fmt2, p, c)
  {
    assert r1 == RowIf(fmt2, FuzzyMatch, p, c);
  }

  /** `measuresTable`: the missing side defaulted, then one row appended per
      changed metric. */
  method MeasuresTable(fmt2: real -> string, prev0: Option<Measures>, curr0: Option<Measures>) returns (table: string)
    ensures table == MeasuresTableSpec(fmt2, prev0, curr0)
  {
    var prev := prev0;
    var curr := curr0;
    if prev.None? && curr.None? {
      return "";
    } else if prev.None? {
      prev := Some(EMPTY_MEASURES);
    } else if curr.None? {
      curr := Some(EMPTY_MEASURES);
    }
    var p := prev.value;
    var c := curr.value;
    assert p == prev0.GetOr(EMPTY_MEASURES) && c == curr0.GetOr(EMPTY_MEASURES);
    var rows: seq<string> := [];
    if Changed(FuzzyMatch, p, c) {
      rows := rows + [MetricRow(fmt2, FuzzyMatch, p, c)];
    }
    ghost var r1 := rows;
    AddRow(fmt2, FuzzyMatch, p, c, [], r1);
    if Changed(TotalCode, p, c) {
      rows := rows + [MetricRow(fmt2, TotalCode, p, c)];
    }
    ghost var r2 := rows;
    AddRow(fmt2, TotalCode, p, c, r1, r2);
    if Changed(MatchedCode, p, c) {
      rows := rows + [MetricRow(fmt2, MatchedCode, p, c)];
    }
    ghost var r3 := rows;
    AddRow(fmt2, MatchedCode, p, c, r2, r3);
    if Changed(TotalData, p, c) {
      rows := rows + [MetricRow(fmt2, TotalData, p, c)];
    }
    ghost var r4 := rows;
    AddRow(fmt2, TotalData, p, c, r3, r4);
    if Changed(MatchedData, p, c) {
      rows := rows + [MetricRow(fmt2, MatchedData, p, c)];
    }
    ghost var r5 := rows;
    AddRow(fmt2, MatchedData, p, c, r4, r5);
    if Changed(TotalFunctions, p, c) {
      rows := rows + [MetricRow(fmt2, TotalFunctions, p, c)];
    }
    ghost var r6 := rows;
    AddRow(fmt2, TotalFunctions, p, c, r5, r6);
    if Changed(MatchedFunctions, p, c) {
      rows := rows + [MetricRow(fmt2, MatchedFunctions, p, c)];
    }
    AddRow(fmt2, MatchedFunctions, p, c, r6, rows);
    ChangedRowsChain(fmt2, p, c, r1, r2, r3, r4, r5, r6, rows);
    if |rows| == 0 {
      return "";
    }
    return MEASURES_HEADER + "\n" + Join(rows, "\n");
  }

  /** The table is empty exactly when both sides are missing or no metric
      differs once a missing side reads as zero. */
  lemma MeasuresTableEmpty(fmt2: real -> string, prev: Option<Measures>, curr: Option<Measures>)
    ensures MeasuresTableSpec(fmt2, prev, curr) == "" <==>
      (prev.None? && curr.None?) ||
      forall m :: !Changed(m, prev.GetOr(EMPTY_MEASURES), curr.GetOr(EMPTY_MEASURES))
  {
    ChangedRowsComplete(fmt2, prev.GetOr(EMPTY_MEASURES), curr.GetOr(EMPTY_MEASURES));
  }

  /** Equal measures give no table. */
  lemma SameMeasuresNoTable(fmt2: real -> string, m: Measures)
    ensures MeasuresTableSpec(fmt2, Some(m), Some(m)) == ""
  {
    MeasuresTableEmpty(fmt2, Some(m), Some(m));
  }

  // ---------------------------------------------------------------------------
  // Item tables

  function FromPercent(item: ChangeItem): real {
    if item.from.Some? then item.from.value.fuzzyMatchPercent else 0.0
  }

  function ToPercent(item: ChangeItem): real {
    if item.to.Some? then item.to.value.fuzzyMatchPercent else 0.0
  }

  /** `changeItemInfoRow`: nothing when the match percent did not move. */
  function ItemRow(fmt2: real -> string, item: ChangeItem): (r: string)
    ensures r == "" <==> FromPercent(item) == ToPercent(item)
  {
    var from := FromPercent(item);
    var to := ToPercent(item);
    if from == to then ""
    else "|`" + item.name + "`|" + Pct(fmt2, from) + "|" + Pct(fmt2, to) + "|" + Pct(fmt2, to - from) + Arrow(to - from) + "|"
  }

  /** The non-empty rows that `row` gives for `xs`, in order. */
  function KeepRows<T>(row: T -> string, xs: seq<T>): (rows: seq<string>)
    ensures forall i :: 0 <= i < |rows| ==> rows[i] != ""
    ensures |rows| <= |xs|
  {
    if xs == [] then []
    else
      var r := row(xs[|xs| - 1]);
      KeepRows(row, xs[..|xs| - 1]) + (if r != "" then [r] else [])
  }

  lemma KeepRowsStep<T>(row: T -> string, xs: seq<T>, i: nat, before: seq<string>, after: seq<string>)
    requires i < |xs| && before == KeepRows(row, xs[..i])
    requires after == if row(xs[i]) != "" then before + [row(xs[i])] else before
    ensures after == KeepRows(row, xs[..i + 1])
  {
    assert xs[..i + 1][..i] == xs[..i];
  }

  /** No row at all exactly when every element gives the empty row. */
  lemma {:induction false} KeepRowsEmpty<T>(row: T -> string, xs: seq<T>)
    ensures KeepRows(row, xs) == [] <==> forall i :: 0 <= i < |xs| ==> row(xs[i]) == ""
  {
    if xs != [] {
      var n := |xs| - 1;
      KeepRowsEmpty(row, xs[..n]);
      assert forall i :: 0 <= i < n ==> xs[..n][i] == xs[i];
    }
  }

  /** Every non-empty row is kept. */
  lemma {:induction false} KeepRowsHas<T>(row: T -> string, xs: seq<T>, k: nat)
    requires k < |xs| && row(xs[k]) != ""
    ensures row(xs[k]) in KeepRows(row, xs)
  {
    var n := |xs| - 1;
    if k < n {
      assert xs[..n][k] == xs[k];
      KeepRowsHas(row, xs[..n], k);
    }
  }

  function ItemRowOf(fmt2: real -> string): ChangeItem -> string {
    item => ItemRow(fmt2, item)
  }

  /** The rows of the items whose percent moved, in order. */
  function ItemRows(fmt2: real -> string, items: seq<ChangeItem>): seq<string> {
    KeepRows(ItemRowOf(fmt2), items)
  }

  function ItemHeader(name: string): (h: string)
    ensures h != ""
  {
    "|" + name + "|Previous|Current|Change|\n|-|-|-|-|"
  }

  /** `changeItemTable`: the loop keeps the non-empty rows. */
  method ChangeItemTable(fmt2: real -> string, name: string, items: seq<ChangeItem>) returns (table: string)
    ensures table == Table(ItemHeader(name), ItemRows(fmt2, items))
  {
    var rows: seq<string> := [];
    for i := 0 to |items|
      invariant rows == KeepRows(ItemRowOf(fmt2), items[..i])
    {
      var row := ItemRow(fmt2, items[i]);
      ghost var before := rows;
      if row != "" {
        rows := rows + [row];
      }
      KeepRowsStep(ItemRowOf(fmt2), items, i, before, rows);
    }
    assert items[..|items|] == items;
    if |rows| == 0 {
      return "";
    }
    return ItemHeader(name) + "\n" + Join(rows, "\n");
  }

  /** No row at all exactly when no item's percent moved. */
  lemma ItemRowsEmpty(fmt2: real -> string, items: seq<ChangeItem>)
    ensures ItemRows(fmt2, items) == [] <==> forall i :: 0 <= i < |items| ==> FromPercent(items[i]) == ToPercent(items[i])
  {
    KeepRowsEmpty(ItemRowOf(fmt2), items);
  }

  /** Every item whose percent moved has its row, and there is at most one
      row per item. */
  lemma ItemRowsHasRow(fmt2: real -> string, items: seq<ChangeItem>, k: nat)
    requires k < |items| && FromPercent(items[k]) != ToPercent(items[k])
    ensures ItemRow(fmt2, items[k]) in ItemRows(fmt2, items)
    ensures |ItemRows(fmt2, items)| <= |items|
  {
    KeepRowsHas(ItemRowOf(fmt2), items, k);
  }

  // ---------------------------------------------------------------------------
  // createChanges

  /** A table followed by a blank line, or nothing for no table. */
  function Block(t: string): (r: string)
    ensures r == "" <==> t == ""
  {
    if t == "" then "" else t + "\n\n"
  }

  /** Appending a table and a blank line when there is a table. */
  lemma AppendBlock(s: string, t: string, after: string)
    requires after == if t != "" then s + t + "\n\n" else s
    ensures after == s + Block(t)
  {
    if t != "" {
      ConcatAssoc(s, t, "\n\n");
    }
  }

  const FUNCTIONS: string := "Functions"

  /** A unit's heading. */
  function UnitHead(name: string): string {
    "---\n### `" + name + "`\n\n"
  }

  /** One unit's section: its heading, its measures table, its functions table. */
  function UnitSection(fmt2: real -> string, u: ChangeUnit): string {
    UnitHead(u.name) + Block(MeasuresTableSpec(fmt2, u.from, u.to)) + Block(Table(ItemHeader(FUNCTIONS), ItemRows(fmt2, u.functions)))
  }

  function Sections(fmt2: real -> string, us: seq<ChangeUnit>): string {
    if us == [] then "" else Sections(fmt2, us[..|us| - 1]) + UnitSection(fmt2, us[|us| - 1])
  }

  const OVERALL: string := "### Overall\n\n"
  const NO_CHANGES: string := "No changes\n\n"

  /** The overall part: its heading, then the totals table or "No changes". */
  function Intro(overall: string): (r: string)
    ensures StartsWith(r, OVERALL)
  {
    var r := OVERALL + (if overall == "" then NO_CHANGES else Block(overall));
    StartsWithAppend(OVERALL, if overall == "" then NO_CHANGES else Block(overall), OVERALL);
    r
  }

  /** `createChanges`: nothing when neither the totals nor any unit changed;
      otherwise the overall part and a section per unit, in order. */
  function CreateChangesSpec(fmt2: real -> string, ch: ChangeSet): string {
    var overall := MeasuresTableSpec(fmt2, ch.from, ch.to);
    if overall == "" && ch.units == [] then "" else Intro(overall) + Sections(fmt2, ch.units)
  }

  method CreateChanges(fmt2: real -> string, ch: ChangeSet) returns (out: string)
    ensures out == CreateChangesSpec(fmt2, ch)
  {
    out := OVERALL;
    var overall := MeasuresTable(fmt2, ch.from, ch.to);
    if overall == "" {
      if |ch.units| == 0 {
        return "";
      }
      out := out + NO_CHANGES;
    } else {
      out := out + overall + "\n\n";
    }
    AppendBlock(OVERALL, overall, if overall == "" then OVERALL else out);
    ghost var start := out;
    assert start == Intro(overall);
    for i := 0 to |ch.units|
      invariant out == start + Sections(fmt2, ch.units[..i])
    {
      var unit := ch.units[i];
      ghost var before := out;
      out := out + UnitHead(unit.name);
      ghost var headed := out;
      var unitTable := MeasuresTable(fmt2, unit.from, unit.to);
      if unitTable != "" {
        out := out + unitTable + "\n\n";
      }
      AppendBlock(headed, unitTable, out);
      ghost var measured := out;
      var functionsTable := ChangeItemTable(fmt2, FUNCTIONS, unit.functions);
      if functionsTable != "" {
        out := out + functionsTable + "\n\n";
      }
      AppendBlock(measured, functionsTable, out);
      SectionsStep(fmt2, ch.units, i);
      AppendParts(start, Sections(fmt2, ch.units[..i]), UnitHead(unit.name), Block(unitTable), Block(functionsTable),
                  before, headed, measured, out);
    }
    assert ch.units[..|ch.units|] == ch.units;
  }

  /** Four appends in a row are one append of their concatenation. */
  lemma AppendParts(start: string, prior: string, h: string, b1: string, b2: string,
                    before: string, headed: string, measured: string, after: string)
    requires before == start + prior && headed == before + h && measured == headed + b1 && after == measured + b2
    ensures after == start + (prior + (h + b1 + b2))
  {
    ConcatAssoc(before, h, b1);
    ConcatAssoc(before, h + b1, b2);
    ConcatAssoc(start, prior, h + b1 + b2);
  }

  lemma SectionsStep(fmt2: real -> string, us: seq<ChangeUnit>, i: nat)
    requires i < |us|
    ensures Sections(fmt2, us[..i + 1]) == Sections(fmt2, us[..i]) + UnitSection(fmt2, us[i])
  {
    assert us[..i + 1][..i] == us[..i];
  }

  /** The summary is empty exactly when the totals did not change and there
      are no units. */
  lemma CreateChangesEmpty(fmt2: real -> string, ch: ChangeSet)
    ensures CreateChangesSpec(fmt2, ch) == "" <==> MeasuresTableSpec(fmt2, ch.from, ch.to) == "" && ch.units == []
  {
    var overall := MeasuresTableSpec(fmt2, ch.from, ch.to);
    if !(overall == "" && ch.units == []) {
      assert |Intro(overall)| > 0;
    }
  }

  /** With units but unchanged totals the summary says "No changes" first. */
  lemma CreateChangesNoTotals(fmt2: real -> string, ch: ChangeSet)
    requires MeasuresTableSpec(fmt2, ch.from, ch.to) == "" && ch.units != []
    ensures StartsWith(CreateChangesSpec(fmt2, ch), OVERALL + NO_CHANGES)
  {
    assert Intro("") == OVERALL + NO_CHANGES;
    StartsWithAppend(Intro(""), Sections(fmt2, ch.units), Intro(""));
  }

  /** Sections follow the units' order. */
  lemma {:induction false} SectionsAppend(fmt2: real -> string, a: seq<ChangeUnit>, b: seq<ChangeUnit>)
    ensures Sections(fmt2, a + b) == Sections(fmt2, a) + Sections(fmt2, b)
    decreases |b|
  {
    if b == [] {
      assert a + b == a;
    } else {
      var n := |b| - 1;
      assert (a + b)[..|a + b| - 1] == a + b[..n];
      assert (a + b)[|a + b| - 1] == b[n];
      SectionsAppend(fmt2, a, b[..n]);
      ConcatAssoc(Sections(fmt2, a), Sections(fmt2, b[..n]), UnitSection(fmt2, b[n]));
    }
  }

  /** Each unit's section opens with the unit's name. */
  lemma UnitSectionHead(fmt2: real -> string, u: ChangeUnit)
    ensures StartsWith(UnitSection(fmt2, u), UnitHead(u.name))
  {
    var b1 := Block(MeasuresTableSpec(fmt2, u.from, u.to));
    var b2 := Block(Table(ItemHeader(FUNCTIONS), ItemRows(fmt2, u.functions)));
    StartsWithAppend(UnitHead(u.name), b1, UnitHead(u.name));
    StartsWithAppend(UnitHead(u.name) + b1, b2, UnitHead(u.name));
  }

  // ---------------------------------------------------------------------------
  // processPR

  /** One version's summary. */
  datatype VersionChange = VersionChange(version: string, body: string)

  /** Why a pull-request summary could not be made. */
  datatype PrError = ApiFailed(message: string) | FetchFailed(fetch: O.FetchError) | ChangesFailed(message: string)

  type Generator = (O.ReportFile, O.ReportFile) -> Result<ChangeSet, string>

  /** One head file against a base: a summary when the versions agree and
      the change set is not empty; a failing generation aborts. */
  function PairExtend(fmt2: real -> string, gen: Generator, base: O.ReportFile,
                      acc: Result<seq<VersionChange>, string>, f: O.ReportFile): Result<seq<VersionChange>, string>
  {
    match acc
    case Err(e) => Err(e)
    case Ok(a) =>
      if base.version != f.version then Ok(a)
      else match gen(base, f)
        case Err(e) => Err(e)
        case Ok(ch) =>
          var body := CreateChangesSpec(fmt2, ch);
          Ok(a + (if body != "" then [VersionChange(f.version, body)] else []))
  }

  /** The summaries for one base file against the head files, in order. */
  function PairSpec(fmt2: real -> string, gen: Generator, base: O.ReportFile, files: seq<O.ReportFile>)
    : Result<seq<VersionChange>, string>
  {
    if files == [] then Ok([])
    else PairExtend(fmt2, gen, base, PairSpec(fmt2, gen, base, files[..|files| - 1]), files[|files| - 1])
  }

  /** The summaries for every base file in turn. */
  function ChangesSpec(fmt2: real -> string, gen: Generator, bases: seq<O.ReportFile>, files: seq<O.ReportFile>)
    : Result<seq<VersionChange>, string>
  {
    if bases == [] then Ok([])
    else
      match ChangesSpec(fmt2, gen, bases[..|bases| - 1], files)
      case Err(e) => Err(e)
      case Ok(acc) =>
        match PairSpec(fmt2, gen, bases[|bases| - 1], files)
        case Err(e) => Err(e)
        case Ok(more) => Ok(acc + more)
  }

  /** The pairing loops of processPR. */
  method VersionChanges(fmt2: real -> string, gen: Generator, bases: seq<O.ReportFile>, files: seq<O.ReportFile>)
    returns (res: Result<seq<VersionChange>, string>)
    ensures res == ChangesSpec(fmt2, gen, bases, files)
  {
    var changes: seq<VersionChange> := [];
    for i := 0 to |bases|
      invariant ChangesSpec(fmt2, gen, bases[..i], files) == Ok(changes)
    {
      var base := bases[i];
      ghost var before := changes;
      ghost var paired: seq<VersionChange> := [];
      for j := 0 to |files|
        invariant PairSpec(fmt2, gen, base, files[..j]) == Ok(paired)
        invariant changes == before + paired
      {
        var file := files[j];
        PairStep(fmt2, gen, base, files, j);
        if base.version == file.version {
          var generated := gen(base, file);
          if generated.Err? {
            PairErrSticks(fmt2, gen, base, files, j + 1);
            ChangesStep(fmt2, gen, bases, files, i);
            ChangesErrSticks(fmt2, gen, bases, files, i + 1);
            return Err(generated.error);
          }
          var body := CreateChanges(fmt2, generated.value);
          if body != "" {
            ConcatAssoc(before, paired, [VersionChange(file.version, body)]);
            changes := changes + [VersionChange(file.version, body)];
            paired := paired + [VersionChange(file.version, body)];
          } else {
            assert paired + [] == paired;
          }
        }
      }
      assert files[..|files|] == files;
      ChangesStep(fmt2, gen, bases, files, i);
    }
    assert bases[..|bases|] == bases;
    return Ok(changes);
  }

  lemma PairStep(fmt2: real -> string, gen: Generator, base: O.ReportFile, files: seq<O.ReportFile>, j: nat)
    requires j < |files|
    ensures PairSpec(fmt2, gen, base, files[..j + 1]) == PairExtend(fmt2, gen, base, PairSpec(fmt2, gen, base, files[..j]), files[j])
  {
    assert files[..j + 1][..j] == files[..j];
  }

  lemma ChangesStep(fmt2: real -> string, gen: Generator, bases: seq<O.ReportFile>, files: seq<O.ReportFile>, i: nat)
    requires i < |bases|
    ensures ChangesSpec(fmt2, gen, bases[..i + 1], files) ==
      match ChangesSpec(fmt2, gen, bases[..i], files)
      case Err(e) => Err(e)
      case Ok(acc) =>
        match PairSpec(fmt2, gen, bases[i], files)
        case Err(e) => Err(e)
        case Ok(more) => Ok(acc + more)
  {
    assert bases[..i + 1][..i] == bases[..i];
  }

  /** A failure in the head files stays a failure. */
  lemma {:induction false} PairErrSticks(fmt2: real -> string, gen: Generator, base: O.ReportFile, files: seq<O.ReportFile>, k: nat)
    requires k <= |files| && PairSpec(fmt2, gen, base, files[..k]).Err?
    ensures PairSpec(fmt2, gen, base, files) == PairSpec(fmt2, gen, base, files[..k])
    decreases |files| - k
  {
    if k == |files| {
      assert files[..k] == files;
    } else {
      PairStep(fmt2, gen, base, files, k);
      PairErrSticks(fmt2, gen, base, files, k + 1);
    }
  }

  /** A failure for one base file stays a failure. */
  lemma {:induction false} ChangesErrSticks(fmt2: real -> string, gen: Generator, bases: seq<O.ReportFile>, files: seq<O.ReportFile>, k: nat)
    requires k <= |bases| && ChangesSpec(fmt2, gen, bases[..k], files).Err?
    ensures ChangesSpec(fmt2, gen, bases, files) == ChangesSpec(fmt2, gen, bases[..k], files)
    decreases |bases| - k
  {
    if k == |bases| {
      assert bases[..k] == bases;
    } else {
      ChangesStep(fmt2, gen, bases, files, k);
      ChangesErrSticks(fmt2, gen, bases, files, k + 1);
    }
  }

  /** Every summary pairs a base and a head file of its version and has a
      non-empty body. */
  lemma {:induction false} PairSound(fmt2: real -> string, gen: Generator, base: O.ReportFile, files: seq<O.ReportFile>)
    requires PairSpec(fmt2, gen, base, files).Ok?
    ensures forall vc :: vc in PairSpec(fmt2, gen, base, files).value ==>
              vc.version == base.version && vc.body != "" &&
              exists f :: f in files && f.version == vc.version && gen(base, f).Ok? &&
                          vc.body == CreateChangesSpec(fmt2, gen(base, f).value)
  {
    if files != [] {
      var n := |files| - 1;
      PairSound(fmt2, gen, base, files[..n]);
      assert forall f :: f in files[..n] ==> f in files;
      assert files[n] in files;
    }
  }

  /** Without a head file of the base's version nothing is generated. */
  lemma {:induction false} PairNoMatch(fmt2: real -> string, gen: Generator, base: O.ReportFile, files: seq<O.ReportFile>)
    requires forall i :: 0 <= i < |files| ==> files[i].version != base.version
    ensures PairSpec(fmt2, gen, base, files) == Ok([])
  {
    if files != [] {
      var n := |files| - 1;
      assert forall i :: 0 <= i < n ==> files[..n][i] == files[i];
      PairNoMatch(fmt2, gen, base, files[..n]);
    }
  }

  const HEADING: string := "## Changes\n\n"

  /** One collapsible block of the comment. */
  function VersionBlock(vc: VersionChange): string {
    "<details><summary>Version " + vc.version + "</summary>\n\n" + vc.body + "\n\n</details>\n\n"
  }

  /** The comment body: its heading and one block per summary. */
  function CommentBody(vcs: seq<VersionChange>): string {
    if vcs == [] then HEADING else CommentBody(vcs[..|vcs| - 1]) + VersionBlock(vcs[|vcs| - 1])
  }

  /** The comment body is built by appending one block per summary. */
  method BuildComment(vcs: seq<VersionChange>) returns (body: string)
    ensures body == CommentBody(vcs)
  {
    body := HEADING;
    for i := 0 to |vcs|
      invariant body == CommentBody(vcs[..i])
    {
      assert vcs[..i + 1][..i] == vcs[..i];
      body := body + VersionBlock(vcs[i]);
    }
    assert vcs[..|vcs|] == vcs;
  }

  /** The comment opens with its heading and has a block per summary. */
  lemma {:induction false} CommentBodyHeading(vcs: seq<VersionChange>)
    ensures StartsWith(CommentBody(vcs), HEADING)
    ensures vcs != [] ==> |CommentBody(vcs)| > |HEADING|
  {
    if vcs != [] {
      var n := |vcs| - 1;
      CommentBodyHeading(vcs[..n]);
      StartsWithAppend(CommentBody(vcs[..n]), VersionBlock(vcs[n]), HEADING);
    }
  }

  /** processPR after its API calls: the pull request's head must be the
      run's head commit, the base commit needs a completed run whose first
      run's report files are fetched; the comment body, when there are
      summaries, is what gets posted. */
  function ProcessPRSpec(fmt2: real -> string, gen: Generator, prHeadSha: string, headSha: string,
                         baseRuns: Result<seq<u64>, string>, fetch: u64 -> Result<seq<O.ReportFile>, O.FetchError>,
                         files: seq<O.ReportFile>): Result<Option<string>, PrError>
  {
    if prHeadSha != headSha then Ok(None)
    else match baseRuns
      case Err(e) => Err(ApiFailed(e))
      case Ok(runs) =>
        if runs == [] then Ok(None)
        else match fetch(runs[0])
          case Err(e) => Err(FetchFailed(e))
          case Ok(bases) =>
            if bases == [] then Ok(None)
            else match ChangesSpec(fmt2, gen, bases, files)
              case Err(e) => Err(ChangesFailed(e))
              case Ok(vcs) => if vcs == [] then Ok(None) else Ok(Some(CommentBody(vcs)))
  }

  method ProcessPR(fmt2: real -> string, gen: Generator, prHeadSha: string, headSha: string,
                   baseRuns: Result<seq<u64>, string>, fetch: u64 -> Result<seq<O.ReportFile>, O.FetchError>,
                   files: seq<O.ReportFile>) returns (res: Result<Option<string>, PrError>)
    ensures res == ProcessPRSpec(fmt2, gen, prHeadSha, headSha, baseRuns, fetch, files)
  {
    if prHeadSha != headSha {
      return Ok(None);
    }
    if baseRuns.Err? {
      return Err(ApiFailed(baseRuns.error));
    }
    if |baseRuns.value| == 0 {
      return Ok(None);
    }
    var bases := fetch(baseRuns.value[0]);
    if bases.Err? {
      return Err(FetchFailed(bases.error));
    }
    if |bases.value| == 0 {
      return Ok(None);
    }
    var vcs := VersionChanges(fmt2, gen, bases.value, files);
    if vcs.Err? {
      return Err(ChangesFailed(vcs.error));
    }
    if |vcs.value| == 0 {
      return Ok(None);
    }
    var body := BuildComment(vcs.value);
    return Ok(Some(body));
  }

  /** A comment is posted only for a pull request whose head is the run's
      commit, and it is never just the heading. */
  lemma ProcessPROutcome(fmt2: real -> string, gen: Generator, prHeadSha: string, headSha: string,
                         baseRuns: Result<seq<u64>, string>, fetch: u64 -> Result<seq<O.ReportFile>, O.FetchError>,
                         files: seq<O.ReportFile>)
    ensures var r := ProcessPRSpec(fmt2, gen, prHeadSha, headSha, baseRuns, fetch, files);
      && (prHeadSha != headSha ==> r == Ok(None))
      && (r.Ok? && r.value.Some? ==> prHeadSha == headSha && StartsWith(r.value.value, HEADING)
                                     && |r.value.value| > |HEADING|)
  {
    var r := ProcessPRSpec(fmt2, gen, prHeadSha, headSha, baseRuns, fetch, files);
    if r.Ok? && r.value.Some? {
      var bases := fetch(baseRuns.value[0]).value;
      CommentBodyHeading(ChangesSpec(fmt2, gen, bases, files).value);
    }
  }
}
