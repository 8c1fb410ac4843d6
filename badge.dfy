/** The shields.io endpoint badge (src/handlers/badge.rs): label, message
    and colour of the JSON `render` answer for a set of measures. */
module Badge {
  import opened Wrappers
  import opened Ints
  import opened Text
  import opened ReportData

  /** The badge options taken from the query string. */
  datatype ShieldParams = ShieldParams(
    labelText: Option<string>,
    labelColor: Option<string>,
    color: Option<string>,
    style: Option<string>,
    measure: Option<string>)

  /** The endpoint JSON: `color` is always present, `style` and `labelColor`
      only when given. */
  datatype ShieldResponse = ShieldResponse(
    schemaVersion: nat,
    labelText: string,
    message: string,
    color: Option<string>,
    style: Option<string>,
    labelColor: Option<string>)

  const SCHEMA_VERSION: nat := 1
  const DEFAULT_COLOR: string := "informational"
  const UNKNOWN_MEASURE: string := "Unknown measure"

  /** The measures a badge can show, by their query names. */
  datatype Measure = Code | Data | Functions | CompleteCode | CompleteData | CompleteUnits

  function MeasureName(m: Measure): string {
    match m
    case Code => "code"
    case Data => "data"
    case Functions => "functions"
    case CompleteCode => "complete_code"
    case CompleteData => "complete_data"
    case CompleteUnits => "complete_units"
  }

  /** The measure a query name selects; names are matched exactly. */
  function ParseMeasure(name: string): (m: Option<Measure>)
    ensures m.Some? ==> MeasureName(m.value) == name
  {
    if name == "code" then Some(Code)
    else if name == "data" then Some(Data)
    else if name == "functions" then Some(Functions)
    else if name == "complete_code" then Some(CompleteCode)
    else if name == "complete_data" then Some(CompleteData)
    else if name == "complete_units" then Some(CompleteUnits)
    else None
  }

  /** Every measure is selected by its own name. */
  lemma ParseMeasureName(m: Measure)
    ensures ParseMeasure(MeasureName(m)) == Some(m)
  {
    match m
    case Code =>
    case Data =>
    case Functions => assert "functions" != "code" && "functions" != "data";
    case CompleteCode => assert "complete_code" != "code" && "complete_code" != "data";
    case CompleteData => assert "complete_data" != "complete_code";
    case CompleteUnits => assert "complete_units" != "complete_code" && "complete_units" != "complete_data";
  }

  /** `{}/{}` of two counts. */
  function Fraction(a: nat, b: nat): string {
    NatToDecimal(a) + "/" + NatToDecimal(b)
  }

  /** A fraction splits back into the two counts it shows. */
  lemma FractionRoundTrip(a: nat, b: nat)
    ensures RSplitOnce(Fraction(a, b), '/') == Some((NatToDecimal(a), NatToDecimal(b)))
    ensures DecimalValue(NatToDecimal(a)) == a && DecimalValue(NatToDecimal(b)) == b
  {
    var s := Fraction(a, b);
    assert s == NatToDecimal(a) + ['/'] + NatToDecimal(b);
    assert '/' !in NatToDecimal(b);
    var r := RSplitOnce(s, '/');
    SplitAtLastUnique(r.value.0, r.value.1, NatToDecimal(a), NatToDecimal(b), '/');
    DecimalRoundTrip(a);
    DecimalRoundTrip(b);
  }

  /** The badge message: a percent rendered with two decimals (the `{:.2}`
      rendering is the parameter `fmt2`), or a count over a total. */
  function Message(fmt2: real -> string, ms: Measures, m: Measure): string {
    match m
    case Code => fmt2(ms.matchedCodePercent) + "%"
    case Data => fmt2(ms.matchedDataPercent) + "%"
    case Functions => Fraction(ms.matchedFunctions as nat, ms.totalFunctions as nat)
    case CompleteCode => fmt2(ms.completeCodePercent) + "%"
    case CompleteData => fmt2(ms.completeDataPercent) + "%"
    case CompleteUnits => Fraction(ms.completeUnits as nat, ms.totalUnits as nat)
  }

  /** `render`: the endpoint answer, or an error for an unknown measure name. */
  function Render(fmt2: real -> string, ms: Measures, defaultLabel: string, params: ShieldParams)
    : (r: Result<ShieldResponse, string>)
    ensures r.Err? <==> params.measure.Some? && ParseMeasure(params.measure.value).None?
    ensures r.Err? ==> r.error == UNKNOWN_MEASURE
    ensures r.Ok? ==> r.value.schemaVersion == SCHEMA_VERSION
    ensures r.Ok? ==> r.value.labelText == (if params.labelText.Some? then params.labelText.value else defaultLabel)
    ensures r.Ok? ==> r.value.color.Some? &&
                      r.value.color.value == (if params.color.Some? then params.color.value else DEFAULT_COLOR)
    ensures r.Ok? ==> r.value.style == params.style && r.value.labelColor == params.labelColor
  {
    var measure := if params.measure.Some? then ParseMeasure(params.measure.value) else Some(Code);
    if measure.None? then Err(UNKNOWN_MEASURE)
    else Ok(ShieldResponse(SCHEMA_VERSION, params.labelText.GetOr(defaultLabel), Message(fmt2, ms, measure.value),
                           Some(params.color.GetOr(DEFAULT_COLOR)), params.style, params.labelColor))
  }

  /** Without a measure the badge shows the matched-code percent. */
  lemma DefaultMeasureIsCode(fmt2: real -> string, ms: Measures, defaultLabel: string, params: ShieldParams)
    requires params.measure.None?
    ensures Render(fmt2, ms, defaultLabel, params) ==
            Render(fmt2, ms, defaultLabel, params.(measure := Some("code")))
    ensures Render(fmt2, ms, defaultLabel, params).value.message == fmt2(ms.matchedCodePercent) + "%"
  {
  }

  /** The "functions" message gives back the counts it was made from. */
  lemma FunctionsMessageRoundTrip(fmt2: real -> string, ms: Measures, defaultLabel: string, params: ShieldParams)
    requires params.measure == Some("functions")
    ensures var r := Render(fmt2, ms, defaultLabel, params);
      && r.Ok?
      && RSplitOnce(r.value.message, '/') == Some((NatToDecimal(ms.matchedFunctions as nat), NatToDecimal(ms.totalFunctions as nat)))
      && DecimalValue(NatToDecimal(ms.matchedFunctions as nat)) == ms.matchedFunctions as nat
      && DecimalValue(NatToDecimal(ms.totalFunctions as nat)) == ms.totalFunctions as nat
  {
    ParseMeasureName(Functions);
    assert Render(fmt2, ms, defaultLabel, params).value.message == Fraction(ms.matchedFunctions as nat, ms.totalFunctions as nat);
    FractionRoundTrip(ms.matchedFunctions as nat, ms.totalFunctions as nat);
  }

  /** The "complete_units" message gives back the counts it was made from. */
  lemma CompleteUnitsMessageRoundTrip(fmt2: real -> string, ms: Measures, defaultLabel: string, params: ShieldParams)
    requires params.measure == Some("complete_units")
    ensures var r := Render(fmt2, ms, defaultLabel, params);
      && r.Ok?
      && RSplitOnce(r.value.message, '/') == Some((NatToDecimal(ms.completeUnits as nat), NatToDecimal(ms.totalUnits as nat)))
      && DecimalValue(NatToDecimal(ms.completeUnits as nat)) == ms.completeUnits as nat
      && DecimalValue(NatToDecimal(ms.totalUnits as nat)) == ms.totalUnits as nat
  {
    ParseMeasureName(CompleteUnits);
    assert Render(fmt2, ms, defaultLabel, params).value.message == Fraction(ms.completeUnits as nat, ms.totalUnits as nat);
    FractionRoundTrip(ms.completeUnits as nat, ms.totalUnits as nat);
  }

  /** Different counts give different "functions" badges. */
  lemma FunctionsMessageInjective(fmt2: real -> string, a: Measures, b: Measures, defaultLabel: string, params: ShieldParams)
    requires params.measure == Some("functions")
    requires Render(fmt2, a, defaultLabel, params) == Render(fmt2, b, defaultLabel, params)
    ensures a.matchedFunctions == b.matchedFunctions && a.totalFunctions == b.totalFunctions
  {
    FunctionsMessageRoundTrip(fmt2, a, defaultLabel, params);
    FunctionsMessageRoundTrip(fmt2, b, defaultLabel, params);
  }
}
