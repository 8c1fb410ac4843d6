/** The progress-report message schema that both implementations exchange (the
    `Report` protobuf of the external diff tool): aggregate measures, categories
    and an ordered list of units with their function-level items. Floating-point
    fields are `real`s: only equality and sign are ever used on them. */
module ReportData {
  import opened Wrappers
  import opened Ints

  datatype Measures = Measures(
    fuzzyMatchPercent: real,
    totalCode: u64,
    matchedCode: u64,
    matchedCodePercent: real,
    totalData: u64,
    matchedData: u64,
    matchedDataPercent: real,
    totalFunctions: u32,
    matchedFunctions: u32,
    matchedFunctionsPercent: real,
    completeCode: u64,
    completeCodePercent: real,
    completeData: u64,
    completeDataPercent: real,
    totalUnits: u32,
    completeUnits: u32)

  /** All-zero measures: a missing measures message reads as this. */
  const EMPTY_MEASURES: Measures :=
    Measures(0.0, 0, 0, 0.0, 0, 0, 0.0, 0, 0, 0.0, 0, 0.0, 0, 0.0, 0, 0)

  datatype ItemMetadata = ItemMetadata(demangledName: Option<string>, virtualAddress: Option<u64>)

  datatype ReportItem = ReportItem(
    name: string,
    size: u64,
    fuzzyMatchPercent: real,
    metadata: Option<ItemMetadata>,
    address: Option<u64>)

  datatype UnitMetadata = UnitMetadata(
    complete: Option<bool>,
    moduleName: Option<string>,
    moduleId: Option<u32>,
    sourcePath: Option<string>,
    progressCategories: seq<string>,
    autoGenerated: Option<bool>)

  datatype ReportUnit = ReportUnit(
    name: string,
    measures: Option<Measures>,
    sections: seq<ReportItem>,
    functions: seq<ReportItem>,
    metadata: Option<UnitMetadata>)

  datatype ReportCategory = ReportCategory(id: string, name: string, measures: Option<Measures>)

  datatype Report = Report(
    measures: Option<Measures>,
    units: seq<ReportUnit>,
    version: u32,
    categories: seq<ReportCategory>)
}
