/** The report page handler (src/handlers/report.rs): the file extension
    taken off the path, the commit, version and mode a request resolves to,
    and the scope (measures, listed items, label) a category or unit
    selection narrows the report to. */
module ReportHandler {
  import opened Wrappers
  import opened Ints
  import opened Text
  import opened Seqs
  import opened ReportData
  import opened Models
  import S = Store
  import Badge

  // ---------------------------------------------------------------------------
  // Path parameters and the extension

  /** `/{owner}/{repo}[/{version}[/{commit}]]`, as routed. */
  datatype ReportParams = ReportParams(owner: string, repo: string, version: Option<string>, commit: Option<string>)

  /** The path field an extension is looked for in: the commit when routed,
      else the version when routed, else the repo. */
  function ExtField(p: ReportParams): string {
    if p.commit.Some? then p.commit.value else if p.version.Some? then p.version.value else p.repo
  }

  /** The parameters with the extension field replaced. */
  function WithExtField(p: ReportParams, f: string): ReportParams {
    if p.commit.Some? then p.(commit := Some(f))
    else if p.version.Some? then p.(version := Some(f))
    else p.(repo := f)
  }

  /** `extract_extension`: the extension field cut at its last '.'. */
  function ExtractExtension(p: ReportParams): (ReportParams, Option<string>) {
    match RSplitOnce(ExtField(p), '.')
    case None => (p, None)
    case Some((stem, ext)) => (WithExtField(p, stem), Some(ext))
  }

  /** Only the extension field changes; without a '.' nothing does; with one
      the extension is what follows the last '.', and putting it back gives
      the original parameters. */
  lemma ExtractExtensionRoundTrip(p: ReportParams)
    ensures var (q, ext) := ExtractExtension(p);
      && (ext.None? <==> '.' !in ExtField(p))
      && (ext.None? ==> q == p)
      && (ext.Some? ==> '.' !in ext.value && ExtField(p) == ExtField(q) + "." + ext.value
                        && WithExtField(q, ExtField(p)) == p)
      && q.owner == p.owner
      && (p.commit.Some? ==> q.version == p.version && q.repo == p.repo)
      && (p.commit.None? ==> q.commit == p.commit)
      && (p.commit.None? && p.version.Some? ==> q.repo == p.repo)
  {
  }

  /** A routed commit without a '.' hides any '.' in the version or repo. */
  lemma CommitShadowsExtension(owner: string, repo: string, version: string, commit: string)
    requires '.' !in commit
    ensures ExtractExtension(ReportParams(owner, repo, Some(version), Some(commit))) ==
            (ReportParams(owner, repo, Some(version), Some(commit)), None)
  {
  }

  // ---------------------------------------------------------------------------
  // Resolution

  /** The HTTP statuses the handler answers with. */
  datatype Status = NotAcceptable | NotFound | BadRequest

  /** An answer status, or an internal error from the store. */
  datatype AppError = StatusError(status: Status) | Internal(message: string)

  /** The commit asked for: "latest" in any ASCII case means none. */
  function RequestedCommit(commit: Option<string>): (r: Option<string>)
    ensures r.None? <==> commit.None? || EqIgnoreCase(commit.value, "latest")
    ensures r.Some? ==> r == commit
  {
    if commit.Some? && EqIgnoreCase(commit.value, "latest") then None else commit
  }

  /** The version to read: a missing version or "default" in any ASCII case
      is the project's default version, and no default is NOT_FOUND; any
      other version is taken as given. */
  function ResolveVersion(version: Option<string>, info: ProjectInfo): (r: Result<string, Status>)
    ensures (version.None? || EqIgnoreCase(version.value, "default")) ==>
              (r.Ok? <==> DefaultVersion(info).Some?) && (r.Ok? ==> r.value == DefaultVersion(info).value)
              && (r.Err? ==> r.error == NotFound)
    ensures (version.Some? && !EqIgnoreCase(version.value, "default")) ==> r == Ok(version.value)
  {
    if version.Some? && !EqIgnoreCase(version.value, "default") then Ok(version.value)
    else if DefaultVersion(info).Some? then Ok(DefaultVersion(info).value)
    else Err(NotFound)
  }

  /** A default resolution names a version the project has reports for. */
  lemma ResolvedDefaultIsListed(version: Option<string>, info: ProjectInfo)
    requires version.None? || EqIgnoreCase(version.value, "default")
    requires ResolveVersion(version, info).Ok?
    ensures ResolveVersion(version, info).value in info.reportVersions
    ensures ResolveVersion(version, info) == ResolveVersion(None, info)
  {
  }

  /** The two answer modes. */
  datatype Mode = Shield | Page

  /** The mode: "report" when absent, matched after ASCII lower-casing;
      anything but "shield" and "report" is BAD_REQUEST. */
  function ParseMode(mode: Option<string>): (r: Result<Mode, Status>)
    ensures r == Ok(Shield) <==> mode.Some? && Lower(mode.value) == "shield"
    ensures r == Ok(Page) <==> mode.None? || Lower(mode.value) == "report"
    ensures r.Err? ==> r.error == BadRequest
  {
    var m := Lower(mode.GetOr("report"));
    assert Lower("report") == "report";
    if m == "shield" then Ok(Shield) else if m == "report" then Ok(Page) else Err(BadRequest)
  }

  /** The mode does not depend on the letter case of its name. */
  lemma ParseModeIgnoresCase(mode: string)
    ensures ParseMode(Some(mode)) == ParseMode(Some(Lower(mode)))
  {
    LowerIdempotent(mode);
  }

  // ---------------------------------------------------------------------------
  // apply_scope

  /** The query options the scope depends on; width, height and the layout
      they drive are not modelled. */
  datatype ReportQuery = ReportQuery(
    mode: Option<string>,
    category: Option<string>,
    unit: Option<string>,
    shield: Badge.ShieldParams)

  /** One listed item: a unit, or a function of the selected unit. */
  datatype Item = Item(name: string, totalCode: u64, fuzzyMatchPercent: real)

  /** A function of the selected unit, under its demangled name when known. */
  function FunctionItem(f: ReportItem): Item {
    var name := if f.metadata.Some? && f.metadata.value.demangledName.Some? then f.metadata.value.demangledName.value
                else f.name;
    Item(name, f.size, f.fuzzyMatchPercent)
  }

  /** The functions of the selected unit with a non-zero size, in order. */
  function FunctionItems(fs: seq<ReportItem>): (r: seq<Item>)
    ensures forall x :: x in r <==> exists f :: f in fs && f.size != 0 && x == FunctionItem(f)
  {
    if fs == [] then []
    else
      var n := |fs| - 1;
      var r := FunctionItems(fs[..n]) + (if fs[n].size != 0 then [FunctionItem(fs[n])] else []);
      assert forall f :: f in fs <==> f in fs[..n] || f == fs[n] by {
        assert fs == fs[..n] + [fs[n]];
      }
      r
  }

  /** Listing keeps the functions' order: it distributes over concatenation. */
  lemma {:induction false} FunctionItemsAppend(a: seq<ReportItem>, b: seq<ReportItem>)
    ensures FunctionItems(a + b) == FunctionItems(a) + FunctionItems(b)
    decreases |b|
  {
    if b == [] {
      assert a + b == a;
    } else {
      var n := |b| - 1;
      assert (a + b)[..|a + b| - 1] == a + b[..n];
      assert (a + b)[|a + b| - 1] == b[n];
      FunctionItemsAppend(a, b[..n]);
      ConcatAssoc(FunctionItems(a), FunctionItems(b[..n]),
                  if b[n].size != 0 then [FunctionItem(b[n])] else []);
    }
  }

  /** Whether a unit is listed: it has measures with code, and lists the
      category when one is selected. */
  predicate Listed(u: ReportUnit, category: Option<string>) {
    && (category.None? || (u.metadata.Some? && category.value in u.metadata.value.progressCategories))
    && u.measures.Some? && u.measures.value.totalCode != 0
  }

  function UnitItem(u: ReportUnit): Item
    requires u.measures.Some?
  {
    Item(u.name, u.measures.value.totalCode, u.measures.value.fuzzyMatchPercent)
  }

  /** The listed units, in order. */
  function UnitItems(us: seq<ReportUnit>, category: Option<string>): (r: seq<Item>)
    ensures forall x :: x in r <==> exists u :: u in us && Listed(u, category) && x == UnitItem(u)
  {
    if us == [] then []
    else
      var n := |us| - 1;
      var r := UnitItems(us[..n], category) + (if Listed(us[n], category) then [UnitItem(us[n])] else []);
      assert forall u :: u in us <==> u in us[..n] || u == us[n] by {
        assert us == us[..n] + [us[n]];
      }
      r
  }

  /** Listing keeps the units' order: it distributes over concatenation. */
  lemma {:induction false} UnitItemsAppend(a: seq<ReportUnit>, b: seq<ReportUnit>, category: Option<string>)
    ensures UnitItems(a + b, category) == UnitItems(a, category) + UnitItems(b, category)
    decreases |b|
  {
    if b == [] {
      assert a + b == a;
    } else {
      var n := |b| - 1;
      assert (a + b)[..|a + b| - 1] == a + b[..n];
      assert (a + b)[|a + b| - 1] == b[n];
      UnitItemsAppend(a, b[..n], category);
      ConcatAssoc(UnitItems(a, category), UnitItems(b[..n], category),
                  if Listed(b[n], category) then [UnitItem(b[n])] else []);
    }
  }

  /** The last path segment of a unit name. */
  function BaseName(name: string): (r: string)
    ensures '/' !in r && EndsWith(name, r)
    ensures '/' !in name ==> r == name
  {
    match RSplitOnce(name, '/')
    case None => name
    case Some((dir, base)) =>
      assert name == dir + ['/'] + base;
      assert name[|name| - |base|..] == base;
      base
  }

  /** The first category with the id, the first unit with the name. */
  function FindCategory(cats: seq<ReportCategory>, id: string): (r: Option<ReportCategory>)
    ensures r.None? <==> forall i :: 0 <= i < |cats| ==> cats[i].id != id
    ensures r.Some? ==> exists i :: 0 <= i < |cats| && cats[i] == r.value && r.value.id == id &&
                                    forall j :: 0 <= j < i ==> cats[j].id != id
  {
    match FirstIndex(cats, (c: ReportCategory) => c.id == id)
    case None => None
    case Some(i) => Some(cats[i])
  }

  function FindUnit(us: seq<ReportUnit>, name: string): (r: Option<ReportUnit>)
    ensures r.None? <==> forall i :: 0 <= i < |us| ==> us[i].name != name
    ensures r.Some? ==> exists i :: 0 <= i < |us| && us[i] == r.value && r.value.name == name &&
                                    forall j :: 0 <= j < i ==> us[j].name != name
  {
    match FirstIndex(us, (u: ReportUnit) => u.name == name)
    case None => None
    case Some(i) => Some(us[i])
  }

  /** What a request looks at in a report. */
  datatype Scope = Scope(
    report: ReportFile,
    info: ProjectInfo,
    measures: Measures,
    currentCategory: Option<ReportCategory>,
    currentUnit: Option<ReportUnit>,
    items: seq<Item>,
    labelText: Option<string>)

  function SelectedCategory(report: Report, query: ReportQuery): Option<ReportCategory> {
    if query.category.Some? then FindCategory(report.categories, query.category.value) else None
  }

  function SelectedUnit(report: Report, query: ReportQuery): Option<ReportUnit> {
    if query.unit.Some? then FindUnit(report.units, query.unit.value) else None
  }

  /** `apply_scope`; a missing measures message reads as all zero. */
  function ApplyScope(file: ReportFile, info: ProjectInfo, query: ReportQuery): (sc: Scope)
    ensures sc.report == file && sc.info == info
  {
    var category := SelectedCategory(file.report, query);
    var unit := SelectedUnit(file.report, query);
    var measures :=
      if unit.Some? then unit.value.measures.GetOr(EMPTY_MEASURES)
      else if category.Some? then category.value.measures.GetOr(EMPTY_MEASURES)
      else file.report.measures.GetOr(EMPTY_MEASURES);
    var items :=
      if unit.Some? then FunctionItems(unit.value.functions)
      else UnitItems(file.report.units, if category.Some? then Some(category.value.id) else None);
    var labelText :=
      if unit.Some? then Some(BaseName(unit.value.name))
      else if category.Some? then Some(category.value.name) else None;
    Scope(file, info, measures, category, unit, items, labelText)
  }

  /** A unit named in the query and present in the report decides the
      measures, the items (its functions) and the label (its base name),
      whatever category is selected. */
  lemma UnitSelectionWins(file: ReportFile, info: ProjectInfo, query: ReportQuery, i: nat)
    requires query.unit.Some? && i < |file.report.units| && file.report.units[i].name == query.unit.value
    ensures var sc := ApplyScope(file, info, query);
      exists k :: 0 <= k <= i && file.report.units[k].name == query.unit.value
        && sc.currentUnit == Some(file.report.units[k])
        && sc.measures == file.report.units[k].measures.GetOr(EMPTY_MEASURES)
        && sc.items == FunctionItems(file.report.units[k].functions)
        && sc.labelText == Some(BaseName(query.unit.value))
    ensures ApplyScope(file, info, query).measures == ApplyScope(file, info, query.(category := None)).measures
    ensures ApplyScope(file, info, query).items == ApplyScope(file, info, query.(category := None)).items
  {
    var u := FindUnit(file.report.units, query.unit.value);
    assert u.Some?;
    var k :| 0 <= k < |file.report.units| && file.report.units[k] == u.value && u.value.name == query.unit.value &&
             forall j :: 0 <= j < k ==> file.report.units[j].name != query.unit.value;
    assert k <= i;
  }

  /** A category id the report does not have is ignored: the scope is that
      of the whole report (or of the selected unit). */
  lemma UnknownCategoryIgnored(file: ReportFile, info: ProjectInfo, query: ReportQuery)
    requires query.category.Some?
    requires forall i :: 0 <= i < |file.report.categories| ==> file.report.categories[i].id != query.category.value
    ensures ApplyScope(file, info, query) == ApplyScope(file, info, query.(category := None))
  {
  }

  /** With a matching category and no unit, the category's measures and name
      are used and exactly the listed units of that category appear. */
  lemma CategoryScope(file: ReportFile, info: ProjectInfo, query: ReportQuery)
    requires SelectedUnit(file.report, query).None?
    requires SelectedCategory(file.report, query).Some?
    ensures var sc := ApplyScope(file, info, query);
      var c := SelectedCategory(file.report, query).value;
      && c in file.report.categories && c.id == query.category.value
      && sc.measures == c.measures.GetOr(EMPTY_MEASURES)
      && sc.labelText == Some(c.name)
      && forall x :: x in sc.items <==>
           exists u :: u in file.report.units && Listed(u, Some(query.category.value)) && x == UnitItem(u)
  {
  }

  /** Without a unit or category the report's measures are used and every
      unit with code is listed. */
  lemma WholeReportScope(file: ReportFile, info: ProjectInfo, query: ReportQuery)
    requires query.unit.None? && query.category.None?
    ensures var sc := ApplyScope(file, info, query);
      && sc.measures == file.report.measures.GetOr(EMPTY_MEASURES)
      && sc.labelText.None?
      && forall x :: x in sc.items <==>
           exists u :: u in file.report.units && u.measures.Some? && u.measures.value.totalCode != 0 && x == UnitItem(u)
  {
  }

  /** The shield label: the scope's label, else the project's short name. */
  function ShieldLabel(sc: Scope): string {
    sc.labelText.GetOr(ShortName(sc.report.project))
  }

  /** The JSON shield answer for a scope. */
  function ShieldJson(fmt2: real -> string, sc: Scope, query: ReportQuery): (r: Result<Badge.ShieldResponse, string>)
    ensures r.Ok? ==>
      r.value.labelText == (if query.shield.labelText.Some? then query.shield.labelText.value
                            else if sc.labelText.Some? then sc.labelText.value else ShortName(sc.report.project))
  {
    Badge.Render(fmt2, sc.measures, ShieldLabel(sc), query.shield)
  }

  // ---------------------------------------------------------------------------
  // get_report

  /** What the handler renders: the scope in a mode, with the extension the
      answer format is negotiated from. */
  datatype View = View(scope: Scope, mode: Mode, ext: Option<string>)

  /** The answer once the store has been read: its failure, a missing
      report, or the scoped report in the requested mode. */
  function Serve(found: Result<Option<ReportFile>, string>, info: ProjectInfo, query: ReportQuery, ext: Option<string>)
    : Result<View, AppError>
  {
    if found.Err? then Err(Internal(found.error))
    else if found.value.None? then Err(StatusError(NotFound))
    else
      var sc := ApplyScope(found.value.value, info, query);
      match ParseMode(query.mode)
      case Err(s) => Err(StatusError(s))
      case Ok(m) => Ok(View(sc, m, ext))
  }

  /** `get_report` up to the chosen mode; `accepts(ext)` says whether content
      negotiation leaves any acceptable type. */
  function GetReportSpec(c: S.Codec, t: S.Tables, cache: map<S.ReportKey, Report>,
                         params: ReportParams, query: ReportQuery, accepts: Option<string> -> bool)
    : (Result<View, AppError>, map<S.ReportKey, Report>)
  {
    var pe := ExtractExtension(params);
    var p := pe.0;
    if !accepts(pe.1) then (Err(StatusError(NotAcceptable)), cache)
    else match S.GetProjectInfo(t, p.owner, p.repo, RequestedCommit(p.commit))
      case None => (Err(StatusError(NotFound)), cache)
      case Some(info) =>
        match ResolveVersion(p.version, info)
        case Err(s) => (Err(StatusError(s)), cache)
        case Ok(version) =>
          var lookup := S.GetReportSpec(c, t, cache, p.owner, p.repo, info.commit.sha, version);
          (Serve(lookup.0, info, query, pe.1), lookup.1)
  }

  /** `get_report`, reading through the store and its cache. */
  method GetReport(db: S.Database, params: ReportParams, query: ReportQuery, accepts: Option<string> -> bool)
    returns (r: Result<View, AppError>)
    modifies db`cache
    ensures (r, db.cache) == GetReportSpec(db.codec, old(db.State()), old(db.cache), params, query, accepts)
  {
    var (p, ext) := ExtractExtension(params);
    if !accepts(ext) {
      return Err(StatusError(NotAcceptable));
    }
    var commit := p.commit;
    if commit.Some? && EqIgnoreCase(commit.value, "latest") {
      commit := None;
    }
    assert commit == RequestedCommit(p.commit);
    var info := S.GetProjectInfo(db.State(), p.owner, p.repo, commit);
    if info.None? {
      return Err(StatusError(NotFound));
    }
    var version := ResolveVersion(p.version, info.value);
    if version.Err? {
      return Err(StatusError(version.error));
    }
    var found := db.GetReport(p.owner, p.repo, info.value.commit.sha, version.value);
    assert GetReportSpec(db.codec, old(db.State()), old(db.cache), params, query, accepts)
      == (Serve(found, info.value, query, ext), db.cache);
    if found.Err? {
      return Err(Internal(found.error));
    }
    if found.value.None? {
      return Err(StatusError(NotFound));
    }
    var sc := ApplyScope(found.value.value, info.value, query);
    var mode := ParseMode(query.mode);
    if mode.Err? {
      return Err(StatusError(mode.error));
    }
    return Ok(View(sc, mode.value, ext));
  }

  /** The failures in the order the handler meets them: no acceptable type,
      no project or report for the commit, no version, then a bad mode;
      none of the first three touches the cache. */
  lemma GetReportFailures(c: S.Codec, t: S.Tables, cache: map<S.ReportKey, Report>,
                          params: ReportParams, query: ReportQuery, accepts: Option<string> -> bool)
    ensures var pe := ExtractExtension(params);
      var p := pe.0;
      var info := S.GetProjectInfo(t, p.owner, p.repo, RequestedCommit(p.commit));
      var res := GetReportSpec(c, t, cache, params, query, accepts);
      && (!accepts(pe.1) ==> res == (Err(StatusError(NotAcceptable)), cache))
      && (accepts(pe.1) && info.None? ==> res == (Err(StatusError(NotFound)), cache))
      && (accepts(pe.1) && info.Some? && ResolveVersion(p.version, info.value).Err? ==>
            res == (Err(StatusError(NotFound)), cache))
      && (res.0.Ok? ==> ParseMode(query.mode) == Ok(res.0.value.mode) && res.0.value.ext == pe.1)
  {
    var pe := ExtractExtension(params);
    var p := pe.0;
    var info := S.GetProjectInfo(t, p.owner, p.repo, RequestedCommit(p.commit));
    if accepts(pe.1) && info.Some? && ResolveVersion(p.version, info.value).Ok? {
      var lookup := S.GetReportSpec(c, t, cache, p.owner, p.repo, info.value.commit.sha, ResolveVersion(p.version, info.value).value);
      assert GetReportSpec(c, t, cache, params, query, accepts).0 == Serve(lookup.0, info.value, query, pe.1);
      if Serve(lookup.0, info.value, query, pe.1).Ok? {
        ServeFound(lookup.0, info.value, query, pe.1);
      }
    }
  }

  /** A served view carries the found report, scoped by the query, in the
      requested mode. */
  lemma ServeFound(found: Result<Option<ReportFile>, string>, info: ProjectInfo, query: ReportQuery, ext: Option<string>)
    requires Serve(found, info, query, ext).Ok?
    ensures var v := Serve(found, info, query, ext).value;
      && found == Ok(Some(v.scope.report)) && v.scope == ApplyScope(v.scope.report, info, query) && v.scope.info == info
      && ParseMode(query.mode) == Ok(v.mode) && v.ext == ext
  {
    var file := found.value.value;
    var sc := ApplyScope(file, info, query);
    assert sc.report == file && sc.info == info;
    assert Serve(found, info, query, ext) == Ok(View(sc, ParseMode(query.mode).value, ext));
  }

  /** A found page shows the report stored for the resolved commit and
      version, scoped by the query. */
  lemma GetReportFound(c: S.Codec, t: S.Tables, cache: map<S.ReportKey, Report>,
                       params: ReportParams, query: ReportQuery, accepts: Option<string> -> bool)
    requires GetReportSpec(c, t, cache, params, query, accepts).0.Ok?
    ensures var p := ExtractExtension(params).0;
      var v := GetReportSpec(c, t, cache, params, query, accepts).0.value;
      && S.GetProjectInfo(t, p.owner, p.repo, RequestedCommit(p.commit)) == Some(v.scope.info)
      && ResolveVersion(p.version, v.scope.info).Ok?
      && S.GetReportSpec(c, t, cache, p.owner, p.repo, v.scope.info.commit.sha,
                         ResolveVersion(p.version, v.scope.info).value).0 == Ok(Some(v.scope.report))
      && v.scope == ApplyScope(v.scope.report, v.scope.info, query)
  {
    var pe := ExtractExtension(params);
    var p := pe.0;
    var info := S.GetProjectInfo(t, p.owner, p.repo, RequestedCommit(p.commit));
    assert info.Some?;
    var version := ResolveVersion(p.version, info.value);
    assert version.Ok?;
    var lookup := S.GetReportSpec(c, t, cache, p.owner, p.repo, info.value.commit.sha, version.value);
    var r := Serve(lookup.0, info.value, query, pe.1);
    assert GetReportSpec(c, t, cache, params, query, accepts).0 == r;
    ServeFound(lookup.0, info.value, query, pe.1);
  }
}
