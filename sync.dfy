/** Refreshing a project from GitHub (src/github/mod.rs): discover the
    completed push runs newer than the stored commit, page by page; for each
    run without a stored report, resolve every artifact's version from its
    name, pick the report entry of its archive and parse it; then insert every
    report found into the store.

    The GitHub API, the download and the zip crate's archive listing are
    inputs; `Report::parse`, `migrate`, `split` and `enclosed_name` are the
    function-valued fields of a `SyncCodec`. The concurrent tasks run one
    after another in listing order, every existence check before the first
    insert. */
module Sync {
  import opened Wrappers
  import opened Ints
  import opened Text
  import opened Seqs
  import opened ArtifactNames
  import opened ReportData
  import opened Models
  import S = Store

  type Bytes = seq<byte>

  // ---------------------------------------------------------------------------
  // Artifact versions

  predicate Sep(c: char) {
    c == '_' || c == '-'
  }

  predicate NoNewline(s: string) {
    forall i :: 0 <= i < |s| ==> s[i] != '\n'
  }

  /** `(?:[_-].*)?$`: nothing, or a separator and then a line. */
  predicate ReportTail(t: string) {
    t == [] || (Sep(t[0]) && NoNewline(t[1..]))
  }

  /** `^([A-z0-9_\-]+)[_-]report(?:[_-].*)?$` matches with its group ending
      at k. */
  predicate SplitsAt(name: string, k: nat) {
    && 0 < k && k + 7 <= |name|
    && VersionChars(name[..k]) && Sep(name[k]) && name[k + 1..k + 7] == "report"
    && ReportTail(name[k + 7..])
  }

  /** The greatest k <= bound at which the pattern matches. */
  function LongestSplit(name: string, bound: nat): (r: Option<nat>)
    requires bound <= |name|
    ensures r.Some? ==> r.value <= bound && SplitsAt(name, r.value)
                        && forall j :: r.value < j <= bound ==> !SplitsAt(name, j)
    ensures r.None? ==> forall j :: 0 < j <= bound ==> !SplitsAt(name, j)
    decreases bound
  {
    if bound == 0 then None
    else if SplitsAt(name, bound) then Some(bound)
    else LongestSplit(name, bound - 1)
  }

  /** The version group of the report pattern. The regex engine prefers the
      longest group that lets the rest of the pattern match (a greedy `+`), so
      the version ends at the last position where the pattern matches. */
  function ReportVersion(name: string): (v: Option<string>)
    ensures v.None? <==> forall k: nat :: !SplitsAt(name, k)
    ensures v.Some? ==> exists k: nat :: SplitsAt(name, k) && v.value == name[..k]
                                         && forall j: nat :: k < j ==> !SplitsAt(name, j)
  {
    match LongestSplit(name, |name|)
    case None => None
    case Some(k) => Some(name[..k])
  }

  /** `^([A-z0-9_\-]+)_maps$` */
  function MapsVersion(name: string): Option<string> {
    SuffixGroup(name, "_maps")
  }

  /** The first artifact name, in list order, that the maps pattern matches. */
  function FirstMapsVersion(names: seq<string>): (v: Option<string>)
    ensures v.None? <==> forall i :: 0 <= i < |names| ==> MapsVersion(names[i]).None?
    ensures v.Some? ==> exists i :: 0 <= i < |names| && MapsVersion(names[i]) == v
                                    && forall j :: 0 <= j < i ==> MapsVersion(names[j]).None?
  {
    if names == [] then None
    else if MapsVersion(names[0]).Some? then MapsVersion(names[0])
    else
      var v := FirstMapsVersion(names[1..]);
      assert forall i :: 1 <= i < |names| ==> names[i] == names[1..][i - 1];
      v
  }

  /** The version an artifact is stored under, given the names of all the
      run's artifacts; None skips the artifact. */
  function ResolveVersion(name: string, all: seq<string>): Option<string> {
    var v := ReportVersion(name);
    if v.Some? then v
    else if name == "progress" || name == "progress.json" then FirstMapsVersion(all)
    else None
  }

  /** The report pattern wins; "progress" and "progress.json" borrow the first
      maps version, when there is one; every other name is skipped. */
  lemma ResolveVersionCases(name: string, all: seq<string>)
    ensures ReportVersion(name).Some? ==> ResolveVersion(name, all) == ReportVersion(name)
    ensures ReportVersion(name).None? && (name == "progress" || name == "progress.json") ==>
              ResolveVersion(name, all) == FirstMapsVersion(all)
    ensures ReportVersion(name).None? && name != "progress" && name != "progress.json" ==>
              ResolveVersion(name, all).None?
    ensures ResolveVersion(name, all).Some? ==>
              ReportVersion(name).Some? || exists i :: 0 <= i < |all| && MapsVersion(all[i]) == ResolveVersion(name, all)
  {
  }

  /** A version followed by "_report" or "-report" and nothing else. */
  lemma PlainReportName(p: string, sep: char)
    requires p != [] && VersionChars(p) && Sep(sep)
    ensures ReportVersion(p + [sep] + "report") == Some(p)
  {
    var name := p + [sep] + "report";
    assert name[..|p|] == p && name[|p|] == sep && name[|p| + 1..|p| + 7] == "report" && name[|p| + 7..] == [];
    assert SplitsAt(name, |p|);
  }

  /** A suffix after the separator is allowed; a name with no separator before
      "report" resolves to nothing. */
  lemma ReportNameExamples()
    ensures ReportVersion("us-report-v2").Some?
    ensures ReportVersion("usreport").None?
  {
    assert SplitsAt("us-report-v2", 2) by {
      assert "us-report-v2"[..2] == "us" && "us-report-v2"[3..9] == "report" && "us-report-v2"[9..] == "-v2";
    }
    forall k: nat ensures !SplitsAt("usreport", k) {
      if 0 < k && k + 7 <= 8 {
        assert k == 1 && "usreport"[1] == 's';
      }
    }
  }

  // ---------------------------------------------------------------------------
  // Choosing the archive entry (download_artifact)

  /** A file of the downloaded archive, as `ZipArchive::by_index` gives it. */
  datatype ZipFile = ZipFile(name: string, contents: Result<Bytes, string>)

  /** The foreign calls `download_artifact` makes. `enclosedName` is
      `ZipFile::enclosed_name` as the path's components, None for an unsafe
      name. */
  datatype SyncCodec = SyncCodec(
    enclosedName: string -> Option<seq<string>>,
    parse: Bytes -> Result<Report, string>,
    migrate: Report -> Result<Report, string>,
    split: Report -> seq<(string, Report)>)

  /** `Path::file_name`: the last component, unless it is "..". */
  function FileName(path: seq<string>): Option<string> {
    if path == [] || path[|path| - 1] == ".." then None else Some(path[|path| - 1])
  }

  /** `Path::file_stem` of a file name: the part before its last '.', or the
      whole name when it has no '.', when its only '.' leads, or for "..". */
  function FileStem(name: string): (stem: string)
    ensures stem == name || (exists i :: 0 < i < |name| && name[i] == '.' && stem == name[..i] && '.' !in name[i + 1..])
    ensures name != ".." && (exists i :: 0 < i < |name| && name[i] == '.') ==> stem != name
  {
    if name == ".." then name
    else
      match LastIndexOf(name, '.')
      case None => name
      case Some(i) => if i == 0 then name else name[..i]
  }

  lemma FileStemExamples()
    ensures FileStem("report.json") == "report"
    ensures FileStem("report.tar.gz") == "report.tar"
  {
    assert "report.json"[6] == '.' && '.' !in "report.json"[7..];
    assert "report.tar.gz"[10] == '.' && '.' !in "report.tar.gz"[11..];
  }

  /** Without an inner dot the name is its own stem. */
  lemma FileStemNoExtension()
    ensures FileStem("report") == "report"
    ensures FileStem(".report") == ".report"
  {
    assert '.' !in "report";
    assert ".report"[0] == '.' && '.' !in ".report"[1..];
  }


  /** The entry `download_artifact` reads: a safe name whose file stem is
      "report" or "progress". */
  predicate Chosen(c: SyncCodec, f: ZipFile) {
    var path := c.enclosedName(f.name);
    path.Some? && FileName(path.value).Some?
    && var stem := FileStem(FileName(path.value).value);
    (stem == "report" || stem == "progress")
  }

  /** A report entry's bytes, parsed and migrated, then split when the
      version is "combined" in any case; otherwise the one pair. */
  function ReadReport(c: SyncCodec, data: Bytes, version: string): Result<seq<(string, Report)>, string> {
    match c.parse(data)
    case Err(e) => Err(e)
    case Ok(parsed) =>
      match c.migrate(parsed)
      case Err(e) => Err(e)
      case Ok(report) =>
        if EqIgnoreCase(version, "combined") then Ok(c.split(report)) else Ok([(version, report)])
  }

  /** The archive's files in order: a file that cannot be opened fails the
      download; the first chosen one decides; none gives no reports. */
  function ScanEntries(c: SyncCodec, files: seq<Result<ZipFile, string>>, version: string): Result<seq<(string, Report)>, string>
    decreases |files|
  {
    if files == [] then Ok([])
    else
      match files[0]
      case Err(e) => Err(e)
      case Ok(f) =>
        if !Chosen(c, f) then ScanEntries(c, files[1..], version)
        else
          match f.contents
          case Err(e) => Err(e)
          case Ok(data) => ReadReport(c, data, version)
  }

  /** `download_artifact`: the archive (or the failure to download or open
      it), scanned for its report entry. */
  function DownloadSpec(c: SyncCodec, archive: Result<seq<Result<ZipFile, string>>, string>, version: string)
    : Result<seq<(string, Report)>, string>
  {
    match archive
    case Err(e) => Err(e)
    case Ok(files) => ScanEntries(c, files, version)
  }

  method DownloadArtifact(c: SyncCodec, archive: Result<seq<Result<ZipFile, string>>, string>, version: string)
    returns (res: Result<seq<(string, Report)>, string>)
    ensures res == DownloadSpec(c, archive, version)
  {
    if archive.Err? {
      return Err(archive.error);
    }
    var files := archive.value;
    for i := 0 to |files|
      invariant ScanEntries(c, files[i..], version) == ScanEntries(c, files, version)
    {
      assert files[i..][1..] == files[i + 1..];
      if files[i].Err? {
        return Err(files[i].error);
      }
      var f := files[i].value;
      if Chosen(c, f) {
        if f.contents.Err? {
          return Err(f.contents.error);
        }
        var parsed := c.parse(f.contents.value);
        if parsed.Err? {
          return Err(parsed.error);
        }
        var report := c.migrate(parsed.value);
        if report.Err? {
          return Err(report.error);
        }
        if EqIgnoreCase(version, "combined") {
          return Ok(c.split(report.value));
        }
        return Ok([(version, report.value)]);
      }
    }
    return Ok([]);
  }

  /** Files before index i open and are not chosen: with i past the end there
      is no report, and a chosen file at i decides the outcome. */
  lemma {:induction false} FirstChosenEntry(c: SyncCodec, files: seq<Result<ZipFile, string>>, version: string, i: nat)
    requires i <= |files|
    requires forall j :: 0 <= j < i ==> files[j].Ok? && !Chosen(c, files[j].value)
    ensures i == |files| ==> ScanEntries(c, files, version) == Ok([])
    ensures i < |files| && files[i].Ok? && Chosen(c, files[i].value) ==>
      ScanEntries(c, files, version) ==
        (var f := files[i].value; if f.contents.Err? then Err(f.contents.error) else ReadReport(c, f.contents.value, version))
    decreases i
  {
    if i > 0 {
      FirstChosenEntry(c, files[1..], version, i - 1);
    }
  }

  /** A combined report becomes its split parts; any other version gives
      exactly one report under that version. */
  lemma CombinedSplit(c: SyncCodec, data: Bytes, version: string)
    requires c.parse(data).Ok? && c.migrate(c.parse(data).value).Ok?
    ensures var report := c.migrate(c.parse(data).value).value;
      && (EqIgnoreCase(version, "combined") ==> ReadReport(c, data, version) == Ok(c.split(report)))
      && (!EqIgnoreCase(version, "combined") ==> ReadReport(c, data, version) == Ok([(version, report)]))
  {
  }

  // ---------------------------------------------------------------------------
  // Processing a run (process_workflow_run)

  datatype ArtifactInfo = ArtifactInfo(id: u64, name: string)

  /** Where the artifacts of a run come from: the listing of a run's
      artifacts and each artifact's downloaded archive. */
  datatype Actions = Actions(
    listArtifacts: u64 -> Result<seq<ArtifactInfo>, string>,
    download: u64 -> Result<seq<Result<ZipFile, string>>, string>)

  function Names(arts: seq<ArtifactInfo>): (names: seq<string>)
    ensures |names| == |arts| && forall i :: 0 <= i < |arts| ==> names[i] == arts[i].name
  {
    seq(|arts|, i requires 0 <= i < |arts| => arts[i].name)
  }

  /** What one artifact contributes: nothing when its version does not
      resolve or its download fails (the failure is only logged), else the
      reports of its archive. */
  function ArtifactReports(c: SyncCodec, io: Actions, a: ArtifactInfo, names: seq<string>): seq<(string, Report)> {
    match ResolveVersion(a.name, names)
    case None => []
    case Some(version) =>
      match DownloadSpec(c, io.download(a.id), version)
      case Err(_) => []
      case Ok(reports) => reports
  }

  /** The artifacts' contributions, in listing order. */
  function CollectReports(c: SyncCodec, io: Actions, arts: seq<ArtifactInfo>, names: seq<string>): seq<(string, Report)>
    decreases |arts|
  {
    if arts == [] then []
    else CollectReports(c, io, arts[..|arts| - 1], names) + ArtifactReports(c, io, arts[|arts| - 1], names)
  }

  /** `process_workflow_run`: only a failed listing fails the run. */
  function ProcessSpec(c: SyncCodec, io: Actions, runId: u64): Result<seq<(string, Report)>, string> {
    match io.listArtifacts(runId)
    case Err(e) => Err(e)
    case Ok(arts) => if arts == [] then Ok([]) else Ok(CollectReports(c, io, arts, Names(arts)))
  }

  method ProcessWorkflowRun(c: SyncCodec, io: Actions, runId: u64) returns (res: Result<seq<(string, Report)>, string>)
    ensures res == ProcessSpec(c, io, runId)
  {
    var listed := io.listArtifacts(runId);
    if listed.Err? {
      return Err(listed.error);
    }
    var arts := listed.value;
    if arts == [] {
      return Ok([]);
    }
    var names := Names(arts);
    var reports: seq<(string, Report)> := [];
    for i := 0 to |arts|
      invariant reports == CollectReports(c, io, arts[..i], names)
    {
      assert arts[..i + 1][..i] == arts[..i];
      var version := ResolveVersion(arts[i].name, names);
      if version.None? {
        continue;
      }
      var downloaded := DownloadArtifact(c, io.download(arts[i].id), version.value);
      if downloaded.Ok? {
        reports := reports + downloaded.value;
      }
    }
    assert arts[..|arts|] == arts;
    return Ok(reports);
  }

  /** The contributions of a concatenation are concatenated. */
  lemma {:induction false} CollectReportsAppend(c: SyncCodec, io: Actions, a: seq<ArtifactInfo>, b: seq<ArtifactInfo>, names: seq<string>)
    ensures CollectReports(c, io, a + b, names) == CollectReports(c, io, a, names) + CollectReports(c, io, b, names)
    decreases |b|
  {
    if b == [] {
      assert a + b == a;
    } else {
      var b' := b[..|b| - 1];
      assert (a + b)[..|a + b| - 1] == a + b';
      assert (a + b)[|a + b| - 1] == b[|b| - 1];
      CollectReportsAppend(c, io, a, b', names);
      ConcatAssoc(CollectReports(c, io, a, names), CollectReports(c, io, b', names), ArtifactReports(c, io, b[|b| - 1], names));
    }
  }

  /** An artifact that contributes nothing (unresolved, failed download, no
      report entry) can be dropped from the listing without changing the
      reports; the names used for the maps fallback stay those of the listing. */
  lemma SkippedArtifact(c: SyncCodec, io: Actions, arts: seq<ArtifactInfo>, i: nat)
    requires i < |arts| && ArtifactReports(c, io, arts[i], Names(arts)) == []
    ensures CollectReports(c, io, arts, Names(arts)) ==
            CollectReports(c, io, arts[..i] + arts[i + 1..], Names(arts))
  {
    var names := Names(arts);
    var pre, post := arts[..i], arts[i + 1..];
    var x := pre + [arts[i]];
    assert arts == x + post;
    assert x[..|x| - 1] == pre && x[|x| - 1] == arts[i];
    assert CollectReports(c, io, x, names) == CollectReports(c, io, pre, names);
    CollectReportsAppend(c, io, x, post, names);
    CollectReportsAppend(c, io, pre, post, names);
  }

  // ---------------------------------------------------------------------------
  // Discovering runs

  /** A completed push run of the build workflow: its id, its head SHA and its
      head commit. */
  datatype Run = Run(id: u64, headSha: string, headCommit: Commit)

  /** Page `page` (from 1) of the run listing; pages past the given ones are
      empty. */
  function PageAt(pages: seq<Result<seq<Run>, string>>, page: nat): Result<seq<Run>, string>
    requires page >= 1
  {
    if page <= |pages| then pages[page - 1] else Ok([])
  }

  /** One page's runs taken in order: it stops before a run whose head SHA is
      the stored commit's, or right after the run with the stop id. The flag
      says whether the scan stopped. */
  function ScanPage(items: seq<Run>, existing: Option<string>, stop: u64): (seq<Run>, bool)
    decreases |items|
  {
    if items == [] then ([], false)
    else if existing.Some? && items[0].headSha == existing.value then ([], true)
    else if items[0].id == stop then ([items[0]], true)
    else
      var (taken, stopped) := ScanPage(items[1..], existing, stop);
      ([items[0]] + taken, stopped)
  }

  function Prepend(a: seq<Run>, r: Result<seq<Run>, string>): Result<seq<Run>, string> {
    if r.Err? then r else Ok(a + r.value)
  }

  /** The discovery loop from page `page` on: an empty page ends it, a failed
      request fails it. */
  function DiscoverFrom(pages: seq<Result<seq<Run>, string>>, page: nat, existing: Option<string>, stop: u64)
    : Result<seq<Run>, string>
    requires page >= 1
    decreases |pages| + 1 - page
  {
    match PageAt(pages, page)
    case Err(e) => Err(e)
    case Ok(items) =>
      if items == [] then Ok([])
      else
        var (taken, stopped) := ScanPage(items, existing, stop);
        if stopped then Ok(taken) else Prepend(taken, DiscoverFrom(pages, page + 1, existing, stop))
  }

  /** The runs the listing offers, page after page, up to the first empty or
      failed page. */
  function Listed(pages: seq<Result<seq<Run>, string>>, page: nat): seq<Run>
    requires page >= 1
    decreases |pages| + 1 - page
  {
    match PageAt(pages, page)
    case Err(_) => []
    case Ok(items) => if items == [] then [] else items + Listed(pages, page + 1)
  }

  /** The discovery loop of `run`. */
  method Discover(pages: seq<Result<seq<Run>, string>>, existing: Option<string>, stop: u64)
    returns (res: Result<seq<Run>, string>)
    ensures res == DiscoverFrom(pages, 1, existing, stop)
  {
    var runs: seq<Run> := [];
    var page: nat := 1;
    PrependNothing(DiscoverFrom(pages, 1, existing, stop));
    while true
      invariant page >= 1
      invariant Prepend(runs, DiscoverFrom(pages, page, existing, stop)) == DiscoverFrom(pages, 1, existing, stop)
      decreases |pages| + 1 - page
    {
      var result := PageAt(pages, page);
      if result.Err? {
        return Err(result.error);
      }
      var items := result.value;
      if items == [] {
        assert runs + [] == runs;
        break;
      }
      ghost var runs0 := runs;
      assert items[..0] == [] && items[0..] == items && runs0 + [] == runs0;
      assert [] + ScanPage(items, existing, stop).0 == ScanPage(items, existing, stop).0;
      for j := 0 to |items|
        invariant runs == runs0 + items[..j]
        invariant ScanPage(items, existing, stop) == (var (t, st) := ScanPage(items[j..], existing, stop); (items[..j] + t, st))
      {
        ScanStep(items, j, existing, stop);
        if existing.Some? && items[j].headSha == existing.value {
          assert items[..j] + [] == items[..j];
          return Ok(runs);
        }
        runs := runs + [items[j]];
        ConcatAssoc(runs0, items[..j], [items[j]]);
        if items[j].id == stop {
          return Ok(runs);
        }
        ConcatAssoc(items[..j], [items[j]], ScanPage(items[j + 1..], existing, stop).0);
      }
      assert items[|items|..] == [] && items[..|items|] == items && items + [] == items;
      PrependAssoc(runs0, items, DiscoverFrom(pages, page + 1, existing, stop));
      page := page + 1;
    }
    return Ok(runs);
  }

  /** One run of a page: a head-SHA hit ends the page's runs before it, the
      stop run ends them with it, any other run is taken. */
  lemma ScanStep(items: seq<Run>, j: nat, existing: Option<string>, stop: u64)
    requires j < |items|
    ensures var (t, st) := ScanPage(items[j..], existing, stop);
      && (existing.Some? && items[j].headSha == existing.value ==> t == [] && st)
      && (!(existing.Some? && items[j].headSha == existing.value) && items[j].id == stop ==> t == [items[j]] && st)
      && (!(existing.Some? && items[j].headSha == existing.value) && items[j].id != stop ==>
            (t, st) == (var (t', st') := ScanPage(items[j + 1..], existing, stop); ([items[j]] + t', st')))
    ensures items[..j + 1] == items[..j] + [items[j]]
  {
    assert items[j..][0] == items[j] && items[j..][1..] == items[j + 1..];
  }

  lemma PrependNothing(r: Result<seq<Run>, string>)
    ensures Prepend([], r) == r
  {
    if r.Ok? {
      assert [] + r.value == r.value;
    }
  }

  lemma PrependAssoc(a: seq<Run>, b: seq<Run>, r: Result<seq<Run>, string>)
    ensures Prepend(a, Prepend(b, r)) == Prepend(a + b, r)
  {
    if r.Ok? {
      ConcatAssoc(a, b, r.value);
    }
  }

  predicate NotExisting(r: Run, existing: Option<string>) {
    existing.None? || r.headSha != existing.value
  }

  /** What discovery promises about the runs it returns, against the runs the
      listing offers: a prefix of them, in order, none with the stored
      commit's head SHA, the stop run only last, and it stopped early only at
      a run with the stored commit's head SHA or after the stop run. */
  predicate DiscoveryShape(runs: seq<Run>, listed: seq<Run>, existing: Option<string>, stop: u64) {
    && |runs| <= |listed| && runs == listed[..|runs|]
    && (forall i :: 0 <= i < |runs| ==> NotExisting(runs[i], existing))
    && (forall i :: 0 <= i < |runs| - 1 ==> runs[i].id != stop)
    && (|runs| < |listed| ==> !NotExisting(listed[|runs|], existing) || (|runs| > 0 && runs[|runs| - 1].id == stop))
  }

  /** Discovery as a whole returns runs of that shape. */
  lemma {:induction false} DiscoverShape(pages: seq<Result<seq<Run>, string>>, page: nat, existing: Option<string>, stop: u64)
    requires page >= 1 && DiscoverFrom(pages, page, existing, stop).Ok?
    ensures DiscoveryShape(DiscoverFrom(pages, page, existing, stop).value, Listed(pages, page), existing, stop)
    decreases |pages| + 1 - page
  {
    var items := PageAt(pages, page).value;
    if items != [] {
      var (taken, stopped) := ScanPage(items, existing, stop);
      ScanShape(items, existing, stop);
      if stopped {
        PrefixShape(taken, items, Listed(pages, page + 1), existing, stop);
      } else {
        DiscoverShape(pages, page + 1, existing, stop);
        ShapeCons(items, DiscoverFrom(pages, page + 1, existing, stop).value, Listed(pages, page + 1), existing, stop);
      }
    }
  }

  /** A page's scan: a prefix of its runs, none with the stored commit's head
      SHA, the stop run only last; when it stopped, at a head-SHA hit or
      after the stop run; when it did not, the whole page without the stop run. */
  lemma {:induction false} ScanShape(items: seq<Run>, existing: Option<string>, stop: u64)
    ensures var (t, st) := ScanPage(items, existing, stop);
      && (st ==> DiscoveryShape(t, items, existing, stop) && (|t| < |items| || (|t| > 0 && t[|t| - 1].id == stop)))
      && (!st ==> t == items && forall i :: 0 <= i < |items| ==> NotExisting(items[i], existing) && items[i].id != stop)
    decreases |items|
  {
    if items != [] && NotExisting(items[0], existing) && items[0].id != stop {
      ScanShape(items[1..], existing, stop);
      var (t, st) := ScanPage(items[1..], existing, stop);
      assert items == [items[0]] + items[1..];
      if st {
        ShapeCons([items[0]], t, items[1..], existing, stop);
        if |t| > 0 {
          assert ([items[0]] + t)[|t|] == t[|t| - 1];
        }
      }
    } else if items != [] && NotExisting(items[0], existing) {
      assert items[..1] == [items[0]];
    }
  }

  /** A stopped page's shape carries over to the page followed by later pages. */
  lemma PrefixShape(t: seq<Run>, items: seq<Run>, later: seq<Run>, existing: Option<string>, stop: u64)
    requires DiscoveryShape(t, items, existing, stop)
    requires |t| < |items| || (|t| > 0 && t[|t| - 1].id == stop)
    ensures DiscoveryShape(t, items + later, existing, stop)
  {
    assert (items + later)[..|t|] == items[..|t|];
    if |t| < |items| {
      assert (items + later)[|t|] == items[|t|];
    }
  }

  /** Runs that are all taken, followed by a shaped continuation, are shaped. */
  lemma ShapeCons(items: seq<Run>, more: seq<Run>, later: seq<Run>, existing: Option<string>, stop: u64)
    requires forall i :: 0 <= i < |items| ==> NotExisting(items[i], existing) && items[i].id != stop
    requires DiscoveryShape(more, later, existing, stop)
    ensures DiscoveryShape(items + more, items + later, existing, stop)
  {
    var runs, l := items + more, items + later;
    assert l[..|runs|] == items + later[..|more|];
    forall i | 0 <= i < |runs| ensures NotExisting(runs[i], existing) {
      if i >= |items| {
        assert runs[i] == more[i - |items|];
      }
    }
    forall i | 0 <= i < |runs| - 1 ensures runs[i].id != stop {
      if i >= |items| {
        assert runs[i] == more[i - |items|];
      }
    }
    if |runs| < |l| {
      assert l[|runs|] == later[|more|];
      if |more| > 0 {
        assert runs[|runs| - 1] == more[|more| - 1];
      }
    }
  }

  // ---------------------------------------------------------------------------
  // The refresh (run)

  /** The repository as the API reports it; the owner may be missing. */
  datatype Repo = Repo(id: u64, name: string, defaultBranch: Option<string>, ownerLogin: Option<string>)

  /** The GitHub answers `run` works from: the repository, the run listing
      of each (owner, repo, branch), and the per-run artifact calls. */
  datatype GitHubApi = GitHubApi(
    repo: Result<Repo, string>,
    runPages: (string, string, string) -> seq<Result<seq<Run>, string>>,
    actions: Actions)

  const NO_OWNER: string := "Repo has no owner"

  /** The error a failing `insert_report` returns. */
  const INSERT_ERROR: string := "database error"

  /** The project a refresh works on: the stored one, else one built from the
      repository with every optional field unset. */
  function ProjectFor(existing: Option<ProjectInfo>, repo: Repo, login: string): Project {
    if existing.Some? then existing.value.project
    else Project(repo.id, login, repo.name, None, None, None, None)
  }

  function BranchOf(repo: Repo): string {
    repo.defaultBranch.GetOr("main")
  }

  function ExistingSha(existing: Option<ProjectInfo>): Option<string> {
    if existing.Some? then Some(existing.value.commit.sha) else None
  }

  /** One run's task: a head commit that already has a stored report gives
      no artifacts, and nothing about the run is fetched. */
  function TaskSpec(c: SyncCodec, io: Actions, t: S.Tables, project: Project, run: Run)
    : Result<seq<(string, Report)>, string>
  {
    if S.ReportExists(t, project.owner, project.repo, run.headCommit.sha) then Ok([])
    else ProcessSpec(c, io, run.id)
  }

  /** The report files the tasks yield, run after run: a failed task yields
      none, every file carries the project and its run's head commit. */
  function FilesOf(project: Project, runs: seq<Run>, tasks: seq<Result<seq<(string, Report)>, string>>): seq<ReportFile>
    requires |runs| == |tasks|
    decreases |runs|
  {
    if runs == [] then []
    else
      var n := |runs| - 1;
      FilesOf(project, runs[..n], tasks[..n]) +
        (if tasks[n].Err? then []
         else seq(|tasks[n].value|, k requires 0 <= k < |tasks[n].value| =>
                  ReportFile(project, runs[n].headCommit, tasks[n].value[k].0, tasks[n].value[k].1)))
  }

  /** The store after inserting files in order. */
  function InsertAll(c: S.Codec, t: S.Tables, files: seq<ReportFile>): S.Tables
    decreases |files|
  {
    if files == [] then t else S.InsertSpec(c, InsertAll(c, t, files[..|files| - 1]), files[|files| - 1])
  }

  function CacheAll(cache: map<S.ReportKey, Report>, files: seq<ReportFile>): map<S.ReportKey, Report>
    decreases |files|
  {
    if files == [] then cache
    else CacheAll(cache, files[..|files| - 1])[S.CacheKey(files[|files| - 1]) := files[|files| - 1].report]
  }

  /** How many inserts succeed when insert number `failAt` (from 0) fails. */
  function Inserted(n: nat, failAt: Option<nat>): (k: nat)
    ensures k <= n
  {
    if failAt.Some? && failAt.value < n then failAt.value else n
  }

  /** `run` from a store state: its final tables, cache and outcome. */
  function RunSpec(c: S.Codec, sc: SyncCodec, api: GitHubApi, t: S.Tables, cache: map<S.ReportKey, Report>,
                   owner: string, repoName: string, stop: u64, failAt: Option<nat>)
    : (S.Tables, map<S.ReportKey, Report>, Result<(), string>)
  {
    var existing := S.GetProjectInfo(t, owner, repoName, None);
    if api.repo.Err? then (t, cache, Err(api.repo.error))
    else if api.repo.value.ownerLogin.None? then (t, cache, Err(NO_OWNER))
    else
      var repo := api.repo.value;
      var project := ProjectFor(existing, repo, repo.ownerLogin.value);
      var pages := api.runPages(project.owner, project.repo, BranchOf(repo));
      match DiscoverFrom(pages, 1, ExistingSha(existing), stop)
      case Err(e) => (t, cache, Err(e))
      case Ok(runs) =>
        var tasks := seq(|runs|, i requires 0 <= i < |runs| => TaskSpec(sc, api.actions, t, project, runs[i]));
        var files := FilesOf(project, runs, tasks);
        var k := Inserted(|files|, failAt);
        (InsertAll(c, t, files[..k]), CacheAll(cache, files[..k]), if k < |files| then Err(INSERT_ERROR) else Ok(()))
  }

  /** `run`: one refresh of owner/repo against the store. `failAt` numbers the
      insert that fails, if one does. */
  method Refresh(db: S.Database, sc: SyncCodec, api: GitHubApi, owner: string, repoName: string, stop: u64,
                 failAt: Option<nat>) returns (res: Result<(), string>)
    requires db.Valid()
    modifies db
    ensures db.Valid()
    ensures (db.State(), db.cache, res) ==
            RunSpec(db.codec, sc, api, old(db.State()), old(db.cache), owner, repoName, stop, failAt)
  {
    var existing := S.GetProjectInfo(db.State(), owner, repoName, None);
    if api.repo.Err? {
      return Err(api.repo.error);
    }
    var repo := api.repo.value;
    if repo.ownerLogin.None? {
      return Err(NO_OWNER);
    }
    var project := ProjectFor(existing, repo, repo.ownerLogin.value);
    var runs := Discover(api.runPages(project.owner, project.repo, BranchOf(repo)), ExistingSha(existing), stop);
    if runs.Err? {
      return Err(runs.error);
    }
    var tasks := RunTasks(sc, api.actions, db.State(), project, runs.value);
    var files := FilesOf(project, runs.value, tasks);
    res := InsertFiles(db, files, failAt);
  }

  /** The run tasks, one after another; all of them see the store as it was
      before the first insert. */
  method RunTasks(sc: SyncCodec, io: Actions, t: S.Tables, project: Project, runs: seq<Run>)
    returns (tasks: seq<Result<seq<(string, Report)>, string>>)
    ensures tasks == seq(|runs|, i requires 0 <= i < |runs| => TaskSpec(sc, io, t, project, runs[i]))
  {
    tasks := [];
    for i := 0 to |runs|
      invariant |tasks| == i && forall j :: 0 <= j < i ==> tasks[j] == TaskSpec(sc, io, t, project, runs[j])
    {
      var result: Result<seq<(string, Report)>, string>;
      if S.ReportExists(t, project.owner, project.repo, runs[i].headCommit.sha) {
        result := Ok([]);
      } else {
        result := ProcessWorkflowRun(sc, io, runs[i].id);
      }
      assert result == TaskSpec(sc, io, t, project, runs[i]);
      tasks := tasks + [result];
    }
  }

  /** The insert loop: each file in order, the first failing insert ending
      the refresh with its error; the inserts before it stay. */
  method InsertFiles(db: S.Database, files: seq<ReportFile>, failAt: Option<nat>) returns (res: Result<(), string>)
    requires db.Valid()
    modifies db
    ensures db.Valid()
    ensures var k := Inserted(|files|, failAt);
      && db.State() == InsertAll(db.codec, old(db.State()), files[..k])
      && db.cache == CacheAll(old(db.cache), files[..k])
      && res == (if k < |files| then Err(INSERT_ERROR) else Ok(()))
  {
    for i := 0 to |files|
      invariant db.Valid()
      invariant failAt.Some? ==> i <= failAt.value
      invariant db.State() == InsertAll(db.codec, old(db.State()), files[..i])
      invariant db.cache == CacheAll(old(db.cache), files[..i])
    {
      if failAt == Some(i) {
        return Err(INSERT_ERROR);
      }
      assert failAt.Some? ==> i + 1 <= failAt.value;
      InsertAllStep(db.codec, old(db.State()), old(db.cache), files, i);
      db.InsertReport(files[i]);
    }
    assert files[..|files|] == files;
    return Ok(());
  }

  lemma InsertAllStep(c: S.Codec, t: S.Tables, cache: map<S.ReportKey, Report>, files: seq<ReportFile>, i: nat)
    requires i < |files|
    ensures InsertAll(c, t, files[..i + 1]) == S.InsertSpec(c, InsertAll(c, t, files[..i]), files[i])
    ensures CacheAll(cache, files[..i + 1]) == CacheAll(cache, files[..i])[S.CacheKey(files[i]) := files[i].report]
  {
    assert files[..i + 1][..i] == files[..i];
  }

  /** Every file a refresh inserts belongs to the project and to a run whose
      task succeeded, under that run's head commit, with a version and
      report the task produced. */
  lemma {:induction false} FilesOfOrigin(project: Project, runs: seq<Run>,
                                         tasks: seq<Result<seq<(string, Report)>, string>>, f: ReportFile)
    requires |runs| == |tasks|
    requires f in FilesOf(project, runs, tasks)
    ensures f.project == project
    ensures exists i :: 0 <= i < |runs| && tasks[i].Ok? && f.commit == runs[i].headCommit &&
                         (f.version, f.report) in tasks[i].value
  {
    var n := |runs| - 1;
    var tail := if tasks[n].Err? then []
      else seq(|tasks[n].value|, k requires 0 <= k < |tasks[n].value| =>
               ReportFile(project, runs[n].headCommit, tasks[n].value[k].0, tasks[n].value[k].1));
    assert FilesOf(project, runs, tasks) == FilesOf(project, runs[..n], tasks[..n]) + tail;
    if f in tail {
      var k :| 0 <= k < |tail| && tail[k] == f;
      assert (f.version, f.report) == tasks[n].value[k];
    } else {
      FilesOfOrigin(project, runs[..n], tasks[..n], f);
      var i :| 0 <= i < n && tasks[..n][i].Ok? && f.commit == runs[..n][i].headCommit &&
               (f.version, f.report) in tasks[..n][i].value;
      assert tasks[..n][i] == tasks[i];
    }
  }

  /** Runs whose tasks produced nothing give no files. */
  lemma {:induction false} FilesOfNothing(project: Project, runs: seq<Run>,
                                          tasks: seq<Result<seq<(string, Report)>, string>>)
    requires |runs| == |tasks|
    requires forall i :: 0 <= i < |tasks| ==> tasks[i] == Ok([])
    ensures FilesOf(project, runs, tasks) == []
  {
    if runs != [] {
      var n := |runs| - 1;
      assert forall i :: 0 <= i < n ==> tasks[..n][i] == tasks[i];
      FilesOfNothing(project, runs[..n], tasks[..n]);
    }
  }

  /** A refresh whose discovered runs all have stored reports already
      fetches no artifact and leaves the store and cache as they were. */
  lemma RefreshUpToDate(c: S.Codec, sc: SyncCodec, api: GitHubApi, t: S.Tables, cache: map<S.ReportKey, Report>,
                        owner: string, repoName: string, stop: u64, failAt: Option<nat>)
    requires api.repo.Ok? && api.repo.value.ownerLogin.Some?
    requires var existing := S.GetProjectInfo(t, owner, repoName, None);
      var project := ProjectFor(existing, api.repo.value, api.repo.value.ownerLogin.value);
      var found := DiscoverFrom(api.runPages(project.owner, project.repo, BranchOf(api.repo.value)), 1,
                                ExistingSha(existing), stop);
      found.Ok? && forall i :: 0 <= i < |found.value| ==>
        S.ReportExists(t, project.owner, project.repo, found.value[i].headCommit.sha)
    ensures RunSpec(c, sc, api, t, cache, owner, repoName, stop, failAt) == (t, cache, Ok(()))
  {
    var existing := S.GetProjectInfo(t, owner, repoName, None);
    var project := ProjectFor(existing, api.repo.value, api.repo.value.ownerLogin.value);
    var runs := DiscoverFrom(api.runPages(project.owner, project.repo, BranchOf(api.repo.value)), 1,
                             ExistingSha(existing), stop).value;
    var tasks := seq(|runs|, i requires 0 <= i < |runs| => TaskSpec(sc, api.actions, t, project, runs[i]));
    FilesOfNothing(project, runs, tasks);
  }

  /** Once discovery succeeds, failed runs and artifacts are only skipped: the
      refresh succeeds unless an insert fails, and then it fails with the
      insert's error. */
  lemma RefreshFailsOnlyOnInsert(c: S.Codec, sc: SyncCodec, api: GitHubApi, t: S.Tables, cache: map<S.ReportKey, Report>,
                                 owner: string, repoName: string, stop: u64, failAt: Option<nat>)
    requires api.repo.Ok? && api.repo.value.ownerLogin.Some?
    requires var existing := S.GetProjectInfo(t, owner, repoName, None);
      var project := ProjectFor(existing, api.repo.value, api.repo.value.ownerLogin.value);
      DiscoverFrom(api.runPages(project.owner, project.repo, BranchOf(api.repo.value)), 1,
                   ExistingSha(existing), stop).Ok?
    ensures RunSpec(c, sc, api, t, cache, owner, repoName, stop, None).2 == Ok(())
    ensures RunSpec(c, sc, api, t, cache, owner, repoName, stop, failAt).2.Err? ==>
              RunSpec(c, sc, api, t, cache, owner, repoName, stop, failAt).2 == Err(INSERT_ERROR)
  {
  }

  /** The inserts keep the store's invariants. */
  lemma {:induction false} InsertAllValid(c: S.Codec, t: S.Tables, files: seq<ReportFile>)
    requires S.TablesValid(t)
    ensures S.TablesValid(InsertAll(c, t, files))
    decreases |files|
  {
    if files != [] {
      InsertAllValid(c, t, files[..|files| - 1]);
      S.InsertPreservesValid(c, InsertAll(c, t, files[..|files| - 1]), files[|files| - 1]);
    }
  }
}
