/** The content-addressed report store of the Rust service (src/db/mod.rs).

    A report is kept as a header row (the report with its unit list emptied,
    compressed) plus one row per distinct unit, keyed by the BLAKE3 hash of the
    unit's encoding, plus a join table recording which unit sits at which index
    of which report. Reading rebuilds the report in index order, re-checking
    every unit's hash, and caches the result under a lower-cased key.

    The SQL tables are sequences (row order is insertion order, which is also
    the order a query without ORDER BY is taken to return) and a map for the
    unit table. Zstandard, BLAKE3, protobuf and `Report::migrate` are the
    function-valued fields of a `Codec`. */
module Store {
  import opened Wrappers
  import opened Ints
  import opened Text
  import opened Seqs
  import opened ReportData
  import opened Models
  import opened Zstd

  type Bytes = seq<byte>

  /** A BLAKE3 hash: 32 bytes for every well-formed key. */
  type UnitKey = Bytes

  /** The library calls the database layer makes. `frameSize` is
      `get_frame_content_size`, whose behaviour the Zstd module specifies (see
      ProbeLawful). */
  datatype Codec = Codec(
    compress: Bytes -> Bytes,
    frameSize: Bytes -> FrameSize,
    decodeFrame: (Bytes, nat) -> Result<Bytes, string>,
    hash: Bytes -> UnitKey,
    encodeReport: Report -> Bytes,
    decodeReport: Bytes -> Result<Report, string>,
    encodeUnit: ReportUnit -> Bytes,
    decodeUnit: Bytes -> Result<ReportUnit, string>,
    migrate: Report -> Result<Report, string>)

  /** The laws the libraries keep: decompression inverts compression (see
      ZstdRoundTrip for why), BLAKE3 gives 32 bytes, protobuf decoding inverts
      encoding. Hash injectivity is not assumed. */
  ghost predicate Lawful(c: Codec) {
    FramesLawful(c) && HashLawful(c) && MessagesLawful(c)
  }

  ghost predicate FramesLawful(c: Codec) {
    forall x :: Decompress(c, c.compress(x)) == Ok(x)
  }

  ghost predicate HashLawful(c: Codec) {
    forall x :: |c.hash(x)| == 32
  }

  ghost predicate MessagesLawful(c: Codec) {
    && (forall r :: c.decodeReport(c.encodeReport(r)) == Ok(r))
    && (forall u :: c.decodeUnit(c.encodeUnit(u)) == Ok(u))
  }

  /** The header probe reads the frame header as RFC 8878 section 3.1.1 lays it
      out, refusing the windows libzstd refuses. */
  ghost predicate ProbeLawful(c: Codec) {
    forall x :: c.frameSize(x) == FrameContentSize(x)
  }

  /** What the Zstandard library promises: the probe follows the header format,
      the compressor writes the content size into the frame header, and decoding
      a frame to that size gives the input back. */
  ghost predicate ZstdLawful(c: Codec) {
    && ProbeLawful(c)
    && (forall x :: FrameContentSize(c.compress(x)) == ContentSize(|x|))
    && (forall x :: c.decodeFrame(c.compress(x), |x|) == Ok(x))
  }

  /** `decompress`: blobs that do not start with a Zstandard frame header are
      taken to be stored uncompressed; a frame must announce its content size. */
  function Decompress(c: Codec, data: Bytes): (r: Result<Bytes, string>)
    ensures c.frameSize(data) == NotAFrame ==> r == Ok(data)
    ensures c.frameSize(data) == UnknownSize ==> r.Err?
    ensures c.frameSize(data).ContentSize? ==> r == c.decodeFrame(data, c.frameSize(data).n)
  {
    match c.frameSize(data)
    case NotAFrame => Ok(data)
    case UnknownSize => Err("Decompressed data size is unknown")
    case ContentSize(n) => c.decodeFrame(data, n)
  }

  /** Because the compressor records the content size, `decompress` inverts it. */
  lemma ZstdRoundTrip(c: Codec)
    requires ZstdLawful(c)
    ensures FramesLawful(c)
  {
    forall x
      ensures Decompress(c, c.compress(x)) == Ok(x)
    {
      assert c.frameSize(c.compress(x)) == FrameContentSize(c.compress(x)) == ContentSize(|x|);
    }
  }

  /** A blob that is not a frame header reads back unchanged: too short,
      without a known magic number, or with the reserved descriptor bit set. */
  lemma DecompressPassesPlainData(c: Codec, data: Bytes)
    requires ProbeLawful(c)
    requires |data| < 4 || (data[..4] != MAGIC && !SkippableMagic(data))
             || (|data| >= 5 && data[..4] == MAGIC && ReservedFlag(data[4]))
    ensures Decompress(c, data) == Ok(data)
  {
    assert c.frameSize(data) == FrameContentSize(data);
  }

  /** So is a frame whose window is larger than libzstd accepts. */
  lemma DecompressPassesLargeWindow(c: Codec, data: Bytes)
    requires ProbeLawful(c)
    requires ParseHeader(data).Ok? && WindowTooLarge(ParseHeader(data).value)
    ensures Decompress(c, data) == Ok(data)
  {
    assert c.frameSize(data) == FrameContentSize(data);
  }

  datatype ReportRow = ReportRow(projectId: u64, version: string, gitCommit: string, timestamp: int, data: Bytes)
  datatype UnitRow = UnitRow(data: Bytes, name: Option<string>)
  /** A `report_report_units` row; a report's id is its row index. */
  datatype Link = Link(reportId: nat, unitKey: UnitKey, unitIndex: nat)
  datatype Tables = Tables(projects: seq<Project>, reports: seq<ReportRow>, units: map<UnitKey, UnitRow>, links: seq<Link>)

  /** The cache key: owner, repo, commit and version, lower-cased. */
  datatype ReportKey = ReportKey(owner: string, repo: string, commit: string, version: string)

  // ---------------------------------------------------------------------------
  // Table constraints

  ghost predicate ProjectIdsUnique(ps: seq<Project>) {
    forall i, j :: 0 <= i < j < |ps| ==> ps[i].id != ps[j].id
  }

  /** The `reports` uniqueness on (project_id, version NOCASE, git_commit NOCASE). */
  predicate SameReport(row: ReportRow, pid: u64, version: string, commit: string) {
    row.projectId == pid && EqIgnoreCase(row.version, version) && EqIgnoreCase(row.gitCommit, commit)
  }

  ghost predicate ReportRowsUnique(rs: seq<ReportRow>) {
    forall i, j :: 0 <= i < j < |rs| ==> !SameReport(rs[j], rs[i].projectId, rs[i].version, rs[i].gitCommit)
  }

  /** Join rows are unique on (report_id, unit_index) and on (report_id, report_unit_id). */
  ghost predicate LinksUnique(ls: seq<Link>) {
    forall i, j :: 0 <= i < j < |ls| && ls[i].reportId == ls[j].reportId
      ==> ls[i].unitIndex != ls[j].unitIndex && ls[i].unitKey != ls[j].unitKey
  }

  ghost predicate TablesValid(t: Tables) {
    && ProjectIdsUnique(t.projects)
    && ReportRowsUnique(t.reports)
    && LinksUnique(t.links)
    && (forall r :: r in t.reports ==> exists p :: p in t.projects && p.id == r.projectId)
    && (forall l :: l in t.links ==> l.reportId < |t.reports| && l.unitKey in t.units)
  }

  // ---------------------------------------------------------------------------
  // insert_report

  /** The project columns `insert_report` writes: everything but the platform. */
  function ProjectRow(p: Project): Project {
    p.(platform := None)
  }

  function ProjectIndex(ps: seq<Project>, id: u64): Option<nat> {
    FirstIndex(ps, (q: Project) => q.id == id)
  }

  /** `INSERT INTO projects ... ON CONFLICT (id) DO NOTHING` */
  function InsertProject(ps: seq<Project>, p: Project): seq<Project> {
    if ProjectIndex(ps, p.id).Some? then ps else ps + [ProjectRow(p)]
  }

  /** The stored report body: the report with its unit list emptied. */
  function ReportBody(r: Report): (b: Report)
    ensures b.units == [] && b.measures == r.measures && b.version == r.version && b.categories == r.categories
    ensures b.(units := r.units) == r
  {
    Report(r.measures, [], r.version, r.categories)
  }

  function ReportRowIndex(rs: seq<ReportRow>, pid: u64, version: string, commit: string): Option<nat> {
    FirstIndex(rs, (row: ReportRow) => SameReport(row, pid, version, commit))
  }

  /** `INSERT INTO reports ... ON CONFLICT (...) DO UPDATE SET timestamp RETURNING id`:
      the new table and the id of the inserted or refreshed row. */
  function UpsertReport(rs: seq<ReportRow>, pid: u64, version: string, commit: string, ts: int, data: Bytes)
    : (seq<ReportRow>, nat)
  {
    match ReportRowIndex(rs, pid, version, commit)
    case Some(i) => (rs[i := rs[i].(timestamp := ts)], i)
    case None => (rs + [ReportRow(pid, version, commit, ts, data)], |rs|)
  }

  function UnitKeyOf(c: Codec, u: ReportUnit): UnitKey {
    c.hash(c.encodeUnit(u))
  }

  function UnitKeys(c: Codec, us: seq<ReportUnit>): (ks: seq<UnitKey>)
    ensures |ks| == |us| && forall i :: 0 <= i < |us| ==> ks[i] == UnitKeyOf(c, us[i])
  {
    if us == [] then [] else UnitKeys(c, us[..|us| - 1]) + [UnitKeyOf(c, us[|us| - 1])]
  }

  function NewUnitRow(c: Codec, u: ReportUnit): UnitRow {
    UnitRow(c.compress(c.encodeUnit(u)), Some(u.name))
  }

  /** `INSERT INTO report_units ... ON CONFLICT (id) DO NOTHING` */
  function InsertUnit(c: Codec, table: map<UnitKey, UnitRow>, u: ReportUnit): map<UnitKey, UnitRow> {
    var k := UnitKeyOf(c, u);
    if k in table then table else table[k := NewUnitRow(c, u)]
  }

  function InsertUnits(c: Codec, table: map<UnitKey, UnitRow>, us: seq<ReportUnit>): map<UnitKey, UnitRow>
    decreases |us|
  {
    if us == [] then table else InsertUnits(c, InsertUnit(c, table, us[0]), us[1..])
  }

  /** A join row that would violate either uniqueness constraint. */
  predicate LinkConflict(ls: seq<Link>, l: Link) {
    exists j :: 0 <= j < |ls| && ls[j].reportId == l.reportId
      && (ls[j].unitIndex == l.unitIndex || ls[j].unitKey == l.unitKey)
  }

  /** `INSERT INTO report_report_units ... ON CONFLICT DO NOTHING` */
  function InsertLink(ls: seq<Link>, l: Link): seq<Link> {
    if LinkConflict(ls, l) then ls else ls + [l]
  }

  /** The join rows for keys at positions start, start + 1, ... */
  function InsertLinks(ls: seq<Link>, rid: nat, keys: seq<UnitKey>, start: nat): seq<Link>
    decreases |keys|
  {
    if keys == [] then ls else InsertLinks(InsertLink(ls, Link(rid, keys[0], start)), rid, keys[1..], start + 1)
  }

  /** The tables after `insert_report(file)` commits. */
  function InsertSpec(c: Codec, t: Tables, file: ReportFile): Tables {
    var data := c.compress(c.encodeReport(ReportBody(file.report)));
    var (reports, rid) := UpsertReport(t.reports, file.project.id, file.version, file.commit.sha,
                                       file.commit.timestamp, data);
    Tables(InsertProject(t.projects, file.project),
           reports,
           InsertUnits(c, t.units, file.report.units),
           InsertLinks(t.links, rid, UnitKeys(c, file.report.units), 0))
  }

  /** The key `insert_report` caches the report under. */
  function CacheKey(file: ReportFile): ReportKey {
    ReportKey(Lower(file.project.owner), Lower(file.project.repo), Lower(file.commit.sha), Lower(file.version))
  }

  // ---------------------------------------------------------------------------
  // get_report

  function ProjectOf(ps: seq<Project>, id: u64): (r: Option<Project>)
    ensures r.Some? ==> r.value in ps && r.value.id == id
    ensures r.None? <==> forall i :: 0 <= i < |ps| ==> ps[i].id != id
  {
    match ProjectIndex(ps, id)
    case Some(i) => Some(ps[i])
    case None => None
  }

  /** The `WHERE` clause of the report lookup. */
  predicate RowMatches(t: Tables, row: ReportRow, owner: string, repo: string, commit: string, version: string) {
    var p := ProjectOf(t.projects, row.projectId);
    && p.Some? && EqIgnoreCase(p.value.owner, owner) && EqIgnoreCase(p.value.repo, repo)
    && EqIgnoreCase(row.version, version) && EqIgnoreCase(row.gitCommit, commit)
  }

  /** The row `fetch_optional` returns: the first match. */
  function FindReport(t: Tables, owner: string, repo: string, commit: string, version: string): Option<nat> {
    FirstIndex(t.reports, (row: ReportRow) => RowMatches(t, row, owner, repo, commit, version))
  }

  function InsertByIndex(ls: seq<Link>, l: Link): (r: seq<Link>)
    ensures multiset(r) == multiset(ls) + multiset{l}
    ensures |r| == |ls| + 1
    ensures r[0] == l || (ls != [] && r[0] == ls[0])
  {
    if ls == [] then [l]
    else if l.unitIndex < ls[0].unitIndex then [l] + ls
    else
      assert ls == [ls[0]] + ls[1..];
      [ls[0]] + InsertByIndex(ls[1..], l)
  }

  /** `ORDER BY unit_index` */
  function SortByIndex(ls: seq<Link>): (r: seq<Link>)
    ensures multiset(r) == multiset(ls)
    ensures forall l :: l in r <==> l in ls
  {
    if ls == [] then []
    else
      assert ls == ls[..|ls| - 1] + [ls[|ls| - 1]];
      var r := InsertByIndex(SortByIndex(ls[..|ls| - 1]), ls[|ls| - 1]);
      assert forall l :: l in r <==> l in multiset(r);
      r
  }

  ghost predicate IndexOrdered(ls: seq<Link>) {
    forall i, j :: 0 <= i < j < |ls| ==> ls[i].unitIndex <= ls[j].unitIndex
  }

  lemma {:induction false} InsertByIndexOrdered(ls: seq<Link>, l: Link)
    requires IndexOrdered(ls)
    ensures IndexOrdered(InsertByIndex(ls, l))
    decreases |ls|
  {
    if ls == [] {
    } else if l.unitIndex < ls[0].unitIndex {
      ConsOrdered(l, ls);
    } else {
      InsertByIndexOrdered(ls[1..], l);
      InsertByIndexBound(ls[1..], l, ls[0].unitIndex);
      ConsOrdered(ls[0], InsertByIndex(ls[1..], l));
    }
  }

  /** Every row of the insertion is at or above a bound that the row and the
      list already respect. */
  lemma {:induction false} InsertByIndexBound(ls: seq<Link>, l: Link, b: nat)
    requires b <= l.unitIndex && forall j :: 0 <= j < |ls| ==> b <= ls[j].unitIndex
    ensures forall j :: 0 <= j < |InsertByIndex(ls, l)| ==> b <= InsertByIndex(ls, l)[j].unitIndex
    decreases |ls|
  {
    if ls != [] && l.unitIndex >= ls[0].unitIndex {
      InsertByIndexBound(ls[1..], l, b);
      var rest := InsertByIndex(ls[1..], l);
      forall j | 0 < j < |[ls[0]] + rest|
        ensures b <= ([ls[0]] + rest)[j].unitIndex
      {
        assert ([ls[0]] + rest)[j] == rest[j - 1];
      }
    }
  }

  lemma ConsOrdered(h: Link, rest: seq<Link>)
    requires IndexOrdered(rest) && forall j :: 0 <= j < |rest| ==> h.unitIndex <= rest[j].unitIndex
    ensures IndexOrdered([h] + rest)
  {
    forall i, j | 0 <= i < j < |[h] + rest|
      ensures ([h] + rest)[i].unitIndex <= ([h] + rest)[j].unitIndex
    {
      assert ([h] + rest)[j] == rest[j - 1];
      if i > 0 {
        assert ([h] + rest)[i] == rest[i - 1];
      }
    }
  }

  /** The sort leaves the rows in unit-index order. */
  lemma {:induction false} SortByIndexOrdered(ls: seq<Link>)
    ensures IndexOrdered(SortByIndex(ls))
    decreases |ls|
  {
    if ls != [] {
      SortByIndexOrdered(ls[..|ls| - 1]);
      InsertByIndexOrdered(SortByIndex(ls[..|ls| - 1]), ls[|ls| - 1]);
    }
  }

  /** The rows of the unit query: the report's join rows, joined with the unit
      table, ordered by unit index. */
  function UnitRows<V>(units: map<UnitKey, V>, links: seq<Link>, rid: nat): (rows: seq<Link>)
    ensures forall l :: l in rows ==> l.unitKey in units && l.reportId == rid
  {
    SortByIndex(Filter(links, OwnedLink(units, rid)))
  }

  /** The join condition of the unit query. */
  function OwnedLink<V>(units: map<UnitKey, V>, rid: nat): Link -> bool {
    (l: Link) => l.reportId == rid && l.unitKey in units
  }

  /** The unit-reading loop: each row must carry the next index, a 32-byte key,
      data that decompresses, hashes to that key and decodes. */
  function ReadUnits(c: Codec, units: map<UnitKey, UnitRow>, rows: seq<Link>, acc: seq<ReportUnit>)
    : Result<seq<ReportUnit>, string>
    requires forall l :: l in rows ==> l.unitKey in units
    decreases |rows|
  {
    if rows == [] then Ok(acc)
    else
      var l := rows[0];
      if l.unitIndex != |acc| then Err("Report unit index mismatch")
      else if |l.unitKey| != 32 then Err("could not convert slice to array")
      else match Decompress(c, units[l.unitKey].data)
        case Err(_) => Err("Failed to decompress report unit data")
        case Ok(d) =>
          if c.hash(d) != l.unitKey then Err("Report unit data hash mismatch")
          else match c.decodeUnit(d)
            case Err(_) => Err("Failed to decode report unit")
            case Ok(u) => ReadUnits(c, units, rows[1..], acc + [u])
  }

  /** `get_report`: the result and the cache afterwards. */
  function GetReportSpec(c: Codec, t: Tables, cache: map<ReportKey, Report>,
                         owner: string, repo: string, commit: string, version: string)
    : (Result<Option<ReportFile>, string>, map<ReportKey, Report>)
  {
    match FindReport(t, owner, repo, commit, version)
    case None => (Ok(None), cache)
    case Some(i) =>
      var row := t.reports[i];
      var project := ProjectOf(t.projects, row.projectId).GetOr(ProjectRow(Project(0, "", "", None, None, None, None)));
      var commitV := Commit(row.gitCommit, row.timestamp);
      match Decompress(c, row.data)
      case Err(_) => (Err("Failed to decompress report data"), cache)
      case Ok(d) =>
        match c.decodeReport(d)
        case Err(_) => (Err("Failed to decode report"), cache)
        case Ok(body) =>
          var key := ReportKey(Lower(owner), Lower(repo), Lower(row.gitCommit), Lower(row.version));
          if key in cache then (Ok(Some(ReportFile(project, commitV, row.version, cache[key]))), cache)
          else
            match ReadUnits(c, t.units, UnitRows(t.units, t.links, i), body.units)
            case Err(e) => (Err(e), cache)
            case Ok(us) =>
              match c.migrate(body.(units := us))
              case Err(e) => (Err(e), cache)
              case Ok(r) => (Ok(Some(ReportFile(project, commitV, row.version, r))), cache[key := r])
  }

  // ---------------------------------------------------------------------------
  // report_exists and get_project_info

  /** `report_exists`: some report of a project with this owner and repo has this
      commit, all three compared case-insensitively. */
  function ReportExists(t: Tables, owner: string, repo: string, commit: string): (b: bool)
    ensures b <==> exists i :: 0 <= i < |t.reports| && CommitMatches(t, t.reports[i], owner, repo, commit)
  {
    FirstIndex(t.reports, (row: ReportRow) => CommitMatches(t, row, owner, repo, commit)).Some?
  }

  predicate CommitMatches(t: Tables, row: ReportRow, owner: string, repo: string, commit: string) {
    var p := ProjectOf(t.projects, row.projectId);
    p.Some? && EqIgnoreCase(p.value.owner, owner) && EqIgnoreCase(p.value.repo, repo)
    && EqIgnoreCase(row.gitCommit, commit)
  }

  predicate OwnerRepoMatch(p: Project, owner: string, repo: string) {
    EqIgnoreCase(p.owner, owner) && EqIgnoreCase(p.repo, repo)
  }

  function ProjectByName(ps: seq<Project>, owner: string, repo: string): Option<nat> {
    FirstIndex(ps, (p: Project) => OwnerRepoMatch(p, owner, repo))
  }

  function MaxTimestamp(rs: seq<ReportRow>, pid: u64): (m: int)
    requires exists i :: 0 <= i < |rs| && rs[i].projectId == pid
    ensures exists i :: 0 <= i < |rs| && rs[i].projectId == pid && rs[i].timestamp == m
    ensures forall i :: 0 <= i < |rs| && rs[i].projectId == pid ==> rs[i].timestamp <= m
  {
    var last := rs[|rs| - 1];
    var init := rs[..|rs| - 1];
    if exists i :: 0 <= i < |rs| - 1 && rs[i].projectId == pid then
      assert forall i :: 0 <= i < |init| ==> init[i] == rs[i];
      var m := MaxTimestamp(init, pid);
      if last.projectId == pid && last.timestamp > m then last.timestamp else m
    else
      last.timestamp
  }

  /** The report rows listed by `get_project_info`, before ordering: those of the
      given commit, or those at the project's latest timestamp. */
  function Candidates(rs: seq<ReportRow>, pid: u64, commit: Option<string>): (rows: seq<ReportRow>)
    ensures forall row :: row in rows ==> row in rs && row.projectId == pid
    ensures commit.Some? ==> forall row :: row in rs ==>
              (row in rows <==> row.projectId == pid && EqIgnoreCase(row.gitCommit, commit.value))
    ensures commit.None? && rows != [] ==> forall row :: row in rs && row.projectId == pid ==>
              (row in rows <==> row.timestamp == rows[0].timestamp)
    ensures commit.None? ==> (rows == [] <==> forall i :: 0 <= i < |rs| ==> rs[i].projectId != pid)
  {
    match commit
    case Some(c) => Filter(rs, (row: ReportRow) => row.projectId == pid && EqIgnoreCase(row.gitCommit, c))
    case None =>
      if exists i :: 0 <= i < |rs| && rs[i].projectId == pid then
        var m := MaxTimestamp(rs, pid);
        var rows := Filter(rs, (row: ReportRow) => row.projectId == pid && row.timestamp == m);
        var i :| 0 <= i < |rs| && rs[i].projectId == pid && rs[i].timestamp == m;
        assert rs[i] in rows;
        rows
      else []
  }

  /** `timestamp < ? ORDER BY timestamp DESC LIMIT 1`: the first row, in table order,
      among the project's rows with the greatest earlier timestamp. */
  function LatestBefore(rs: seq<ReportRow>, pid: u64, ts: int): (r: Option<nat>)
    ensures r.None? <==> forall i :: 0 <= i < |rs| && rs[i].projectId == pid ==> rs[i].timestamp >= ts
    ensures r.Some? ==> r.value < |rs| && rs[r.value].projectId == pid && rs[r.value].timestamp < ts
    ensures r.Some? ==> forall i :: 0 <= i < |rs| && rs[i].projectId == pid && rs[i].timestamp < ts
                          ==> rs[i].timestamp <= rs[r.value].timestamp
  {
    if rs == [] then None
    else
      var b := LatestBefore(rs[..|rs| - 1], pid, ts);
      var last := rs[|rs| - 1];
      assert forall i :: 0 <= i < |rs| - 1 ==> rs[..|rs| - 1][i] == rs[i];
      if last.projectId == pid && last.timestamp < ts && (b.None? || rs[b.value].timestamp < last.timestamp)
      then Some(|rs| - 1)
      else b
  }

  /** `timestamp > ? ORDER BY timestamp LIMIT 1` */
  function EarliestAfter(rs: seq<ReportRow>, pid: u64, ts: int): (r: Option<nat>)
    ensures r.None? <==> forall i :: 0 <= i < |rs| && rs[i].projectId == pid ==> rs[i].timestamp <= ts
    ensures r.Some? ==> r.value < |rs| && rs[r.value].projectId == pid && rs[r.value].timestamp > ts
    ensures r.Some? ==> forall i :: 0 <= i < |rs| && rs[i].projectId == pid && rs[i].timestamp > ts
                          ==> rs[i].timestamp >= rs[r.value].timestamp
  {
    if rs == [] then None
    else
      var b := EarliestAfter(rs[..|rs| - 1], pid, ts);
      var last := rs[|rs| - 1];
      assert forall i :: 0 <= i < |rs| - 1 ==> rs[..|rs| - 1][i] == rs[i];
      if last.projectId == pid && last.timestamp > ts && (b.None? || rs[b.value].timestamp > last.timestamp)
      then Some(|rs| - 1)
      else b
  }

  function Versions(rows: seq<ReportRow>): (vs: seq<string>)
    ensures |vs| == |rows| && forall k :: 0 <= k < |rows| ==> vs[k] == rows[k].version
  {
    seq(|rows|, k requires 0 <= k < |rows| => rows[k].version)
  }

  function CommitOf(rs: seq<ReportRow>, i: Option<nat>): Option<string>
    requires i.Some? ==> i.value < |rs|
  {
    if i.Some? then Some(rs[i.value].gitCommit) else None
  }

  function VersionKey(row: ReportRow): string {
    row.version
  }

  /** `get_project_info` */
  function GetProjectInfo(t: Tables, owner: string, repo: string, commit: Option<string>): (r: Option<ProjectInfo>)
    ensures ProjectByName(t.projects, owner, repo).None? ==> r.None?
    ensures ProjectByName(t.projects, owner, repo).Some? ==>
      var p := t.projects[ProjectByName(t.projects, owner, repo).value];
      && (r.None? <==> Candidates(t.reports, p.id, commit) == [])
      && (r.Some? ==> r.value.project == p)
  {
    match ProjectByName(t.projects, owner, repo)
    case None => None
    case Some(pi) =>
      var p := t.projects[pi];
      var sorted := SortBy(Candidates(t.reports, p.id, commit), VersionKey);
      if sorted == [] then None
      else
        var ts := sorted[0].timestamp;
        Some(ProjectInfo(p, Commit(sorted[0].gitCommit, ts), Versions(sorted),
                         CommitOf(t.reports, LatestBefore(t.reports, p.id, ts)),
                         CommitOf(t.reports, EarliestAfter(t.reports, p.id, ts))))
  }

  /** The listed versions are those of the candidate rows, sorted; the commit shown
      is that of the row with the first version. */
  lemma ProjectInfoVersions(t: Tables, owner: string, repo: string, commit: Option<string>)
    requires GetProjectInfo(t, owner, repo, commit).Some?
    ensures var info := GetProjectInfo(t, owner, repo, commit).value;
      var rows := Candidates(t.reports, info.project.id, commit);
      && SortedStrings(info.reportVersions)
      && |info.reportVersions| == |rows|
      && (forall v :: v in info.reportVersions <==> exists row :: row in rows && row.version == v)
      && (exists row :: row in rows && row.version == info.reportVersions[0]
                      && info.commit == Commit(row.gitCommit, row.timestamp))
  {
    var info := GetProjectInfo(t, owner, repo, commit).value;
    var rows := Candidates(t.reports, info.project.id, commit);
    assert info.reportVersions == Versions(SortBy(rows, VersionKey));
    assert info.commit == Commit(SortBy(rows, VersionKey)[0].gitCommit, SortBy(rows, VersionKey)[0].timestamp);
    SortedVersions(rows);
  }

  /** Sorting rows by version lists exactly their versions, in order. */
  lemma SortedVersions(rows: seq<ReportRow>)
    requires rows != []
    ensures var sorted := SortBy(rows, VersionKey);
      var vs := Versions(sorted);
      && sorted != []
      && SortedStrings(vs)
      && |vs| == |rows|
      && (forall v :: v in vs <==> exists row :: row in rows && row.version == v)
      && sorted[0] in rows && sorted[0].version == vs[0]
  {
    var sorted := SortBy(rows, VersionKey);
    var vs := Versions(sorted);
    SortBySorted(rows, VersionKey);
    assert forall row :: row in sorted <==> row in rows by {
      assert forall row :: row in sorted <==> row in multiset(sorted);
    }
    forall v | v in vs
      ensures exists row :: row in rows && row.version == v
    {
      var k :| 0 <= k < |vs| && vs[k] == v;
      assert sorted[k] in sorted;
    }
    forall v | exists row :: row in rows && row.version == v
      ensures v in vs
    {
      var row :| row in rows && row.version == v;
      var k :| 0 <= k < |sorted| && sorted[k] == row;
      assert vs[k] == v;
    }
    assert sorted[0] in sorted;
  }

  /** The previous commit has the greatest timestamp below the shown commit's, the
      next one the least above it; each is absent exactly when no such row exists. */
  lemma ProjectInfoNeighbours(t: Tables, owner: string, repo: string, commit: Option<string>)
    requires GetProjectInfo(t, owner, repo, commit).Some?
    ensures var info := GetProjectInfo(t, owner, repo, commit).value;
      && IsPrevCommit(t.reports, info.project.id, info.commit.timestamp, info.prevCommit)
      && IsNextCommit(t.reports, info.project.id, info.commit.timestamp, info.nextCommit)
  {
    var info := GetProjectInfo(t, owner, repo, commit).value;
    var pid, ts := info.project.id, info.commit.timestamp;
    assert info.prevCommit == CommitOf(t.reports, LatestBefore(t.reports, pid, ts));
    assert info.nextCommit == CommitOf(t.reports, EarliestAfter(t.reports, pid, ts));
    NeighbourCommits(t.reports, pid, ts);
  }

  /** `prev` is the commit of a row of the project with the greatest timestamp
      below ts, or absent when the project has no row before ts. */
  predicate IsPrevCommit(rs: seq<ReportRow>, pid: u64, ts: int, prev: Option<string>) {
    && (prev.None? <==> forall i :: 0 <= i < |rs| && rs[i].projectId == pid ==> rs[i].timestamp >= ts)
    && (prev.Some? ==>
          exists j ::
            && 0 <= j < |rs| && rs[j].projectId == pid && rs[j].gitCommit == prev.value && rs[j].timestamp < ts
            && forall i :: 0 <= i < |rs| && rs[i].projectId == pid && rs[i].timestamp < ts
                 ==> rs[i].timestamp <= rs[j].timestamp)
  }

  /** `next` is the commit of a row of the project with the least timestamp above
      ts, or absent when the project has no row after ts. */
  predicate IsNextCommit(rs: seq<ReportRow>, pid: u64, ts: int, next: Option<string>) {
    && (next.None? <==> forall i :: 0 <= i < |rs| && rs[i].projectId == pid ==> rs[i].timestamp <= ts)
    && (next.Some? ==>
          exists j ::
            && 0 <= j < |rs| && rs[j].projectId == pid && rs[j].gitCommit == next.value && rs[j].timestamp > ts
            && forall i :: 0 <= i < |rs| && rs[i].projectId == pid && rs[i].timestamp > ts
                 ==> rs[i].timestamp >= rs[j].timestamp)
  }

  lemma NeighbourCommits(rs: seq<ReportRow>, pid: u64, ts: int)
    ensures IsPrevCommit(rs, pid, ts, CommitOf(rs, LatestBefore(rs, pid, ts)))
    ensures IsNextCommit(rs, pid, ts, CommitOf(rs, EarliestAfter(rs, pid, ts)))
  {
  }

  // ---------------------------------------------------------------------------
  // fixup_report_units

  /** The name a stored unit row decodes to, if it decodes. */
  function DecodedName(c: Codec, data: Bytes): Option<string> {
    match Decompress(c, data)
    case Err(_) => None
    case Ok(d) =>
      match c.decodeUnit(d)
      case Err(_) => None
      case Ok(u) => Some(u.name)
  }

  /** The name `insert_report` stores with a unit is the one its row decodes to. */
  lemma InsertedUnitNameDecodes(c: Codec, u: ReportUnit)
    requires Lawful(c)
    ensures DecodedName(c, NewUnitRow(c, u).data) == NewUnitRow(c, u).name
  {
    assert Decompress(c, c.compress(c.encodeUnit(u))) == Ok(c.encodeUnit(u));
  }

  class Database {
    const codec: Codec
    var projects: seq<Project>
    var reports: seq<ReportRow>
    var units: map<UnitKey, UnitRow>
    var links: seq<Link>
    /** The report cache; entries may be evicted at any time. */
    var cache: map<ReportKey, Report>

    function State(): Tables
      reads this
    {
      Tables(projects, reports, units, links)
    }

    ghost predicate Valid()
      reads this
    {
      TablesValid(State())
    }

    /** A freshly migrated, empty database. */
    constructor(codec: Codec)
      ensures this.codec == codec && State() == Tables([], [], map[], []) && cache == map[]
      ensures Valid()
    {
      this.codec := codec;
      projects := [];
      reports := [];
      units := map[];
      links := [];
      cache := map[];
    }

    /** `insert_report`: one transaction over the four tables, then a cache fill. */
    method InsertReport(file: ReportFile)
      requires Valid()
      modifies this
      ensures Valid()
      ensures State() == InsertSpec(codec, old(State()), file)
      ensures cache == old(cache)[CacheKey(file) := file.report]
    {
      InsertPreservesValid(codec, State(), file);
      projects := InsertProject(projects, file.project);
      var data := codec.compress(codec.encodeReport(ReportBody(file.report)));
      var upserted := UpsertReport(reports, file.project.id, file.version, file.commit.sha,
                                   file.commit.timestamp, data);
      reports := upserted.0;
      var keys := InsertUnitRows(file.report.units);
      InsertLinkRows(upserted.1, keys);
      cache := cache[CacheKey(file) := file.report];
    }

    /** The unit loop of `insert_report`: hash, remember the key, insert if absent. */
    method InsertUnitRows(us: seq<ReportUnit>) returns (keys: seq<UnitKey>)
      modifies this`units
      ensures keys == UnitKeys(codec, us)
      ensures units == InsertUnits(codec, old(units), us)
    {
      keys := [];
      var i := 0;
      while i < |us|
        invariant 0 <= i <= |us|
        invariant keys == UnitKeys(codec, us[..i])
        invariant InsertUnits(codec, units, us[i..]) == InsertUnits(codec, old(units), us)
      {
        var unit := us[i];
        var unitData := codec.encodeUnit(unit);
        var key := codec.hash(unitData);
        assert us[..i + 1][..i] == us[..i];
        keys := keys + [key];
        if key !in units {
          units := units[key := UnitRow(codec.compress(unitData), Some(unit.name))];
        }
        assert us[i..][1..] == us[i + 1..];
        i := i + 1;
      }
      assert us[..i] == us;
    }

    /** The join-row loop of `insert_report`: one row per position, conflicts ignored. */
    method InsertLinkRows(reportId: nat, keys: seq<UnitKey>)
      modifies this`links
      ensures links == InsertLinks(old(links), reportId, keys, 0)
    {
      var idx := 0;
      while idx < |keys|
        invariant 0 <= idx <= |keys|
        invariant InsertLinks(links, reportId, keys[idx..], idx) == InsertLinks(old(links), reportId, keys, 0)
      {
        var link := Link(reportId, keys[idx], idx);
        if !LinkConflict(links, link) {
          links := links + [link];
        }
        assert keys[idx..][1..] == keys[idx + 1..];
        idx := idx + 1;
      }
    }

    /** `get_report` */
    method GetReport(owner: string, repo: string, commit: string, version: string)
      returns (res: Result<Option<ReportFile>, string>)
      modifies this`cache
      ensures (res, cache) == GetReportSpec(codec, State(), old(cache), owner, repo, commit, version)
    {
      var t := State();
      var found := FindReport(t, owner, repo, commit, version);
      if found.None? {
        return Ok(None);
      }
      var row := reports[found.value];
      var project := ProjectOf(projects, row.projectId).GetOr(ProjectRow(Project(0, "", "", None, None, None, None)));
      var commitV := Commit(row.gitCommit, row.timestamp);
      var decompressed := Decompress(codec, row.data);
      if decompressed.Err? {
        return Err("Failed to decompress report data");
      }
      var decoded := codec.decodeReport(decompressed.value);
      if decoded.Err? {
        return Err("Failed to decode report");
      }
      var report := decoded.value;
      var key := ReportKey(Lower(owner), Lower(repo), Lower(row.gitCommit), Lower(row.version));
      if key in cache {
        return Ok(Some(ReportFile(project, commitV, row.version, cache[key])));
      }
      var read := ReadUnitRows(UnitRows(t.units, t.links, found.value), report.units);
      if read.Err? {
        return Err(read.error);
      }
      var acc := read.value;
      var migrated := codec.migrate(report.(units := acc));
      if migrated.Err? {
        return Err(migrated.error);
      }
      cache := cache[key := migrated.value];
      return Ok(Some(ReportFile(project, commitV, row.version, migrated.value)));
    }

    /** The unit-reading loop of `get_report`. */
    method ReadUnitRows(rows: seq<Link>, start: seq<ReportUnit>) returns (res: Result<seq<ReportUnit>, string>)
      requires forall l :: l in rows ==> l.unitKey in units
      ensures res == ReadUnits(codec, units, rows, start)
    {
      var acc := start;
      var j := 0;
      while j < |rows|
        invariant 0 <= j <= |rows|
        invariant ReadUnits(codec, units, rows, start) == ReadUnits(codec, units, rows[j..], acc)
      {
        var link := rows[j];
        assert rows[j..][0] == link && rows[j..][1..] == rows[j + 1..];
        if link.unitIndex != |acc| {
          return Err("Report unit index mismatch");
        }
        if |link.unitKey| != 32 {
          return Err("could not convert slice to array");
        }
        var unitData := Decompress(codec, units[link.unitKey].data);
        if unitData.Err? {
          return Err("Failed to decompress report unit data");
        }
        if codec.hash(unitData.value) != link.unitKey {
          return Err("Report unit data hash mismatch");
        }
        var unit := codec.decodeUnit(unitData.value);
        if unit.Err? {
          return Err("Failed to decode report unit");
        }
        acc := acc + [unit.value];
        j := j + 1;
      }
      return Ok(acc);
    }

    /** `fixup_report_units`: back-fills the name of every unit row lacking one,
        stopping at the first row that does not decode (earlier updates stay). */
    method FixupReportUnits() returns (res: Result<(), string>)
      modifies this`units
      ensures units.Keys == old(units).Keys
      ensures forall k :: k in units ==> units[k].data == old(units)[k].data
      ensures forall k :: k in units && old(units)[k].name.Some? ==> units[k].name == old(units)[k].name
      ensures forall k :: k in units && units[k].name != old(units)[k].name
                ==> units[k].name == DecodedName(codec, units[k].data)
      ensures res.Ok? ==> forall k :: k in units ==>
                units[k].name.Some? && (old(units)[k].name.None? ==> units[k].name == DecodedName(codec, units[k].data))
      ensures res.Err? ==> exists k :: k in units && units[k].name.None? && DecodedName(codec, units[k].data).None?
    {
      var todo := set k | k in units && units[k].name.None?;
      while todo != {}
        invariant FixupInv(codec, old(units), units, todo)
        decreases |todo|
      {
        var k :| k in todo;
        var name := DecodedName(codec, units[k].data);
        if name.None? {
          FixupOutcome(codec, old(units), units, todo);
          assert k in units && units[k].name.None?;
          return Err("Failed to decode report unit");
        }
        FixupStep(codec, old(units), units, todo, k);
        units := units[k := units[k].(name := name)];
        todo := todo - {k};
      }
      FixupOutcome(codec, old(units), units, todo);
      return Ok(());
    }

    /** Capacity eviction: any entry may disappear. */
    method EvictCache(key: ReportKey)
      modifies this`cache
      ensures cache == old(cache) - {key}
    {
      cache := cache - {key};
    }
  }

  /** A row after the back-fill: named, and named after its data if it was not before. */
  predicate Backfilled(c: Codec, before: UnitRow, after: UnitRow) {
    after.name.Some? && (before.name.None? ==> after.name == DecodedName(c, after.data))
  }

  /** The back-fill loop's invariant: same keys and data, named rows kept, the
      rows still to do unnamed, the others back-filled. */
  ghost predicate FixupInv(c: Codec, orig: map<UnitKey, UnitRow>, cur: map<UnitKey, UnitRow>, todo: set<UnitKey>) {
    && cur.Keys == orig.Keys
    && todo <= cur.Keys
    && (forall k :: k in cur ==> cur[k].data == orig[k].data)
    && (forall k :: k in todo ==> cur[k].name.None?)
    && (forall k :: k in cur && orig[k].name.Some? ==> cur[k].name == orig[k].name)
    && (forall k :: k in cur && k !in todo ==> Backfilled(c, orig[k], cur[k]))
  }

  lemma FixupStep(c: Codec, orig: map<UnitKey, UnitRow>, cur: map<UnitKey, UnitRow>, todo: set<UnitKey>, k: UnitKey)
    requires FixupInv(c, orig, cur, todo) && k in todo && DecodedName(c, cur[k].data).Some?
    ensures FixupInv(c, orig, cur[k := cur[k].(name := DecodedName(c, cur[k].data))], todo - {k})
  {
  }

  lemma FixupOutcome(c: Codec, orig: map<UnitKey, UnitRow>, cur: map<UnitKey, UnitRow>, todo: set<UnitKey>)
    requires FixupInv(c, orig, cur, todo)
    ensures cur.Keys == orig.Keys
    ensures forall k :: k in cur ==> cur[k].data == orig[k].data
    ensures forall k :: k in cur && orig[k].name.Some? ==> cur[k].name == orig[k].name
    ensures forall k :: k in cur && cur[k].name != orig[k].name ==> cur[k].name == DecodedName(c, cur[k].data)
    ensures todo == {} ==> forall k :: k in cur ==>
              cur[k].name.Some? && (orig[k].name.None? ==> cur[k].name == DecodedName(c, cur[k].data))
  {
  }

  // ---------------------------------------------------------------------------
  // Properties of insert_report

  /** An existing project row is never modified; a new id appends one row. */
  lemma InsertProjectRows(ps: seq<Project>, p: Project)
    ensures var r := InsertProject(ps, p);
      && r[..|ps|] == ps
      && (ProjectIndex(ps, p.id).Some? ==> r == ps)
      && (ProjectIndex(ps, p.id).None? ==> r == ps + [ProjectRow(p)])
      && exists q :: q in r && q.id == p.id
  {
    var r := InsertProject(ps, p);
    match ProjectIndex(ps, p.id)
    case Some(i) => assert ps[i] in r;
    case None => assert r[|ps|] in r;
  }

  lemma InsertProjectValid(ps: seq<Project>, p: Project)
    requires ProjectIdsUnique(ps)
    ensures ProjectIdsUnique(InsertProject(ps, p))
  {
  }

  lemma UpsertReportValid(rs: seq<ReportRow>, pid: u64, version: string, commit: string, ts: int, data: Bytes)
    requires ReportRowsUnique(rs)
    ensures var (r, rid) := UpsertReport(rs, pid, version, commit, ts, data);
      && ReportRowsUnique(r)
      && |r| >= |rs| && rid < |r| && r[rid].projectId == pid
      && forall k :: 0 <= k < |r| ==> (k < |rs| && r[k].projectId == rs[k].projectId) || r[k].projectId == pid
  {
    match ReportRowIndex(rs, pid, version, commit)
    case Some(i) =>
      var r := rs[i := rs[i].(timestamp := ts)];
      forall a, b | 0 <= a < b < |r|
        ensures !SameReport(r[b], r[a].projectId, r[a].version, r[a].gitCommit)
      {
        assert !SameReport(rs[b], rs[a].projectId, rs[a].version, rs[a].gitCommit);
      }
    case None =>
  }

  lemma InsertUnitsDomain(c: Codec, table: map<UnitKey, UnitRow>, us: seq<ReportUnit>)
    ensures var r := InsertUnits(c, table, us);
      && (forall k :: k in table ==> k in r && r[k] == table[k])
      && (forall i :: 0 <= i < |us| ==> UnitKeyOf(c, us[i]) in r)
      && (forall k :: k in r ==> k in table || exists i :: 0 <= i < |us| && UnitKeyOf(c, us[i]) == k)
    decreases |us|
  {
    if us != [] {
      var t1 := InsertUnit(c, table, us[0]);
      InsertUnitsDomain(c, t1, us[1..]);
      var r := InsertUnits(c, table, us);
      forall i | 0 <= i < |us|
        ensures UnitKeyOf(c, us[i]) in r
      {
        if i > 0 {
          assert us[1..][i - 1] == us[i];
        }
      }
      forall k | k in r
        ensures k in table || exists i :: 0 <= i < |us| && UnitKeyOf(c, us[i]) == k
      {
        if k !in t1 {
          var i :| 0 <= i < |us[1..]| && UnitKeyOf(c, us[1..][i]) == k;
          assert us[i + 1] == us[1..][i];
        }
      }
    }
  }

  /** A row the insert adds holds the encoding of a unit with that key. */
  lemma InsertUnitsNewRows(c: Codec, table: map<UnitKey, UnitRow>, us: seq<ReportUnit>)
    ensures var r := InsertUnits(c, table, us);
      forall k :: k in r && k !in table ==>
        exists i :: 0 <= i < |us| && UnitKeyOf(c, us[i]) == k && r[k] == NewUnitRow(c, us[i])
    decreases |us|
  {
    if us != [] {
      var t1 := InsertUnit(c, table, us[0]);
      InsertUnitsNewRows(c, t1, us[1..]);
      var r := InsertUnits(c, table, us);
      forall k | k in r && k !in table
        ensures exists i :: 0 <= i < |us| && UnitKeyOf(c, us[i]) == k && r[k] == NewUnitRow(c, us[i])
      {
        if k !in t1 {
          var i :| 0 <= i < |us[1..]| && UnitKeyOf(c, us[1..][i]) == k && r[k] == NewUnitRow(c, us[1..][i]);
          assert us[i + 1] == us[1..][i];
        } else {
          InsertUnitsDomain(c, t1, us[1..]);
        }
      }
    }
  }

  lemma InsertLinkValid(ls: seq<Link>, l: Link)
    requires LinksUnique(ls)
    ensures LinksUnique(InsertLink(ls, l))
  {
  }

  /** InsertLinks only appends, and only rows of this report, at the given
      positions, with the given keys. */
  lemma InsertLinksShape(ls: seq<Link>, rid: nat, keys: seq<UnitKey>, start: nat)
    ensures var r := InsertLinks(ls, rid, keys, start);
      && |r| >= |ls| && r[..|ls|] == ls
      && forall j :: |ls| <= j < |r| ==>
           r[j].reportId == rid && r[j].unitKey in keys && start <= r[j].unitIndex < start + |keys|
    decreases |keys|
  {
    if keys != [] {
      var l1 := InsertLink(ls, Link(rid, keys[0], start));
      InsertLinksShape(l1, rid, keys[1..], start + 1);
      var r := InsertLinks(ls, rid, keys, start);
      assert r[..|l1|][..|ls|] == r[..|ls|];
      forall j | |ls| <= j < |r|
        ensures r[j].reportId == rid && r[j].unitKey in keys && start <= r[j].unitIndex < start + |keys|
      {
        if j < |l1| {
          assert r[j] == l1[j];
        } else {
          assert r[j].unitKey in keys[1..];
        }
      }
    }
  }

  lemma InsertLinksValid(ls: seq<Link>, rid: nat, keys: seq<UnitKey>, start: nat)
    requires LinksUnique(ls)
    ensures LinksUnique(InsertLinks(ls, rid, keys, start))
    decreases |keys|
  {
    if keys != [] {
      InsertLinkValid(ls, Link(rid, keys[0], start));
      InsertLinksValid(InsertLink(ls, Link(rid, keys[0], start)), rid, keys[1..], start + 1);
    }
  }

  lemma ReportsReferProjects(ps: seq<Project>, rs: seq<ReportRow>, ps': seq<Project>, rs': seq<ReportRow>, pid: u64)
    requires forall r :: r in rs ==> exists p :: p in ps && p.id == r.projectId
    requires |ps'| >= |ps| && ps'[..|ps|] == ps
    requires exists q :: q in ps' && q.id == pid
    requires forall k :: 0 <= k < |rs'| ==> (k < |rs| && rs'[k].projectId == rs[k].projectId) || rs'[k].projectId == pid
    ensures forall r :: r in rs' ==> exists p :: p in ps' && p.id == r.projectId
  {
    forall r | r in rs'
      ensures exists p :: p in ps' && p.id == r.projectId
    {
      var k :| 0 <= k < |rs'| && rs'[k] == r;
      if k < |rs| && r.projectId == rs[k].projectId {
        assert rs[k] in rs;
        var p :| p in ps && p.id == rs[k].projectId;
        var m :| 0 <= m < |ps| && ps[m] == p;
        assert ps'[..|ps|][m] == p;
        assert ps'[m] in ps';
      }
    }
  }

  lemma LinksReferTables(ls: seq<Link>, ls': seq<Link>, n: nat, n': nat,
                         units: map<UnitKey, UnitRow>, units': map<UnitKey, UnitRow>, rid: nat, keys: seq<UnitKey>)
    requires forall l :: l in ls ==> l.reportId < n && l.unitKey in units
    requires n <= n' && rid < n'
    requires forall k :: k in units ==> k in units'
    requires forall k :: k in keys ==> k in units'
    requires |ls'| >= |ls| && ls'[..|ls|] == ls
    requires forall j :: |ls| <= j < |ls'| ==> ls'[j].reportId == rid && ls'[j].unitKey in keys
    ensures forall l :: l in ls' ==> l.reportId < n' && l.unitKey in units'
  {
    forall l | l in ls'
      ensures l.reportId < n' && l.unitKey in units'
    {
      var j :| 0 <= j < |ls'| && ls'[j] == l;
      if j < |ls| {
        assert ls'[..|ls|][j] == ls[j];
        assert ls[j] in ls;
      }
    }
  }

  /** `insert_report` keeps every table constraint. */
  lemma InsertPreservesValid(c: Codec, t: Tables, file: ReportFile)
    requires TablesValid(t)
    ensures TablesValid(InsertSpec(c, t, file))
  {
    var t1 := InsertSpec(c, t, file);
    InsertKeepsUniqueness(c, t, file);
    InsertKeepsReportProjects(c, t, file);
    InsertKeepsLinkTargets(c, t, file);
  }

  lemma InsertKeepsUniqueness(c: Codec, t: Tables, file: ReportFile)
    requires ProjectIdsUnique(t.projects) && ReportRowsUnique(t.reports) && LinksUnique(t.links)
    ensures var t1 := InsertSpec(c, t, file);
      ProjectIdsUnique(t1.projects) && ReportRowsUnique(t1.reports) && LinksUnique(t1.links)
  {
    var data := c.compress(c.encodeReport(ReportBody(file.report)));
    var (reports, rid) := UpsertReport(t.reports, file.project.id, file.version, file.commit.sha,
                                       file.commit.timestamp, data);
    InsertProjectValid(t.projects, file.project);
    UpsertReportValid(t.reports, file.project.id, file.version, file.commit.sha, file.commit.timestamp, data);
    InsertLinksValid(t.links, rid, UnitKeys(c, file.report.units), 0);
  }

  lemma InsertKeepsReportProjects(c: Codec, t: Tables, file: ReportFile)
    requires ReportRowsUnique(t.reports)
    requires forall r :: r in t.reports ==> exists p :: p in t.projects && p.id == r.projectId
    ensures var t1 := InsertSpec(c, t, file);
      forall r :: r in t1.reports ==> exists p :: p in t1.projects && p.id == r.projectId
  {
    var data := c.compress(c.encodeReport(ReportBody(file.report)));
    var (reports, rid) := UpsertReport(t.reports, file.project.id, file.version, file.commit.sha,
                                       file.commit.timestamp, data);
    var projects := InsertProject(t.projects, file.project);
    assert InsertSpec(c, t, file).reports == reports && InsertSpec(c, t, file).projects == projects;
    InsertProjectRows(t.projects, file.project);
    UpsertReportValid(t.reports, file.project.id, file.version, file.commit.sha, file.commit.timestamp, data);
    ReportsReferProjects(t.projects, t.reports, projects, reports, file.project.id);
  }

  lemma InsertKeepsLinkTargets(c: Codec, t: Tables, file: ReportFile)
    requires ReportRowsUnique(t.reports)
    requires forall l :: l in t.links ==> l.reportId < |t.reports| && l.unitKey in t.units
    ensures var t1 := InsertSpec(c, t, file);
      forall l :: l in t1.links ==> l.reportId < |t1.reports| && l.unitKey in t1.units
  {
    var data := c.compress(c.encodeReport(ReportBody(file.report)));
    var (reports, rid) := UpsertReport(t.reports, file.project.id, file.version, file.commit.sha,
                                       file.commit.timestamp, data);
    var keys := UnitKeys(c, file.report.units);
    var units := InsertUnits(c, t.units, file.report.units);
    var links := InsertLinks(t.links, rid, keys, 0);
    assert InsertSpec(c, t, file).reports == reports;
    assert InsertSpec(c, t, file).units == units && InsertSpec(c, t, file).links == links;
    UpsertReportValid(t.reports, file.project.id, file.version, file.commit.sha, file.commit.timestamp, data);
    InsertLinksShape(t.links, rid, keys, 0);
    KeysInserted(c, t.units, file.report.units);
    LinksReferTables(t.links, links, |t.reports|, |reports|, t.units, units, rid, keys);
  }

  lemma KeysInserted(c: Codec, table: map<UnitKey, UnitRow>, us: seq<ReportUnit>)
    ensures var units := InsertUnits(c, table, us);
      && (forall k :: k in table ==> k in units)
      && (forall k :: k in UnitKeys(c, us) ==> k in units)
  {
    InsertUnitsDomain(c, table, us);
  }

  // ---------------------------------------------------------------------------
  // Re-insertion

  lemma UnitsAlreadyStored(c: Codec, table: map<UnitKey, UnitRow>, us: seq<ReportUnit>)
    requires forall i :: 0 <= i < |us| ==> UnitKeyOf(c, us[i]) in table
    ensures InsertUnits(c, table, us) == table
    decreases |us|
  {
    if us != [] {
      assert forall i :: 0 <= i < |us[1..]| ==> us[1..][i] == us[i + 1];
      UnitsAlreadyStored(c, table, us[1..]);
    }
  }

  lemma LinkConflictGrows(ls: seq<Link>, ls': seq<Link>, l: Link)
    requires LinkConflict(ls, l)
    requires |ls'| >= |ls| && ls'[..|ls|] == ls
    ensures LinkConflict(ls', l)
  {
    var j :| 0 <= j < |ls| && ls[j].reportId == l.reportId
      && (ls[j].unitIndex == l.unitIndex || ls[j].unitKey == l.unitKey);
    assert ls'[..|ls|][j] == ls'[j];
  }

  /** After the join-row loop every position conflicts with a row of the report. */
  lemma {:induction false} InsertLinksCovers(ls: seq<Link>, rid: nat, keys: seq<UnitKey>, start: nat)
    ensures forall i :: 0 <= i < |keys| ==>
      LinkConflict(InsertLinks(ls, rid, keys, start), Link(rid, keys[i], start + i))
    decreases |keys|
  {
    if keys != [] {
      var l0 := Link(rid, keys[0], start);
      var l1 := InsertLink(ls, l0);
      var r := InsertLinks(ls, rid, keys, start);
      InsertLinksCovers(l1, rid, keys[1..], start + 1);
      InsertLinksShape(l1, rid, keys[1..], start + 1);
      assert LinkConflict(l1, l0) by {
        if !LinkConflict(ls, l0) {
          assert l1[|ls|] == l0;
        }
      }
      LinkConflictGrows(l1, r, l0);
      forall i | 0 <= i < |keys|
        ensures LinkConflict(r, Link(rid, keys[i], start + i))
      {
        if i > 0 {
          assert keys[1..][i - 1] == keys[i];
        }
      }
    }
  }

  lemma {:induction false} LinksAlreadyStored(ls: seq<Link>, rid: nat, keys: seq<UnitKey>, start: nat)
    requires forall i :: 0 <= i < |keys| ==> LinkConflict(ls, Link(rid, keys[i], start + i))
    ensures InsertLinks(ls, rid, keys, start) == ls
    decreases |keys|
  {
    if keys != [] {
      assert forall i :: 0 <= i < |keys[1..]| ==> keys[1..][i] == keys[i + 1];
      LinksAlreadyStored(ls, rid, keys[1..], start + 1);
    }
  }

  /** A second insert of a project with the same id changes nothing. */
  lemma InsertProjectAgain(ps: seq<Project>, p: Project, p2: Project)
    requires p2.id == p.id
    ensures InsertProject(InsertProject(ps, p), p2) == InsertProject(ps, p)
  {
    var r := InsertProject(ps, p);
    InsertProjectRows(ps, p);
    var q :| q in r && q.id == p.id;
    var m :| 0 <= m < |r| && r[m] == q;
    var pred := (x: Project) => x.id == p2.id;
    assert pred(r[m]);
  }

  lemma UpsertFindsRow(rs: seq<ReportRow>, pid: u64, version: string, commit: string, ts: int, data: Bytes)
    ensures var (r, rid) := UpsertReport(rs, pid, version, commit, ts, data);
      ReportRowIndex(r, pid, version, commit) == Some(rid) && r[rid].timestamp == ts
  {
    var pred := (row: ReportRow) => SameReport(row, pid, version, commit);
    match ReportRowIndex(rs, pid, version, commit)
    case Some(i) =>
      var r := rs[i := rs[i].(timestamp := ts)];
      assert forall k :: 0 <= k < |r| ==> pred(r[k]) == pred(rs[k]);
      var fi := FirstIndex(r, pred);
      assert fi.Some?;
      assert fi.value == i;
    case None =>
      FirstIndexAppend(rs, ReportRow(pid, version, commit, ts, data), pred);
  }

  /** The report row matched by versions and commits equal up to case is the same row. */
  lemma ReportRowIndexIgnoresCase(rs: seq<ReportRow>, pid: u64, v1: string, c1: string, v2: string, c2: string)
    requires EqIgnoreCase(v2, v1) && EqIgnoreCase(c2, c1)
    ensures ReportRowIndex(rs, pid, v2, c2) == ReportRowIndex(rs, pid, v1, c1)
  {
    var p1 := (row: ReportRow) => SameReport(row, pid, v1, c1);
    var p2 := (row: ReportRow) => SameReport(row, pid, v2, c2);
    assert forall k :: 0 <= k < |rs| ==> p1(rs[k]) == p2(rs[k]);
    var i1 := FirstIndex(rs, p1);
    var i2 := FirstIndex(rs, p2);
    if i1.Some? {
      assert p2(rs[i1.value]);
      assert i2.Some? && p1(rs[i2.value]);
    }
  }

  /** Upserting again for the same project, version and commit (up to case) only
      re-times the row the first upsert produced. */
  lemma UpsertAgain(rs: seq<ReportRow>, pid: u64, v1: string, c1: string, ts1: int, d1: Bytes,
                    v2: string, c2: string, ts2: int, d2: Bytes)
    requires EqIgnoreCase(v2, v1) && EqIgnoreCase(c2, c1)
    ensures var (r1, rid) := UpsertReport(rs, pid, v1, c1, ts1, d1);
      && rid < |r1| && SameReport(r1[rid], pid, v1, c1)
      && UpsertReport(r1, pid, v2, c2, ts2, d2) == (r1[rid := r1[rid].(timestamp := ts2)], rid)
  {
    var (r1, rid) := UpsertReport(rs, pid, v1, c1, ts1, d1);
    UpsertFindsRow(rs, pid, v1, c1, ts1, d1);
    ReportRowIndexIgnoresCase(r1, pid, v1, c1, v2, c2);
  }

  lemma InsertUnitsAgain(c: Codec, table: map<UnitKey, UnitRow>, us: seq<ReportUnit>)
    ensures InsertUnits(c, InsertUnits(c, table, us), us) == InsertUnits(c, table, us)
  {
    InsertUnitsDomain(c, table, us);
    UnitsAlreadyStored(c, InsertUnits(c, table, us), us);
  }

  lemma InsertLinksAgain(ls: seq<Link>, rid: nat, keys: seq<UnitKey>)
    ensures InsertLinks(InsertLinks(ls, rid, keys, 0), rid, keys, 0) == InsertLinks(ls, rid, keys, 0)
  {
    InsertLinksCovers(ls, rid, keys, 0);
    LinksAlreadyStored(InsertLinks(ls, rid, keys, 0), rid, keys, 0);
  }

  /** The report row id `insert_report` links its units to. */
  function InsertedRowId(c: Codec, t: Tables, file: ReportFile): nat {
    UpsertReport(t.reports, file.project.id, file.version, file.commit.sha, file.commit.timestamp,
                 c.compress(c.encodeReport(ReportBody(file.report)))).1
  }

  lemma InsertSpecFields(c: Codec, t: Tables, file: ReportFile)
    ensures var t1 := InsertSpec(c, t, file);
      && t1.projects == InsertProject(t.projects, file.project)
      && t1.reports == UpsertReport(t.reports, file.project.id, file.version, file.commit.sha, file.commit.timestamp,
                                    c.compress(c.encodeReport(ReportBody(file.report)))).0
      && t1.units == InsertUnits(c, t.units, file.report.units)
      && t1.links == InsertLinks(t.links, InsertedRowId(c, t, file), UnitKeys(c, file.report.units), 0)
  {
  }

  /** Inserting the same file twice leaves the tables as inserting it once. */
  lemma InsertIdempotent(c: Codec, t: Tables, file: ReportFile)
    ensures InsertSpec(c, InsertSpec(c, t, file), file) == InsertSpec(c, t, file)
  {
    var t1 := InsertSpec(c, t, file);
    var t2 := InsertSpec(c, t1, file);
    var data := c.compress(c.encodeReport(ReportBody(file.report)));
    var pid, v, sha, ts := file.project.id, file.version, file.commit.sha, file.commit.timestamp;
    var rid := InsertedRowId(c, t, file);
    InsertSpecFields(c, t, file);
    InsertSpecFields(c, t1, file);
    InsertProjectAgain(t.projects, file.project, file.project);
    UpsertIdempotent(t.reports, pid, v, sha, ts, data);
    InsertUnitsAgain(c, t.units, file.report.units);
    InsertLinksAgain(t.links, rid, UnitKeys(c, file.report.units));
  }

  lemma UpsertIdempotent(rs: seq<ReportRow>, pid: u64, version: string, commit: string, ts: int, data: Bytes)
    ensures var (r1, rid) := UpsertReport(rs, pid, version, commit, ts, data);
      UpsertReport(r1, pid, version, commit, ts, data) == (r1, rid)
  {
    var (r1, rid) := UpsertReport(rs, pid, version, commit, ts, data);
    UpsertAgain(rs, pid, version, commit, ts, data, version, commit, ts, data);
    UpsertFindsRow(rs, pid, version, commit, ts, data);
    assert r1[rid := r1[rid].(timestamp := ts)] == r1;
  }

  /** Re-inserting a file for the same project, version and commit (the last two
      up to case) keeps the set of rows: only the matched report row's timestamp
      changes. Its stored body, and the project row, stay as they were. */
  lemma ReinsertRefreshesTimestamp(c: Codec, t: Tables, f1: ReportFile, f2: ReportFile)
    requires f2.project.id == f1.project.id
    requires EqIgnoreCase(f2.version, f1.version) && EqIgnoreCase(f2.commit.sha, f1.commit.sha)
    ensures var t1 := InsertSpec(c, t, f1);
      var t2 := InsertSpec(c, t1, f2);
      && t2.projects == t1.projects
      && exists rid :: 0 <= rid < |t1.reports|
           && SameReport(t1.reports[rid], f1.project.id, f1.version, f1.commit.sha)
           && t2.reports == t1.reports[rid := t1.reports[rid].(timestamp := f2.commit.timestamp)]
  {
    var data1 := c.compress(c.encodeReport(ReportBody(f1.report)));
    var data2 := c.compress(c.encodeReport(ReportBody(f2.report)));
    var (reports1, rid) := UpsertReport(t.reports, f1.project.id, f1.version, f1.commit.sha,
                                        f1.commit.timestamp, data1);
    InsertProjectAgain(t.projects, f1.project, f2.project);
    UpsertAgain(t.reports, f1.project.id, f1.version, f1.commit.sha, f1.commit.timestamp, data1,
                f2.version, f2.commit.sha, f2.commit.timestamp, data2);
    assert InsertSpec(c, t, f1).reports == reports1;
  }

  // ---------------------------------------------------------------------------
  // Reading

  /** A successful read returns one unit per row, in row order, each decoded from
      bytes that hash to the row's key, and every row carries the next index. */
  lemma {:induction false} ReadUnitsSound(c: Codec, units: map<UnitKey, UnitRow>, rows: seq<Link>, acc: seq<ReportUnit>)
    requires forall l :: l in rows ==> l.unitKey in units
    requires ReadUnits(c, units, rows, acc).Ok?
    ensures var us := ReadUnits(c, units, rows, acc).value;
      && |us| == |acc| + |rows| && us[..|acc|] == acc
      && forall j :: 0 <= j < |rows| ==>
           && rows[j].unitIndex == |acc| + j
           && |rows[j].unitKey| == 32
           && Decompress(c, units[rows[j].unitKey].data).Ok?
           && c.hash(Decompress(c, units[rows[j].unitKey].data).value) == rows[j].unitKey
           && c.decodeUnit(Decompress(c, units[rows[j].unitKey].data).value) == Ok(us[|acc| + j])
    decreases |rows|
  {
    if rows != [] {
      var l := rows[0];
      var d := Decompress(c, units[l.unitKey].data).value;
      var u := c.decodeUnit(d).value;
      assert forall l' :: l' in rows[1..] ==> l' in rows;
      ReadUnitsSound(c, units, rows[1..], acc + [u]);
      var us := ReadUnits(c, units, rows, acc).value;
      assert us[..|acc| + 1][..|acc|] == us[..|acc|];
      forall j | 0 <= j < |rows|
        ensures rows[j].unitIndex == |acc| + j
      {
        if j > 0 {
          assert rows[1..][j - 1] == rows[j];
        }
      }
      forall j | 0 <= j < |rows|
        ensures c.decodeUnit(Decompress(c, units[rows[j].unitKey].data).value) == Ok(us[|acc| + j])
      {
        if j > 0 {
          assert rows[1..][j - 1] == rows[j];
        }
      }
      forall j | 0 <= j < |rows|
        ensures |rows[j].unitKey| == 32 && Decompress(c, units[rows[j].unitKey].data).Ok?
                && c.hash(Decompress(c, units[rows[j].unitKey].data).value) == rows[j].unitKey
      {
        if j > 0 {
          assert rows[1..][j - 1] == rows[j];
        }
      }
    }
  }

  /** A stored unit whose bytes no longer hash to its key makes the read fail. */
  lemma CorruptUnitFailsRead(c: Codec, units: map<UnitKey, UnitRow>, rows: seq<Link>, acc: seq<ReportUnit>, j: nat)
    requires forall l :: l in rows ==> l.unitKey in units
    requires j < |rows|
    requires Decompress(c, units[rows[j].unitKey].data).Ok?
    requires c.hash(Decompress(c, units[rows[j].unitKey].data).value) != rows[j].unitKey
    ensures ReadUnits(c, units, rows, acc).Err?
  {
    if ReadUnits(c, units, rows, acc).Ok? {
      ReadUnitsSound(c, units, rows, acc);
    }
  }

  /** `get_report` finds nothing exactly when no row matches owner, repo, commit
      and version case-insensitively; the cache is then untouched. */
  lemma GetReportNone(c: Codec, t: Tables, cache: map<ReportKey, Report>,
                      owner: string, repo: string, commit: string, version: string)
    ensures var (res, cache') := GetReportSpec(c, t, cache, owner, repo, commit, version);
      (res == Ok(None) <==> forall i :: 0 <= i < |t.reports| ==> !RowMatches(t, t.reports[i], owner, repo, commit, version))
      && (res == Ok(None) ==> cache' == cache)
  {
    var found := FindReport(t, owner, repo, commit, version);
    if found.Some? {
      assert RowMatches(t, t.reports[found.value], owner, repo, commit, version);
    }
  }

  /** A found report whose lower-cased key is cached is served from the cache,
      without reading any unit, and the cache is left as it was. */
  lemma GetReportHitsCache(c: Codec, t: Tables, cache: map<ReportKey, Report>,
                           owner: string, repo: string, commit: string, version: string)
    requires ReportKey(Lower(owner), Lower(repo), Lower(commit), Lower(version)) in cache
    ensures var (res, cache') := GetReportSpec(c, t, cache, owner, repo, commit, version);
      && cache' == cache
      && (res.Ok? && res.value.Some? ==>
            res.value.value.report == cache[ReportKey(Lower(owner), Lower(repo), Lower(commit), Lower(version))])
  {
    var found := FindReport(t, owner, repo, commit, version);
    if found.Some? {
      var row := t.reports[found.value];
      assert RowMatches(t, row, owner, repo, commit, version);
      assert ReportKey(Lower(owner), Lower(repo), Lower(row.gitCommit), Lower(row.version))
          == ReportKey(Lower(owner), Lower(repo), Lower(commit), Lower(version));
    }
  }

  /** The key `insert_report` fills is the key a lookup with the file's own
      coordinates probes. */
  lemma InsertFillsLookupKey(file: ReportFile)
    ensures CacheKey(file) == ReportKey(Lower(file.project.owner), Lower(file.project.repo),
                                        Lower(file.commit.sha), Lower(file.version))
  {
  }

  // ---------------------------------------------------------------------------
  // Insert, then read

  /** The project lookup after `insert_report`: earlier rows are found as before,
      a new id finds the inserted row. */
  lemma ProjectOfInsert(ps: seq<Project>, p: Project, id: u64)
    ensures ProjectOf(InsertProject(ps, p), id) ==
      if ProjectOf(ps, id).Some? then ProjectOf(ps, id)
      else if id == p.id then Some(ProjectRow(p)) else None
  {
    if ProjectIndex(ps, p.id).None? {
      FirstIndexAppend(ps, ProjectRow(p), (q: Project) => q.id == id);
    }
  }

  /** A report not stored yet: no row answers its lookup, no row has its
      project, version and commit, and a stored project with its id has its
      owner and repo (up to case). */
  predicate FreshReport(t: Tables, file: ReportFile) {
    && FindReport(t, file.project.owner, file.project.repo, file.commit.sha, file.version).None?
    && ReportRowIndex(t.reports, file.project.id, file.version, file.commit.sha).None?
    && var p := ProjectOf(t.projects, file.project.id);
       p.Some? ==> EqIgnoreCase(p.value.owner, file.project.owner) && EqIgnoreCase(p.value.repo, file.project.repo)
  }

  /** The lookup with the file's own coordinates finds the appended row. */
  lemma InsertedReportFound(c: Codec, t: Tables, file: ReportFile)
    requires FreshReport(t, file)
    ensures var t1 := InsertSpec(c, t, file);
      && |t1.reports| == |t.reports| + 1
      && t1.reports[|t.reports|] == ReportRow(file.project.id, file.version, file.commit.sha, file.commit.timestamp,
                                              c.compress(c.encodeReport(ReportBody(file.report))))
      && FindReport(t1, file.project.owner, file.project.repo, file.commit.sha, file.version) == Some(|t.reports|)
  {
    var t1 := InsertSpec(c, t, file);
    var owner, repo, sha, version := file.project.owner, file.project.repo, file.commit.sha, file.version;
    var n := |t.reports|;
    assert t1.reports == t.reports + [t1.reports[n]];
    ProjectOfInsert(t.projects, file.project, file.project.id);
    assert RowMatches(t1, t1.reports[n], owner, repo, sha, version);
    forall k | 0 <= k < n
      ensures !RowMatches(t1, t1.reports[k], owner, repo, sha, version)
    {
      var row := t.reports[k];
      assert t1.reports[k] == row;
      assert !RowMatches(t, row, owner, repo, sha, version);
      assert !SameReport(row, file.project.id, version, sha);
      ProjectOfInsert(t.projects, file.project, row.projectId);
    }
  }

  /** A unit whose row holds (possibly compressed) its own encoding. */
  predicate UnitStored(c: Codec, units: map<UnitKey, UnitRow>, u: ReportUnit) {
    UnitKeyOf(c, u) in units && Decompress(c, units[UnitKeyOf(c, u)].data) == Ok(c.encodeUnit(u))
  }

  predicate DistinctKeys(c: Codec, us: seq<ReportUnit>) {
    forall i, j :: 0 <= i < j < |us| ==> UnitKeyOf(c, us[i]) != UnitKeyOf(c, us[j])
  }

  lemma UnitsStoredAfterInsert(c: Codec, table: map<UnitKey, UnitRow>, us: seq<ReportUnit>)
    requires FramesLawful(c) && DistinctKeys(c, us)
    requires forall i :: 0 <= i < |us| ==> UnitKeyOf(c, us[i]) !in table || UnitStored(c, table, us[i])
    ensures forall i :: 0 <= i < |us| ==> UnitStored(c, InsertUnits(c, table, us), us[i])
  {
    var r := InsertUnits(c, table, us);
    InsertUnitsDomain(c, table, us);
    InsertUnitsNewRows(c, table, us);
    forall i | 0 <= i < |us|
      ensures UnitStored(c, r, us[i])
    {
      var k := UnitKeyOf(c, us[i]);
      if k !in table {
        var j :| 0 <= j < |us| && UnitKeyOf(c, us[j]) == k && r[k] == NewUnitRow(c, us[j]);
        assert j == i;
        assert Decompress(c, c.compress(c.encodeUnit(us[i]))) == Ok(c.encodeUnit(us[i]));
      }
    }
  }

  /** The join rows of `keys` at consecutive positions from start. */
  function PositionedLinks(rid: nat, keys: seq<UnitKey>, start: nat): (ls: seq<Link>)
    ensures |ls| == |keys| && forall i :: 0 <= i < |keys| ==> ls[i] == Link(rid, keys[i], start + i)
    decreases |keys|
  {
    if keys == [] then [] else [Link(rid, keys[0], start)] + PositionedLinks(rid, keys[1..], start + 1)
  }

  /** Distinct keys for a report with no rows at these positions or keys are all
      linked, at their positions. */
  lemma {:induction false} FreshLinks(ls: seq<Link>, rid: nat, keys: seq<UnitKey>, start: nat)
    requires forall i, j :: 0 <= i < j < |keys| ==> keys[i] != keys[j]
    requires forall j :: 0 <= j < |ls| && ls[j].reportId == rid ==> ls[j].unitIndex < start && ls[j].unitKey !in keys
    ensures InsertLinks(ls, rid, keys, start) == ls + PositionedLinks(rid, keys, start)
    decreases |keys|
  {
    if keys != [] {
      var l0 := Link(rid, keys[0], start);
      var rest := PositionedLinks(rid, keys[1..], start + 1);
      FreshLinkAppended(ls, rid, keys, start);
      FreshLinks(ls + [l0], rid, keys[1..], start + 1);
      assert InsertLinks(ls, rid, keys, start) == InsertLinks(ls + [l0], rid, keys[1..], start + 1);
      assert PositionedLinks(rid, keys, start) == [l0] + rest;
      ConcatAssoc(ls, [l0], rest);
    }
  }

  /** One step of FreshLinks: the first key is linked, and the rest still meet
      the conditions one position further on. */
  lemma FreshLinkAppended(ls: seq<Link>, rid: nat, keys: seq<UnitKey>, start: nat)
    requires keys != []
    requires forall i, j :: 0 <= i < j < |keys| ==> keys[i] != keys[j]
    requires forall j :: 0 <= j < |ls| && ls[j].reportId == rid ==> ls[j].unitIndex < start && ls[j].unitKey !in keys
    ensures InsertLink(ls, Link(rid, keys[0], start)) == ls + [Link(rid, keys[0], start)]
    ensures var ls', keys' := ls + [Link(rid, keys[0], start)], keys[1..];
      && (forall i, j :: 0 <= i < j < |keys'| ==> keys'[i] != keys'[j])
      && (forall j :: 0 <= j < |ls'| && ls'[j].reportId == rid ==> ls'[j].unitIndex < start + 1 && ls'[j].unitKey !in keys')
  {
    var l0 := Link(rid, keys[0], start);
    assert keys[0] in keys;
    assert !LinkConflict(ls, l0);
    var ls', keys' := ls + [l0], keys[1..];
    forall j | 0 <= j < |ls'| && ls'[j].reportId == rid
      ensures ls'[j].unitIndex < start + 1 && ls'[j].unitKey !in keys'
    {
      if j < |ls| {
        assert ls'[j] == ls[j];
        assert forall k :: k in keys' ==> k in keys;
      } else {
        assert forall i :: 0 <= i < |keys'| ==> keys'[i] == keys[i + 1];
      }
    }
    forall i, j | 0 <= i < j < |keys'|
      ensures keys'[i] != keys'[j]
    {
      assert keys'[i] == keys[i + 1] && keys'[j] == keys[j + 1];
    }
  }

  lemma {:induction false} InsertByIndexAtEnd(ls: seq<Link>, l: Link)
    requires forall i :: 0 <= i < |ls| ==> ls[i].unitIndex <= l.unitIndex
    ensures InsertByIndex(ls, l) == ls + [l]
    decreases |ls|
  {
    if ls != [] {
      InsertByIndexAtEnd(ls[1..], l);
      assert [ls[0]] + (ls[1..] + [l]) == ls + [l];
    }
  }

  /** Rows already in index order come out of the sort unchanged. */
  lemma {:induction false} SortByIndexOfSorted(ls: seq<Link>)
    requires forall i, j :: 0 <= i < j < |ls| ==> ls[i].unitIndex <= ls[j].unitIndex
    ensures SortByIndex(ls) == ls
    decreases |ls|
  {
    if ls != [] {
      var init := ls[..|ls| - 1];
      SortByIndexOfSorted(init);
      InsertByIndexAtEnd(init, ls[|ls| - 1]);
      assert init + [ls[|ls| - 1]] == ls;
    }
  }

  /** The unit query of a report whose join rows are exactly `added`. */
  lemma UnitRowsOfFresh<V>(units: map<UnitKey, V>, rid: nat, before: seq<Link>, added: seq<Link>)
    requires forall j :: 0 <= j < |before| ==> before[j].reportId != rid
    requires forall j :: 0 <= j < |added| ==> added[j].reportId == rid && added[j].unitKey in units
    ensures UnitRows(units, before + added, rid) == SortByIndex(added)
  {
    var p := OwnedLink(units, rid);
    assert forall j :: 0 <= j < |before| ==> !p(before[j]);
    assert forall j :: 0 <= j < |added| ==> p(added[j]);
    FilterAppend(before, added, p);
    FilterNone(before, p);
    FilterAll(added, p);
    assert Filter(before + added, p) == [] + added;
    assert [] + added == added;
  }

  /** Reading rows that point, in order and at consecutive positions, at
      correctly stored units gives those units back. */
  lemma ReadStoredUnit(c: Codec, units: map<UnitKey, UnitRow>, rows: seq<Link>, acc: seq<ReportUnit>, u: ReportUnit)
    requires HashLawful(c) && MessagesLawful(c)
    requires rows != [] && rows[0].unitKey == UnitKeyOf(c, u) && rows[0].unitIndex == |acc|
    requires UnitStored(c, units, u)
    requires forall l :: l in rows ==> l.unitKey in units
    ensures ReadUnits(c, units, rows, acc) == ReadUnits(c, units, rows[1..], acc + [u])
  {
    assert |rows[0].unitKey| == 32;
    assert c.decodeUnit(c.encodeUnit(u)) == Ok(u);
  }

  lemma {:induction false} ReadPositioned(c: Codec, units: map<UnitKey, UnitRow>, rows: seq<Link>,
                                          us: seq<ReportUnit>, acc: seq<ReportUnit>)
    requires HashLawful(c) && MessagesLawful(c)
    requires |rows| == |us|
    requires forall i :: 0 <= i < |rows| ==> rows[i].unitKey == UnitKeyOf(c, us[i]) && rows[i].unitIndex == |acc| + i
    requires forall i :: 0 <= i < |us| ==> UnitStored(c, units, us[i])
    requires forall l :: l in rows ==> l.unitKey in units
    ensures ReadUnits(c, units, rows, acc) == Ok(acc + us)
    decreases |rows|
  {
    if rows == [] {
      assert us == [] && acc + us == acc;
    } else {
      var u := us[0];
      ReadStoredUnit(c, units, rows, acc, u);
      var rows', us', acc' := rows[1..], us[1..], acc + [u];
      forall i | 0 <= i < |rows'|
        ensures rows'[i].unitKey == UnitKeyOf(c, us'[i]) && rows'[i].unitIndex == |acc'| + i
      {
        assert rows'[i] == rows[i + 1] && us'[i] == us[i + 1];
      }
      forall i | 0 <= i < |us'|
        ensures UnitStored(c, units, us'[i])
      {
        assert us'[i] == us[i + 1];
      }
      forall l | l in rows'
        ensures l.unitKey in units
      {
        assert l in rows;
      }
      ReadPositioned(c, units, rows', us', acc');
      assert us == [u] + us';
      assert acc' + us' == acc + us;
    }
  }

  /** A new report's join rows: one per unit, at its position. */
  lemma InsertedLinks(c: Codec, t: Tables, file: ReportFile)
    requires ReportRowIndex(t.reports, file.project.id, file.version, file.commit.sha).None?
    requires forall l :: l in t.links ==> l.reportId < |t.reports|
    requires DistinctKeys(c, file.report.units)
    ensures InsertSpec(c, t, file).links == t.links + PositionedLinks(|t.reports|, UnitKeys(c, file.report.units), 0)
  {
    var us := file.report.units;
    var rid := |t.reports|;
    var keys := UnitKeys(c, us);
    assert InsertSpec(c, t, file).links == InsertLinks(t.links, rid, keys, 0);
    forall j | 0 <= j < |t.links|
      ensures t.links[j].reportId != rid
    {
      assert t.links[j] in t.links;
    }
    forall i, j | 0 <= i < j < |keys|
      ensures keys[i] != keys[j]
    {
      assert keys[i] == UnitKeyOf(c, us[i]) && keys[j] == UnitKeyOf(c, us[j]);
    }
    FreshLinks(t.links, rid, keys, 0);
  }

  lemma InsertedUnitsStored(c: Codec, t: Tables, file: ReportFile)
    requires FramesLawful(c) && DistinctKeys(c, file.report.units)
    requires forall u :: u in file.report.units ==> UnitKeyOf(c, u) !in t.units || UnitStored(c, t.units, u)
    ensures forall i :: 0 <= i < |file.report.units| ==>
      UnitStored(c, InsertSpec(c, t, file).units, file.report.units[i])
  {
    var us := file.report.units;
    assert InsertSpec(c, t, file).units == InsertUnits(c, t.units, us);
    forall i | 0 <= i < |us|
      ensures UnitKeyOf(c, us[i]) !in t.units || UnitStored(c, t.units, us[i])
    {
      assert us[i] in us;
    }
    UnitsStoredAfterInsert(c, t.units, us);
  }

  /** The unit query of a new report returns its join rows in position order. */
  /** The unit query of a report whose rows were appended after those of
      earlier reports returns them, in position order. */
  lemma AddedUnitRows<V>(before: seq<Link>, added: seq<Link>, units: map<UnitKey, V>, rid: nat)
    requires forall l :: l in before ==> l.reportId < rid
    requires forall j :: 0 <= j < |added| ==> added[j].reportId == rid && added[j].unitKey in units
    requires forall i, j :: 0 <= i < j < |added| ==> added[i].unitIndex <= added[j].unitIndex
    ensures UnitRows(units, before + added, rid) == added
  {
    forall j | 0 <= j < |before|
      ensures before[j].reportId != rid
    {
      assert before[j] in before;
    }
    UnitRowsOfFresh(units, rid, before, added);
    SortByIndexOfSorted(added);
  }

  /** Units stored under their keys, linked at consecutive positions after the
      rows of earlier reports, are read back in order. */
  lemma StoredUnitsRead(c: Codec, units: map<UnitKey, UnitRow>, before: seq<Link>, rid: nat, us: seq<ReportUnit>)
    requires HashLawful(c) && MessagesLawful(c)
    requires forall l :: l in before ==> l.reportId < rid
    requires forall i :: 0 <= i < |us| ==> UnitStored(c, units, us[i])
    ensures ReadUnits(c, units, UnitRows(units, before + PositionedLinks(rid, UnitKeys(c, us), 0), rid), []) == Ok(us)
  {
    PositionedRows(c, units, before, rid, us);
    PositionedReads(c, units, rid, us);
  }

  /** The join rows of stored units, at consecutive positions, read back as the units. */
  lemma PositionedReads(c: Codec, units: map<UnitKey, UnitRow>, rid: nat, us: seq<ReportUnit>)
    requires HashLawful(c) && MessagesLawful(c)
    requires forall i :: 0 <= i < |us| ==> UnitStored(c, units, us[i])
    ensures var added := PositionedLinks(rid, UnitKeys(c, us), 0);
      && (forall l :: l in added ==> l.unitKey in units)
      && ReadUnits(c, units, added, []) == Ok(us)
  {
    var added := PositionedLinks(rid, UnitKeys(c, us), 0);
    var none: seq<ReportUnit> := [];
    forall i | 0 <= i < |added|
      ensures added[i].unitKey == UnitKeyOf(c, us[i]) && added[i].unitIndex == |none| + i
    {
    }
    forall l | l in added
      ensures l.unitKey in units
    {
      var i :| 0 <= i < |added| && added[i] == l;
      assert UnitStored(c, units, us[i]);
    }
    ReadPositioned(c, units, added, us, none);
    assert none + us == us;
  }

  lemma PositionedRows(c: Codec, units: map<UnitKey, UnitRow>, before: seq<Link>, rid: nat, us: seq<ReportUnit>)
    requires forall l :: l in before ==> l.reportId < rid
    requires forall i :: 0 <= i < |us| ==> UnitKeyOf(c, us[i]) in units
    ensures var added := PositionedLinks(rid, UnitKeys(c, us), 0);
      UnitRows(units, before + added, rid) == added
  {
    var added := PositionedLinks(rid, UnitKeys(c, us), 0);
    forall j | 0 <= j < |added|
      ensures added[j].reportId == rid && added[j].unitKey in units
    {
      assert added[j].unitKey == UnitKeyOf(c, us[j]);
    }
    AddedUnitRows(before, added, units, rid);
  }

  /** The stored report read back in a later session (after the cache no longer
      holds it) is the inserted report after migration. */
  lemma InsertThenRead(c: Codec, t: Tables, cache: map<ReportKey, Report>, file: ReportFile)
    requires Lawful(c) && FreshReport(t, file)
    requires forall l :: l in t.links ==> l.reportId < |t.reports|
    requires DistinctKeys(c, file.report.units)
    requires forall u :: u in file.report.units ==> UnitKeyOf(c, u) !in t.units || UnitStored(c, t.units, u)
    requires CacheKey(file) !in cache
    ensures var t1 := InsertSpec(c, t, file);
      var (res, cache') := GetReportSpec(c, t1, cache, file.project.owner, file.project.repo, file.commit.sha, file.version);
      && ProjectOf(t1.projects, file.project.id).Some?
      && match c.migrate(file.report)
         case Ok(r) =>
           && res == Ok(Some(ReportFile(ProjectOf(t1.projects, file.project.id).value, file.commit, file.version, r)))
           && cache' == cache[CacheKey(file) := r]
         case Err(e) => res == Err(e) && cache' == cache
  {
    var t1 := InsertSpec(c, t, file);
    InsertedReportFound(c, t, file);
    ProjectOfInsert(t.projects, file.project, file.project.id);
    InsertedBodyReads(c, file.report);
    assert ReadUnits(c, t1.units, UnitRows(t1.units, t1.links, |t.reports|), []) == Ok(file.report.units) by {
      InsertedLinks(c, t, file);
      InsertedUnitsStored(c, t, file);
      StoredUnitsRead(c, t1.units, t.links, |t.reports|, file.report.units);
    }
  }

  /** A unit listed twice gets one join row: the second position conflicts on
      the key and is skipped, so a later unit keeps its own position. */
  lemma RepeatedKeyLinkedOnce(ls: seq<Link>, rid: nat, k: UnitKey, k2: UnitKey)
    requires forall j :: 0 <= j < |ls| ==> ls[j].reportId != rid
    requires k != k2
    ensures InsertLinks(ls, rid, [k, k], 0) == ls + [Link(rid, k, 0)]
    ensures InsertLinks(ls, rid, [k, k, k2], 0) == ls + [Link(rid, k, 0), Link(rid, k2, 2)]
  {
    var l0 := Link(rid, k, 0);
    var ls1 := ls + [l0];
    FirstLinkAdded(ls, l0);
    RepeatLinkSkipped(ls, l0, Link(rid, k, 1));
    assert [k, k][1..] == [k];
    assert [k][1..] == [];
    assert InsertLinks(ls, rid, [k, k], 0) == InsertLinks(ls1, rid, [k], 1);
    assert InsertLinks(ls1, rid, [k], 1) == InsertLinks(ls1, rid, [], 2) == ls1;
    assert [k, k, k2][1..] == [k, k2];
    assert [k, k2][1..] == [k2];
    assert InsertLinks(ls, rid, [k, k, k2], 0) == InsertLinks(ls1, rid, [k, k2], 1);
    assert InsertLinks(ls1, rid, [k, k2], 1) == InsertLinks(ls1, rid, [k2], 2);
    var l2 := Link(rid, k2, 2);
    OtherLinkAdded(ls, l0, l2);
    assert [k2][1..] == [];
    assert InsertLinks(ls1, rid, [k2], 2) == InsertLinks(ls1 + [l2], rid, [], 3) == ls1 + [l2];
    ConcatAssoc(ls, [l0], [l2]);
  }

  lemma FirstLinkAdded(ls: seq<Link>, l: Link)
    requires forall j :: 0 <= j < |ls| ==> ls[j].reportId != l.reportId
    ensures InsertLink(ls, l) == ls + [l]
  {
  }

  lemma RepeatLinkSkipped(ls: seq<Link>, l: Link, again: Link)
    requires again.reportId == l.reportId && again.unitKey == l.unitKey
    ensures InsertLink(ls + [l], again) == ls + [l]
  {
    assert (ls + [l])[|ls|] == l;
  }

  lemma OtherLinkAdded(ls: seq<Link>, l: Link, other: Link)
    requires forall j :: 0 <= j < |ls| ==> ls[j].reportId != l.reportId
    requires other.reportId == l.reportId && other.unitKey != l.unitKey && other.unitIndex != l.unitIndex
    ensures InsertLink(ls + [l], other) == ls + [l] + [other]
  {
    var ls1 := ls + [l];
    forall j | 0 <= j < |ls1|
      ensures !(ls1[j].reportId == other.reportId && (ls1[j].unitIndex == other.unitIndex || ls1[j].unitKey == other.unitKey))
    {
      if j < |ls| {
        assert ls1[j] == ls[j];
      }
    }
  }

  /** And so a report whose units are u, u, v is stored with a gap in its unit
      positions, and reading it back fails. */
  lemma RepeatedUnitBreaksRead(c: Codec, units: map<UnitKey, UnitRow>, before: seq<Link>, rid: nat, k: UnitKey, k2: UnitKey)
    requires forall l :: l in before ==> l.reportId < rid
    requires k != k2 && k in units && k2 in units
    ensures ReadUnits(c, units, UnitRows(units, InsertLinks(before, rid, [k, k, k2], 0), rid), []).Err?
  {
    forall j | 0 <= j < |before|
      ensures before[j].reportId != rid
    {
      assert before[j] in before;
    }
    RepeatedKeyLinkedOnce(before, rid, k, k2);
    var added := [Link(rid, k, 0), Link(rid, k2, 2)];
    AddedUnitRows(before, added, units, rid);
    IndexGapFailsRead(c, units, added, [], 1);
  }

  /** A row whose position is not the next one makes the read fail. */
  lemma IndexGapFailsRead(c: Codec, units: map<UnitKey, UnitRow>, rows: seq<Link>, acc: seq<ReportUnit>, j: nat)
    requires forall l :: l in rows ==> l.unitKey in units
    requires j < |rows| && rows[j].unitIndex != |acc| + j
    ensures ReadUnits(c, units, rows, acc).Err?
  {
    if ReadUnits(c, units, rows, acc).Ok? {
      ReadUnitsSound(c, units, rows, acc);
    }
  }

  /** The stored report body reads back as the body. */
  lemma InsertedBodyReads(c: Codec, r: Report)
    requires FramesLawful(c) && MessagesLawful(c)
    ensures var d := c.encodeReport(ReportBody(r));
      Decompress(c, c.compress(d)) == Ok(d) && c.decodeReport(d) == Ok(ReportBody(r))
  {
    assert Decompress(c, c.compress(c.encodeReport(ReportBody(r)))) == Ok(c.encodeReport(ReportBody(r)));
  }

  /** Right after `insert_report` the cache holds the report under the key its
      own lookup probes, so the read returns the inserted report itself,
      unmigrated, and reads no unit rows. */
  lemma InsertThenReadCached(c: Codec, t: Tables, cache: map<ReportKey, Report>, file: ReportFile)
    requires Lawful(c) && FreshReport(t, file)
    ensures var t1 := InsertSpec(c, t, file);
      var cache1 := cache[CacheKey(file) := file.report];
      && ProjectOf(t1.projects, file.project.id).Some?
      && GetReportSpec(c, t1, cache1, file.project.owner, file.project.repo, file.commit.sha, file.version)
         == (Ok(Some(ReportFile(ProjectOf(t1.projects, file.project.id).value, file.commit, file.version, file.report))),
             cache1)
  {
    InsertedReportFound(c, t, file);
    ProjectOfInsert(t.projects, file.project, file.project.id);
    InsertedBodyReads(c, file.report);
  }
}
