/** The Go implementation's database layer (database/reports.go,
    database/projects.go): the same four tables as the Rust store, with exact
    (case-sensitive) report identity, an all-or-nothing insert transaction, and
    no report cache. */
module GoStore {
  import opened Wrappers
  import opened Ints
  import opened Seqs
  import opened ReportData
  import opened GoSerialized
  import Store

  type Link = Store.Link

  datatype Project = Project(id: i64, owner: string, name: string)
  datatype Commit = Commit(sha: string, timestamp: int)
  datatype ReportFile = ReportFile(project: Project, version: string, commit: Commit, report: Report)

  datatype ProjectRow = ProjectRow(owner: string, name: string, createdAt: int, updatedAt: int)
  datatype ReportRow = ReportRow(projectId: i64, version: string, gitCommit: string, timestamp: int, data: Bytes)
  datatype Tables = Tables(projects: map<i64, ProjectRow>, reports: seq<ReportRow>,
                           units: map<Bytes, Bytes>, links: seq<Link>)

  /** The error the SQL driver reports for a failed statement; its text is the
      driver's and is not modelled. */
  const DB_ERROR: string := "database error"

  // ---------------------------------------------------------------------------
  // UpsertProject

  /** `INSERT INTO projects ... ON CONFLICT(id) DO UPDATE SET owner, name`:
      a new id gets a row stamped now; an existing one gets owner and name
      overwritten and keeps its timestamps; no other row changes. */
  function UpsertProject(ps: map<i64, ProjectRow>, p: Project, now: int): (r: map<i64, ProjectRow>)
    ensures r.Keys == ps.Keys + {p.id}
    ensures r[p.id].owner == p.owner && r[p.id].name == p.name
    ensures p.id in ps ==> r[p.id].createdAt == ps[p.id].createdAt && r[p.id].updatedAt == ps[p.id].updatedAt
    ensures p.id !in ps ==> r[p.id].createdAt == now && r[p.id].updatedAt == now
    ensures forall id :: id in ps && id != p.id ==> r[id] == ps[id]
  {
    if p.id in ps then ps[p.id := ps[p.id].(owner := p.owner, name := p.name)]
    else ps[p.id := ProjectRow(p.owner, p.name, now, now)]
  }

  /** Upserting the same project twice is upserting it once. */
  lemma UpsertProjectIdempotent(ps: map<i64, ProjectRow>, p: Project, now: int, later: int)
    ensures UpsertProject(UpsertProject(ps, p, now), p, later) == UpsertProject(ps, p, now)
  {
  }

  // ---------------------------------------------------------------------------
  // InsertReport

  /** The `reports` uniqueness on exact (project_id, version, git_commit). */
  predicate SameRow(row: ReportRow, pid: i64, version: string, commit: string) {
    row.projectId == pid && row.version == version && row.gitCommit == commit
  }

  function RowIndex(rs: seq<ReportRow>, pid: i64, version: string, commit: string): Option<nat> {
    FirstIndex(rs, (row: ReportRow) => SameRow(row, pid, version, commit))
  }

  /** `INSERT INTO reports ... ON CONFLICT DO UPDATE SET timestamp RETURNING id` */
  function UpsertReport(rs: seq<ReportRow>, pid: i64, version: string, commit: string, ts: int, data: Bytes)
    : (seq<ReportRow>, nat)
  {
    match RowIndex(rs, pid, version, commit)
    case Some(i) => (rs[i := rs[i].(timestamp := ts)], i)
    case None => (rs + [ReportRow(pid, version, commit, ts, data)], |rs|)
  }

  /** `INSERT INTO report_units ... ON CONFLICT(id) DO NOTHING` */
  function InsertUnit(units: map<Bytes, Bytes>, u: SerializedUnit): map<Bytes, Bytes> {
    if u.key in units then units else units[u.key := u.data]
  }

  function InsertUnits(units: map<Bytes, Bytes>, su: seq<SerializedUnit>): map<Bytes, Bytes>
    decreases |su|
  {
    if su == [] then units else InsertUnits(InsertUnit(units, su[0]), su[1..])
  }

  function Keys(su: seq<SerializedUnit>): (ks: seq<Bytes>)
    ensures |ks| == |su| && forall i :: 0 <= i < |su| ==> ks[i] == su[i].key
  {
    seq(|su|, i requires 0 <= i < |su| => su[i].key)
  }

  /** A join row that would repeat a (report_id, report_unit_id) pair. */
  predicate LinkConflict(ls: seq<Link>, l: Link) {
    exists j :: 0 <= j < |ls| && ls[j].reportId == l.reportId && ls[j].unitKey == l.unitKey
  }

  /** `INSERT INTO report_report_units ... ON CONFLICT (report_id, report_unit_id) DO NOTHING` */
  function InsertLink(ls: seq<Link>, l: Link): seq<Link> {
    if LinkConflict(ls, l) then ls else ls + [l]
  }

  function InsertLinks(ls: seq<Link>, rid: nat, keys: seq<Bytes>, start: nat): seq<Link>
    decreases |keys|
  {
    if keys == [] then ls else InsertLinks(InsertLink(ls, Store.Link(rid, keys[0], start)), rid, keys[1..], start + 1)
  }

  /** The tables after the transaction commits, given the serialized report. */
  function InsertSpec(t: Tables, s: SerializedReport, file: ReportFile, now: int): Tables {
    var (reports, rid) := UpsertReport(t.reports, file.project.id, file.version, file.commit.sha,
                                       file.commit.timestamp, s.data);
    Tables(UpsertProject(t.projects, file.project, now), reports, InsertUnits(t.units, s.units),
           InsertLinks(t.links, rid, Keys(s.units), 0))
  }

  /** The transaction's statements, in order: begin, the project upsert, one
      insert per unit, the report upsert, one insert per join row, commit. A
      fault at any of them rolls the transaction back. */
  predicate Faulted(failAt: Option<nat>, n: nat) {
    failAt.Some? && failAt.value < 2 * n + 4
  }

  // ---------------------------------------------------------------------------
  // Reading

  /** The join rows the unit query returns, in `unit_index` order. */
  function UnitRows(t: Tables, rid: nat): (rows: seq<Link>)
    ensures forall l :: l in rows ==> l.unitKey in t.units && l.reportId == rid
  {
    Store.UnitRows(t.units, t.links, rid)
  }

  predicate KeysWellFormed(rows: seq<Link>) {
    forall j :: 0 <= j < |rows| ==> |rows[j].unitKey| == 32
  }

  function StoredUnits(units: map<Bytes, Bytes>, rows: seq<Link>): (su: seq<SerializedUnit>)
    requires forall l :: l in rows ==> l.unitKey in units
    ensures |su| == |rows| && forall j :: 0 <= j < |rows| ==> su[j] == SerializedUnit(rows[j].unitKey, units[rows[j].unitKey])
  {
    seq(|rows|, j requires 0 <= j < |rows| => SerializedUnit(rows[j].unitKey, units[rows[j].unitKey]))
  }

  /** `GetReport`: the report row joined with its project, its units in index
      order with every key checked for length, then deserialized. */
  function GetReportSpec(g: GoCodec, t: Tables, pid: i64, version: string, sha: string)
    : Result<Option<ReportFile>, string>
  {
    match RowIndex(t.reports, pid, version, sha)
    case None => Ok(None)
    case Some(i) =>
      if pid !in t.projects then Ok(None)
      else
        var rows := UnitRows(t, i);
        if !KeysWellFormed(rows) then Err("invalid key length")
        else
          match DeserializeSpec(g, SerializedReport(t.reports[i].data, StoredUnits(t.units, rows)))
          case Err(e) => Err(e)
          case Ok(r) =>
            var p := t.projects[pid];
            Ok(Some(ReportFile(Project(pid, p.owner, p.name), version, Commit(sha, t.reports[i].timestamp), r)))
  }

  class DB {
    const codec: GoCodec
    var projects: map<i64, ProjectRow>
    var reports: seq<ReportRow>
    var units: map<Bytes, Bytes>
    var links: seq<Link>

    function State(): Tables
      reads this
    {
      Tables(projects, reports, units, links)
    }

    constructor(codec: GoCodec)
      ensures this.codec == codec && State() == Tables(map[], [], map[], [])
    {
      this.codec := codec;
      projects := map[];
      reports := [];
      units := map[];
      links := [];
    }

    /** `InsertReport`: serialize, then one transaction; `failAt` names the
        statement at which the driver reports an error, if any. Any error leaves
        every table as it was. */
    method InsertReport(file: ReportFile, now: int, failAt: Option<nat>) returns (err: Option<string>)
      modifies this
      ensures err.None? <==> SerializeSpec(codec, file.report).Ok? && !Faulted(failAt, |file.report.units|)
      ensures err.None? ==> State() == InsertSpec(old(State()), SerializeSpec(codec, file.report).value, file, now)
      ensures err.Some? ==> State() == old(State())
    {
      var serialized := Serialize(codec, file.report);
      if serialized.Err? {
        return Some(serialized.error);
      }
      SerializeUnitsShape(codec, file.report.units);
      var t := Transaction(serialized.value, file, now, failAt);
      if t.None? {
        return Some(DB_ERROR);
      }
      projects, reports, units, links := t.value.projects, t.value.reports, t.value.units, t.value.links;
      return None;
    }

    /** The statements between begin and commit, on the transaction's view of
        the tables; None when one of them fails. */
    method Transaction(s: SerializedReport, file: ReportFile, now: int, failAt: Option<nat>) returns (r: Option<Tables>)
      ensures r.None? <==> Faulted(failAt, |s.units|)
      ensures r.Some? ==> r.value == InsertSpec(State(), s, file, now)
    {
      var n := |s.units|;
      if failAt == Some(0) || failAt == Some(1) {
        return None;
      }
      var ps := UpsertProject(projects, file.project, now);
      var us := InsertUnitRows(s.units, failAt);
      if us.None? {
        return None;
      }
      if failAt == Some(n + 2) {
        return None;
      }
      var (rs, rid) := UpsertReport(reports, file.project.id, file.version, file.commit.sha,
                                    file.commit.timestamp, s.data);
      var ls := InsertLinkRows(rid, s.units, failAt);
      if ls.None? {
        return None;
      }
      if failAt == Some(2 * n + 3) {
        return None;
      }
      return Some(Tables(ps, rs, us.value, ls.value));
    }

    /** The unit loop, statements 2 .. n+1, on the transaction's view of the table. */
    method InsertUnitRows(su: seq<SerializedUnit>, failAt: Option<nat>) returns (r: Option<map<Bytes, Bytes>>)
      ensures r.None? <==> failAt.Some? && 2 <= failAt.value < |su| + 2
      ensures r.Some? ==> r.value == InsertUnits(units, su)
    {
      var us := units;
      var i := 0;
      while i < |su|
        invariant 0 <= i <= |su|
        invariant InsertUnits(us, su[i..]) == InsertUnits(units, su)
        invariant !(failAt.Some? && 2 <= failAt.value < i + 2)
      {
        if failAt == Some(i + 2) {
          return None;
        }
        assert su[i..][1..] == su[i + 1..];
        us := InsertUnit(us, su[i]);
        i := i + 1;
      }
      return Some(us);
    }

    /** The join-row loop, statements n+3 .. 2n+2. */
    method InsertLinkRows(rid: nat, su: seq<SerializedUnit>, failAt: Option<nat>) returns (r: Option<seq<Link>>)
      ensures r.None? <==> failAt.Some? && |su| + 3 <= failAt.value < 2 * |su| + 3
      ensures r.Some? ==> r.value == InsertLinks(links, rid, Keys(su), 0)
    {
      var keys := Keys(su);
      var ls := links;
      var idx := 0;
      while idx < |su|
        invariant 0 <= idx <= |su|
        invariant InsertLinks(ls, rid, keys[idx..], idx) == InsertLinks(links, rid, keys, 0)
        invariant !(failAt.Some? && |su| + 3 <= failAt.value < |su| + 3 + idx)
      {
        if failAt == Some(|su| + 3 + idx) {
          return None;
        }
        assert keys[idx..][1..] == keys[idx + 1..];
        ls := InsertLink(ls, Store.Link(rid, su[idx].key, idx));
        idx := idx + 1;
      }
      return Some(ls);
    }

    /** `ReportExists`: a row with exactly this project id, version and commit. */
    function ReportExists(pid: i64, version: string, sha: string): (b: bool)
      reads this
      ensures b <==> exists i :: 0 <= i < |reports| && SameRow(reports[i], pid, version, sha)
    {
      RowIndex(reports, pid, version, sha).Some?
    }

    /** `GetReport` */
    method GetReport(pid: i64, version: string, sha: string) returns (res: Result<Option<ReportFile>, string>)
      ensures res == GetReportSpec(codec, State(), pid, version, sha)
    {
      var found := RowIndex(reports, pid, version, sha);
      if found.None? || pid !in projects {
        return Ok(None);
      }
      var row := reports[found.value];
      var rows := UnitRows(State(), found.value);
      var su := CollectUnits(rows);
      if su.None? {
        return Err("invalid key length");
      }
      var report := Deserialize(codec, SerializedReport(row.data, su.value));
      if report.Err? {
        return Err(report.error);
      }
      var p := projects[pid];
      return Ok(Some(ReportFile(Project(pid, p.owner, p.name), version, Commit(sha, row.timestamp), report.value)));
    }

    /** The row loop of `GetReport`: checks each key's length and collects the units. */
    method CollectUnits(rows: seq<Link>) returns (r: Option<seq<SerializedUnit>>)
      requires forall l :: l in rows ==> l.unitKey in units
      ensures r.None? <==> !KeysWellFormed(rows)
      ensures r.Some? ==> r.value == StoredUnits(units, rows)
    {
      var su: seq<SerializedUnit> := [];
      var j := 0;
      while j < |rows|
        invariant 0 <= j <= |rows|
        invariant su == StoredUnits(units, rows[..j])
        invariant KeysWellFormed(rows[..j])
      {
        assert rows[j] in rows;
        if |rows[j].unitKey| != 32 {
          return None;
        }
        su := su + [SerializedUnit(rows[j].unitKey, units[rows[j].unitKey])];
        assert rows[..j + 1] == rows[..j] + [rows[j]];
        j := j + 1;
      }
      assert rows[..j] == rows;
      return Some(su);
    }
  }

  // ---------------------------------------------------------------------------
  // Properties of InsertReport

  /** Unit rows are insert-if-absent: existing keys keep their blob, every key
      is present afterwards, and a new key holds the blob of its first unit. */
  lemma {:induction false} InsertUnitsKeeps(units: map<Bytes, Bytes>, su: seq<SerializedUnit>)
    ensures var r := InsertUnits(units, su);
      && (forall k :: k in units ==> k in r && r[k] == units[k])
      && (forall i :: 0 <= i < |su| ==> su[i].key in r)
      && (forall k :: k in r ==> k in units || exists i :: 0 <= i < |su| && su[i].key == k)
    decreases |su|
  {
    if su != [] {
      InsertUnitsKeeps(InsertUnit(units, su[0]), su[1..]);
      var r := InsertUnits(units, su);
      forall i | 0 < i < |su|
        ensures su[i].key in r
      {
        assert su[1..][i - 1] == su[i];
      }
      forall k | k in r && k !in units
        ensures exists i :: 0 <= i < |su| && su[i].key == k
      {
        if k != su[0].key {
          var i :| 0 <= i < |su[1..]| && su[1..][i].key == k;
          assert su[i + 1] == su[1..][i];
        }
      }
    }
  }

  /** A new key holds the blob of its first unit. */
  lemma {:induction false} InsertUnitsFirstBlob(units: map<Bytes, Bytes>, su: seq<SerializedUnit>, i: nat)
    requires i < |su| && su[i].key !in units
    requires forall j :: 0 <= j < i ==> su[j].key != su[i].key
    ensures su[i].key in InsertUnits(units, su) && InsertUnits(units, su)[su[i].key] == su[i].data
    decreases |su|
  {
    var u0 := su[0];
    InsertUnitsKeeps(units, su);
    InsertUnitsKeeps(InsertUnit(units, u0), su[1..]);
    if i > 0 {
      assert su[1..][i - 1] == su[i];
      InsertUnitsFirstBlob(InsertUnit(units, u0), su[1..], i - 1);
    }
  }

  /** A conflicting report row keeps its data and identity; only its timestamp
      changes, and no row is added. */
  lemma UpsertExisting(rs: seq<ReportRow>, pid: i64, version: string, commit: string, ts: int, data: Bytes, i: nat)
    requires i < |rs| && SameRow(rs[i], pid, version, commit)
    requires forall j :: 0 <= j < |rs| && j != i ==> !SameRow(rs[j], pid, version, commit)
    ensures UpsertReport(rs, pid, version, commit, ts, data) == (rs[i := rs[i].(timestamp := ts)], i)
  {
    var p := (row: ReportRow) => SameRow(row, pid, version, commit);
    assert p(rs[i]);
    assert RowIndex(rs, pid, version, commit) == Some(i);
  }

  /** Exact identity: a version or commit differing only in letter case is a
      different report. */
  lemma CaseMatters(rs: seq<ReportRow>, pid: i64, commit: string, ts: int, data: Bytes)
    requires forall j :: 0 <= j < |rs| ==> !SameRow(rs[j], pid, "main", commit) && !SameRow(rs[j], pid, "Main", commit)
    ensures var (r1, _) := UpsertReport(rs, pid, "main", commit, ts, data);
      UpsertReport(r1, pid, "Main", commit, ts, data).1 == |rs| + 1
  {
    var (r1, id1) := UpsertReport(rs, pid, "main", commit, ts, data);
    assert RowIndex(rs, pid, "main", commit).None?;
    assert r1 == rs + [ReportRow(pid, "main", commit, ts, data)];
    assert "main" != "Main" by { assert "main"[0] != "Main"[0]; }
    assert forall j :: 0 <= j < |r1| ==> !SameRow(r1[j], pid, "Main", commit);
  }

  /** A key repeated within one report gets a join row at its first position only. */
  lemma RepeatedKeyKeepsFirstIndex(ls: seq<Link>, rid: nat, k: Bytes, k2: Bytes)
    requires forall j :: 0 <= j < |ls| ==> ls[j].reportId != rid
    requires k != k2
    ensures InsertLinks(ls, rid, [k, k, k2], 0) == ls + [Store.Link(rid, k, 0), Store.Link(rid, k2, 2)]
  {
    var l0, l1, l2 := Store.Link(rid, k, 0), Store.Link(rid, k, 1), Store.Link(rid, k2, 2);
    assert !LinkConflict(ls, l0);
    var ls1 := ls + [l0];
    assert ls1[|ls|] == l0;
    assert LinkConflict(ls1, l1);
    assert InsertLinks(ls, rid, [k, k, k2], 0) == InsertLinks(ls1, rid, [k2], 2);
    assert forall j :: 0 <= j < |ls1| && ls1[j].reportId == rid ==> ls1[j] == l0;
    assert !LinkConflict(ls1, l2);
    assert InsertLinks(ls1, rid, [k2], 2) == InsertLinks(ls1 + [l2], rid, [], 3);
    ConcatAssoc(ls, [l0], [l2]);
  }

  /** Distinct keys of a report with no join rows yet are all linked, at their positions. */
  lemma {:induction false} FreshLinks(ls: seq<Link>, rid: nat, keys: seq<Bytes>, start: nat)
    requires forall i, j :: 0 <= i < j < |keys| ==> keys[i] != keys[j]
    requires forall j :: 0 <= j < |ls| ==> ls[j].reportId != rid || ls[j].unitKey !in keys
    ensures InsertLinks(ls, rid, keys, start) == ls + Store.PositionedLinks(rid, keys, start)
    decreases |keys|
  {
    if keys != [] {
      var l0 := Store.Link(rid, keys[0], start);
      var rest := Store.PositionedLinks(rid, keys[1..], start + 1);
      FreshLinkAppended(ls, rid, keys);
      FreshLinks(ls + [l0], rid, keys[1..], start + 1);
      assert InsertLinks(ls, rid, keys, start) == InsertLinks(ls + [l0], rid, keys[1..], start + 1);
      assert Store.PositionedLinks(rid, keys, start) == [l0] + rest;
      ConcatAssoc(ls, [l0], rest);
    }
  }

  lemma FreshLinkAppended(ls: seq<Link>, rid: nat, keys: seq<Bytes>)
    requires keys != []
    requires forall i, j :: 0 <= i < j < |keys| ==> keys[i] != keys[j]
    requires forall j :: 0 <= j < |ls| ==> ls[j].reportId != rid || ls[j].unitKey !in keys
    ensures forall start: nat :: InsertLink(ls, Store.Link(rid, keys[0], start)) == ls + [Store.Link(rid, keys[0], start)]
    ensures var keys' := keys[1..];
      && (forall i, j :: 0 <= i < j < |keys'| ==> keys'[i] != keys'[j])
      && forall start: nat :: var ls' := ls + [Store.Link(rid, keys[0], start)];
           forall j :: 0 <= j < |ls'| ==> ls'[j].reportId != rid || ls'[j].unitKey !in keys'
  {
    assert keys[0] in keys;
    var keys' := keys[1..];
    assert forall k :: k in keys' ==> k in keys;
    assert keys[0] !in keys' by {
      forall i | 0 <= i < |keys'|
        ensures keys'[i] != keys[0]
      {
        assert keys'[i] == keys[i + 1];
      }
    }
    forall i, j | 0 <= i < j < |keys'|
      ensures keys'[i] != keys'[j]
    {
      assert keys'[i] == keys[i + 1] && keys'[j] == keys[j + 1];
    }
  }

  // ---------------------------------------------------------------------------
  // Properties of reading

  /** No exactly matching row, or no project row: nothing found. */
  lemma GetReportNone(g: GoCodec, t: Tables, pid: i64, version: string, sha: string)
    ensures GetReportSpec(g, t, pid, version, sha) == Ok(None) <==>
      (forall i :: 0 <= i < |t.reports| ==> !SameRow(t.reports[i], pid, version, sha)) || pid !in t.projects
  {
  }

  /** A found report carries the queried project id, version and commit, and
      its stored owner, name and timestamp. */
  lemma GetReportCarriesQuery(g: GoCodec, t: Tables, pid: i64, version: string, sha: string)
    requires GetReportSpec(g, t, pid, version, sha).Ok? && GetReportSpec(g, t, pid, version, sha).value.Some?
    ensures var f := GetReportSpec(g, t, pid, version, sha).value.value;
      && f.project.id == pid && f.version == version && f.commit.sha == sha
      && pid in t.projects && f.project.owner == t.projects[pid].owner && f.project.name == t.projects[pid].name
      && exists i :: 0 <= i < |t.reports| && SameRow(t.reports[i], pid, version, sha)
                     && f.commit.timestamp == t.reports[i].timestamp
  {
    var i := RowIndex(t.reports, pid, version, sha).value;
    assert SameRow(t.reports[i], pid, version, sha);
  }

  /** The unit query returns exactly the report's join rows whose unit exists,
      in index order. */
  lemma UnitRowsOrdered(t: Tables, rid: nat)
    ensures Store.IndexOrdered(UnitRows(t, rid))
    ensures forall l :: l in UnitRows(t, rid) <==> l in t.links && l.reportId == rid && l.unitKey in t.units
  {
    var p := Store.OwnedLink(t.units, rid);
    Store.SortByIndexOrdered(Filter(t.links, p));
    forall l | l in t.links && l.reportId == rid && l.unitKey in t.units
      ensures l in Filter(t.links, p)
    {
      var j :| 0 <= j < |t.links| && t.links[j] == l;
      assert p(t.links[j]);
    }
    forall l | l in Filter(t.links, p)
      ensures l in t.links && p(l)
    {
      var j :| 0 <= j < |Filter(t.links, p)| && Filter(t.links, p)[j] == l;
    }
  }

  /** A joined unit whose key is not 32 bytes fails the whole read with
      "invalid key length", before anything is deserialized. */
  lemma BadKeyFails(g: GoCodec, t: Tables, pid: i64, version: string, sha: string, l: Link)
    requires RowIndex(t.reports, pid, version, sha).Some? && pid in t.projects
    requires l in t.links && l.reportId == RowIndex(t.reports, pid, version, sha).value
    requires l.unitKey in t.units && |l.unitKey| != 32
    ensures GetReportSpec(g, t, pid, version, sha) == Err("invalid key length")
  {
    var i := RowIndex(t.reports, pid, version, sha).value;
    UnitRowsOrdered(t, i);
    var rows := UnitRows(t, i);
    var j :| 0 <= j < |rows| && rows[j] == l;
  }

  // ---------------------------------------------------------------------------
  // Insert, then read back

  predicate DistinctKeys(su: seq<SerializedUnit>) {
    forall i, j :: 0 <= i < j < |su| ==> su[i].key != su[j].key
  }

  /** Each unit's key is either new or already holds this very blob. */
  predicate BlobsAgree(units: map<Bytes, Bytes>, su: seq<SerializedUnit>) {
    forall i :: 0 <= i < |su| && su[i].key in units ==> units[su[i].key] == su[i].data
  }

  /** A report not stored before, inserted and then read by its exact identity,
      comes back as its measures and units, with the project's owner and name. */
  lemma InsertThenRead(g: GoCodec, t: Tables, file: ReportFile, now: int)
    requires Lawful(g) && SerializeSpec(g, file.report).Ok?
    requires RowIndex(t.reports, file.project.id, file.version, file.commit.sha).None?
    requires forall l :: l in t.links ==> l.reportId < |t.reports|
    requires DistinctKeys(SerializeSpec(g, file.report).value.units)
    requires BlobsAgree(t.units, SerializeSpec(g, file.report).value.units)
    ensures var t1 := InsertSpec(t, SerializeSpec(g, file.report).value, file, now);
      GetReportSpec(g, t1, file.project.id, file.version, file.commit.sha)
        == Ok(Some(ReportFile(file.project, file.version, file.commit,
                              Report(file.report.measures, file.report.units, 0, []))))
  {
    var s := SerializeSpec(g, file.report).value;
    var t1 := InsertSpec(t, s, file, now);
    var rid := |t.reports|;
    InsertedRowFound(t, s, file, now);
    InsertedUnitsRead(t, s, file, now);
    var rows := UnitRows(t1, rid);
    assert KeysWellFormed(rows) by {
      SerializeUnitsShape(g, file.report.units);
    }
    SerializeRoundTrip(g, file.report);
    assert SerializedReport(s.data, s.units) == s;
    FoundReport(g, t1, file.project.id, file.version, file.commit.sha, rid,
                Report(file.report.measures, file.report.units, 0, []));
    assert Project(file.project.id, file.project.owner, file.project.name) == file.project;
    assert Commit(file.commit.sha, file.commit.timestamp) == file.commit;
  }

  /** The read of a found, well-formed row, stated once. */
  lemma FoundReport(g: GoCodec, t: Tables, pid: i64, version: string, sha: string, i: nat, r: Report)
    requires RowIndex(t.reports, pid, version, sha) == Some(i) && pid in t.projects
    requires KeysWellFormed(UnitRows(t, i))
    requires DeserializeSpec(g, SerializedReport(t.reports[i].data, StoredUnits(t.units, UnitRows(t, i)))) == Ok(r)
    ensures GetReportSpec(g, t, pid, version, sha)
      == Ok(Some(ReportFile(Project(pid, t.projects[pid].owner, t.projects[pid].name), version,
                            Commit(sha, t.reports[i].timestamp), r)))
  {
  }

  /** The inserted report's unit query yields exactly its own units, in order. */
  lemma InsertedUnitsRead(t: Tables, s: SerializedReport, file: ReportFile, now: int)
    requires RowIndex(t.reports, file.project.id, file.version, file.commit.sha).None?
    requires forall l :: l in t.links ==> l.reportId < |t.reports|
    requires DistinctKeys(s.units) && BlobsAgree(t.units, s.units)
    ensures var t1 := InsertSpec(t, s, file, now);
      var rows := UnitRows(t1, |t.reports|);
      rows == Store.PositionedLinks(|t.reports|, Keys(s.units), 0) && StoredUnits(t1.units, rows) == s.units
  {
    var rid := |t.reports|;
    var added := Store.PositionedLinks(rid, Keys(s.units), 0);
    var units1 := InsertUnits(t.units, s.units);
    InsertedLinks(t, s, file, now);
    InsertedBlobs(t.units, s.units);
    Store.AddedUnitRows(t.links, added, units1, rid);
    StoredOfPositioned(units1, s.units, rid);
  }

  lemma StoredOfPositioned(units: map<Bytes, Bytes>, su: seq<SerializedUnit>, rid: nat)
    requires forall j :: 0 <= j < |su| ==> su[j].key in units && units[su[j].key] == su[j].data
    ensures var added := Store.PositionedLinks(rid, Keys(su), 0);
      (forall l :: l in added ==> l.unitKey in units) && StoredUnits(units, added) == su
  {
    var added := Store.PositionedLinks(rid, Keys(su), 0);
    assert forall l :: l in added ==> l.unitKey in units;
    var r := StoredUnits(units, added);
    assert forall j :: 0 <= j < |su| ==> r[j] == su[j];
  }

  lemma InsertedRowFound(t: Tables, s: SerializedReport, file: ReportFile, now: int)
    requires RowIndex(t.reports, file.project.id, file.version, file.commit.sha).None?
    ensures var t1 := InsertSpec(t, s, file, now);
      && t1.reports == t.reports + [ReportRow(file.project.id, file.version, file.commit.sha, file.commit.timestamp, s.data)]
      && RowIndex(t1.reports, file.project.id, file.version, file.commit.sha) == Some(|t.reports|)
      && file.project.id in t1.projects
      && t1.projects[file.project.id].owner == file.project.owner
      && t1.projects[file.project.id].name == file.project.name
  {
    var row := ReportRow(file.project.id, file.version, file.commit.sha, file.commit.timestamp, s.data);
    FirstIndexAppend(t.reports, row, (r: ReportRow) => SameRow(r, file.project.id, file.version, file.commit.sha));
  }

  lemma InsertedLinks(t: Tables, s: SerializedReport, file: ReportFile, now: int)
    requires RowIndex(t.reports, file.project.id, file.version, file.commit.sha).None?
    requires forall l :: l in t.links ==> l.reportId < |t.reports|
    requires DistinctKeys(s.units)
    ensures InsertSpec(t, s, file, now).links == t.links + Store.PositionedLinks(|t.reports|, Keys(s.units), 0)
  {
    var rid := |t.reports|;
    var keys := Keys(s.units);
    forall j | 0 <= j < |t.links|
      ensures t.links[j].reportId != rid
    {
      assert t.links[j] in t.links;
    }
    FreshLinks(t.links, rid, keys, 0);
  }

  lemma InsertedUnitsPresent(units: map<Bytes, Bytes>, su: seq<SerializedUnit>)
    ensures forall j :: 0 <= j < |su| ==> su[j].key in InsertUnits(units, su)
  {
    InsertUnitsKeeps(units, su);
  }

  /** After the insert every key of the report holds the report's own blob. */
  lemma InsertedBlobs(units: map<Bytes, Bytes>, su: seq<SerializedUnit>)
    requires DistinctKeys(su) && BlobsAgree(units, su)
    ensures forall j :: 0 <= j < |su| ==>
      su[j].key in InsertUnits(units, su) && InsertUnits(units, su)[su[j].key] == su[j].data
  {
    InsertUnitsKeeps(units, su);
    forall j | 0 <= j < |su|
      ensures InsertUnits(units, su)[su[j].key] == su[j].data
    {
      if su[j].key !in units {
        InsertUnitsFirstBlob(units, su, j);
      }
    }
  }

  /** A unit listed twice is read back once: the second position gets no join
      row, and the read does not check positions. */
  lemma RepeatedUnitReadOnce(g: GoCodec, t: Tables, rid: nat, a: SerializedUnit, b: SerializedUnit)
    requires forall l :: l in t.links ==> l.reportId < rid
    requires a.key != b.key && a.key in t.units && b.key in t.units
    ensures var t1 := t.(links := InsertLinks(t.links, rid, [a.key, a.key, b.key], 0));
      StoredUnits(t1.units, UnitRows(t1, rid)) == [SerializedUnit(a.key, t.units[a.key]), SerializedUnit(b.key, t.units[b.key])]
  {
    forall j | 0 <= j < |t.links|
      ensures t.links[j].reportId != rid
    {
      assert t.links[j] in t.links;
    }
    RepeatedKeyKeepsFirstIndex(t.links, rid, a.key, b.key);
    var added := [Store.Link(rid, a.key, 0), Store.Link(rid, b.key, 2)];
    Store.AddedUnitRows(t.links, added, t.units, rid);
  }
}
