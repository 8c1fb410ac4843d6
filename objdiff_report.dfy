/** Fetching the reports of one workflow run (objdiff/report.go): the run's
    artifacts are filtered by name, each one's archive is scanned for its
    report entry, and the reports found are returned sorted by version.
    The GitHub listing and the downloads are inputs; DEFLATE, protojson,
    encoding/json and protobuf decoding are function parameters. */
module ObjdiffReport {
  import opened Wrappers
  import opened Ints
  import opened Text
  import opened ArtifactNames
  import Z = ZipStream
  import L = ObjdiffLegacy

  type Bytes = seq<byte>

  // ---------------------------------------------------------------------------
  // Artifact names

  const REPORT_SUFFIX: string := "_report"

  /** `artifactNameRegex`, `^([A-z0-9_\-]+)_report$`: the version group when
      the whole name matches. */
  function ArtifactVersion(name: string): (v: Option<string>)
    ensures v.Some? ==> v.value != [] && VersionChars(v.value) && name == v.value + REPORT_SUFFIX
  {
    SuffixGroup(name, REPORT_SUFFIX)
  }

  /** Every name the regex accepts is found, with its group as the version. */
  lemma ArtifactVersionOf(p: string)
    requires p != [] && VersionChars(p)
    ensures ArtifactVersion(p + REPORT_SUFFIX) == Some(p)
  {
    SuffixGroupOf(p, REPORT_SUFFIX);
  }

  /** A plain version. */
  lemma ArtifactNameExamples()
    ensures ArtifactVersion("GALE01_report") == Some("GALE01")
  {
    ArtifactVersionOf("GALE01");
    assert "GALE01" + REPORT_SUFFIX == "GALE01_report";
  }

  /** The group is greedy: a version may itself end in "_report". */
  lemma ArtifactNameGreedy(p: string)
    requires p != [] && VersionChars(p)
    ensures ArtifactVersion(p + REPORT_SUFFIX + REPORT_SUFFIX) == Some(p + REPORT_SUFFIX)
  {
    VersionCharsAppend(p, REPORT_SUFFIX);
    ArtifactVersionOf(p + REPORT_SUFFIX);
  }

  /** `A-z` admits brackets, the caret and the backtick. */
  lemma ArtifactNamePunctuation()
    ensures ArtifactVersion("[a]^`_report") == Some("[a]^`")
  {
    ArtifactVersionOf("[a]^`");
    assert "[a]^`" + REPORT_SUFFIX == "[a]^`_report";
  }

  /** An empty version, a dot, or anything after "_report" is refused. */
  lemma ArtifactNameRefused()
    ensures ArtifactVersion("_report") == None
    ensures ArtifactVersion("us.v1_report") == None
    ensures ArtifactVersion("us_report.zip") == None
  {
    assert !VersionChars("us.v1") by {
      assert "us.v1"[1..][1..] == ".v1";
    }
    assert "us.v1_report"[..5] == "us.v1";
    assert "us_report.zip"[6..][0] == 'o';
  }

  // ---------------------------------------------------------------------------
  // Decoding a report entry

  /** The codecs the entry dispatch calls: protojson, encoding/json of the
      legacy schema, and protobuf. */
  datatype Codec = Codec(
    protojson: Bytes -> Result<L.Report, string>,
    legacyJson: Bytes -> Result<L.LegacyReport, string>,
    protobuf: Bytes -> Result<L.Report, string>)

  /** How `FetchReportFiles` and `findReportFile` fail. */
  datatype FetchError =
    | ListFailed(msg: string)          // listing the run's artifacts
    | DownloadFailed(msg: string)      // download URL, request or transfer
    | NextEntryFailed(zip: Z.ZipError) // "failed to get next entry"
    | ReadFailed(zip: Z.ZipError)      // "failed to read report file" (reading)
    | ParseFailed(msg: string)         // "failed to read report file" (JSON)
    | UnmarshalFailed(msg: string)     // the protobuf error, unwrapped

  /** `parseJson`: protojson first; on its failure the legacy schema,
      converted; when both fail, protojson's error. */
  function ParseJsonSpec(c: Codec, data: Bytes): Result<L.Report, string> {
    match c.protojson(data)
    case Ok(r) => Ok(r)
    case Err(e) =>
      match c.legacyJson(data)
      case Ok(legacy) => Ok(L.ConvertSpec(legacy))
      case Err(_) => Err(e)
  }

  method ParseJson(c: Codec, data: Bytes) returns (r: Result<L.Report, string>)
    ensures r == ParseJsonSpec(c, data)
  {
    var p := c.protojson(data);
    if p.Ok? {
      return p;
    }
    var legacy := c.legacyJson(data);
    if legacy.Err? {
      return Err(p.error);
    }
    var converted := L.Convert(legacy.value);
    return Ok(converted);
  }

  /** A protojson report wins; the legacy schema is consulted only when
      protojson fails, and then only its success replaces the error. */
  lemma ParseJsonFallback(c: Codec, data: Bytes)
    ensures c.protojson(data).Ok? ==> ParseJsonSpec(c, data) == c.protojson(data)
    ensures c.protojson(data).Err? && c.legacyJson(data).Ok? ==>
              ParseJsonSpec(c, data) == Ok(L.ConvertSpec(c.legacyJson(data).value))
    ensures c.protojson(data).Err? && c.legacyJson(data).Err? ==>
              ParseJsonSpec(c, data) == Err(c.protojson(data).error)
    ensures ParseJsonSpec(c, data).Err? <==> c.protojson(data).Err? && c.legacyJson(data).Err?
  {
  }

  /** `strings.HasSuffix` of an entry name (bytes) and an ASCII suffix. */
  predicate HasSuffix(name: Bytes, suffix: string) {
    |suffix| <= |name| && forall i :: 0 <= i < |suffix| ==> name[|name| - |suffix| + i] as int == suffix[i] as int
  }

  datatype Kind = Json | Proto | Other

  /** Which decoder an entry name selects; "report.json" is checked first. */
  function KindOf(name: Bytes): (k: Kind)
    ensures k == Json <==> HasSuffix(name, "report.json")
    ensures k == Proto <==> !HasSuffix(name, "report.json") && (HasSuffix(name, "report.binpb") || HasSuffix(name, "report.pb"))
  {
    if HasSuffix(name, "report.json") then Json
    else if HasSuffix(name, "report.binpb") || HasSuffix(name, "report.pb") then Proto
    else Other
  }

  /** The outcome of one entry: None when its name selects no decoder. */
  function DecodeSpec(c: Codec, name: Bytes, data: Bytes): Option<Result<L.Report, FetchError>> {
    match KindOf(name)
    case Json =>
      var r := ParseJsonSpec(c, data);
      Some(if r.Ok? then Ok(r.value) else Err(ParseFailed(r.error)))
    case Proto =>
      var r := c.protobuf(data);
      Some(if r.Ok? then Ok(r.value) else Err(UnmarshalFailed(r.error)))
    case Other => None
  }

  method Decode(c: Codec, name: Bytes, data: Bytes) returns (d: Option<Result<L.Report, FetchError>>)
    ensures d == DecodeSpec(c, name, data)
  {
    var kind := KindOf(name);
    if kind == Json {
      var r := ParseJson(c, data);
      d := Some(if r.Ok? then Ok(r.value) else Err(ParseFailed(r.error)));
    } else if kind == Proto {
      var r := c.protobuf(data);
      d := Some(if r.Ok? then Ok(r.value) else Err(UnmarshalFailed(r.error)));
    } else {
      d := None;
    }
  }

  // ---------------------------------------------------------------------------
  // Scanning an archive

  /** One round of `findReportFile`'s loop: the scan ends with a result, or
      continues from a reader state with less input left. Only the bare
      io.EOF that `Next` returns at a central-directory signature ends the
      scan with no report; every other error of `Next`, a wrapped io.EOF
      included, is the scan's error. */
  datatype Step = Done(result: Result<Option<L.Report>, FetchError>) | Continue(next: Z.ReaderState)

  function FindStep(inflate: Z.Inflater, c: Codec, st: Z.ReaderState): (s: Step)
    ensures s.Continue? ==> |s.next.rest| < |st.rest|
  {
    var (st1, entry) := Z.NextSpec(inflate, st);
    if entry.Err? then
      Done(if entry.error == Z.EOF then Ok(None) else Err(NextEntryFailed(entry.error)))
    else
      Z.NextOkAdvances(inflate, st);
      var (st2, data) := Z.Contents(inflate, st1);
      Z.ContentsShrinks(inflate, st1);
      if data.Err? then Done(Err(ReadFailed(data.error)))
      else
        match DecodeSpec(c, entry.value.header.name, data.value)
        case None => Continue(st2)
        case Some(r) => Done(if r.Ok? then Ok(Some(r.value)) else Err(r.error))
  }

  /** `findReportFile` from a reader state: entries in archive order, the
      first whose name selects a decoder decides the outcome. */
  function FindSpec(inflate: Z.Inflater, c: Codec, st: Z.ReaderState): Result<Option<L.Report>, FetchError>
    decreases |st.rest|
  {
    match FindStep(inflate, c, st)
    case Done(r) => r
    case Continue(next) => FindSpec(inflate, c, next)
  }

  function FindReport(inflate: Z.Inflater, c: Codec, body: Bytes): Result<Option<L.Report>, FetchError> {
    FindSpec(inflate, c, Z.ReaderState(body, false, None, false))
  }

  /** `findReportFile` over a downloaded archive. */
  method FindReportFile(inflate: Z.Inflater, c: Codec, body: Bytes) returns (res: Result<Option<L.Report>, FetchError>)
    ensures res == FindReport(inflate, c, body)
  {
    var zr := new Z.Reader(body, inflate);
    var out: Option<Result<Option<L.Report>, FetchError>> := None;
    while out.None?
      invariant zr.inflate == inflate
      invariant out.None? ==> FindSpec(inflate, c, zr.State()) == FindReport(inflate, c, body)
      invariant out.Some? ==> out.value == FindReport(inflate, c, body)
      decreases if out.None? then 1 else 0, |zr.rest|
    {
      ghost var st := zr.State();
      var entry := zr.Next();
      if entry.Err? {
        out := Some(if entry.error == Z.EOF then Ok(None) else Err(NextEntryFailed(entry.error)));
      } else {
        Z.NextOkAdvances(inflate, st);
        var data := zr.ReadContents();
        if data.Err? {
          out := Some(Err(ReadFailed(data.error)));
        } else {
          var d := Decode(c, entry.value.header.name, data.value);
          if d.Some? {
            out := Some(if d.value.Ok? then Ok(Some(d.value.value)) else Err(d.value.error));
          }
        }
      }
    }
    res := out.value;
  }

  /** The first entry, in archive order, whose name selects a decoder
      decides; no such entry means no report. */
  function PickReport(c: Codec, entries: seq<StoredFile>): Result<Option<L.Report>, FetchError> {
    if entries == [] then Ok(None)
    else
      match DecodeSpec(c, entries[0].name, entries[0].data)
      case None => PickReport(c, entries[1..])
      case Some(r) => if r.Ok? then Ok(Some(r.value)) else Err(r.error)
  }

  /** Entries before index i select no decoder and entry i does: the
      outcome is entry i's. With none selecting one, there is no report. */
  lemma {:induction false} PickReportFirst(c: Codec, entries: seq<StoredFile>, i: nat)
    requires i <= |entries|
    requires forall j :: 0 <= j < i ==> KindOf(entries[j].name) == Other
    ensures i < |entries| && KindOf(entries[i].name) != Other ==>
      PickReport(c, entries) == (var r := DecodeSpec(c, entries[i].name, entries[i].data).value;
                                 if r.Ok? then Ok(Some(r.value)) else Err(r.error))
    ensures i == |entries| ==> PickReport(c, entries) == Ok(None)
    decreases i
  {
    if i > 0 {
      PickReportFirst(c, entries[1..], i - 1);
    }
  }

  /** A file stored without compression, extras or a data descriptor. */
  datatype StoredFile = StoredFile(name: Bytes, data: Bytes, crc: u32)

  predicate Storable(f: StoredFile) {
    |f.name| < TWO_16 && |f.data| < MAX_U32
  }

  predicate AllStorable(entries: seq<StoredFile>) {
    forall i :: 0 <= i < |entries| ==> Storable(entries[i])
  }

  function StoredBytes(f: StoredFile): Bytes
    requires Storable(f)
  {
    Z.StoredEntryBytes(f.name, f.data, 20, 0, f.crc)
  }

  /** The local entries of an archive followed by its central directory. */
  function StoredArchive(entries: seq<StoredFile>, directory: Bytes): Bytes
    requires AllStorable(entries)
  {
    if entries == [] then directory else StoredBytes(entries[0]) + StoredArchive(entries[1..], directory)
  }

  predicate StartsDirectory(directory: Bytes) {
    |directory| >= 4 && (LE32(directory[..4]) == Z.DIRECTORY_HEADER_SIGNATURE || LE32(directory[..4]) == Z.DIRECTORY_END_SIGNATURE)
  }

  /** Scanning an archive of stored entries returns the report of the first
      entry whose name selects a decoder, decoded from that entry's data. */
  lemma {:induction false} ScanStoredArchive(inflate: Z.Inflater, c: Codec, entries: seq<StoredFile>, directory: Bytes)
    requires AllStorable(entries) && StartsDirectory(directory)
    ensures FindReport(inflate, c, StoredArchive(entries, directory)) == PickReport(c, entries)
    decreases |entries|
  {
    if entries == [] {
      Z.SignatureHandling(inflate, directory, LE32(directory[..4]));
    } else {
      var after := StoredArchive(entries[1..], directory);
      assert StoredArchive(entries, directory) == StoredBytes(entries[0]) + after;
      FindStepStored(inflate, c, entries[0], after);
      var s := FindStep(inflate, c, Z.ReaderState(StoredBytes(entries[0]) + after, false, None, false));
      if s.Continue? {
        FindStepWhenIdle(inflate, c, s.next);
        ScanStoredArchive(inflate, c, entries[1..], directory);
      }
    }
  }

  /** The error `findReportFile` returns when the input ends where the next
      local header should start: the header-id read fails with io.EOF, which
      `Next` wraps, so the scan does not take it for the end of the archive. */
  const TRUNCATED: FetchError := NextEntryFailed(Z.Wrapped(Z.HeaderIdentifier, Z.EOF))

  /** An empty body is not an archive without a report: the scan fails. */
  lemma EmptyBodyFails(inflate: Z.Inflater, c: Codec)
    ensures FindReport(inflate, c, []) == Err(TRUNCATED)
  {
    Z.NextAtEndOfInput(inflate, Z.ReaderState([], false, None, false));
  }

  /** Stored entries with no central directory after them: an entry that
      selects a decoder still decides, but when none does the scan runs off
      the end of the input and fails instead of finding no report. */
  lemma {:induction false} ScanTruncatedArchive(inflate: Z.Inflater, c: Codec, entries: seq<StoredFile>)
    requires AllStorable(entries)
    ensures FindReport(inflate, c, StoredArchive(entries, [])) ==
      (if PickReport(c, entries) == Ok(None) then Err(TRUNCATED) else PickReport(c, entries))
    decreases |entries|
  {
    if entries == [] {
      EmptyBodyFails(inflate, c);
    } else {
      var after := StoredArchive(entries[1..], []);
      assert StoredArchive(entries, []) == StoredBytes(entries[0]) + after;
      FindStepStored(inflate, c, entries[0], after);
      var s := FindStep(inflate, c, Z.ReaderState(StoredBytes(entries[0]) + after, false, None, false));
      if s.Continue? {
        FindStepWhenIdle(inflate, c, s.next);
        ScanTruncatedArchive(inflate, c, entries[1..]);
      }
    }
  }

  /** One stored entry at the front of the stream: its data is read back and
      decoded, or the scan moves on with that entry fully read. */
  lemma FindStepStored(inflate: Z.Inflater, c: Codec, f: StoredFile, after: Bytes)
    requires Storable(f)
    ensures var s := FindStep(inflate, c, Z.ReaderState(StoredBytes(f) + after, false, None, false));
      match DecodeSpec(c, f.name, f.data)
      case None => s.Continue? && s.next.rest == after && !s.next.localFileEnd && s.next.cur.Some?
                   && !s.next.pending && !Z.HasDataDescriptor(s.next.cur.value)
      case Some(r) => s == Done(if r.Ok? then Ok(Some(r.value)) else Err(r.error))
  {
    Z.StoredEntryRoundTrip(inflate, f.name, f.data, 20, 0, f.crc, after);
  }

  /** With the current entry fully read and no descriptor to skip, a scan
      step does what it does on a fresh reader over the same bytes. */
  lemma FindStepWhenIdle(inflate: Z.Inflater, c: Codec, st: Z.ReaderState)
    requires !st.localFileEnd && st.cur.Some? && !st.pending && !Z.HasDataDescriptor(st.cur.value)
    ensures FindSpec(inflate, c, st) == FindSpec(inflate, c, Z.ReaderState(st.rest, false, None, false))
  {
    Z.NextWhenIdle(inflate, st);
    assert FindStep(inflate, c, st) == FindStep(inflate, c, Z.ReaderState(st.rest, false, None, false));
  }

  // ---------------------------------------------------------------------------
  // Fetching a run's reports

  datatype Artifact = Artifact(id: i64, name: string)

  datatype ReportFile = ReportFile(version: string, sha: string, report: L.Report)

  function VersionOf(f: ReportFile): string {
    f.version
  }

  /** One artifact of the loop: skipped when its name does not match, an
      error when its download or scan fails, a file when a report was found. */
  function AddArtifact(inflate: Z.Inflater, c: Codec, download: Artifact -> Result<Bytes, string>,
                       sha: string, files: seq<ReportFile>, a: Artifact): Result<seq<ReportFile>, FetchError>
  {
    match ArtifactVersion(a.name)
    case None => Ok(files)
    case Some(version) =>
      match download(a)
      case Err(e) => Err(DownloadFailed(e))
      case Ok(body) =>
        match FindReport(inflate, c, body)
        case Err(e) => Err(e)
        case Ok(None) => Ok(files)
        case Ok(Some(r)) => Ok(files + [ReportFile(version, sha, r)])
  }

  /** The loop over the artifacts in listing order, the first error ending it. */
  function CollectSpec(inflate: Z.Inflater, c: Codec, download: Artifact -> Result<Bytes, string>,
                       sha: string, arts: seq<Artifact>): Result<seq<ReportFile>, FetchError>
    decreases |arts|
  {
    if arts == [] then Ok([])
    else
      match CollectSpec(inflate, c, download, sha, arts[..|arts| - 1])
      case Err(e) => Err(e)
      case Ok(files) => AddArtifact(inflate, c, download, sha, files, arts[|arts| - 1])
  }

  function FetchSpec(inflate: Z.Inflater, c: Codec, listing: Result<seq<Artifact>, string>,
                     download: Artifact -> Result<Bytes, string>, sha: string): Result<seq<ReportFile>, FetchError>
  {
    match listing
    case Err(e) => Err(ListFailed(e))
    case Ok(arts) =>
      match CollectSpec(inflate, c, download, sha, arts)
      case Err(e) => Err(e)
      case Ok(files) => Ok(SortBy(files, VersionOf))
  }

  /** `FetchReportFiles` for one commit and workflow run. */
  method FetchReportFiles(inflate: Z.Inflater, c: Codec, listing: Result<seq<Artifact>, string>,
                          download: Artifact -> Result<Bytes, string>, sha: string)
    returns (res: Result<seq<ReportFile>, FetchError>)
    ensures res == FetchSpec(inflate, c, listing, download, sha)
  {
    if listing.Err? {
      return Err(ListFailed(listing.error));
    }
    var arts := listing.value;
    var files: seq<ReportFile> := [];
    for i := 0 to |arts|
      invariant CollectSpec(inflate, c, download, sha, arts[..i]) == Ok(files)
    {
      assert arts[..i + 1][..i] == arts[..i];
      var version := ArtifactVersion(arts[i].name);
      if version.None? {
        continue;
      }
      var body := download(arts[i]);
      if body.Err? {
        CollectErrPropagates(inflate, c, download, sha, arts, i + 1);
        return Err(DownloadFailed(body.error));
      }
      var report := FindReportFile(inflate, c, body.value);
      if report.Err? {
        CollectErrPropagates(inflate, c, download, sha, arts, i + 1);
        return Err(report.error);
      }
      if report.value.Some? {
        files := files + [ReportFile(version.value, sha, report.value.value)];
      }
    }
    assert arts[..|arts|] == arts;
    files := SortBy(files, VersionOf);
    return Ok(files);
  }

  /** An error in a prefix of the listing is the error of the whole call. */
  lemma {:induction false} CollectErrPropagates(inflate: Z.Inflater, c: Codec, download: Artifact -> Result<Bytes, string>,
                                                sha: string, arts: seq<Artifact>, i: nat)
    requires i <= |arts| && CollectSpec(inflate, c, download, sha, arts[..i]).Err?
    ensures CollectSpec(inflate, c, download, sha, arts) == CollectSpec(inflate, c, download, sha, arts[..i])
    decreases |arts|
  {
    if i == |arts| {
      assert arts[..i] == arts;
    } else {
      var pre := arts[..|arts| - 1];
      assert pre[..i] == arts[..i];
      CollectErrPropagates(inflate, c, download, sha, pre, i);
    }
  }

  /** What the loop builds, in listing order: at most one file per artifact,
      each carrying the commit sha and the version of a matching artifact. */
  lemma {:induction false} CollectFacts(inflate: Z.Inflater, c: Codec, download: Artifact -> Result<Bytes, string>,
                                        sha: string, arts: seq<Artifact>)
    requires CollectSpec(inflate, c, download, sha, arts).Ok?
    ensures var files := CollectSpec(inflate, c, download, sha, arts).value;
      && |files| <= |arts|
      && forall f :: f in files ==> f.sha == sha && exists a :: a in arts && ArtifactVersion(a.name) == Some(f.version)
    decreases |arts|
  {
    if arts != [] {
      var pre := arts[..|arts| - 1];
      CollectFacts(inflate, c, download, sha, pre);
      forall a | a in pre ensures a in arts {
      }
    }
  }

  /** An artifact whose name does not match is neither downloaded nor kept. */
  lemma SkipUnmatched(inflate: Z.Inflater, c: Codec, download: Artifact -> Result<Bytes, string>,
                      sha: string, arts: seq<Artifact>, a: Artifact)
    requires ArtifactVersion(a.name).None?
    ensures CollectSpec(inflate, c, download, sha, arts + [a]) == CollectSpec(inflate, c, download, sha, arts)
  {
    assert (arts + [a])[..|arts|] == arts;
  }

  /** A matching artifact whose download fails, reached without an earlier
      error, fails the whole call with that error. */
  lemma DownloadFailureAborts(inflate: Z.Inflater, c: Codec, listing: Result<seq<Artifact>, string>,
                              download: Artifact -> Result<Bytes, string>, sha: string, i: nat)
    requires listing.Ok? && i < |listing.value|
    requires CollectSpec(inflate, c, download, sha, listing.value[..i]).Ok?
    requires ArtifactVersion(listing.value[i].name).Some? && download(listing.value[i]).Err?
    ensures FetchSpec(inflate, c, listing, download, sha) == Err(DownloadFailed(download(listing.value[i]).error))
  {
    var arts := listing.value;
    assert arts[..i + 1][..i] == arts[..i];
    CollectErrPropagates(inflate, c, download, sha, arts, i + 1);
  }

  /** A matching artifact whose archive cannot be scanned, reached without
      an earlier error, fails the whole call with the scan's error. */
  lemma ScanFailureAborts(inflate: Z.Inflater, c: Codec, listing: Result<seq<Artifact>, string>,
                          download: Artifact -> Result<Bytes, string>, sha: string, i: nat)
    requires listing.Ok? && i < |listing.value|
    requires CollectSpec(inflate, c, download, sha, listing.value[..i]).Ok?
    requires ArtifactVersion(listing.value[i].name).Some? && download(listing.value[i]).Ok?
    requires FindReport(inflate, c, download(listing.value[i]).value).Err?
    ensures FetchSpec(inflate, c, listing, download, sha) == Err(FindReport(inflate, c, download(listing.value[i]).value).error)
  {
    var arts := listing.value;
    assert arts[..i + 1][..i] == arts[..i];
    var files := CollectSpec(inflate, c, download, sha, arts[..i]).value;
    assert CollectSpec(inflate, c, download, sha, arts[..i + 1]) == AddArtifact(inflate, c, download, sha, files, arts[i]);
    CollectErrPropagates(inflate, c, download, sha, arts, i + 1);
  }

  /** In particular an empty download of a matching artifact is not skipped:
      the call fails. */
  lemma EmptyDownloadAborts(inflate: Z.Inflater, c: Codec, listing: Result<seq<Artifact>, string>,
                            download: Artifact -> Result<Bytes, string>, sha: string, i: nat)
    requires listing.Ok? && i < |listing.value|
    requires CollectSpec(inflate, c, download, sha, listing.value[..i]).Ok?
    requires ArtifactVersion(listing.value[i].name).Some? && download(listing.value[i]) == Ok([])
    ensures FetchSpec(inflate, c, listing, download, sha) == Err(TRUNCATED)
  {
    EmptyBodyFails(inflate, c);
    ScanFailureAborts(inflate, c, listing, download, sha, i);
  }

  /** A listing failure is the call's error. */
  lemma ListingFailureAborts(inflate: Z.Inflater, c: Codec, listing: Result<seq<Artifact>, string>,
                             download: Artifact -> Result<Bytes, string>, sha: string)
    requires listing.Err?
    ensures FetchSpec(inflate, c, listing, download, sha) == Err(ListFailed(listing.error))
  {
  }

  /** The returned files are the collected ones, sorted ascending by
      version, each carrying the queried sha and a matched artifact's
      version. */
  lemma FetchSortedAndComplete(inflate: Z.Inflater, c: Codec, listing: Result<seq<Artifact>, string>,
                               download: Artifact -> Result<Bytes, string>, sha: string)
    requires FetchSpec(inflate, c, listing, download, sha).Ok?
    ensures listing.Ok? && CollectSpec(inflate, c, download, sha, listing.value).Ok?
    ensures var files := FetchSpec(inflate, c, listing, download, sha).value;
      && SortedBy(files, VersionOf)
      && multiset(files) == multiset(CollectSpec(inflate, c, download, sha, listing.value).value)
      && forall f :: f in files ==> f.sha == sha && exists a :: a in listing.value && ArtifactVersion(a.name) == Some(f.version)
  {
    var collected := CollectSpec(inflate, c, download, sha, listing.value).value;
    SortBySorted(collected, VersionOf);
    CollectFacts(inflate, c, download, sha, listing.value);
    var files := SortBy(collected, VersionOf);
    forall f | f in files ensures f in collected {
      assert f in multiset(files);
    }
  }
}
