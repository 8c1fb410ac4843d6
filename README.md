# decompal, modelled in Dafny

decompal collects the build-progress reports that decompilation projects
publish as GitHub Actions artifacts. It stores them content-addressed and
serves them back as report pages, badges and pull-request comments. The
repository holds two implementations: a Rust service (`src/`) and a Go
service (`handlers/`, `objdiff/`, `database/`, `common/`, `zipstream/`).

This project models the logic at the core of both:

- **The Rust report store** (`store.dfy`, module `Store`). The four SQLite
  tables are sequences and maps. `Database` is a class whose methods run the
  loops of `insert_report`, `get_report` and `fixup_report_units` against
  specification functions. The lemmas cover:
  - the table invariants;
  - idempotence of re-inserts;
  - deduplication of units;
  - reconstruction in index order with hash checks;
  - the lower-cased report cache;
  - `get_project_info`'s version list and neighbouring commits.
- **The Zstandard frame header** (`zstd.dfy`, RFC 8878 section 3.1.1). Both
  stores inspect it before decompressing.
- **The Go storage form and database** (`serialized.dfy`, `gostore.dfy`).
  - `Serialize`/`Deserialize`, with their round trip and the key check.
  - The all-or-nothing insert transaction, with a statement that may fail as
    an input.
  - Exact, case-sensitive report identity.
- **Sync** (`sync.dfy`). This covers the run-discovery loop of
  `src/github/mod.rs`, artifact-name version resolution, the choice of
  archive entry and the "combined" split. It also covers the insert loop
  that aborts on the first store error.
- **The artifact scan of the Go service** (`objdiff_report.dfy`,
  `artifact_names.dfy`). It filters artifacts by name, dispatches archive
  entries, uses `parseJson`'s legacy fallback and sorts by version.
- **The streaming ZIP reader** (`zipstream.dfy`, PKWARE APPNOTE.TXT sections
  4.3.7, 4.3.9, 4.4.4 and 4.5.3). `Reader` and `ReadBuf` are classes over a
  byte sequence and a cursor.
- **Legacy JSON conversion** (`objdiff_legacy.dfy`), including Go's
  `strconv.ParseUint` as the address parser uses it.
- **Presentation rules**:
  - project display fallbacks (`models.rs`, in `models.dfy`);
  - query-parameter rewriting and normalised path joins (`util.dfy`);
  - extension, commit, version, mode and scope resolution of the report page
    (`report_handler.dfy`);
  - badge label, message and colour (`badge.dfy`);
  - the pull-request change tables (`changes.dfy`).

How external pieces are treated:

- **Foreign libraries.** Zstandard, BLAKE3, protobuf, protojson, DEFLATE,
  `Report::parse`/`migrate`/`split` and the GitHub API are
  function-valued fields of codec datatypes or plain inputs. The laws the
  proofs rely on are `requires` predicates named `...Lawful`, for example
  decompress after compress is the identity. No hash is assumed injective.
- **Floats.** Floating-point report fields are `real`s, because only
  equality and sign are used on them.
- **Concurrency.** Concurrent tasks run one after another in listing order.

## Model

| member | source | states |
|---|---|---|
| Models.Name | src/models.rs:18-24 | the display name when set, otherwise "owner/repo" |
| Models.NameSplitsIntoOwnerAndRepo | src/models.rs:18-24 | without a display name (and with a repo name free of '/'), splitting the name at its last '/' gives back owner and repo |
| Models.ShortName | src/models.rs:26-28 | the short name, else the display name, else the repo name |
| Models.RepoUrl | src/models.rs:30 | the URL starts with "https://github.com/" and continues with "owner/repo" |
| Models.RepoUrlInjective | src/models.rs:30 | two projects whose owners contain no '/' have the same URL only if owner and repo are equal |
| Models.DefaultVersion | src/models.rs:42-51 | None exactly when no report version exists; a Some result is always a known version; the configured default wins when it has reports, otherwise the first known version |
| ArtifactNames.VersionCharsAppend | objdiff/report.go:25 | a concatenation is made of version-class characters exactly when both parts are, the class being `[A-z0-9_\-]` with `A-z` spanning 0x41-0x7A |
| ArtifactNames.SuffixGroup | src/github/mod.rs:259-261 | a match yields a nonempty group of version-class characters that, followed by the suffix, is the whole name |
| ArtifactNames.SuffixGroupOf | src/github/mod.rs:259-261 | every nonempty version-class string followed by the suffix is matched, with that string as its group |
| Badge.ParseMeasure | src/handlers/badge.rs:39-46 | a selected measure is the one whose query name is exactly the given name |
| Badge.ParseMeasureName | src/handlers/badge.rs:39-46 | every measure is selected by its own name |
| Badge.FractionRoundTrip | src/handlers/badge.rs:42 | a "count/total" message splits at its '/' back into the two decimals, which read back as the two counts |
| Badge.Render | src/handlers/badge.rs:32-59 | an error exactly when a measure is given and is unknown; otherwise schema version 1, the given label or the default, the given color or "informational", style and label color passed through |
| Badge.DefaultMeasureIsCode | src/handlers/badge.rs:38-50 | with no measure the answer equals the one for "code", the matched-code percent with '%' |
| Badge.FunctionsMessageRoundTrip | src/handlers/badge.rs:42 | the "functions" message reads back as matched functions over total functions |
| Badge.CompleteUnitsMessageRoundTrip | src/handlers/badge.rs:45 | the "complete_units" message reads back as complete units over total units |
| Badge.FunctionsMessageInjective | src/handlers/badge.rs:42 | two reports with equal "functions" badges have equal function counts |
| Util.DecodeAll | src/util.rs:18 | the query read as `form_urlencoded` does: empty pieces are skipped; otherwise one (key, value) pair per piece, in order, a key-only piece reading as an empty value |
| Util.DecodeAllSkipExample | src/util.rs:18 | the empty piece of `a=1&&b=2` is skipped, leaving two pairs |
| Util.QueryParam | src/util.rs:13-44 | the one-pass rewrite with its `updated` flag, each piece going through the serializer, yields exactly the query described by QueryParamSpec |
| Util.Written | src/util.rs:15-38 | the serializer's output never starts with an empty piece: a leading empty piece writes neither text nor a separator |
| Util.WrittenSnoc | src/util.rs:15-38 | one more append extends the output by that piece, unless output and piece are both empty |
| Util.SerializerText | src/util.rs:22-36 | an appended piece is preceded by `&` exactly when text was already written (form_urlencoded writes a separator only if needed) |
| Util.WrittenKeeps | src/util.rs:15-38 | the serializer writes the pieces exactly as given when the first one is not empty |
| Util.DecodeWritten | src/util.rs:15-38 | dropping leading empty pieces does not change what a reader of the query decodes |
| Util.WrittenNone | src/util.rs:15-38 | nothing is written exactly when every piece appended is empty |
| Util.RebuiltStep | src/util.rs:18-33 | one loop step appends the rewrite of the current pair, and `updated` becomes true exactly when its key matched |
| Util.QueryTextEmpty | src/util.rs:40-42 | the written query text is empty exactly when every rebuilt piece is the empty piece (as for `=&=`), so the query is removed |
| Util.WithoutKey | src/util.rs:28-32 | the pieces kept carry no occurrence of the key |
| Util.NormalAll | src/util.rs:28-32 | every existing pair is written back, one piece per pair |
| Util.ReplaceValue | src/util.rs:19-25 | replacing values keeps the number of pairs |
| Util.WithoutKeyAppend | src/util.rs:18-33 | dropping a key distributes over concatenation |
| Util.RebuiltKeepsOthers | src/util.rs:28-32 | pairs under other keys keep their order, an empty value written back as a bare key |
| Util.RebuiltReplaces | src/util.rs:19-25 | with a value, every occurrence of the key is replaced where it stood, key-only when the value is empty |
| Util.RebuiltRemoves | src/util.rs:19-27 | without a value, every occurrence of the key is removed and nothing else |
| Util.QueryParamAppends | src/util.rs:34-38 | an absent key with a value is appended last as a pair, even an empty one, after the pieces actually written; a present key is replaced, never appended |
| Util.ReplaceAbsent | src/util.rs:19-25 | replacing an absent key changes no pair |
| Util.HasKeyAppend | src/util.rs:19 | a key occurs in a concatenation exactly when it occurs in one of the parts |
| Util.RewriteHasKey | src/util.rs:19-32 | a pair's rewrite mentions the key exactly when the pair had it and a value is written for it (an empty value under the empty key writes the empty piece) |
| Util.RebuiltOfStable | src/util.rs:18-33 | a query whose every piece comes back unchanged is rebuilt as itself |
| Util.RebuiltStable | src/util.rs:18-33 | every rebuilt piece comes back unchanged from a second rewrite with the same value |
| Util.RebuiltHasKey | src/util.rs:18-33 | the rebuilt pieces mention the key exactly when it was present and a value is written for it |
| Util.RebuiltNoEmptyPiece | src/util.rs:18-33 | for an absent or nonempty value, the rebuild writes an empty piece only from an `=` pair under another key |
| Util.DecodeAllAppend | src/util.rs:18 | decoding distributes over concatenation |
| Util.NewQueryStable | src/util.rs:13-44 | for an absent or nonempty value and no `=` pair under another key, the new query has no empty piece and every piece survives a second call unchanged |
| Util.NewQueryHasKey | src/util.rs:13-44 | the new query mentions the key exactly when a value was given, except an empty value replacing an existing empty key |
| Util.EmptyQueryNoValue | src/util.rs:40-42 | a query the rewrite leaves empty came from a call without a value |
| Util.SecondPass | src/util.rs:13-44 | a second call with the same value rebuilds the same pieces, or none when the first call left no query |
| Util.SecondPassEmpty | src/util.rs:40-42 | when the first call left no query, the second rebuilds no pieces |
| Util.SecondPassKept | src/util.rs:13-38 | when the first call left a query, the second rebuilds exactly its pieces |
| Util.QueryParamIdempotent | src/util.rs:13-44 | for an absent or nonempty value, and no `=` pair in the query unless the key is empty, a second identical call leaves the URL unchanged |
| Util.QueryParamEmptyPairExample | src/util.rs:18-42 | for `a=1&=` and another key, the trailing `=` piece is written back as an empty piece (`a=1&`), which the second call drops (`a=1`) |
| Util.QueryParamLeadingEmptyExample | src/util.rs:18-42 | for `=&a=1` and another key with no value the result is `a=1`, with no leading `&`, and a second call keeps it; `=&=` loses its query |
| Util.QueryParamEmptyValueExample | src/util.rs:34-38 | an absent key with an empty value is first appended as `x=` and then rewritten to the bare `x`, so idempotence needs a nonempty value |
| Util.WithPath | src/util.rs:47-51 | the path is the given one (and nothing else changes, by construction as a record update) |
| Util.PathAndQuery | src/util.rs:54 | the text from the path on starts with the path |
| Util.WithPathCommutes | src/util.rs:13-51 | replacing the path and rewriting the query commute |
| Util.PathAndQueryWithPath | src/util.rs:47-54 | after a path change, path_and_query is the new path followed by the old query and fragment |
| Util.NormalComponents | src/util.rs:60 | every component kept is a Normal one (not empty, not `.` or `..`) and contains no separator |
| Util.PushComponents | src/util.rs:60 | pushing one Normal component adds exactly that component and keeps the buffer as a prefix |
| Util.PushAllComponents | src/util.rs:58-62 | extending by Normal components adds exactly those components, in order, after the buffer |
| Util.JoinNormalizedComponents | src/util.rs:57-62 | the joined path starts with the base, and its components are the base's followed by exactly the path's Normal ones |
| Util.JoinNormalizedIdempotent | src/util.rs:57-62 | joining a path that was already normalised gives the same result |
| Util.PushSeparates | src/util.rs:60 | pushing onto a buffer without a trailing separator inserts one |
| Util.JoinOneComponent | src/util.rs:57-62 | a path with one Normal component lands behind one separator after a base without a trailing one |
| Util.EtcComponents | src/util.rs:60 | the components kept from "../etc" are just "etc" |
| Util.JoinNormalizedExample | src/util.rs:57-62 | joining "../etc" onto "/srv" gives "/srv/etc": the parent step is dropped |
| ReportHandler.ExtractExtensionRoundTrip | src/handlers/report.rs:168-187 | an extension appears exactly when the chosen field (commit, else version, else repo) has a '.'; it is what follows the last '.', putting it back restores the parameters, and every other field is unchanged |
| ReportHandler.CommitShadowsExtension | src/handlers/report.rs:169-175 | with a commit that has no '.', neither version nor repo is split, whatever dots they hold |
| ReportHandler.RequestedCommit | src/handlers/report.rs:203-206 | no commit exactly when none was routed or it is "latest" in any ASCII case; otherwise the routed commit |
| ReportHandler.ResolveVersion | src/handlers/report.rs:211-221 | a missing or "default" (any case) version resolves to the project's default version, NOT_FOUND without one; any other version is used literally |
| ReportHandler.ResolvedDefaultIsListed | src/handlers/report.rs:211-221 | a default resolution names a version that has reports, the same one as with no version at all |
| ReportHandler.ParseMode | src/handlers/report.rs:229-233 | shield exactly for "shield", the page exactly for a missing mode or "report", after ASCII lower-casing; BAD_REQUEST otherwise |
| ReportHandler.ParseModeIgnoresCase | src/handlers/report.rs:229 | the mode does not depend on the letter case of its name |
| ReportHandler.FunctionItems | src/handlers/report.rs:363-385 | an item is listed exactly when it comes from a function of nonzero size, named by its demangled name when known |
| ReportHandler.UnitItems | src/handlers/report.rs:386-414 | an item is listed exactly when it comes from a unit that has measures with nonzero code and, under a category filter, lists that category |
| ReportHandler.FunctionItemsAppend | src/handlers/report.rs:363-385 | listing keeps the functions' order: it distributes over concatenation |
| ReportHandler.UnitItemsAppend | src/handlers/report.rs:386-414 | listing keeps the units' order: it distributes over concatenation |
| ReportHandler.BaseName | src/handlers/report.rs:427-429 | the label is a suffix of the unit name without '/', the whole name when it has none |
| ReportHandler.FindCategory | src/handlers/report.rs:345-347 | none exactly when no category has the id; otherwise the first one with it |
| ReportHandler.FindUnit | src/handlers/report.rs:353-357 | none exactly when no unit has the name; otherwise the first one with it |
| ReportHandler.ApplyScope | src/handlers/report.rs:337-432 | the scope carries the report and project info it was given |
| ReportHandler.UnitSelectionWins | src/handlers/report.rs:342-360 | a selected unit present in the report decides the measures (zero when missing), the items (its functions) and the label (its base name); the category then does not matter |
| ReportHandler.UnknownCategoryIgnored | src/handlers/report.rs:345-351 | a category id the report lacks gives the same scope as no category |
| ReportHandler.CategoryScope | src/handlers/report.rs:345-351 | with a found category and no unit: the category's measures (zero when missing), its name as label, and exactly the listed units of that category |
| ReportHandler.WholeReportScope | src/handlers/report.rs:342 | with neither unit nor category: the report's measures, no label, and exactly the units with nonzero code (also lines 386-414) |
| ReportHandler.ShieldJson | src/handlers/report.rs:282-292 | the JSON shield label is the query's label, else the scope's label, else the project's short name |
| ReportHandler.GetReport | src/handlers/report.rs:189-228 | the handler's result and the new cache are those GetReportSpec gives for the old store state and cache |
| ReportHandler.GetReportFailures | src/handlers/report.rs:197-233 | NOT_ACCEPTABLE without an acceptable type, NOT_FOUND without project info or without a version, each with the cache untouched; a success has the parsed mode and the extracted extension |
| ReportHandler.ServeFound | src/handlers/report.rs:222-233 | a served view carries the report the store found, scoped by the query, with the parsed mode and the extension |
| ReportHandler.GetReportFound | src/handlers/report.rs:203-228 | a found page shows the report the store holds for the requested commit's project info and the resolved version, scoped by the query |
| Changes.ArrowSign | handlers/shared.go:238-261 | the arrow is empty exactly for a zero difference, and two arrows are equal exactly when the differences have the same sign |
| Changes.IntDiffExact | handlers/shared.go:369-380 | for counts below 2^63 the 64-bit difference is the exact difference |
| Changes.IntDiffWrapsAtTopBit | handlers/shared.go:369-380 | a size that grows from 0 to 2^63 shows a difference of -2^63 and a falling arrow, because the uint64 values are reinterpreted as int64 |
| Changes.IntRow | handlers/shared.go:357-367 | a 32-bit row is the same as the size row of the widened counts, so its difference never wraps |
| Changes.RowIf | handlers/shared.go:297-338 | a metric contributes a row exactly when it changed: its value, or for a matched metric its count or its percent |
| Changes.ChangedRowsComplete | handlers/shared.go:295-342 | no rows exactly when no metric changed; every changed metric's row is present; at most seven rows |
| Changes.Table | handlers/shared.go:232-235 | a table is empty exactly when it has no rows (also lines 339-342) |
| Changes.AddRow | handlers/shared.go:297-338 | one `if` of measuresTable appends exactly the metric's conditional row |
| Changes.ChangedRowsChain | handlers/shared.go:295-342 | the seven conditional appends, in their fixed order, give the changed rows |
| Changes.MeasuresTable | handlers/shared.go:285-343 | the method, with its nil defaults and seven appends, gives the table MeasuresTableSpec describes |
| Changes.MeasuresTableEmpty | handlers/shared.go:285-343 | the table is empty exactly when both sides are missing or no metric differs, a missing side reading as all zero |
| Changes.SameMeasuresNoTable | handlers/shared.go:295-342 | equal measures give no table |
| Changes.ItemRow | handlers/shared.go:263-283 | an item row is empty exactly when the from and to percents are equal, a missing side counting as 0 |
| Changes.KeepRows | handlers/shared.go:226-231 | the rows kept are all nonempty, and there are no more of them than items |
| Changes.KeepRowsStep | handlers/shared.go:226-231 | one loop step appends the item's row exactly when it is nonempty |
| Changes.KeepRowsEmpty | handlers/shared.go:226-235 | no rows are kept exactly when every item's row is empty |
| Changes.KeepRowsHas | handlers/shared.go:226-231 | every nonempty item row is kept |
| Changes.ItemHeader | handlers/shared.go:224 | the header is never empty |
| Changes.ChangeItemTable | handlers/shared.go:223-236 | the loop gives the table of the item rows that are nonempty, in order |
| Changes.ItemRowsEmpty | handlers/shared.go:223-236 | no item rows exactly when no item's percent moved |
| Changes.ItemRowsHasRow | handlers/shared.go:223-236 | every item whose percent moved has its row in the table |
| Changes.Block | handlers/shared.go:207-218 | a table adds text exactly when it is nonempty |
| Changes.AppendBlock | handlers/shared.go:212-218 | each `if table != ""` append adds exactly the table's block |
| Changes.Intro | handlers/shared.go:199-208 | the output starts with the "### Overall" heading |
| Changes.CreateChanges | handlers/shared.go:198-221 | the method's string appends give the text CreateChangesSpec describes |
| Changes.AppendParts | handlers/shared.go:209-218 | the three appends of one unit add its heading and both blocks, in that order |
| Changes.SectionsStep | handlers/shared.go:209-219 | one loop step adds the unit's section after the earlier ones |
| Changes.CreateChangesEmpty | handlers/shared.go:200-204 | the output is empty exactly when the overall table is empty and there are no units |
| Changes.CreateChangesNoTotals | handlers/shared.go:201-205 | with no overall change but some units, the output starts with the heading and "No changes" |
| Changes.SectionsAppend | handlers/shared.go:209-219 | the units' sections follow the units' order: they distribute over concatenation |
| Changes.UnitSectionHead | handlers/shared.go:210 | a unit's section starts with its heading |
| Changes.VersionChanges | handlers/shared.go:104-128 | the nested loops give exactly the pairing ChangesSpec describes, stopping at the first generation error |
| Changes.PairStep | handlers/shared.go:106-127 | one inner step extends the result by that file's pairing only |
| Changes.ChangesStep | handlers/shared.go:105-128 | one outer step appends the pairings of one base file |
| Changes.PairErrSticks | handlers/shared.go:114-118 | after a generation error no later file changes the outcome |
| Changes.ChangesErrSticks | handlers/shared.go:114-118 | after a generation error no later base file changes the outcome |
| Changes.PairSound | handlers/shared.go:105-128 | every summary has the base file's version, a nonempty body, and comes from a head file of the same version whose changes it renders |
| Changes.PairNoMatch | handlers/shared.go:107 | a base file whose version no head file shares gives no summary |
| Changes.BuildComment | handlers/shared.go:134-142 | the loop gives the heading followed by one details block per summary, in order |
| Changes.CommentBodyHeading | handlers/shared.go:134-142 | the comment starts with its "## Changes" heading and is longer whenever any summary exists |
| Changes.ProcessPR | handlers/shared.go:16-150 | the handler's outcome is that of ProcessPRSpec over the given runs, files and fetch results |
| Changes.ProcessPROutcome | handlers/shared.go:31-39 | a head SHA mismatch does nothing; a comment is only posted for a matching SHA, and it starts with the heading and holds at least one summary (also lines 129-142) |
| Sync.LongestSplit | src/github/mod.rs:245 | a split point found up to the bound is one where the pattern matches, with no matching point after it up to the bound; none exactly when no point matches |
| Sync.ReportVersion | src/github/mod.rs:243-256 | no version exactly when `^([A-z0-9_\-]+)[_-]report(?:[_-].*)?$` matches nowhere; otherwise the group of the greediest match (the longest prefix at which it matches) |
| Sync.FirstMapsVersion | src/github/mod.rs:259-267 | none exactly when no artifact name matches the maps pattern; otherwise the group of the first one that does, in list order |
| Sync.ResolveVersionCases | src/github/mod.rs:252-274 | the report pattern wins; "progress" and "progress.json" take the first maps version; every other name is skipped; a version found comes from the name itself or from a maps artifact |
| Sync.PlainReportName | src/github/mod.rs:245 | a version-class string, a separator and "report" resolve to that string |
| Sync.ReportNameExamples | src/github/mod.rs:245 | "us-report-v2" matches, and "usreport" (no separator) does not |
| Sync.FileStem | src/github/mod.rs:329-330 | the stem is the name itself, or the part before a '.' that is neither leading nor followed by another '.'; a name other than ".." with a non-leading '.' always loses its extension |
| Sync.FileStemExamples | src/github/mod.rs:329-330 | "report.json" has stem "report", and "report.tar.gz" has stem "report.tar" |
| Sync.FileStemNoExtension | src/github/mod.rs:329-330 | a name without a '.', or whose only '.' leads, is its own stem |
| Sync.DownloadArtifact | src/github/mod.rs:312-348 | the scan over archive entries gives what DownloadSpec describes: a failure to open, the first chosen entry's reports, or none |
| Sync.FirstChosenEntry | src/github/mod.rs:324-347 | entries before the first chosen one do not matter; with no chosen entry the result is empty; the first chosen one decides the result |
| Sync.CombinedSplit | src/github/mod.rs:334-344 | a "combined" version (any ASCII case) yields the split of the report; any other yields one pair with that version |
| Sync.Names | src/github/mod.rs:262-267 | the artifact names, one per artifact, in order |
| Sync.ProcessWorkflowRun | src/github/mod.rs:219-308 | the run's result is that of ProcessSpec: a listing error, no artifacts, or each artifact's reports in listing order |
| Sync.CollectReportsAppend | src/github/mod.rs:252-306 | artifact contributions keep the artifacts' order: they distribute over concatenation |
| Sync.SkippedArtifact | src/github/mod.rs:257-274 | an artifact that yields nothing (skipped name, failed or empty download) can be removed without changing the result (also lines 299-304) |
| Sync.Discover | src/github/mod.rs:97-129 | the discovery loop over pages 1, 2, ... gives exactly DiscoverFrom from page 1 |
| Sync.ScanStep | src/github/mod.rs:116-127 | at a run with the stored head SHA the scan stops without it; at the stop run it stops after it; any other run is kept and the scan goes on |
| Sync.PrependNothing | src/github/mod.rs:97-129 | putting no runs in front leaves a result unchanged |
| Sync.PrependAssoc | src/github/mod.rs:97-129 | putting runs in front in two steps equals putting their concatenation in front |
| Sync.DiscoverShape | src/github/mod.rs:97-129 | discovery returns a prefix of the listed runs, none with the stored head SHA, the stop run only in last place, and it stops early only before a run with the stored head SHA or after the stop run |
| Sync.ScanShape | src/github/mod.rs:116-127 | a scan that stops yields a prefix of that shape; one that does not stop keeps the whole page, none of it existing or the stop run |
| Sync.PrefixShape | src/github/mod.rs:97-129 | a stopped prefix keeps its shape whatever later pages hold |
| Sync.ShapeCons | src/github/mod.rs:113-129 | a full page of runs followed by a well-shaped rest is well-shaped |
| Sync.Inserted | src/github/mod.rs:176-192 | the inserts that succeed are at most the inserts attempted |
| Sync.Refresh | src/github/mod.rs:78-208 | `run` leaves the store valid, and its new tables, cache and result are those RunSpec gives for the old state |
| Sync.RunTasks | src/github/mod.rs:139-162 | one task per discovered run, in order, each the per-run task of TaskSpec |
| Sync.InsertFiles | src/github/mod.rs:176-192 | the store holds exactly the inserts before the failing one, the cache has their entries, and the result fails exactly when an insert failed |
| Sync.InsertAllStep | src/github/mod.rs:176-192 | one more insert applies insert_report to the tables and fills one cache entry |
| Sync.FilesOfOrigin | src/github/mod.rs:163-193 | every file inserted carries the project, the head commit of a run whose task succeeded, and a (version, report) pair from that task |
| Sync.FilesOfNothing | src/github/mod.rs:147-158 | when every task yields no artifacts, nothing is inserted |
| Sync.RefreshUpToDate | src/github/mod.rs:78-208 | if every discovered run's head commit already has a report, `run` changes neither tables nor cache and succeeds |
| Sync.RefreshFailsOnlyOnInsert | src/github/mod.rs:163-207 | once discovery succeeds, failed runs and artifacts are only skipped: `run` succeeds when no insert fails, and any failure it reports is the insert error |
| Sync.InsertAllValid | src/github/mod.rs:176-192 | inserting reports keeps the store's tables valid |
| ObjdiffReport.ArtifactVersion | objdiff/report.go:25-59 | a match yields a nonempty version of `[A-z0-9_\-]` characters that, followed by "_report", is the whole name |
| ObjdiffReport.ArtifactVersionOf | objdiff/report.go:25-59 | every nonempty version-class string followed by "_report" is accepted, with that string as its version |
| ObjdiffReport.ArtifactNameExamples | objdiff/report.go:25 | "GALE01_report" has version "GALE01" |
| ObjdiffReport.ArtifactNameGreedy | objdiff/report.go:25 | in "x_report_report" the greedy group keeps the first "_report" inside the version |
| ObjdiffReport.ArtifactNamePunctuation | objdiff/report.go:25 | the `A-z` range admits `[`, `]`, `^` and the backtick: "[a]^`_report" has version "[a]^`" |
| ObjdiffReport.ArtifactNameRefused | objdiff/report.go:25 | an empty version, a '.' in the version, and anything after "_report" are all refused |
| ObjdiffReport.ParseJson | objdiff/report.go:141-153 | the method gives the protojson result, else the converted legacy report, else the protojson error |
| ObjdiffReport.ParseJsonFallback | objdiff/report.go:141-153 | protojson success is used as is; else a legacy success is converted; else the original protojson error is returned; it fails exactly when both decoders fail |
| ObjdiffReport.KindOf | objdiff/report.go:115-126 | JSON exactly for names ending "report.json"; protobuf exactly for the others ending "report.binpb" or "report.pb" |
| ObjdiffReport.Decode | objdiff/report.go:115-136 | an entry's decoding is that of DecodeSpec: JSON, protobuf or no decoder, with each decoder's error |
| ObjdiffReport.FindStep | objdiff/report.go:102-137 | a step that goes on has consumed input, so the scan terminates |
| ObjdiffReport.FindReportFile | objdiff/report.go:100-139 | the entry loop over the streaming reader gives exactly FindReport, where only the bare io.EOF ends the loop without an error |
| ObjdiffReport.EmptyBodyFails | objdiff/report.go:103-108 | an empty body fails with "failed to get next entry" over the wrapped io.EOF; it is not an archive without a report |
| ObjdiffReport.ScanTruncatedArchive | objdiff/report.go:100-139 | stored entries with no central directory after them: the first entry that selects a decoder decides, and when none does the scan fails |
| ObjdiffReport.PickReportFirst | objdiff/report.go:102-138 | entries whose names select no decoder are passed over; the first that selects one decides the outcome; with none there is no report |
| ObjdiffReport.ScanStoredArchive | objdiff/report.go:100-139 | scanning an archive of stored entries ending in a central directory gives the outcome of the first entry whose name selects a decoder |
| ObjdiffReport.FindStepStored | objdiff/report.go:102-136 | one stored entry is read whole: its decoding ends the scan, or the scan goes on right after it |
| ObjdiffReport.FindStepWhenIdle | objdiff/report.go:102-111 | after an entry read to its end, the scan continues from the remaining bytes as from a fresh reader |
| ObjdiffReport.FetchReportFiles | objdiff/report.go:27-96 | the loop over artifacts and the sort give exactly FetchSpec |
| ObjdiffReport.CollectErrPropagates | objdiff/report.go:61-81 | once an artifact fails, later artifacts do not change the error |
| ObjdiffReport.CollectFacts | objdiff/report.go:47-89 | at most one file per artifact, each with the given commit sha and the version of a matching artifact name |
| ObjdiffReport.SkipUnmatched | objdiff/report.go:54-58 | an artifact whose name does not match adds nothing |
| ObjdiffReport.DownloadFailureAborts | objdiff/report.go:61-64 | a matching artifact whose download fails, after earlier ones succeeded, fails the whole call with that error |
| ObjdiffReport.ScanFailureAborts | objdiff/report.go:77-81 | a matching artifact whose archive scan fails, after earlier ones succeeded, fails the whole call with the scan's error |
| ObjdiffReport.EmptyDownloadAborts | objdiff/report.go:77-81 | an empty download of a matching artifact is not skipped: it fails the whole call |
| ObjdiffReport.ListingFailureAborts | objdiff/report.go:39-45 | a failed artifact listing fails the call |
| ObjdiffReport.FetchSortedAndComplete | objdiff/report.go:47-95 | the files are sorted by version, are a permutation of those collected, and each carries the commit sha and the version of a matching artifact |
| Text.SortBy | objdiff/report.go:91-94 | the sorted sequence is a permutation of its input |
| Text.SortBySorted | objdiff/report.go:91-94 | the sorted sequence is ordered by its key under byte-wise string order |
| Text.LessTotal | objdiff/report.go:93 | string order is total: of two distinct strings one is less |
| Text.LessTransitive | objdiff/report.go:93 | string order is transitive |
| Text.RSplitOnce | src/handlers/report.rs:170 | no split exactly when the separator is absent; otherwise the parts joined by the separator give the string back and the tail holds no separator, so the split is at the last one |
| Text.Lower | src/db/mod.rs:133-143 | ASCII lower-casing keeps the length and maps every character by the ASCII case rule, the folding the cache key and the NOCASE comparison use |
| ObjdiffLegacy.DigitsValueGrows | objdiff/legacy.go:97-99 | reading further digits never lowers the accumulated value |
| ObjdiffLegacy.ParseDigitsValue | objdiff/legacy.go:97-99 | on a digit string the bounded reading gives the digits' value, or 2^64-1 once that value exceeds 64 bits |
| ObjdiffLegacy.ParseUintOfDigits | objdiff/legacy.go:97-99 | a nonempty digit string parses to its value, saturating at 2^64-1 on overflow, as ParseUint does with its error ignored |
| ObjdiffLegacy.ParseUintMalformed | objdiff/legacy.go:97-99 | a non-digit before any overflow makes the parse 0 |
| ObjdiffLegacy.MalformedFrom | objdiff/legacy.go:97-99 | from any accumulated value, a non-digit met before overflow gives 0 |
| ObjdiffLegacy.DigitsValueFirst | objdiff/legacy.go:97-99 | a digit string's value is its first digit folded into the accumulator and then the rest |
| ObjdiffLegacy.ParseDigitsStep | objdiff/legacy.go:97-99 | without overflow, the bounded reading consumes one digit at a time |
| ObjdiffLegacy.ConvertItem | objdiff/legacy.go:92-109 | name, demangled name, size and fuzzy percent are copied, and the address is always set |
| ObjdiffLegacy.ConvertItems | objdiff/legacy.go:83-88 | the append loop converts every item, one for one, in order |
| ObjdiffLegacy.ConvertUnit | objdiff/legacy.go:67-90 | the unit's scalar and optional fields are copied and its sections and functions converted one for one |
| ObjdiffLegacy.Convert | objdiff/legacy.go:47-65 | the ten aggregate fields are copied and every unit converted, in order |
| ObjdiffLegacy.ConvertPreserves | objdiff/legacy.go:47-90 | the converted report has the legacy aggregates, as many units, and each unit its name, counts, optional fields and as many sections and functions with their names and sizes |
| ObjdiffLegacy.MissingAddressIsZero | objdiff/legacy.go:93-105 | a missing address becomes 0 |
| ObjdiffLegacy.HexAddress | objdiff/legacy.go:96-97 | "0x" followed by hex digits within 64 bits gives their base-16 value |
| ObjdiffLegacy.DecimalAddress | objdiff/legacy.go:98-99 | any other digit string gives its base-10 value, or 2^64-1 on overflow |
| ObjdiffLegacy.MalformedAddresses | objdiff/legacy.go:96-99 | "0x" alone and "0X1F" (upper-case prefix) both become 0 |
| ZipStream.ReadBuf.constructor | zipstream/zipstream.go:245 | the buffer holds the given bytes |
| ZipStream.ReadBuf.Uint8 | zipstream/zipstream.go:247-251 | returns the first byte and drops exactly it |
| ZipStream.ReadBuf.Uint16 | zipstream/zipstream.go:253-257 | returns the little-endian value of the first two bytes and drops exactly them |
| ZipStream.ReadBuf.Uint32 | zipstream/zipstream.go:259-263 | returns the little-endian value of the first four bytes and drops exactly them |
| ZipStream.ReadBuf.Uint64 | zipstream/zipstream.go:265-269 | returns the little-endian value of the first eight bytes and drops exactly them |
| ZipStream.ReadBuf.Sub | zipstream/zipstream.go:271-275 | returns the first n bytes and drops them; the two parts make up the old buffer |
| ZipStream.DecodersInvertEncoders | zipstream/zipstream.go:253-269 | the little-endian decoders invert little-endian encoding of 16, 32 and 64-bit values |
| ZipStream.EncodeLocalHeader | zipstream/zipstream.go:64-79 | a written local header is 26 bytes, the fixed part after the signature |
| ZipStream.DecodeEncodeLocalHeader | zipstream/zipstream.go:69-79 | decoding a written header gives back version, flags, method, time, date, CRC-32, both sizes and both lengths, in that field order |
| ZipStream.ReadLocalHeader | zipstream/zipstream.go:69-79 | the ten successive readBuf reads decode the header as DecodeLocalHeader does |
| ZipStream.Zip64Field | zipstream/zipstream.go:126-144 | a Zip64 field resolves each needed size, the uncompressed one first; a needed value with fewer than 8 bytes left is ErrFormat; sizes not needed are kept |
| ZipStream.ScanExtraLoop | zipstream/zipstream.go:116-146 | the loop over extra fields gives exactly ScanExtra |
| ZipStream.Zip64Step | zipstream/zipstream.go:131-144 | the in-place updates of one Zip64 field give exactly Zip64Field |
| ZipStream.ScanExtraKeepsKnown | zipstream/zipstream.go:113-146 | scanning extras never unresolves a size and never changes a size that was not needed |
| ZipStream.EncodeField | zipstream/zipstream.go:117-123 | a written extra field is its 4-byte header plus its data |
| ZipStream.EncodedFieldSplit | zipstream/zipstream.go:117-123 | a written field reads back as its tag, its length, its data and then what follows |
| ZipStream.ScanExtraOfEncoded | zipstream/zipstream.go:116-146 | an extra area of written fields followed by a truncated tail is scanned as exactly those fields, in order; the tail stops the scan |
| ZipStream.Limit | zipstream/zipstream.go:153-157 | the byte limit is the size when it fits in int64, and 0 when the conversion to int64 makes it negative |
| ZipStream.FlagChecks | zipstream/zipstream.go:105-111 | flag bit 0 is refused as encrypted; bit 3 without Deflate is refused; an accepted entry has neither problem |
| ZipStream.EntryFields | zipstream/zipstream.go:81-103 | an accepted entry carries the header's fields, its name and extra area, NonUTF8 exactly when bit 11 is clear, the 32-bit sizes unless maxed out, and a body reading exactly its size (Store) or limited by its compressed size when positive (Deflate) (also lines 105, 152-174) |
| ZipStream.UnresolvedSizes | zipstream/zipstream.go:148-153 | a maxed-out compressed size that no extra resolves is ErrFormat; a maxed-out uncompressed size alone is not an error |
| ZipStream.LEOfZeros | zipstream/zipstream.go:253-269 | zero bytes decode to 0 |
| ZipStream.ZeroExtraScansNothing | zipstream/zipstream.go:117-146 | an extra area of zero bytes resolves nothing |
| ZipStream.DataDescriptorLength | zipstream/zipstream.go:215-243 | the data descriptor takes 16 bytes when it starts with its signature and 12 otherwise |
| ZipStream.Drain | zipstream/zipstream.go:152-185 | draining an entry's data never uses more bytes than the stream holds |
| ZipStream.Reader.constructor | zipstream/zipstream.go:37-42 | a new reader is at the start of the stream, with no entry and no end seen |
| ZipStream.Reader.ReadFullN | zipstream/zipstream.go:65 | io.ReadFull of n bytes: the bytes and the advanced stream, EOF on an empty stream and UnexpectedEOF on a short one; nothing else changes (also lines 98, 196) |
| ZipStream.Reader.ReadEntry | zipstream/zipstream.go:63-177 | readEntry gives exactly ReadEntrySpec and touches only the stream position |
| ZipStream.Reader.ReadEntryRest | zipstream/zipstream.go:97-176 | reading name and extra area and checking them gives exactly ReadNameAndExtra |
| ZipStream.Reader.ReadContents | zipstream/zipstream.go:58-60 | reading the current entry to its end gives exactly Contents (also line 185) |
| ZipStream.Reader.Next | zipstream/zipstream.go:179-213 | Next gives exactly NextSpec on the reader's state, its failures wrapped with the step that failed |
| ZipStream.BareEOFOnlyAtEnd | zipstream/zipstream.go:179-213 | Next returns the bare io.EOF exactly when the end was already seen or, once the previous entry is finished, the next four bytes are a central-directory or end signature |
| ZipStream.NextAtEndOfInput | zipstream/zipstream.go:195-198 | with no input left where a header should start, Next fails with the header-id read's io.EOF wrapped, not with the bare io.EOF |
| ZipStream.Reader.ReadDataDescriptor | zipstream/zipstream.go:215-243 | reading the descriptor gives exactly DataDescriptor and touches only the stream position |
| ZipStream.EndIsSticky | zipstream/zipstream.go:180-182 | once an end signature was seen, every call returns EOF and changes nothing |
| ZipStream.SignatureHandling | zipstream/zipstream.go:195-206 | a central-directory or end-of-central-directory signature gives EOF and sets the end flag; any other signature but a local header gives ErrFormat |
| ZipStream.StoredEntryRoundTrip | zipstream/zipstream.go:63-213 | a written stored entry is read back with its name, flags and sizes, as the current pending entry, and draining it yields exactly its data and leaves the bytes after it |
| ZipStream.StoredEntryNext | zipstream/zipstream.go:179-213 | Next on a written stored entry makes it current and pending, with its data next in the stream |
| ZipStream.NextAtLocalHeader | zipstream/zipstream.go:195-212 | at a local-header signature Next returns readEntry's entry and makes it current, or readEntry's error wrapped |
| ZipStream.StoredBytesSplit | zipstream/zipstream.go:64-103 | a written stored entry starts with the local-header signature, then its fixed header, its name and its data |
| ZipStream.ReadStoredEntry | zipstream/zipstream.go:63-103 | readEntry on a written header and name without extras reads exactly them |
| ZipStream.IsDirOfName | zipstream/zipstream.go:53-56 | an entry is a directory exactly when its name's last byte is '/' |
| ZipStream.EmptyNameIsNotDir | zipstream/zipstream.go:53-56 | an empty name is not a directory |
| ZipStream.NextOkAdvances | zipstream/zipstream.go:179-213 | a successful Next makes its entry current, leaves the end flag clear and consumes at least the signature and the fixed header |
| ZipStream.ContentsShrinks | zipstream/zipstream.go:58-60 | reading an entry's data only consumes stream bytes and keeps the current entry |
| ZipStream.NextWhenIdle | zipstream/zipstream.go:183-194 | a current entry already read to its end and without descriptor adds nothing: Next behaves as on a fresh reader |
| GoSerialized.ZstdRoundTrip | common/serialized.go:85-110 | an encoder that writes nothing for empty input and, for any other input, a frame the decoder recognises and inverts makes decompress invert compress; the empty blob passes through as plain data |
| GoSerialized.Decompress | common/serialized.go:94-110 | data whose header does not decode is returned unchanged; otherwise the decoder's result, its errors included |
| GoSerialized.DecompressPassesPlainData | common/serialized.go:95-99 | data that is not a Zstandard header passes through unchanged |
| GoSerialized.DecompressAcceptsUnknownSize | common/serialized.go:100-109 | unlike the Rust store, a frame without a content size is still decoded |
| GoSerialized.Sparse | common/serialized.go:23-26 | the sparse report keeps the measures and has no units and no categories |
| GoSerialized.UnitKey | common/serialized.go:43-49 | a unit key is 32 bytes: the first half of the BLAKE3-512 digest |
| GoSerialized.SerializeUnitsShape | common/serialized.go:38-51 | one serialized unit per unit, in order, each with the key of its encoding and the compressed encoding |
| GoSerialized.SerializeUnitsFails | common/serialized.go:39-42 | serializing the units fails exactly when some unit fails to marshal |
| GoSerialized.SerializeFails | common/serialized.go:30-42 | Serialize fails exactly when the sparse report or some unit fails to marshal |
| GoSerialized.Serialize | common/serialized.go:22-53 | the loop gives exactly the specification's sparse data and unit list |
| GoSerialized.PrefixFailure | common/serialized.go:38-42 | the first unit that fails to marshal decides the error; later units are not looked at |
| GoSerialized.Deserialize | common/serialized.go:55-83 | the loop gives exactly the specification's report |
| GoSerialized.DeserializeUnitsSound | common/serialized.go:65-81 | every unit read back decompressed, matched its key and unmarshalled to the unit at its position |
| GoSerialized.KeyMismatchFails | common/serialized.go:70-75 | a unit whose decompressed bytes do not hash to its key makes Deserialize fail |
| GoSerialized.FirstMismatchReported | common/serialized.go:73-75 | the error is "unit key mismatch" |
| GoSerialized.DeserializeUnitsOfSerialized | common/serialized.go:38-51 | with lawful codecs, reading back serialized units yields the units, in order (also lines 65-81) |
| GoSerialized.TailSerialized | common/serialized.go:38-51 | serializing the units after the first gives the serialized units after the first |
| GoSerialized.SerializeRoundTrip | common/serialized.go:22-83 | with lawful codecs, Deserialize after Serialize gives back the measures and units, with no categories and no total count |
| Store.Decompress | src/db/mod.rs:484-492 | data that is not a Zstandard frame is passed through; a frame without a content size is an error; otherwise the frame is decoded to its announced size |
| Store.ZstdRoundTrip | src/db/mod.rs:470-492 | a compressor that always writes the content size and a decoder that inverts it make decompress invert compress |
| Store.DecompressPassesLargeWindow | src/db/mod.rs:485-490 | a frame whose window log is above 31 makes get_frame_content_size fail, so the blob is returned unchanged |
| Store.DecompressPassesPlainData | src/db/mod.rs:490 | data starting with neither Zstandard magic is returned unchanged |
| Store.ReportBody | src/db/mod.rs:70-78 | the stored report body is the report without its units, and putting the units back gives the report |
| Store.UnitKeys | src/db/mod.rs:96-100 | one key per unit, in unit order: the hash of its encoding |
| Store.ProjectOf | src/db/mod.rs:170 | the project with this id is found exactly when one exists (also lines 272-294) |
| Store.InsertByIndex | src/db/mod.rs:217 | inserting a join row into a list adds exactly that row |
| Store.SortByIndex | src/db/mod.rs:217 | ordering the join rows by unit_index is a permutation |
| Store.InsertByIndexOrdered | src/db/mod.rs:217 | insertion keeps the rows in unit_index order |
| Store.InsertByIndexBound | src/db/mod.rs:217 | insertion keeps a lower bound on the indices |
| Store.ConsOrdered | src/db/mod.rs:217 | a row no larger than every later row keeps the list ordered |
| Store.SortByIndexOrdered | src/db/mod.rs:217 | the unit rows come back in unit_index order |
| Store.UnitRows | src/db/mod.rs:212-222 | the unit query only returns rows of this report whose unit exists |
| Store.ReportExists | src/db/mod.rs:243-263 | true exactly when some report of a project with this owner and repo has this commit, ignoring ASCII case |
| Store.MaxTimestamp | src/db/mod.rs:328-332 | the largest timestamp among the project's reports: one of them has it, none exceeds it |
| Store.Candidates | src/db/mod.rs:301-347 | with a commit: exactly the project's reports of that commit, ignoring case; without one: exactly the project's reports at its latest timestamp, empty only when it has none |
| Store.LatestBefore | src/db/mod.rs:353-366 | the project's report latest before the timestamp, absent exactly when none is earlier |
| Store.EarliestAfter | src/db/mod.rs:367-380 | the project's report earliest after the timestamp, absent exactly when none is later |
| Store.Versions | src/db/mod.rs:387 | the versions of the rows, in row order |
| Store.GetProjectInfo | src/db/mod.rs:265-391 | no info for an unknown project or when no report qualifies; otherwise the info carries the project found by owner and repo |
| Store.ProjectInfoVersions | src/db/mod.rs:301-350 | the listed versions are sorted and are exactly those of the qualifying reports, and the commit is that of the first of them (also lines 381-387) |
| Store.SortedVersions | src/db/mod.rs:308-333 | ordering by version is sorted and keeps every row's version |
| Store.ProjectInfoNeighbours | src/db/mod.rs:352-380 | prev and next are the project's nearest commits before and after the info's timestamp, absent exactly when none exists |
| Store.NeighbourCommits | src/db/mod.rs:353-380 | the neighbour queries satisfy the previous- and next-commit definitions |
| Store.InsertedUnitNameDecodes | src/db/mod.rs:103-111 | the name stored with a unit is the one its blob decodes to (also lines 452-453) |
| Store.Database.constructor | src/db/mod.rs:32-48 | a new database has empty tables and an empty cache |
| Store.Database.InsertReport | src/db/mod.rs:52-145 | the tables become InsertSpec of the old tables, the cache gets the report under the lower-cased key, and the table invariants hold |
| Store.Database.InsertUnitRows | src/db/mod.rs:96-115 | the unit loop yields the unit keys and InsertUnits |
| Store.Database.InsertLinkRows | src/db/mod.rs:116-131 | the join-row loop yields InsertLinks |
| Store.Database.GetReport | src/db/mod.rs:147-241 | get_report gives exactly GetReportSpec on the tables and the old cache, and the new cache |
| Store.Database.ReadUnitRows | src/db/mod.rs:212-236 | the row loop gives exactly ReadUnits |
| Store.Database.FixupReportUnits | src/db/mod.rs:440-467 | only unit names change, a present name never changes, a set name is the decoded one; on success every unit has a name, on failure some unnamed unit does not decode |
| Store.Database.EvictCache | src/db/mod.rs:44 | a capacity eviction drops one entry and nothing else |
| Store.FixupStep | src/db/mod.rs:451-465 | naming one unit keeps the fixup loop's invariant |
| Store.FixupOutcome | src/db/mod.rs:440-467 | the loop invariant gives the fixup's postcondition |
| Store.InsertProjectRows | src/db/mod.rs:55-69 | the project insert keeps existing rows, does nothing for a known id, and otherwise appends the project |
| Store.InsertProjectValid | src/db/mod.rs:59 | project ids stay unique |
| Store.UpsertReportValid | src/db/mod.rs:79-95 | report identities stay unique and the returned id is a row of this project |
| Store.InsertUnitsDomain | src/db/mod.rs:103-114 | inserting units keeps stored rows, stores every key and adds no other key |
| Store.InsertUnitsNewRows | src/db/mod.rs:103-114 | every new row is the row of one of the inserted units |
| Store.InsertLinkValid | src/db/mod.rs:123 | one join-row insert keeps join rows unique |
| Store.InsertLinksShape | src/db/mod.rs:116-131 | join rows are only appended, for this report, one of its keys and an index in range |
| Store.InsertLinksValid | src/db/mod.rs:116-131 | join rows stay unique |
| Store.ReportsReferProjects | src/db/mod.rs:55-95 | every report row still refers to a project |
| Store.LinksReferTables | src/db/mod.rs:96-131 | every join row still refers to a report and a unit |
| Store.InsertPreservesValid | src/db/mod.rs:52-145 | insert_report keeps all table invariants |
| Store.InsertKeepsUniqueness | src/db/mod.rs:52-131 | insert_report keeps the three uniqueness constraints |
| Store.InsertKeepsReportProjects | src/db/mod.rs:55-95 | insert_report keeps every report's project present |
| Store.InsertKeepsLinkTargets | src/db/mod.rs:79-131 | insert_report keeps every join row's report and unit present |
| Store.KeysInserted | src/db/mod.rs:96-115 | after the unit loop every old and every new key is stored |
| Store.UnitsAlreadyStored | src/db/mod.rs:107 | units already stored change nothing |
| Store.LinkConflictGrows | src/db/mod.rs:123 | a conflict stays a conflict as rows are appended |
| Store.InsertLinksCovers | src/db/mod.rs:116-131 | after the loop every key's join row conflicts with a stored one |
| Store.LinksAlreadyStored | src/db/mod.rs:123 | join rows that all conflict change nothing |
| Store.InsertProjectAgain | src/db/mod.rs:59 | a second insert of the same project id changes nothing |
| Store.UpsertFindsRow | src/db/mod.rs:79-95 | after the upsert the returned row has this identity and the new timestamp |
| Store.ReportRowIndexIgnoresCase | src/db/mod.rs:83 | versions and commits that differ only in ASCII case find the same row |
| Store.UpsertAgain | src/db/mod.rs:83-85 | a second upsert of the same identity, ignoring case, only sets the timestamp of the same row |
| Store.InsertUnitsAgain | src/db/mod.rs:107 | inserting the same units twice is the same as once |
| Store.InsertLinksAgain | src/db/mod.rs:123 | inserting the same join rows twice is the same as once |
| Store.InsertSpecFields | src/db/mod.rs:52-131 | each table changes by its own statement: projects, reports, units and join rows in turn |
| Store.InsertIdempotent | src/db/mod.rs:52-145 | inserting the same report file twice gives the same tables as once |
| Store.UpsertIdempotent | src/db/mod.rs:79-95 | repeating an upsert changes nothing and returns the same id |
| Store.ReinsertRefreshesTimestamp | src/db/mod.rs:59-85 | re-inserting a report of the same identity keeps the projects and only refreshes the existing row's timestamp |
| Store.ReadUnitsSound | src/db/mod.rs:223-236 | every unit read back had the expected index, a 32-byte key, decompressed, matched its hash and decoded to the unit at its position |
| Store.CorruptUnitFailsRead | src/db/mod.rs:229-233 | a stored unit whose bytes do not hash to its key makes the read fail |
| Store.GetReportNone | src/db/mod.rs:155-202 | no report exactly when no row matches owner, repo, version and commit ignoring case, and then the cache is unchanged |
| Store.GetReportHitsCache | src/db/mod.rs:203-211 | a cached key leaves the cache alone and a found report is the cached one |
| Store.InsertFillsLookupKey | src/db/mod.rs:133-140 | the key insert_report caches under is the key get_report looks up (also lines 203-208) |
| Store.ProjectOfInsert | src/db/mod.rs:55-69 | after the project insert a known id keeps its project and a new id finds the inserted one |
| Store.InsertedReportFound | src/db/mod.rs:79-95 | a fresh report is appended as one row and found by its own coordinates (also lines 155-178) |
| Store.UnitsStoredAfterInsert | src/db/mod.rs:96-115 | every inserted unit is stored under its key with a blob that decodes to it |
| Store.PositionedLinks | src/db/mod.rs:116-131 | the join rows of a report at consecutive positions from start |
| Store.FreshLinks | src/db/mod.rs:116-131 | distinct keys of a new report each get a join row with their index, appended in order |
| Store.FreshLinkAppended | src/db/mod.rs:116-131 | a fresh key's join row is appended and what is left stays distinct and fresh |
| Store.InsertByIndexAtEnd | src/db/mod.rs:217 | a row with the largest index goes last |
| Store.SortByIndexOfSorted | src/db/mod.rs:217 | ordered rows keep their order |
| Store.UnitRowsOfFresh | src/db/mod.rs:212-222 | a report's unit rows are its own rows in index order |
| Store.ReadStoredUnit | src/db/mod.rs:223-235 | a stored unit at the expected position is read back and the read goes on |
| Store.ReadPositioned | src/db/mod.rs:223-236 | stored units at consecutive positions are read back in order |
| Store.InsertedLinks | src/db/mod.rs:116-131 | a new report's join rows are appended with their positions |
| Store.InsertedUnitsStored | src/db/mod.rs:96-115 | after insert_report every unit of the file is stored |
| Store.AddedUnitRows | src/db/mod.rs:212-222 | ordered rows of a new report are its unit rows |
| Store.StoredUnitsRead | src/db/mod.rs:212-236 | stored units linked at consecutive positions are read back in order |
| Store.PositionedReads | src/db/mod.rs:223-236 | reading the positioned rows of stored units gives the units |
| Store.PositionedRows | src/db/mod.rs:212-222 | the positioned rows are exactly the new report's unit rows |
| Store.InsertThenRead | src/db/mod.rs:52-241 | with lawful codecs, a fresh report inserted and then read by its coordinates comes back migrated with its project, and the cache then holds it |
| Store.RepeatedKeyLinkedOnce | src/db/mod.rs:116-131 | a unit repeated in a report gets only its first join row, so the following index has a gap |
| Store.FirstLinkAdded | src/db/mod.rs:123 | a report's first join row is appended |
| Store.RepeatLinkSkipped | src/db/mod.rs:123 | a join row for the same report and unit is skipped |
| Store.OtherLinkAdded | src/db/mod.rs:123 | a join row for another unit at another index is appended |
| Store.RepeatedUnitBreaksRead | src/db/mod.rs:116-131 | a report that repeats a unit cannot be read back: the index check fails (also lines 224-227) |
| Store.IndexGapFailsRead | src/db/mod.rs:224-227 | a row whose index is not the number of units read so far makes the read fail |
| Store.InsertedBodyReads | src/db/mod.rs:70-78 | the stored report body decompresses and decodes back to the body (also lines 183-184) |
| Store.InsertThenReadCached | src/db/mod.rs:133-143 | right after insert_report, the read by the file's own coordinates returns the cached report itself, unmigrated, and leaves the cache unchanged (also lines 203-211) |
| GoStore.UpsertProject | database/projects.go:9-18 | the project row is inserted with the current time or, when its id exists, has owner and name replaced and keeps its timestamps; no other project changes |
| GoStore.UpsertProjectIdempotent | database/projects.go:9-18 | repeating the project upsert changes nothing |
| GoStore.Keys | database/reports.go:41-46 | the join rows use each unit's key, in unit order |
| GoStore.UnitRows | database/reports.go:105-113 | the unit query only returns rows of this report whose unit exists |
| GoStore.StoredUnits | database/reports.go:118-133 | one serialized unit per returned row, in order, with the stored blob |
| GoStore.DB.constructor | database/reports.go:10-144 | a new store has no projects, reports, units or join rows |
| GoStore.DB.InsertReport | database/reports.go:10-53 | InsertReport succeeds exactly when the report serializes and no statement fails; then the tables become InsertSpec of the old tables, and otherwise nothing changes |
| GoStore.DB.Transaction | database/reports.go:15-52 | the transaction succeeds exactly when none of its statements fails, and then yields InsertSpec |
| GoStore.DB.InsertUnitRows | database/reports.go:23-62 | the unit loop fails exactly when one of its inserts fails, and otherwise yields InsertUnits |
| GoStore.DB.InsertLinkRows | database/reports.go:41-51 | the join-row loop fails exactly when one of its inserts fails, and otherwise yields InsertLinks |
| GoStore.DB.ReportExists | database/reports.go:64-78 | true exactly when a report row has this project id, version and commit |
| GoStore.DB.GetReport | database/reports.go:80-144 | GetReport gives exactly GetReportSpec on the stored tables |
| GoStore.DB.CollectUnits | database/reports.go:118-133 | collecting fails exactly when some stored key is not 32 bytes, and otherwise yields StoredUnits |
| GoStore.InsertUnitsKeeps | database/reports.go:55-62 | inserting units never changes a stored blob, stores every key, and adds no other key |
| GoStore.InsertUnitsFirstBlob | database/reports.go:58 | a new key keeps the blob of its first occurrence |
| GoStore.UpsertExisting | database/reports.go:29-36 | a report row that already exists only gets the new timestamp, keeps its data, and its id is returned |
| GoStore.CaseMatters | database/reports.go:31-33 | versions that differ only in letter case are separate report rows |
| GoStore.RepeatedKeyKeepsFirstIndex | database/reports.go:44-45 | a unit key repeated in one report keeps only its first join row and index |
| GoStore.FreshLinks | database/reports.go:41-51 | distinct keys of a new report each get a join row with their index, appended in order |
| GoStore.FreshLinkAppended | database/reports.go:44-45 | a fresh key's join row is appended, and what is left stays distinct and fresh |
| GoStore.GetReportNone | database/reports.go:80-101 | GetReport gives no report exactly when no row of this project, version and commit exists or the project is missing |
| GoStore.GetReportCarriesQuery | database/reports.go:83-96 | a found report carries the queried project id, version and commit, the project's stored owner and name, and the stored row's timestamp (also lines 138-143) |
| GoStore.UnitRowsOrdered | database/reports.go:105-113 | the unit rows are in unit_index order and are exactly the report's join rows whose unit exists |
| GoStore.BadKeyFails | database/reports.go:124-127 | a stored key that is not 32 bytes makes GetReport fail with "invalid key length" |
| GoStore.InsertThenRead | database/reports.go:10-144 | a report not stored before, inserted and read by its identity, comes back with its measures and units and the project's owner and name |
| GoStore.FoundReport | database/reports.go:80-144 | a found row whose units deserialize gives the report file built from the row, the project and the units |
| GoStore.InsertedUnitsRead | database/reports.go:23-51 | after inserting a new report, its unit rows are its positioned keys and read back as its serialized units (also lines 105-133) |
| GoStore.StoredOfPositioned | database/reports.go:105-133 | join rows with fresh positions read back as the stored units, in order |
| GoStore.InsertedRowFound | database/reports.go:20-36 | a new report row is appended and found, and its project holds the given owner and name |
| GoStore.InsertedLinks | database/reports.go:41-51 | a new report's join rows are appended with their positions |
| GoStore.InsertedUnitsPresent | database/reports.go:23-28 | every inserted key is then stored |
| GoStore.InsertedBlobs | database/reports.go:23-62 | with distinct keys that agree with what is stored, every key holds its own blob |
| GoStore.RepeatedUnitReadOnce | database/reports.go:41-51 | a unit repeated in a report is read back only once (also lines 105-133) |
| Zstd.FcsFieldSize | src/db/mod.rs:485 | the content-size field of a frame header is 0, 1, 2, 4 or 8 bytes long |
| Zstd.DidFieldSize | src/db/mod.rs:485 | the dictionary-id field of a frame header is 0, 1, 2 or 4 bytes long |
| Zstd.ParseHeader | common/serialized.go:95-99 | data shorter than the magic number, or starting with neither the frame nor a skippable magic, is not a frame; a frame header with the reserved bit set is refused; a parsed frame header starts with the magic and fits in the data |
| Zstd.FrameContentSize | src/db/mod.rs:485-490 | get_frame_content_size is an error exactly when the header does not parse or its window log is above 31, and reports an unknown size exactly for an accepted frame header without a content-size field |
| Zstd.EncodeHeader | src/db/mod.rs:471-482 | a header written with the content-size flag starts with the frame magic |
| Zstd.DescriptorFields | src/db/mod.rs:471-475 | the written descriptor byte carries the content-size code, the single-segment and checksum flags, a clear reserved bit and no dictionary id |
| Zstd.FcsBytesValue | src/db/mod.rs:471-475 | the written content-size field has the length the descriptor announces and decodes to the size, the 2-byte form offset by 256 |
| Zstd.ParseEncodedHeader | src/db/mod.rs:471-485 | a written header parses back, whatever follows it, to a frame with the written flags, window and content size |
| Zstd.EncodedHeaderAnnouncesSize | src/db/mod.rs:474-487 | the compressor's content-size flag makes every compressed blob with an accepted window announce its size to the decompressor |

## Left out

- **I/O.** HTTP serving, the GitHub and go-github API calls, artifact
  downloads, `upsertComment`'s API calls, logging and configuration are not
  modelled. Their results are parameters: the API answers, the artifact
  listing, the downloaded bytes, the PR head commit and the listed runs of
  `processPR`.
- **Foreign libraries.** Zstandard decoding, BLAKE3, protobuf and protojson
  encoding, DEFLATE, the `zip` crate and objdiff_core's `parse`, `migrate` and
  `split` are not modelled. They are uninterpreted function fields, and their
  laws are stated as preconditions.
- **Regex engine.** It is not modelled; each pattern is an explicit predicate
  on strings.
- **The SQL engine, schema migrations and the connection pool.** They are not
  modelled: tables are sequences and maps with the schema's uniqueness and
  conflict rules. The schema itself is not part of this model, so its
  constraints are assumed. Unique keys `projects (id)`,
  `reports (project_id, version, git_commit)` (the last two NOCASE) and
  `report_units (id)` are the ones the `ON CONFLICT` targets name. The
  untargeted `ON CONFLICT DO NOTHING` into `report_report_units` is taken to
  guard both `(report_id, report_unit_id)` and `(report_id, unit_index)`
  (`Store.LinkConflict`). COLLATE NOCASE is ASCII lower-casing. Timestamps are
  integers. A new database starts empty.
- **Database errors.** In the Rust store, SQL statement failures are not
  modelled. In the Go store, a failure is the `failAt` input naming the
  failing statement, and its message is a fixed constant.
- **Error text.** Errors carry the source's message where the source fixes it
  ("unit key mismatch", "invalid key length"). Wrapped context strings and the
  formatted index in `bail!` messages are a single constant or the raw error.
  The `%w` wrapping in `zipstream.Next` is kept as the step that failed around
  the cause, because `err == io.EOF` tells a wrapped io.EOF from the bare one.
- **Concurrency.** The semaphore and JoinSet fan-out of `run`, and goroutines,
  are not modelled: the tasks run sequentially in listing order. Every
  existence check happens before the first insert, so the order in which
  results are joined is not modelled either.
- **Store.Database.EvictCache.** The report cache is a map. Eviction is a
  method that may drop any entry; moka's recency policy and its 100-entry
  capacity are not modelled.
- **Floating point.** Percentages are `real`s, so there is no NaN, no
  infinity and no float32 rounding. The `%.2f`/`{:.2}` rendering is a
  parameter `fmt2`. Treemap layout, SVG/PNG rendering and `aspect` are not
  modelled.
- **ObjdiffReport.FetchReportFiles.** The result is sorted stably by version,
  whereas `sort.Slice` is not stable. Files that share a version may
  therefore come back in a different relative order.
- **ZipStream.Drain.** For deflated entries, the number of input bytes the
  inflater consumes is taken from the inflater parameter. `bufio`'s
  read-ahead and `flate`'s internal buffering are not modelled.
  CRC-32 checksums are not verified, as in the source.
- **URLs and MIME types.** Percent-encoding, `set_path` normalisation and
  `parse_accept` are not modelled. Keys, values and paths are decoded
  strings, and the accepted content types are an input.
- **Windows paths.** `join_normalized` splits paths by Unix rules. Windows
  prefixes and backslash separators are not modelled.
- **Presentation plumbing.** Routing, templates, CSS/JS assets, the project
  list and the cron job are not modelled.
- **Util.QueryParamIdempotent.** The lemma requires a value other than
  `Some("")`. For that value the rewrite is not idempotent when the key is
  absent: `QueryParamEmptyValueExample` shows the appended `key=` coming back
  as a bare `key`. It also requires that the query hold no `=` piece (empty
  key, empty value) unless the key itself is empty. After a written piece the
  first call writes such a piece back as the empty piece, which the second
  call skips: `a=1&=` becomes `a=1&` and then `a=1`
  (`QueryParamEmptyPairExample`). Leading empty pieces are written as nothing
  at all, so `=&a=1` becomes `a=1` and stays so
  (`QueryParamLeadingEmptyExample`).
- **Zstd.FrameContentSize.** The window limit is the 64-bit one (window log
  31); on 32-bit targets libzstd's limit is 30.
- **Behaviour of the code worth knowing (the model follows the code):**
  - The artifact patterns use the character class `[A-z0-9_\-]`, which also
    admits `[`, `\`, `]`, `^` and the backtick, not `[A-Za-z0-9_-]`.
  - The Rust `insert_report` never updates an existing project row
    (`ON CONFLICT (id) DO NOTHING`), and it does not write the platform
    column, which `get_report` and `get_project_info` read back.
  - The Go `UpsertProject` overwrites owner and name.
  - The Go `decompress` also decodes frames without a content size, which
    the Rust `decompress` refuses.
  - The Go `FetchReportFiles` aborts the whole call on any listing,
    download, read or parse error; it does not skip just the failing
    artifact.
  - A report that lists the same unit twice is stored with one join row for
    it. Its later indices then have a gap, so the Rust `get_report` can
    never read it back after a cache miss (`Store.RepeatedUnitBreaksRead`).
    The Go `GetReport` reads it with the repeated unit once
    (`GoStore.RepeatedUnitReadOnce`).
  - A cache hit returns the report that `insert_report` cached, which was
    never passed through `migrate` by the store
    (`Store.InsertThenReadCached`). A miss migrates the rebuilt report.
