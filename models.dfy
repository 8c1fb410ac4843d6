/** Projects, commits and report files as the web service passes them around,
    with the display fallbacks of `Project` and `ProjectInfo`. */
module Models {
  import opened Wrappers
  import opened Ints
  import opened Text
  import opened ReportData

  datatype Project = Project(
    id: u64,
    owner: string,
    repo: string,
    name: Option<string>,
    shortName: Option<string>,
    defaultVersion: Option<string>,
    platform: Option<string>)

  /** A commit: its SHA and its (opaque, ordered) timestamp. */
  datatype Commit = Commit(sha: string, timestamp: int)

  datatype ProjectInfo = ProjectInfo(
    project: Project,
    commit: Commit,
    reportVersions: seq<string>,
    prevCommit: Option<string>,
    nextCommit: Option<string>)

  datatype ReportFile = ReportFile(project: Project, commit: Commit, version: string, report: Report)

  /** `Project::name`: the display name, falling back to "owner/repo". */
  function Name(p: Project): (r: string)
    ensures p.name.Some? ==> r == p.name.value
    ensures p.name.None? ==> r == p.owner + "/" + p.repo
  {
    if p.name.Some? then p.name.value else p.owner + "/" + p.repo
  }

  /** Without a display name, the name splits back into owner and repo at its last '/'. */
  lemma NameSplitsIntoOwnerAndRepo(p: Project)
    requires p.name.None? && '/' !in p.repo
    ensures RSplitOnce(Name(p), '/') == Some((p.owner, p.repo))
  {
    var r := RSplitOnce(Name(p), '/');
    SplitAtLastUnique(r.value.0, r.value.1, p.owner, p.repo, '/');
  }

  /** `Project::short_name`: short name, else name, else repo. */
  function ShortName(p: Project): (r: string)
    ensures p.shortName.Some? ==> r == p.shortName.value
    ensures p.shortName.None? && p.name.Some? ==> r == p.name.value
    ensures p.shortName.None? && p.name.None? ==> r == p.repo
  {
    p.shortName.Or(p.name).GetOr(p.repo)
  }

  const GITHUB_PREFIX: string := "https://github.com/"

  /** `Project::repo_url`. */
  function RepoUrl(p: Project): (r: string)
    ensures StartsWith(r, GITHUB_PREFIX)
    ensures r[|GITHUB_PREFIX|..] == p.owner + "/" + p.repo
  {
    GITHUB_PREFIX + p.owner + "/" + p.repo
  }

  /** Distinct repositories get distinct URLs (owner logins contain no '/'). */
  lemma RepoUrlInjective(p: Project, q: Project)
    requires '/' !in p.owner && '/' !in q.owner
    requires RepoUrl(p) == RepoUrl(q)
    ensures p.owner == q.owner && p.repo == q.repo
  {
    var n := |GITHUB_PREFIX|;
    assert RepoUrl(p)[n..] == p.owner + "/" + p.repo;
    assert RepoUrl(q)[n..] == q.owner + "/" + q.repo;
    SplitAtFirstUnique(p.owner, p.repo, q.owner, q.repo, '/');
  }

  /** `ProjectInfo::default_version`: the configured default version when a report
      exists for it, else the first known version. */
  function DefaultVersion(info: ProjectInfo): (r: Option<string>)
    ensures r.None? <==> info.reportVersions == []
    ensures r.Some? ==> r.value in info.reportVersions
    ensures (info.project.defaultVersion.Some? && info.project.defaultVersion.value in info.reportVersions)
              ==> r == info.project.defaultVersion
    ensures ((info.project.defaultVersion.None? || info.project.defaultVersion.value !in info.reportVersions)
             && info.reportVersions != [])
              ==> r == Some(info.reportVersions[0])
  {
    var dv := info.project.defaultVersion;
    if dv.Some? && dv.value in info.reportVersions then dv
    else if info.reportVersions != [] then Some(info.reportVersions[0])
    else None
  }
}
