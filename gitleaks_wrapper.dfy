/** The adapter around the gitleaks secret-detection engine: it builds the
    engine's argument list, turns the engine's exit code into a list of
    findings, maps each record of the engine's JSON report to a finding, and
    rewrites a Bitbucket leak URL into a permalink to the commit.

    Running the process, reading and JSON-decoding the report file and
    turning a report date into a timestamp are done outside this model: their
    results are parameters. */
module GitLeaks {
  import opened Wrappers
  import opened Text
  import opened Decimal

  /** The engine exit codes the wrapper is configured with. Their values are
      defined in the scanner's constants module, which is not part of this
      model, so they are parameters here and may even coincide. */
  datatype ExitCodes = ExitCodes(leaksFound: int, noLeaksFound: int)

  /** The wrapper's configuration; set once on construction and never changed. */
  datatype GitLeaksWrapper = GitLeaksWrapper(
    rulesFilepath: string,
    reportFilepath: string,
    repositoryPath: string,
    scanFrom: Option<string>,
    gitleaksPath: string,
    gitScan: bool)

  /** Construction with the source's defaults: no start commit, the `gitleaks`
      binary found on the search path, and a scan of the git history. */
  function NewGitLeaksWrapper(
    rulesFilepath: string,
    reportFilepath: string,
    repositoryPath: string,
    scanFrom: Option<string> := None,
    gitleaksPath: string := "gitleaks",
    gitScan: bool := true): (w: GitLeaksWrapper)
    ensures w.rulesFilepath == rulesFilepath && w.reportFilepath == reportFilepath
    ensures w.repositoryPath == repositoryPath && w.scanFrom == scanFrom
    ensures w.gitleaksPath == gitleaksPath && w.gitScan == gitScan
  {
    GitLeaksWrapper(rulesFilepath, reportFilepath, repositoryPath, scanFrom, gitleaksPath, gitScan)
  }

  // ---------------------------------------------------------------------------
  // Command builder

  /** An incremental scan: `scan_from` is truthy, i.e. present and not empty. */
  predicate IsIncremental(w: GitLeaksWrapper)
  {
    w.scanFrom.Some? && w.scanFrom.value != ""
  }

  /** The commit range handed to `git log`: every commit after `from`. */
  function LogOptsArgument(from: string): string
  {
    "--log-opts=" + from + ".."
  }

  /** The six arguments every invocation starts with. */
  function BaseArguments(w: GitLeaksWrapper, codes: ExitCodes): seq<string>
  {
    [ w.gitleaksPath,
      "detect",
      "--source=" + w.repositoryPath,
      "--config=" + w.rulesFilepath,
      "--report-path=" + w.reportFilepath,
      "--exit-code=" + IntToDecimal(codes.leaksFound) ]
  }

  /** The engine's argument list: the six base arguments, then `--no-git`
      when the target is a plain directory, then the commit range when the
      scan is incremental. */
  method BuildCommand(w: GitLeaksWrapper, codes: ExitCodes) returns (command: seq<string>)
    ensures |command| == 6 + (if w.gitScan then 0 else 1) + (if IsIncremental(w) then 1 else 0)
    ensures command[..6] == BaseArguments(w, codes)
    ensures !w.gitScan <==> "--no-git" in command[6..]
    ensures !w.gitScan ==> command[6] == "--no-git"
    ensures IsIncremental(w) ==> command[|command| - 1] == LogOptsArgument(w.scanFrom.value)
    ensures !IsIncremental(w) ==> forall k :: 6 <= k < |command| ==> command[k] == "--no-git"
  {
    command := BaseArguments(w, codes);
    if !w.gitScan {
      command := command + ["--no-git"];
      assert command[6..][0] == "--no-git";
    }
    if IsIncremental(w) {
      var logOpts := LogOptsArgument(w.scanFrom.value);
      assert logOpts != "--no-git" by { assert |logOpts| != |"--no-git"|; }
      command := command + [logOpts];
      assert w.gitScan ==> command[6..] == [logOpts];
      assert !w.gitScan ==> command[6..][0] == "--no-git";
    }
  }

  // ---------------------------------------------------------------------------
  // Report records and findings

  /** A point in time. How a report's date text becomes one (ISO 8601
      parsing, with the current time as fallback) is supplied by the caller. */
  type Instant = int

  /** One decoded record of the engine's JSON report, restricted to the keys
      the wrapper reads. */
  datatype ReportRecord = ReportRecord(
    file: string,
    startLine: int,
    startColumn: int,
    endColumn: int,
    email: string,
    author: string,
    commit: string,
    message: string,
    date: string,
    ruleId: string)

  /** A detected secret, as handed on to the rest of the scanner. */
  datatype Finding = Finding(
    filePath: string,
    lineNumber: int,
    columnStart: int,
    columnEnd: int,
    email: string,
    author: string,
    commitId: string,
    commitMessage: string,
    commitTimestamp: Instant,
    ruleName: string)

  /** The record a finding was made from, given the record's date text. */
  function RecordOf(f: Finding, date: string): ReportRecord
  {
    ReportRecord(f.filePath, f.lineNumber, f.columnStart, f.columnEnd, f.email,
                 f.author, f.commitId, f.commitMessage, date, f.ruleName)
  }

  /** The finding for one report record: every field is carried over, and the
      date becomes a timestamp. */
  function ToFinding(rec: ReportRecord, stamp: string -> Instant): (f: Finding)
    ensures RecordOf(f, rec.date) == rec
    ensures f.commitTimestamp == stamp(rec.date)
  {
    Finding(
      filePath := rec.file,
      lineNumber := rec.startLine,
      columnStart := rec.startColumn,
      columnEnd := rec.endColumn,
      email := rec.email,
      author := rec.author,
      commitId := rec.commit,
      commitMessage := rec.message,
      commitTimestamp := stamp(rec.date),
      ruleName := rec.ruleId)
  }

  /** One finding per report record, in the report's order. */
  method ParseOutput(records: seq<ReportRecord>, stamp: string -> Instant) returns (findings: seq<Finding>)
    ensures |findings| == |records|
    ensures forall i :: 0 <= i < |records| ==>
      RecordOf(findings[i], records[i].date) == records[i] && findings[i].commitTimestamp == stamp(records[i].date)
  {
    findings := [];
    for i := 0 to |records|
      invariant |findings| == i
      invariant forall j :: 0 <= j < i ==> findings[j] == ToFinding(records[j], stamp)
    {
      var finding := ToFinding(records[i], stamp);
      findings := findings + [finding];
    }
  }

  // ---------------------------------------------------------------------------
  // Exit-code dispatch

  /** What running the engine's command produced. */
  datatype RunOutcome =
    | Exited(code: int)
    | CalledProcessError  // the process library reported a failed run
    | FileNotFound        // the engine binary (or another file) could not be found
    | OtherOSError        // any other OS error starting the process, e.g. permission denied

  /** What reading the report file produced. */
  datatype ReportFile =
    | Decoded(records: seq<ReportRecord>)
    | Missing             // opening the file raised FileNotFoundError
    | Malformed           // the content is not valid UTF-8 JSON
    | Unreadable          // opening the file raised another OS error, e.g. it is a directory

  /** Errors `start_scan` lets escape to its caller. */
  datatype ScanError =
    | EngineNotStarted    // an OS error other than FileNotFoundError from running the engine
    | ReportNotReadable   // an OS error other than FileNotFoundError from opening the report
    | ReportNotDecodable  // the report's content is not valid UTF-8 JSON

  /** The run ended with the leaks-found code, and the no-leaks code, which is
      tested first, did not already claim it. */
  predicate LeaksReported(outcome: RunOutcome, codes: ExitCodes)
  {
    outcome.Exited? && outcome.code != codes.noLeaksFound && outcome.code == codes.leaksFound
  }

  /** Runs a scan given the outcome of the engine process and of reading its
      report: the findings of the report when the engine says it found leaks,
      and an empty list on every handled path. An OS error other than a
      missing file, and a report that cannot be decoded, escape. */
  method StartScan(codes: ExitCodes, outcome: RunOutcome, report: ReportFile, stamp: string -> Instant)
    returns (r: Result<seq<Finding>, ScanError>)
    ensures outcome == Exited(codes.noLeaksFound) ==> r == Success([])
    ensures !LeaksReported(outcome, codes) && !outcome.OtherOSError? ==> r == Success([])
    ensures r.Failure? <==>
      || outcome.OtherOSError?
      || (LeaksReported(outcome, codes) && (report.Malformed? || report.Unreadable?))
    ensures outcome.OtherOSError? ==> r == Failure(EngineNotStarted)
    ensures LeaksReported(outcome, codes) && report.Unreadable? ==> r == Failure(ReportNotReadable)
    ensures LeaksReported(outcome, codes) && report.Malformed? ==> r == Failure(ReportNotDecodable)
    ensures LeaksReported(outcome, codes) && report.Missing? ==> r == Success([])
    ensures LeaksReported(outcome, codes) && report.Decoded? ==>
      && r.Success?
      && |r.value| == |report.records|
      && forall i :: 0 <= i < |report.records| ==>
           RecordOf(r.value[i], report.records[i].date) == report.records[i]
           && r.value[i].commitTimestamp == stamp(report.records[i].date)
  {
    match outcome {
      case Exited(exitcode) =>
        if exitcode == codes.noLeaksFound {
          return Success([]);
        }
        if exitcode == codes.leaksFound {
          match report {
            case Decoded(records) =>
              var findings := ParseOutput(records, stamp);
              return Success(findings);
            case Missing =>
              return Success([]);
            case Malformed =>
              return Failure(ReportNotDecodable);
            case Unreadable =>
              return Failure(ReportNotReadable);
          }
        }
        return Success([]);
      case CalledProcessError =>
        return Success([]);
      case FileNotFound =>
        return Success([]);
      case OtherOSError =>
        return Failure(EngineNotStarted);
    }
  }

  // ---------------------------------------------------------------------------
  // Permalink rewriter

  /** Removes the line anchor: everything from the last `#` on, unless that
      `#` is the first character. */
  function StripLineAnchor(url: string): (r: string)
    ensures |r| <= |url| && r == url[..|r|]
    ensures r != url ==> 0 < |r| && url[|r|] == '#' && '#' !in url[|r| + 1..]
    ensures (exists k :: 0 < k < |url| && url[k] == '#') ==> r != url
    ensures (forall k :: 0 < k < |url| ==> url[k] != '#') ==> r == url
  {
    var hashPos := RFind(url, '#');
    if hashPos > 0 then url[..hashPos] else url
  }

  /** Python's `s[:-n]` for a positive `n`: all but the last `n` characters,
      or nothing when `s` is shorter. */
  function DropLast(s: string, n: nat): (r: string)
    requires n > 0
    ensures |r| <= |s| && r == s[..|r|]
    ensures |r| == if |s| >= n then |s| - n else 0
  {
    if |s| >= n then s[..|s| - n] else ""
  }

  /** The permalink for a leak URL as Bitbucket reports it: drop the line
      anchor, then rewrite, in this order, the `scm` segment to `projects`,
      `blob` to `commits`, the repository segment to `repos/<name without
      its .git suffix>`, and the slash after the commit id to `#`. A URL
      without a line anchor and without any of the four search patterns is
      its own permalink. */
  function PermanentLeakUrl(leakUrl: string, repository: string, commitId: string): (r: string)
    ensures (forall k :: 0 < k < |leakUrl| ==> leakUrl[k] != '#')
      && !Occurs(leakUrl, "/scm/") && !Occurs(leakUrl, "/blob/")
      && !Occurs(leakUrl, "/" + repository + "/") && !Occurs(leakUrl, "/" + commitId + "/")
      ==> r == leakUrl
  {
    var url := StripLineAnchor(leakUrl);
    var url := ReplaceAll(url, "/scm/", "/projects/");
    var url := ReplaceAll(url, "/blob/", "/commits/");
    var url := ReplaceAll(url, "/" + repository + "/", "/repos/" + DropLast(repository, 4) + "/");
    ReplaceAll(url, "/" + commitId + "/", "/" + commitId + "#")
  }

  /** Only the text after the last `#` is dropped, and the line number it
      carries has no influence on the permalink. */
  lemma {:induction false} PermanentLeakUrlIgnoresLineNumber(url: string, line: string, repository: string, commitId: string)
    requires |url| > 0 && '#' !in line
    ensures StripLineAnchor(url + "#" + line) == url
    ensures (forall k :: 0 < k < |url| ==> url[k] != '#') ==>
      PermanentLeakUrl(url + "#" + line, repository, commitId) == PermanentLeakUrl(url, repository, commitId)
  {
    var linked := url + "#" + line;
    var hashPos := RFind(linked, '#');
    assert linked[|url|] == '#';
    assert hashPos >= 0;
    assert linked[..hashPos] == url;
  }

  /** The permalink is the last of the intermediate texts the five steps produce. */
  lemma PermanentLeakUrlSteps(
    leakUrl: string, repository: string, commitId: string, url: string, u1: string, u2: string, u3: string, v: string)
    requires StripLineAnchor(leakUrl) == url
    requires ReplaceAll(url, "/scm/", "/projects/") == u1
    requires ReplaceAll(u1, "/blob/", "/commits/") == u2
    requires ReplaceAll(u2, "/" + repository + "/", "/repos/" + DropLast(repository, 4) + "/") == u3
    requires ReplaceAll(u3, "/" + commitId + "/", "/" + commitId + "#") == v
    ensures PermanentLeakUrl(leakUrl, repository, commitId) == v
  {
  }

  /** Neither the base URL with the slash after it nor the file path with the
      slash before it contains `/x/`. */
  predicate ApartFrom(base: string, path: string, x: string)
  {
    !Occurs(base + "/", "/" + x + "/") && !Occurs("/" + path, "/" + x + "/")
  }

  /** The text after `<base>/scm`, as the first step sees it, holds no
      other `/scm/`. */
  lemma NoScmAfterBase(project: string, repository: string, commitId: string, path: string)
    requires IsSegment(project) && IsSegment(repository) && IsSegment(commitId)
    requires "scm" !in {project, repository, commitId}
    requires !Occurs("/" + path, "/scm/")
    ensures !Occurs("/" + (project + "/" + (repository + "/" + ("blob" + "/" + (commitId + "/" + path)))), "/scm/")
  {
    assert "/" + "scm" + "/" == "/scm/";
    var r1 := commitId + "/" + path;
    var r2 := "blob" + "/" + r1;
    SegmentBefore(commitId, path, "scm");
    SegmentBefore("blob", r1, "scm");
    SegmentBefore(repository, r2, "scm");
    SegmentBefore(project, repository + "/" + r2, "scm");
  }

  /** Around the `/blob/` the second step rewrites, no other `/blob/` occurs. */
  lemma NoBlobAround(base: string, project: string, repository: string, commitId: string, path: string)
    requires IsSegment(project) && IsSegment(repository) && IsSegment(commitId)
    requires "blob" !in {project, repository, commitId}
    requires ApartFrom(base, path, "blob")
    ensures !Occurs(base + "/projects/" + project + "/" + repository + "/", "/blob/")
    ensures !Occurs("/" + (commitId + "/" + path), "/blob/")
  {
    var l1 := repository + "/" + "";
    var l2 := project + "/" + l1;
    var l3 := "projects" + "/" + l2;
    assert base + "/projects/" + project + "/" + repository + "/" == base + "/" + l3;
    assert "/" + "blob" + "/" == "/blob/";
    assert !Occurs(base + "/" + l3, "/" + "blob" + "/") by {
      SegmentBefore(repository, "", "blob");
      SegmentBefore(project, l1, "blob");
      SegmentBefore("projects", l2, "blob");
      SlashSplit(base, l3, "blob");
    }
    SegmentBefore(commitId, path, "blob");
  }

  /** Around the repository segment the third step rewrites, no other copy
      of it occurs. */
  lemma NoRepositoryAround(base: string, project: string, repository: string, commitId: string, path: string)
    requires IsSegment(project) && IsSegment(repository) && IsSegment(commitId)
    requires repository !in {"projects", "commits", project, commitId}
    requires ApartFrom(base, path, repository)
    ensures !Occurs(base + "/projects/" + project + "/", "/" + repository + "/")
    ensures !Occurs("/" + ("commits" + "/" + (commitId + "/" + path)), "/" + repository + "/")
  {
    var l1 := project + "/" + "";
    var l2 := "projects" + "/" + l1;
    SegmentBefore(project, "", repository);
    SegmentBefore("projects", l1, repository);
    SlashSplit(base, l2, repository);
    assert base + "/projects/" + project + "/" == base + "/" + l2;
    SegmentBefore(commitId, path, repository);
    SegmentBefore("commits", commitId + "/" + path, repository);
  }

  /** Before the commit segment the last step rewrites, no other copy of it
      occurs. */
  lemma NoCommitBefore(base: string, project: string, d: string, commitId: string)
    requires IsSegment(project) && IsSegment(d) && IsSegment(commitId)
    requires commitId !in {"projects", "repos", "commits", project, d}
    requires !Occurs(base + "/", "/" + commitId + "/")
    ensures !Occurs(base + "/projects/" + project + "/repos/" + d + "/commits" + "/", "/" + commitId + "/")
  {
    var l1 := "commits" + "/" + "";
    var l2 := d + "/" + l1;
    var l3 := "repos" + "/" + l2;
    var l4 := project + "/" + l3;
    var l5 := "projects" + "/" + l4;
    SegmentBefore("commits", "", commitId);
    SegmentBefore(d, l1, commitId);
    SegmentBefore("repos", l2, commitId);
    SegmentBefore(project, l3, commitId);
    SegmentBefore("projects", l4, commitId);
    SlashSplit(base, l5, commitId);
    assert base + "/projects/" + project + "/repos/" + d + "/commits" + "/" == base + "/" + l5;
  }

  /** `a/scm/b`, with no other `/scm/` on either side, becomes `a/projects/b`. */
  lemma ScmReplaced(s: string, a: string, b: string)
    requires s == a + "/scm/" + b
    requires !Occurs(a + "/", "/scm/") && !Occurs("/" + b, "/scm/")
    ensures ReplaceAll(s, "/scm/", "/projects/") == a + "/projects/" + b
  {
    assert "/" + "scm" + "/" == "/scm/";
    ReplaceSegment(s, a, b, "scm", "/projects/");
  }

  /** `a/blob/b`, with no other `/blob/` on either side, becomes `a/commits/b`. */
  lemma BlobReplaced(s: string, a: string, b: string)
    requires s == a + "/blob/" + b
    requires !Occurs(a + "/", "/blob/") && !Occurs("/" + b, "/blob/")
    ensures ReplaceAll(s, "/blob/", "/commits/") == a + "/commits/" + b
  {
    assert "/" + "blob" + "/" == "/blob/";
    ReplaceSegment(s, a, b, "blob", "/commits/");
  }

  /** First step on a Bitbucket link: only its own `/scm/` becomes `/projects/`. */
  lemma ScmStep(url: string, base: string, project: string, repository: string, commitId: string, path: string)
    requires url == base + "/scm/" + project + "/" + repository + "/blob/" + commitId + "/" + path
    requires IsSegment(project) && IsSegment(repository) && IsSegment(commitId)
    requires "scm" !in {project, repository, commitId}
    requires ApartFrom(base, path, "scm")
    ensures ReplaceAll(url, "/scm/", "/projects/")
         == base + "/projects/" + project + "/" + repository + "/blob/" + commitId + "/" + path
  {
    var b := project + "/" + (repository + "/" + ("blob" + "/" + (commitId + "/" + path)));
    assert url == base + "/scm/" + b;
    assert base + "/projects/" + b == base + "/projects/" + project + "/" + repository + "/blob/" + commitId + "/" + path;
    assert "/" + "scm" + "/" == "/scm/";
    NoScmAfterBase(project, repository, commitId, path);
    ScmReplaced(url, base, b);
  }

  /** Second step: only the `/blob/` after the repository becomes `/commits/`. */
  lemma BlobStep(url: string, base: string, project: string, repository: string, commitId: string, path: string)
    requires url == base + "/projects/" + project + "/" + repository + "/blob/" + commitId + "/" + path
    requires IsSegment(project) && IsSegment(repository) && IsSegment(commitId)
    requires "blob" !in {project, repository, commitId}
    requires ApartFrom(base, path, "blob")
    ensures ReplaceAll(url, "/blob/", "/commits/")
         == base + "/projects/" + project + "/" + repository + "/commits/" + commitId + "/" + path
  {
    var a := base + "/projects/" + project + "/" + repository;
    var b := commitId + "/" + path;
    NoBlobAround(base, project, repository, commitId, path);
    BlobReplaced(url, a, b);
  }

  /** Third step: only the repository segment after the project is rewritten. */
  lemma RepositoryStep(
    url: string, base: string, project: string, repository: string, commitId: string, path: string, rep: string)
    requires url == base + "/projects/" + project + "/" + repository + "/commits/" + commitId + "/" + path
    requires IsSegment(project) && IsSegment(repository) && IsSegment(commitId)
    requires repository !in {"projects", "commits", project, commitId}
    requires ApartFrom(base, path, repository)
    ensures ReplaceAll(url, "/" + repository + "/", rep)
         == base + "/projects/" + project + rep + "commits/" + commitId + "/" + path
  {
    var a := base + "/projects/" + project;
    var b := "commits" + "/" + (commitId + "/" + path);
    NoRepositoryAround(base, project, repository, commitId, path);
    ReplaceSegment(url, a, b, repository, rep);
  }

  /** Last step: only the commit segment after `commits` is rewritten, and
      the slash after it becomes `#`. */
  lemma CommitStep(url: string, base: string, project: string, d: string, commitId: string, path: string)
    requires url == base + "/projects/" + project + "/repos/" + d + "/commits/" + commitId + "/" + path
    requires IsSegment(project) && IsSegment(d) && IsSegment(commitId)
    requires commitId !in {"projects", "repos", "commits", project, d}
    requires ApartFrom(base, path, commitId)
    ensures ReplaceAll(url, "/" + commitId + "/", "/" + commitId + "#")
         == base + "/projects/" + project + "/repos/" + d + "/commits/" + commitId + "#" + path
  {
    var a := base + "/projects/" + project + "/repos/" + d + "/commits";
    NoCommitBefore(base, project, d, commitId);
    ReplaceSegment(url, a, path, commitId, "/" + commitId + "#");
  }

  /** The link Bitbucket reports for a leak,
      `<base>/scm/<project>/<repository>/blob/<commit>/<path>#<line>`, becomes
      `<base>/projects/<project>/repos/<repository without .git>/commits/<commit>#<path>`,
      provided every rewritten segment occurs only where the link's layout
      puts it: the project, repository and commit are single path segments,
      none of them collides with a keyword the rewrite matches or introduces
      or with a segment a later step matches, and no search pattern lies in
      the base or the file path. */
  lemma PermanentLeakUrlOfBitbucketLink(
    base: string, project: string, repository: string, commitId: string, path: string, line: string)
    requires '#' !in line
    requires IsSegment(project) && IsSegment(repository) && IsSegment(commitId)
    requires "scm" !in {project, repository, commitId} && "blob" !in {project, repository, commitId}
    requires repository !in {"projects", "commits", project, commitId}
    requires commitId !in {"projects", "repos", "commits", project, DropLast(repository, 4)}
    requires ApartFrom(base, path, "scm") && ApartFrom(base, path, "blob")
    requires ApartFrom(base, path, repository) && ApartFrom(base, path, commitId)
    ensures PermanentLeakUrl(base + "/scm/" + project + "/" + repository + "/blob/" + commitId + "/" + path + "#" + line,
                             repository, commitId)
         == base + "/projects/" + project + "/repos/" + DropLast(repository, 4) + "/commits/" + commitId + "#" + path
  {
    var d := DropLast(repository, 4);
    assert IsSegment(d) by {
      assert forall k :: 0 <= k < |d| ==> d[k] == repository[k];
    }
    var url := base + "/scm/" + project + "/" + repository + "/blob/" + commitId + "/" + path;
    var leakUrl := url + "#" + line;
    assert StripLineAnchor(leakUrl) == url by {
      PermanentLeakUrlIgnoresLineNumber(url, line, repository, commitId);
    }
    var u1 := base + "/projects/" + project + "/" + repository + "/blob/" + commitId + "/" + path;
    var u2 := base + "/projects/" + project + "/" + repository + "/commits/" + commitId + "/" + path;
    var rep3 := "/repos/" + d + "/";
    var u3 := base + "/projects/" + project + rep3 + "commits/" + commitId + "/" + path;
    var v := base + "/projects/" + project + "/repos/" + d + "/commits/" + commitId + "#" + path;
    assert u3 == base + "/projects/" + project + "/repos/" + d + "/commits/" + commitId + "/" + path;
    ScmStep(url, base, project, repository, commitId, path);
    BlobStep(u1, base, project, repository, commitId, path);
    RepositoryStep(u2, base, project, repository, commitId, path, rep3);
    CommitStep(u3, base, project, d, commitId, path);
    PermanentLeakUrlSteps(leakUrl, repository, commitId, url, u1, u2, u3, v);
  }
}
