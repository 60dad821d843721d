/** The scanner: discover the project's packages, ask the OSV client about
    them in map order, count what came back, and decide which report is
    printed and which is saved. The disk, the clock and the network are
    parameters: a `Disk` maps a project directory to its lockfile and its
    `node_modules` tree, and the client reads a scripted list of responses. */
module Scanner {
  import opened Wrappers
  import opened Strings
  import opened InsertionMaps
  import opened Types
  import opened PackageDiscovery
  import opened OsvClient
  import opened ReportGenerator

  datatype ScanOptions = ScanOptions(
    projectPath: Option<string>,
    silent: bool,
    jsonOutput: bool,
    outputPath: Option<string>)

  /** What discovery reads below one project directory: `package-lock.json`
      (absent when missing or unparsable) and `node_modules` (absent when it
      cannot be accessed). */
  datatype Project = Project(lock: Option<Lockfile>, nodeModules: Option<FsNode>)

  type Disk = map<string, Project>

  /** A directory the disk does not hold has neither file. */
  function ProjectAt(disk: Disk, path: string): Project {
    if path in disk then disk[path] else Project(None, None)
  }

  /** `options.projectPath || process.cwd()`. */
  function ProjectPath(options: ScanOptions, cwd: string): string {
    if Truthy(options.projectPath) then options.projectPath.value else cwd
  }

  /** `scan`: discovery, then one client run over the map's values in
      insertion order, then the counts. */
  function Scan(options: ScanOptions, cwd: string, disk: Disk, script: seq<Response>): (r: ScanResult)
    ensures r.packages.Valid()
  {
    var project := ProjectAt(disk, ProjectPath(options, cwd));
    var packages := Discover(project.lock, project.nodeModules);
    var matches := QueryVulnerabilities(packages.Values(), script).matches;
    ScanResult(packages, matches, |packages.entries|, |matches|, TotalVulns(matches))
  }

  /** Each match contributes at least one vulnerability to the total, so the
      total is at least the number of matches and is zero only without any. */
  lemma {:induction false} TotalVulnsBounds(ms: seq<VulnerabilityResult>)
    requires AllVulnerable(ms)
    ensures TotalVulns(ms) >= |ms|
    ensures TotalVulns(ms) == 0 <==> |ms| == 0
  {
    if |ms| > 0 {
      TotalVulnsBounds(ms[1..]);
    }
  }

  /** The counts of a scan: the package total is the number of keys in the
      discovered map, no more packages are vulnerable than were discovered,
      every vulnerable package has at least one vulnerability, and there are
      vulnerabilities exactly when there are vulnerable packages. */
  lemma ScanCounts(options: ScanOptions, cwd: string, disk: Disk, script: seq<Response>)
    ensures var r := Scan(options, cwd, disk, script);
            && r.totalPackages == |r.packages.order|
            && r.vulnerablePackages == |r.vulnerabilities| <= r.totalPackages
            && AllVulnerable(r.vulnerabilities)
            && r.vulnerablePackages <= r.totalVulnerabilities == TotalVulns(r.vulnerabilities)
            && (r.totalVulnerabilities == 0 <==> r.vulnerablePackages == 0)
  {
    var r := Scan(options, cwd, disk, script);
    SizeIsOrderLength(r.packages);
    TotalVulnsBounds(r.vulnerabilities);
  }

  /** The JSON report of a scan agrees with itself: the package total is the
      length of its package list, the vulnerable-package count is the number
      of its entries, and the vulnerability total is the sum of their counts. */
  lemma ScanJsonSummary(options: ScanOptions, cwd: string, disk: Disk, script: seq<Response>, now: string)
    ensures var j := GenerateJsonReport(Scan(options, cwd, disk, script), now);
            && j.summary.totalPackages == |j.packages|
            && j.summary.vulnerablePackages == |j.vulnerabilities|
            && j.summary.totalVulnerabilities == CountSum(j.vulnerabilities)
  {
    var r := Scan(options, cwd, disk, script);
    var j := GenerateJsonReport(r, now);
    ScanCounts(options, cwd, disk, script);
    assert forall i :: 0 <= i < |r.vulnerabilities| ==> j.vulnerabilities[i] == JsonEntry(r.vulnerabilities[i]);
    CountSumIsTotal(r.vulnerabilities, j.vulnerabilities);
  }

  /** A value of a map keyed by name is the record stored under its own name. */
  lemma ValuesAreEntries(m: PackageMap, ms: seq<VulnerabilityResult>)
    requires m.Valid() && KeyedByName(m)
    requires forall j :: 0 <= j < |ms| ==> ms[j].pkg in m.Values()
    ensures forall j :: 0 <= j < |ms| ==> ms[j].pkg.name in m.entries && m.entries[ms[j].pkg.name] == ms[j].pkg
  {
    var vs := m.Values();
    forall j | 0 <= j < |ms|
      ensures ms[j].pkg.name in m.entries && m.entries[ms[j].pkg.name] == ms[j].pkg
    {
      var i :| 0 <= i < |vs| && vs[i] == ms[j].pkg;
      assert m.entries[m.order[i]] == ms[j].pkg;
    }
  }

  /** Every vulnerable package is the record discovery stored under its name. */
  lemma ScanMatchesDiscovered(options: ScanOptions, cwd: string, disk: Disk, script: seq<Response>)
    ensures var r := Scan(options, cwd, disk, script);
            forall j :: 0 <= j < |r.vulnerabilities| ==>
              var p := r.vulnerabilities[j].pkg;
              p.name in r.packages.entries && r.packages.entries[p.name] == p
  {
    var project := ProjectAt(disk, ProjectPath(options, cwd));
    var m := Discover(project.lock, project.nodeModules);
    DiscoverSpec(project.lock, project.nodeModules);
    ValuesAreEntries(m, QueryVulnerabilities(m.Values(), script).matches);
  }

  /** An absent or empty project path scans the working directory. */
  lemma ScanDefaultsToCwd(options: ScanOptions, cwd: string, disk: Disk, script: seq<Response>)
    requires !Truthy(options.projectPath)
    ensures Scan(options, cwd, disk, script) == Scan(options.(projectPath := Some(cwd)), cwd, disk, script)
  {
  }

  /** A directory holding neither file yields an empty result. */
  lemma ScanEmptyProject(options: ScanOptions, cwd: string, disk: Disk, script: seq<Response>)
    requires ProjectPath(options, cwd) !in disk
    ensures var r := Scan(options, cwd, disk, script);
            r.totalPackages == 0 && r.vulnerabilities == [] && r.totalVulnerabilities == 0
  {
    var r := Scan(options, cwd, disk, script);
    SizeIsOrderLength(r.packages);
    assert r.packages == LockRecords(None);
  }

  // ---------------------------------------------------------------------------
  // scanAndReport

  /** What goes to the console when not silent. */
  datatype Printed = PrintedJson(json: JsonReport) | PrintedConsole(lines: seq<Line>)

  datatype SavedContent = JsonContent(report: JsonReport) | TextContent(text: string)

  /** A report written to disk. */
  datatype Saved = Saved(path: string, content: SavedContent)

  /** The console output of `scanAndReport`: nothing when silent, else the
      JSON report when `jsonOutput` is set, else the console report. */
  function ConsoleOutput(options: ScanOptions, r: ScanResult, now: string): (p: Option<Printed>)
    requires r.packages.Valid() && AllVulnerable(r.vulnerabilities)
    ensures p.None? <==> options.silent
    ensures p.Some? ==> (p.value.PrintedJson? <==> options.jsonOutput)
    ensures p.Some? && p.value.PrintedJson? ==> p.value.json == GenerateJsonReport(r, now)
    ensures p.Some? && p.value.PrintedConsole? ==> Some(p.value.lines) == ConsoleReport(r)
  {
    if options.silent then None
    else if options.jsonOutput then Some(PrintedJson(GenerateJsonReport(r, now)))
    else Some(PrintedConsole(ConsoleReport(r).value))
  }

  /** The file `scanAndReport` writes: none without a (non-empty) output path;
      otherwise a file at that path holding the JSON report when `jsonOutput`
      is set or the path ends in `.json`, and the text report, which has the
      console report's lines, otherwise. `now` is the clock reading for the
      JSON report's timestamp. */
  predicate SavedAs(options: ScanOptions, r: ScanResult, now: string, saved: Option<Saved>)
    requires r.packages.Valid() && AllVulnerable(r.vulnerabilities)
  {
    && (saved.Some? <==> Truthy(options.outputPath))
    && (saved.Some? ==> saved.value.path == options.outputPath.value)
    && (saved.Some? ==>
          (saved.value.content.JsonContent? <==> options.jsonOutput || EndsWith(saved.value.path, ".json")))
    && (saved.Some? && saved.value.content.JsonContent? ==> saved.value.content.report == GenerateJsonReport(r, now))
    && (saved.Some? && saved.value.content.TextContent? ==>
          saved.value.content.text == Join(RenderAll(ConsoleReport(r).value), "\n"))
  }

  method SaveReport(options: ScanOptions, r: ScanResult, now: string) returns (saved: Option<Saved>)
    requires r.packages.Valid() && AllVulnerable(r.vulnerabilities)
    ensures SavedAs(options, r, now, saved)
  {
    saved := None;
    if Truthy(options.outputPath) {
      var path := options.outputPath.value;
      if options.jsonOutput || EndsWith(path, ".json") {
        saved := Some(Saved(path, JsonContent(GenerateJsonReport(r, now))));
      } else {
        var text := GenerateTextReport(r);
        saved := Some(Saved(path, TextContent(text.value)));
      }
    }
  }

  /** `scanAndReport`: the scan, then its console output and its saved file;
      a scan always yields a report that can be rendered. The JSON report is
      generated separately for the console and for the file, each reading
      the clock: `printedAt` and `savedAt` are those two readings. */
  method ScanAndReport(options: ScanOptions, cwd: string, disk: Disk, script: seq<Response>, printedAt: string, savedAt: string)
    returns (r: ScanResult, printed: Option<Printed>, saved: Option<Saved>)
    ensures r == Scan(options, cwd, disk, script)
    ensures AllVulnerable(r.vulnerabilities)
    ensures printed == ConsoleOutput(options, r, printedAt)
    ensures SavedAs(options, r, savedAt, saved)
  {
    r := Scan(options, cwd, disk, script);
    ScanCounts(options, cwd, disk, script);
    printed := ConsoleOutput(options, r, printedAt);
    saved := SaveReport(options, r, savedAt);
  }

  /** A scan's console report always exists, and the JSON report calls the
      project vulnerable exactly when some vulnerability was found. */
  lemma ScanVerdict(options: ScanOptions, cwd: string, disk: Disk, script: seq<Response>, now: string)
    ensures var r := Scan(options, cwd, disk, script);
            && ConsoleReport(r).Some?
            && (GenerateJsonReport(r, now).summary.isVulnerable <==> r.totalVulnerabilities > 0)
  {
    ScanCounts(options, cwd, disk, script);
  }
}
