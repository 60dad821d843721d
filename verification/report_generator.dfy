/** `ReportGenerator`: the console report, the plain-text report (the same
    lines joined with newlines) and the JSON report of a scan result.

    A report is a list of `Line`s, each naming what it shows; `Render` gives
    the text of each, exactly as the template literals spell it.

    Package blocks are listed most vulnerable first, by a stable sort on the
    number of vulnerabilities, so packages with equal counts keep their
    order. A block names the first vulnerability's id in its details link;
    a match with no vulnerabilities therefore makes the report throw, which
    the model returns as `None`. */
module ReportGenerator {
  import opened Wrappers
  import opened Strings
  import opened InsertionMaps
  import opened Types

  function Min(a: int, b: int): int {
    if a <= b then a else b
  }

  // ---------------------------------------------------------------------------
  // Ordering the matches

  predicate SortedDesc(s: seq<VulnerabilityResult>) {
    forall i, j :: 0 <= i < j < |s| ==> |s[i].vulns| >= |s[j].vulns|
  }

  /** The matches with exactly `c` vulnerabilities, in order. */
  function WithCount(s: seq<VulnerabilityResult>, c: nat): seq<VulnerabilityResult> {
    if |s| == 0 then []
    else (if |s[0].vulns| == c then [s[0]] else []) + WithCount(s[1..], c)
  }

  /** Inserts `x` in front of the first match with no more vulnerabilities
      than it has. */
  function InsertDesc(x: VulnerabilityResult, s: seq<VulnerabilityResult>): (r: seq<VulnerabilityResult>)
    ensures multiset(r) == multiset(s) + multiset{x}
  {
    if |s| == 0 then [x]
    else if |s[0].vulns| <= |x.vulns| then [x] + s
    else
      assert s == [s[0]] + s[1..];
      [s[0]] + InsertDesc(x, s[1..])
  }

  /** Insertion into a descending list keeps it descending. */
  lemma {:induction false} InsertDescSorted(x: VulnerabilityResult, s: seq<VulnerabilityResult>)
    requires SortedDesc(s)
    ensures SortedDesc(InsertDesc(x, s))
  {
    if |s| > 0 && |s[0].vulns| > |x.vulns| {
      var rest := InsertDesc(x, s[1..]);
      InsertDescSorted(x, s[1..]);
      assert forall j :: 0 <= j < |rest| ==> rest[j] == x || rest[j] in s[1..] by {
        forall j | 0 <= j < |rest| ensures rest[j] == x || rest[j] in s[1..] {
          assert rest[j] in multiset(rest);
        }
      }
    }
  }

  lemma WithCountCons(y: VulnerabilityResult, s: seq<VulnerabilityResult>, c: nat)
    ensures WithCount([y] + s, c) == (if |y.vulns| == c then [y] else []) + WithCount(s, c)
  {
    assert ([y] + s)[1..] == s;
  }

  /** Insertion keeps every count's matches in order, with `x` ahead of the
      matches that share its count. */
  lemma {:induction false} InsertDescStable(x: VulnerabilityResult, s: seq<VulnerabilityResult>, c: nat)
    requires SortedDesc(s)
    ensures WithCount(InsertDesc(x, s), c) == (if |x.vulns| == c then [x] else []) + WithCount(s, c)
  {
    if |s| == 0 {
      WithCountCons(x, [], c);
    } else if |s[0].vulns| <= |x.vulns| {
      WithCountCons(x, s, c);
    } else {
      var rest := InsertDesc(x, s[1..]);
      InsertDescStable(x, s[1..], c);
      WithCountCons(s[0], rest, c);
      WithCountCons(s[0], s[1..], c);
      assert s == [s[0]] + s[1..];
      if |x.vulns| == c {
        assert WithCount(s, c) == WithCount(s[1..], c);
        assert WithCount(InsertDesc(x, s), c) == WithCount(rest, c);
      } else {
        assert WithCount(rest, c) == WithCount(s[1..], c);
      }
    }
  }

  /** `[...vulnerabilities].sort((a, b) => b.vulns.length - a.vulns.length)`:
      descending by count and a permutation of the input. */
  function SortDesc(s: seq<VulnerabilityResult>): (r: seq<VulnerabilityResult>)
    ensures SortedDesc(r)
    ensures multiset(r) == multiset(s)
  {
    if |s| == 0 then []
    else
      InsertDescSorted(s[0], SortDesc(s[1..]));
      var r := InsertDesc(s[0], SortDesc(s[1..]));
      assert s == [s[0]] + s[1..];
      r
  }

  /** The sort is stable: for every count, the matches with that count appear
      in their original order. */
  lemma {:induction false} SortDescStable(s: seq<VulnerabilityResult>, c: nat)
    ensures WithCount(SortDesc(s), c) == WithCount(s, c)
  {
    if |s| > 0 {
      SortDescStable(s[1..], c);
      InsertDescStable(s[0], SortDesc(s[1..]), c);
      WithCountCons(s[0], s[1..], c);
      assert s == [s[0]] + s[1..];
    }
  }

  // ---------------------------------------------------------------------------
  // Report lines

  predicate AllVulnerable(ms: seq<VulnerabilityResult>) {
    forall j :: 0 <= j < |ms| ==> |ms[j].vulns| > 0
  }

  /** One logged (or pushed) line of the console and text reports. */
  datatype Line =
    | Banner                      // "\n" + 60 "="
    | RuleLine                    // 60 "="
    | Title
    | NoVulns
    | ScannedTotal(total: nat)
    | FoundIn(vulnerable: nat)
    | OutOf(total: nat)
    | PkgHeader(name: string, version: string)
    | PkgSource(source: Source)
    | PkgReason
    | PkgCount(count: nat)
    | PkgVuln(vuln: Vuln)
    | PkgMore(hidden: nat)
    | PkgDetails(id: string)
    | Blank
    | SummaryTitle
    | SummaryTotal(total: nat)
    | SummaryLock(count: nat)
    | SummaryNodeModules(count: nat)
    | SummaryVulnerable(count: nat)
    | SummaryVulns(count: nat)
    | DisclaimerTitle
    | DisclaimerText(text: string)
    | Conclusion(doomed: bool)

  function Rule(): string {
    Repeat("=", 60)
  }

  const Doomed: string := "\n💀 You might be doomed! Consider updating vulnerable packages."
  const NotDoomed: string := "\n✅  You are NOT doomed today! Stay vigilant."

  /** The text of a line. */
  function Render(l: Line): string {
    match l
    case Banner => "\n" + Rule()
    case RuleLine => Rule()
    case Title => "🚨 SECURITY SCAN REPORT"
    case NoVulns => "\n🎉 Great news! No known vulnerabilities found in your packages."
    case ScannedTotal(n) => "   Scanned " + NatToString(n) + " packages total."
    case FoundIn(n) => "\n⚠️  Found vulnerabilities in " + NatToString(n) + " packages:"
    case OutOf(n) => "   (out of " + NatToString(n) + " total packages scanned)\n"
    case PkgHeader(name, version) => "📦 " + name + "@" + version
    case PkgSource(src) => "   Source: " + SourceLabel(src)
    // `pkg.reason` is not a field of a package record: the template renders `undefined`.
    case PkgReason => "   Reason: undefined"
    case PkgCount(n) => "   Vulnerabilities: " + NatToString(n)
    case PkgVuln(v) => "   - " + v.id + " (modified: " + Before(v.modified, 'T') + ")"
    case PkgMore(n) => "   ... and " + NatToString(n) + " more"
    case PkgDetails(id) => "   🔗 Details: https://osv.dev/vulnerability/" + id
    case Blank => ""
    case SummaryTitle => "📊 SCAN SUMMARY"
    case SummaryTotal(n) => "   Total packages scanned: " + NatToString(n)
    case SummaryLock(n) => "   From package-lock.json: " + NatToString(n)
    case SummaryNodeModules(n) => "   From node_modules: " + NatToString(n)
    case SummaryVulnerable(n) => "   Vulnerable packages: " + NatToString(n)
    case SummaryVulns(n) => "   Total vulnerabilities: " + NatToString(n)
    case DisclaimerTitle => "ℹ️  DISCLAIMER"
    case DisclaimerText(t) => t
    case Conclusion(doomed) => if doomed then Doomed else NotDoomed
  }

  function RenderAll(ls: seq<Line>): (out: seq<string>)
    ensures |out| == |ls|
    ensures forall i :: 0 <= i < |ls| ==> out[i] == Render(ls[i])
  {
    seq(|ls|, i requires 0 <= i < |ls| => Render(ls[i]))
  }

  function HeaderLines(): seq<Line> {
    [Banner, Title, RuleLine]
  }

  function CleanLines(r: ScanResult): seq<Line> {
    [NoVulns, ScannedTotal(r.totalPackages)]
  }

  function VulnLines(vs: seq<Vuln>): (lines: seq<Line>)
    ensures |lines| == |vs|
    ensures forall i :: 0 <= i < |vs| ==> lines[i] == PkgVuln(vs[i])
  {
    seq(|vs|, i requires 0 <= i < |vs| => PkgVuln(vs[i]))
  }

  function BlockHead(m: VulnerabilityResult): seq<Line> {
    [PkgHeader(m.pkg.name, m.pkg.version), PkgSource(m.pkg.source), PkgReason, PkgCount(|m.vulns|)]
  }

  /** The block for one vulnerable package: its head, at most five
      vulnerabilities, a line counting the rest, the details link of the
      first and a blank line. */
  function PackageBlock(m: VulnerabilityResult): seq<Line>
    requires |m.vulns| > 0
  {
    BlockHead(m)
    + VulnLines(m.vulns[..Min(5, |m.vulns|)])
    + (if |m.vulns| > 5 then [PkgMore(|m.vulns| - 5)] else [])
    + [PkgDetails(m.vulns[0].id), Blank]
  }

  /** The first `n` matches are all vulnerable. */
  predicate VulnerableUpTo(ms: seq<VulnerabilityResult>, n: nat)
    requires n <= |ms|
  {
    forall j :: 0 <= j < n ==> |ms[j].vulns| > 0
  }

  /** Sorting neither adds nor removes a match without vulnerabilities. */
  lemma SortKeepsVulnerable(ms: seq<VulnerabilityResult>)
    ensures AllVulnerable(SortDesc(ms)) <==> AllVulnerable(ms)
  {
    var sorted := SortDesc(ms);
    assert forall j :: 0 <= j < |sorted| ==> sorted[j] in multiset(ms);
    assert forall j :: 0 <= j < |ms| ==> ms[j] in multiset(sorted);
  }

  /** The blocks of the first `n` matches, in list order. */
  function BlocksUpTo(ms: seq<VulnerabilityResult>, n: nat): seq<Line>
    requires n <= |ms| && VulnerableUpTo(ms, n)
  {
    if n == 0 then [] else BlocksUpTo(ms, n - 1) + PackageBlock(ms[n - 1])
  }

  lemma BlocksStep(ms: seq<VulnerabilityResult>, n: nat)
    requires n < |ms| && VulnerableUpTo(ms, n) && |ms[n].vulns| > 0
    ensures VulnerableUpTo(ms, n + 1)
    ensures BlocksUpTo(ms, n + 1) == BlocksUpTo(ms, n) + PackageBlock(ms[n])
  {
  }

  function Blocks(ms: seq<VulnerabilityResult>): seq<Line>
    requires AllVulnerable(ms)
  {
    BlocksUpTo(ms, |ms|)
  }

  function VulnerableLines(r: ScanResult): seq<Line>
    requires AllVulnerable(r.vulnerabilities)
  {
    var sorted := SortDesc(r.vulnerabilities);
    assert forall j :: 0 <= j < |sorted| ==> sorted[j] in multiset(r.vulnerabilities);
    [FoundIn(r.vulnerablePackages), OutOf(r.totalPackages)] + Blocks(sorted)
  }

  /** The number of records from the given source. */
  function CountSource(ps: seq<PackageInfo>, s: Source): (n: nat)
    ensures n <= |ps|
  {
    if |ps| == 0 then 0 else (if ps[0].source == s then 1 else 0) + CountSource(ps[1..], s)
  }

  function SummaryLines(r: ScanResult): seq<Line>
    requires r.packages.Valid()
  {
    var ps := r.packages.Values();
    [SummaryTitle,
     SummaryTotal(r.totalPackages),
     SummaryLock(CountSource(ps, PackageLock)),
     SummaryNodeModules(CountSource(ps, NodeModules)),
     SummaryVulnerable(r.vulnerablePackages),
     SummaryVulns(r.totalVulnerabilities)]
  }

  function DisclaimerLines(): seq<Line> {
    [Banner,
     DisclaimerTitle,
     RuleLine,
     DisclaimerText("This scan uses data from OSV (Open Source Vulnerabilities)."),
     DisclaimerText("We take no responsibility for the accuracy or completeness"),
     DisclaimerText("of these results. Always verify findings independently."),
     DisclaimerText("For more info: https://osv.dev/"),
     RuleLine]
  }

  /** `generateConsoleReport`: the lines it logs, composed from its private
      helpers; `None` when a listed match has no vulnerabilities, as reading
      `vulns[0].id` then throws. */
  function ConsoleReport(r: ScanResult): (out: Option<seq<Line>>)
    requires r.packages.Valid()
    ensures out.Some? <==> |r.vulnerabilities| == 0 || AllVulnerable(r.vulnerabilities)
  {
    if |r.vulnerabilities| == 0 then
      Some(HeaderLines() + CleanLines(r) + SummaryLines(r) + DisclaimerLines() + [Conclusion(false)])
    else if AllVulnerable(r.vulnerabilities) then
      Some(HeaderLines() + VulnerableLines(r) + SummaryLines(r) + DisclaimerLines() + [Conclusion(true)])
    else None
  }

  /** The loop body for one package: its block built line by line; `None`
      when reading `vulns[0].id` for the details link throws. */
  method BuildPackageBlock(m: VulnerabilityResult) returns (out: Option<seq<Line>>)
    ensures out.Some? <==> |m.vulns| > 0
    ensures out.Some? ==> out.value == PackageBlock(m)
  {
    var block := BlockHead(m);
    var display := m.vulns[..Min(5, |m.vulns|)];
    var k := 0;
    while k < |display|
      invariant 0 <= k <= |display|
      invariant block == BlockHead(m) + VulnLines(display[..k])
    {
      assert VulnLines(display[..k + 1]) == VulnLines(display[..k]) + [PkgVuln(display[k])];
      block := block + [PkgVuln(display[k])];
      k := k + 1;
    }
    assert display[..k] == display;
    if |m.vulns| > 5 {
      block := block + [PkgMore(|m.vulns| - 5)];
    } else {
      block := block + [];
    }
    if |m.vulns| == 0 {
      return None;
    }
    block := block + [PkgDetails(m.vulns[0].id), Blank];
    return Some(block);
  }

  /** The loop over the sorted matches. */
  method PushBlocks(lines: seq<Line>, sorted: seq<VulnerabilityResult>) returns (out: Option<seq<Line>>)
    ensures out.Some? <==> AllVulnerable(sorted)
    ensures out.Some? ==> out.value == lines + Blocks(sorted)
  {
    var acc := lines;
    var i := 0;
    while i < |sorted|
      invariant 0 <= i <= |sorted|
      invariant VulnerableUpTo(sorted, i)
      invariant acc == lines + BlocksUpTo(sorted, i)
    {
      var block := BuildPackageBlock(sorted[i]);
      if block.None? {
        return None;
      }
      BlocksStep(sorted, i);
      AppendAssoc(lines, BlocksUpTo(sorted, i), block.value);
      acc := acc + block.value;
      i := i + 1;
    }
    return Some(acc);
  }

  /** `generateTextReport`: the lines pushed in the order the method pushes
      them, rendered and joined with newlines. It produces exactly the
      console report's lines, and fails exactly when the console report does. */
  method GenerateTextReport(r: ScanResult) returns (text: Option<string>)
    requires r.packages.Valid()
    ensures text.Some? <==> ConsoleReport(r).Some?
    ensures text.Some? ==> text.value == Join(RenderAll(ConsoleReport(r).value), "\n")
  {
    var lines := HeaderLines();
    ghost var middle: seq<Line>;
    if |r.vulnerabilities| == 0 {
      middle := CleanLines(r);
      lines := lines + CleanLines(r);
    } else {
      var sorted := SortDesc(r.vulnerabilities);
      var pushed := PushBlocks(lines + [FoundIn(r.vulnerablePackages), OutOf(r.totalPackages)], sorted);
      SortKeepsVulnerable(r.vulnerabilities);
      if pushed.None? {
        return None;
      }
      middle := VulnerableLines(r);
      AppendAssoc(lines, [FoundIn(r.vulnerablePackages), OutOf(r.totalPackages)], Blocks(sorted));
      lines := pushed.value;
    }
    assert lines == HeaderLines() + middle;
    lines := lines + SummaryLines(r);
    lines := lines + DisclaimerLines();
    lines := lines + [Conclusion(|r.vulnerabilities| > 0)];
    assert lines == ConsoleReport(r).value;
    text := Some(Join(RenderAll(lines), "\n"));
  }

  /** A package block lists the first five vulnerabilities at most, and when
      it hides some it says how many, so the shown and the announced hidden
      ones add up to the count it reports; the details link is the first
      vulnerability's. */
  lemma PackageBlockShape(m: VulnerabilityResult)
    requires |m.vulns| > 0
    ensures var b := PackageBlock(m);
            var shown := Min(5, |m.vulns|);
            && |b| == 6 + shown + (if |m.vulns| > 5 then 1 else 0)
            && b[3] == PkgCount(|m.vulns|)
            && (forall i :: 0 <= i < shown ==> b[4 + i] == PkgVuln(m.vulns[i]))
            && (|m.vulns| > 5 <==> b[4 + shown].PkgMore?)
            && (|m.vulns| > 5 ==> shown + b[4 + shown].hidden == |m.vulns|)
            && b[|b| - 2] == PkgDetails(m.vulns[0].id)
  {
  }

  /** A listed vulnerability shows its id and the part of `modified` before
      the first `T`. */
  lemma VulnLineShowsDate(v: Vuln)
    ensures var t := Render(PkgVuln(v));
            var date := Before(v.modified, 'T');
            && t == "   - " + v.id + " (modified: " + date + ")"
            && 'T' !in date && StartsWith(v.modified, date)
  {
  }

  lemma {:induction false} SourceCountsPartition(ps: seq<PackageInfo>)
    ensures CountSource(ps, PackageLock) + CountSource(ps, NodeModules) == |ps|
  {
    if |ps| > 0 {
      SourceCountsPartition(ps[1..]);
    }
  }

  /** The summary's two per-source counts add up to the number of packages. */
  lemma SummaryAddsUp(r: ScanResult)
    requires r.packages.Valid() && r.totalPackages == |r.packages.entries|
    ensures var ps := r.packages.Values();
            CountSource(ps, PackageLock) + CountSource(ps, NodeModules) == r.totalPackages
  {
    SizeIsOrderLength(r.packages);
    SourceCountsPartition(r.packages.Values());
  }

  // ---------------------------------------------------------------------------
  // The JSON report

  datatype JsonSummary = JsonSummary(totalPackages: nat, vulnerablePackages: nat, totalVulnerabilities: nat, isVulnerable: bool)

  datatype JsonVulnerability = JsonVulnerability(pkg: PackageInfo, vulnerabilityCount: nat, vulnerabilities: seq<Vuln>)

  /** The object `generateJsonReport` serialises; `scannedAt` is the clock
      reading it is given. */
  datatype JsonReport = JsonReport(
    summary: JsonSummary,
    packages: seq<PackageInfo>,
    vulnerabilities: seq<JsonVulnerability>,
    scannedAt: string,
    dataSource: string)

  function JsonEntry(v: VulnerabilityResult): JsonVulnerability {
    JsonVulnerability(v.pkg, |v.vulns|, v.vulns)
  }

  /** The sum of the per-entry `vulnerabilityCount` fields. */
  function CountSum(js: seq<JsonVulnerability>): nat {
    if |js| == 0 then 0 else js[0].vulnerabilityCount + CountSum(js[1..])
  }

  /** `generateJsonReport`: the summary copied from the result with
      `isVulnerable` set when there is any match, every package in map order,
      and one entry per match with its count. */
  function GenerateJsonReport(r: ScanResult, now: string): (j: JsonReport)
    requires r.packages.Valid()
    ensures j.summary.isVulnerable <==> |r.vulnerabilities| > 0
    ensures && j.summary.totalPackages == r.totalPackages
            && j.summary.vulnerablePackages == r.vulnerablePackages
            && j.summary.totalVulnerabilities == r.totalVulnerabilities
    ensures j.scannedAt == now && j.dataSource == "OSV (Open Source Vulnerabilities)"
    ensures j.packages == r.packages.Values()
    ensures |j.vulnerabilities| == |r.vulnerabilities|
    ensures forall i :: 0 <= i < |r.vulnerabilities| ==>
              j.vulnerabilities[i].pkg == r.vulnerabilities[i].pkg
              && j.vulnerabilities[i].vulnerabilities == r.vulnerabilities[i].vulns
              && j.vulnerabilities[i].vulnerabilityCount == |r.vulnerabilities[i].vulns|
  {
    JsonReport(
      JsonSummary(r.totalPackages, r.vulnerablePackages, r.totalVulnerabilities, |r.vulnerabilities| > 0),
      r.packages.Values(),
      seq(|r.vulnerabilities|, i requires 0 <= i < |r.vulnerabilities| => JsonEntry(r.vulnerabilities[i])),
      now,
      "OSV (Open Source Vulnerabilities)")
  }

  lemma {:induction false} CountSumIsTotal(ms: seq<VulnerabilityResult>, js: seq<JsonVulnerability>)
    requires |js| == |ms| && forall i :: 0 <= i < |ms| ==> js[i] == JsonEntry(ms[i])
    ensures CountSum(js) == TotalVulns(ms)
  {
    if |ms| > 0 {
      CountSumIsTotal(ms[1..], js[1..]);
    }
  }

  /** The console report ends on the conclusion, doomed exactly when some
      match was listed. */
  lemma ConsoleEndsWithConclusion(r: ScanResult)
    requires r.packages.Valid()
    requires |r.vulnerabilities| == 0 || AllVulnerable(r.vulnerabilities)
    ensures var lines := ConsoleReport(r).value;
            |lines| > 0 && lines[|lines| - 1] == Conclusion(|r.vulnerabilities| > 0)
  {
  }

  /** The package header lines of a report, in order. */
  function Headers(lines: seq<Line>): seq<Line> {
    if |lines| == 0 then [] else (if lines[0].PkgHeader? then [lines[0]] else []) + Headers(lines[1..])
  }

  lemma {:induction false} HeadersAppend(a: seq<Line>, b: seq<Line>)
    ensures Headers(a + b) == Headers(a) + Headers(b)
    decreases |a|
  {
    if |a| == 0 {
      assert a + b == b;
    } else {
      var h: seq<Line> := if a[0].PkgHeader? then [a[0]] else [];
      assert (a + b)[0] == a[0] && (a + b)[1..] == a[1..] + b;
      assert Headers(a + b) == h + Headers(a[1..] + b);
      HeadersAppend(a[1..], b);
      assert Headers(a) == h + Headers(a[1..]);
    }
  }

  lemma {:induction false} NoHeaders(lines: seq<Line>)
    requires forall i :: 0 <= i < |lines| ==> !lines[i].PkgHeader?
    ensures Headers(lines) == []
    decreases |lines|
  {
    if |lines| > 0 {
      NoHeaders(lines[1..]);
    }
  }

  /** A package block has one header line: its package's. */
  lemma BlockHeaders(m: VulnerabilityResult)
    requires |m.vulns| > 0
    ensures Headers(PackageBlock(m)) == [PkgHeader(m.pkg.name, m.pkg.version)]
  {
    var head := BlockHead(m);
    var vs := VulnLines(m.vulns[..Min(5, |m.vulns|)]);
    var more: seq<Line> := if |m.vulns| > 5 then [PkgMore(|m.vulns| - 5)] else [];
    var tail := [PkgDetails(m.vulns[0].id), Blank];
    NoHeaders(head[1..]);
    assert Headers(head) == [head[0]] + Headers(head[1..]);
    NoHeaders(vs);
    NoHeaders(more);
    NoHeaders(tail);
    HeadersAppend(head, vs);
    HeadersAppend(head + vs, more);
    HeadersAppend(head + vs + more, tail);
  }

  /** The blocks of the first `n` matches hold one header per match, in order. */
  lemma {:induction false} BlocksHeaders(ms: seq<VulnerabilityResult>, n: nat)
    requires n <= |ms| && VulnerableUpTo(ms, n)
    ensures |Headers(BlocksUpTo(ms, n))| == n
    ensures forall j :: 0 <= j < n ==> Headers(BlocksUpTo(ms, n))[j] == PkgHeader(ms[j].pkg.name, ms[j].pkg.version)
    decreases n
  {
    if n > 0 {
      BlocksHeaders(ms, n - 1);
      HeadersAppend(BlocksUpTo(ms, n - 1), PackageBlock(ms[n - 1]));
      BlockHeaders(ms[n - 1]);
    }
  }

  /** None of the report's fixed lines is a package header. */
  lemma FixedLinesHaveNoHeaders(r: ScanResult, doomed: bool)
    requires r.packages.Valid()
    ensures Headers(HeaderLines()) == [] && Headers(CleanLines(r)) == []
    ensures Headers(SummaryLines(r)) == [] && Headers(DisclaimerLines()) == []
    ensures Headers([Conclusion(doomed)]) == []
  {
    NoHeaders(HeaderLines());
    NoHeaders(CleanLines(r));
    NoHeaders(SummaryLines(r));
    DisclaimerHasNoHeaders();
    ConclusionIsNoHeader(doomed);
  }

  lemma DisclaimerHasNoHeaders()
    ensures Headers(DisclaimerLines()) == []
  {
    NoHeaders(DisclaimerLines());
  }

  lemma ConclusionIsNoHeader(doomed: bool)
    ensures Headers([Conclusion(doomed)]) == []
  {
    assert [Conclusion(doomed)][1..] == [];
  }

  /** Framing a body with header-free lines keeps its headers and its lines. */
  lemma FramedHeaders(h: seq<Line>, body: seq<Line>, s: seq<Line>, d: seq<Line>, c: seq<Line>)
    requires Headers(h) == [] && Headers(s) == [] && Headers(d) == [] && Headers(c) == []
    ensures Headers(h + body + s + d + c) == Headers(body)
    ensures forall k :: 0 <= k < |body| ==> (h + body + s + d + c)[|h| + k] == body[k]
  {
    HeadersAppend(h, body);
    HeadersAppend(h + body, s);
    HeadersAppend(h + body + s, d);
    HeadersAppend(h + body + s + d, c);
  }

  /** The vulnerable part of the report: the two count lines, then one block
      per match in sorted order. */
  lemma VulnerableLinesHeaders(r: ScanResult)
    requires AllVulnerable(r.vulnerabilities)
    ensures var lines := VulnerableLines(r);
            var sorted := SortDesc(r.vulnerabilities);
            && |lines| >= 2 && lines[0] == FoundIn(r.vulnerablePackages) && lines[1] == OutOf(r.totalPackages)
            && |Headers(lines)| == |sorted|
            && forall j :: 0 <= j < |sorted| ==> Headers(lines)[j] == PkgHeader(sorted[j].pkg.name, sorted[j].pkg.version)
  {
    var sorted := SortDesc(r.vulnerabilities);
    SortKeepsVulnerable(r.vulnerabilities);
    CountsThenBlocks([FoundIn(r.vulnerablePackages), OutOf(r.totalPackages)], sorted);
  }

  /** Header-free lines followed by the blocks of some matches carry one
      package header per match, in order. */
  lemma CountsThenBlocks(counts: seq<Line>, ms: seq<VulnerabilityResult>)
    requires AllVulnerable(ms)
    requires forall i :: 0 <= i < |counts| ==> !counts[i].PkgHeader?
    ensures var hs := Headers(counts + Blocks(ms));
            && |hs| == |ms|
            && forall j :: 0 <= j < |ms| ==> hs[j] == PkgHeader(ms[j].pkg.name, ms[j].pkg.version)
  {
    NoHeaders(counts);
    HeadersAppend(counts, Blocks(ms));
    assert Headers(counts + Blocks(ms)) == [] + Headers(Blocks(ms)) == Headers(Blocks(ms));
    BlocksHeaders(ms, |ms|);
  }

  /** Without a match, the banner is followed by the "no known
      vulnerabilities" line and the scanned total, and no package is listed. */
  lemma CleanReportShape(r: ScanResult)
    requires r.packages.Valid() && |r.vulnerabilities| == 0
    ensures var lines := ConsoleReport(r).value;
            && |lines| > 4 && lines[3] == NoVulns && lines[4] == ScannedTotal(r.totalPackages)
            && Headers(lines) == []
  {
    var body := CleanLines(r);
    var lines := HeaderLines() + body + SummaryLines(r) + DisclaimerLines() + [Conclusion(false)];
    assert ConsoleReport(r).value == lines;
    FixedLinesHaveNoHeaders(r, false);
    FramedHeaders(HeaderLines(), body, SummaryLines(r), DisclaimerLines(), [Conclusion(false)]);
    assert lines[3] == body[0] && lines[4] == body[1];
  }

  /** With matches, the banner is followed by the two count lines and one
      package block per match, most vulnerable first: the package headers
      appear in sorted order. */
  lemma VulnerableReportShape(r: ScanResult)
    requires r.packages.Valid() && |r.vulnerabilities| > 0 && AllVulnerable(r.vulnerabilities)
    ensures var lines := ConsoleReport(r).value;
            var sorted := SortDesc(r.vulnerabilities);
            && |lines| > 4 && lines[3] == FoundIn(r.vulnerablePackages) && lines[4] == OutOf(r.totalPackages)
            && |Headers(lines)| == |sorted|
            && forall j :: 0 <= j < |sorted| ==> Headers(lines)[j] == PkgHeader(sorted[j].pkg.name, sorted[j].pkg.version)
  {
    var body := VulnerableLines(r);
    var lines := HeaderLines() + body + SummaryLines(r) + DisclaimerLines() + [Conclusion(true)];
    assert ConsoleReport(r).value == lines;
    FixedLinesHaveNoHeaders(r, true);
    VulnerableLinesHeaders(r);
    FramedHeaders(HeaderLines(), body, SummaryLines(r), DisclaimerLines(), [Conclusion(true)]);
    assert lines[3] == body[0] && lines[4] == body[1];
  }

  /** The console report's shape: the "no known vulnerabilities" line comes
      right after the banner exactly when nothing matched, and the report
      lists one package per match, in sorted order. */
  lemma ConsoleReportShape(r: ScanResult)
    requires r.packages.Valid()
    requires |r.vulnerabilities| == 0 || AllVulnerable(r.vulnerabilities)
    ensures var lines := ConsoleReport(r).value;
            var sorted := SortDesc(r.vulnerabilities);
            && |lines| > 4
            && (lines[3] == NoVulns <==> |r.vulnerabilities| == 0)
            && |Headers(lines)| == |sorted| == |r.vulnerabilities|
            && forall j :: 0 <= j < |sorted| ==> Headers(lines)[j] == PkgHeader(sorted[j].pkg.name, sorted[j].pkg.version)
  {
    assert |SortDesc(r.vulnerabilities)| == |r.vulnerabilities| by {
      assert |multiset(SortDesc(r.vulnerabilities))| == |multiset(r.vulnerabilities)|;
    }
    if |r.vulnerabilities| == 0 {
      CleanReportShape(r);
    } else {
      VulnerableReportShape(r);
    }
  }

  /** The two conclusions differ. */
  lemma ConclusionsDiffer()
    ensures Render(Conclusion(true)) != Render(Conclusion(false))
  {
    assert |Doomed| != |NotDoomed|;
  }

  /** The JSON and console reports agree: the console report ends on the
      conclusion whose doomed flag is the JSON's `isVulnerable` (and the two
      conclusions render differently), and the per-entry counts add up to the
      total number of vulnerabilities found. */
  lemma ReportsAgree(r: ScanResult, now: string)
    requires r.packages.Valid()
    requires |r.vulnerabilities| == 0 || AllVulnerable(r.vulnerabilities)
    ensures var j := GenerateJsonReport(r, now);
            var lines := ConsoleReport(r).value;
            && lines[|lines| - 1] == Conclusion(j.summary.isVulnerable)
            && CountSum(j.vulnerabilities) == TotalVulns(r.vulnerabilities)
  {
    var j := GenerateJsonReport(r, now);
    CountSumIsTotal(r.vulnerabilities, j.vulnerabilities);
    ConsoleEndsWithConclusion(r);
  }
}
