/** The records the scanner passes between its stages: a discovered package,
    a vulnerability as the OSV database reports it, the per-package match list
    and the aggregate scan result. */
module Types {
  import opened InsertionMaps

  /** Where a package record came from: the lockfile or the installed tree. */
  datatype Source = PackageLock | NodeModules

  datatype PackageInfo = PackageInfo(name: string, version: string, source: Source)

  datatype Vuln = Vuln(id: string, modified: string)

  /** One vulnerable package and the vulnerabilities found for it, in arrival order. */
  datatype VulnerabilityResult = VulnerabilityResult(pkg: PackageInfo, vulns: seq<Vuln>)

  /** Discovered packages keyed by package name, in insertion order. */
  type PackageMap = InsertionMap<PackageInfo>

  datatype ScanResult = ScanResult(
    packages: PackageMap,
    vulnerabilities: seq<VulnerabilityResult>,
    totalPackages: nat,
    vulnerablePackages: nat,
    totalVulnerabilities: nat)

  /** How a source renders inside a report line. */
  function SourceLabel(s: Source): string {
    match s
    case PackageLock => "package-lock"
    case NodeModules => "node_modules"
  }

  /** Every record is stored under its own name. */
  predicate KeyedByName(m: PackageMap) {
    forall k :: k in m.entries ==> m.entries[k].name == k
  }

  /** The total number of vulnerabilities over a match list (`reduce` with `+`). */
  function TotalVulns(ms: seq<VulnerabilityResult>): nat {
    if |ms| == 0 then 0 else |ms[0].vulns| + TotalVulns(ms[1..])
  }
}
