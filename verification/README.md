# am-i-doomed, modelled in Dafny

am-i-doomed is a command-line scanner for Node.js projects. It collects the
project's packages from `package-lock.json` and from the installed
`node_modules` tree. It asks the OSV (Open Source Vulnerabilities) batch API
which of them have known vulnerabilities, in batches of 100, following page
tokens. It then reports the findings as a console report, a plain-text file
or a JSON document, and exits with 1 when anything vulnerable was found.

This project models that core as pure Dafny functions over immutable data:

- `wrappers.dfy`, `strings.dfy`, `insertion_map.dfy`: an `Option` type; the
  JavaScript string operations the program relies on (`indexOf`, `split`,
  `join`, `startsWith`, `endsWith`, ASCII `toLowerCase`, decimal rendering);
  and a `Map` with JavaScript's insertion-order iteration.
- `types.dfy`: the records passed between stages (`PackageInfo`, `Vuln`,
  `VulnerabilityResult`, `ScanResult`).
- `package_discovery.dfy`: `discoverPackages`, with the following parts:
  - the lockfile v2/v3 flat pass and the v1 nested walk;
  - the name derived from an installation path;
  - the `node_modules` scan (scoped directories one level deeper);
  - the merge in which lock records take precedence.
- `osv_client.dfy`: `queryVulnerabilities`, `queryBatch` and
  `handleBatchPagination`. The network is a scripted list of responses:
  `Fail` for a non-OK or throwing request, `Ok(results)` otherwise. The
  outcome records every request's query list.
- `report_generator.dfy`: the console and text reports as a list of typed
  lines with their exact text, the stable sort by vulnerability count, the
  summary counts, and the JSON report object.
- `scanner.dfy`: `scan` and `scanAndReport`. The disk is a map from project
  directory to its lockfile and `node_modules` tree.
- `cli.dfy`: the argument parser of `runCLI` and the exit code.
- `discovery_examples.dfy`, `osv_examples.dfy`: the scenarios of the
  repository's unit tests, stated over arbitrary names, versions and
  vulnerabilities.

Some behaviour of the code that a reader might not expect, and that the model
keeps:

- The lockfile v1 walk overwrites earlier records of the same name, including
  records from the flat `packages` pass (`package-discovery.ts:66-72`).
- The `node_modules` scan does not descend into nested `node_modules`
  directories or follow symlinks.
- The report's `Reason:` line reads a field that `PackageInfo` does not have,
  so it always renders `   Reason: undefined`.

## Model

| member | source | states |
|---|---|---|
| Strings.IndexOf | src/index.ts:42 | `indexOf` returns -1 exactly when the character is absent; otherwise the position of its first occurrence. |
| Strings.Split | src/package-discovery.ts:81 | `split` on one character yields at least one piece, no piece contains the separator, and joining the pieces with it gives the input back. |
| Strings.JoinSplit | src/package-discovery.ts:81 | The converse round trip: joining separator-free pieces and splitting again returns the pieces. |
| Strings.Before | src/report-generator.ts:67 | `split('T')[0]` is a prefix of the input without `T`, ending where the input ends or at its first `T`. |
| Strings.BeforeUnique | src/report-generator.ts:67 | That piece is unique: any separator-free prefix ending at the end or at a separator is it. |
| Strings.BeforeIndexOf | src/index.ts:42-45 | Cutting at `indexOf('=')` and taking `split('=')[0]` agree. |
| Strings.BeforeCons | src/index.ts:79-103 | Reading letters left to right up to the first `o` is taking the piece before `o`. |
| Strings.NatToString | src/report-generator.ts:63 | A count rendered in a template literal is a string of decimal digits, without leading zero, whose value is the count. |
| InsertionMaps.SizeIsOrderLength | src/scanner.ts:41 | `map.size` equals the number of keys in iteration order and the length of `values()`. |
| PackageDiscovery.SetAllKeys | src/package-discovery.ts:66-72 | After a sequence of `set` calls, a key is present iff it was present before or some record has that name. |
| PackageDiscovery.SetAllUntouched | src/package-discovery.ts:66-72 | A key no record names keeps its old value. |
| PackageDiscovery.SetAllLast | src/package-discovery.ts:66-72 | Every record's name is present, and the last record with a given name is the value stored under it. |
| PackageDiscovery.SetAllKeyed | src/package-discovery.ts:66-72 | Writing records under their own names keeps every value stored under its own name. |
| PackageDiscovery.SetAllPresentIsIdentity | src/package-discovery.ts:114-117 | Re-setting records already present with equal values changes neither the values nor the iteration order. |
| PackageDiscovery.SetAllAppend | src/package-discovery.ts:66-72 | Writing `a + b` is writing `a`, then `b`. |
| PackageDiscovery.ExtractNameFromPath | src/package-discovery.ts:80-86 | (function) The name an installation path denotes; the five lemmas below state its result for a path without `/`, for an unscoped, a scoped, a nested scoped and a bare scope segment. |
| PackageDiscovery.ExtractNameNoSeparator | src/package-discovery.ts:80-86 | A path without `/` names itself (falls back to `parts[0]`). |
| PackageDiscovery.ExtractNameUnscoped | src/package-discovery.ts:80-86 | For `first/seg[/rest]` with a non-empty unscoped `seg`, the name is `seg`. |
| PackageDiscovery.ExtractNameScoped | src/package-discovery.ts:80-86 | `first/@scope/pkg` names `@scope/pkg`. |
| PackageDiscovery.ExtractNameScopedNested | src/package-discovery.ts:80-86 | Segments after the third are ignored: `first/@scope/pkg/rest` names `@scope/pkg`. |
| PackageDiscovery.ExtractNameBareScope | src/package-discovery.ts:82-83 | `first/@scope` with no third segment renders the missing segment as `undefined`: `@scope/undefined`. |
| PackageDiscovery.FlatPass | src/package-discovery.ts:30-45 | The flat pass keeps the map valid; which keys it adds and which record each holds is stated by `FlatPassKeys`, `FlatPassUntouched`, `FlatPassLast` and `FlatPassRecords`. |
| PackageDiscovery.FlatPassKeys | src/package-discovery.ts:30-45 | The flat pass adds exactly the names of entries that are not the root key and have a truthy name (own or derived) and version. |
| PackageDiscovery.FlatPassUntouched | src/package-discovery.ts:30-45 | Names no recorded entry produces keep their previous value. |
| PackageDiscovery.FlatPassLast | src/package-discovery.ts:30-45 | Every recorded entry's name is present, and the last recorded entry with a name gives its stored record. |
| PackageDiscovery.FlatPassRecords | src/package-discovery.ts:38-42 | The flat pass stores records under their own names, all with source `package-lock`. |
| PackageDiscovery.WalkDeps | src/package-discovery.ts:61-78 | The nested walk keeps records under their own names and marks them `package-lock`. |
| PackageDiscovery.WalkDepsIsSetAll | src/package-discovery.ts:61-78 | The nested walk is the in-order `set` of its pre-order visit list. |
| PackageDiscovery.VisitRecordsEntry | src/package-discovery.ts:63-72 | Every entry with a truthy version is visited under its full `prefix/name`. |
| PackageDiscovery.VisitIncludesChildren | src/package-discovery.ts:74-76 | The walk descends into every entry's `dependencies`, whether or not the entry has a version. |
| PackageDiscovery.NestedChildName | src/package-discovery.ts:63-75 | A versioned child `c` of entry `p` is recorded as `p/c`. |
| PackageDiscovery.LockPass | src/package-discovery.ts:29-50 | The lockfile pass yields a valid map of `package-lock` records stored under their own names. |
| PackageDiscovery.LockRecords | src/package-discovery.ts:22-58 | A missing or unparsable lockfile contributes no records. |
| PackageDiscovery.LockPassSpec | src/package-discovery.ts:29-50 | A name is present iff the flat pass or the nested walk produced it; the last nested record wins; a flat record survives only when no nested record has its name. |
| PackageDiscovery.ReadPackageJson | src/package-discovery.ts:163-183 | A directory yields a record iff its manifest exists, parses and has a truthy name and version; the record carries exactly that name and version, with source `node_modules`. |
| PackageDiscovery.ScopedPackages | src/package-discovery.ts:137-146 | The packages of a scope directory are exactly the child directories whose manifest yields a record. |
| PackageDiscovery.ScopedPackagesOne | src/package-discovery.ts:138-145 | One child of a scope contributes exactly its own record when it is a directory whose manifest yields one, and nothing otherwise. |
| PackageDiscovery.ScopedPackagesAppend | src/package-discovery.ts:138-146 | A scope's packages are its children's contributions concatenated in listing order, with repetitions kept. |
| PackageDiscovery.ScanEntries | src/package-discovery.ts:129-158 | Each scanned record is found through some listing entry (a package directory, or a readable scope); each record found before any unreadable scope is collected. |
| PackageDiscovery.ScanEntriesOne | src/package-discovery.ts:131-154 | One `node_modules` entry contributes nothing when it is a file or an unreadable scope, its scope's packages when it is a readable scope, and its own record (if any) otherwise. |
| PackageDiscovery.ScanEntriesAppend | src/package-discovery.ts:131-155 | Before any unreadable scope, the scan of a listing is the concatenation of the scans of its parts, so records come in listing order with repetitions kept. |
| PackageDiscovery.ScanStopsAtUnreadableScope | src/package-discovery.ts:137-157 | A scope directory that cannot be listed ends the scan; what came before is kept and nothing after is read. |
| PackageDiscovery.ScanNodeModules | src/package-discovery.ts:125-161 | Every record from the tree scan carries `node_modules`. |
| PackageDiscovery.MergeTree | src/package-discovery.ts:96-112 | The merge keeps the map valid and never lowers `addedCount`; its keys, values and count are stated by `MergeKeeps`, `MergeKeys`, `MergeFirst`, `MergeSources` and `MergeCount`. |
| PackageDiscovery.MergeKeeps | src/package-discovery.ts:96-112 | The merge only adds: every present key keeps its value. |
| PackageDiscovery.MergeKeys | src/package-discovery.ts:96-112 | After the merge a key is present iff it was before, or it is a tree name that is not a lock name. |
| PackageDiscovery.MergeFirst | src/package-discovery.ts:104-111 | For a new name, the first tree record with that name is the one added. |
| PackageDiscovery.MergeSources | src/package-discovery.ts:105-109 | Every added record carries `node_modules`. |
| PackageDiscovery.MergeCount | src/package-discovery.ts:95-111 | `addedCount` grows by exactly the number of keys added. |
| PackageDiscovery.MergeKeyed | src/package-discovery.ts:105-109 | The merge stores every added record under its own name. |
| PackageDiscovery.ReapplyIsIdentity | src/package-discovery.ts:114-117 | Re-applying the lock records after the merge changes nothing, since the merge never touches a lock name. |
| PackageDiscovery.Discover | src/package-discovery.ts:10-20 | Discovery yields a valid map; its exact contents are stated by `DiscoverSpec`. |
| PackageDiscovery.DiscoverSpec | src/package-discovery.ts:10-20 | Discovery's result: every lock record verbatim; otherwise the first tree record of a name; nothing else; the source says which; only lock records without `node_modules`; only tree records without a lockfile. |
| OsvClient.Chunks | src/osv-client.ts:14-15 | n packages make ceil(n/100) non-empty chunks, all full but the last, concatenating back to the list. |
| OsvClient.InitialQueries | src/osv-client.ts:36-42 | One query per package, in order, with its name, ecosystem `npm`, its version and no page token. |
| OsvClient.Positions | src/osv-client.ts:62-66 | The marked positions from a start, strictly increasing, each marked, and every marked position present. |
| OsvClient.PageOne | src/osv-client.ts:62-76 | First-page matches have non-empty `vulns`, belong to the batch, and number at most the batch size. |
| OsvClient.PageOneInOrder | src/osv-client.ts:62-76 | The first page is an order-preserving filter: one match per position whose result has non-empty `vulns`, in position order, each that position's package with that list. |
| OsvClient.PageOneSound | src/osv-client.ts:62-76 | Every first-page match is the package at some position whose result has a non-empty `vulns`, carrying that list. |
| OsvClient.PageOneComplete | src/osv-client.ts:62-76 | Every position whose result has a non-empty `vulns` is matched with that list. |
| OsvClient.FindIndex | src/osv-client.ts:103 | `findIndex` is -1 iff no match has the name, else the first position with it. |
| OsvClient.BuildMapping | src/osv-client.ts:99-104 | The mapping holds exactly the names of packages whose result has a page token, each mapped to its match's `findIndex`. |
| OsvClient.NextQueries | src/osv-client.ts:143-161 | Every next-page query is a current query with a result's token; the loop ends iff no result carries one. |
| OsvClient.NextQueriesInOrder | src/osv-client.ts:143-161 | The next page asks again for every query whose result carries a token, once each, in result order, each with that token. |
| OsvClient.PaginationQueries | src/osv-client.ts:99-114 | There are at most as many page-token queries as packages; `PaginationQueriesAreNextOfInitial` states which ones, via `NextQueriesInOrder`. |
| OsvClient.PaginationQueriesAreNextOfInitial | src/osv-client.ts:99-114 | The first pagination request is the follow-up of the initial request against the first page. |
| OsvClient.AppendPage | src/osv-client.ts:144-152 | A page keeps every match's package and appends to its list the `vulns` of every result whose query name maps to it, in order. |
| OsvClient.Paginate | src/osv-client.ts:117-171 | The loop keeps one match per first-page match; what it appends is stated by `PaginateGathers`, the requests it sends by `PaginateRequests`. |
| OsvClient.PaginateGathers | src/osv-client.ts:125-171 | Over the whole loop every match keeps its package and its list becomes exactly the old list followed by what each answered request gathered for it (`GatheredAll`: request i answered by response i, up to the first failure). |
| OsvClient.PaginateExtends | src/osv-client.ts:125-171 | Pagination only appends: same matches, same packages, earlier vulnerabilities kept as a prefix. |
| OsvClient.PaginateRequests | src/osv-client.ts:117-165 | Requests are sent only when there are queries; the first asks the given ones; each later one is the follow-up of the previous `Ok` page. |
| OsvClient.QueryBatch | src/osv-client.ts:28-86 | The first request is the initial queries and no more responses are read than exist; the matches are stated by `QueryBatchInOrder` and `QueryBatchMatches`. |
| OsvClient.QueryBatchFailed | src/osv-client.ts:55-57 | A failed first request yields no matches and no further request. |
| OsvClient.QueryBatchPaged | src/osv-client.ts:59-79 | After an `Ok` first page, the first-page matches are kept, possibly extended, and the second request asks the page-token queries. |
| OsvClient.QueryBatchGathers | src/osv-client.ts:59-79 | After an `Ok` first page, match j is first-page match j with its list followed by everything the later requests gathered for it. |
| OsvClient.QueryBatchMatches | src/osv-client.ts:28-86 | A batch's matches belong to it, each has at least one vulnerability, and there are at most as many as packages. |
| OsvClient.QueryBatchOk | src/osv-client.ts:59-79 | An `Ok` first page hands its matches, mapping and page-token queries to the pagination loop. |
| OsvClient.PaginateLastPage | src/osv-client.ts:163-165 | A page that asks for nothing more ends the loop after appending its results. |
| OsvClient.QueryChunks | src/osv-client.ts:14-25 | One batch outcome per chunk; their matches and requests are stated by `QueryChunksInOrder`, `QueryChunksMatches` and `QueryChunksRequests`. |
| OsvClient.QueryChunksRequests | src/osv-client.ts:14-23 | Every chunk's first request is its initial queries. |
| OsvClient.QueryBatchInOrder | src/osv-client.ts:44-79 | A failed first request gives no matches; after an `Ok` first page, the matches are the packages at the positions with non-empty `vulns`, in order, each list exactly that page's list followed by what every later answered request gathered for it. |
| OsvClient.QueryChunksInOrder | src/osv-client.ts:14-25 | Pushing each chunk's matches after the previous ones keeps the package order: the matches are packages at strictly increasing positions of the whole list. |
| OsvClient.QueryChunksMatches | src/osv-client.ts:14-25 | Every match comes from the package list with a vulnerability, there are no more matches than packages, and they follow the list's order across chunks. |
| OsvClient.QueryVulnerabilities | src/osv-client.ts:7-26 | ceil(n/100) batches, each starting with its chunk's initial queries; matches come from the input in its order and each has at least one vulnerability. |
| OsvClient.CleanBatch | src/osv-client.ts:44-79 | A clean first page means one request, no matches, one response consumed. |
| OsvClient.CleanChunks | src/osv-client.ts:14-23 | With clean pages, every chunk sends exactly its initial request and nothing matches. |
| OsvClient.CleanScan | src/osv-client.ts:7-26 | With clean pages, n packages cost ceil(n/100) requests, one per batch, and yield no matches. |
| OsvClient.SingleChunk | src/osv-client.ts:14-25 | At most 100 packages form a single batch whose outcome is the client's. |
| ReportGenerator.InsertDescSorted | src/report-generator.ts:58 | Insertion into a list in descending count order keeps it descending. |
| ReportGenerator.SortDesc | src/report-generator.ts:58 | The sort yields a permutation of the matches in descending count order. |
| ReportGenerator.SortDescStable | src/report-generator.ts:58 | The sort is stable: matches with equal counts keep their order. |
| ReportGenerator.SortKeepsVulnerable | src/report-generator.ts:58 | Sorting neither adds nor removes a match without vulnerabilities. |
| ReportGenerator.CountSource | src/report-generator.ts:80-83 | A per-source count is at most the number of packages. |
| ReportGenerator.SourceCountsPartition | src/report-generator.ts:80-83 | The `package-lock` and `node_modules` counts add up to the number of packages. |
| ReportGenerator.SummaryAddsUp | src/report-generator.ts:80-88 | The summary's two source counts add up to the total packages scanned. |
| ReportGenerator.ConsoleReport | src/report-generator.ts:4-18 | The console report exists iff no listed match lacks vulnerabilities (else `vulns[0].id` throws). |
| ReportGenerator.Render | src/report-generator.ts:110-174 | (function) The text of each console line; `VulnLineShowsDate`, `ConclusionsDiffer` and `Strings.NatToString` state what the vulnerability, conclusion and count lines show. |
| ReportGenerator.PackageBlock | src/report-generator.ts:60-75 | (function) The block of one vulnerable package; `PackageBlockShape` and `BlockHeaders` state its lines. |
| ReportGenerator.BlockHeaders | src/report-generator.ts:60 | A package block has exactly one package header, for its package. |
| ReportGenerator.BlocksHeaders | src/report-generator.ts:59-76 | The blocks of the first n matches carry n package headers, the k-th for the k-th match. |
| ReportGenerator.CleanReportShape | src/report-generator.ts:51-53 | With no matches the report says no known vulnerabilities were found, then how many packages were scanned, and has no package header. |
| ReportGenerator.VulnerableReportShape | src/report-generator.ts:54-76 | With matches the report states the vulnerable and total counts, then one package header per match, in descending count order. |
| ReportGenerator.ConsoleReportShape | src/report-generator.ts:4-18 | The report says "no known vulnerabilities" iff there are no matches, and has one package header per sorted match, in order. |
| ReportGenerator.BuildPackageBlock | src/report-generator.ts:60-75 | The loop body builds a package's block exactly when it has a vulnerability. |
| ReportGenerator.PushBlocks | src/report-generator.ts:59-76 | The loop over sorted matches appends their blocks in order, failing iff one has no vulnerabilities. |
| ReportGenerator.GenerateTextReport | src/report-generator.ts:41-108 | The text report is the console report's lines joined by newlines, and fails exactly when the console report does. |
| ReportGenerator.PackageBlockShape | src/report-generator.ts:60-75 | A block shows the count, at most five vulnerabilities, a "more" line iff more than five (shown + hidden = count) and the first one's details link. |
| ReportGenerator.VulnLineShowsDate | src/report-generator.ts:67 | A vulnerability line shows the id and the part of `modified` before the first `T`. |
| ReportGenerator.GenerateJsonReport | src/report-generator.ts:20-39 | The JSON copies the result's three counts, has `isVulnerable` iff there is a match, all packages in map order, per match the package, its list and its length, the given `scannedAt` and the OSV data source. |
| ReportGenerator.CountSumIsTotal | src/report-generator.ts:29-33 | The per-entry `vulnerabilityCount`s add up to the total number of vulnerabilities. |
| ReportGenerator.ConsoleEndsWithConclusion | src/report-generator.ts:168-174 | The console report ends on the conclusion, doomed iff some match was listed. |
| ReportGenerator.ConclusionsDiffer | src/report-generator.ts:168-174 | The doomed and not-doomed conclusions render differently. |
| ReportGenerator.ReportsAgree | src/report-generator.ts:20-39 | The console's conclusion matches the JSON's `isVulnerable`, and the JSON counts add up to the total. |
| Scanner.Scan | src/scanner.ts:19-46 | The scan yields a valid map; its counts, matches and defaults are stated by `ScanCounts`, `ScanMatchesDiscovered`, `ScanDefaultsToCwd` and `ScanEmptyProject`. |
| Scanner.TotalVulnsBounds | src/scanner.ts:43 | With every match vulnerable, the total is at least the number of matches, and zero iff there are none. |
| Scanner.ScanCounts | src/scanner.ts:38-44 | Total = discovered keys; vulnerable = matches ≤ total; every match vulnerable; vulns ≥ vulnerable, and zero iff none vulnerable. |
| Scanner.ScanJsonSummary | src/report-generator.ts:22-33 | A scan's JSON report is consistent: its package total is the length of its package list, its vulnerable count the number of entries, its vulnerability total the sum of their `vulnerabilityCount`s. |
| Scanner.ValuesAreEntries | src/scanner.ts:35 | A value of a name-keyed map is the record stored under its own name. |
| Scanner.ScanMatchesDiscovered | src/scanner.ts:28-35 | Every vulnerable package is the record discovery stored under its name. |
| Scanner.ScanDefaultsToCwd | src/scanner.ts:20 | An absent or empty project path scans exactly as the working directory does. |
| Scanner.ScanEmptyProject | src/scanner.ts:19-46 | A directory with neither lockfile nor `node_modules` scans to zero packages and no matches. |
| Scanner.ConsoleOutput | src/scanner.ts:59-65 | Nothing is printed iff silent; otherwise JSON iff `jsonOutput`, else the console report. |
| Scanner.SavedAs | src/scanner.ts:67-93 | (predicate) The save rule: a file iff the output path is non-empty, at that path, holding the JSON report with the given clock reading iff `jsonOutput` or the path ends in `.json`, else the console report's lines joined by newlines. |
| Scanner.SaveReport | src/scanner.ts:67-93 | The file written follows the save rule `SavedAs`. |
| Scanner.ScanAndReport | src/scanner.ts:56-96 | The result is the scan; every match is vulnerable; what is printed is the console output with the reading `printedAt`; what is saved follows the save rule `SavedAs` (path, JSON-or-text choice and contents) with the reading `savedAt`. |
| Scanner.ScanVerdict | src/scanner.ts:56-80 | A scan's console report always exists, and the JSON calls it vulnerable iff any vulnerability was found. |
| Cli.LongFlag | src/index.ts:41-71 | A long flag never changes the project path; it consumes the next argument iff it is a bare `--output` with a value available; a bare `--json`/`--silent` sets its flag; an unknown name changes nothing. |
| Cli.ShortGroup | src/index.ts:74-108 | (through `GroupSpec`) A short group never changes the project path; `j`/`s` set their flag iff they come before the first `o`; that `o` takes the rest of the group, or the next argument iff it ends the group. |
| Cli.Positional | src/index.ts:111-113 | A positional argument becomes the project path unless a non-empty one was taken; other flags stay as they are. |
| Cli.TakesValue | src/index.ts:61-64 | (predicate) A bare `--output`, or a group whose first `o` is its last letter, followed by a word not starting with `-`. |
| Cli.Step | src/index.ts:37-114 | A loop turn advances by two exactly when the flag takes the next argument as its value, else by one; only a positional argument touches the project path. |
| Cli.ParseArgs | src/index.ts:27-116 | Help iff `--help` or `-h` appears exactly; otherwise a run with a project path. |
| Cli.ReachesFlag | src/index.ts:61-64 | An argument starting with `-` is never swallowed as another flag's value. |
| Cli.JsonWithValue | src/index.ts:48-57 | `--json=v` sets JSON output to (lowercase v is `true`, or v is empty). |
| Cli.SilentWithValue | src/index.ts:48-57 | `--silent=v` sets silent to (lowercase v is `true`, or v is empty). |
| Cli.OutputWithValue | src/index.ts:58-60 | `--output=v` sets the output path to v. |
| Cli.LastJsonWins | src/index.ts:52 | A final `--json=v` decides JSON output whatever came before. |
| Cli.LastSilentWins | src/index.ts:53 | A final `--silent=v` decides silent whatever came before. |
| Cli.LastOutputWins | src/index.ts:60 | A final `--output=v` decides the output path whatever came before. |
| Cli.LastOutputPairWins | src/index.ts:61-63 | A final `--output file` (file not starting with `-`) decides the output path. |
| Cli.ShortThenLongFalse | src/index.ts:49-56 | `-j --json=false` leaves JSON output off. |
| Cli.Consume | src/index.ts:37-114 | (function) The argument loop; `ConsumeProject`, `ConsumeWords` and the `Last…Wins` lemmas state the project path and the flags it leaves. |
| Cli.ConsumeWords | src/index.ts:111-113 | Over plain words, no flag changes and the first non-empty word becomes the project path. |
| Cli.OnlyPositionals | src/index.ts:111-116 | Without flags, the project path is the first non-empty argument (else cwd) and every option is off. |
| Cli.FirstNonEmpty | src/index.ts:111-116 | The first non-empty string of a list is one of its elements, and is absent iff every element is empty. |
| Cli.ConsumeProject | src/index.ts:37-114 | With flags interleaved, the loop keeps a non-empty path already taken, else takes the first non-empty positional argument. |
| Cli.ParseArgsProject | src/index.ts:27-116 | A run's project path is the first non-empty positional argument, else the working directory. |
| Cli.FlagThenPath | src/index.ts:74-113 | `-j path`: the group takes no value, so `path` is the project path and JSON is on. |
| Cli.OutputBeforeFlag | src/index.ts:61-64 | `--output -j`: the bare `--output` consumes nothing and `-j` sets JSON. |
| Cli.GroupWithOutput | src/index.ts:98-103 | `-jo file` sets JSON and takes `file` as the output path. |
| Cli.AttachedOutput | src/index.ts:90-96 | `-o<rest>` takes the rest of the token as the output path, even when it spells flag letters. |
| Cli.UnknownLongFlag | src/index.ts:69-70 | An unknown long flag consumes nothing; the word after it is the project path. |
| Cli.HelpLetterInGroup | src/index.ts:80-87 | `h` inside a group asks for no help and sets nothing. |
| Cli.ExitCode | src/index.ts:133-139 | The exit code is 0 or 1; 1 iff the scan threw or some match was found. |
| Cli.ExitCodeIsVerdict | src/index.ts:133 | A finished scan exits with 1 iff vulnerabilities were found, iff the JSON says `isVulnerable`. |
| Cli.ScanAndExit | src/index.ts:123-133 | After scan-and-report with the given options the run exits with the scan as result, code 1 iff a vulnerability was found (else 0), every match vulnerable, the console output (nothing iff silent) and the file the save rule writes (`Reported`). |
| Cli.RunCli | src/index.ts:16-141 | Help iff asked; otherwise the run promises `Reported` for the parsed options: the scan of those options, exit code 1 iff vulnerabilities were found (else 0), every match vulnerable, printing exactly their console output (reading `printedAt`, nothing iff silent) and saving per `SavedAs` (reading `savedAt`). |
| DiscoveryExamples.LockV3Example | __test__/package-discovery.test.ts:30-52 | A v3 lockfile skips the root entry and records the named entries in order. |
| DiscoveryExamples.LockV1Example | __test__/package-discovery.test.ts:54-76 | A v1 tree records `a`, `b` and `b/c` in walk order. |
| DiscoveryExamples.ScopedScanExample | __test__/package-discovery.test.ts:87-132 | The scan reads unscoped packages and scoped packages one level down, skipping files. |
| DiscoveryExamples.NodeModulesExample | __test__/package-discovery.test.ts:87-132 | Without a lockfile, both installed packages are recorded in scan order. |
| DiscoveryExamples.LockPrecedenceExample | __test__/package-discovery.test.ts:134-176 | The lockfile's record wins over an installed package of the same name. |
| DiscoveryExamples.MalformedAndMissingExample | __test__/package-discovery.test.ts:178-197 | A malformed manifest contributes nothing, and a missing lockfile and tree yield nothing. |
| OsvExamples.CleanExample | __test__/osv-client.test.ts:20-48 | A clean batch yields no match and one request. |
| OsvExamples.BatchingExample | __test__/osv-client.test.ts:91-121 | 150 packages make two batches of one request each. |
| OsvExamples.ApiErrorExample | __test__/osv-client.test.ts:69-89 | A failed or missing response yields no matches. |
| OsvExamples.FirstOnly | __test__/osv-client.test.ts:50-67 | Only the package whose result has vulnerabilities is matched. |
| OsvExamples.PaginationExample | __test__/osv-client.test.ts:123-164 | A page token causes one follow-up request whose vulnerabilities are appended to the first match. |
| OsvExamples.PaginationErrorExample | __test__/osv-client.test.ts:166-186 | A failed pagination request keeps the first page's matches. |

## Left out

- Console logging, the help text (`src/index.ts:143-172`), `process.exit` itself and the `isExecutedDirectly` check are left out. So is the `silent` flag's effect on logging; the model keeps the flag and its effect on which report is printed.
- `JSON.parse` and `JSON.stringify` are left out: a lockfile or manifest is a parsed value, absent when the file is missing or does not parse. The JSON report is the object before serialisation. Its `scannedAt` timestamp is a parameter.
- Writing the report, creating its directory, and the swallowed write errors (`src/scanner.ts:69-92`) are left out. The model returns what would be written.
- Instance state across calls is left out. `discoverPackages` is modelled on a fresh instance; the source keeps `packageLockMap` between calls even when a later lockfile read fails.
- The rethrow in `scan` (`src/scanner.ts:48-53`) is left out. Discovery and the client catch every error, so nothing reaches it; `Cli.ExitCode` still covers the thrown case.
- Responses whose `results` array is longer than the request are left out. In the source, positions past the batch push matches with an undefined package. The model reads only the aligned positions; a longer pagination page ends the loop, as the source does when it throws.
- `__proto__` and other inherited keys of the plain object used as the pagination map are left out, as is `Object.entries` order for integer-like keys.
- Lockfile and manifest fields of non-string type are left out; the model types `name` and `version` as optional strings.
- `toLowerCase` covers ASCII only.
- `Array.isArray(result.vulns)` is left out. The model's `vulns` is always a list, so the defensive copy has no effect.
- `PackageDiscovery.ScanNodeModules`: states only the source of the records. Which records are found, and in what order, is stated by `ScanEntries`, `ScanEntriesOne`, `ScanEntriesAppend` and `ScanStopsAtUnreadableScope`.
- `OsvClient.PageOne`: its own contract states bounds and membership only. The exact contents and their order are stated by `PageOneInOrder`.
- The examples are stated over arbitrary names, versions and vulnerabilities satisfying the test's shape, not over the tests' literal data.
- The code has no provenance tracking, no symlink guard, no skipping of `.bin`, no recursion into nested `node_modules` and no reading of lockfiles embedded in packages, so none of these is modelled.
