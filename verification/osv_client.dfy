/** `OSVClient`: the packages are sent to the OSV batch endpoint in chunks of
    100; the first page of each chunk yields one match per package with a
    non-empty `vulns` list, and packages whose result carries a
    `next_page_token` are queried again, page after page, with the extra
    vulnerabilities appended to their first-page match.

    The network is a script: the responses `fetch` produces, in call order.
    `Fail` stands for a rejected `fetch`, a response that is not `ok`, and a
    body without a `results` array; a script that runs out behaves like
    `Fail`, since a mock that has nothing left to return yields `undefined`
    and reading `ok` from it throws. */
module OsvClient {
  import opened Wrappers
  import opened Types

  const BatchSize: nat := 100
  const Ecosystem: string := "npm"

  /** One entry of the `queries` array: package name, ecosystem, version and,
      on follow-up pages, the page token. */
  datatype Query = Query(name: string, ecosystem: string, version: string, pageToken: Option<string>)

  /** One entry of the response's `results` array. */
  datatype OsvResult = OsvResult(vulns: Option<seq<Vuln>>, nextPageToken: Option<string>)

  datatype Response = Fail | Ok(results: seq<OsvResult>)

  /** `result.vulns && result.vulns.length > 0`. */
  predicate HasVulns(r: OsvResult) {
    r.vulns.Some? && |r.vulns.value| > 0
  }

  /** `result.next_page_token` is truthy. */
  predicate HasToken(r: OsvResult) {
    r.nextPageToken.Some? && r.nextPageToken.value != ""
  }

  function Flatten<T>(xss: seq<seq<T>>): seq<T> {
    if |xss| == 0 then [] else xss[0] + Flatten(xss[1..])
  }

  /** The positions from `from` on whose mark is set, in increasing order:
      the reference against which the client's filters are stated. */
  function Positions(marks: seq<bool>, from: nat): (ps: seq<nat>)
    ensures forall j :: 0 <= j < |ps| ==> from <= ps[j] < |marks| && marks[ps[j]]
    ensures forall j, k :: 0 <= j < k < |ps| ==> ps[j] < ps[k]
    ensures forall i :: from <= i < |marks| && marks[i] ==> i in ps
    decreases |marks| - from
  {
    if from >= |marks| then []
    else (if marks[from] then [from] else []) + Positions(marks, from + 1)
  }

  /** Which of the first `n` results (as far as there are results) have a
      non-empty `vulns` list. */
  function VulnMarks(n: nat, results: seq<OsvResult>): (m: seq<bool>)
    ensures |m| <= n && |m| <= |results| && (|m| == n || |m| == |results|)
    ensures forall i :: 0 <= i < |m| ==> m[i] == HasVulns(results[i])
  {
    var len := if n <= |results| then n else |results|;
    seq(len, i requires 0 <= i < len => HasVulns(results[i]))
  }

  /** Which of the first `n` results (as far as there are results) carry a
      page token. */
  function TokenMarks(n: nat, results: seq<OsvResult>): (m: seq<bool>)
    ensures |m| <= n && |m| <= |results| && (|m| == n || |m| == |results|)
    ensures forall i :: 0 <= i < |m| ==> m[i] == HasToken(results[i])
  {
    var len := if n <= |results| then n else |results|;
    seq(len, i requires 0 <= i < len => HasToken(results[i]))
  }

  // ---------------------------------------------------------------------------
  // Batching

  /** The `slice(i, i + BATCH_SIZE)` chunks of the package list: ceil(n/100)
      non-empty chunks, all full but the last, that concatenate back to the
      list. */
  function Chunks(ps: seq<PackageInfo>): (r: seq<seq<PackageInfo>>)
    ensures |r| == (|ps| + BatchSize - 1) / BatchSize
    ensures forall k :: 0 <= k < |r| ==> 0 < |r[k]| <= BatchSize
    ensures forall k :: 0 <= k < |r| - 1 ==> |r[k]| == BatchSize
    ensures Flatten(r) == ps
    decreases |ps|
  {
    if |ps| == 0 then []
    else if |ps| <= BatchSize then
      assert Flatten([ps]) == ps + Flatten<PackageInfo>([]);
      [ps]
    else
      var rest := Chunks(ps[BatchSize..]);
      assert ([ps[..BatchSize]] + rest)[1..] == rest;
      assert ps == ps[..BatchSize] + ps[BatchSize..];
      [ps[..BatchSize]] + rest
  }

  /** The first request of a chunk: one query per package, in order, without a
      page token. */
  function InitialQueries(batch: seq<PackageInfo>): (qs: seq<Query>)
    ensures |qs| == |batch|
    ensures forall i :: 0 <= i < |qs| ==>
              qs[i].name == batch[i].name && qs[i].version == batch[i].version
              && qs[i].ecosystem == Ecosystem && qs[i].pageToken.None?
  {
    seq(|batch|, i requires 0 <= i < |batch| => Query(batch[i].name, Ecosystem, batch[i].version, None))
  }

  // ---------------------------------------------------------------------------
  // The first page

  /** The match list after the first page: one match per position whose
      result has a non-empty `vulns` list, in result order. Positions past
      either list are not read. */
  function PageOne(batch: seq<PackageInfo>, results: seq<OsvResult>): (ms: seq<VulnerabilityResult>)
    ensures |ms| <= |batch| && |ms| <= |results|
    ensures forall j :: 0 <= j < |ms| ==> |ms[j].vulns| > 0 && ms[j].pkg in batch
    decreases |batch|
  {
    if |batch| == 0 || |results| == 0 then []
    else
      var rest := PageOne(batch[1..], results[1..]);
      var head := if HasVulns(results[0]) then [VulnerabilityResult(batch[0], results[0].vulns.value)] else [];
      head + rest
  }

  /** `m` is the match the first page makes for position `i`. */
  ghost predicate MatchAt(batch: seq<PackageInfo>, results: seq<OsvResult>, m: VulnerabilityResult, i: int) {
    0 <= i < |batch| && i < |results| && HasVulns(results[i])
    && m == VulnerabilityResult(batch[i], results[i].vulns.value)
  }

  /** Every first-page match is the package at some position whose result
      has a non-empty `vulns` list, carrying that list. */
  lemma {:induction false} PageOneSound(batch: seq<PackageInfo>, results: seq<OsvResult>)
    ensures forall m :: m in PageOne(batch, results) ==> exists i :: MatchAt(batch, results, m, i)
    decreases |batch|
  {
    if |batch| > 0 && |results| > 0 {
      var ms := PageOne(batch, results);
      var rest := PageOne(batch[1..], results[1..]);
      var head := if HasVulns(results[0]) then [VulnerabilityResult(batch[0], results[0].vulns.value)] else [];
      assert ms == head + rest;
      PageOneSound(batch[1..], results[1..]);
      forall m | m in ms
        ensures exists i :: MatchAt(batch, results, m, i)
      {
        if m in rest {
          var i :| MatchAt(batch[1..], results[1..], m, i);
          assert MatchAt(batch, results, m, i + 1);
        } else {
          assert MatchAt(batch, results, m, 0);
        }
      }
    } else {
      assert PageOne(batch, results) == [];
    }
  }

  /** Every position whose result has a non-empty `vulns` list is matched
      with that list. */
  lemma {:induction false} PageOneComplete(batch: seq<PackageInfo>, results: seq<OsvResult>)
    ensures var ms := PageOne(batch, results);
            forall i :: 0 <= i < |batch| && i < |results| && HasVulns(results[i]) ==>
              VulnerabilityResult(batch[i], results[i].vulns.value) in ms
    decreases |batch|
  {
    if |batch| > 0 && |results| > 0 {
      var ms := PageOne(batch, results);
      var rest := PageOne(batch[1..], results[1..]);
      var head := if HasVulns(results[0]) then [VulnerabilityResult(batch[0], results[0].vulns.value)] else [];
      assert ms == head + rest;
      PageOneComplete(batch[1..], results[1..]);
      forall i | 0 <= i < |batch| && i < |results| && HasVulns(results[i])
        ensures VulnerabilityResult(batch[i], results[i].vulns.value) in ms
      {
        if i > 0 {
          assert batch[1..][i - 1] == batch[i] && results[1..][i - 1] == results[i];
          assert VulnerabilityResult(batch[i], results[i].vulns.value) in rest;
        }
      }
    }
  }

  lemma {:induction false} PageOneFrom(batch: seq<PackageInfo>, results: seq<OsvResult>, from: nat)
    requires from <= |VulnMarks(|batch|, results)|
    ensures var ps := Positions(VulnMarks(|batch|, results), from);
            var ms := PageOne(batch[from..], results[from..]);
            && |ms| == |ps|
            && forall j :: 0 <= j < |ms| ==> ms[j] == VulnerabilityResult(batch[ps[j]], results[ps[j]].vulns.value)
    decreases |batch| - from
  {
    var marks := VulnMarks(|batch|, results);
    if from == |marks| {
      assert PageOne(batch[from..], results[from..]) == [];
    } else {
      PageOneFrom(batch, results, from + 1);
      assert batch[from..][1..] == batch[from + 1..] && results[from..][1..] == results[from + 1..];
      var rest := PageOne(batch[from + 1..], results[from + 1..]);
      var head := if HasVulns(results[from]) then [VulnerabilityResult(batch[from], results[from].vulns.value)] else [];
      assert PageOne(batch[from..], results[from..]) == head + rest;
      assert Positions(marks, from) == (if marks[from] then [from] else []) + Positions(marks, from + 1);
    }
  }

  /** The first page is an order-preserving filter: one match per position
      whose result has a non-empty `vulns` list, in position order, each the
      package at that position with that list. */
  lemma PageOneInOrder(batch: seq<PackageInfo>, results: seq<OsvResult>)
    ensures var ps := Positions(VulnMarks(|batch|, results), 0);
            var ms := PageOne(batch, results);
            && |ms| == |ps|
            && forall j :: 0 <= j < |ms| ==> ms[j] == VulnerabilityResult(batch[ps[j]], results[ps[j]].vulns.value)
  {
    PageOneFrom(batch, results, 0);
    assert batch[0..] == batch && results[0..] == results;
  }

  /** `vulnerabilities.findIndex(v => v.package.name === name)`. */
  function FindIndex(ms: seq<VulnerabilityResult>, name: string): (r: int)
    ensures -1 <= r < |ms|
    ensures r == -1 <==> forall j :: 0 <= j < |ms| ==> ms[j].pkg.name != name
    ensures 0 <= r ==> ms[r].pkg.name == name && forall j :: 0 <= j < r ==> ms[j].pkg.name != name
  {
    if |ms| == 0 then -1
    else if ms[0].pkg.name == name then 0
    else
      var r := FindIndex(ms[1..], name);
      if r < 0 then -1 else r + 1
  }

  /** `paginationMappingByName`: for every package whose first-page result has
      a page token, its name mapped to the position of its match (-1 when it
      has none). */
  function BuildMapping(batch: seq<PackageInfo>, results: seq<OsvResult>, ms: seq<VulnerabilityResult>): (m: map<string, int>)
    ensures forall n :: n in m ==> m[n] == FindIndex(ms, n)
    ensures forall n :: n in m <==> exists i :: 0 <= i < |batch| && i < |results| && HasToken(results[i]) && batch[i].name == n
    decreases |batch|
  {
    if |batch| == 0 || |results| == 0 then map[]
    else
      var m := BuildMapping(batch[1..], results[1..], ms);
      assert forall i :: 1 <= i < |batch| && i < |results| ==> batch[1..][i - 1] == batch[i] && results[1..][i - 1] == results[i];
      if HasToken(results[0]) then m[batch[0].name := FindIndex(ms, batch[0].name)] else m
  }

  /** The first pagination request: for each package whose result carries a
      page token, its name and version with that token. */
  function PaginationQueries(batch: seq<PackageInfo>, results: seq<OsvResult>): (qs: seq<Query>)
    ensures |qs| <= |batch|
    decreases |batch|
  {
    if |batch| == 0 || |results| == 0 then []
    else
      var rest := PaginationQueries(batch[1..], results[1..]);
      if HasToken(results[0]) then [Query(batch[0].name, Ecosystem, batch[0].version, results[0].nextPageToken)] + rest
      else rest
  }

  // ---------------------------------------------------------------------------
  // Follow-up pages

  /** The queries of the next page: each current query whose result carries a
      page token, with that token replacing its own. */
  function NextQueries(queries: seq<Query>, results: seq<OsvResult>): (next: seq<Query>)
    ensures |next| <= |queries| && |next| <= |results|
    ensures |next| == 0 <==> forall i :: 0 <= i < |queries| && i < |results| ==> !HasToken(results[i])
    ensures forall j :: 0 <= j < |next| ==>
              exists i :: 0 <= i < |queries| && i < |results| && HasToken(results[i])
                          && next[j] == queries[i].(pageToken := results[i].nextPageToken)
    decreases |queries|
  {
    if |queries| == 0 || |results| == 0 then []
    else
      var rest := NextQueries(queries[1..], results[1..]);
      assert forall i :: 1 <= i < |queries| && i < |results| ==> queries[1..][i - 1] == queries[i] && results[1..][i - 1] == results[i];
      if HasToken(results[0]) then [queries[0].(pageToken := results[0].nextPageToken)] + rest
      else rest
  }

  /** `next[j]` is `queries[ps[j]]` carrying the page token of `results[ps[j]]`. */
  predicate RequeriedAt(next: seq<Query>, ps: seq<nat>, queries: seq<Query>, results: seq<OsvResult>) {
    && |next| == |ps|
    && forall j :: 0 <= j < |next| ==>
         ps[j] < |queries| && ps[j] < |results| && next[j] == queries[ps[j]].(pageToken := results[ps[j]].nextPageToken)
  }

  lemma RequeriedConcat(h: seq<Query>, t: seq<Query>, hp: seq<nat>, tp: seq<nat>, queries: seq<Query>, results: seq<OsvResult>)
    requires RequeriedAt(h, hp, queries, results) && RequeriedAt(t, tp, queries, results)
    ensures RequeriedAt(h + t, hp + tp, queries, results)
  {
    forall j | |h| <= j < |h + t|
      ensures (h + t)[j] == t[j - |h|] && (hp + tp)[j] == tp[j - |h|]
    {
    }
  }

  lemma {:induction false} NextQueriesFrom(queries: seq<Query>, results: seq<OsvResult>, from: nat)
    requires from <= |TokenMarks(|queries|, results)|
    ensures RequeriedAt(NextQueries(queries[from..], results[from..]), Positions(TokenMarks(|queries|, results), from), queries, results)
    decreases |queries| - from
  {
    var marks := TokenMarks(|queries|, results);
    if from == |marks| {
      assert NextQueries(queries[from..], results[from..]) == [];
    } else {
      NextQueriesFrom(queries, results, from + 1);
      assert queries[from..][1..] == queries[from + 1..] && results[from..][1..] == results[from + 1..];
      var rest := NextQueries(queries[from + 1..], results[from + 1..]);
      var head := if HasToken(results[from]) then [queries[from].(pageToken := results[from].nextPageToken)] else [];
      var hp: seq<nat> := if marks[from] then [from] else [];
      assert NextQueries(queries[from..], results[from..]) == head + rest;
      assert Positions(marks, from) == hp + Positions(marks, from + 1);
      RequeriedConcat(head, rest, hp, Positions(marks, from + 1), queries, results);
    }
  }

  /** The next page asks again for every query whose result carries a page
      token, in result order, each with that token: one query per
      token-bearing position. */
  lemma NextQueriesInOrder(queries: seq<Query>, results: seq<OsvResult>)
    ensures var ps := Positions(TokenMarks(|queries|, results), 0);
            var next := NextQueries(queries, results);
            && |next| == |ps|
            && forall j :: 0 <= j < |next| ==> next[j] == queries[ps[j]].(pageToken := results[ps[j]].nextPageToken)
  {
    NextQueriesFrom(queries, results, 0);
    assert queries[0..] == queries && results[0..] == results;
  }

  /** The first pagination request is the follow-up of the initial request:
      the two code paths that build page-token queries agree. */
  lemma {:induction false} PaginationQueriesAreNextOfInitial(batch: seq<PackageInfo>, results: seq<OsvResult>)
    ensures PaginationQueries(batch, results) == NextQueries(InitialQueries(batch), results)
    decreases |batch|
  {
    if |batch| == 0 || |results| == 0 {
    } else {
      assert InitialQueries(batch)[1..] == InitialQueries(batch[1..]);
      PaginationQueriesAreNextOfInitial(batch[1..], results[1..]);
    }
  }

  /** The mapping target of a query name, when it is a usable index. */
  function Target(mapping: map<string, int>, name: string): int {
    if name in mapping then mapping[name] else -1
  }

  /** What one page adds to the match at position `j`: the `vulns` of every
      result whose query name maps to `j`, in result order. */
  function Gathered(j: int, mapping: map<string, int>, queries: seq<Query>, results: seq<OsvResult>): seq<Vuln>
    decreases |queries|
  {
    if |queries| == 0 || |results| == 0 then []
    else
      (if Target(mapping, queries[0].name) == j && HasVulns(results[0]) then results[0].vulns.value else [])
      + Gathered(j, mapping, queries[1..], results[1..])
  }

  /** The loop over one page's results: the vulnerabilities of result `i` are
      appended to the match that `queries[i]`'s name maps to, when that index
      is not negative and the list is not empty. */
  function AppendPage(ms: seq<VulnerabilityResult>, mapping: map<string, int>, queries: seq<Query>, results: seq<OsvResult>)
    : (r: seq<VulnerabilityResult>)
    requires forall n :: n in mapping ==> mapping[n] < |ms|
    ensures |r| == |ms|
    ensures forall j :: 0 <= j < |ms| ==>
              r[j].pkg == ms[j].pkg && r[j].vulns == ms[j].vulns + Gathered(j, mapping, queries, results)
    decreases |queries|
  {
    if |queries| == 0 || |results| == 0 then
      assert forall j :: 0 <= j < |ms| ==> ms[j].vulns + [] == ms[j].vulns;
      ms
    else
      var t := Target(mapping, queries[0].name);
      var ms1 := if 0 <= t && HasVulns(results[0]) then ms[t := ms[t].(vulns := ms[t].vulns + results[0].vulns.value)] else ms;
      var r := AppendPage(ms1, mapping, queries[1..], results[1..]);
      AppendPageCons(ms, ms1, r, mapping, queries, results);
      r
  }

  /** The first result's append followed by the rest of the page is the
      whole page's append. */
  lemma AppendPageCons(ms: seq<VulnerabilityResult>, ms1: seq<VulnerabilityResult>, r: seq<VulnerabilityResult>,
                       mapping: map<string, int>, queries: seq<Query>, results: seq<OsvResult>)
    requires |queries| > 0 && |results| > 0
    requires var t := Target(mapping, queries[0].name);
             ms1 == if 0 <= t < |ms| && HasVulns(results[0]) then ms[t := ms[t].(vulns := ms[t].vulns + results[0].vulns.value)] else ms
    requires |r| == |ms1|
    requires forall j :: 0 <= j < |ms1| ==>
               r[j].pkg == ms1[j].pkg && r[j].vulns == ms1[j].vulns + Gathered(j, mapping, queries[1..], results[1..])
    ensures forall j :: 0 <= j < |ms| ==>
              r[j].pkg == ms[j].pkg && r[j].vulns == ms[j].vulns + Gathered(j, mapping, queries, results)
  {
    forall j | 0 <= j < |ms|
      ensures r[j].pkg == ms[j].pkg && r[j].vulns == ms[j].vulns + Gathered(j, mapping, queries, results)
    {
      var h := if Target(mapping, queries[0].name) == j && HasVulns(results[0]) then results[0].vulns.value else [];
      assert ms1[j].vulns == ms[j].vulns + h;
      AppendAssoc(ms[j].vulns, h, Gathered(j, mapping, queries[1..], results[1..]));
    }
  }

  predicate IsPrefix<T(==)>(a: seq<T>, b: seq<T>) {
    |a| <= |b| && b[..|a|] == a
  }

  predicate IsSuffix<T(==)>(a: seq<T>, b: seq<T>) {
    |a| <= |b| && b[|b| - |a|..] == a
  }

  lemma SuffixOfTail<T>(a: seq<T>, b: seq<T>)
    requires |b| > 0 && IsSuffix(a, b[1..])
    ensures IsSuffix(a, b)
  {
    assert b[1..][|b| - 1 - |a|..] == b[|b| - |a|..];
  }

  /** Only appends: same length, same packages, every old list a prefix of the new. */
  predicate Extends(ms: seq<VulnerabilityResult>, r: seq<VulnerabilityResult>) {
    |r| == |ms| && forall j :: 0 <= j < |ms| ==> r[j].pkg == ms[j].pkg && IsPrefix(ms[j].vulns, r[j].vulns)
  }

  /** Each request after the first was answered by an `Ok` page, and its
      queries are the follow-up of the previous request's against that page. */
  predicate Chained(requests: seq<seq<Query>>, script: seq<Response>)
    decreases |requests|
  {
    |requests| <= 1
    || (&& |script| > 0 && script[0].Ok?
        && requests[1] == NextQueries(requests[0], script[0].results)
        && Chained(requests[1..], script[1..]))
  }

  /** The result of a pagination run: the updated matches, the responses not
      yet consumed, and the query list of every request sent. */
  datatype PageOutcome = PageOutcome(matches: seq<VulnerabilityResult>, rest: seq<Response>, requests: seq<seq<Query>>)

  /** The `while (hasMorePages && currentQueries.length > 0)` loop. A failed
      request ends it with what has been appended so far; a page with more
      results than queries ends it after appending the aligned results, as
      reading `currentQueries[i]` past the end throws; otherwise the next page
      asks for every query whose result carried a page token. */
  function Paginate(ms: seq<VulnerabilityResult>, mapping: map<string, int>, queries: seq<Query>, script: seq<Response>)
    : (r: PageOutcome)
    requires forall n :: n in mapping ==> mapping[n] < |ms|
    ensures |r.matches| == |ms|
    decreases |script|
  {
    if |queries| == 0 then PageOutcome(ms, script, [])
    else if |script| == 0 then PageOutcome(ms, [], [queries])
    else if script[0].Fail? then PageOutcome(ms, script[1..], [queries])
    else
      var results := script[0].results;
      var ms1 := AppendPage(ms, mapping, queries, results);
      if |results| > |queries| then PageOutcome(ms1, script[1..], [queries])
      else
        var sub := Paginate(ms1, mapping, NextQueries(queries, results), script[1..]);
        PageOutcome(sub.matches, sub.rest, [queries] + sub.requests)
  }

  lemma ExtendsTrans(a: seq<VulnerabilityResult>, b: seq<VulnerabilityResult>, c: seq<VulnerabilityResult>)
    requires Extends(a, b) && Extends(b, c)
    ensures Extends(a, c)
  {
    forall j | 0 <= j < |a|
      ensures c[j].vulns[..|a[j].vulns|] == a[j].vulns
    {
      assert c[j].vulns[..|b[j].vulns|][..|a[j].vulns|] == c[j].vulns[..|a[j].vulns|];
    }
  }

  /** Pagination only appends: every match keeps its package and its earlier
      vulnerabilities. */
  lemma {:induction false} PaginateExtends(ms: seq<VulnerabilityResult>, mapping: map<string, int>, queries: seq<Query>, script: seq<Response>)
    requires forall n :: n in mapping ==> mapping[n] < |ms|
    ensures Extends(ms, Paginate(ms, mapping, queries, script).matches)
    decreases |script|
  {
    if |queries| == 0 || |script| == 0 || script[0].Fail? {
      assert forall j :: 0 <= j < |ms| ==> ms[j].vulns[..|ms[j].vulns|] == ms[j].vulns;
    } else {
      var results := script[0].results;
      var ms1 := AppendPage(ms, mapping, queries, results);
      assert Extends(ms, ms1) by {
        assert forall j :: 0 <= j < |ms| ==> ms1[j].vulns[..|ms[j].vulns|] == ms[j].vulns;
      }
      if |results| <= |queries| {
        PaginateExtends(ms1, mapping, NextQueries(queries, results), script[1..]);
        ExtendsTrans(ms, ms1, Paginate(ms1, mapping, NextQueries(queries, results), script[1..]).matches);
      }
    }
  }

  /** One request per consumed response: the responses left over are a suffix
      of the script, the first request asks the given queries, every request
      is non-empty, and each later request is the follow-up of the one before
      it against the `Ok` page that answered it. */
  lemma {:induction false} PaginateRequests(ms: seq<VulnerabilityResult>, mapping: map<string, int>, queries: seq<Query>, script: seq<Response>)
    requires forall n :: n in mapping ==> mapping[n] < |ms|
    ensures var r := Paginate(ms, mapping, queries, script);
            && IsSuffix(r.rest, script)
            && (|queries| == 0 <==> |r.requests| == 0)
            && (|queries| > 0 ==> r.requests[0] == queries)
            && (forall k :: 0 <= k < |r.requests| ==> |r.requests[k]| > 0)
            && Chained(r.requests, script)
    decreases |script|
  {
    if |queries| == 0 || |script| == 0 {
    } else {
      SuffixOfTail(script[1..], script);
      if script[0].Ok? && |script[0].results| <= |queries| {
        var results := script[0].results;
        var ms1 := AppendPage(ms, mapping, queries, results);
        var next := NextQueries(queries, results);
        PaginateRequests(ms1, mapping, next, script[1..]);
        var sub := Paginate(ms1, mapping, next, script[1..]);
        SuffixOfTail(sub.rest, script);
        assert ([queries] + sub.requests)[1..] == sub.requests;
      }
    }
  }

  /** What every answered request of a pagination run adds to the match at
      position `j`: request `i` was answered by `script[i]`, and each `Ok`
      page contributes what it gathers for `j`, in arrival order. */
  function GatheredAll(j: int, mapping: map<string, int>, requests: seq<seq<Query>>, script: seq<Response>): seq<Vuln>
    decreases |requests|
  {
    if |requests| == 0 || |script| == 0 || script[0].Fail? then []
    else Gathered(j, mapping, requests[0], script[0].results) + GatheredAll(j, mapping, requests[1..], script[1..])
  }

  /** What the pagination loop promises about match `j`: the package is kept
      and the list grows by exactly what the answered pages gathered for it. */
  predicate GathersInto(ms: seq<VulnerabilityResult>, mapping: map<string, int>, script: seq<Response>, p: PageOutcome) {
    && |p.matches| == |ms|
    && forall j :: 0 <= j < |ms| ==>
         p.matches[j].pkg == ms[j].pkg
         && p.matches[j].vulns == ms[j].vulns + GatheredAll(j, mapping, p.requests, script)
  }

  /** Over the whole loop, every match keeps its package and its list grows
      by exactly the `vulns` that the answered pages carry for names mapped
      to it, page after page and result after result. */
  lemma {:induction false} PaginateGathers(ms: seq<VulnerabilityResult>, mapping: map<string, int>, queries: seq<Query>, script: seq<Response>)
    requires forall n :: n in mapping ==> mapping[n] < |ms|
    ensures GathersInto(ms, mapping, script, Paginate(ms, mapping, queries, script))
    decreases |script|
  {
    if |queries| == 0 || |script| == 0 || script[0].Fail? || |script[0].results| > |queries| {
      PaginateStops(ms, mapping, queries, script);
    } else {
      var results := script[0].results;
      var ms1 := AppendPage(ms, mapping, queries, results);
      PaginateGathers(ms1, mapping, NextQueries(queries, results), script[1..]);
      PaginateContinues(ms, mapping, queries, script);
    }
  }

  /** A run that ends at its first request gathers at most that one page. */
  lemma PaginateStops(ms: seq<VulnerabilityResult>, mapping: map<string, int>, queries: seq<Query>, script: seq<Response>)
    requires forall n :: n in mapping ==> mapping[n] < |ms|
    requires |queries| == 0 || |script| == 0 || script[0].Fail? || |script[0].results| > |queries|
    ensures GathersInto(ms, mapping, script, Paginate(ms, mapping, queries, script))
  {
    var p := Paginate(ms, mapping, queries, script);
    if |queries| == 0 || |script| == 0 || script[0].Fail? {
      assert p.matches == ms;
      forall j | 0 <= j < |ms|
        ensures p.matches[j].vulns == ms[j].vulns + GatheredAll(j, mapping, p.requests, script)
      {
        assert GatheredAll(j, mapping, p.requests, script) == [];
      }
    } else {
      assert p.requests == [queries];
      forall j | 0 <= j < |ms|
        ensures p.matches[j].vulns == ms[j].vulns + GatheredAll(j, mapping, p.requests, script)
      {
        assert GatheredAll(j, mapping, p.requests[1..], script[1..]) == [];
      }
    }
  }

  /** A run that goes on after an `Ok` page gathers that page, then what the
      rest of the run gathers. */
  lemma PaginateContinues(ms: seq<VulnerabilityResult>, mapping: map<string, int>, queries: seq<Query>, script: seq<Response>)
    requires forall n :: n in mapping ==> mapping[n] < |ms|
    requires |queries| > 0 && |script| > 0 && script[0].Ok? && |script[0].results| <= |queries|
    requires var ms1 := AppendPage(ms, mapping, queries, script[0].results);
             GathersInto(ms1, mapping, script[1..], Paginate(ms1, mapping, NextQueries(queries, script[0].results), script[1..]))
    ensures GathersInto(ms, mapping, script, Paginate(ms, mapping, queries, script))
  {
    forall j | 0 <= j < |ms|
      ensures var p := Paginate(ms, mapping, queries, script);
              p.matches[j].pkg == ms[j].pkg && p.matches[j].vulns == ms[j].vulns + GatheredAll(j, mapping, p.requests, script)
    {
      PaginateContinuesAt(ms, mapping, queries, script, j);
    }
  }

  /** The step of `PaginateContinues` for the match at one position. */
  lemma PaginateContinuesAt(ms: seq<VulnerabilityResult>, mapping: map<string, int>, queries: seq<Query>, script: seq<Response>, j: nat)
    requires forall n :: n in mapping ==> mapping[n] < |ms|
    requires |queries| > 0 && |script| > 0 && script[0].Ok? && |script[0].results| <= |queries|
    requires j < |ms|
    requires var ms1 := AppendPage(ms, mapping, queries, script[0].results);
             var sub := Paginate(ms1, mapping, NextQueries(queries, script[0].results), script[1..]);
             sub.matches[j].pkg == ms1[j].pkg && sub.matches[j].vulns == ms1[j].vulns + GatheredAll(j, mapping, sub.requests, script[1..])
    ensures var p := Paginate(ms, mapping, queries, script);
            p.matches[j].pkg == ms[j].pkg && p.matches[j].vulns == ms[j].vulns + GatheredAll(j, mapping, p.requests, script)
  {
    var results := script[0].results;
    var ms1 := AppendPage(ms, mapping, queries, results);
    var sub := Paginate(ms1, mapping, NextQueries(queries, results), script[1..]);
    PaginateOkStep(ms, mapping, queries, script);
    GatheredAllCons(j, mapping, queries, sub.requests, script);
    var g := Gathered(j, mapping, queries, results);
    var rest := GatheredAll(j, mapping, sub.requests, script[1..]);
    AppendAssoc(ms[j].vulns, g, rest);
  }

  /** An `Ok` page no longer than the request is appended, and the loop goes
      on with the follow-up queries. */
  lemma PaginateOkStep(ms: seq<VulnerabilityResult>, mapping: map<string, int>, queries: seq<Query>, script: seq<Response>)
    requires forall n :: n in mapping ==> mapping[n] < |ms|
    requires |queries| > 0 && |script| > 0 && script[0].Ok? && |script[0].results| <= |queries|
    ensures var ms1 := AppendPage(ms, mapping, queries, script[0].results);
            var sub := Paginate(ms1, mapping, NextQueries(queries, script[0].results), script[1..]);
            Paginate(ms, mapping, queries, script) == PageOutcome(sub.matches, sub.rest, [queries] + sub.requests)
  {
  }

  /** The first answered request contributes its page, then the rest. */
  lemma GatheredAllCons(j: int, mapping: map<string, int>, q: seq<Query>, rs: seq<seq<Query>>, script: seq<Response>)
    requires |script| > 0 && script[0].Ok?
    ensures GatheredAll(j, mapping, [q] + rs, script)
            == Gathered(j, mapping, q, script[0].results) + GatheredAll(j, mapping, rs, script[1..])
  {
    assert ([q] + rs)[1..] == rs;
  }

  // ---------------------------------------------------------------------------
  // One chunk, all chunks

  datatype BatchOutcome = BatchOutcome(matches: seq<VulnerabilityResult>, rest: seq<Response>, requests: seq<seq<Query>>)

  /** `queryBatch` followed by `handleBatchPagination`. A failed first request
      yields no matches; otherwise the first-page matches, extended by the
      pagination run. */
  function QueryBatch(batch: seq<PackageInfo>, script: seq<Response>): (r: BatchOutcome)
    ensures |r.requests| >= 1 && r.requests[0] == InitialQueries(batch)
    ensures |r.rest| <= |script|
    decreases |script|, 0
  {
    var first := InitialQueries(batch);
    if |script| == 0 then BatchOutcome([], [], [first])
    else if script[0].Fail? then BatchOutcome([], script[1..], [first])
    else
      var results := script[0].results;
      var ms := PageOne(batch, results);
      var mapping := BuildMapping(batch, results, ms);
      var p := Paginate(ms, mapping, PaginationQueries(batch, results), script[1..]);
      PaginateRequests(ms, mapping, PaginationQueries(batch, results), script[1..]);
      BatchOutcome(p.matches, p.rest, [first] + p.requests)
  }

  /** A chunk whose first request fails yields no matches and sends no
      further request. */
  lemma QueryBatchFailed(batch: seq<PackageInfo>, script: seq<Response>)
    requires |script| == 0 || script[0].Fail?
    ensures var r := QueryBatch(batch, script);
            r.matches == [] && |r.requests| == 1 && IsSuffix(r.rest, script)
  {
    if |script| > 0 {
      SuffixOfTail(script[1..], script);
    }
  }

  /** After an `Ok` first page: the first-page matches, each possibly extended
      by later pages; the second request, if any, asks for the page-token
      queries of the first page; the unread responses are a suffix. */
  lemma QueryBatchPaged(batch: seq<PackageInfo>, script: seq<Response>)
    requires |script| > 0 && script[0].Ok?
    ensures var r := QueryBatch(batch, script);
            && Extends(PageOne(batch, script[0].results), r.matches)
            && (|r.requests| > 1 ==> r.requests[1] == PaginationQueries(batch, script[0].results))
            && IsSuffix(r.rest, script)
  {
    var results := script[0].results;
    var ms := PageOne(batch, results);
    var mapping := BuildMapping(batch, results, ms);
    var pq := PaginationQueries(batch, results);
    PaginateExtends(ms, mapping, pq, script[1..]);
    PaginateRequests(ms, mapping, pq, script[1..]);
    SuffixOfTail(Paginate(ms, mapping, pq, script[1..]).rest, script);
  }

  /** Every match of a chunk is a package of the chunk with at least one
      vulnerability, and there are no more matches than packages. */
  lemma QueryBatchMatches(batch: seq<PackageInfo>, script: seq<Response>)
    ensures var r := QueryBatch(batch, script);
            && (forall j :: 0 <= j < |r.matches| ==> |r.matches[j].vulns| > 0 && r.matches[j].pkg in batch)
            && |r.matches| <= |batch|
            && IsSuffix(r.rest, script)
  {
    if |script| == 0 || script[0].Fail? {
      QueryBatchFailed(batch, script);
    } else {
      QueryBatchPaged(batch, script);
      var ms := PageOne(batch, script[0].results);
      var r := QueryBatch(batch, script);
      assert forall j :: 0 <= j < |r.matches| ==> r.matches[j].pkg == ms[j].pkg && |ms[j].vulns| <= |r.matches[j].vulns|;
    }
  }

  /** `ms` lists packages of `pkgs` at the strictly increasing positions `idx`:
      the matches keep the packages' order. */
  predicate PackagesAt(ms: seq<VulnerabilityResult>, idx: seq<nat>, pkgs: seq<PackageInfo>) {
    && |ms| == |idx|
    && (forall j :: 0 <= j < |ms| ==> idx[j] < |pkgs| && ms[j].pkg == pkgs[idx[j]])
    && (forall j, k :: 0 <= j < k < |idx| ==> idx[j] < idx[k])
  }

  /** A chunk's matches: none after a failed first request; after an `Ok`
      first page, one match per position whose result has a non-empty
      `vulns` list, in position order, each starting with that list. */
  lemma QueryBatchInOrder(batch: seq<PackageInfo>, script: seq<Response>)
    ensures var r := QueryBatch(batch, script);
            && (|script| == 0 || script[0].Fail? ==> r.matches == [])
            && (|script| > 0 && script[0].Ok? ==>
                  var ps := Positions(VulnMarks(|batch|, script[0].results), 0);
                  && PackagesAt(r.matches, ps, batch)
                  && var mapping := BuildMapping(batch, script[0].results, PageOne(batch, script[0].results));
                  forall j :: 0 <= j < |ps| ==>
                    r.matches[j].vulns == script[0].results[ps[j]].vulns.value + GatheredAll(j, mapping, r.requests[1..], script[1..]))
  {
    if |script| > 0 && script[0].Ok? {
      PageOneInOrder(batch, script[0].results);
      QueryBatchGathers(batch, script);
    }
  }

  /** After an `Ok` first page, match `j` is the first page's match `j`
      followed by everything the later requests gathered for it. */
  lemma QueryBatchGathers(batch: seq<PackageInfo>, script: seq<Response>)
    requires |script| > 0 && script[0].Ok?
    ensures var results := script[0].results;
            var ms := PageOne(batch, results);
            var mapping := BuildMapping(batch, results, ms);
            var r := QueryBatch(batch, script);
            && |r.matches| == |ms|
            && forall j :: 0 <= j < |ms| ==>
                 r.matches[j].pkg == ms[j].pkg
                 && r.matches[j].vulns == ms[j].vulns + GatheredAll(j, mapping, r.requests[1..], script[1..])
  {
    var results := script[0].results;
    var ms := PageOne(batch, results);
    var mapping := BuildMapping(batch, results, ms);
    var pq := PaginationQueries(batch, results);
    var p := Paginate(ms, mapping, pq, script[1..]);
    PaginateGathers(ms, mapping, pq, script[1..]);
    var r := QueryBatch(batch, script);
    assert r.requests[1..] == p.requests;
  }

  function Shift(ps: seq<nat>, d: nat): (r: seq<nat>)
    ensures |r| == |ps| && forall j :: 0 <= j < |ps| ==> r[j] == ps[j] + d
  {
    seq(|ps|, j requires 0 <= j < |ps| => ps[j] + d)
  }

  lemma PackagesAtConcat(a: seq<VulnerabilityResult>, ai: seq<nat>, x: seq<PackageInfo>,
                         b: seq<VulnerabilityResult>, bi: seq<nat>, y: seq<PackageInfo>)
    requires PackagesAt(a, ai, x) && PackagesAt(b, bi, y)
    ensures PackagesAt(a + b, ai + Shift(bi, |x|), x + y)
  {
    var idx := ai + Shift(bi, |x|);
    forall j | |a| <= j < |a + b|
      ensures (a + b)[j] == b[j - |a|] && idx[j] == bi[j - |a|] + |x|
    {
    }
  }

  datatype ClientOutcome = ClientOutcome(matches: seq<VulnerabilityResult>, rest: seq<Response>, batches: seq<seq<seq<Query>>>)

  /** The batch loop: each chunk in turn, reading the responses the previous
      chunks left, its matches appended to the list. */
  function QueryChunks(chunks: seq<seq<PackageInfo>>, script: seq<Response>): (r: ClientOutcome)
    ensures |r.batches| == |chunks|
    decreases |chunks|
  {
    if |chunks| == 0 then ClientOutcome([], script, [])
    else
      var b := QueryBatch(chunks[0], script);
      var sub := QueryChunks(chunks[1..], b.rest);
      ClientOutcome(b.matches + sub.matches, sub.rest, [b.requests] + sub.batches)
  }

  /** Every chunk sends its initial queries first. */
  lemma {:induction false} QueryChunksRequests(chunks: seq<seq<PackageInfo>>, script: seq<Response>)
    ensures var r := QueryChunks(chunks, script);
            forall k :: 0 <= k < |chunks| ==> |r.batches[k]| >= 1 && r.batches[k][0] == InitialQueries(chunks[k])
    decreases |chunks|
  {
    if |chunks| > 0 {
      var b := QueryBatch(chunks[0], script);
      QueryChunksRequests(chunks[1..], b.rest);
      var sub := QueryChunks(chunks[1..], b.rest);
      var r := QueryChunks(chunks, script);
      assert r.batches == [b.requests] + sub.batches;
      forall k | 1 <= k < |chunks|
        ensures |r.batches[k]| >= 1 && r.batches[k][0] == InitialQueries(chunks[k])
      {
        assert r.batches[k] == sub.batches[k - 1];
        assert chunks[k] == chunks[1..][k - 1];
      }
    }
  }

  /** The chunks' matches, taken together, keep the packages' order: the
      matches of each chunk follow those of the chunks before it. */
  lemma {:induction false} QueryChunksInOrder(chunks: seq<seq<PackageInfo>>, script: seq<Response>)
    ensures exists idx :: PackagesAt(QueryChunks(chunks, script).matches, idx, Flatten(chunks))
    decreases |chunks|
  {
    if |chunks| == 0 {
      assert QueryChunks(chunks, script).matches == [];
      assert PackagesAt([], [], Flatten(chunks));
    } else {
      var b := QueryBatch(chunks[0], script);
      QueryBatchInOrder(chunks[0], script);
      var bi: seq<nat> := if |script| > 0 && script[0].Ok? then Positions(VulnMarks(|chunks[0]|, script[0].results), 0) else [];
      assert PackagesAt(b.matches, bi, chunks[0]);
      QueryChunksInOrder(chunks[1..], b.rest);
      var sub := QueryChunks(chunks[1..], b.rest);
      var si :| PackagesAt(sub.matches, si, Flatten(chunks[1..]));
      PackagesAtConcat(b.matches, bi, chunks[0], sub.matches, si, Flatten(chunks[1..]));
      assert QueryChunks(chunks, script).matches == b.matches + sub.matches;
      assert Flatten(chunks) == chunks[0] + Flatten(chunks[1..]);
      assert PackagesAt(QueryChunks(chunks, script).matches, bi + Shift(si, |chunks[0]|), Flatten(chunks));
    }
  }

  /** Every match is a package of some chunk with at least one vulnerability,
      there are no more matches than packages, and the matches keep the
      packages' order across chunks. */
  lemma {:induction false} QueryChunksMatches(chunks: seq<seq<PackageInfo>>, script: seq<Response>)
    ensures var r := QueryChunks(chunks, script);
            && (forall j :: 0 <= j < |r.matches| ==> |r.matches[j].vulns| > 0 && r.matches[j].pkg in Flatten(chunks))
            && |r.matches| <= |Flatten(chunks)|
            && exists idx :: PackagesAt(r.matches, idx, Flatten(chunks))
    decreases |chunks|
  {
    QueryChunksInOrder(chunks, script);
    if |chunks| > 0 {
      var b := QueryBatch(chunks[0], script);
      QueryBatchMatches(chunks[0], script);
      QueryChunksMatches(chunks[1..], b.rest);
      var sub := QueryChunks(chunks[1..], b.rest);
      assert Flatten(chunks) == chunks[0] + Flatten(chunks[1..]);
      var r := QueryChunks(chunks, script);
      assert r.matches == b.matches + sub.matches;
    }
  }

  /** `queryVulnerabilities`: one `queryBatch` per chunk of 100. */
  function QueryVulnerabilities(pkgs: seq<PackageInfo>, script: seq<Response>): (r: ClientOutcome)
    ensures |r.batches| == (|pkgs| + BatchSize - 1) / BatchSize
    ensures forall k :: 0 <= k < |r.batches| ==> |r.batches[k]| >= 1 && r.batches[k][0] == InitialQueries(Chunks(pkgs)[k])
    ensures forall j :: 0 <= j < |r.matches| ==> |r.matches[j].vulns| > 0 && r.matches[j].pkg in pkgs
    ensures |r.matches| <= |pkgs|
    ensures exists idx :: PackagesAt(r.matches, idx, pkgs)
  {
    QueryChunksRequests(Chunks(pkgs), script);
    QueryChunksMatches(Chunks(pkgs), script);
    QueryChunks(Chunks(pkgs), script)
  }

  // ---------------------------------------------------------------------------
  // Clean responses

  /** A page in which no result has vulnerabilities or a page token. */
  predicate CleanPage(results: seq<OsvResult>) {
    forall i :: 0 <= i < |results| ==> !HasVulns(results[i]) && !HasToken(results[i])
  }

  /** Every response is an `Ok` clean page. */
  predicate AllClean(script: seq<Response>) {
    forall k :: 0 <= k < |script| ==> script[k].Ok? && CleanPage(script[k].results)
  }

  lemma {:induction false} CleanPageOne(batch: seq<PackageInfo>, results: seq<OsvResult>)
    requires CleanPage(results)
    ensures PageOne(batch, results) == []
    ensures PaginationQueries(batch, results) == []
    decreases |batch|
  {
    if |batch| > 0 && |results| > 0 {
      assert CleanPage(results[1..]) by {
        assert forall i :: 0 <= i < |results[1..]| ==> results[1..][i] == results[i + 1];
      }
      CleanPageOne(batch[1..], results[1..]);
    }
  }

  /** A chunk answered by a clean page sends exactly one request, matches
      nothing, and consumes exactly one response. */
  lemma CleanBatch(batch: seq<PackageInfo>, script: seq<Response>)
    requires |script| > 0 && script[0].Ok? && CleanPage(script[0].results)
    ensures var r := QueryBatch(batch, script);
            r.matches == [] && r.requests == [InitialQueries(batch)] && r.rest == script[1..]
  {
    CleanPageOne(batch, script[0].results);
  }

  /** With clean pages for every chunk, no package is vulnerable and each
      chunk sends exactly one request: ceil(n/100) requests in all. */
  lemma {:induction false} CleanChunks(chunks: seq<seq<PackageInfo>>, script: seq<Response>)
    requires |script| >= |chunks| && AllClean(script)
    ensures var r := QueryChunks(chunks, script);
            && r.matches == []
            && (forall k :: 0 <= k < |chunks| ==> r.batches[k] == [InitialQueries(chunks[k])])
            && r.rest == script[|chunks|..]
    decreases |chunks|
  {
    if |chunks| > 0 {
      CleanBatch(chunks[0], script);
      assert AllClean(script[1..]) by {
        assert forall k :: 0 <= k < |script[1..]| ==> script[1..][k] == script[k + 1];
      }
      CleanChunks(chunks[1..], script[1..]);
      var r := QueryChunks(chunks, script);
      var sub := QueryChunks(chunks[1..], script[1..]);
      assert r.batches == [QueryBatch(chunks[0], script).requests] + sub.batches;
      forall k | 1 <= k < |chunks|
        ensures r.batches[k] == [InitialQueries(chunks[k])]
      {
        assert r.batches[k] == sub.batches[k - 1];
        assert chunks[k] == chunks[1..][k - 1];
      }
      assert script[1..][|chunks| - 1..] == script[|chunks|..];
    }
  }

  /** The batching promise: with clean pages, `n` packages cost ceil(n/100)
      requests, one per chunk, and yield no matches. */
  lemma CleanScan(pkgs: seq<PackageInfo>, script: seq<Response>)
    requires |script| >= (|pkgs| + BatchSize - 1) / BatchSize && AllClean(script)
    ensures var r := QueryVulnerabilities(pkgs, script);
            && r.matches == []
            && |r.batches| == (|pkgs| + BatchSize - 1) / BatchSize
            && (forall k :: 0 <= k < |r.batches| ==> |r.batches[k]| == 1)
  {
    CleanChunks(Chunks(pkgs), script);
  }

  // ---------------------------------------------------------------------------
  // Unfolding steps

  /** A pagination page that asks for nothing further ends the run after
      appending its results. */
  lemma PaginateLastPage(ms: seq<VulnerabilityResult>, mapping: map<string, int>, queries: seq<Query>, script: seq<Response>)
    requires forall n :: n in mapping ==> mapping[n] < |ms|
    requires |queries| > 0 && |script| > 0 && script[0].Ok? && |script[0].results| <= |queries|
    requires NextQueries(queries, script[0].results) == []
    ensures Paginate(ms, mapping, queries, script)
            == PageOutcome(AppendPage(ms, mapping, queries, script[0].results), script[1..], [queries])
  {
  }

  /** A chunk whose first page is `Ok`: its first-page matches, handed to the
      pagination run with the page-token queries. */
  lemma QueryBatchOk(batch: seq<PackageInfo>, script: seq<Response>)
    requires |script| > 0 && script[0].Ok?
    ensures var results := script[0].results;
            var ms := PageOne(batch, results);
            var p := Paginate(ms, BuildMapping(batch, results, ms), PaginationQueries(batch, results), script[1..]);
            QueryBatch(batch, script) == BatchOutcome(p.matches, p.rest, [InitialQueries(batch)] + p.requests)
  {
  }

  /** A chunk of at most 100 packages is a single batch. */
  lemma SingleChunk(pkgs: seq<PackageInfo>, script: seq<Response>)
    requires 0 < |pkgs| <= BatchSize
    ensures var b := QueryBatch(pkgs, script);
            var r := QueryVulnerabilities(pkgs, script);
            r.matches == b.matches && r.batches == [b.requests]
  {
    assert Chunks(pkgs) == [pkgs];
    var b := QueryBatch(pkgs, script);
    assert [pkgs][1..] == [];
    assert QueryChunks([], b.rest) == ClientOutcome([], b.rest, []);
    assert b.matches + [] == b.matches;
  }
}
