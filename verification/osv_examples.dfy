/** The client scenarios the repository's tests describe, stated over any
    packages and vulnerabilities of the same shape. */
module OsvExamples {
  import opened Wrappers
  import opened Types
  import opened OsvClient

  /** A batch of at most 100 packages, every result clean: no matches and a
      single request. */
  lemma CleanExample(batch: seq<PackageInfo>, page: seq<OsvResult>)
    requires 0 < |batch| <= BatchSize && CleanPage(page)
    ensures var r := QueryVulnerabilities(batch, [Ok(page)]);
            r.matches == [] && |r.batches| == 1 && |r.batches[0]| == 1
  {
    CleanScan(batch, [Ok(page)]);
  }

  /** 150 packages and two clean pages: two chunks, one request each. */
  lemma BatchingExample(pkgs: seq<PackageInfo>, page1: seq<OsvResult>, page2: seq<OsvResult>)
    requires |pkgs| == 150 && CleanPage(page1) && CleanPage(page2)
    ensures var r := QueryVulnerabilities(pkgs, [Ok(page1), Ok(page2)]);
            r.matches == [] && |r.batches| == 2 && |r.batches[0]| == 1 && |r.batches[1]| == 1
  {
    CleanScan(pkgs, [Ok(page1), Ok(page2)]);
  }

  /** A failed or missing first response yields no matches. */
  lemma ApiErrorExample(batch: seq<PackageInfo>)
    requires 0 < |batch| <= BatchSize
    ensures QueryVulnerabilities(batch, [Fail]).matches == []
    ensures QueryVulnerabilities(batch, []).matches == []
  {
    QueryBatchFailed(batch, [Fail]);
    QueryBatchFailed(batch, []);
    SingleChunk(batch, [Fail]);
    SingleChunk(batch, []);
  }

  /** Only the first result has vulnerabilities and a page token. */
  lemma FirstOnly(batch: seq<PackageInfo>, results: seq<OsvResult>)
    requires |batch| > 0 && |results| > 0 && HasVulns(results[0]) && HasToken(results[0]) && CleanPage(results[1..])
    ensures PageOne(batch, results) == [VulnerabilityResult(batch[0], results[0].vulns.value)]
    ensures PaginationQueries(batch, results) == [Query(batch[0].name, Ecosystem, batch[0].version, results[0].nextPageToken)]
  {
    CleanPageOne(batch[1..], results[1..]);
  }

  /** The first page of a batch whose first package has the vulnerability
      `p1` and the page token `tok`, the others nothing. */
  function TokenPage(batch: seq<PackageInfo>, p1: Vuln, tok: string): seq<OsvResult>
    requires |batch| > 0
  {
    [OsvResult(Some([p1]), Some(tok))] + seq(|batch| - 1, i => OsvResult(Some([]), None))
  }

  /** The first package is the one match on that page, and the one follow-up
      query asks for it with the token; the mapping sends its name to the
      first match. */
  lemma TokenPageOne(batch: seq<PackageInfo>, p1: Vuln, tok: string)
    requires |batch| > 0 && tok != ""
    ensures var results := TokenPage(batch, p1, tok);
            var ms := PageOne(batch, results);
            var mapping := BuildMapping(batch, results, ms);
            && ms == [VulnerabilityResult(batch[0], [p1])]
            && PaginationQueries(batch, results) == [Query(batch[0].name, Ecosystem, batch[0].version, Some(tok))]
            && mapping == map[batch[0].name := 0]
  {
    var results := TokenPage(batch, p1, tok);
    assert CleanPage(results[1..]);
    FirstOnly(batch, results);
    var ms := PageOne(batch, results);
    var mapping := BuildMapping(batch, results, ms);
    assert batch[0].name in mapping by {
      assert HasToken(results[0]);
    }
    forall n | n in mapping
      ensures n == batch[0].name
    {
      var i :| 0 <= i < |batch| && i < |results| && HasToken(results[i]) && batch[i].name == n;
      assert i == 0;
    }
    assert mapping[batch[0].name] == 0;
  }

  /** One pagination round: the follow-up request's results are appended to
      the first match, and no result asks for more. */
  lemma TokenRound(pkg: PackageInfo, p1: Vuln, tok: string, later: seq<Vuln>)
    requires tok != ""
    ensures var q := Query(pkg.name, Ecosystem, pkg.version, Some(tok));
            var page := [OsvResult(Some(later), None)];
            var ms1 := AppendPage([VulnerabilityResult(pkg, [p1])], map[pkg.name := 0], [q], page);
            && ms1 == [VulnerabilityResult(pkg, [p1] + later)]
            && NextQueries([q], page) == []
  {
    var q := Query(pkg.name, Ecosystem, pkg.version, Some(tok));
    var page := [OsvResult(Some(later), None)];
    if |later| > 0 {
      assert Gathered(0, map[pkg.name := 0], [q], page) == later;
    } else {
      assert Gathered(0, map[pkg.name := 0], [q], page) == [];
    }
  }

  /** The batch run for that script: the first page, one follow-up request,
      and the later vulnerabilities appended to the first match. */
  lemma TokenBatch(batch: seq<PackageInfo>, p1: Vuln, tok: string, later: seq<Vuln>)
    requires |batch| > 0 && tok != ""
    ensures var script := [Ok(TokenPage(batch, p1, tok)), Ok([OsvResult(Some(later), None)])];
            QueryBatch(batch, script)
            == BatchOutcome([VulnerabilityResult(batch[0], [p1] + later)], [],
                            [InitialQueries(batch), [Query(batch[0].name, Ecosystem, batch[0].version, Some(tok))]])
  {
    var first := TokenPage(batch, p1, tok);
    var second := [OsvResult(Some(later), None)];
    var script := [Ok(first), Ok(second)];
    var q := Query(batch[0].name, Ecosystem, batch[0].version, Some(tok));
    TokenPageOne(batch, p1, tok);
    TokenRound(batch[0], p1, tok, later);
    var ms := [VulnerabilityResult(batch[0], [p1])];
    var mapping := map[batch[0].name := 0];
    var ms1 := [VulnerabilityResult(batch[0], [p1] + later)];
    assert script[1..] == [Ok(second)];
    PaginateLastPage(ms, mapping, [q], script[1..]);
    assert Paginate(ms, mapping, [q], script[1..]) == PageOutcome(ms1, [], [[q]]);
    QueryBatchOk(batch, script);
  }

  /** The first package has the vulnerability `p1` and a page token on the
      first page; the second request asks for that package with the token, and
      the vulnerabilities found there are appended after `p1`. Two requests in
      all. */
  lemma PaginationExample(batch: seq<PackageInfo>, p1: Vuln, tok: string, later: seq<Vuln>)
    requires 0 < |batch| <= BatchSize && tok != ""
    ensures var script := [Ok(TokenPage(batch, p1, tok)), Ok([OsvResult(Some(later), None)])];
            var r := QueryVulnerabilities(batch, script);
            && r.matches == [VulnerabilityResult(batch[0], [p1] + later)]
            && r.batches == [[InitialQueries(batch), [Query(batch[0].name, Ecosystem, batch[0].version, Some(tok))]]]
  {
    TokenBatch(batch, p1, tok, later);
    SingleChunk(batch, [Ok(TokenPage(batch, p1, tok)), Ok([OsvResult(Some(later), None)])]);
  }

  /** A failed pagination request keeps the first page's matches. */
  lemma PaginationErrorExample(batch: seq<PackageInfo>, p1: Vuln, tok: string)
    requires 0 < |batch| <= BatchSize && tok != ""
    ensures QueryVulnerabilities(batch, [Ok(TokenPage(batch, p1, tok)), Fail]).matches
            == [VulnerabilityResult(batch[0], [p1])]
  {
    var script := [Ok(TokenPage(batch, p1, tok)), Fail];
    TokenPageOne(batch, p1, tok);
    assert script[1..] == [Fail];
    QueryBatchOk(batch, script);
    SingleChunk(batch, script);
  }
}
