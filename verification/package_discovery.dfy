/** Package discovery: the lockfile pass (flat `packages` map of lockfile v2/v3,
    then the nested `dependencies` tree of lockfile v1), the one-level scan of
    `node_modules` (plus one level under `@scope` directories), and the merge in
    which lockfile records always win. The file system is an abstract directory
    tree; `JSON.parse` results are given already parsed, with `None` for a file
    that is missing, unreadable or not valid JSON. */
module PackageDiscovery {
  import opened Wrappers
  import opened Strings
  import opened InsertionMaps
  import opened Types

  // ---------------------------------------------------------------------------
  // Lockfile shape

  /** An object of a lockfile. An absent `dependencies` object is modelled as an
      empty one: the walk does the same thing for both. */
  datatype LockEntry = LockEntry(name: Option<string>, version: Option<string>, dependencies: seq<LockDep>)

  /** One key of a lockfile object, in `Object.entries` order. */
  datatype LockDep = LockDep(key: string, info: LockEntry)

  /** The parsed lockfile: the v2/v3 `packages` map and the v1 `dependencies`
      tree, each empty when absent. */
  datatype Lockfile = Lockfile(packages: seq<LockDep>, dependencies: seq<LockDep>)

  /** Records carry `source` and are stored under their own name. */
  ghost predicate AllFrom(m: PackageMap, s: Source) {
    forall k :: k in m.entries ==> m.entries[k].source == s
  }

  // ---------------------------------------------------------------------------
  // Writing records in order: later records with the same name win

  /** No later record has the same name as `recs[i]`. */
  ghost predicate LastNamed(recs: seq<PackageInfo>, i: int)
    requires 0 <= i < |recs|
  {
    forall j :: i < j < |recs| ==> recs[j].name != recs[i].name
  }

  /** No earlier record has the same name as `recs[i]`. */
  ghost predicate FirstNamed(recs: seq<PackageInfo>, i: int)
    requires 0 <= i < |recs|
  {
    forall j :: 0 <= j < i ==> recs[j].name != recs[i].name
  }

  ghost predicate Named(recs: seq<PackageInfo>, k: string) {
    exists i :: 0 <= i < |recs| && recs[i].name == k
  }

  /** `map.set(r.name, r)` for every record in turn. */
  function SetAll(m: PackageMap, recs: seq<PackageInfo>): (r: PackageMap)
    requires m.Valid()
    ensures r.Valid()
    decreases |recs|
  {
    if |recs| == 0 then m else SetAll(m.Put(recs[0].name, recs[0]), recs[1..])
  }

  lemma NamedCons(recs: seq<PackageInfo>)
    requires |recs| > 0
    ensures forall k :: Named(recs, k) <==> k == recs[0].name || Named(recs[1..], k)
  {
    forall k | Named(recs[1..], k) ensures Named(recs, k) {
      var i :| 0 <= i < |recs[1..]| && recs[1..][i].name == k;
      assert recs[i + 1].name == k;
    }
  }

  /** The keys after writing: the old ones and the records' names. */
  lemma {:induction false} SetAllKeys(m: PackageMap, recs: seq<PackageInfo>)
    requires m.Valid()
    ensures forall k :: k in SetAll(m, recs).entries <==> k in m.entries || Named(recs, k)
    decreases |recs|
  {
    if |recs| > 0 {
      SetAllKeys(m.Put(recs[0].name, recs[0]), recs[1..]);
      NamedCons(recs);
    }
  }

  /** A key no record names keeps its value. */
  lemma {:induction false} SetAllUntouched(m: PackageMap, recs: seq<PackageInfo>)
    requires m.Valid()
    ensures forall k :: k in m.entries && !Named(recs, k) ==>
              k in SetAll(m, recs).entries && SetAll(m, recs).entries[k] == m.entries[k]
    decreases |recs|
  {
    if |recs| > 0 {
      SetAllUntouched(m.Put(recs[0].name, recs[0]), recs[1..]);
      NamedCons(recs);
    }
  }

  /** Every record's name is present, and the last record with a name is
      the value stored under it. */
  lemma {:induction false} SetAllLast(m: PackageMap, recs: seq<PackageInfo>)
    requires m.Valid()
    ensures forall i :: 0 <= i < |recs| ==> recs[i].name in SetAll(m, recs).entries
    ensures forall i :: 0 <= i < |recs| && LastNamed(recs, i) ==> SetAll(m, recs).entries[recs[i].name] == recs[i]
    decreases |recs|
  {
    if |recs| > 0 {
      var m1 := m.Put(recs[0].name, recs[0]);
      SetAllLast(m1, recs[1..]);
      SetAllUntouched(m1, recs[1..]);
      assert forall i :: 1 <= i < |recs| ==> recs[1..][i - 1] == recs[i];
      assert forall i :: 1 <= i < |recs| && LastNamed(recs, i) ==> LastNamed(recs[1..], i - 1);
      if !Named(recs[1..], recs[0].name) {
        assert SetAll(m, recs).entries[recs[0].name] == recs[0];
      } else {
        var j :| 0 <= j < |recs[1..]| && recs[1..][j].name == recs[0].name;
        assert !LastNamed(recs, 0);
      }
    }
  }

  /** Writing records under their own names keeps every record under its own name. */
  lemma {:induction false} SetAllKeyed(m: PackageMap, recs: seq<PackageInfo>)
    requires m.Valid() && KeyedByName(m)
    ensures KeyedByName(SetAll(m, recs))
    decreases |recs|
  {
    if |recs| > 0 {
      SetAllKeyed(m.Put(recs[0].name, recs[0]), recs[1..]);
    }
  }

  /** Writing records that are all already present with the same value changes
      nothing, neither the values nor the iteration order. */
  lemma {:induction false} SetAllPresentIsIdentity(m: PackageMap, recs: seq<PackageInfo>)
    requires m.Valid()
    requires forall i :: 0 <= i < |recs| ==> recs[i].name in m.entries && m.entries[recs[i].name] == recs[i]
    ensures SetAll(m, recs) == m
    decreases |recs|
  {
    if |recs| > 0 {
      assert m.Put(recs[0].name, recs[0]) == m;
      SetAllPresentIsIdentity(m, recs[1..]);
    }
  }

  lemma {:induction false} SetAllAppend(m: PackageMap, a: seq<PackageInfo>, b: seq<PackageInfo>)
    requires m.Valid()
    ensures SetAll(m, a + b) == SetAll(SetAll(m, a), b)
    decreases |a|
  {
    if |a| > 0 {
      assert (a + b)[1..] == a[1..] + b;
      SetAllAppend(m.Put(a[0].name, a[0]), a[1..], b);
    } else {
      assert a + b == b;
    }
  }

  // ---------------------------------------------------------------------------
  // Lockfile v2/v3: the flat `packages` map

  /** The package name an installation path denotes, for entries without a
      `name`: the second `/`-separated segment, or scope and name when that
      segment starts with `@`, falling back to the first segment. */
  function ExtractNameFromPath(path: string): string {
    var parts := Split(path, '/');
    if |parts| > 1 && StartsWith(parts[1], "@") then
      parts[1] + "/" + (if |parts| > 2 then parts[2] else "undefined")
    else if |parts| > 1 && parts[1] != "" then
      parts[1]
    else
      parts[0]
  }

  /** A path without a separator names itself. */
  lemma ExtractNameNoSeparator(path: string)
    requires '/' !in path
    ensures ExtractNameFromPath(path) == path
  {
    SplitNoSeparator(path, '/');
  }

  /** Only the second segment is examined: for `first/seg` and `first/seg/...`
      with an unscoped `seg`, the name is `seg`, whatever follows. */
  lemma ExtractNameUnscoped(first: string, seg: string, rest: string)
    requires '/' !in first && '/' !in seg
    requires seg != "" && !StartsWith(seg, "@")
    ensures ExtractNameFromPath(first + "/" + seg) == seg
    ensures ExtractNameFromPath(first + "/" + seg + "/" + rest) == seg
  {
    var short := first + "/" + seg;
    assert short == first + ['/'] + seg;
    SplitCons(first, '/', seg);
    SplitNoSeparator(seg, '/');
    assert Split(short, '/') == [first, seg];

    var tail := seg + ['/'] + rest;
    var long := first + "/" + seg + "/" + rest;
    assert long == first + ['/'] + tail;
    SplitCons(first, '/', tail);
    SplitCons(seg, '/', rest);
    assert Split(long, '/')[1] == seg;
  }

  lemma ExtractNameOfScopedParts(path: string, first: string, scope: string, pkg: string, more: seq<string>)
    requires Split(path, '/') == [first, scope, pkg] + more
    requires StartsWith(scope, "@")
    ensures ExtractNameFromPath(path) == scope + "/" + pkg
  {
  }

  /** A scoped second segment takes the third one with it: `first/@s/p` names `@s/p`. */
  lemma ExtractNameScoped(first: string, scope: string, pkg: string)
    requires '/' !in first && '/' !in scope && '/' !in pkg
    requires StartsWith(scope, "@")
    ensures ExtractNameFromPath(first + "/" + scope + "/" + pkg) == scope + "/" + pkg
  {
    var short := first + "/" + scope + "/" + pkg;
    var inner := scope + ['/'] + pkg;
    assert short == first + ['/'] + inner;
    SplitCons(first, '/', inner);
    SplitCons(scope, '/', pkg);
    SplitNoSeparator(pkg, '/');
    ExtractNameOfScopedParts(short, first, scope, pkg, []);
  }

  lemma SlashPath(a: string, b: string, c: string, d: string)
    ensures a + "/" + b + "/" + c + "/" + d == a + ['/'] + (b + ['/'] + (c + ['/'] + d))
  {
  }

  lemma SplitThree(a: string, b: string, c: string, d: string)
    requires '/' !in a && '/' !in b && '/' !in c
    ensures Split(a + ['/'] + (b + ['/'] + (c + ['/'] + d)), '/') == [a, b, c] + Split(d, '/')
  {
    SplitCons(a, '/', b + ['/'] + (c + ['/'] + d));
    SplitCons(b, '/', c + ['/'] + d);
    SplitCons(c, '/', d);
  }

  /** ... and whatever follows the third segment is ignored:
      `first/@s/p/rest` names `@s/p` too. */
  lemma ExtractNameScopedNested(first: string, scope: string, pkg: string, rest: string)
    requires '/' !in first && '/' !in scope && '/' !in pkg
    requires StartsWith(scope, "@")
    ensures ExtractNameFromPath(first + "/" + scope + "/" + pkg + "/" + rest) == scope + "/" + pkg
  {
    SlashPath(first, scope, pkg, rest);
    SplitThree(first, scope, pkg, rest);
    ExtractNameOfScopedParts(first + "/" + scope + "/" + pkg + "/" + rest, first, scope, pkg, Split(rest, '/'));
  }

  /** A bare scope with nothing after it renders the missing third segment as
      the text `undefined`: `first/@s` names `@s/undefined`. */
  lemma ExtractNameBareScope(first: string, scope: string)
    requires '/' !in first && '/' !in scope
    requires StartsWith(scope, "@")
    ensures ExtractNameFromPath(first + "/" + scope) == scope + "/undefined"
  {
    assert first + "/" + scope == first + ['/'] + scope;
    SplitCons(first, '/', scope);
    SplitNoSeparator(scope, '/');
  }

  /** The name of a `packages` entry: its own `name` when truthy, else derived from its key. */
  function FlatName(d: LockDep): string {
    if Truthy(d.info.name) then d.info.name.value else ExtractNameFromPath(d.key)
  }

  /** Whether the flat pass records an entry: not the root `""` key, and both a
      name and a version. */
  predicate FlatRecorded(d: LockDep) {
    d.key != "" && FlatName(d) != "" && Truthy(d.info.version)
  }

  function FlatRecord(d: LockDep): (r: PackageInfo)
    requires FlatRecorded(d)
  {
    PackageInfo(FlatName(d), d.info.version.value, PackageLock)
  }

  /** Some entry of `ps` is recorded under name `k`. */
  ghost predicate FlatNamed(ps: seq<LockDep>, k: string) {
    exists i :: 0 <= i < |ps| && FlatRecorded(ps[i]) && FlatName(ps[i]) == k
  }

  /** No later recorded entry of `ps` has the same name as `ps[i]`. */
  ghost predicate FlatLast(ps: seq<LockDep>, i: int)
    requires 0 <= i < |ps|
  {
    forall j :: i < j < |ps| && FlatRecorded(ps[j]) ==> FlatName(ps[j]) != FlatName(ps[i])
  }

  /** The loop over `Object.entries(packageLock.packages)`: an entry is written
      exactly when it is recorded. */
  function FlatPass(m: PackageMap, ps: seq<LockDep>): (r: PackageMap)
    requires m.Valid()
    ensures r.Valid()
    decreases |ps|
  {
    if |ps| == 0 then m
    else
      var m1 := if FlatRecorded(ps[0]) then m.Put(FlatName(ps[0]), FlatRecord(ps[0])) else m;
      FlatPass(m1, ps[1..])
  }

  lemma FlatNamedCons(ps: seq<LockDep>)
    requires |ps| > 0
    ensures forall k :: FlatNamed(ps, k) <==> (FlatRecorded(ps[0]) && k == FlatName(ps[0])) || FlatNamed(ps[1..], k)
  {
    forall k | FlatNamed(ps[1..], k) ensures FlatNamed(ps, k) {
      var i :| 0 <= i < |ps[1..]| && FlatRecorded(ps[1..][i]) && FlatName(ps[1..][i]) == k;
      assert ps[i + 1] == ps[1..][i];
    }
  }

  /** The keys after the flat pass: the old ones and the recorded names. */
  lemma {:induction false} FlatPassKeys(m: PackageMap, ps: seq<LockDep>)
    requires m.Valid()
    ensures forall k :: k in FlatPass(m, ps).entries <==> k in m.entries || FlatNamed(ps, k)
    decreases |ps|
  {
    if |ps| > 0 {
      var m1 := if FlatRecorded(ps[0]) then m.Put(FlatName(ps[0]), FlatRecord(ps[0])) else m;
      FlatPassKeys(m1, ps[1..]);
      FlatNamedCons(ps);
    }
  }

  /** A key no recorded entry names keeps its value. */
  lemma {:induction false} FlatPassUntouched(m: PackageMap, ps: seq<LockDep>)
    requires m.Valid()
    ensures forall k :: k in m.entries && !FlatNamed(ps, k) ==>
              k in FlatPass(m, ps).entries && FlatPass(m, ps).entries[k] == m.entries[k]
    decreases |ps|
  {
    if |ps| > 0 {
      var m1 := if FlatRecorded(ps[0]) then m.Put(FlatName(ps[0]), FlatRecord(ps[0])) else m;
      FlatPassUntouched(m1, ps[1..]);
      FlatNamedCons(ps);
    }
  }

  /** Every recorded entry's name is present, and the last recorded entry
      for a name is the value stored under it. */
  lemma {:induction false} FlatPassLast(m: PackageMap, ps: seq<LockDep>)
    requires m.Valid()
    ensures forall i :: 0 <= i < |ps| && FlatRecorded(ps[i]) ==> FlatName(ps[i]) in FlatPass(m, ps).entries
    ensures forall i :: 0 <= i < |ps| && FlatRecorded(ps[i]) && FlatLast(ps, i) ==>
              FlatPass(m, ps).entries[FlatName(ps[i])] == FlatRecord(ps[i])
    decreases |ps|
  {
    if |ps| > 0 {
      var m1 := if FlatRecorded(ps[0]) then m.Put(FlatName(ps[0]), FlatRecord(ps[0])) else m;
      FlatPassLast(m1, ps[1..]);
      FlatPassUntouched(m1, ps[1..]);
      assert forall i :: 1 <= i < |ps| ==> ps[1..][i - 1] == ps[i];
      assert forall i :: 1 <= i < |ps| && FlatLast(ps, i) ==> FlatLast(ps[1..], i - 1);
      if FlatRecorded(ps[0]) {
        if !FlatNamed(ps[1..], FlatName(ps[0])) {
          assert FlatPass(m, ps).entries[FlatName(ps[0])] == FlatRecord(ps[0]);
        } else {
          var j :| 0 <= j < |ps[1..]| && FlatRecorded(ps[1..][j]) && FlatName(ps[1..][j]) == FlatName(ps[0]);
          assert !FlatLast(ps, 0);
        }
      }
    }
  }

  /** The flat pass writes lock records under their own names. */
  lemma {:induction false} FlatPassRecords(m: PackageMap, ps: seq<LockDep>)
    requires m.Valid() && KeyedByName(m) && AllFrom(m, PackageLock)
    ensures KeyedByName(FlatPass(m, ps)) && AllFrom(FlatPass(m, ps), PackageLock)
    decreases |ps|
  {
    if |ps| > 0 {
      var m1 := if FlatRecorded(ps[0]) then m.Put(FlatName(ps[0]), FlatRecord(ps[0])) else m;
      FlatPassRecords(m1, ps[1..]);
    }
  }

  // ---------------------------------------------------------------------------
  // Lockfile v1: the nested `dependencies` tree

  /** The full name of a nested entry: the parent's full name, `/`, the key;
      at the top level (empty prefix) just the key. */
  function JoinName(prefix: string, key: string): string {
    if prefix == "" then key else prefix + "/" + key
  }

  /** `extractFromDependencies`: a pre-order walk writing every entry that has a
      version under its full name, and descending into every entry's
      `dependencies`, versioned or not. */
  function WalkDeps(m: PackageMap, deps: seq<LockDep>, prefix: string): (r: PackageMap)
    requires m.Valid()
    ensures r.Valid()
    ensures KeyedByName(m) ==> KeyedByName(r)
    ensures AllFrom(m, PackageLock) ==> AllFrom(r, PackageLock)
    decreases deps
  {
    if |deps| == 0 then m
    else
      var d := deps[0];
      var full := JoinName(prefix, d.key);
      var m1 := if Truthy(d.info.version) then m.Put(full, PackageInfo(full, d.info.version.value, PackageLock)) else m;
      var m2 := WalkDeps(m1, d.info.dependencies, full);
      WalkDeps(m2, deps[1..], prefix)
  }

  /** The records the nested walk writes, in the order it writes them. */
  function Visit(deps: seq<LockDep>, prefix: string): (recs: seq<PackageInfo>)
    ensures forall i :: 0 <= i < |recs| ==> recs[i].source == PackageLock && recs[i].version != ""
    decreases deps
  {
    if |deps| == 0 then []
    else
      var d := deps[0];
      var full := JoinName(prefix, d.key);
      (if Truthy(d.info.version) then [PackageInfo(full, d.info.version.value, PackageLock)] else [])
        + Visit(d.info.dependencies, full) + Visit(deps[1..], prefix)
  }

  /** The nested walk is the in-order write of its visited records. */
  lemma {:induction false} WalkDepsIsSetAll(m: PackageMap, deps: seq<LockDep>, prefix: string)
    requires m.Valid()
    ensures WalkDeps(m, deps, prefix) == SetAll(m, Visit(deps, prefix))
    decreases deps
  {
    if |deps| > 0 {
      var d := deps[0];
      var full := JoinName(prefix, d.key);
      var head := if Truthy(d.info.version) then [PackageInfo(full, d.info.version.value, PackageLock)] else [];
      var m1 := if Truthy(d.info.version) then m.Put(full, PackageInfo(full, d.info.version.value, PackageLock)) else m;
      assert m1 == SetAll(m, head);
      WalkDepsIsSetAll(m1, d.info.dependencies, full);
      var m2 := WalkDeps(m1, d.info.dependencies, full);
      WalkDepsIsSetAll(m2, deps[1..], prefix);
      SetAllAppend(m, head, Visit(d.info.dependencies, full));
      SetAllAppend(m, head + Visit(d.info.dependencies, full), Visit(deps[1..], prefix));
    }
  }

  /** Every versioned entry at this level is visited under its full name. */
  lemma {:induction false} VisitRecordsEntry(deps: seq<LockDep>, prefix: string, i: nat)
    requires i < |deps| && Truthy(deps[i].info.version)
    ensures PackageInfo(JoinName(prefix, deps[i].key), deps[i].info.version.value, PackageLock) in Visit(deps, prefix)
    decreases i
  {
    if i > 0 {
      VisitRecordsEntry(deps[1..], prefix, i - 1);
      assert deps[1..][i - 1] == deps[i];
    }
  }

  /** The walk descends into every entry's `dependencies`, versioned or not. */
  lemma {:induction false} VisitIncludesChildren(deps: seq<LockDep>, prefix: string, i: nat, x: PackageInfo)
    requires i < |deps|
    requires x in Visit(deps[i].info.dependencies, JoinName(prefix, deps[i].key))
    ensures x in Visit(deps, prefix)
    decreases i
  {
    var d := deps[0];
    var full := JoinName(prefix, d.key);
    var head := if Truthy(d.info.version) then [PackageInfo(full, d.info.version.value, PackageLock)] else [];
    var inner := Visit(d.info.dependencies, full);
    var rest := Visit(deps[1..], prefix);
    assert Visit(deps, prefix) == head + inner + rest;
    if i > 0 {
      assert deps[1..][i - 1] == deps[i];
      VisitIncludesChildren(deps[1..], prefix, i - 1, x);
      assert x in rest;
    } else {
      assert x in inner;
    }
  }

  /** A versioned child `c` of entry `p` is recorded as `p/c` (with the
      parent's full name as prefix), whether or not `p` itself has a version. */
  lemma NestedChildName(deps: seq<LockDep>, prefix: string, i: nat, j: nat)
    requires i < |deps| && j < |deps[i].info.dependencies|
    requires Truthy(deps[i].info.dependencies[j].info.version)
    ensures var child := deps[i].info.dependencies[j];
            PackageInfo(JoinName(JoinName(prefix, deps[i].key), child.key), child.info.version.value, PackageLock)
              in Visit(deps, prefix)
  {
    var child := deps[i].info.dependencies[j];
    var x := PackageInfo(JoinName(JoinName(prefix, deps[i].key), child.key), child.info.version.value, PackageLock);
    VisitRecordsEntry(deps[i].info.dependencies, JoinName(prefix, deps[i].key), j);
    VisitIncludesChildren(deps, prefix, i, x);
  }

  // ---------------------------------------------------------------------------
  // The lockfile pass

  /** `readPackageLock` on a readable lockfile: the flat pass, then the nested
      walk over the same map. */
  function LockPass(lf: Lockfile): (r: PackageMap)
    ensures r.Valid() && KeyedByName(r) && AllFrom(r, PackageLock)
  {
    FlatPassRecords(Empty(), lf.packages);
    WalkDeps(FlatPass(Empty(), lf.packages), lf.dependencies, "")
  }

  /** The lock records: none when the lockfile is missing or does not parse. */
  function LockRecords(lock: Option<Lockfile>): (r: PackageMap)
    ensures r.Valid() && KeyedByName(r) && AllFrom(r, PackageLock)
    ensures lock.None? ==> r.entries == map[]
  {
    match lock
    case None => Empty()
    case Some(lf) => LockPass(lf)
  }

  /** What the lockfile pass records: a name is present iff a recorded flat
      entry or a versioned nested entry produced it; the nested walk runs second
      and overwrites, so the last nested record for a name wins, and a flat
      record survives only when no nested record has its name. */
  lemma LockPassSpec(lf: Lockfile)
    ensures var r := LockPass(lf);
            var nested := Visit(lf.dependencies, "");
            && (forall k :: k in r.entries <==> FlatNamed(lf.packages, k) || Named(nested, k))
            && (forall i :: 0 <= i < |nested| && LastNamed(nested, i) ==> r.entries[nested[i].name] == nested[i])
            && (forall i ::
                  (0 <= i < |lf.packages| && FlatRecorded(lf.packages[i]) && FlatLast(lf.packages, i)
                   && !Named(nested, FlatName(lf.packages[i]))) ==>
                  r.entries[FlatName(lf.packages[i])] == FlatRecord(lf.packages[i]))
  {
    var flat := FlatPass(Empty(), lf.packages);
    var nested := Visit(lf.dependencies, "");
    WalkDepsIsSetAll(flat, lf.dependencies, "");
    FlatPassKeys(Empty(), lf.packages);
    FlatPassLast(Empty(), lf.packages);
    SetAllKeys(flat, nested);
    SetAllLast(flat, nested);
    SetAllUntouched(flat, nested);
  }

  // ---------------------------------------------------------------------------
  // The installed tree

  /** A `package.json` as parsed. */
  datatype Manifest = Manifest(name: Option<string>, version: Option<string>)

  /** The file system below `node_modules`. A directory's `listing` is `None`
      when `readdir` fails on it; its `packageJson` is `None` when its
      `package.json` is missing, unreadable or not valid JSON. Anything that is
      not a directory (a file, a symbolic link) is a `FileNode`. */
  datatype FsNode = FileNode | DirNode(listing: Option<seq<FsChild>>, packageJson: Option<Manifest>)

  /** A directory entry, in `readdir` order. */
  datatype FsChild = FsChild(name: string, node: FsNode)

  /** `readPackageJson`: a record when the manifest parses and has both a name
      and a version. */
  function ReadPackageJson(node: FsNode): (r: Option<PackageInfo>)
    ensures r.Some? <==> node.DirNode? && node.packageJson.Some?
                         && Truthy(node.packageJson.value.name) && Truthy(node.packageJson.value.version)
    ensures r.Some? ==> && r.value.source == NodeModules
                        && Some(r.value.name) == node.packageJson.value.name
                        && Some(r.value.version) == node.packageJson.value.version
  {
    if node.DirNode? && node.packageJson.Some?
       && Truthy(node.packageJson.value.name) && Truthy(node.packageJson.value.version)
    then Some(PackageInfo(node.packageJson.value.name.value, node.packageJson.value.version.value, NodeModules))
    else None
  }

  /** The directory entry `c` holds the package `p` (read from its manifest). */
  ghost predicate Holds(c: FsChild, p: PackageInfo) {
    c.node.DirNode? && ReadPackageJson(c.node) == Some(p)
  }

  /** The packages one level below an `@scope` directory, in listing order. */
  function ScopedPackages(cs: seq<FsChild>): (r: seq<PackageInfo>)
    ensures forall i :: 0 <= i < |r| ==> r[i].source == NodeModules
    ensures forall p :: p in r <==> exists j :: 0 <= j < |cs| && Holds(cs[j], p)
  {
    if |cs| == 0 then []
    else
      var r := (if cs[0].node.DirNode? then ToSeq(ReadPackageJson(cs[0].node)) else []) + ScopedPackages(cs[1..]);
      assert forall p :: (exists j :: 0 <= j < |cs| && Holds(cs[j], p)) <==>
                         Holds(cs[0], p) || exists j :: 0 <= j < |cs[1..]| && Holds(cs[1..][j], p);
      r
  }

  /** An `@scope` directory. */
  predicate IsScope(c: FsChild) {
    c.node.DirNode? && StartsWith(c.name, "@")
  }

  /** An `@scope` directory whose listing cannot be read: `readdir` throws and
      the scan stops there. */
  predicate ScopeUnreadable(c: FsChild) {
    IsScope(c) && c.node.listing.None?
  }

  /** `p` is found through entry `c`: `c` is an unscoped package directory
      holding `p`, or a readable scope directory with a child holding `p`. */
  ghost predicate FoundThrough(c: FsChild, p: PackageInfo) {
    if IsScope(c) then
      c.node.listing.Some? && exists j :: 0 <= j < |c.node.listing.value| && Holds(c.node.listing.value[j], p)
    else
      Holds(c, p)
  }

  /** The loop of `scanNodeModulesRecursively` over the `node_modules` listing. */
  function ScanEntries(cs: seq<FsChild>): (r: seq<PackageInfo>)
    ensures forall i :: 0 <= i < |r| ==> r[i].source == NodeModules
    ensures forall p :: p in r ==> exists i :: 0 <= i < |cs| && FoundThrough(cs[i], p)
    ensures forall i, p :: 0 <= i < |cs| && FoundThrough(cs[i], p) && (forall j :: 0 <= j <= i ==> !ScopeUnreadable(cs[j])) ==> p in r
  {
    if |cs| == 0 then []
    else
      var c := cs[0];
      var rest := ScanEntries(cs[1..]);
      assert forall i, p :: 1 <= i < |cs| && FoundThrough(cs[i], p) ==> FoundThrough(cs[1..][i - 1], p);
      if !c.node.DirNode? then rest
      else if StartsWith(c.name, "@") then
        match c.node.listing
        case None => []
        case Some(sub) => ScopedPackages(sub) + rest
      else ToSeq(ReadPackageJson(c.node)) + rest
  }

  /** A scope directory that cannot be listed ends the scan; what was collected
      before it is kept and nothing after it is read. */
  lemma {:induction false} ScanStopsAtUnreadableScope(before: seq<FsChild>, c: FsChild, after: seq<FsChild>)
    requires forall j :: 0 <= j < |before| ==> !ScopeUnreadable(before[j])
    requires ScopeUnreadable(c)
    ensures ScanEntries(before + [c] + after) == ScanEntries(before)
    decreases |before|
  {
    if |before| == 0 {
      assert before + [c] + after == [c] + after;
    } else {
      assert (before + [c] + after)[1..] == before[1..] + [c] + after;
      ScanStopsAtUnreadableScope(before[1..], c, after);
    }
  }

  /** A scope directory's packages are its children's, concatenated in
      listing order: each child contributes its own record when it is a
      package directory and nothing otherwise. */
  lemma ScopedPackagesOne(c: FsChild)
    ensures ScopedPackages([c]) == ToSeq(ReadPackageJson(c.node))
  {
    assert [c][1..] == [];
  }

  lemma {:induction false} ScopedPackagesAppend(a: seq<FsChild>, b: seq<FsChild>)
    ensures ScopedPackages(a + b) == ScopedPackages(a) + ScopedPackages(b)
    decreases |a|
  {
    if |a| == 0 {
      assert a + b == b;
    } else {
      assert (a + b)[1..] == a[1..] + b;
      ScopedPackagesAppend(a[1..], b);
      var h := if a[0].node.DirNode? then ToSeq(ReadPackageJson(a[0].node)) else [];
      AppendAssoc(h, ScopedPackages(a[1..]), ScopedPackages(b));
    }
  }

  /** What one `node_modules` entry contributes: nothing for a non-directory
      or an unreadable scope, the scope's packages for a readable scope, and
      the entry's own record (if its manifest has one) otherwise. */
  lemma ScanEntriesOne(c: FsChild)
    ensures !c.node.DirNode? ==> ScanEntries([c]) == []
    ensures ScopeUnreadable(c) ==> ScanEntries([c]) == []
    ensures IsScope(c) && c.node.listing.Some? ==> ScanEntries([c]) == ScopedPackages(c.node.listing.value)
    ensures c.node.DirNode? && !IsScope(c) ==> ScanEntries([c]) == ToSeq(ReadPackageJson(c.node))
  {
    assert [c][1..] == [];
  }

  /** Up to the first unreadable scope, the scan is the concatenation of what
      the entries contribute, in listing order and with repetitions. */
  lemma {:induction false} ScanEntriesAppend(a: seq<FsChild>, b: seq<FsChild>)
    requires forall j :: 0 <= j < |a| ==> !ScopeUnreadable(a[j])
    ensures ScanEntries(a + b) == ScanEntries(a) + ScanEntries(b)
    decreases |a|
  {
    if |a| == 0 {
      assert a + b == b;
    } else {
      var c := a[0];
      assert (a + b)[1..] == a[1..] + b;
      assert (a + b)[0] == c;
      ScanEntriesAppend(a[1..], b);
      if c.node.DirNode? {
        var h := if IsScope(c) then ScopedPackages(c.node.listing.value) else ToSeq(ReadPackageJson(c.node));
        AppendAssoc(h, ScanEntries(a[1..]), ScanEntries(b));
      }
    }
  }

  /** The scan of the `node_modules` directory: nothing when it cannot be listed. */
  function ScanNodeModules(nm: FsNode): (r: seq<PackageInfo>)
    ensures forall i :: 0 <= i < |r| ==> r[i].source == NodeModules
  {
    if nm.DirNode? && nm.listing.Some? then ScanEntries(nm.listing.value) else []
  }

  // ---------------------------------------------------------------------------
  // The merge

  /** The merge loop of `readNodeModules`: a tree record is added only when its
      name is neither a lock name nor already present; `added` counts the
      additions. */
  function MergeTree(m: PackageMap, lockNames: set<string>, tree: seq<PackageInfo>, added: nat): (r: (PackageMap, nat))
    requires m.Valid()
    ensures r.0.Valid()
    ensures r.1 >= added
    decreases |tree|
  {
    if |tree| == 0 then (m, added)
    else
      var e := tree[0];
      if e.name in lockNames || e.name in m.entries then
        MergeTree(m, lockNames, tree[1..], added)
      else
        MergeTree(m.Put(e.name, PackageInfo(e.name, e.version, NodeModules)), lockNames, tree[1..], added + 1)
  }

  /** The merge only adds: every present key keeps its value. */
  lemma {:induction false} MergeKeeps(m: PackageMap, lockNames: set<string>, tree: seq<PackageInfo>, added: nat)
    requires m.Valid()
    ensures var r := MergeTree(m, lockNames, tree, added).0;
            forall k :: k in m.entries ==> k in r.entries && r.entries[k] == m.entries[k]
    decreases |tree|
  {
    if |tree| > 0 {
      var e := tree[0];
      if e.name in lockNames || e.name in m.entries {
        MergeKeeps(m, lockNames, tree[1..], added);
      } else {
        MergeKeeps(m.Put(e.name, PackageInfo(e.name, e.version, NodeModules)), lockNames, tree[1..], added + 1);
      }
    }
  }

  /** The keys after the merge: the old ones and the tree names that are not lock names. */
  lemma {:induction false} MergeKeys(m: PackageMap, lockNames: set<string>, tree: seq<PackageInfo>, added: nat)
    requires m.Valid()
    ensures var r := MergeTree(m, lockNames, tree, added).0;
            forall k :: k in r.entries <==> k in m.entries || (k !in lockNames && Named(tree, k))
    decreases |tree|
  {
    if |tree| > 0 {
      var e := tree[0];
      NamedCons(tree);
      if e.name in lockNames || e.name in m.entries {
        MergeKeys(m, lockNames, tree[1..], added);
      } else {
        MergeKeys(m.Put(e.name, PackageInfo(e.name, e.version, NodeModules)), lockNames, tree[1..], added + 1);
      }
    }
  }

  /** Among tree records with one name, the first in scan order is the one added. */
  lemma {:induction false} MergeFirst(m: PackageMap, lockNames: set<string>, tree: seq<PackageInfo>, added: nat)
    requires m.Valid()
    ensures var r := MergeTree(m, lockNames, tree, added).0;
            forall i :: 0 <= i < |tree| && FirstNamed(tree, i) && tree[i].name !in lockNames && tree[i].name !in m.entries ==>
              tree[i].name in r.entries && r.entries[tree[i].name] == PackageInfo(tree[i].name, tree[i].version, NodeModules)
    decreases |tree|
  {
    if |tree| > 0 {
      var e := tree[0];
      assert forall i :: 1 <= i < |tree| ==> tree[1..][i - 1] == tree[i];
      assert forall i :: 1 <= i < |tree| && FirstNamed(tree, i) ==> FirstNamed(tree[1..], i - 1) && tree[i].name != e.name;
      if e.name in lockNames || e.name in m.entries {
        MergeFirst(m, lockNames, tree[1..], added);
      } else {
        var m1 := m.Put(e.name, PackageInfo(e.name, e.version, NodeModules));
        MergeFirst(m1, lockNames, tree[1..], added + 1);
        MergeKeeps(m1, lockNames, tree[1..], added + 1);
      }
    }
  }

  /** Every added record carries `node_modules`. */
  lemma {:induction false} MergeSources(m: PackageMap, lockNames: set<string>, tree: seq<PackageInfo>, added: nat)
    requires m.Valid()
    ensures var r := MergeTree(m, lockNames, tree, added).0;
            forall k :: k in r.entries && k !in m.entries ==> r.entries[k].source == NodeModules
    decreases |tree|
  {
    if |tree| > 0 {
      var e := tree[0];
      if e.name in lockNames || e.name in m.entries {
        MergeSources(m, lockNames, tree[1..], added);
      } else {
        var m1 := m.Put(e.name, PackageInfo(e.name, e.version, NodeModules));
        MergeSources(m1, lockNames, tree[1..], added + 1);
        MergeKeeps(m1, lockNames, tree[1..], added + 1);
      }
    }
  }

  /** The returned count grows by one per added key. */
  lemma {:induction false} MergeCount(m: PackageMap, lockNames: set<string>, tree: seq<PackageInfo>, added: nat)
    requires m.Valid()
    ensures var (r, n) := MergeTree(m, lockNames, tree, added);
            |r.entries| == |m.entries| + (n - added)
    decreases |tree|
  {
    if |tree| > 0 {
      var e := tree[0];
      if e.name in lockNames || e.name in m.entries {
        MergeCount(m, lockNames, tree[1..], added);
      } else {
        var m1 := m.Put(e.name, PackageInfo(e.name, e.version, NodeModules));
        assert |m1.entries| == |m.entries| + 1 by {
          assert m1.entries.Keys == m.entries.Keys + {e.name};
        }
        MergeCount(m1, lockNames, tree[1..], added + 1);
      }
    }
  }

  /** The merge stores every added record under its own name. */
  lemma {:induction false} MergeKeyed(m: PackageMap, lockNames: set<string>, tree: seq<PackageInfo>, added: nat)
    requires m.Valid() && KeyedByName(m)
    ensures KeyedByName(MergeTree(m, lockNames, tree, added).0)
    decreases |tree|
  {
    if |tree| > 0 {
      var e := tree[0];
      if e.name in lockNames || e.name in m.entries {
        MergeKeyed(m, lockNames, tree[1..], added);
      } else {
        MergeKeyed(m.Put(e.name, PackageInfo(e.name, e.version, NodeModules)), lockNames, tree[1..], added + 1);
      }
    }
  }

  /** The records the tree scan produces: none when `node_modules` is missing. */
  function TreeRecords(nodeModules: Option<FsNode>): (r: seq<PackageInfo>)
    ensures forall i :: 0 <= i < |r| ==> r[i].source == NodeModules
  {
    match nodeModules
    case None => []
    case Some(nm) => ScanNodeModules(nm)
  }

  /** `discoverPackages` on a fresh instance: the lockfile pass, then, when
      `node_modules` exists, the tree scan merged in and the lock records
      re-applied. `nodeModules` is `None` when `fs.access` fails. */
  function Discover(lock: Option<Lockfile>, nodeModules: Option<FsNode>): (r: PackageMap)
    ensures r.Valid()
  {
    var lockMap := LockRecords(lock);
    match nodeModules
    case None => lockMap
    case Some(nm) =>
      var merged := MergeTree(lockMap, lockMap.entries.Keys, ScanNodeModules(nm), 0).0;
      SetAll(merged, lockMap.Values())
  }

  /** Re-applying the lock records after the merge changes nothing: the merge
      never touches a lock name, so the final loop only rewrites equal values. */
  lemma ReapplyIsIdentity(lockMap: PackageMap, tree: seq<PackageInfo>)
    requires lockMap.Valid() && KeyedByName(lockMap)
    ensures var merged := MergeTree(lockMap, lockMap.entries.Keys, tree, 0).0;
            SetAll(merged, lockMap.Values()) == merged
  {
    var merged := MergeTree(lockMap, lockMap.entries.Keys, tree, 0).0;
    var vs := lockMap.Values();
    MergeKeeps(lockMap, lockMap.entries.Keys, tree, 0);
    forall i | 0 <= i < |vs|
      ensures vs[i].name in merged.entries && merged.entries[vs[i].name] == vs[i]
    {
      assert lockMap.order[i] in lockMap.entries;
    }
    SetAllPresentIsIdentity(merged, vs);
  }

  /** What discovery returns: every record under its own name; every lock
      record verbatim, even when the tree holds another version; otherwise the
      first tree record with that name; nothing else. Tree-only names carry
      `node_modules`, lock names `package-lock`. Without `node_modules` the
      result is exactly the lock records; without a lockfile it has none. */
  lemma DiscoverSpec(lock: Option<Lockfile>, nodeModules: Option<FsNode>)
    ensures var r := Discover(lock, nodeModules);
            var lockMap := LockRecords(lock);
            var tree := TreeRecords(nodeModules);
            && KeyedByName(r)
            && (forall k :: k in lockMap.entries ==> k in r.entries && r.entries[k] == lockMap.entries[k])
            && (forall k :: k in r.entries <==> k in lockMap.entries || Named(tree, k))
            && (forall i :: 0 <= i < |tree| && FirstNamed(tree, i) && tree[i].name !in lockMap.entries ==>
                  tree[i].name in r.entries && r.entries[tree[i].name] == tree[i])
            && (forall k :: k in r.entries ==> (r.entries[k].source == PackageLock <==> k in lockMap.entries))
            && (nodeModules.None? ==> r == lockMap)
            && (lock.None? ==> AllFrom(r, NodeModules))
  {
    var lockMap := LockRecords(lock);
    var tree := TreeRecords(nodeModules);
    if nodeModules.Some? {
      var keys := lockMap.entries.Keys;
      ReapplyIsIdentity(lockMap, tree);
      MergeKeeps(lockMap, keys, tree, 0);
      MergeKeys(lockMap, keys, tree, 0);
      MergeFirst(lockMap, keys, tree, 0);
      MergeSources(lockMap, keys, tree, 0);
      MergeKeyed(lockMap, keys, tree, 0);
    }
  }
}
