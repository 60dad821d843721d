/** The discovery scenarios the repository's own tests describe, stated over
    any names and versions of the same shape: lockfile v3 and v1 layouts, a
    `node_modules` tree with a scope directory, lock precedence over another
    installed version, and malformed or missing sources. */
module DiscoveryExamples {
  import opened Wrappers
  import opened Strings
  import opened InsertionMaps
  import opened Types
  import opened PackageDiscovery

  /** A package directory whose `package.json` has a name and a version. */
  function Pkg(name: string, version: string): FsNode {
    DirNode(None, Some(Manifest(Some(name), Some(version))))
  }

  /** A lockfile entry with a name, a version and no dependencies. */
  function Entry(name: string, version: string): LockEntry {
    LockEntry(Some(name), Some(version), [])
  }

  /** Lockfile v3: the root `""` entry is skipped whatever it holds, and the
      named entries are recorded, in lockfile order, under their names. */
  lemma LockV3Example(root: LockEntry, k1: string, n1: string, v1: string, k2: string, n2: string, v2: string)
    requires k1 != "" && k2 != "" && n1 != "" && n2 != "" && v1 != "" && v2 != "" && n1 != n2
    ensures var lf := Lockfile([LockDep("", root), LockDep(k1, Entry(n1, v1)), LockDep(k2, Entry(n2, v2))], []);
            var r := Discover(Some(lf), None);
            && r.order == [n1, n2]
            && r.entries == map[n1 := PackageInfo(n1, v1, PackageLock), n2 := PackageInfo(n2, v2, PackageLock)]
  {
    var ps := [LockDep("", root), LockDep(k1, Entry(n1, v1)), LockDep(k2, Entry(n2, v2))];
    var m1 := Empty<PackageInfo>().Put(n1, PackageInfo(n1, v1, PackageLock));
    var m2 := m1.Put(n2, PackageInfo(n2, v2, PackageLock));
    assert ps[1..][1..] == ps[2..];
    assert FlatPass(Empty(), ps) == FlatPass(Empty(), ps[1..]);
    assert FlatPass(Empty(), ps[1..]) == FlatPass(m1, ps[2..]);
    assert FlatPass(m1, ps[2..]) == m2;
  }

  /** A lockfile v1 `dependencies` tree: `a`, and `b` with `c` nested under it. */
  function V1Deps(a: string, va: string, b: string, vb: string, c: string, vc: string): seq<LockDep> {
    [LockDep(a, LockEntry(None, Some(va), [])),
     LockDep(b, LockEntry(None, Some(vb), [LockDep(c, LockEntry(None, Some(vc), []))]))]
  }

  /** The nested walk over that tree writes `a`, `b` and `b/c`, in that order. */
  lemma V1WalkExample(a: string, va: string, b: string, vb: string, c: string, vc: string)
    requires a != "" && b != "" && va != "" && vb != "" && vc != ""
    requires a != b && a != b + "/" + c
    ensures WalkDeps(Empty(), V1Deps(a, va, b, vb, c, vc), "")
            == Empty<PackageInfo>().Put(a, PackageInfo(a, va, PackageLock))
                 .Put(b, PackageInfo(b, vb, PackageLock))
                 .Put(b + "/" + c, PackageInfo(b + "/" + c, vc, PackageLock))
  {
    var deps := V1Deps(a, va, b, vb, c, vc);
    var child := deps[1].info.dependencies[0];
    var bc := b + "/" + c;
    assert |bc| > |b|;
    var m1 := Empty<PackageInfo>().Put(a, PackageInfo(a, va, PackageLock));
    var m2 := m1.Put(b, PackageInfo(b, vb, PackageLock));
    var m3 := m2.Put(bc, PackageInfo(bc, vc, PackageLock));
    assert JoinName(b, c) == bc;
    assert WalkDeps(m3, [], bc) == m3;
    assert [child][1..] == [];
    assert WalkDeps(m3, [], b) == m3;
    assert WalkDeps(m2, [child], b) == m3;
    assert deps[1..][1..] == [];
    assert WalkDeps(m3, [], "") == m3;
    assert WalkDeps(m1, deps[1..], "") == m3;
    assert WalkDeps(m1, [], a) == m1;
  }

  /** Lockfile v1: the top-level `a` and `b`, and `c` nested under `b`, are
      recorded as `a`, `b` and `b/c`, in walk order. */
  lemma LockV1Example(a: string, va: string, b: string, vb: string, c: string, vc: string)
    requires a != "" && b != "" && va != "" && vb != "" && vc != ""
    requires a != b && a != b + "/" + c
    ensures var r := Discover(Some(Lockfile([], V1Deps(a, va, b, vb, c, vc))), None);
            && r.order == [a, b, b + "/" + c]
            && r.entries == map[a := PackageInfo(a, va, PackageLock), b := PackageInfo(b, vb, PackageLock),
                                b + "/" + c := PackageInfo(b + "/" + c, vc, PackageLock)]
  {
    var lf := Lockfile([], V1Deps(a, va, b, vb, c, vc));
    V1WalkExample(a, va, b, vb, c, vc);
    var bc := b + "/" + c;
    assert |bc| > |b|;
    ThreePuts(PackageInfo(a, va, PackageLock), PackageInfo(b, vb, PackageLock), PackageInfo(bc, vc, PackageLock));
    assert FlatPass(Empty(), []) == Empty();
    assert LockPass(lf) == WalkDeps(Empty(), lf.dependencies, "");
  }

  /** Three records under distinct names, written into an empty map, are
      stored in writing order. */
  lemma ThreePuts(x: PackageInfo, y: PackageInfo, z: PackageInfo)
    requires x.name != y.name && x.name != z.name && y.name != z.name
    ensures var m := Empty<PackageInfo>().Put(x.name, x).Put(y.name, y).Put(z.name, z);
            && m.order == [x.name, y.name, z.name]
            && m.entries == map[x.name := x, y.name := y, z.name := z]
  {
    var e := Empty<PackageInfo>();
    assert x.name !in e.entries;
    var m1 := e.Put(x.name, x);
    assert m1.order == [] + [x.name];
    assert y.name !in m1.entries;
    var m2 := m1.Put(y.name, y);
    assert m2.order == [x.name] + [y.name];
    assert z.name !in m2.entries;
    var m3 := m2.Put(z.name, z);
    assert m3.order == [x.name, y.name] + [z.name];
  }

  /** A `node_modules` listing with the unscoped package `a`, the scope
      directory `s` holding `p`, and a file `f`. */
  function ScopedListing(a: string, va: string, s: string, p: string, np: string, vp: string, f: string): seq<FsChild> {
    [FsChild(a, Pkg(a, va)), FsChild(s, DirNode(Some([FsChild(p, Pkg(np, vp))]), None)), FsChild(f, FileNode)]
  }

  /** The scan reads the unscoped package and, one level below the scope
      directory, the scoped one; the file beside them is passed over. */
  lemma ScopedScanExample(a: string, va: string, s: string, p: string, np: string, vp: string, f: string)
    requires a != "" && va != "" && np != "" && vp != ""
    requires !StartsWith(a, "@") && StartsWith(s, "@")
    ensures ScanEntries(ScopedListing(a, va, s, p, np, vp, f))
            == [PackageInfo(a, va, NodeModules), PackageInfo(np, vp, NodeModules)]
  {
    var cs := ScopedListing(a, va, s, p, np, vp, f);
    assert ScanEntries(cs[2..]) == [];
    assert ScopedPackages([FsChild(p, Pkg(np, vp))]) == [PackageInfo(np, vp, NodeModules)];
    assert ScanEntries(cs[1..]) == [PackageInfo(np, vp, NodeModules)];
  }

  /** No lockfile: discovery records both scanned packages, in scan order. */
  lemma NodeModulesExample(a: string, va: string, s: string, p: string, np: string, vp: string, f: string)
    requires a != "" && va != "" && np != "" && vp != "" && a != np
    requires !StartsWith(a, "@") && StartsWith(s, "@")
    ensures var r := Discover(None, Some(DirNode(Some(ScopedListing(a, va, s, p, np, vp, f)), None)));
            && r.order == [a, np]
            && r.entries == map[a := PackageInfo(a, va, NodeModules), np := PackageInfo(np, vp, NodeModules)]
  {
    var pa := PackageInfo(a, va, NodeModules);
    var pp := PackageInfo(np, vp, NodeModules);
    ScopedScanExample(a, va, s, p, np, vp, f);
    var nm := DirNode(Some(ScopedListing(a, va, s, p, np, vp, f)), None);
    assert ScanNodeModules(nm) == [pa, pp];
    var none: PackageMap := Empty();
    var m1 := none.Put(a, pa);
    var m2 := m1.Put(np, pp);
    assert LockRecords(None) == none;
    assert none.entries.Keys == {};
    assert MergeTree(m2, {}, [], 2) == (m2, 2);
    assert [pa, pp][1..] == [pp];
    assert MergeTree(m1, {}, [pp], 1) == (m2, 2);
    assert MergeTree(none, {}, [pa, pp], 0) == (m2, 2);
    assert none.Values() == [];
    assert Discover(None, Some(nm)) == SetAll(m2, []);
  }

  /** The lockfile's record wins over an installed package of the same name,
      whatever version is installed. */
  lemma LockPrecedenceExample(k: string, n: string, v: string, d: string, w: string)
    requires k != "" && n != "" && v != "" && w != "" && !StartsWith(d, "@")
    ensures var lf := Lockfile([LockDep(k, Entry(n, v))], []);
            var nm := DirNode(Some([FsChild(d, Pkg(n, w))]), None);
            var r := Discover(Some(lf), Some(nm));
            && r.order == [n]
            && r.entries == map[n := PackageInfo(n, v, PackageLock)]
  {
    var lf := Lockfile([LockDep(k, Entry(n, v))], []);
    var nm := DirNode(Some([FsChild(d, Pkg(n, w))]), None);
    var lockMap := Empty<PackageInfo>().Put(n, PackageInfo(n, v, PackageLock));
    assert FlatPass(Empty(), lf.packages) == lockMap;
    assert LockRecords(Some(lf)) == lockMap;
    var tree := [PackageInfo(n, w, NodeModules)];
    assert ScanEntries(nm.listing.value) == tree;
    assert MergeTree(lockMap, lockMap.entries.Keys, tree, 0).0 == lockMap;
    ReapplyIsIdentity(lockMap, tree);
  }

  /** A package directory whose `package.json` does not parse contributes
      nothing, and with no lockfile and no `node_modules` nothing is found. */
  lemma MalformedAndMissingExample(d: string)
    requires !StartsWith(d, "@")
    ensures Discover(None, Some(DirNode(Some([FsChild(d, DirNode(None, None))]), None))).entries == map[]
    ensures Discover(None, None).entries == map[]
  {
    var cs := [FsChild(d, DirNode(None, None))];
    assert ScanEntries(cs[1..]) == [];
    assert ScanEntries(cs) == [];
  }
}
