/** The lock file: looking up locked versions, generating them from resolutions, and merging sets of them. */
module Lock {
  import opened Wrappers
  import opened Versions
  import opened VersionReqs
  import opened PackageRefs
  import opened Digests

  datatype LockedPackageVersion = LockedPackageVersion(requirement: VersionReq, version: Version, digest: ContentDigest)

  /** What locked packages are ordered by: the name, then the registry. */
  type Key = (PackageRef, Option<string>)

  datatype LockedPackage =
    LockedPackage(name: PackageRef, registry: Option<string>, versions: seq<LockedPackageVersion>)
  {
    function Key(): Key { (name, registry) }
  }

  // ---------- the ordered set ----------

  type LockSet = set<LockedPackage>

  /** An ordered set has one element per key, since only the key is compared. */
  ghost predicate OnePerKey(packages: LockSet) {
    forall a, b :: a in packages && b in packages && a.Key() == b.Key() ==> a == b
  }

  /** The element with a key, if there is one. */
  function Get(packages: LockSet, k: Key): (r: Option<LockedPackage>)
    requires OnePerKey(packages)
    ensures r.Some? ==> r.value in packages && r.value.Key() == k
    ensures r.None? ==> forall p :: p in packages ==> p.Key() != k
  {
    if p :| p in packages && p.Key() == k then Some(p) else None
  }

  /** Inserting an element whose key is taken changes nothing. */
  function InsertNew(packages: LockSet, p: LockedPackage): (r: LockSet)
    requires OnePerKey(packages)
    ensures OnePerKey(r)
  {
    if Get(packages, p.Key()).Some? then packages else packages + {p}
  }

  predicate DistinctReqs(versions: seq<LockedPackageVersion>) {
    forall i, j :: 0 <= i < j < |versions| ==> versions[i].requirement != versions[j].requirement
  }

  /** The first entry for a requirement. */
  function FindVersion(versions: seq<LockedPackageVersion>, req: VersionReq): (r: Option<LockedPackageVersion>)
    ensures r.Some? ==> r.value in versions && r.value.requirement == req
    ensures r.None? ==> forall v :: v in versions ==> v.requirement != req
  {
    if versions == [] then None
    else if versions[0].requirement == req then Some(versions[0])
    else FindVersion(versions[1..], req)
  }

  /** What the lock holds for a package, a registry and a requirement. */
  function Lookup(packages: LockSet, k: Key, req: VersionReq): (r: Option<LockedPackageVersion>)
    requires OnePerKey(packages)
  {
    match Get(packages, k)
    case None => None
    case Some(p) => FindVersion(p.versions, req)
  }

  /** A lookup in full: the first entry for the requirement, of the package of that name and registry. */
  lemma LookupInFull(packages: LockSet, k: Key, req: VersionReq)
    requires OnePerKey(packages)
    ensures Lookup(packages, k, req).Some? <==> exists p, v ::
              p in packages && p.name == k.0 && p.registry == k.1 && v in p.versions && v.requirement == req
    ensures Lookup(packages, k, req).Some? ==> exists p, i ::
              && p in packages && p.name == k.0 && p.registry == k.1
              && 0 <= i < |p.versions| && p.versions[i] == Lookup(packages, k, req).value
              && p.versions[i].requirement == req
              && forall j :: 0 <= j < i ==> p.versions[j].requirement != req
  {
    if Get(packages, k).Some? {
      FindVersionInFull(Get(packages, k).value.versions, req);
    }
  }

  lemma {:induction false} FindVersionInFull(versions: seq<LockedPackageVersion>, req: VersionReq)
    ensures FindVersion(versions, req).Some? ==> exists i ::
              && 0 <= i < |versions| && versions[i] == FindVersion(versions, req).value
              && forall j :: 0 <= j < i ==> versions[j].requirement != req
  {
    if versions != [] && versions[0].requirement != req {
      FindVersionInFull(versions[1..], req);
      if i :| 0 <= i < |versions| - 1 && Some(versions[1..][i]) == FindVersion(versions, req)
              && forall j :: 0 <= j < i ==> versions[1..][j].requirement != req {
        assert versions[i + 1] == versions[1..][i];
        assert forall j :: 0 < j < i + 1 ==> versions[j] == versions[1..][j - 1];
      }
    }
  }

  /** Every locked version satisfies its requirement. */
  ghost predicate LockSound(lock: LockSet) {
    OnePerKey(lock) && forall p, v :: p in lock && v in p.versions ==> Matches(v.requirement, v.version)
  }

  // ---------- locked packages from resolutions ----------

  /** How a dependency was resolved: from a registry, or from a local path. */
  datatype DependencyResolution =
    | Registry(name: PackageRef, package: PackageRef, registry: Option<string>, requirement: VersionReq,
        version: Version, digest: ContentDigest)
    | Local(name: PackageRef, path: string)
  {
    function Key(): Key
      requires Registry?
    {
      (package, registry)
    }
  }

  type ResolutionMap = map<PackageRef, DependencyResolution>

  /** The lock entry that a registry resolution gives. */
  function Entry(resolution: DependencyResolution): LockedPackageVersion
    requires resolution.Registry?
  {
    LockedPackageVersion(resolution.requirement, resolution.version, resolution.digest)
  }

  /** Two registry resolutions under one key and requirement. */
  predicate SameSlot(r: DependencyResolution, s: DependencyResolution) {
    r.Registry? && s.Registry? && r.Key() == s.Key() && r.requirement == s.requirement
  }

  /** Two resolutions that the lock cannot hold both: the same requirement, but another version. */
  predicate Contradict(r: DependencyResolution, s: DependencyResolution) {
    SameSlot(r, s) && r.version != s.version
  }

  ghost predicate Conflict(resolutions: ResolutionMap) {
    exists a, b :: a in resolutions && b in resolutions && Contradict(resolutions[a], resolutions[b])
  }

  /** The resolution under the name n gives the entry v for the key k. */
  predicate Says(resolutions: ResolutionMap, n: PackageRef, k: Key, v: LockedPackageVersion) {
    n in resolutions && resolutions[n].Registry? && resolutions[n].Key() == k && Entry(resolutions[n]) == v
  }

  ghost predicate HasSource(resolutions: ResolutionMap, done: set<PackageRef>, k: Key, v: LockedPackageVersion) {
    exists n :: n in done && Says(resolutions, n, k, v)
  }

  /**
   `packages` is what the resolutions generate: one package per name and registry, distinct
   requirements within it, every entry from a resolution and every resolution with an entry.
   */
  ghost predicate Generated(resolutions: ResolutionMap, packages: LockSet) {
    && OnePerKey(packages)
    && (forall p :: p in packages ==> p.versions != [] && DistinctReqs(p.versions))
    && (forall p, v :: p in packages && v in p.versions ==>
          HasSource(resolutions, resolutions.Keys, p.Key(), v))
    && (forall n :: n in resolutions && resolutions[n].Registry? ==>
          var found := Lookup(packages, resolutions[n].Key(), resolutions[n].requirement);
          found.Some? && found.value.version == resolutions[n].version)
  }

  type VersionsMap = map<VersionReq, (Version, ContentDigest)>

  function EntryAt(table: map<Key, VersionsMap>, k: Key, q: VersionReq): LockedPackageVersion
    requires k in table && q in table[k]
  {
    LockedPackageVersion(q, table[k][q].0, table[k][q].1)
  }

  /** The table has an entry for the resolution under n, of the same version. */
  predicate Covers(table: map<Key, VersionsMap>, r: DependencyResolution) {
    r.Registry? ==> r.Key() in table && r.requirement in table[r.Key()] && table[r.Key()][r.requirement].0 == r.version
  }

  /** The table built so far holds exactly what the resolutions in `done` say. */
  ghost predicate Tabulates(resolutions: ResolutionMap, done: set<PackageRef>, table: map<Key, VersionsMap>) {
    && (forall k :: k in table ==> table[k] != map[])
    && (forall k, q :: k in table && q in table[k] ==> HasSource(resolutions, done, k, EntryAt(table, k, q)))
    && (forall n :: n in done && n in resolutions ==> Covers(table, resolutions[n]))
  }

  function AddEntry(table: map<Key, VersionsMap>, k: Key, v: LockedPackageVersion): map<Key, VersionsMap> {
    table[k := (if k in table then table[k] else map[])[v.requirement := (v.version, v.digest)]]
  }

  lemma TabulateOne(resolutions: ResolutionMap, done: set<PackageRef>, table: map<Key, VersionsMap>, n: PackageRef)
    requires Tabulates(resolutions, done, table) && n in resolutions && resolutions[n].Registry?
    requires var k := resolutions[n].Key(); k in table && resolutions[n].requirement in table[k] ==>
        table[k][resolutions[n].requirement].0 == resolutions[n].version
    ensures Tabulates(resolutions, done + {n}, AddEntry(table, resolutions[n].Key(), Entry(resolutions[n])))
  {
    var k0, v0 := resolutions[n].Key(), Entry(resolutions[n]);
    var table' := AddEntry(table, k0, v0);
    assert v0.requirement in table'[k0];
    assert Says(resolutions, n, k0, v0);
    forall k: Key, q: VersionReq | k in table' && q in table'[k]
      ensures HasSource(resolutions, done + {n}, k, EntryAt(table', k, q))
    {
      if k == k0 && q == v0.requirement {
        assert EntryAt(table', k, q) == v0 && n in done + {n};
      } else {
        assert EntryAt(table', k, q) == EntryAt(table, k, q);
        var m :| m in done && Says(resolutions, m, k, EntryAt(table, k, q));
        assert m in done + {n};
      }
    }
    forall m | m in done + {n} && m in resolutions
      ensures Covers(table', resolutions[m])
    {
      if m != n {
        assert Covers(table, resolutions[m]);
      }
    }
  }

  lemma TabulateLocal(resolutions: ResolutionMap, done: set<PackageRef>, table: map<Key, VersionsMap>, n: PackageRef)
    requires Tabulates(resolutions, done, table) && n in resolutions && resolutions[n].Local?
    ensures Tabulates(resolutions, done + {n}, table)
  {
  }

  predicate Clashes(table: map<Key, VersionsMap>, r: DependencyResolution)
    requires r.Registry?
  {
    r.Key() in table && r.requirement in table[r.Key()] && table[r.Key()][r.requirement].0 != r.version
  }

  lemma ClashIsConflict(resolutions: ResolutionMap, done: set<PackageRef>, table: map<Key, VersionsMap>, n: PackageRef)
    requires Tabulates(resolutions, done, table) && n in resolutions && resolutions[n].Registry?
        && Clashes(table, resolutions[n])
    ensures Conflict(resolutions)
  {
  }

  lemma TabulatedHasNoConflict(resolutions: ResolutionMap, table: map<Key, VersionsMap>)
    requires Tabulates(resolutions, resolutions.Keys, table)
    ensures !Conflict(resolutions)
  {
  }

  /** Groups the resolutions by package and registry; fails where equal requirements have different versions. */
  method Tabulate(resolutions: ResolutionMap) returns (r: Option<map<Key, VersionsMap>>)
    ensures r.None? <==> Conflict(resolutions)
    ensures r.Some? ==> Tabulates(resolutions, resolutions.Keys, r.value)
  {
    var table: map<Key, VersionsMap> := map[];
    var left := resolutions.Keys;
    ghost var done := {};
    while left != {}
      invariant done + left == resolutions.Keys
      invariant Tabulates(resolutions, done, table)
      decreases left
    {
      var n :| n in left;
      if resolutions[n].Registry? {
        if Clashes(table, resolutions[n]) {
          ClashIsConflict(resolutions, done, table, n);
          return None;
        }
        TabulateOne(resolutions, done, table, n);
        table := AddEntry(table, resolutions[n].Key(), Entry(resolutions[n]));
      } else {
        TabulateLocal(resolutions, done, table, n);
      }
      left, done := left - {n}, done + {n};
    }
    assert done == resolutions.Keys;
    TabulatedHasNoConflict(resolutions, table);
    return Some(table);
  }

  /** The entries of one package, each once. */
  ghost predicate Flattens(versions: VersionsMap, r: seq<LockedPackageVersion>) {
    DistinctReqs(r) && forall v ::
        v in r <==> v.requirement in versions && versions[v.requirement] == (v.version, v.digest)
  }

  /** One package's entries, in no particular order. */
  method Flatten(versions: VersionsMap) returns (r: seq<LockedPackageVersion>)
    ensures Flattens(versions, r)
  {
    r := [];
    var left := versions.Keys;
    while left != {}
      invariant left <= versions.Keys && DistinctReqs(r)
      invariant forall v ::
          v in r <==> v.requirement in versions.Keys - left && versions[v.requirement] == (v.version, v.digest)
      decreases left
    {
      var q :| q in left;
      r := r + [LockedPackageVersion(q, versions[q].0, versions[q].1)];
      left := left - {q};
    }
  }

  /** The packages built from the keys in `done`. */
  ghost predicate Built(table: map<Key, VersionsMap>, done: set<Key>, packages: LockSet) {
    && OnePerKey(packages)
    && (forall p :: p in packages ==> p.Key() in done && p.Key() in table && Flattens(table[p.Key()], p.versions))
    && (forall k :: k in done ==> exists p :: p in packages && p.Key() == k)
  }

  lemma BuiltIsGenerated(resolutions: ResolutionMap, table: map<Key, VersionsMap>, packages: LockSet)
    requires Tabulates(resolutions, resolutions.Keys, table) && Built(table, table.Keys, packages)
    ensures Generated(resolutions, packages)
  {
    forall p | p in packages
      ensures p.versions != [] && DistinctReqs(p.versions)
    {
      var q :| q in table[p.Key()];
      assert EntryAt(table, p.Key(), q) in p.versions;
    }
    forall p, v | p in packages && v in p.versions
      ensures HasSource(resolutions, resolutions.Keys, p.Key(), v)
    {
      assert EntryAt(table, p.Key(), v.requirement) == v;
    }
    forall n | n in resolutions && resolutions[n].Registry?
      ensures var found := Lookup(packages, resolutions[n].Key(), resolutions[n].requirement);
              found.Some? && found.value.version == resolutions[n].version
    {
      BuiltLookup(resolutions[n], table, packages);
    }
  }

  /** A covered resolution is found in what was built. */
  lemma BuiltLookup(r: DependencyResolution, table: map<Key, VersionsMap>, packages: LockSet)
    requires r.Registry? && Covers(table, r) && Built(table, table.Keys, packages)
    ensures var found := Lookup(packages, r.Key(), r.requirement);
            found.Some? && found.value.version == r.version
  {
    var p :| p in packages && p.Key() == r.Key();
    assert Get(packages, r.Key()) == Some(p);
    assert EntryAt(table, r.Key(), r.requirement) in p.versions;
    FindDistinct(p.versions, EntryAt(table, r.Key(), r.requirement));
  }

  /** Among distinct requirements, an entry is found under its own. */
  lemma {:induction false} FindDistinct(versions: seq<LockedPackageVersion>, v: LockedPackageVersion)
    requires DistinctReqs(versions) && v in versions
    ensures FindVersion(versions, v.requirement) == Some(v)
  {
  }

  method GenerateLockedPackages(resolutions: ResolutionMap) returns (r: Option<LockSet>)
    ensures r.None? <==> Conflict(resolutions)
    ensures r.Some? ==> Generated(resolutions, r.value)
    ensures r.None? <==> exists a, b ::
              && a in resolutions && b in resolutions && resolutions[a].Registry? && resolutions[b].Registry?
              && resolutions[a].package == resolutions[b].package
              && resolutions[a].registry == resolutions[b].registry
              && resolutions[a].requirement == resolutions[b].requirement
              && resolutions[a].version != resolutions[b].version
  {
    var tabulated := Tabulate(resolutions);
    if tabulated.None? {
      return None;
    }
    var packages := BuildPackages(tabulated.value);
    BuiltIsGenerated(resolutions, tabulated.value, packages);
    return Some(packages);
  }

  /** One package per key of the table. */
  method BuildPackages(table: map<Key, VersionsMap>) returns (packages: LockSet)
    ensures Built(table, table.Keys, packages)
  {
    packages := {};
    var left := table.Keys;
    ghost var done := {};
    while left != {}
      invariant done + left == table.Keys && done !! left
      invariant Built(table, done, packages)
      decreases left
    {
      var k :| k in left;
      var versions := Flatten(table[k]);
      BuildOne(table, done, packages, k, versions);
      packages := InsertNew(packages, LockedPackage(k.0, k.1, versions));
      left, done := left - {k}, done + {k};
    }
    assert done == table.Keys;
  }

  /** What is generated, by the fields: every entry comes from a resolution, and every resolution has an entry. */
  lemma GeneratedByFields(resolutions: ResolutionMap, packages: LockSet)
    requires Generated(resolutions, packages)
    ensures forall p, v :: p in packages && v in p.versions ==> exists n ::
              && n in resolutions && resolutions[n].Registry?
              && resolutions[n].package == p.name && resolutions[n].registry == p.registry
              && resolutions[n].requirement == v.requirement
              && resolutions[n].version == v.version && resolutions[n].digest == v.digest
    ensures forall n :: n in resolutions && resolutions[n].Registry? ==> exists p, v ::
              && p in packages && p.name == resolutions[n].package && p.registry == resolutions[n].registry
              && v in p.versions && v.requirement == resolutions[n].requirement
              && v.version == resolutions[n].version
  {
    forall p, v | p in packages && v in p.versions
      ensures exists n ::
                && n in resolutions && resolutions[n].Registry?
                && resolutions[n].package == p.name && resolutions[n].registry == p.registry
                && resolutions[n].requirement == v.requirement
                && resolutions[n].version == v.version && resolutions[n].digest == v.digest
    {
      var n :| n in resolutions.Keys && Says(resolutions, n, p.Key(), v);
    }
    forall n | n in resolutions && resolutions[n].Registry?
      ensures exists p, v ::
                && p in packages && p.name == resolutions[n].package && p.registry == resolutions[n].registry
                && v in p.versions && v.requirement == resolutions[n].requirement
                && v.version == resolutions[n].version
    {
      var p, v := Get(packages, resolutions[n].Key()).value, Lookup(packages, resolutions[n].Key(),
          resolutions[n].requirement).value;
      assert p in packages && v in p.versions;
    }
  }

  lemma BuildOne(table: map<Key, VersionsMap>, done: set<Key>, packages: LockSet, k: Key,
          versions: seq<LockedPackageVersion>)
    requires Built(table, done, packages) && k in table && k !in done && Flattens(table[k], versions)
    ensures Built(table, done + {k}, InsertNew(packages, LockedPackage(k.0, k.1, versions)))
  {
  }

  // ---------- the lock file ----------

  class LockFile {
    var packages: LockSet

    ghost predicate Valid()
      reads this
    {
      OnePerKey(packages)
    }

    constructor ()
      ensures Valid() && packages == {}
    {
      packages := {};
    }

    /** Replaces the packages by those of the resolutions; `ok` is false where the source's assertion fails. */
    method UpdateDependencies(resolutions: ResolutionMap) returns (ok: bool)
      modifies this
      ensures ok <==> !Conflict(resolutions)
      ensures ok ==> Valid() && Generated(resolutions, packages)
      ensures !ok ==> packages == {}
    {
      packages := {};
      var generated := GenerateLockedPackages(resolutions);
      if generated.None? {
        return false;
      }
      packages := packages + generated.value;
      assert packages == generated.value;
      return true;
    }
  }
}
