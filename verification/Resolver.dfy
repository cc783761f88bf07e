/**
 The dependency resolver: collecting dependencies with path overrides, resolving them against a
 registry and a lock, and what holds over sequences of runs.
 */
module Resolver {
  import opened Wrappers
  import opened Versions
  import opened VersionReqs
  import opened PackageRefs
  import opened Digests
  import opened Lock
  import opened LockMerge
  import opened ReleaseInfo

  // ---------- collecting dependencies ----------

  /** A registry package to depend on, possibly renamed and possibly from a given registry. */
  datatype RegistryPackage = RegistryPackage(name: Option<PackageRef>, version: VersionReq, registry: Option<string>)

  /** `packages` is what reading a local path gives, in the order it is iterated; nothing if reading fails. */
  datatype Dependency =
    | Package(package: RegistryPackage)
    | LocalPath(path: string, packages: Option<seq<(PackageRef, VersionReq)>>)

  datatype Pin = Pin(version: Version, digest: ContentDigest)

  datatype RegistryDependency = RegistryDependency(package: PackageRef, version: VersionReq, locked: Option<Pin>)

  type Config = PackageRef -> Option<string>

  /** What a resolver starts from: the configured registries and the locked packages. */
  datatype Env = Env(config: Config, lock: LockSet)

  datatype State = State(dependencies: map<PackageRef, RegistryDependency>, resolutions: ResolutionMap)

  const START := State(map[], map[])

  /** AssertionFailed stands for the panic when a local package is inserted twice. */
  datatype AddOutcome = Added | PathError | AssertionFailed

  function Locked(lock: LockSet, k: Key, req: VersionReq): Option<Pin>
    requires OnePerKey(lock)
  {
    var found := Lookup(lock, k, req);
    if found.Some? then Some(Pin(found.value.version, found.value.digest)) else None
  }

  /** The registry under which the lock is searched: the one asked for, or the one configured for the name. */
  function RegistryOf(config: Config, name: PackageRef, package: RegistryPackage): Option<string> {
    if package.registry.Some? then package.registry else config(name)
  }

  /** The package meant: the one the name is renamed to, or the name itself. */
  function PackageOf(name: PackageRef, package: RegistryPackage): PackageRef {
    if package.name.Some? then package.name.value else name
  }

  /** The pin that the lock has for a request. */
  function PinOf(env: Env, name: PackageRef, package: RegistryPackage): Option<Pin>
    requires OnePerKey(env.lock)
  {
    Locked(env.lock, (PackageOf(name, package), RegistryOf(env.config, name, package)), package.version)
  }

  /** The dependency that a request for a registry package under a name turns into. */
  function Requested(env: Env, name: PackageRef, package: RegistryPackage): RegistryDependency
    requires OnePerKey(env.lock)
  {
    RegistryDependency(PackageOf(name, package), package.version, PinOf(env, name, package))
  }

  /** A request is ignored when the name is known already. */
  function AddRequest(st: State, name: PackageRef, dependency: RegistryDependency): State {
    if name in st.resolutions || name in st.dependencies then st
    else st.(dependencies := st.dependencies[name := dependency])
  }

  /** The registry package that a dependency listed by a path stands for. */
  function Listed(package: PackageRef, req: VersionReq): RegistryPackage {
    RegistryPackage(Some(package), req, None)
  }

  function AddRequests(env: Env, st: State, packages: seq<(PackageRef, VersionReq)>): State
    requires OnePerKey(env.lock)
  {
    if packages == [] then st
    else
      var last := packages[|packages| - 1];
      var before := AddRequests(env, st, packages[..|packages| - 1]);
      AddRequest(before, last.0, Requested(env, last.0, Listed(last.0, last.1)))
  }

  /** One addition, without forced override. */
  function Add(env: Env, st: State, name: PackageRef, dependency: Dependency): (State, AddOutcome)
    requires OnePerKey(env.lock)
  {
    match dependency
    case Package(package) => (AddRequest(st, name, Requested(env, name, package)), Added)
    case LocalPath(path, packages) =>
      if name !in st.dependencies && name in st.resolutions then (st, Added)
      else
        var cleared := st.(dependencies := st.dependencies - {name});
        if packages.None? then (cleared, PathError)
        else
          var filled := AddRequests(env, cleared, packages.value);
          (filled.(resolutions := filled.resolutions[name := Local(name, path)]),
           if name in filled.resolutions then AssertionFailed else Added)
  }

  class DependencyResolver {
    const env: Env
    var dependencies: map<PackageRef, RegistryDependency>
    var resolutions: ResolutionMap

    constructor (env: Env)
      ensures this.env == env && Collected() == START
    {
      this.env := env;
      dependencies, resolutions := map[], map[];
    }

    function Collected(): State
      reads this
    {
      State(dependencies, resolutions)
    }

    method AddDependency(name: PackageRef, dependency: Dependency) returns (r: AddOutcome)
      requires OnePerKey(env.lock)
      modifies this
      ensures (Collected(), r) == Add(env, old(Collected()), name, dependency)
      decreases if dependency.LocalPath? then 2 else 0
    {
      match dependency {
        case Package(package) =>
          var registry := if package.registry.Some? then package.registry else env.config(name);
          var packageName := if package.name.Some? then package.name.value else name;
          var locked := Locked(env.lock, (packageName, registry), package.version);
          if name in resolutions || name in dependencies {
            return Added;
          }
          dependencies := dependencies[name := RegistryDependency(packageName, package.version, locked)];
        case LocalPath(path, packages) =>
          var shouldInsert := name in dependencies || name !in resolutions;
          if !shouldInsert {
            return Added;
          }
          dependencies := dependencies - {name};
          if packages.None? {
            return PathError;
          }
          AddPackages(packages.value);
          var previous := name in resolutions;
          resolutions := resolutions[name := Local(name, path)];
          if previous {
            return AssertionFailed;
          }
      }
      return Added;
    }

    method AddPackages(packages: seq<(PackageRef, VersionReq)>)
      requires OnePerKey(env.lock)
      modifies this
      ensures Collected() == AddRequests(env, old(Collected()), packages)
      decreases 1
    {
      var i := 0;
      while i < |packages|
        invariant 0 <= i <= |packages|
        invariant Collected() == AddRequests(env, old(Collected()), packages[..i])
      {
        var (package, req) := packages[i];
        var outcome := AddDependency(package, Package(Listed(package, req)));
        assert packages[..i + 1][..i] == packages[..i];
        i := i + 1;
      }
      assert packages[..i] == packages;
    }
  }

  /**
   A request by its fields: the package is the one it is renamed to, or else the name; the requirement is
   its own; and the pin is the lock's first entry for that requirement, of that package, under the registry
   named, or else the one configured for the name.
   */
  lemma RequestedByFields(env: Env, name: PackageRef, x: RegistryPackage)
    requires OnePerKey(env.lock)
    ensures var d := Requested(env, name, x);
            var registry := match x.registry { case Some(r) => Some(r) case None => env.config(name) };
            var found := Lookup(env.lock, (d.package, registry), x.version);
            && d.package == (match x.name { case Some(renamed) => renamed case None => name })
            && d.version == x.version
            && (d.locked.Some? <==> found.Some?)
            && (found.Some? ==> d.locked == Some(Pin(found.value.version, found.value.digest)))
  {
  }

  // ---------- runs of additions ----------

  datatype Addition = Addition(name: PackageRef, dependency: Dependency)

  /** Additions one after the other, up to the first that does not succeed. */
  function AddAll(env: Env, adds: seq<Addition>): (State, AddOutcome)
    requires OnePerKey(env.lock)
  {
    if adds == [] then (START, Added)
    else
      var (st, outcome) := AddAll(env, adds[..|adds| - 1]);
      if outcome != Added then (st, outcome)
      else Add(env, st, adds[|adds| - 1].name, adds[|adds| - 1].dependency)
  }

  /** The first local path that a name is added with. */
  function FirstLocal(adds: seq<Addition>, n: PackageRef): Option<Dependency> {
    if adds == [] then None
    else
      var before := FirstLocal(adds[..|adds| - 1], n);
      var last := adds[|adds| - 1];
      if before.Some? then before
      else if last.name == n && last.dependency.LocalPath? then Some(last.dependency)
      else None
  }

  predicate Lists(dependency: Dependency, n: PackageRef) {
    && dependency.LocalPath? && dependency.packages.Some?
    && exists i :: 0 <= i < |dependency.packages.value| && dependency.packages.value[i].0 == n
  }

  /** The first request for a name in a list of packages. */
  function FirstListed(env: Env, packages: seq<(PackageRef, VersionReq)>, n: PackageRef)
    : (r: Option<RegistryDependency>)
    requires OnePerKey(env.lock)
    ensures r.Some? <==> exists i :: 0 <= i < |packages| && packages[i].0 == n
  {
    if packages == [] then None
    else
      var before := FirstListed(env, packages[..|packages| - 1], n);
      var last := packages[|packages| - 1];
      assert forall i :: 0 <= i < |packages| - 1 ==> packages[..|packages| - 1][i] == packages[i];
      if before.Some? then before
      else if last.0 == n then Some(Requested(env, n, Listed(n, last.1)))
      else None
  }

  /** That request is for the listed package itself, with the requirement that is listed first for it. */
  lemma {:induction false} FirstListedByFields(env: Env, packages: seq<(PackageRef, VersionReq)>, n: PackageRef)
    requires OnePerKey(env.lock) && FirstListed(env, packages, n).Some?
    ensures var d := FirstListed(env, packages, n).value;
            && d.package == n
            && d.locked == Locked(env.lock, (n, env.config(n)), d.version)
            && exists i :: 0 <= i < |packages| && packages[i] == (n, d.version)
                           && forall j :: 0 <= j < i ==> packages[j].0 != n
  {
    var init := packages[..|packages| - 1];
    assert forall i :: 0 <= i < |init| ==> init[i] == packages[i];
    if FirstListed(env, init, n).Some? {
      FirstListedByFields(env, init, n);
      var i :| 0 <= i < |init| && init[i] == (n, FirstListed(env, init, n).value.version)
               && forall j :: 0 <= j < i ==> init[j].0 != n;
      assert packages[i] == (n, FirstListed(env, packages, n).value.version);
    } else {
      assert packages[|packages| - 1] == (n, FirstListed(env, packages, n).value.version);
    }
  }

  /** The requests for n that one addition stands for; a path counts only the first time its name is added. */
  function RequestIn(env: Env, adds: seq<Addition>, n: PackageRef): Option<RegistryDependency>
    requires OnePerKey(env.lock) && adds != []
  {
    var last := adds[|adds| - 1];
    match last.dependency
    case Package(package) => if last.name == n then Some(Requested(env, n, package)) else None
    case LocalPath(_, packages) =>
      if packages.Some? && FirstLocal(adds[..|adds| - 1], last.name).None? then FirstListed(env, packages.value, n)
      else None
  }

  /** The first request for a name, directly or through a local path. */
  function FirstRequest(env: Env, adds: seq<Addition>, n: PackageRef): Option<RegistryDependency>
    requires OnePerKey(env.lock)
  {
    if adds == [] then None
    else
      var before := FirstRequest(env, adds[..|adds| - 1], n);
      if before.Some? then before else RequestIn(env, adds, n)
  }

  /** What the collected state says about one name after some additions. */
  ghost predicate CollectsName(env: Env, adds: seq<Addition>, st: State, n: PackageRef)
    requires OnePerKey(env.lock)
  {
    match FirstLocal(adds, n)
    case Some(local) =>
      && local.LocalPath?
      && n in st.resolutions && st.resolutions[n] == Local(n, local.path)
      && (n in st.dependencies <==> Lists(local, n))
      && (n in st.dependencies ==> FirstListed(env, local.packages.value, n) == Some(st.dependencies[n]))
    case None =>
      && n !in st.resolutions
      && (n in st.dependencies <==> FirstRequest(env, adds, n).Some?)
      && (n in st.dependencies ==> FirstRequest(env, adds, n) == Some(st.dependencies[n]))
  }

  ghost predicate Collects(env: Env, adds: seq<Addition>, st: State)
    requires OnePerKey(env.lock)
  {
    forall n :: CollectsName(env, adds, st, n)
  }

  /** A name is added as a local path again after a first path that lists that very name. */
  ghost predicate ReaddsSelfListing(adds: seq<Addition>) {
    exists k :: 0 <= k < |adds| && ReaddsAt(adds, k)
  }

  predicate ReaddsAt(adds: seq<Addition>, k: nat)
    requires k < |adds|
  {
    && adds[k].dependency.LocalPath?
    && FirstLocal(adds[..k], adds[k].name).Some?
    && Lists(FirstLocal(adds[..k], adds[k].name).value, adds[k].name)
  }

  /** Requests from a list go to the names not known before, the first request for each. */
  lemma {:induction false} AddRequestsEffect(env: Env, st: State, packages: seq<(PackageRef, VersionReq)>,
          n: PackageRef)
    requires OnePerKey(env.lock)
    ensures var r := AddRequests(env, st, packages);
            && r.resolutions == st.resolutions
            && if n in st.resolutions || n in st.dependencies then
                 && (n in r.dependencies <==> n in st.dependencies)
                 && (n in st.dependencies ==> r.dependencies[n] == st.dependencies[n])
               else
                 && (n in r.dependencies <==> FirstListed(env, packages, n).Some?)
                 && (n in r.dependencies ==> FirstListed(env, packages, n) == Some(r.dependencies[n]))
  {
    if packages != [] {
      AddRequestsEffect(env, st, packages[..|packages| - 1], n);
    }
  }

  /** One more addition, seen from one name. */
  lemma AddCollects(env: Env, adds: seq<Addition>, st: State, n: PackageRef)
    requires OnePerKey(env.lock) && adds != [] && Collects(env, adds[..|adds| - 1], st)
    requires var last := adds[|adds| - 1]; Add(env, st, last.name, last.dependency).1 == Added
    ensures var last := adds[|adds| - 1]; CollectsName(env, adds, Add(env, st, last.name, last.dependency).0, n)
  {
    var last := adds[|adds| - 1];
    var before := adds[..|adds| - 1];
    assert CollectsName(env, before, st, n);
    assert CollectsName(env, before, st, last.name);
    if last.dependency.LocalPath? && last.dependency.packages.Some? {
      var cleared := st.(dependencies := st.dependencies - {last.name});
      AddRequestsEffect(env, cleared, last.dependency.packages.value, last.name);
      AddRequestsEffect(env, cleared, last.dependency.packages.value, n);
    }
  }

  /** When the assertion fires: on adding a local path again for a name whose first path lists it. */
  lemma AddFires(env: Env, adds: seq<Addition>, st: State)
    requires OnePerKey(env.lock) && adds != [] && Collects(env, adds[..|adds| - 1], st)
    requires var last := adds[|adds| - 1]; Add(env, st, last.name, last.dependency).1 != PathError
    ensures var last := adds[|adds| - 1];
            Add(env, st, last.name, last.dependency).1 == AssertionFailed <==> ReaddsAt(adds, |adds| - 1)
  {
    var last := adds[|adds| - 1];
    assert CollectsName(env, adds[..|adds| - 1], st, last.name);
    if last.dependency.LocalPath? && last.dependency.packages.Some? {
      var cleared := st.(dependencies := st.dependencies - {last.name});
      AddRequestsEffect(env, cleared, last.dependency.packages.value, last.name);
    }
  }

  /**
   For any additions whose paths could be read: the insertion assertion fires if and only if a name
   is added as a local path again after a first path that lists the name itself; and otherwise each
   name added as local resolves to its first path, every other name to its first request.
   */
  lemma {:induction false} RunCollects(env: Env, adds: seq<Addition>)
    requires OnePerKey(env.lock) && AddAll(env, adds).1 != PathError
    ensures AddAll(env, adds).1 == AssertionFailed <==> ReaddsSelfListing(adds)
    ensures AddAll(env, adds).1 == Added ==> Collects(env, adds, AddAll(env, adds).0)
  {
    if adds == [] {
    } else {
      var before := adds[..|adds| - 1];
      RunCollects(env, before);
      assert forall k :: 0 <= k < |before| ==> before[..k] == adds[..k];
      assert forall k :: 0 <= k < |before| ==> ReaddsAt(before, k) == ReaddsAt(adds, k);
      var (st, outcome) := AddAll(env, before);
      if outcome == Added {
        AddFires(env, adds, st);
        if AddAll(env, adds).1 == Added {
          forall n
            ensures CollectsName(env, adds, AddAll(env, adds).0, n)
          {
            AddCollects(env, adds, st, n);
          }
        } else {
          assert ReaddsAt(adds, |adds| - 1);
        }
      } else {
        var k :| 0 <= k < |before| && ReaddsAt(before, k);
        assert ReaddsAt(adds, k);
      }
    }
  }

  /** A name ends up both local and from a registry exactly when its first path lists the name itself. */
  lemma InBothExactly(env: Env, adds: seq<Addition>, n: PackageRef)
    requires OnePerKey(env.lock) && AddAll(env, adds).1 == Added
    ensures var st := AddAll(env, adds).0;
            n in st.dependencies && n in st.resolutions <==>
                FirstLocal(adds, n).Some? && Lists(FirstLocal(adds, n).value, n)
  {
    RunCollects(env, adds);
    assert CollectsName(env, adds, AddAll(env, adds).0, n);
  }

  /** Path overrides win in every order, provided no local package lists its own name. */
  lemma PathOverridesWin(env: Env, adds: seq<Addition>, n: PackageRef)
    requires OnePerKey(env.lock) && AddAll(env, adds).1 != PathError
    requires forall a :: a in adds ==> !Lists(a.dependency, a.name)
    ensures AddAll(env, adds).1 == Added
    ensures var st := AddAll(env, adds).0;
            match FirstLocal(adds, n)
            case Some(local) =>
              && local.LocalPath? && n in st.resolutions && st.resolutions[n] == Local(n, local.path)
              && n !in st.dependencies
            case None =>
              && n !in st.resolutions
              && (if n in st.dependencies then Some(st.dependencies[n]) else None) == FirstRequest(env, adds, n)
  {
    forall k | 0 <= k < |adds|
      ensures !ReaddsAt(adds, k)
    {
      FirstLocalIsAdded(adds[..k], adds[k].name);
    }
    RunCollects(env, adds);
    FirstLocalIsAdded(adds, n);
    assert CollectsName(env, adds, AddAll(env, adds).0, n);
  }

  /** Which addition that is: the first one of the name that is a local path. */
  lemma {:induction false} FirstLocalInFull(adds: seq<Addition>, n: PackageRef)
    ensures FirstLocal(adds, n).None? <==>
            forall k :: 0 <= k < |adds| ==> adds[k].name != n || adds[k].dependency.Package?
    ensures FirstLocal(adds, n).Some? ==> exists k ::
              && 0 <= k < |adds| && adds[k] == Addition(n, FirstLocal(adds, n).value) && adds[k].dependency.LocalPath?
              && forall j :: 0 <= j < k ==> adds[j].name != n || adds[j].dependency.Package?
  {
    if adds != [] {
      var init, last := adds[..|adds| - 1], adds[|adds| - 1];
      assert forall k :: 0 <= k < |init| ==> init[k] == adds[k];
      FirstLocalInFull(init, n);
      if FirstLocal(init, n).Some? {
        var k :| && 0 <= k < |init| && init[k] == Addition(n, FirstLocal(init, n).value)
                 && forall j :: 0 <= j < k ==> init[j].name != n || init[j].dependency.Package?;
        assert adds[k] == Addition(n, FirstLocal(adds, n).value);
      } else if last.name == n && last.dependency.LocalPath? {
        assert adds[|adds| - 1] == Addition(n, FirstLocal(adds, n).value);
      }
    }
  }

  /** The k-th addition asks for d under the name n: directly, or as the first in what a path lists. */
  ghost predicate AsksFor(env: Env, adds: seq<Addition>, k: nat, n: PackageRef, d: RegistryDependency)
    requires OnePerKey(env.lock) && k < |adds|
  {
    match adds[k].dependency
    case Package(package) => adds[k].name == n && d == Requested(env, n, package)
    case LocalPath(_, packages) =>
      && packages.Some? && FirstLocal(adds[..k], adds[k].name).None?
      && exists i :: 0 <= i < |packages.value| && packages.value[i].0 == n
                     && d == Requested(env, n, RegistryPackage(Some(n), packages.value[i].1, None))
                     && forall j :: 0 <= j < i ==> packages.value[j].0 != n
  }

  /** What asks for a name, is the first request for it, and nothing before it asks. */
  lemma {:induction false} FirstRequestInFull(env: Env, adds: seq<Addition>, n: PackageRef)
    requires OnePerKey(env.lock)
    ensures FirstRequest(env, adds, n).Some? ==> exists k: nat ::
              && k < |adds| && AsksFor(env, adds, k, n, FirstRequest(env, adds, n).value)
              && forall j: nat, d :: j < k ==> !AsksFor(env, adds, j, n, d)
    ensures FirstRequest(env, adds, n).None? ==> forall j: nat, d :: j < |adds| ==> !AsksFor(env, adds, j, n, d)
  {
    if adds != [] {
      var init := adds[..|adds| - 1];
      FirstRequestInFull(env, init, n);
      forall k: nat, d | k < |init|
        ensures AsksFor(env, adds, k, n, d) == AsksFor(env, init, k, n, d)
      {
        assert init[k] == adds[k] && init[..k] == adds[..k];
      }
      if FirstRequest(env, init, n).Some? {
        var k: nat :| && k < |init| && AsksFor(env, init, k, n, FirstRequest(env, init, n).value)
                      && forall j: nat, d :: j < k ==> !AsksFor(env, init, j, n, d);
        assert AsksFor(env, adds, k, n, FirstRequest(env, adds, n).value);
      } else {
        RequestInFull(env, adds, |adds| - 1, n);
      }
    }
  }

  lemma RequestInFull(env: Env, adds: seq<Addition>, last: nat, n: PackageRef)
    requires OnePerKey(env.lock) && |adds| == last + 1
    ensures RequestIn(env, adds, n).Some? ==> AsksFor(env, adds, last, n, RequestIn(env, adds, n).value)
    ensures RequestIn(env, adds, n).None? ==> forall d :: !AsksFor(env, adds, last, n, d)
  {
    if adds[last].dependency.LocalPath? && adds[last].dependency.packages.Some? {
      var packages := adds[last].dependency.packages.value;
      if FirstListed(env, packages, n).Some? {
        FirstListedByFields(env, packages, n);
        RequestedListed(env, packages, n);
      }
    }
  }

  /** The first listed is requested as it is listed. */
  lemma {:induction false} RequestedListed(env: Env, packages: seq<(PackageRef, VersionReq)>, n: PackageRef)
    requires OnePerKey(env.lock) && FirstListed(env, packages, n).Some?
    ensures var d := FirstListed(env, packages, n).value;
            d == Requested(env, n, RegistryPackage(Some(n), d.version, None))
  {
    if FirstListed(env, packages[..|packages| - 1], n).Some? {
      RequestedListed(env, packages[..|packages| - 1], n);
    }
  }

  /** The k-th addition stops a run: a path that is read for the first time, or again because it lists its own name. */
  predicate StopsAt(adds: seq<Addition>, k: nat)
    requires k < |adds|
  {
    && adds[k].dependency.LocalPath?
    && match FirstLocal(adds[..k], adds[k].name)
       case None => adds[k].dependency.packages.None?
       case Some(first) => Lists(first, adds[k].name)
  }

  /**
   How a run ends, for all additions: it fails at the first addition that is a local path and either
   cannot be read when its name is new, or comes again for a name whose first path lists that name. It
   fails to read the path, or else by the assertion.
   */
  lemma {:induction false} RunEndsExactly(env: Env, adds: seq<Addition>)
    requires OnePerKey(env.lock)
    ensures AddAll(env, adds).1 == Added <==> forall k: nat :: k < |adds| ==> !StopsAt(adds, k)
    ensures AddAll(env, adds).1 != Added ==> exists k: nat ::
              && k < |adds| && StopsAt(adds, k) && (forall j: nat :: j < k ==> !StopsAt(adds, j))
              && AddAll(env, adds).1 == if adds[k].dependency.packages.None? then PathError else AssertionFailed
  {
    if adds != [] {
      var before, last := adds[..|adds| - 1], |adds| - 1;
      RunEndsExactly(env, before);
      assert forall k: nat :: k < |before| ==> before[k] == adds[k] && before[..k] == adds[..k];
      assert forall k: nat :: k < |before| ==> StopsAt(before, k) == StopsAt(adds, k);
      if AddAll(env, before).1 == Added {
        AddEnds(env, adds);
        assert AddAll(env, adds).1 != Added ==> StopsAt(adds, last);
      } else {
        var k: nat :| && k < |before| && StopsAt(before, k) && (forall j: nat :: j < k ==> !StopsAt(before, j))
                      && AddAll(env, before).1 == if before[k].dependency.packages.None? then PathError
                                                  else AssertionFailed;
        assert StopsAt(adds, k);
      }
    }
  }

  lemma AddEnds(env: Env, adds: seq<Addition>)
    requires OnePerKey(env.lock) && adds != [] && AddAll(env, adds[..|adds| - 1]).1 == Added
    ensures AddAll(env, adds).1 == if !StopsAt(adds, |adds| - 1) then Added
                                   else if adds[|adds| - 1].dependency.packages.None? then PathError
                                   else AssertionFailed
  {
    var before, last := adds[..|adds| - 1], adds[|adds| - 1];
    var st := AddAll(env, before).0;
    RunCollects(env, before);
    assert CollectsName(env, before, st, last.name);
    if last.dependency.LocalPath? && last.dependency.packages.Some? {
      AddRequestsEffect(env, st.(dependencies := st.dependencies - {last.name}), last.dependency.packages.value,
                        last.name);
    }
  }

  lemma {:induction false} FirstLocalIsAdded(adds: seq<Addition>, n: PackageRef)
    ensures FirstLocal(adds, n).Some? ==>
        FirstLocal(adds, n).value.LocalPath? && Addition(n, FirstLocal(adds, n).value) in adds
  {
    if adds != [] {
      FirstLocalIsAdded(adds[..|adds| - 1], n);
    }
  }

  /** A local package that lists its own name, added twice, makes the assertion fire. */
  lemma SelfListingFires(env: Env, n: PackageRef, path: string, req: VersionReq)
    requires OnePerKey(env.lock)
    ensures var a := Addition(n, LocalPath(path, Some([(n, req)])));
            AddAll(env, [a]).1 == Added && AddAll(env, [a, a]).1 == AssertionFailed
  {
    var requests := [(n, req)];
    var dependency := LocalPath(path, Some(requests));
    var a := Addition(n, dependency);
    assert requests[0].0 == n;
    AddRequestsEffect(env, START.(dependencies := START.dependencies - {n}), requests, n);
    var st := Add(env, START, n, dependency).0;
    assert [a][..0] == [];
    assert AddAll(env, [a]) == (st, Added);
    AddRequestsEffect(env, st.(dependencies := st.dependencies - {n}), requests, n);
    assert [a, a][..1] == [a];
  }

  // ---------- resolving against a registry ----------

  /** What the registry answers: the versions of a package and the releases; nothing stands for an error. */
  datatype World = World(listing: PackageRef -> Option<seq<VersionInfo>>,
                         release: (PackageRef, Version) -> Option<Release>)

  predicate Selectable(info: VersionInfo, req: VersionReq) {
    !info.yanked && Matches(req, info.version)
  }

  /** The last of the greatest versions that match and are not yanked. */
  function FindLatestRelease(versions: seq<VersionInfo>, req: VersionReq): (r: Option<VersionInfo>)
    ensures r.Some? ==> r.value in versions && Selectable(r.value, req)
    ensures r.None? ==> forall v :: v in versions ==> !Selectable(v, req)
  {
    if versions == [] then None
    else
      var last := versions[|versions| - 1];
      assert versions == versions[..|versions| - 1] + [last];
      var best := FindLatestRelease(versions[..|versions| - 1], req);
      if Selectable(last, req)
          && (best.None? || !Compare(last.version, best.value.version).Less?) then Some(last) else best
  }

  /** No release that could have been selected is later than the one selected. */
  lemma {:induction false} LatestIsGreatest(versions: seq<VersionInfo>, req: VersionReq, v: VersionInfo)
    requires v in versions && Selectable(v, req)
    ensures FindLatestRelease(versions, req).Some? && !Lt(FindLatestRelease(versions, req).value.version, v.version)
  {
    var init, last := versions[..|versions| - 1], versions[|versions| - 1];
    assert versions == init + [last];
    var best := FindLatestRelease(init, req);
    var r := FindLatestRelease(versions, req).value;
    VersionOrder(v.version, v.version, v.version);
    if v in init {
      LatestIsGreatest(init, req, v);
      VersionOrder(best.value.version, last.version, v.version);
      VersionOrder(last.version, v.version, best.value.version);
      VersionOrder(v.version, best.value.version, last.version);
    } else if best.Some? {
      VersionOrder(last.version, best.value.version, last.version);
    }
  }

  /** The latest in full: listed, not yanked, matching, and above every other such version. */
  lemma LatestInFull(versions: seq<VersionInfo>, req: VersionReq)
    ensures FindLatestRelease(versions, req).None? <==>
            forall v :: v in versions && !v.yanked ==> !Matches(req, v.version)
    ensures FindLatestRelease(versions, req).Some? ==>
              var latest := FindLatestRelease(versions, req).value;
              && latest in versions && !latest.yanked && Matches(req, latest.version)
              && forall v :: v in versions && !v.yanked && Matches(req, v.version) ==>
                   v.version == latest.version || Lt(v.version, latest.version)
  {
    forall v | v in versions && !v.yanked && Matches(req, v.version)
      ensures FindLatestRelease(versions, req).Some?
      ensures v.version == FindLatestRelease(versions, req).value.version
              || Lt(v.version, FindLatestRelease(versions, req).value.version)
    {
      LatestIsGreatest(versions, req, v);
      var latest := FindLatestRelease(versions, req).value;
      VersionOrder(latest.version, v.version, v.version);
    }
  }

  datatype ResolveError = NotFound | NoMatch | ReleaseError | DigestMismatch

  /** The version to take, and the digest it has to have if it comes from the lock. */
  function Select(versions: seq<VersionInfo>, dependency: RegistryDependency)
    : Option<(Version, Option<ContentDigest>)>
  {
    var latest := FindLatestRelease(versions, dependency.version);
    var fallback := if latest.Some? then Some((latest.value.version, None)) else None;
    match dependency.locked
    case None => fallback
    case Some(pin) =>
      var exact := FindLatestRelease(versions, ExactReq(pin.version));
      if exact.Some? then Some((exact.value.version, Some(pin.digest))) else fallback
  }

  /** One dependency, online. */
  function ResolveOne(world: World, dependency: RegistryDependency): Result<Release, ResolveError> {
    match world.listing(dependency.package)
    case None => Err(NotFound)
    case Some(versions) =>
      match Select(versions, dependency)
      case None => Err(NoMatch)
      case Some((version, digest)) =>
        match world.release(dependency.package, version)
        case None => Err(ReleaseError)
        case Some(release) =>
          if digest.Some? && release.digest != digest.value then Err(DigestMismatch) else Ok(release)
  }

  predicate Resolves(world: World, st: State) {
    forall n :: n in st.dependencies ==> ResolveOne(world, st.dependencies[n]).Ok?
  }

  function RegistryResolution(world: World, config: Config, st: State, n: PackageRef): DependencyResolution
    requires n in st.dependencies && ResolveOne(world, st.dependencies[n]).Ok?
  {
    var d := st.dependencies[n];
    var release := ResolveOne(world, d).value;
    Registry(n, d.package, config(n), d.version, release.version, release.digest)
  }

  /** All resolutions: those from the registry take the place of local ones. */
  function ResolveAll(world: World, config: Config, st: State): ResolutionMap
    requires Resolves(world, st)
  {
    st.resolutions + map n | n in st.dependencies :: RegistryResolution(world, config, st, n)
  }

  /**
   Why a dependency does not resolve: the package is unknown; nothing listed and not yanked is equal to the
   pin or matches; or fetching the version selected fails, or gives another digest than the pin's.
   */
  lemma ErrorsInFull(world: World, d: RegistryDependency)
    ensures var r, listing := ResolveOne(world, d), world.listing(d.package);
            && (r == Err(NotFound) <==> listing.None?)
            && (r == Err(NoMatch) <==> listing.Some? && forall v :: v in listing.value && !v.yanked ==>
                  !Matches(d.version, v.version)
                  && (d.locked.Some? ==> !v.version.SameUpToBuild(d.locked.value.version)))
            && (r == Err(DigestMismatch) ==> d.locked.Some? && exists v ::
                  && v in listing.value && !v.yanked && v.version.SameUpToBuild(d.locked.value.version)
                  && world.release(d.package, v.version).Some?
                  && world.release(d.package, v.version).value.digest != d.locked.value.digest)
            && (r == Err(ReleaseError) ==> exists v ::
                  v in listing.value && !v.yanked && world.release(d.package, v.version).None?)
  {
    if world.listing(d.package).Some? {
      var versions := world.listing(d.package).value;
      LatestInFull(versions, d.version);
      if d.locked.Some? {
        var pinned := d.locked.value.version;
        LatestInFull(versions, ExactReq(pinned));
        forall v | v in versions
          ensures Matches(ExactReq(pinned), v.version) <==> v.version.SameUpToBuild(pinned)
        {
          ExactReqMatches(pinned, v.version);
        }
      }
    }
  }

  type Listings = map<PackageRef, seq<VersionInfo>>

  /** One dependency, with the listings fetched so far at hand. */
  method ResolveDependency(world: World, packages: Listings, dependency: RegistryDependency)
    returns (r: Result<Release, ResolveError>, packages': Listings)
    requires forall p :: p in packages ==> world.listing(p) == Some(packages[p])
    ensures forall p :: p in packages' ==> world.listing(p) == Some(packages'[p])
    ensures r == ResolveOne(world, dependency)
  {
    packages' := packages;
    if dependency.package !in packages' {
      var listed := world.listing(dependency.package);
      if listed.None? {
        return Err(NotFound), packages';
      }
      packages' := packages'[dependency.package := listed.value];
    }
    var selected := Select(packages'[dependency.package], dependency);
    if selected.None? {
      return Err(NoMatch), packages';
    }
    var (version, digest) := selected.value;
    var release := world.release(dependency.package, version);
    if release.None? {
      return Err(ReleaseError), packages';
    }
    if digest.Some? && release.value.digest != digest.value {
      return Err(DigestMismatch), packages';
    }
    return Ok(release.value), packages';
  }

  /** The map after the dependencies in `done` were resolved. */
  ghost predicate ResolvedSome(world: World, config: Config, st: State, done: set<PackageRef>,
          resolutions: ResolutionMap) {
    && (forall n :: n in done ==> n in st.dependencies && ResolveOne(world, st.dependencies[n]).Ok?)
    && resolutions == st.resolutions + map n | n in done :: RegistryResolution(world, config, st, n)
  }

  /** Resolves the collected dependencies in no particular order, listing each package once. */
  method Resolve(world: World, config: Config, st: State) returns (r: Result<ResolutionMap, ResolveError>)
    ensures r.Ok? <==> Resolves(world, st)
    ensures r.Ok? ==> r.value == ResolveAll(world, config, st)
    ensures r.Ok? ==> forall n :: n in st.dependencies ==>
        && n in r.value && ResolveOne(world, st.dependencies[n]).Ok?
        && var release := ResolveOne(world, st.dependencies[n]).value;
           r.value[n] == Registry(n, st.dependencies[n].package, config(n), st.dependencies[n].version,
                                  release.version, release.digest)
    ensures r.Err? ==> exists n :: n in st.dependencies && ResolveOne(world, st.dependencies[n]) == Err(r.error)
  {
    var resolutions := st.resolutions;
    var packages: Listings := map[];
    var left := st.dependencies.Keys;
    ghost var done := {};
    while left != {}
      invariant done + left == st.dependencies.Keys
      invariant forall p :: p in packages ==> world.listing(p) == Some(packages[p])
      invariant ResolvedSome(world, config, st, done, resolutions)
      decreases left
    {
      var name :| name in left;
      var dependency := st.dependencies[name];
      var release;
      release, packages := ResolveDependency(world, packages, dependency);
      if release.Err? {
        return Err(release.error);
      }
      ResolvedMore(world, config, st, done, resolutions, name);
      resolutions := resolutions[name := Registry(name, dependency.package, config(name), dependency.version,
          release.value.version, release.value.digest)];
      left, done := left - {name}, done + {name};
    }
    assert done == st.dependencies.Keys;
    return Ok(resolutions);
  }

  lemma ResolvedMore(world: World, config: Config, st: State, done: set<PackageRef>, resolutions: ResolutionMap,
          name: PackageRef)
    requires ResolvedSome(world, config, st, done, resolutions)
    requires name in st.dependencies && ResolveOne(world, st.dependencies[name]).Ok?
    ensures ResolvedSome(world, config, st, done + {name},
                         resolutions[name := RegistryResolution(world, config, st, name)])
  {
  }

  // ---------- runs: resolve, then update the lock ----------

  /** What a run resolves to, if it gets that far. */
  function Outcome(world: World, env: Env, adds: seq<Addition>): Option<ResolutionMap>
    requires OnePerKey(env.lock)
  {
    var (st, outcome) := AddAll(env, adds);
    if outcome == Added && Resolves(world, st) then Some(ResolveAll(world, env.config, st)) else None
  }

  /** A successful run: the dependencies resolve, and the lock is updated from the resolutions. */
  ghost predicate Relocks(world: World, env: Env, adds: seq<Addition>, lock': LockSet)
    requires OnePerKey(env.lock)
  {
    Outcome(world, env, adds).Some? && Generated(Outcome(world, env, adds).value, lock')
  }

  /**
   A build, up to the lock: collects the additions, resolves them and updates the lock. `ok` is false
   when collecting or resolving fails, which leaves the lock as it was, and when an assertion fails.
   */
  method UpdateLock(world: World, config: Config, adds: seq<Addition>, lock: LockFile) returns (ok: bool)
    requires lock.Valid()
    modifies lock
    ensures lock.Valid()
    ensures var outcome := Outcome(world, Env(config, old(lock.packages)), adds);
            ok <==> outcome.Some? && !Conflict(outcome.value)
    ensures ok ==> Relocks(world, Env(config, old(lock.packages)), adds, lock.packages)
    ensures Outcome(world, Env(config, old(lock.packages)), adds).None? ==> lock.packages == old(lock.packages)
  {
    var env := Env(config, lock.packages);
    var resolver := new DependencyResolver(env);
    var i := 0;
    while i < |adds|
      invariant 0 <= i <= |adds| && lock.packages == env.lock && resolver.env == env
      invariant AddAll(env, adds[..i]) == (resolver.Collected(), Added)
    {
      var added := resolver.AddDependency(adds[i].name, adds[i].dependency);
      assert adds[..i + 1][..i] == adds[..i];
      i := i + 1;
      if added != Added {
        StopsHere(env, adds, i);
        return false;
      }
    }
    assert adds[..i] == adds;
    var resolved := Resolve(world, config, resolver.Collected());
    if resolved.Err? {
      return false;
    }
    ok := lock.UpdateDependencies(resolved.value);
  }

  /** An addition that does not succeed is the last that counts. */
  lemma {:induction false} StopsHere(env: Env, adds: seq<Addition>, i: nat)
    requires OnePerKey(env.lock) && i <= |adds| && AddAll(env, adds[..i]).1 != Added
    ensures AddAll(env, adds) == AddAll(env, adds[..i])
  {
    if i == |adds| {
      assert adds[..i] == adds;
    } else {
      assert adds[..|adds| - 1][..i] == adds[..i];
      StopsHere(env, adds[..|adds| - 1], i);
    }
  }

  /** The registry answers a request for a release with that very version. */
  ghost predicate Honest(world: World) {
    forall p, v :: world.release(p, v).Some? ==> world.release(p, v).value.version == v
  }

  // ---------- locked versions satisfy their requirements ----------

  predicate PinSound(dependency: RegistryDependency) {
    dependency.locked.Some? ==> Matches(dependency.version, dependency.locked.value.version)
  }

  ghost predicate PinsSound(st: State) {
    && (forall n :: n in st.dependencies ==> PinSound(st.dependencies[n]))
    && (forall n :: n in st.resolutions ==> st.resolutions[n].Local?)
  }

  lemma RequestedPinSound(env: Env, n: PackageRef, package: RegistryPackage)
    requires LockSound(env.lock)
    ensures PinSound(Requested(env, n, package))
  {
  }

  lemma {:induction false} RequestsKeepPins(env: Env, st: State, packages: seq<(PackageRef, VersionReq)>)
    requires LockSound(env.lock) && PinsSound(st)
    ensures PinsSound(AddRequests(env, st, packages))
  {
    if packages != [] {
      var last := packages[|packages| - 1];
      RequestsKeepPins(env, st, packages[..|packages| - 1]);
      RequestedPinSound(env, last.0, Listed(last.0, last.1));
    }
  }

  lemma {:induction false} AddAllKeepsPins(env: Env, adds: seq<Addition>)
    requires LockSound(env.lock)
    ensures PinsSound(AddAll(env, adds).0)
  {
    if adds != [] {
      AddAllKeepsPins(env, adds[..|adds| - 1]);
      var (st, outcome) := AddAll(env, adds[..|adds| - 1]);
      var last := adds[|adds| - 1];
      match last.dependency {
        case Package(package) => RequestedPinSound(env, last.name, package);
        case LocalPath(_, packages) =>
          if packages.Some? {
            RequestsKeepPins(env, st.(dependencies := st.dependencies - {last.name}), packages.value);
          }
      }
    }
  }

  /** Whichever way a version was chosen, through the lock or afresh, it satisfies the requirement. */
  lemma ResolvedMatches(world: World, dependency: RegistryDependency)
    requires Honest(world) && PinSound(dependency) && ResolveOne(world, dependency).Ok?
    ensures Matches(dependency.version, ResolveOne(world, dependency).value.version)
  {
    var versions := world.listing(dependency.package).value;
    if dependency.locked.Some? {
      var pinned := dependency.locked.value.version;
      var exact := FindLatestRelease(versions, ExactReq(pinned));
      if exact.Some? {
        ExactReqMatches(pinned, exact.value.version);
        MatchesIgnoresBuild(dependency.version, exact.value.version, pinned);
      }
    }
  }

  /**
   What a successful resolution took: while a release equal to the pinned one up to build metadata is
   listed and not yanked, such a release with the pinned digest; otherwise a latest release that the
   requirement matches.
   */
  lemma ResolvedRelease(world: World, dependency: RegistryDependency)
    requires Honest(world) && ResolveOne(world, dependency).Ok?
    ensures var versions := world.listing(dependency.package).value;
            var release := ResolveOne(world, dependency).value;
            && VersionInfo(release.version, false) in versions
            && if PinListed(versions, dependency.locked) then
                 && release.version.SameUpToBuild(dependency.locked.value.version)
                 && release.digest == dependency.locked.value.digest
               else
                 && Matches(dependency.version, release.version)
                 && forall i :: i in versions && Selectable(i, dependency.version) ==> !Lt(release.version, i.version)
  {
    var versions := world.listing(dependency.package).value;
    if PinListed(versions, dependency.locked) {
      var pinned := dependency.locked.value.version;
      var i :| i in versions && !i.yanked && i.version.SameUpToBuild(pinned);
      ExactReqMatches(pinned, i.version);
      var exact := FindLatestRelease(versions, ExactReq(pinned));
      ExactReqMatches(pinned, exact.value.version);
    } else {
      if dependency.locked.Some? {
        var exact := FindLatestRelease(versions, ExactReq(dependency.locked.value.version));
        if exact.Some? {
          ExactReqMatches(dependency.locked.value.version, exact.value.version);
        }
      }
      forall i | i in versions && Selectable(i, dependency.version)
        ensures !Lt(FindLatestRelease(versions, dependency.version).value.version, i.version)
      {
        LatestIsGreatest(versions, dependency.version, i);
      }
    }
  }

  /** A release equal to the pinned one, up to build metadata, is listed and not yanked. */
  predicate PinListed(versions: seq<VersionInfo>, locked: Option<Pin>) {
    locked.Some? && exists i :: i in versions && !i.yanked && i.version.SameUpToBuild(locked.value.version)
  }

  /** One run keeps a sound lock sound. */
  lemma RelockSound(world: World, env: Env, adds: seq<Addition>, lock': LockSet)
    requires Honest(world) && LockSound(env.lock) && Relocks(world, env, adds, lock')
    ensures LockSound(lock')
  {
    AddAllKeepsPins(env, adds);
    var st := AddAll(env, adds).0;
    var m := Outcome(world, env, adds).value;
    forall p, v | p in lock' && v in p.versions
      ensures Matches(v.requirement, v.version)
    {
      assert HasSource(m, m.Keys, p.Key(), v);
      var n :| n in m.Keys && Says(m, n, p.Key(), v);
      ResolvedMatches(world, st.dependencies[n]);
    }
  }

  /** A run in its surroundings, which may change from run to run. */
  datatype Build = Build(world: World, config: Config, adds: seq<Addition>)

  /** locks[i + 1] is what the i-th run makes of locks[i]; a run that fails leaves the lock as it was. */
  ghost predicate LockHistory(builds: seq<Build>, locks: seq<LockSet>) {
    && |locks| == |builds| + 1 && locks[0] == {}
    && forall i :: 0 <= i < |builds| && OnePerKey(locks[i]) ==>
         locks[i + 1] == locks[i] || Relocks(builds[i].world, Env(builds[i].config, locks[i]), builds[i].adds,
             locks[i + 1])
  }

  /** Over any sequence of online runs from an empty lock, every locked version satisfies its requirement. */
  lemma {:induction false} LocksStaySound(builds: seq<Build>, locks: seq<LockSet>, i: nat)
    requires LockHistory(builds, locks) && i < |locks|
    requires forall b :: b in builds ==> Honest(b.world)
    ensures LockSound(locks[i])
  {
    if i > 0 {
      LocksStaySound(builds, locks, i - 1);
      if locks[i] != locks[i - 1] {
        assert locks[i - 1 + 1] == locks[i];
        RelockSound(builds[i - 1].world, Env(builds[i - 1].config, locks[i - 1]), builds[i - 1].adds, locks[i]);
      }
    }
  }

  /**
   Fetching directories into one lock keeps it sound as well: each fetch is a run from an empty lock, and
   what the runs leave is merged.
   */
  lemma FetchedRunsSound(world: World, config: Config, adds: string -> seq<Addition>, fetch: FetchDir,
          dirs: seq<string>)
    requires Honest(world)
    requires forall dir :: dir in dirs && fetch(dir, {}).Some? ==>
        Relocks(world, Env(config, {}), adds(dir), fetch(dir, {}).value)
    ensures FetchesSound(fetch, dirs)
  {
    forall dir | dir in dirs && fetch(dir, {}).Some?
      ensures LockSound(fetch(dir, {}).value)
    {
      RelockSound(world, Env(config, {}), adds(dir), fetch(dir, {}).value);
    }
  }

  // ---------- when the lock cannot hold the resolutions ----------

  ghost predicate IsRequest(env: Env, n: PackageRef, dependency: RegistryDependency)
    requires OnePerKey(env.lock)
  {
    exists x :: dependency == Requested(env, n, x)
  }

  /** Everything collected was requested; what is resolved so far is local. */
  ghost predicate AllRequested(env: Env, st: State)
    requires OnePerKey(env.lock)
  {
    && (forall n :: n in st.dependencies ==> IsRequest(env, n, st.dependencies[n]))
    && (forall n :: n in st.resolutions ==> st.resolutions[n].Local?)
  }

  lemma {:induction false} RequestsRequested(env: Env, st: State, packages: seq<(PackageRef, VersionReq)>)
    requires OnePerKey(env.lock) && AllRequested(env, st)
    ensures AllRequested(env, AddRequests(env, st, packages))
  {
    if packages != [] {
      RequestsRequested(env, st, packages[..|packages| - 1]);
    }
  }

  lemma {:induction false} AddAllRequested(env: Env, adds: seq<Addition>)
    requires OnePerKey(env.lock)
    ensures AllRequested(env, AddAll(env, adds).0)
  {
    if adds != [] {
      AddAllRequested(env, adds[..|adds| - 1]);
      var (st, outcome) := AddAll(env, adds[..|adds| - 1]);
      var last := adds[|adds| - 1];
      if last.dependency.LocalPath? && last.dependency.packages.Some? {
        RequestsRequested(env, st.(dependencies := st.dependencies - {last.name}), last.dependency.packages.value);
      }
    }
  }

  /** The version aimed at, up to build metadata: the pin while it is listed, or else the greatest match. */
  function Aim(versions: seq<VersionInfo>, req: VersionReq, pin: Option<Pin>): Option<Version> {
    if PinListed(versions, pin) then Some(pin.value.version)
    else if FindLatestRelease(versions, req).Some? then Some(FindLatestRelease(versions, req).value.version)
    else None
  }

  predicate DifferentAims(aim: Option<Version>, aim': Option<Version>) {
    aim.Some? && aim'.Some? && !aim.value.SameUpToBuild(aim'.value)
  }

  /** A resolved version is the one aimed at, up to build metadata. */
  lemma ResolvedAim(world: World, d: RegistryDependency)
    requires Honest(world) && ResolveOne(world, d).Ok?
    ensures var aim := Aim(world.listing(d.package).value, d.version, d.locked);
            aim.Some? && ResolveOne(world, d).value.version.SameUpToBuild(aim.value)
  {
    ResolvedRelease(world, d);
    var versions := world.listing(d.package).value;
    if !PinListed(versions, d.locked) && d.locked.Some? {
      var exact := FindLatestRelease(versions, ExactReq(d.locked.value.version));
      if exact.Some? {
        ExactReqMatches(d.locked.value.version, exact.value.version);
      }
    }
  }

  /** A greatest match that is equal to the pin, up to build metadata, is the greatest release equal to the pin. */
  lemma LatestIsPinned(versions: seq<VersionInfo>, req: VersionReq, pinned: Version)
    requires FindLatestRelease(versions, req).Some?
    requires FindLatestRelease(versions, req).value.version.SameUpToBuild(pinned)
    ensures FindLatestRelease(versions, ExactReq(pinned)).Some?
    ensures FindLatestRelease(versions, ExactReq(pinned)).value.version ==
            FindLatestRelease(versions, req).value.version
  {
    var latest := FindLatestRelease(versions, req).value;
    ExactReqMatches(pinned, latest.version);
    LatestIsGreatest(versions, ExactReq(pinned), latest);
    var exact := FindLatestRelease(versions, ExactReq(pinned)).value;
    ExactReqMatches(pinned, exact.version);
    MatchesIgnoresBuild(req, latest.version, exact.version);
    LatestIsGreatest(versions, req, exact);
    VersionOrder(latest.version, exact.version, latest.version);
  }

  /** Two dependencies on one package with one requirement get one version exactly when they aim alike. */
  lemma SameAimSameVersion(world: World, d: RegistryDependency, e: RegistryDependency)
    requires Honest(world) && ResolveOne(world, d).Ok? && ResolveOne(world, e).Ok?
    requires d.package == e.package && d.version == e.version
    ensures var versions := world.listing(d.package).value;
            ResolveOne(world, d).value.version != ResolveOne(world, e).value.version <==>
            DifferentAims(Aim(versions, d.version, d.locked), Aim(versions, e.version, e.locked))
  {
    ResolvedAim(world, d);
    ResolvedAim(world, e);
    var versions := world.listing(d.package).value;
    var aim, aim' := Aim(versions, d.version, d.locked).value, Aim(versions, e.version, e.locked).value;
    if aim.SameUpToBuild(aim') {
      ChosenByAim(versions, d);
      ChosenByAim(versions, e);
    }
  }

  /** What is selected is the greatest listed release equal to the aim, up to build metadata. */
  lemma ChosenByAim(versions: seq<VersionInfo>, d: RegistryDependency)
    requires Aim(versions, d.version, d.locked).Some?
    ensures var exact := FindLatestRelease(versions, ExactReq(Aim(versions, d.version, d.locked).value));
            Select(versions, d).Some? && exact.Some? && Select(versions, d).value.0 == exact.value.version
  {
    var aim := Aim(versions, d.version, d.locked).value;
    if PinListed(versions, d.locked) {
      var i :| i in versions && !i.yanked && i.version.SameUpToBuild(aim);
      ExactReqMatches(aim, i.version);
    } else {
      LatestIsPinned(versions, d.version, aim);
      if d.locked.Some? {
        var exact := FindLatestRelease(versions, ExactReq(d.locked.value.version));
        if exact.Some? {
          ExactReqMatches(d.locked.value.version, exact.value.version);
        }
      }
    }
  }

  /**
   Two dependencies that the lock cannot hold both: the same package, requirement and configured
   registry, but with their pins and with what is listed, they aim at versions that differ in more than
   build metadata.
   */
  predicate Collide(world: World, config: Config, a: PackageRef, d: RegistryDependency, b: PackageRef,
          e: RegistryDependency) {
    var listing := world.listing(d.package);
    && d.package == e.package && d.version == e.version && config(a) == config(b) && listing.Some?
    && DifferentAims(Aim(listing.value, d.version, d.locked), Aim(listing.value, e.version, e.locked))
  }

  /** What the resolutions of a run look like. */
  ghost predicate OutcomeOf(world: World, env: Env, st: State, m: ResolutionMap) {
    && (forall n :: n in m && m[n].Registry? <==> n in st.dependencies)
    && (forall n :: n in st.dependencies ==>
          ResolveOne(world, st.dependencies[n]).Ok? && m[n] == RegistryResolution(world, env.config, st, n))
  }

  lemma OutcomeShape(world: World, env: Env, adds: seq<Addition>)
    requires OnePerKey(env.lock) && Outcome(world, env, adds).Some?
    ensures OutcomeOf(world, env, AddAll(env, adds).0, Outcome(world, env, adds).value)
  {
    AddAllRequested(env, adds);
  }

  lemma CollidingConflict(world: World, env: Env, st: State, m: ResolutionMap, a: PackageRef, b: PackageRef)
    requires Honest(world) && OutcomeOf(world, env, st, m) && a in st.dependencies && b in st.dependencies
    ensures Collide(world, env.config, a, st.dependencies[a], b, st.dependencies[b]) <==> Contradict(m[a], m[b])
  {
    var d, e := st.dependencies[a], st.dependencies[b];
    if d.package == e.package && d.version == e.version {
      SameAimSameVersion(world, d, e);
    }
  }

  ghost predicate SomeCollide(world: World, config: Config, deps: map<PackageRef, RegistryDependency>) {
    exists a, b :: a in deps && b in deps && Collide(world, config, a, deps[a], b, deps[b])
  }

  lemma CollisionConflicts(world: World, env: Env, st: State, m: ResolutionMap)
    requires Honest(world) && OutcomeOf(world, env, st, m) && SomeCollide(world, env.config, st.dependencies)
    ensures Conflict(m)
  {
    var deps := st.dependencies;
    var a, b :| a in deps && b in deps && Collide(world, env.config, a, deps[a], b, deps[b]);
    CollidingConflict(world, env, st, m, a, b);
  }

  lemma ConflictCollides(world: World, env: Env, st: State, m: ResolutionMap)
    requires Honest(world) && OutcomeOf(world, env, st, m) && Conflict(m)
    ensures SomeCollide(world, env.config, st.dependencies)
  {
    var a, b :| a in m && b in m && Contradict(m[a], m[b]);
    CollidingConflict(world, env, st, m, a, b);
  }

  /**
   Exactly when generating the lock fails its assertion, for all additions, renamed or not and with
   whatever registries: when two collected requests collide, each pinned to what the lock has under the
   registry that the request asks for.
   */
  lemma ConflictExactly(world: World, env: Env, adds: seq<Addition>)
    requires OnePerKey(env.lock) && Honest(world) && Outcome(world, env, adds).Some?
    ensures var deps := AddAll(env, adds).0.dependencies;
            && (forall n :: n in deps ==> IsRequest(env, n, deps[n]))
            && (Conflict(Outcome(world, env, adds).value) <==> SomeCollide(world, env.config, deps))
  {
    var st := AddAll(env, adds).0;
    var m := Outcome(world, env, adds).value;
    OutcomeShape(world, env, adds);
    AddAllRequested(env, adds);
    if Conflict(m) {
      ConflictCollides(world, env, st, m);
    }
    if SomeCollide(world, env.config, st.dependencies) {
      CollisionConflicts(world, env, st, m);
    }
  }

  /** A dependency that names a registry names the one that is configured for its name. */
  predicate DefaultRegistry(config: Config, name: PackageRef, dependency: Dependency) {
    dependency.Package? ==> dependency.package.registry == None || dependency.package.registry == config(name)
  }

  predicate AllDefault(config: Config, adds: seq<Addition>) {
    forall a :: a in adds ==> DefaultRegistry(config, a.name, a.dependency)
  }

  predicate Unrenamed(name: PackageRef, dependency: Dependency) {
    dependency.Package? ==> PackageOf(name, dependency.package) == name
  }

  predicate AllUnrenamed(adds: seq<Addition>) {
    forall a :: a in adds ==> Unrenamed(a.name, a.dependency)
  }

  /** The pin of a dependency is what the lock has under the registry configured for its name. */
  predicate PinnedBy(env: Env, n: PackageRef, dependency: RegistryDependency)
    requires OnePerKey(env.lock)
  {
    dependency.locked == Locked(env.lock, (dependency.package, env.config(n)), dependency.version)
  }

  ghost predicate AllPinnedBy(env: Env, st: State)
    requires OnePerKey(env.lock)
  {
    forall n :: n in st.dependencies ==> PinnedBy(env, n, st.dependencies[n])
  }

  lemma {:induction false} RequestsPinned(env: Env, st: State, packages: seq<(PackageRef, VersionReq)>)
    requires OnePerKey(env.lock) && AllPinnedBy(env, st)
    ensures AllPinnedBy(env, AddRequests(env, st, packages))
  {
    if packages != [] {
      RequestsPinned(env, st, packages[..|packages| - 1]);
    }
  }

  lemma {:induction false} AddAllPinned(env: Env, adds: seq<Addition>)
    requires OnePerKey(env.lock) && AllDefault(env.config, adds)
    ensures AllPinnedBy(env, AddAll(env, adds).0)
  {
    if adds != [] {
      AddAllPinned(env, adds[..|adds| - 1]);
      var (st, outcome) := AddAll(env, adds[..|adds| - 1]);
      var last := adds[|adds| - 1];
      assert last in adds;
      if last.dependency.LocalPath? && last.dependency.packages.Some? {
        RequestsPinned(env, st.(dependencies := st.dependencies - {last.name}), last.dependency.packages.value);
      }
    }
  }

  /** Resolutions under one key and requirement give one entry. */
  ghost predicate EntriesAgree(m: ResolutionMap) {
    forall a, b :: a in m && b in m && SameSlot(m[a], m[b]) ==> Entry(m[a]) == Entry(m[b])
  }

  lemma OutcomeAgrees(world: World, env: Env, adds: seq<Addition>)
    requires OnePerKey(env.lock) && AllDefault(env.config, adds) && Outcome(world, env, adds).Some?
    ensures EntriesAgree(Outcome(world, env, adds).value)
  {
    AddAllPinned(env, adds);
    OutcomeShape(world, env, adds);
    var deps := AddAll(env, adds).0.dependencies;
    var m := Outcome(world, env, adds).value;
    forall a, b | a in m && b in m && SameSlot(m[a], m[b])
      ensures Entry(m[a]) == Entry(m[b])
    {
      assert PinnedBy(env, a, deps[a]) && PinnedBy(env, b, deps[b]);
      assert deps[a] == deps[b];
    }
  }

  /** Without renaming no assertion fires, whatever registries are named: every package has one name. */
  lemma UnrenamedNeverConflicts(world: World, env: Env, adds: seq<Addition>)
    requires OnePerKey(env.lock) && AllUnrenamed(adds) && Outcome(world, env, adds).Some?
    ensures !Conflict(Outcome(world, env, adds).value)
  {
    AddAllKeepsNames(env, adds);
    OutcomeShape(world, env, adds);
  }

  /** Nor does one fire if every registry named is the configured one, also when packages are renamed. */
  lemma NeverConflicts(world: World, env: Env, adds: seq<Addition>)
    requires OnePerKey(env.lock) && AllDefault(env.config, adds) && Outcome(world, env, adds).Some?
    ensures !Conflict(Outcome(world, env, adds).value)
  {
    OutcomeAgrees(world, env, adds);
  }

  // ---------- which resolution a name ends up with ----------

  /**
   What a name resolves to, once everything resolves. A name with a local path resolves to its first
   path, unless that path lists the very name: then a registry release, for the requirement listed, takes
   the place of the override. Any other name resolves, as its first request asks for, from the registry.
   */
  lemma ResolutionOfName(world: World, env: Env, adds: seq<Addition>, n: PackageRef)
    requires OnePerKey(env.lock) && Outcome(world, env, adds).Some?
    ensures var m := Outcome(world, env, adds).value;
            match FirstLocal(adds, n)
            case Some(local) =>
              && local.LocalPath? && n in m
              && (m[n] == Local(n, local.path) <==> !Lists(local, n))
              && (m[n].Registry? <==> Lists(local, n))
              && (m[n].Registry? ==> Answers(m[n], FirstListed(env, local.packages.value, n)))
              && (m[n].Registry? ==> m[n].package == n && exists i ::
                    && 0 <= i < |local.packages.value| && local.packages.value[i] == (n, m[n].requirement)
                    && forall j :: 0 <= j < i ==> local.packages.value[j].0 != n)
            case None =>
              && (n in m <==> FirstRequest(env, adds, n).Some?)
              && (n in m ==> Answers(m[n], FirstRequest(env, adds, n)))
  {
    if FirstLocal(adds, n).Some? && Lists(FirstLocal(adds, n).value, n) {
      FirstListedByFields(env, FirstLocal(adds, n).value.packages.value, n);
    }
    RunCollects(env, adds);
    OutcomeShape(world, env, adds);
    assert CollectsName(env, adds, AddAll(env, adds).0, n);
  }

  /**
   Which package and requirement a name without a local path is resolved for, by the fields of the additions:
   those of the first addition that asks for the name, directly or as a path that lists it.
   */
  lemma RequestOfName(world: World, env: Env, adds: seq<Addition>, n: PackageRef)
    requires OnePerKey(env.lock) && Outcome(world, env, adds).Some?
    requires FirstLocal(adds, n).None? && n in Outcome(world, env, adds).value
    ensures var r := Outcome(world, env, adds).value[n];
            && r.Registry? && r.name == n && r.registry == env.config(n)
            && exists k: nat :: k < |adds| && ResolvedFor(r, adds[k], n)
                                && forall j: nat, d :: j < k ==> !AsksFor(env, adds, j, n, d)
  {
    ResolutionOfName(world, env, adds, n);
    FirstRequestInFull(env, adds, n);
    OutcomeShape(world, env, adds);
    var d := FirstRequest(env, adds, n).value;
    var k: nat :| k < |adds| && AsksFor(env, adds, k, n, d)
                  && forall j: nat, d' :: j < k ==> !AsksFor(env, adds, j, n, d');
    assert ResolvedFor(Outcome(world, env, adds).value[n], adds[k], n);
  }

  /** The resolution has the package and the requirement that the addition asks for. */
  ghost predicate ResolvedFor(r: DependencyResolution, a: Addition, n: PackageRef)
    requires r.Registry?
  {
    match a.dependency
    case Package(x) =>
      a.name == n && r.requirement == x.version && r.package == if x.name.Some? then x.name.value else n
    case LocalPath(_, packages) =>
      packages.Some? && r.package == n && (n, r.requirement) in packages.value
  }

  /** The resolution is one of the package and requirement asked for. */
  predicate Answers(r: DependencyResolution, request: Option<RegistryDependency>) {
    request.Some? && r.Registry? && r.package == request.value.package && r.requirement == request.value.version
  }

  // ---------- relocking is a fixed point ----------

  /** Two states that differ in nothing but the pins. */
  ghost predicate SameButPins(s: State, t: State) {
    && s.resolutions == t.resolutions
    && s.dependencies.Keys == t.dependencies.Keys
    && forall n :: n in s.dependencies ==>
         && s.dependencies[n].package == t.dependencies[n].package
         && s.dependencies[n].version == t.dependencies[n].version
  }

  lemma {:induction false} RequestsSameButPins(e: Env, f: Env, s: State, t: State,
          packages: seq<(PackageRef, VersionReq)>)
    requires OnePerKey(e.lock) && OnePerKey(f.lock) && e.config == f.config && SameButPins(s, t)
    ensures SameButPins(AddRequests(e, s, packages), AddRequests(f, t, packages))
  {
    if packages != [] {
      RequestsSameButPins(e, f, s, t, packages[..|packages| - 1]);
    }
  }

  lemma AddSameButPins(e: Env, f: Env, s: State, t: State, name: PackageRef, dependency: Dependency)
    requires OnePerKey(e.lock) && OnePerKey(f.lock) && e.config == f.config && SameButPins(s, t)
    ensures Add(e, s, name, dependency).1 == Add(f, t, name, dependency).1
    ensures SameButPins(Add(e, s, name, dependency).0, Add(f, t, name, dependency).0)
  {
    if dependency.LocalPath? && dependency.packages.Some? {
      var s', t' := s.(dependencies := s.dependencies - {name}), t.(dependencies := t.dependencies - {name});
      RequestsSameButPins(e, f, s', t', dependency.packages.value);
    }
  }

  /** The lock has no influence on what is collected, but for the pins. */
  lemma {:induction false} AddAllSameButPins(e: Env, f: Env, adds: seq<Addition>)
    requires OnePerKey(e.lock) && OnePerKey(f.lock) && e.config == f.config
    ensures AddAll(e, adds).1 == AddAll(f, adds).1 && SameButPins(AddAll(e, adds).0, AddAll(f, adds).0)
  {
    if adds != [] {
      var before, last := adds[..|adds| - 1], adds[|adds| - 1];
      AddAllSameButPins(e, f, before);
      AddSameButPins(e, f, AddAll(e, before).0, AddAll(f, before).0, last.name, last.dependency);
    }
  }

  ghost predicate NamesKept(st: State) {
    forall n :: n in st.dependencies ==> st.dependencies[n].package == n
  }

  lemma {:induction false} RequestsKeepNames(env: Env, st: State, packages: seq<(PackageRef, VersionReq)>)
    requires OnePerKey(env.lock) && NamesKept(st)
    ensures NamesKept(AddRequests(env, st, packages))
  {
    if packages != [] {
      RequestsKeepNames(env, st, packages[..|packages| - 1]);
    }
  }

  lemma {:induction false} AddAllKeepsNames(env: Env, adds: seq<Addition>)
    requires OnePerKey(env.lock) && AllUnrenamed(adds)
    ensures NamesKept(AddAll(env, adds).0)
  {
    if adds != [] {
      AddAllKeepsNames(env, adds[..|adds| - 1]);
      var (st, outcome) := AddAll(env, adds[..|adds| - 1]);
      var last := adds[|adds| - 1];
      assert last in adds;
      if last.dependency.LocalPath? && last.dependency.packages.Some? {
        RequestsKeepNames(env, st.(dependencies := st.dependencies - {last.name}), last.dependency.packages.value);
      }
    }
  }

  /**
   A locked release is still there: of what is listed, not yanked and equal to it up to build metadata,
   it is the greatest, and fetching it gives the same digest.
   */
  predicate StillThere(world: World, r: DependencyResolution)
    requires r.Registry?
  {
    var listing := world.listing(r.package);
    && listing.Some?
    && var exact := FindLatestRelease(listing.value, ExactReq(r.version));
    && exact.Some? && exact.value.version == r.version
    && world.release(r.package, r.version) == Some(Release(r.version, r.digest))
  }

  /** A lock generated from agreeing resolutions answers for each of them with its own entry. */
  lemma AgreedLookup(m: ResolutionMap, lock: LockSet, n: PackageRef)
    requires Generated(m, lock) && EntriesAgree(m) && n in m && m[n].Registry?
    ensures Lookup(lock, m[n].Key(), m[n].requirement) == Some(Entry(m[n]))
  {
    var p := Get(lock, m[n].Key()).value;
    var v := Lookup(lock, m[n].Key(), m[n].requirement).value;
    assert HasSource(m, m.Keys, p.Key(), v);
    var a :| a in m.Keys && Says(m, a, p.Key(), v);
  }

  /** A dependency pinned to a release resolves to it again exactly when it is still there. */
  lemma PinHolds(world: World, dependency: RegistryDependency, r: DependencyResolution)
    requires r.Registry?
    requires dependency.package == r.package && dependency.locked == Some(Pin(r.version, r.digest))
    ensures StillThere(world, r) ==> ResolveOne(world, dependency) == Ok(Release(r.version, r.digest))
    ensures Honest(world) && ResolveOne(world, dependency) == Ok(Release(r.version, r.digest)) ==> StillThere(world, r)
  {
    if Honest(world) && ResolveOne(world, dependency) == Ok(Release(r.version, r.digest)) {
      ResolvesToExactly(world, dependency, Release(r.version, r.digest));
    }
  }

  /** Every registry resolution of a run is still there. */
  ghost predicate AllStillThere(world: World, m: ResolutionMap) {
    forall n :: n in m && m[n].Registry? ==> StillThere(world, m[n])
  }

  /** A dependency of the repeated run is pinned to what the first run made of it. */
  lemma RepeatsOne(world: World, env: Env, env': Env, s: State, t: State, m: ResolutionMap, n: PackageRef)
    requires OnePerKey(env'.lock) && Generated(m, env'.lock) && EntriesAgree(m) && env.config == env'.config
    requires OutcomeOf(world, env, s, m) && SameButPins(s, t) && AllPinnedBy(env', t)
    requires n in t.dependencies
    ensures n in m && m[n].Registry? && t.dependencies[n].package == m[n].package
    ensures t.dependencies[n].locked == Some(Pin(m[n].version, m[n].digest))
  {
    AgreedLookup(m, env'.lock, n);
    assert PinnedBy(env', n, t.dependencies[n]);
  }

  /**
   Running again with the lock just produced gives the same resolutions exactly when the locked releases
   are still there, whatever else has been released in the meantime, and also with renamed packages.
   */
  lemma RelockFixedPoint(world: World, world': World, env: Env, adds: seq<Addition>, lock: LockSet)
    requires OnePerKey(env.lock) && AllDefault(env.config, adds) && Relocks(world, env, adds, lock)
    ensures var m := Outcome(world, env, adds).value;
            var again := Outcome(world', Env(env.config, lock), adds);
            && (AllStillThere(world', m) ==> again == Some(m))
            && (Honest(world') && again == Some(m) ==> AllStillThere(world', m))
  {
    var m := Outcome(world, env, adds).value;
    if AllStillThere(world', m) {
      StillThereRepeats(world, world', env, adds, lock);
    }
    if Honest(world') && Outcome(world', Env(env.config, lock), adds) == Some(m) {
      RepeatedStillThere(world, world', env, adds, lock);
    }
  }

  lemma StillThereRepeats(world: World, world': World, env: Env, adds: seq<Addition>, lock: LockSet)
    requires OnePerKey(env.lock) && AllDefault(env.config, adds) && Relocks(world, env, adds, lock)
    requires AllStillThere(world', Outcome(world, env, adds).value)
    ensures Outcome(world', Env(env.config, lock), adds) == Outcome(world, env, adds)
  {
    var env' := Env(env.config, lock);
    AddAllSameButPins(env, env', adds);
    AddAllPinned(env', adds);
    OutcomeShape(world, env, adds);
    OutcomeAgrees(world, env, adds);
    var s, t := AddAll(env, adds).0, AddAll(env', adds).0;
    var m := Outcome(world, env, adds).value;
    forall n | n in t.dependencies
      ensures ResolveOne(world', t.dependencies[n]).Ok?
      ensures RegistryResolution(world', env.config, t, n) == RegistryResolution(world, env.config, s, n)
    {
      RepeatsOne(world, env, env', s, t, m, n);
      PinHolds(world', t.dependencies[n], m[n]);
    }
    assert ResolveAll(world', env.config, t) == ResolveAll(world, env.config, s);
  }

  lemma RepeatedStillThere(world: World, world': World, env: Env, adds: seq<Addition>, lock: LockSet)
    requires OnePerKey(env.lock) && AllDefault(env.config, adds) && Relocks(world, env, adds, lock)
    requires Honest(world') && Outcome(world', Env(env.config, lock), adds) == Outcome(world, env, adds)
    ensures AllStillThere(world', Outcome(world, env, adds).value)
  {
    var env' := Env(env.config, lock);
    AddAllSameButPins(env, env', adds);
    AddAllPinned(env', adds);
    OutcomeShape(world, env, adds);
    OutcomeShape(world', env', adds);
    OutcomeAgrees(world, env, adds);
    var s, t := AddAll(env, adds).0, AddAll(env', adds).0;
    var m := Outcome(world, env, adds).value;
    forall n | n in m && m[n].Registry?
      ensures StillThere(world', m[n])
    {
      RepeatsOne(world, env, env', s, t, m, n);
      PinHolds(world', t.dependencies[n], m[n]);
    }
  }

  /**
   The version aimed at leads to a release: the greatest that is listed and equal to it up to build
   metadata is that release, it can be fetched, and a listed pin has its digest.
   */
  predicate LeadsTo(world: World, d: RegistryDependency, release: Release) {
    var listing := world.listing(d.package);
    && listing.Some?
    && var aim := Aim(listing.value, d.version, d.locked);
    && aim.Some?
    && var latest := FindLatestRelease(listing.value, ExactReq(aim.value));
    && latest.Some? && latest.value.version == release.version
    && world.release(d.package, release.version) == Some(release)
    && (PinListed(listing.value, d.locked) ==> d.locked.value.digest == release.digest)
  }

  /** A dependency, pinned or not, resolves to a release exactly when the version aimed at leads to it. */
  lemma ResolvesToExactly(world: World, d: RegistryDependency, release: Release)
    requires Honest(world)
    ensures ResolveOne(world, d) == Ok(release) <==> LeadsTo(world, d, release)
  {
    if ResolveOne(world, d) == Ok(release) {
      ResolvedAim(world, d);
      ResolvedRelease(world, d);
      ChosenByAim(world.listing(d.package).value, d);
    }
    if LeadsTo(world, d, release) {
      var versions := world.listing(d.package).value;
      ChosenByAim(versions, d);
      if d.locked.Some? && FindLatestRelease(versions, ExactReq(d.locked.value.version)).Some? {
        ExactReqMatches(d.locked.value.version,
                        FindLatestRelease(versions, ExactReq(d.locked.value.version)).value.version);
      }
    }
  }

  /** Every dependency leads to what was resolved for its name. */
  ghost predicate AllLeadBack(world: World, deps: map<PackageRef, RegistryDependency>, m: ResolutionMap) {
    forall n :: n in deps ==> LeadsBack(world, deps[n], n, m)
  }

  predicate LeadsBack(world: World, d: RegistryDependency, n: PackageRef, m: ResolutionMap) {
    n in m && m[n].Registry? && LeadsTo(world, d, Release(m[n].version, m[n].digest))
  }

  /**
   Exactly when a repeated run gives the same resolutions, for all additions, whatever registries they
   name and whatever lock they now find: when every dependency, with the pin it has under the registry it
   asks for, leads to what was resolved before.
   */
  lemma RelockFixedExactly(world: World, world': World, env: Env, env': Env, adds: seq<Addition>)
    requires OnePerKey(env.lock) && OnePerKey(env'.lock) && env.config == env'.config && Honest(world')
    requires Outcome(world, env, adds).Some?
    ensures Outcome(world', env', adds) == Outcome(world, env, adds) <==>
            AllLeadBack(world', AddAll(env', adds).0.dependencies, Outcome(world, env, adds).value)
  {
    AddAllSameButPins(env, env', adds);
    OutcomeShape(world, env, adds);
    var s, t := AddAll(env, adds).0, AddAll(env', adds).0;
    var m := Outcome(world, env, adds).value;
    if AllLeadBack(world', t.dependencies, m) {
      forall n | n in t.dependencies
        ensures ResolveOne(world', t.dependencies[n]).Ok?
        ensures RegistryResolution(world', env.config, t, n) == RegistryResolution(world, env.config, s, n)
      {
        assert LeadsBack(world', t.dependencies[n], n, m);
        ResolvesToExactly(world', t.dependencies[n], Release(m[n].version, m[n].digest));
      }
      assert ResolveAll(world', env.config, t) == ResolveAll(world, env.config, s);
    }
    if Outcome(world', env', adds) == Some(m) {
      OutcomeShape(world', env', adds);
      forall n | n in t.dependencies
        ensures LeadsBack(world', t.dependencies[n], n, m)
      {
        ResolvesToExactly(world', t.dependencies[n], Release(m[n].version, m[n].digest));
      }
    }
  }

  /** All locks generated from agreeing resolutions answer every lookup alike. */
  lemma AgreedLocksAnswerAlike(m: ResolutionMap, lock: LockSet, lock': LockSet, k: Key, q: VersionReq)
    requires Generated(m, lock) && Generated(m, lock') && EntriesAgree(m)
    ensures Lookup(lock, k, q) == Lookup(lock', k, q)
  {
    AnswerHasSource(m, lock, k, q);
    AnswerHasSource(m, lock', k, q);
  }

  predicate IsFor(r: DependencyResolution, k: Key, q: VersionReq) {
    r.Registry? && r.Key() == k && r.requirement == q
  }

  /** An answer of the lock is the entry of some resolution, and a resolution's entry is the answer. */
  lemma AnswerHasSource(m: ResolutionMap, lock: LockSet, k: Key, q: VersionReq)
    requires Generated(m, lock) && EntriesAgree(m)
    ensures Lookup(lock, k, q).Some? <==> exists n :: n in m && IsFor(m[n], k, q)
    ensures forall n :: n in m && IsFor(m[n], k, q) ==> Lookup(lock, k, q) == Some(Entry(m[n]))
  {
    if Lookup(lock, k, q).Some? {
      var p, v := Get(lock, k).value, Lookup(lock, k, q).value;
      assert HasSource(m, m.Keys, p.Key(), v);
      var a :| a in m.Keys && Says(m, a, p.Key(), v);
    }
    forall n | n in m && IsFor(m[n], k, q)
      ensures Lookup(lock, k, q) == Some(Entry(m[n]))
    {
      AgreedLookup(m, lock, n);
    }
  }

  /** The lock of the repeated run answers every lookup as the one before. */
  lemma RelockAnswersAlike(world: World, world': World, env: Env, adds: seq<Addition>, lock: LockSet, lock': LockSet,
          k: Key, q: VersionReq)
    requires OnePerKey(env.lock) && AllDefault(env.config, adds) && Relocks(world, env, adds, lock)
    requires AllStillThere(world', Outcome(world, env, adds).value)
    requires Relocks(world', Env(env.config, lock), adds, lock')
    ensures Lookup(lock, k, q) == Lookup(lock', k, q)
  {
    RelockFixedPoint(world, world', env, adds, lock);
    OutcomeAgrees(world, env, adds);
    AgreedLocksAnswerAlike(Outcome(world, env, adds).value, lock, lock', k, q);
  }

  /** Without renaming it is the very same lock, so a publish that compares it with the one before goes on. */
  lemma RelockSameLock(world: World, world': World, env: Env, adds: seq<Addition>, lock: LockSet, lock': LockSet)
    requires OnePerKey(env.lock) && AllDefault(env.config, adds) && AllUnrenamed(adds)
    requires Relocks(world, env, adds, lock)
    requires AllStillThere(world', Outcome(world, env, adds).value)
    requires Relocks(world', Env(env.config, lock), adds, lock')
    ensures lock' == lock
  {
    RelockFixedPoint(world, world', env, adds, lock);
    AddAllKeepsNames(env, adds);
    OutcomeShape(world, env, adds);
    PlainLockUnique(Outcome(world, env, adds).value, lock, lock');
  }

  /** There is only one lock to generate from unrenamed resolutions. */
  lemma PlainLockUnique(m: ResolutionMap, lock: LockSet, lock': LockSet)
    requires Generated(m, lock) && Generated(m, lock')
    requires forall a :: a in m && m[a].Registry? ==> m[a].package == a
    ensures lock == lock'
  {
    forall p
      ensures p in lock <==> p in lock'
    {
      PlainLockMember(m, lock, p);
      PlainLockMember(m, lock', p);
    }
  }

  lemma PlainLockMember(m: ResolutionMap, lock: LockSet, p: LockedPackage)
    requires Generated(m, lock)
    requires forall a :: a in m && m[a].Registry? ==> m[a].package == a
    ensures p in lock <==>
        p.name in m && m[p.name].Registry? && p == LockedPackage(p.name, m[p.name].registry, [Entry(m[p.name])])
  {
    if p in lock {
      PlainLockShape(m, lock, p);
    }
    if p.name in m && m[p.name].Registry? && p == LockedPackage(p.name, m[p.name].registry, [Entry(m[p.name])]) {
      var n := p.name;
      AgreedLookup(m, lock, n);
      PlainLockShape(m, lock, Get(lock, m[n].Key()).value);
    }
  }

  lemma PlainLockShape(m: ResolutionMap, lock: LockSet, q: LockedPackage)
    requires Generated(m, lock) && q in lock
    requires forall a :: a in m && m[a].Registry? ==> m[a].package == a
    ensures q.name in m && m[q.name].Registry? && q == LockedPackage(q.name, m[q.name].registry, [Entry(m[q.name])])
  {
    forall i | 0 <= i < |q.versions|
      ensures q.name in m && m[q.name].Registry? && m[q.name].registry == q.registry
      ensures q.versions[i] == Entry(m[q.name])
    {
      assert HasSource(m, m.Keys, q.Key(), q.versions[i]);
      var a :| a in m.Keys && Says(m, a, q.Key(), q.versions[i]);
      assert m[a].package == a;
    }
    assert |q.versions| > 1 ==> q.versions[0].requirement != q.versions[1].requirement;
    assert q.versions == [q.versions[0]];
  }

  const UNCONFIGURED: Config := _ => None

  lemma TwoRequests(env: Env, a: PackageRef, b: PackageRef, forA: RegistryPackage, forB: RegistryPackage)
    requires OnePerKey(env.lock) && a != b
    ensures AddAll(env, [Addition(a, Package(forA)), Addition(b, Package(forB))]) ==
            (State(map[a := Requested(env, a, forA), b := Requested(env, b, forB)], map[]), Added)
  {
    var adds := [Addition(a, Package(forA)), Addition(b, Package(forB))];
    assert adds[..1] == [adds[0]] && adds[..1][..0] == [];
    assert AddAll(env, adds[..1]) == (AddRequest(START, a, Requested(env, a, forA)), Added);
  }

  /** Two names for one package and requirement, resolved to different versions, conflict in the lock. */
  lemma TwoVersionsConflict(world: World, env: Env, adds: seq<Addition>, a: PackageRef, b: PackageRef)
    requires OnePerKey(env.lock) && AddAll(env, adds).1 == Added && Resolves(world, AddAll(env, adds).0)
    requires var deps := AddAll(env, adds).0.dependencies;
             && a in deps && b in deps && env.config(a) == env.config(b)
             && deps[a].package == deps[b].package && deps[a].version == deps[b].version
             && ResolveOne(world, deps[a]).value.version != ResolveOne(world, deps[b]).value.version
    ensures Outcome(world, env, adds).Some? && Conflict(Outcome(world, env, adds).value)
  {
    var st := AddAll(env, adds).0;
    var m := Outcome(world, env, adds).value;
    assert m[a] == RegistryResolution(world, env.config, st, a) && m[b] == RegistryResolution(world, env.config, st, b);
  }

  /** A lock that pins p under the registry "r" only. */
  function LockUnder(p: PackageRef, v: Version, d: ContentDigest): LockSet {
    {LockedPackage(p, Some("r"), [LockedPackageVersion(ANY_VERSION, v, d)])}
  }

  lemma LockUnderPins(p: PackageRef, v: Version, d: ContentDigest)
    requires v.Stable()
    ensures LockSound(LockUnder(p, v, d))
    ensures Locked(LockUnder(p, v, d), (p, Some("r")), ANY_VERSION) == Some(Pin(v, d))
    ensures Locked(LockUnder(p, v, d), (p, None), ANY_VERSION) == None
  {
  }

  /** A registry that lists two versions of every package. */
  function WorldOf(v: Version, w: Version, d: ContentDigest): World {
    World(_ => Some([VersionInfo(v, false), VersionInfo(w, false)]), (_, u) => Some(Release(u, d)))
  }

  lemma WorldOfResolves(p: PackageRef, v: Version, w: Version, d: ContentDigest)
    requires v.Stable() && w.Stable() && Lt(v, w) && !v.SameUpToBuild(w)
    ensures ResolveOne(WorldOf(v, w, d), RegistryDependency(p, ANY_VERSION, Some(Pin(v, d)))) == Ok(Release(v, d))
    ensures ResolveOne(WorldOf(v, w, d), RegistryDependency(p, ANY_VERSION, None)) == Ok(Release(w, d))
    ensures v != w
  {
    PinnedAgainstFree([VersionInfo(v, false), VersionInfo(w, false)], v, w);
  }

  /**
   With a registry named explicitly the assertion can fire: one name is pinned under that registry, the
   other is not pinned at all, and both are recorded under the configured one.
   */
  lemma ExplicitRegistryConflicts(a: PackageRef, b: PackageRef, p: PackageRef, v: Version, w: Version, d: ContentDigest)
    requires a != b && v.Stable() && w.Stable() && Lt(v, w) && !v.SameUpToBuild(w)
    ensures LockSound(LockUnder(p, v, d)) && Honest(WorldOf(v, w, d))
    ensures var env := Env(UNCONFIGURED, LockUnder(p, v, d));
            var adds := [Addition(a, Package(RegistryPackage(Some(p), ANY_VERSION, Some("r")))),
                         Addition(b, Package(RegistryPackage(Some(p), ANY_VERSION, None)))];
            Outcome(WorldOf(v, w, d), env, adds).Some? && Conflict(Outcome(WorldOf(v, w, d), env, adds).value)
  {
    var env := Env(UNCONFIGURED, LockUnder(p, v, d));
    var forA, forB := RegistryPackage(Some(p), ANY_VERSION, Some("r")), RegistryPackage(Some(p), ANY_VERSION, None);
    LockUnderPins(p, v, d);
    TwoRequests(env, a, b, forA, forB);
    WorldOfResolves(p, v, w, d);
    TwoVersionsConflict(WorldOf(v, w, d), env, [Addition(a, Package(forA)), Addition(b, Package(forB))], a, b);
  }

  /**
   Nor does the lock hold a package with a registry named explicitly: it is locked under the configured
   registry but searched under the one named, so the next run takes what was released since.
   */
  lemma ExplicitRegistryMoves(n: PackageRef, v: Version, w: Version, d: ContentDigest, lock: LockSet)
    requires v.Stable() && w.Stable() && Lt(v, w) && !v.SameUpToBuild(w)
    requires Relocks(OnlyOld(v, d), Env(UNCONFIGURED, {}), [FromR(n)], lock)
    ensures var first := Outcome(OnlyOld(v, d), Env(UNCONFIGURED, {}), [FromR(n)]).value;
            && first == map[n := Registry(n, n, None, ANY_VERSION, v, d)]
            && AllStillThere(WorldOf(v, w, d), first)
            && Outcome(WorldOf(v, w, d), Env(UNCONFIGURED, lock), [FromR(n)]) ==
               Some(map[n := Registry(n, n, None, ANY_VERSION, w, d)])
  {
    OneRequest(OnlyOld(v, d), {}, n, v, d);
    assert Locked(lock, (n, Some("r")), ANY_VERSION) == None;
    WorldOfResolves(n, v, w, d);
    OneRequest(WorldOf(v, w, d), lock, n, w, d);
  }

  /** A registry that lists one version of every package. */
  function OnlyOld(v: Version, d: ContentDigest): World {
    World(_ => Some([VersionInfo(v, false)]), (_, u) => Some(Release(u, d)))
  }

  function FromR(n: PackageRef): Addition {
    Addition(n, Package(RegistryPackage(None, ANY_VERSION, Some("r"))))
  }

  lemma OneRequest(world: World, lock: LockSet, n: PackageRef, v: Version, d: ContentDigest)
    requires OnePerKey(lock) && Locked(lock, (n, Some("r")), ANY_VERSION) == None
    requires ResolveOne(world, RegistryDependency(n, ANY_VERSION, None)) == Ok(Release(v, d))
    ensures Outcome(world, Env(UNCONFIGURED, lock), [FromR(n)]) ==
            Some(map[n := Registry(n, n, None, ANY_VERSION, v, d)])
  {
    var env := Env(UNCONFIGURED, lock);
    assert [FromR(n)][..0] == [];
    var st := State(map[n := RegistryDependency(n, ANY_VERSION, None)], map[]);
    assert AddAll(env, [FromR(n)]) == (st, Added);
    assert ResolveAll(world, UNCONFIGURED, st) == map[n := Registry(n, n, None, ANY_VERSION, v, d)];
  }

  lemma PinnedAgainstFree(versions: seq<VersionInfo>, v: Version, w: Version)
    requires v.Stable() && w.Stable() && Lt(v, w) && !v.SameUpToBuild(w)
    requires versions == [VersionInfo(v, false), VersionInfo(w, false)]
    ensures FindLatestRelease(versions, ExactReq(v)) == Some(VersionInfo(v, false))
    ensures FindLatestRelease(versions, ANY_VERSION) == Some(VersionInfo(w, false))
    ensures v != w
  {
    ExactReqMatches(v, v);
    ExactReqMatches(v, w);
    VersionOrder(v, w, v);
    LatestIsGreatest(versions, ANY_VERSION, VersionInfo(w, false));
    LatestIsGreatest(versions, ExactReq(v), VersionInfo(v, false));
  }
}
