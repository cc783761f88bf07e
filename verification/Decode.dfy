/**
 Ordering decoded dependencies: the depth-first `visit`, and `decode_dependencies` on top of it.
 */
module Decode {
  import opened Wrappers
  import opened Versions
  import opened PackageRefs
  import opened Digraph
  import opened Sorting

  datatype PackageName = PackageName(namespace: string, name: string, version: Option<Version>)

  /** A decoded dependency; `resolution` is the name it was asked for under. */
  datatype Decoded =
    | Wit(resolution: PackageRef, name: PackageName, foreignDeps: seq<PackageName>)
    | Wasm(resolution: PackageRef, name: PackageName, packages: seq<PackageName>)
  {
    /**
     The package names `visit` looks at, in order: the foreign dependencies of a WIT package; for a
     Wasm file every package it carries except those with its own namespace and name, whatever their
     version.
     */
    function Mentions(): seq<PackageName> {
      match this
      case Wit(_, _, foreignDeps) => foreignDeps
      case Wasm(_, _, packages) => Others(packages)
    }

    function Others(packages: seq<PackageName>): (others: seq<PackageName>)
      requires Wasm?
      ensures forall n :: n in others <==> n in packages && !(n.namespace == name.namespace && n.name == name.name)
    {
      if packages == [] then []
      else if packages[0].namespace == name.namespace && packages[0].name == name.name then Others(packages[1..])
      else [packages[0]] + Others(packages[1..])
    }
  }

  type DepMap = map<PackageName, Decoded>

  type EdgeSet = set<(PackageName, PackageName)>

  predicate Keyed(deps: DepMap) {
    forall n :: n in deps ==> deps[n].name == n
  }

  /** The dependency graph restricted to known packages. */
  function Edges(deps: DepMap): EdgeSet {
    set x, y | x in deps && y in deps[x].Mentions() && y in deps :: (x, y)
  }

  /** An edge, by the fields of the packages that it joins. */
  lemma EdgeByFields(deps: DepMap, x: PackageName, y: PackageName)
    ensures (x, y) in Edges(deps) <==>
            && x in deps && y in deps
            && match deps[x]
               case Wit(_, _, foreignDeps) => y in foreignDeps
               case Wasm(_, name, packages) => y in packages && (y.namespace != name.namespace || y.name != name.name)
  {
  }

  datatype DecodeError =
    | Duplicate(previous: PackageName, dependency: PackageRef)
    | Cycle(name: PackageName, other: PackageRef)

  /** The error names a package and a dependency that refers to it and that it leads back to. */
  ghost predicate RealCycle(deps: DepMap, name: PackageName, other: PackageRef) {
    exists x :: x in deps && deps[x].resolution == other && (x, name) in Edges(deps) && Reaches(Edges(deps), name, x)
  }

  // ---------- the search ----------

  /** `order` is a topological order of the packages finished so far. */
  ghost predicate Sound(deps: DepMap, order: seq<PackageName>) {
    Topological(Edges(deps), order) && forall n :: n in order ==> n in deps
  }

  /**
   The calls in progress: a path from the root of the search to the package at hand. All of it
   but the root is being visited, and nothing on it but its last package can be finished.
   */
  ghost predicate OnTrail(edges: EdgeSet, order: seq<PackageName>, visiting: set<PackageName>,
          trail: seq<PackageName>) {
    && IsPath(edges, trail)
    && visiting == (set n | n in trail[1..])
    && forall i :: 0 <= i < |trail| - 1 ==> trail[i] !in order
  }

  lemma EnterTrail(edges: EdgeSet, order: seq<PackageName>, visiting: set<PackageName>, trail: seq<PackageName>,
          name: PackageName)
    requires OnTrail(edges, order, visiting, trail)
    requires trail[|trail| - 1] !in order && (trail[|trail| - 1], name) in edges
    ensures OnTrail(edges, order, visiting + {name}, trail + [name])
  {
    JoinPaths(edges, trail, [name]);
    assert (trail + [name])[1..] == trail[1..] + [name];
  }

  lemma LeaveTrail(edges: EdgeSet, order: seq<PackageName>, visiting: set<PackageName>, trail: seq<PackageName>,
          name: PackageName)
    requires trail != [] && name !in visiting && visiting == (set n | n in trail[1..])
    requires OnTrail(edges, order, visiting + {name}, trail + [name])
    ensures OnTrail(edges, order, visiting, trail) && trail[|trail| - 1] !in order
  {
    var longer := trail + [name];
    CutPath(edges, longer, 0, |trail|);
    assert longer[0..|trail|] == trail;
    forall i | 0 <= i < |trail|
      ensures trail[i] !in order
    {
      assert longer[i] == trail[i];
    }
  }

  /** A package that is being visited leads to the package at hand. */
  lemma TrailLeads(edges: EdgeSet, order: seq<PackageName>, visiting: set<PackageName>, trail: seq<PackageName>,
          name: PackageName)
    requires OnTrail(edges, order, visiting, trail) && name in visiting
    ensures Reaches(edges, name, trail[|trail| - 1])
  {
    var k :| 0 <= k < |trail[1..]| && trail[1..][k] == name;
    CutPath(edges, trail, k + 1, |trail|);
  }

  /**
   The root is never marked as being visited, so a search may enter it a second time. That second
   visit cannot finish: it mentions the first package of the trail, which is being visited.
   */
  lemma NotBackAtRoot(edges: EdgeSet, order: seq<PackageName>, visiting: set<PackageName>, trail: seq<PackageName>)
    requires OnTrail(edges, order, visiting, trail)
    requires forall e :: e in edges && e.0 == trail[|trail| - 1] ==> e.1 !in visiting
    ensures |trail| > 1 ==> trail[0] != trail[|trail| - 1]
  {
    if |trail| > 1 {
      assert (trail[0], trail[1]) in edges;
      assert trail[1] == trail[1..][0];
    }
  }

  /** Finishing the package at hand. */
  lemma FinishTrail(edges: EdgeSet, order: seq<PackageName>, visiting: set<PackageName>,
          trail: seq<PackageName>, x: PackageName)
    requires Topological(edges, order) && OnTrail(edges, order, visiting, trail)
    requires trail[|trail| - 1] == x && x !in order && (|trail| > 1 ==> x !in trail[1..|trail| - 1])
    requires forall e :: e in edges && e.0 == x ==> e.1 in order && e.1 !in visiting
    ensures Topological(edges, order + [x]) && OnTrail(edges, order + [x], visiting, trail)
  {
    NotBackAtRoot(edges, order, visiting, trail);
    ExtendTopological(edges, order, x);
    forall i | 0 <= i < |trail| - 1
      ensures trail[i] != x
    {
      if i > 0 {
        assert trail[i] == trail[1..|trail| - 1][i - 1];
      }
    }
  }

  /** The two sets that the recursion updates in place. */
  class Visitor {
    const deps: DepMap
    var order: seq<PackageName>
    var visiting: set<PackageName>

    constructor (deps: DepMap)
      ensures this.deps == deps && order == [] && visiting == {}
    {
      this.deps := deps;
      order, visiting := [], {};
    }

    method Visit(dep: Decoded, ghost trail: seq<PackageName>) returns (r: Result<(), DecodeError>)
      requires Keyed(deps) && dep.name in deps && deps[dep.name] == dep
      requires Sound(deps, order) && OnTrail(Edges(deps), order, visiting, trail) && trail[|trail| - 1] == dep.name
      requires |trail| > 1 ==> dep.name !in trail[1..|trail| - 1]
      modifies this
      ensures r.Ok? ==> visiting == old(visiting) && old(order) <= order && dep.name in order
      ensures r.Ok? ==> Sound(deps, order) && OnTrail(Edges(deps), order, visiting, trail)
      ensures r.Err? ==> r.error.Cycle? && RealCycle(deps, r.error.name, r.error.other)
      decreases deps.Keys - visiting
    {
      if dep.name in order {
        return Ok(());
      }
      var mentions := dep.Mentions();
      var i := 0;
      while i < |mentions|
        invariant 0 <= i <= |mentions|
        invariant visiting == old(visiting) && old(order) <= order
        invariant Sound(deps, order) && OnTrail(Edges(deps), order, visiting, trail) && dep.name !in order
        invariant forall j :: 0 <= j < i && mentions[j] in deps ==> mentions[j] in order && mentions[j] !in visiting
      {
        var name := mentions[i];
        if name in deps {
          assert (dep.name, name) in Edges(deps);
          if name in visiting {
            TrailLeads(Edges(deps), order, visiting, trail, name);
            return Err(Cycle(name, dep.resolution));
          }
          EnterTrail(Edges(deps), order, visiting, trail, name);
          assert (trail + [name])[1..|trail|] == trail[1..];
          visiting := visiting + {name};
          r := Visit(deps[name], trail + [name]);
          if r.Err? {
            return;
          }
          assert name in visiting;
          visiting := visiting - {name};
          assert visiting == old(visiting);
          LeaveTrail(Edges(deps), order, visiting, trail, name);
        }
        i := i + 1;
      }
      forall e | e in Edges(deps) && e.0 == dep.name
        ensures e.1 in order && e.1 !in visiting
      {
        var j :| 0 <= j < |mentions| && mentions[j] == e.1;
      }
      assert dep.name !in order;
      FinishTrail(Edges(deps), order, visiting, trail, dep.name);
      order := order + [dep.name];
      return Ok(());
    }
  }

  // ---------- the decoded map ----------

  predicate DistinctNames(found: seq<Decoded>) {
    forall i, j :: 0 <= i < j < |found| ==> found[i].name != found[j].name
  }

  /** The map from package name to decoded package. */
  function ByName(found: seq<Decoded>): (deps: DepMap)
    requires DistinctNames(found)
    ensures forall d :: d in found ==> d.name in deps && deps[d.name] == d
    ensures forall n :: n in deps ==> deps[n] in found && deps[n].name == n
  {
    map d | d in found :: d.name := d
  }

  function Names(found: seq<Decoded>): (names: seq<PackageName>)
    ensures |names| == |found| && forall i :: 0 <= i < |found| ==> names[i] == found[i].name
  {
    seq(|found|, i requires 0 <= i < |found| => found[i].name)
  }

  /** Position of `n` in `order`; its length when `n` is missing. */
  function IndexOf(order: seq<PackageName>, n: PackageName): (i: nat)
    ensures i <= |order|
    ensures i < |order| ==> order[i] == n
    ensures forall j :: 0 <= j < i ==> order[j] != n
  {
    if order == [] || order[0] == n then 0 else 1 + IndexOf(order[1..], n)
  }

  function ByOrder(order: seq<PackageName>): (Decoded, Decoded) -> bool {
    (a: Decoded, b: Decoded) => IndexOf(order, a.name) <= IndexOf(order, b.name)
  }

  // ---------- decode_dependencies ----------

  /** Every package comes after all the known packages that it has an edge to. */
  ghost predicate DependenciesFirst(found: seq<Decoded>, sorted: seq<Decoded>)
    requires DistinctNames(found)
  {
    Topological(Edges(ByName(found)), Names(sorted))
  }

  lemma ByOrderTotal(order: seq<PackageName>)
    ensures TotalPreorder(ByOrder(order))
  {
  }

  /** Sorting the packages by their position in a full topological order is again one. */
  lemma SortedTopological(edges: EdgeSet, order: seq<PackageName>, found: seq<Decoded>, sorted: seq<Decoded>)
    requires Topological(edges, order)
    requires DistinctNames(found) && forall d :: d in found ==> d.name in order
    requires forall e :: e in edges ==> exists d :: d in found && d.name == e.1
    requires SortedBy(ByOrder(order), sorted) && multiset(sorted) == multiset(found)
    ensures Topological(edges, Names(sorted))
  {
    var names := Names(sorted);
    DistinctNamesPermute(found, sorted);
    forall i, e | 0 <= i < |names| && e in edges && e.0 == names[i]
      ensures e.1 in names[..i]
    {
      assert sorted[i] in multiset(found);
      assert names[i] in order;
      var k := IndexOf(order, names[i]);
      assert e.1 in order[..k];
      var m :| 0 <= m < k && order[m] == e.1;
      var d :| d in found && d.name == e.1;
      assert d in multiset(sorted);
      var j :| 0 <= j < |sorted| && sorted[j] == d;
      assert IndexOf(order, sorted[j].name) <= m;
      assert names[..i][j] == e.1;
    }
  }

  lemma DistinctNamesPermute(found: seq<Decoded>, sorted: seq<Decoded>)
    requires DistinctNames(found) && multiset(sorted) == multiset(found)
    ensures Distinct(Names(sorted))
  {
    DistinctPermutes(found, sorted);
    forall i, j | 0 <= i < j < |sorted|
      ensures Names(sorted)[i] != Names(sorted)[j]
    {
      assert sorted[i] in multiset(found) && sorted[j] in multiset(found);
      var k :| 0 <= k < |found| && found[k] == sorted[i];
      var l :| 0 <= l < |found| && found[l] == sorted[j];
    }
  }

  /** The error names a package, and a dependency that decodes to it after another one did. */
  ghost predicate RealDuplicate(found: seq<Decoded>, previous: PackageName, dependency: PackageRef) {
    exists i, j ::
      0 <= i < j < |found| && found[i].name == found[j].name == previous && found[j].resolution == dependency
  }

  /** The first loop: the decoded packages by name, unless two share one. */
  method Collect(found: seq<Decoded>) returns (r: Result<DepMap, DecodeError>)
    ensures r.Ok? <==> DistinctNames(found)
    ensures r.Ok? ==> r.value == ByName(found)
    ensures r.Err? ==> r.error.Duplicate? && RealDuplicate(found, r.error.previous, r.error.dependency)
  {
    var deps: DepMap := map[];
    ghost var at: map<PackageName, nat> := map[];
    var i := 0;
    while i < |found|
      invariant 0 <= i <= |found| && deps.Keys == at.Keys
      invariant forall n :: n in at ==> at[n] < i && found[at[n]] == deps[n] && deps[n].name == n
      invariant forall j :: 0 <= j < i ==> found[j].name in at && at[found[j].name] == j
    {
      var d := found[i];
      if d.name in deps {
        assert found[at[d.name]].name == d.name;
        return Err(Duplicate(d.name, d.resolution));
      }
      deps, at := deps[d.name := d], at[d.name := i];
      i := i + 1;
    }
    return Ok(deps);
  }

  /**
   Decoding, given what each dependency decodes to. It fails exactly when two dependencies decode to
   the same package or when the packages depend on each other in a cycle; a reported cycle is real;
   and the answer is the same packages with dependencies first. In terms of the packages themselves: a
   WIT package comes after what it refers to, a Wasm file after the packages it carries, but for those
   with its own namespace and name; and there is an answer if numbers can fall along all of these.
   */
  method DecodeDependencies(found: seq<Decoded>) returns (r: Result<seq<Decoded>, DecodeError>)
    ensures r.Ok? ==> forall i, j :: 0 <= i < |r.value| && 0 <= j < |r.value| ==>
        && (r.value[i].Wit? && r.value[j].name in r.value[i].foreignDeps ==> j < i)
        && (r.value[i].Wasm? && r.value[j].name in r.value[i].packages
            && (r.value[j].name.namespace != r.value[i].name.namespace || r.value[j].name.name != r.value[i].name.name)
            ==> j < i)
    ensures r.Ok? <==>
            && (forall i, j :: 0 <= i < j < |found| ==> found[i].name != found[j].name)
            && exists rank :: FallsAlong(found, rank)
    ensures r.Err? && r.error.Cycle? ==>
        exists d :: d in found && d.resolution == r.error.other && Needs(d, r.error.name)
    ensures (r.Err? && r.error.Duplicate?) <==> !DistinctNames(found)
    ensures DistinctNames(found) ==> (r.Ok? <==> Acyclic(Edges(ByName(found))))
    ensures r.Ok? ==> multiset(r.value) == multiset(found) && DependenciesFirst(found, r.value)
    ensures r.Err? && r.error.Duplicate? ==> RealDuplicate(found, r.error.previous, r.error.dependency)
    ensures r.Err? && r.error.Duplicate? ==> exists i, j ::
              && 0 <= i < j < |found| && found[i].name == found[j].name == r.error.previous
              && found[j].resolution == r.error.dependency
    ensures r.Err? && r.error.Cycle? ==> DistinctNames(found) && RealCycle(ByName(found), r.error.name, r.error.other)
  {
    var collected := Collect(found);
    if collected.Err? {
      return Err(collected.error);
    }
    FallsExactly(found);
    var deps := collected.value;
    var search := new Visitor(deps);
    var i := 0;
    while i < |found|
      invariant 0 <= i <= |found|
      invariant search.deps == deps && search.visiting == {}
      invariant Sound(deps, search.order)
      invariant forall j :: 0 <= j < i ==> found[j].name in search.order
    {
      var visited := search.Visit(found[i], [found[i].name]);
      if visited.Err? {
        CycleRefutes(deps, visited.error.name, visited.error.other);
        ghost var x :| x in deps && deps[x].resolution == visited.error.other
                       && (x, visited.error.name) in Edges(deps);
        EdgeByFields(deps, x, visited.error.name);
        assert deps[x] in found && Needs(deps[x], visited.error.name);
        return Err(visited.error);
      }
      i := i + 1;
    }
    assert search.visiting == {};
    TopologicalAcyclic(Edges(deps), search.order);
    var sorted := Sort(ByOrder(search.order), found);
    ByOrderTotal(search.order);
    SortSorts(ByOrder(search.order), found);
    SortedTopological(Edges(deps), search.order, found, sorted);
    FirstByFields(found, sorted);
    return Ok(sorted);
  }

  /** What a package needs: all it refers to, but for packages with the namespace and name of a Wasm file. */
  predicate Needs(d: Decoded, n: PackageName) {
    match d
    case Wit(_, _, foreignDeps) => n in foreignDeps
    case Wasm(_, name, packages) => n in packages && (n.namespace != name.namespace || n.name != name.name)
  }

  /** Numbers that fall from every package to the packages found that it needs. */
  ghost predicate FallsAlong(found: seq<Decoded>, rank: map<PackageName, nat>) {
    && (forall d :: d in found ==> d.name in rank)
    && forall d, e :: d in found && e in found && Needs(d, e.name) ==> rank[e.name] < rank[d.name]
  }

  /** There is no cycle exactly when such numbers exist. */
  lemma FallsExactly(found: seq<Decoded>)
    requires DistinctNames(found)
    ensures Acyclic(Edges(ByName(found))) <==> exists rank :: FallsAlong(found, rank)
  {
    var deps := ByName(found);
    RanksExactly(Edges(deps), deps.Keys);
    if rank :| Ranks(Edges(deps), deps.Keys, rank) {
      RanksFall(found, rank);
    }
    if rank :| FallsAlong(found, rank) {
      FallingRanks(found, rank, map n | n in deps :: rank[n]);
    }
  }

  lemma RanksFall(found: seq<Decoded>, rank: map<PackageName, nat>)
    requires DistinctNames(found) && Ranks(Edges(ByName(found)), ByName(found).Keys, rank)
    ensures FallsAlong(found, rank)
  {
    forall d, e | d in found && e in found && Needs(d, e.name)
      ensures rank[e.name] < rank[d.name]
    {
      EdgeByFields(ByName(found), d.name, e.name);
    }
  }

  lemma FallingRanks(found: seq<Decoded>, rank: map<PackageName, nat>, rank': map<PackageName, nat>)
    requires DistinctNames(found) && FallsAlong(found, rank)
    requires rank' == map n | n in ByName(found) :: rank[n]
    ensures Ranks(Edges(ByName(found)), ByName(found).Keys, rank')
  {
    var deps := ByName(found);
    forall x, y | x in deps && y in deps && (x, y) in Edges(deps)
      ensures rank'[y] < rank'[x]
    {
      EdgeByFields(deps, x, y);
      assert Needs(deps[x], deps[y].name);
    }
  }

  lemma FirstByFields(found: seq<Decoded>, sorted: seq<Decoded>)
    requires DistinctNames(found) && multiset(sorted) == multiset(found) && DependenciesFirst(found, sorted)
    ensures forall i, j :: 0 <= i < |sorted| && 0 <= j < |sorted| ==>
        && (sorted[i].Wit? && sorted[j].name in sorted[i].foreignDeps ==> j < i)
        && (sorted[i].Wasm? && sorted[j].name in sorted[i].packages
            && (sorted[j].name.namespace != sorted[i].name.namespace || sorted[j].name.name != sorted[i].name.name)
            ==> j < i)
  {
    DistinctNamesPermute(found, sorted);
    forall i, j | 0 <= i < |sorted| && 0 <= j < |sorted| && sorted[j].name in sorted[i].Mentions()
      ensures j < i
    {
      assert sorted[i] in multiset(found) && sorted[j] in multiset(found);
      assert (sorted[i].name, sorted[j].name) in Edges(ByName(found));
      var k :| 0 <= k < i && Names(sorted)[..i][k] == Names(sorted)[j];
    }
  }

  lemma CycleRefutes(deps: DepMap, name: PackageName, other: PackageRef)
    requires RealCycle(deps, name, other)
    ensures !Acyclic(Edges(deps))
  {
    var edges := Edges(deps);
    var x :| x in deps && deps[x].resolution == other && (x, name) in edges && Reaches(edges, name, x);
    var p :| PathBetween(edges, p, name, x);
    CloseCycle(edges, p, 0);
  }
}
