/**
 The publish plan: `get_local_dependencies` builds an acyclic graph of the local packages, the plan
 holds it reversed, and the wave loop drains it.
 */
module PublishPlans {
  import opened Wrappers
  import opened VersionReqs
  import opened PackageRefs
  import opened Digraph

  /** What parsing one path gives: the package, the path and the packages it depends on. */
  datatype PackageTree = PackageTree(spec: PackageSpec, path: string, deps: set<(PackageRef, VersionReq)>)

  // ---------- the graph, by contract ----------

  datatype EdgeError = SelfLoop | ClosesCycle

  type Edges = set<(nat, nat)>

  /** A stable directed graph: node indices are never reused, removing a node removes its edges. */
  datatype DependencyGraph = DependencyGraph(nodes: map<nat, PackageSpec>, edges: Edges)
  {
    ghost predicate Valid() {
      && Acyclic(edges)
      && forall e :: e in edges ==> e.0 in nodes && e.1 in nodes
    }

    /** Adds an edge unless it is a self loop or closes a cycle. */
    function TryUpdateEdge(a: nat, b: nat): Result<DependencyGraph, EdgeError> {
      if a == b then Err(SelfLoop)
      else if HasPath(edges, b, a) then Err(ClosesCycle)
      else Ok(this.(edges := edges + {(a, b)}))
    }

    function Reversed(): DependencyGraph {
      this.(edges := Reverse(edges))
    }

    function RemoveNode(id: nat): DependencyGraph {
      DependencyGraph(nodes - {id}, set e | e in edges && e.0 != id && e.1 != id)
    }

    function RemoveAll(ids: set<nat>): DependencyGraph {
      DependencyGraph(nodes - ids, set e | e in edges && e.0 !in ids && e.1 !in ids)
    }

    /** The nodes without incoming edges. */
    function Sources(): set<nat> {
      set id | id in nodes && Incoming(id) == {}
    }

    function SourceSpecs(): set<PackageSpec> {
      set id | id in Sources() :: nodes[id]
    }

    function Incoming(id: nat): set<nat> {
      set e | e in edges && e.1 == id :: e.0
    }
  }

  /** An edge is accepted exactly when the graph stays acyclic with it. */
  lemma TryUpdateEdgeExact(g: DependencyGraph, a: nat, b: nat)
    requires g.Valid()
    ensures g.TryUpdateEdge(a, b).Ok? <==> Acyclic(g.edges + {(a, b)})
  {
    AddEdgeAcyclic(g.edges, a, b);
    HasPathExact(g.edges, b, a);
    if a == b {
      assert PathBetween(g.edges, [a], b, a);
    }
  }

  // ---------- get_local_dependencies ----------

  datatype PlanError =
    | DuplicatePackage(spec: PackageSpec)
    | DependsOnItself(package: PackageRef)
    | Cyclical(package: PackageRef)
    | MissingVersion(specs: set<PackageSpec>)

  type LocalPackageIndex = map<PackageRef, (nat, string)>

  predicate DistinctPackages(trees: seq<PackageTree>) {
    forall i, j :: 0 <= i < j < |trees| ==> trees[i].spec.package != trees[j].spec.package
  }

  function NamesOf(deps: set<(PackageRef, VersionReq)>): set<PackageRef> {
    set d | d in deps :: d.0
  }

  /** i depends on j, whatever the version asked for. */
  predicate DependsOn(trees: seq<PackageTree>, i: nat, j: nat)
    requires i < |trees| && j < |trees|
  {
    trees[j].spec.package in NamesOf(trees[i].deps)
  }

  /** The local dependency graph, from dependent to dependency. */
  function LocalEdges(trees: seq<PackageTree>): Edges {
    set i: nat, j: nat | i < |trees| && j < |trees| && DependsOn(trees, i, j) :: (i, j)
  }

  /** An edge, by what was parsed: some dependency of the one is on the other, whatever the requirement. */
  lemma LocalEdgeByFields(trees: seq<PackageTree>, i: nat, j: nat)
    ensures (i, j) in LocalEdges(trees) <==>
            i < |trees| && j < |trees| && exists q :: (trees[j].spec.package, q) in trees[i].deps
  {
    if i < |trees| && j < |trees| && trees[j].spec.package in NamesOf(trees[i].deps) {
      var d :| d in trees[i].deps && d.0 == trees[j].spec.package;
      assert (trees[j].spec.package, d.1) in trees[i].deps;
    }
  }

  /** Numbers that fall from every package to the local packages that it depends on. */
  ghost predicate FallsLocally(trees: seq<PackageTree>, rank: map<nat, nat>) {
    && (forall i: nat :: i < |trees| ==> i in rank)
    && forall i: nat, j: nat, q ::
         i < |trees| && j < |trees| && (trees[j].spec.package, q) in trees[i].deps ==> rank[j] < rank[i]
  }

  /** The local packages depend on each other without a cycle exactly when such numbers exist. */
  lemma FallsLocallyExactly(trees: seq<PackageTree>)
    ensures Acyclic(LocalEdges(trees)) <==> exists rank :: FallsLocally(trees, rank)
  {
    var ids := Specs(trees).Keys;
    RanksExactly(LocalEdges(trees), ids);
    if rank :| Ranks(LocalEdges(trees), ids, rank) {
      forall i: nat, j: nat, q | i < |trees| && j < |trees| && (trees[j].spec.package, q) in trees[i].deps
        ensures rank[j] < rank[i]
      {
        LocalEdgeByFields(trees, i, j);
      }
      assert FallsLocally(trees, rank);
    }
    if rank :| FallsLocally(trees, rank) {
      var rank' := map i | i in ids :: rank[i];
      forall i, j | i in ids && j in ids && (i, j) in LocalEdges(trees)
        ensures rank'[j] < rank'[i]
      {
        LocalEdgeByFields(trees, i, j);
      }
      assert Ranks(LocalEdges(trees), ids, rank');
    }
  }

  function Specs(trees: seq<PackageTree>): map<nat, PackageSpec> {
    map i: nat | i < |trees| :: trees[i].spec
  }

  ghost predicate IndexedBy(trees: seq<PackageTree>, indices: LocalPackageIndex) {
    && (forall i ::
        0 <= i < |trees| ==> trees[i].spec.package in indices && indices[trees[i].spec.package] == (i, trees[i].path))
    && (forall p :: p in indices ==> indices[p].0 < |trees| && trees[indices[p].0].spec.package == p)
  }

  /** The package of a spec occurs before it. */
  ghost predicate OccursAgain(trees: seq<PackageTree>, spec: PackageSpec) {
    exists i, j :: 0 <= i < j < |trees| && trees[j].spec == spec && trees[i].spec.package == spec.package
  }

  method IndexPackages(trees: seq<PackageTree>) returns (r: Result<LocalPackageIndex, PlanError>)
    ensures r.Ok? <==> DistinctPackages(trees)
    ensures r.Ok? ==> IndexedBy(trees, r.value)
    ensures r.Err? ==> r.error.DuplicatePackage? && OccursAgain(trees, r.error.spec)
  {
    var indices: LocalPackageIndex := map[];
    var i := 0;
    while i < |trees|
      invariant 0 <= i <= |trees|
      invariant forall j ::
          0 <= j < i ==> trees[j].spec.package in indices && indices[trees[j].spec.package] == (j, trees[j].path)
      invariant forall p :: p in indices ==> indices[p].0 < i && trees[indices[p].0].spec.package == p
    {
      var tree := trees[i];
      if tree.spec.package in indices {
        assert trees[indices[tree.spec.package].0].spec.package == tree.spec.package;
        return Err(DuplicatePackage(tree.spec));
      }
      indices := indices[tree.spec.package := (i, tree.path)];
      i := i + 1;
    }
    return Ok(indices);
  }

  /** The edges that the dependencies in `done` give the package at position i. */
  function EdgesFrom(trees: seq<PackageTree>, i: nat, done: set<(PackageRef, VersionReq)>): Edges {
    set j: nat | j < |trees| && trees[j].spec.package in NamesOf(done) :: (i, j)
  }

  function EdgesBelow(trees: seq<PackageTree>, n: nat): Edges {
    set e | e in LocalEdges(trees) && e.0 < n
  }

  /** An edge leads from i to somewhere that leads back to i. */
  ghost predicate OnCycle(edges: Edges, i: nat) {
    exists j: nat :: (i, j) in edges && Reaches(edges, j, i)
  }

  lemma EmptyAcyclic()
    ensures Acyclic<nat>({})
  {
    TopologicalAcyclic<nat>({}, []);
  }

  lemma EdgesFromStep(trees: seq<PackageTree>, indices: LocalPackageIndex, i: nat,
          done: set<(PackageRef, VersionReq)>, d: (PackageRef, VersionReq))
    requires IndexedBy(trees, indices)
    ensures EdgesFrom(trees, i, done + {d}) ==
            EdgesFrom(trees, i, done) + (if d.0 in indices then {(i, indices[d.0].0)} else {})
  {
  }

  /** A dependency on an indexed package is an edge of the local graph. */
  lemma IndexedEdge(trees: seq<PackageTree>, indices: LocalPackageIndex, i: nat, d: (PackageRef, VersionReq))
    requires IndexedBy(trees, indices) && i < |trees| && d in trees[i].deps && d.0 in indices
    ensures DependsOn(trees, i, indices[d.0].0) && (i, indices[d.0].0) in LocalEdges(trees)
  {
    assert d.0 in NamesOf(trees[i].deps);
  }

  lemma EdgesOfAll(trees: seq<PackageTree>, i: nat)
    requires i < |trees|
    ensures EdgesBelow(trees, i) + EdgesFrom(trees, i, trees[i].deps) == EdgesBelow(trees, i + 1)
  {
  }

  /** A refused edge of the local graph shows a cycle of the local graph. */
  lemma RefusedEdge(edges: Edges, local: Edges, a: nat, b: nat)
    requires edges <= local && (a, b) in local && Acyclic(edges)
    requires a == b || HasPath(edges, b, a)
    ensures !Acyclic(local) && OnCycle(local, a)
  {
    HasPathExact(edges, b, a);
    var p :| PathBetween(edges, p, b, a);
    assert PathBetween(local, p, b, a);
    CloseCycle(local, p, 0);
  }

  /** Adds the edge of one dependency of the package at position i, if it is on a local package. */
  method AddLocalEdge(trees: seq<PackageTree>, indices: LocalPackageIndex, graph: DependencyGraph, i: nat,
      done: set<(PackageRef, VersionReq)>, d: (PackageRef, VersionReq)) returns (r: Result<DependencyGraph, PlanError>)
    requires IndexedBy(trees, indices) && i < |trees| && d in trees[i].deps && done <= trees[i].deps
    requires graph.Valid() && graph.nodes == Specs(trees)
    requires graph.edges == EdgesBelow(trees, i) + EdgesFrom(trees, i, done)
    ensures r.Ok? ==> r.value.Valid() && r.value.nodes == Specs(trees)
    ensures r.Ok? ==> r.value.edges == EdgesBelow(trees, i) + EdgesFrom(trees, i, done + {d})
    ensures r.Err? ==> !Acyclic(LocalEdges(trees))
    ensures r.Err? ==> || (r.error == DependsOnItself(trees[i].spec.package) && DependsOn(trees, i, i))
                       || (r.error == Cyclical(trees[i].spec.package) && OnCycle(LocalEdges(trees), i))
  {
    EdgesFromStep(trees, indices, i, done, d);
    if d.0 !in indices {
      return Ok(graph);
    }
    var id, dep := indices[trees[i].spec.package].0, indices[d.0].0;
    IndexedEdge(trees, indices, i, d);
    TryUpdateEdgeExact(graph, id, dep);
    var updated := graph.TryUpdateEdge(id, dep);
    if updated.Err? {
      RefusedEdge(graph.edges, LocalEdges(trees), id, dep);
      return Err(if updated.error == SelfLoop
                 then DependsOnItself(trees[i].spec.package) else Cyclical(trees[i].spec.package));
    }
    return Ok(updated.value);
  }

  /**
   Succeeds if and only if no package occurs twice and the local dependency graph is acyclic. The
   dependencies of a package are taken from a hash set, so in no particular order.
   */
  method GetLocalDependencies(trees: seq<PackageTree>)
    returns (r: Result<(DependencyGraph, LocalPackageIndex), PlanError>)
    ensures (r.Err? && r.error.DuplicatePackage?) <==> !DistinctPackages(trees)
    ensures DistinctPackages(trees) ==> (r.Ok? <==> Acyclic(LocalEdges(trees)))
    ensures r.Ok? ==> r.value.0 == DependencyGraph(Specs(trees), LocalEdges(trees)) && IndexedBy(trees, r.value.1)
    ensures r.Err? ==> !r.error.MissingVersion?
    ensures r.Err? && r.error.DuplicatePackage? ==> OccursAgain(trees, r.error.spec)
    ensures r.Err? && r.error.DependsOnItself? ==>
              exists i :: 0 <= i < |trees| && trees[i].spec.package == r.error.package && DependsOn(trees, i, i)
    ensures r.Err? && r.error.Cyclical? ==>
              exists i :: 0 <= i < |trees| && trees[i].spec.package == r.error.package && OnCycle(LocalEdges(trees), i)
  {
    var indexed := IndexPackages(trees);
    if indexed.Err? {
      return Err(indexed.error);
    }
    var indices := indexed.value;
    var graph := DependencyGraph(Specs(trees), {});
    EmptyAcyclic();
    var i := 0;
    while i < |trees|
      invariant 0 <= i <= |trees|
      invariant graph.nodes == Specs(trees) && graph.Valid()
      invariant graph.edges == EdgesBelow(trees, i)
    {
      var tree := trees[i];
      var left := tree.deps;
      while left != {}
        invariant left <= tree.deps
        invariant graph.nodes == Specs(trees) && graph.Valid()
        invariant graph.edges == EdgesBelow(trees, i) + EdgesFrom(trees, i, tree.deps - left)
        decreases left
      {
        var d :| d in left;
        var added := AddLocalEdge(trees, indices, graph, i, tree.deps - left, d);
        if added.Err? {
          return Err(added.error);
        }
        graph := added.value;
        assert tree.deps - (left - {d}) == (tree.deps - left) + {d};
        left := left - {d};
      }
      assert tree.deps - {} == tree.deps;
      EdgesOfAll(trees, i);
      i := i + 1;
    }
    assert EdgesBelow(trees, |trees|) == LocalEdges(trees);
    return Ok((graph, indices));
  }

  /** The packages without a version. */
  function Unversioned(trees: seq<PackageTree>): set<PackageSpec> {
    set t | t in trees && t.spec.version.None? :: t.spec
  }

  lemma MissingVersions(trees: seq<PackageTree>)
    ensures var nodes := Specs(trees);
            (set id | id in nodes && nodes[id].version.None? :: nodes[id]) == Unversioned(trees)
  {
    var nodes := Specs(trees);
    var missing := set id | id in nodes && nodes[id].version.None? :: nodes[id];
    forall t | t in trees && t.spec.version.None?
      ensures t.spec in missing
    {
      var i :| 0 <= i < |trees| && trees[i] == t;
      assert nodes[i] == t.spec;
    }
  }

  // ---------- chains of dependencies ----------

  /** A chain of k dependencies leads down from v; edges go from dependency to dependent. */
  ghost predicate HasChain(dependents: Edges, v: nat, k: nat)
    decreases k
  {
    k == 0 || exists d: nat :: (d, v) in dependents && HasChain(dependents, d, k - 1)
  }

  /** The longest chain of dependencies that leads down from v has k edges. */
  ghost predicate LongestChain(dependents: Edges, v: nat, k: nat) {
    HasChain(dependents, v, k) && !HasChain(dependents, v, k + 1)
  }

  /** Chains are paths: k dependencies lead up to v if and only if some path of k edges ends there. */
  lemma {:induction false} ChainIsPath(dependents: Edges, v: nat, k: nat)
    ensures HasChain(dependents, v, k) <==> exists p :: |p| == k + 1 && IsPath(dependents, p) && p[k] == v
    decreases k
  {
    if HasChain(dependents, v, k) {
      if k == 0 {
        assert IsPath(dependents, [v]) && [v][0] == v;
      } else {
        var d: nat :| (d, v) in dependents && HasChain(dependents, d, k - 1);
        ChainIsPath(dependents, d, k - 1);
        var p :| |p| == k && IsPath(dependents, p) && p[k - 1] == d;
        JoinPaths(dependents, p, [v]);
        assert (p + [v])[k] == v;
      }
    }
    if p :| |p| == k + 1 && IsPath(dependents, p) && p[k] == v {
      if k > 0 {
        assert (p[k - 1], p[k]) in dependents;
        CutPath(dependents, p, 0, k);
        assert p[0..k][k - 1] == p[k - 1];
        ChainIsPath(dependents, p[k - 1], k - 1);
      }
    }
  }

  lemma {:induction false} ChainShortens(dependents: Edges, v: nat, k: nat, j: nat)
    requires HasChain(dependents, v, k) && j <= k
    ensures HasChain(dependents, v, j)
    decreases k
  {
    if j > 0 {
      var d: nat :| (d, v) in dependents && HasChain(dependents, d, k - 1);
      ChainShortens(dependents, d, k - 1, j - 1);
    }
  }

  // ---------- the plan ----------

  datatype PublishOutcome = Published | VersionAlreadyExists | Failed

  /** The graph is acyclic and its nodes are in bijection with the indices. */
  ghost predicate Matched(g: DependencyGraph, indices: LocalPackageIndex) {
    && g.Valid()
    && (forall id :: id in g.nodes ==> var p := g.nodes[id].package; p in indices && indices[p].0 == id)
    && (forall p :: p in indices ==> indices[p].0 in g.nodes && g.nodes[indices[p].0].package == p)
  }

  lemma MatchedRemove(g: DependencyGraph, indices: LocalPackageIndex, p: PackageRef)
    requires Matched(g, indices) && p in indices
    ensures Matched(g.RemoveNode(indices[p].0), indices - {p})
  {
    AcyclicSubset(g.RemoveNode(indices[p].0).edges, g.edges);
  }

  function Ids(indices: LocalPackageIndex, specs: set<PackageSpec>): set<nat> {
    set s | s in specs && s.package in indices :: indices[s.package].0
  }

  function Packages(specs: set<PackageSpec>): set<PackageRef> {
    set s | s in specs :: s.package
  }

  /** What is still to be published, and who waits for whom. */
  class PublishPlan {
    /** Edges go from dependency to dependent. */
    var dependents: DependencyGraph
    var indices: LocalPackageIndex

    ghost predicate Valid()
      reads this
    {
      Matched(dependents, indices)
    }

    constructor (dependents: DependencyGraph, indices: LocalPackageIndex)
      ensures this.dependents == dependents && this.indices == indices
    {
      this.dependents, this.indices := dependents, indices;
    }

    static method FromPaths(trees: seq<PackageTree>) returns (r: Result<PublishPlan, PlanError>)
      ensures r.Ok? <==> DistinctPackages(trees) && Acyclic(LocalEdges(trees)) && Unversioned(trees) == {}
      ensures r.Ok? ==> fresh(r.value) && r.value.Valid()
      ensures r.Ok? ==> r.value.dependents == DependencyGraph(Specs(trees), Reverse(LocalEdges(trees)))
      ensures r.Ok? ==> IndexedBy(trees, r.value.indices)
      ensures r.Err? && r.error.MissingVersion? ==> r.error.specs == Unversioned(trees)
    {
      var local := GetLocalDependencies(trees);
      if local.Err? {
        return Err(local.error);
      }
      var (graph, indices) := local.value;
      var missing := set id | id in graph.nodes && graph.nodes[id].version.None? :: graph.nodes[id];
      MissingVersions(trees);
      if missing != {} {
        return Err(MissingVersion(missing));
      }
      ReverseAcyclic(graph.edges);
      var plan := new PublishPlan(graph.Reversed(), indices);
      return Ok(plan);
    }

    predicate IsEmpty()
      reads this
    {
      indices == map[]
    }

    /** The packages that are ready to be published: no dependency of theirs is outstanding. */
    function TakeReady(): set<PackageSpec>
      reads this
    {
      dependents.SourceSpecs()
    }

    /** While the plan is not empty, something is ready. */
    lemma Progress()
      requires Valid() && !IsEmpty()
      ensures TakeReady() != {}
    {
      var p :| p in indices;
      assert indices[p].0 in dependents.nodes.Keys;
      ReverseAcyclic(dependents.edges);
      AcyclicHasSink(Reverse(dependents.edges), dependents.nodes.Keys);
      var v :| v in dependents.nodes.Keys
          && forall y :: y in dependents.nodes.Keys ==> (v, y) !in Reverse(dependents.edges);
      forall e | e in dependents.edges
        ensures e.1 != v
      {
        ReverseMember(dependents.edges, v, e.0);
      }
      assert dependents.Incoming(v) == {};
      assert dependents.nodes[v] in TakeReady();
    }

    /**
     Drops published packages. As in the source, each of them must still have an index. Whatever set
     is dropped, the graph and the indices stay in bijection.
     */
    method MarkConfirmed(published: set<PackageSpec>)
      requires Valid()
      requires forall s :: s in published ==> s.package in indices
      requires forall s, t :: s in published && t in published && s.package == t.package ==> s == t
      modifies this
      ensures Valid()
      ensures dependents == old(dependents).RemoveAll(Ids(old(indices), published))
      ensures indices == old(indices) - Packages(published)
    {
      var left := published;
      ghost var done := {};
      while left != {}
        invariant done + left == published && done !! left
        invariant Confirmed(old(dependents), old(indices), done, dependents, indices)
        decreases left
      {
        var spec :| spec in left;
        ConfirmStep(old(dependents), old(indices), done, spec, dependents, indices);
        var id := indices[spec.package].0;
        indices := indices - {spec.package};
        dependents := dependents.RemoveNode(id);
        left, done := left - {spec}, done + {spec};
      }
    }
  }

  /** The plan after `done` was dropped from it. */
  ghost predicate Confirmed(g: DependencyGraph, indices: LocalPackageIndex, done: set<PackageSpec>,
          g': DependencyGraph, indices': LocalPackageIndex) {
    && Matched(g', indices')
    && indices' == indices - Packages(done)
    && g' == g.RemoveAll(Ids(indices, done))
  }

  lemma ConfirmStep(g: DependencyGraph, indices: LocalPackageIndex, done: set<PackageSpec>, spec: PackageSpec,
          g': DependencyGraph, indices': LocalPackageIndex)
    requires Confirmed(g, indices, done, g', indices')
    requires spec.package in indices && spec.package !in Packages(done)
    ensures spec.package in indices' && indices'[spec.package] == indices[spec.package]
    ensures Confirmed(g, indices, done + {spec}, g'.RemoveNode(indices[spec.package].0), indices' - {spec.package})
  {
    var id := indices[spec.package].0;
    MatchedRemove(g', indices', spec.package);
    RemoveOneMore(g, Ids(indices, done), id);
    assert Ids(indices, done + {spec}) == Ids(indices, done) + {id};
    assert Packages(done + {spec}) == Packages(done) + {spec.package};
  }

  lemma RemoveOneMore(g: DependencyGraph, ids: set<nat>, id: nat)
    ensures g.RemoveAll(ids).RemoveNode(id) == g.RemoveAll(ids + {id})
  {
  }

  // ---------- the wave loop ----------

  /** The packages whose longest chain of local dependencies has k edges. */
  ghost function Wave(g: DependencyGraph, k: nat): set<PackageSpec> {
    set id | id in g.nodes && LongestChain(g.edges, id, k) :: g.nodes[id]
  }

  /** What is left of the plan before wave k. */
  ghost function Remaining(g: DependencyGraph, k: nat): DependencyGraph {
    g.RemoveAll(set id | id in g.nodes && !HasChain(g.edges, id, k))
  }

  lemma SourcesAreWave(g: DependencyGraph, k: nat)
    requires g.Valid()
    ensures Remaining(g, k).Sources() == set id | id in g.nodes && LongestChain(g.edges, id, k)
  {
    var r := Remaining(g, k);
    forall id | id in r.nodes
      ensures r.Incoming(id) == {} <==> !HasChain(g.edges, id, k + 1)
    {
      if HasChain(g.edges, id, k + 1) {
        var d: nat :| (d, id) in g.edges && HasChain(g.edges, d, k);
        assert (d, id) in r.edges;
        assert d in r.Incoming(id);
      }
      if d :| d in r.Incoming(id) {
        assert (d, id) in r.edges;
        assert HasChain(g.edges, d, k);
      }
    }
  }

  lemma NextRemaining(g: DependencyGraph, k: nat)
    requires g.Valid()
    ensures Remaining(g, k).RemoveAll(set id | id in g.nodes && LongestChain(g.edges, id, k)) == Remaining(g, k + 1)
  {
    forall id | id in g.nodes && HasChain(g.edges, id, k + 1)
      ensures HasChain(g.edges, id, k)
    {
      ChainShortens(g.edges, id, k + 1, k);
    }
  }

  /** Whether a wave holds exactly some packages, each once. */
  ghost predicate Holds(wave: seq<PackageSpec>, specs: set<PackageSpec>) {
    Distinct(wave) && forall s :: s in wave <==> s in specs
  }

  /**
   `waves` holds the packages handled so far. The complete waves hold exactly the packages with the
   right longest chain, each once; a last, incomplete wave holds some of those that are due next.
   */
  ghost predicate WavesOf(g: DependencyGraph, waves: seq<seq<PackageSpec>>, complete: nat) {
    && complete <= |waves| <= complete + 1
    && (forall k :: 0 <= k < complete ==> Holds(waves[k], Wave(g, k)))
    && (complete < |waves| ==> Distinct(waves[complete]) && forall s :: s in waves[complete] ==> s in Wave(g, complete))
  }

  /** A publish counts as done when it went through or, if asked for, when the version was there already. */
  predicate Handled(outcome: PublishOutcome, skipDupes: bool) {
    outcome.Published? || (outcome.VersionAlreadyExists? && skipDupes)
  }

  ghost predicate AllHandled(waves: seq<seq<PackageSpec>>, outcome: PackageSpec -> PublishOutcome, skipDupes: bool) {
    forall k, s :: 0 <= k < |waves| && s in waves[k] ==> Handled(outcome(s), skipDupes)
  }

  /** One more wave, complete or not. */
  lemma OneMoreWave(g: DependencyGraph, waves: seq<seq<PackageSpec>>, wave: seq<PackageSpec>,
          outcome: PackageSpec -> PublishOutcome, skipDupes: bool)
    requires WavesOf(g, waves, |waves|) && AllHandled(waves, outcome, skipDupes)
    requires Distinct(wave) && forall s :: s in wave ==> s in Wave(g, |waves|) && Handled(outcome(s), skipDupes)
    ensures AllHandled(waves + [wave], outcome, skipDupes)
    ensures WavesOf(g, waves + [wave], |waves|)
    ensures Holds(wave, Wave(g, |waves|)) ==> WavesOf(g, waves + [wave], |waves| + 1)
  {
  }

  /** Publishes one wave, in any order, up to the first package that cannot be published. */
  method PublishWave(ready: set<PackageSpec>, outcome: PackageSpec -> PublishOutcome, skipDupes: bool)
    returns (wave: seq<PackageSpec>, failed: Option<PackageSpec>)
    ensures failed.None? ==> Holds(wave, ready)
    ensures failed.Some? ==> failed.value in ready && failed.value !in wave
    ensures failed.Some? ==> !Handled(outcome(failed.value), skipDupes)
    ensures Distinct(wave) && forall s :: s in wave ==> s in ready && Handled(outcome(s), skipDupes)
  {
    wave, failed := [], None;
    var left := ready;
    while left != {}
      invariant left <= ready && Holds(wave, ready - left)
      invariant forall s :: s in wave ==> Handled(outcome(s), skipDupes)
      decreases left
    {
      var spec :| spec in left;
      if !Handled(outcome(spec), skipDupes) {
        failed := Some(spec);
        return;
      }
      wave := wave + [spec];
      left := left - {spec};
    }
  }

  /** One round of the wave loop, on what remains of the plan `g` before wave k. */
  method TakeWave(plan: PublishPlan, outcome: PackageSpec -> PublishOutcome, skipDupes: bool,
          ghost g: DependencyGraph, ghost k: nat)
    returns (wave: seq<PackageSpec>, refused: Option<PackageSpec>)
    requires plan.Valid() && !plan.IsEmpty()
    requires g.Valid() && plan.dependents == Remaining(g, k)
    modifies plan
    ensures Distinct(wave) && forall s :: s in wave ==> s in Wave(g, k) && Handled(outcome(s), skipDupes)
    ensures refused.None? ==>
        plan.Valid() && plan.dependents == Remaining(g, k + 1) && plan.indices.Keys < old(plan.indices.Keys)
    ensures refused.None? ==> Holds(wave, Wave(g, k)) && wave != []
    ensures refused.Some? ==>
        refused.value in Wave(g, k) && refused.value !in wave && !Handled(outcome(refused.value), skipDupes)
  {
    plan.Progress();
    var ready := plan.TakeReady();
    ReadyIsWave(g, plan.dependents, plan.indices, k);
    wave, refused := PublishWave(ready, outcome, skipDupes);
    if refused.Some? {
      return;
    }
    ghost var spec :| spec in ready;
    assert spec in wave && spec.package in Packages(ready);
    plan.MarkConfirmed(ready);
  }

  /**
   The wave loop of a publish run. Wave k publishes the packages whose longest chain of local
   dependencies has k edges. It ends; if nothing fails the plan is empty and every package was
   handled; if a publish fails, what was handled before is all of the earlier waves and part of the
   package's own wave.
   */
  method PublishWaves(plan: PublishPlan, outcome: PackageSpec -> PublishOutcome, skipDupes: bool)
    returns (waves: seq<seq<PackageSpec>>, failed: Option<PackageSpec>)
    requires plan.Valid()
    modifies plan
    ensures AllHandled(waves, outcome, skipDupes)
    ensures failed.None? ==> plan.IsEmpty() && WavesOf(old(plan.dependents), waves, |waves|)
    ensures failed.None? ==> forall id :: id in old(plan.dependents.nodes) ==>
        !HasChain(old(plan.dependents.edges), id, |waves|)
    ensures failed.None? && waves != [] ==> waves[|waves| - 1] != []
    ensures failed.Some? ==> waves != [] && WavesOf(old(plan.dependents), waves, |waves| - 1)
    ensures failed.Some? ==> failed.value in Wave(old(plan.dependents), |waves| - 1)
    ensures failed.Some? ==> failed.value !in waves[|waves| - 1] && !Handled(outcome(failed.value), skipDupes)
  {
    ghost var g := plan.dependents;
    waves, failed := [], None;
    StartRemaining(g);
    while !plan.IsEmpty()
      invariant plan.Valid() && plan.dependents == Remaining(g, |waves|)
      invariant WavesOf(g, waves, |waves|)
      invariant AllHandled(waves, outcome, skipDupes)
      invariant waves != [] ==> waves[|waves| - 1] != []
      decreases plan.indices.Keys
    {
      var wave, refused := TakeWave(plan, outcome, skipDupes, g, |waves|);
      OneMoreWave(g, waves, wave, outcome, skipDupes);
      waves := waves + [wave];
      if refused.Some? {
        failed := refused;
        return;
      }
    }
    EmptyRemaining(g, plan.dependents, plan.indices, |waves|);
  }

  lemma StartRemaining(g: DependencyGraph)
    requires g.Valid()
    ensures Remaining(g, 0) == g
  {
  }

  lemma EmptyRemaining(g: DependencyGraph, left: DependencyGraph, indices: LocalPackageIndex, k: nat)
    requires left == Remaining(g, k) && Matched(left, indices) && indices == map[]
    ensures forall id :: id in g.nodes ==> !HasChain(g.edges, id, k)
  {
    forall id | id in g.nodes
      ensures !HasChain(g.edges, id, k)
    {
      assert id !in left.nodes;
    }
  }

  /** What is ready before wave k is wave k, and confirming it leaves what remains before wave k + 1. */
  lemma ReadyIsWave(g: DependencyGraph, left: DependencyGraph, indices: LocalPackageIndex, k: nat)
    requires g.Valid() && left == Remaining(g, k) && Matched(left, indices)
    ensures var ready := left.SourceSpecs();
            && ready == Wave(g, k)
            && (forall s :: s in ready ==> s.package in indices)
            && (forall s, t :: s in ready && t in ready && s.package == t.package ==> s == t)
            && left.RemoveAll(Ids(indices, ready)) == Remaining(g, k + 1)
  {
    SourcesAreWave(g, k);
    NextRemaining(g, k);
    var sources := left.Sources();
    var ready := left.SourceSpecs();
    assert ready == Wave(g, k) by {
      forall id | id in g.nodes && LongestChain(g.edges, id, k)
        ensures g.nodes[id] in ready
      {
        assert id in sources && left.nodes[id] == g.nodes[id];
      }
    }
    assert Ids(indices, ready) == sources by {
      forall id | id in sources
        ensures id in Ids(indices, ready)
      {
        assert left.nodes[id] in ready;
      }
    }
  }

  // ---------- what the waves amount to ----------

  lemma LongestChainUnique(dependents: Edges, v: nat, j: nat, k: nat)
    requires LongestChain(dependents, v, j) && LongestChain(dependents, v, k)
    ensures j == k
  {
    if j < k {
      ChainShortens(dependents, v, k, j + 1);
    } else if k < j {
      ChainShortens(dependents, v, j, k + 1);
    }
  }

  /** The length of the longest chain down from v, given a bound on it. */
  ghost function Depth(dependents: Edges, v: nat, bound: nat): (k: nat)
    requires !HasChain(dependents, v, bound)
    ensures k < bound && LongestChain(dependents, v, k)
    decreases bound
  {
    if HasChain(dependents, v, bound - 1) then bound - 1 else Depth(dependents, v, bound - 1)
  }

  /** A dependency is at a smaller depth than its dependents. */
  lemma DepthIncreases(dependents: Edges, d: nat, v: nat, bound: nat)
    requires (d, v) in dependents && !HasChain(dependents, d, bound) && !HasChain(dependents, v, bound)
    ensures Depth(dependents, d, bound) < Depth(dependents, v, bound)
  {
  }

  lemma InWave(g: DependencyGraph, indices: LocalPackageIndex, id: nat, k: nat)
    requires Matched(g, indices) && id in g.nodes
    ensures g.nodes[id] in Wave(g, k) <==> LongestChain(g.edges, id, k)
  {
  }

  /**
   At every moment, also when a publish has failed, what was handled is closed under local
   dependencies: a dependency of a handled package was handled in an earlier wave.
   */
  lemma HandledClosed(g: DependencyGraph, indices: LocalPackageIndex, waves: seq<seq<PackageSpec>>,
          complete: nat, k: nat, id: nat, d: nat)
    requires Matched(g, indices) && WavesOf(g, waves, complete)
    requires k < |waves| && id in g.nodes && g.nodes[id] in waves[k] && (d, id) in g.edges
    ensures exists j :: 0 <= j < k && g.nodes[d] in waves[j]
  {
    InWave(g, indices, id, k);
    assert !HasChain(g.edges, d, k);
    var j := Depth(g.edges, d, k);
    InWave(g, indices, d, j);
    assert Holds(waves[j], Wave(g, j));
  }

  /** At every moment, also when a publish has failed, no package was handled in two waves. */
  lemma HandledAtMostOnce(g: DependencyGraph, indices: LocalPackageIndex, waves: seq<seq<PackageSpec>>,
          complete: nat, id: nat, j: nat, k: nat)
    requires Matched(g, indices) && WavesOf(g, waves, complete) && id in g.nodes
    requires j < |waves| && k < |waves| && g.nodes[id] in waves[j] && g.nodes[id] in waves[k]
    ensures j == k
  {
    InWave(g, indices, id, j);
    InWave(g, indices, id, k);
    LongestChainUnique(g.edges, id, j, k);
  }

  /** When nothing failed, every package was handled, in one wave only. */
  lemma HandledOnce(g: DependencyGraph, indices: LocalPackageIndex, waves: seq<seq<PackageSpec>>, id: nat)
    requires Matched(g, indices) && WavesOf(g, waves, |waves|) && id in g.nodes && !HasChain(g.edges, id, |waves|)
    ensures exists k :: 0 <= k < |waves| && g.nodes[id] in waves[k]
                     && forall j :: 0 <= j < |waves| && g.nodes[id] in waves[j] ==> j == k
  {
    var k := Depth(g.edges, id, |waves|);
    InWave(g, indices, id, k);
    assert Holds(waves[k], Wave(g, k));
    forall j | 0 <= j < |waves| && g.nodes[id] in waves[j]
      ensures j == k
    {
      HandledAtMostOnce(g, indices, waves, |waves|, id, j, k);
    }
  }

  /** A schedule with `m` waves that puts every dependency into an earlier wave than its dependents. */
  ghost predicate IsSchedule(g: DependencyGraph, schedule: map<nat, nat>, m: nat) {
    && (forall id :: id in g.nodes ==> id in schedule && schedule[id] < m)
    && (forall e :: e in g.edges ==> e.0 in schedule && e.1 in schedule && schedule[e.0] < schedule[e.1])
  }

  lemma {:induction false} ScheduleRespectsChains(g: DependencyGraph, schedule: map<nat, nat>, m: nat, v: nat, k: nat)
    requires g.Valid() && IsSchedule(g, schedule, m) && v in g.nodes && HasChain(g.edges, v, k)
    ensures schedule[v] >= k
    decreases k
  {
    if k > 0 {
      var d: nat :| (d, v) in g.edges && HasChain(g.edges, d, k - 1);
      ScheduleRespectsChains(g, schedule, m, d, k - 1);
    }
  }

  /** No schedule that publishes dependencies in earlier waves gets by with fewer waves. */
  lemma FewestWaves(g: DependencyGraph, waves: seq<seq<PackageSpec>>, schedule: map<nat, nat>, m: nat)
    requires g.Valid() && WavesOf(g, waves, |waves|) && (waves != [] ==> waves[|waves| - 1] != [])
    requires IsSchedule(g, schedule, m)
    ensures |waves| <= m
  {
    if waves != [] {
      var last := |waves| - 1;
      assert Holds(waves[last], Wave(g, last));
      assert waves[last][0] in Wave(g, last);
      var id :| id in g.nodes && LongestChain(g.edges, id, last) && g.nodes[id] == waves[last][0];
      ScheduleRespectsChains(g, schedule, m, id, last);
    }
  }

  /** Publishing by depth is such a schedule, so the number of waves is the least possible. */
  lemma WavesAreASchedule(g: DependencyGraph, bound: nat)
    requires g.Valid() && forall id :: id in g.nodes ==> !HasChain(g.edges, id, bound)
    ensures exists schedule :: IsSchedule(g, schedule, bound)
  {
    var schedule := map id | id in g.nodes :: Depth(g.edges, id, bound);
    forall e | e in g.edges
      ensures schedule[e.0] < schedule[e.1]
    {
      DepthIncreases(g.edges, e.0, e.1, bound);
    }
    assert IsSchedule(g, schedule, bound);
  }

  /**
   Seen from the parsed packages: in the waves of the plan made from them, whatever a published package
   depends on, and is published along with it, was published in an earlier wave.
   */
  lemma DependenciesPublishedFirst(trees: seq<PackageTree>, indices: LocalPackageIndex, waves: seq<seq<PackageSpec>>,
          complete: nat, k: nat, i: nat, j: nat)
    requires Matched(DependencyGraph(Specs(trees), Reverse(LocalEdges(trees))), indices)
    requires WavesOf(DependencyGraph(Specs(trees), Reverse(LocalEdges(trees))), waves, complete)
    requires i < |trees| && j < |trees| && DependsOn(trees, i, j)
    requires k < |waves| && trees[i].spec in waves[k]
    ensures exists m :: 0 <= m < k && trees[j].spec in waves[m]
  {
    var g := DependencyGraph(Specs(trees), Reverse(LocalEdges(trees)));
    ReverseMember(LocalEdges(trees), j, i);
    HandledClosed(g, indices, waves, complete, k, i, j);
  }

  // ---------- a whole publish run ----------

  /** Each parsed package that is in a wave comes after all the parsed packages that it depends on. */
  ghost predicate InOrder(trees: seq<PackageTree>, waves: seq<seq<PackageSpec>>) {
    forall i: nat, j: nat, k: nat, q :: (
        && i < |trees| && j < |trees| && k < |waves|
        && trees[i].spec in waves[k] && (trees[j].spec.package, q) in trees[i].deps) ==>
          InEarlierWave(trees[j].spec, waves, k)
  }

  ghost predicate InEarlierWave(spec: PackageSpec, waves: seq<seq<PackageSpec>>, k: nat)
    requires k <= |waves|
  {
    exists m :: 0 <= m < k && spec in waves[m]
  }

  /** Only parsed packages are published, and none of them twice. */
  ghost predicate EachOnce(trees: seq<PackageTree>, waves: seq<seq<PackageSpec>>) {
    && (forall k, s :: 0 <= k < |waves| && s in waves[k] ==> exists i :: 0 <= i < |trees| && trees[i].spec == s)
    && (forall k :: 0 <= k < |waves| ==> Distinct(waves[k]))
    && (forall j, k, s :: 0 <= j < |waves| && 0 <= k < |waves| && s in waves[j] && s in waves[k] ==> j == k)
  }

  /**
   Publishing several paths. A run starts if and only if no package occurs twice, all have versions and
   numbers can fall along their dependencies. Whether it goes through or fails on the way, packages are
   published once and after their dependencies, and what counts as published was published, or was there
   and duplicates are skipped. If it goes through, everything was published; if it fails, the package that
   failed was not, and everything it depends on was.
   */
  method PublishPaths(trees: seq<PackageTree>, outcome: PackageSpec -> PublishOutcome, skipDupes: bool)
    returns (r: Result<(seq<seq<PackageSpec>>, Option<PackageSpec>), PlanError>)
    ensures r.Ok? <==>
            && (forall i, j :: 0 <= i < j < |trees| ==> trees[i].spec.package != trees[j].spec.package)
            && (forall i :: 0 <= i < |trees| ==> trees[i].spec.version.Some?)
            && exists rank :: FallsLocally(trees, rank)
    ensures r.Ok? ==> InOrder(trees, r.value.0) && EachOnce(trees, r.value.0)
    ensures r.Ok? ==> forall k, s :: 0 <= k < |r.value.0| && s in r.value.0[k] ==>
        outcome(s) == Published || (outcome(s) == VersionAlreadyExists && skipDupes)
    ensures r.Ok? && r.value.1.None? ==>
        forall i :: 0 <= i < |trees| ==> InEarlierWave(trees[i].spec, r.value.0, |r.value.0|)
    ensures r.Ok? && r.value.1.Some? ==>
        && !InEarlierWave(r.value.1.value, r.value.0, |r.value.0|)
        && (outcome(r.value.1.value) == Failed || (outcome(r.value.1.value) == VersionAlreadyExists && !skipDupes))
        && exists i :: 0 <= i < |trees| && trees[i].spec == r.value.1.value && NeedsDone(trees, i, r.value.0)
  {
    FallsLocallyExactly(trees);
    var planned := PublishPlan.FromPaths(trees);
    VersionedMeans(trees);
    if planned.Err? {
      return Err(planned.error);
    }
    var plan := planned.value;
    ghost var g, indices := plan.dependents, plan.indices;
    var waves, failed := PublishWaves(plan, outcome, skipDupes);
    ghost var complete := if failed.None? then |waves| else |waves| - 1;
    RunInOrder(trees, indices, waves, complete);
    RunEachOnce(trees, indices, waves, complete);
    if failed.None? {
      RunComplete(trees, indices, waves);
    } else {
      FailedInOrder(trees, indices, waves, failed.value);
    }
    return Ok((waves, failed));
  }

  lemma VersionedMeans(trees: seq<PackageTree>)
    ensures Unversioned(trees) == {} <==> forall i :: 0 <= i < |trees| ==> trees[i].spec.version.Some?
  {
    forall i | 0 <= i < |trees| && trees[i].spec.version.None?
      ensures trees[i].spec in Unversioned(trees)
    {
    }
    forall s | s in Unversioned(trees)
      ensures exists i :: 0 <= i < |trees| && trees[i].spec.version.None?
    {
      var t :| t in trees && t.spec.version.None? && t.spec == s;
    }
  }

  /** Everything that the package at position i depends on, of what was parsed, is in some wave. */
  ghost predicate NeedsDone(trees: seq<PackageTree>, i: nat, waves: seq<seq<PackageSpec>>)
    requires i < |trees|
  {
    forall j: nat, q :: j < |trees| && (trees[j].spec.package, q) in trees[i].deps ==>
                          InEarlierWave(trees[j].spec, waves, |waves|)
  }

  /** The graph that the plan of the parsed packages holds. */
  ghost function PlanGraph(trees: seq<PackageTree>): DependencyGraph {
    DependencyGraph(Specs(trees), Reverse(LocalEdges(trees)))
  }

  lemma RunInOrder(trees: seq<PackageTree>, indices: LocalPackageIndex, waves: seq<seq<PackageSpec>>, complete: nat)
    requires Matched(PlanGraph(trees), indices) && WavesOf(PlanGraph(trees), waves, complete)
    ensures InOrder(trees, waves)
  {
    forall i: nat, j: nat, k: nat, q |
        && i < |trees| && j < |trees| && k < |waves|
        && trees[i].spec in waves[k] && (trees[j].spec.package, q) in trees[i].deps
      ensures InEarlierWave(trees[j].spec, waves, k)
    {
      LocalEdgeByFields(trees, i, j);
      DependenciesPublishedFirst(trees, indices, waves, complete, k, i, j);
    }
  }

  lemma WaveIsParsed(trees: seq<PackageTree>, waves: seq<seq<PackageSpec>>, complete: nat, k: nat, s: PackageSpec)
    returns (i: nat)
    requires WavesOf(PlanGraph(trees), waves, complete) && k < |waves| && s in waves[k]
    ensures i < |trees| && trees[i].spec == s
  {
    assert s in Wave(PlanGraph(trees), k);
    i :| i in PlanGraph(trees).nodes && LongestChain(PlanGraph(trees).edges, i, k) && PlanGraph(trees).nodes[i] == s;
  }

  lemma RunEachOnce(trees: seq<PackageTree>, indices: LocalPackageIndex, waves: seq<seq<PackageSpec>>, complete: nat)
    requires Matched(PlanGraph(trees), indices) && WavesOf(PlanGraph(trees), waves, complete)
    ensures EachOnce(trees, waves)
  {
    forall k, s | 0 <= k < |waves| && s in waves[k]
      ensures exists i :: 0 <= i < |trees| && trees[i].spec == s
    {
      var i := WaveIsParsed(trees, waves, complete, k, s);
    }
    forall j, k, s | 0 <= j < |waves| && 0 <= k < |waves| && s in waves[j] && s in waves[k]
      ensures j == k
    {
      var i := WaveIsParsed(trees, waves, complete, k, s);
      HandledAtMostOnce(PlanGraph(trees), indices, waves, complete, i, j, k);
    }
  }

  lemma RunComplete(trees: seq<PackageTree>, indices: LocalPackageIndex, waves: seq<seq<PackageSpec>>)
    requires Matched(PlanGraph(trees), indices) && WavesOf(PlanGraph(trees), waves, |waves|)
    requires forall id :: id in PlanGraph(trees).nodes ==> !HasChain(PlanGraph(trees).edges, id, |waves|)
    ensures forall i :: 0 <= i < |trees| ==> InEarlierWave(trees[i].spec, waves, |waves|)
  {
    forall i | 0 <= i < |trees|
      ensures InEarlierWave(trees[i].spec, waves, |waves|)
    {
      HandledOnce(PlanGraph(trees), indices, waves, i);
    }
  }

  lemma FailedInOrder(trees: seq<PackageTree>, indices: LocalPackageIndex, waves: seq<seq<PackageSpec>>,
          failed: PackageSpec)
    requires Matched(PlanGraph(trees), indices) && waves != [] && WavesOf(PlanGraph(trees), waves, |waves| - 1)
    requires failed in Wave(PlanGraph(trees), |waves| - 1) && failed !in waves[|waves| - 1]
    ensures !InEarlierWave(failed, waves, |waves|)
    ensures exists i :: 0 <= i < |trees| && trees[i].spec == failed && NeedsDone(trees, i, waves)
  {
    var g, last := PlanGraph(trees), |waves| - 1;
    var with := waves[last := [failed]];
    var i: nat :| i in g.nodes && LongestChain(g.edges, i, last) && g.nodes[i] == failed;
    assert WavesOf(g, with, last);
    forall m | 0 <= m < |waves| && failed in waves[m]
      ensures false
    {
      assert failed in with[m] && failed in with[last];
      HandledAtMostOnce(g, indices, with, last, i, m, last);
    }
    RunInOrder(trees, indices, with, last);
    forall j: nat, q | j < |trees| && (trees[j].spec.package, q) in trees[i].deps
      ensures InEarlierWave(trees[j].spec, waves, |waves|)
    {
      assert InEarlierWave(trees[j].spec, with, last);
    }
  }
}
