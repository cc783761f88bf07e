/**
 Finite directed graphs as sets of edges: paths, cycles, reachability, and the facts about
 acyclic graphs that both the dependency decoder and the publish plan rest on.
 */
module Digraph {
  ghost predicate IsPath<T>(edges: set<(T, T)>, p: seq<T>) {
    p != [] && forall i, j :: 0 <= i < j < |p| && j == i + 1 ==> (p[i], p[j]) in edges
  }

  ghost predicate PathBetween<T>(edges: set<(T, T)>, p: seq<T>, a: T, b: T) {
    IsPath(edges, p) && p[0] == a && p[|p| - 1] == b
  }

  /** A closed walk along at least one edge; a self loop is one. */
  ghost predicate IsCycle<T>(edges: set<(T, T)>, p: seq<T>) {
    |p| >= 2 && PathBetween(edges, p, p[0], p[0])
  }

  ghost predicate Acyclic<T(!new)>(edges: set<(T, T)>) {
    forall p: seq<T> :: !IsCycle(edges, p)
  }

  ghost predicate Reaches<T(!new)>(edges: set<(T, T)>, a: T, b: T) {
    exists p: seq<T> :: PathBetween(edges, p, a, b)
  }

  predicate Distinct<T(==)>(s: seq<T>) {
    forall i, j :: 0 <= i < j < |s| ==> s[i] != s[j]
  }

  lemma DistinctCardinality<T>(s: seq<T>, within: set<T>)
    requires Distinct(s)
    requires forall x :: x in s ==> x in within
    ensures |s| <= |within|
    ensures |s| == |within| ==> forall x :: x in within ==> x in s
  {
    if s != [] {
      var last := s[|s| - 1];
      var init := s[..|s| - 1];
      assert forall x :: x in init ==> x in within - {last};
      DistinctCardinality(init, within - {last});
      assert |within - {last}| == |within| - 1;
      if |s| == |within| {
        forall x | x in within
          ensures x in s
        {
          if x != last {
            assert x in init;
          }
        }
      }
    }
  }

  lemma {:induction false} DistinctMultiplicity<T>(s: seq<T>, x: T)
    requires Distinct(s)
    ensures multiset(s)[x] <= 1
  {
    if s != [] {
      DistinctMultiplicity(s[1..], x);
      assert s == [s[0]] + s[1..];
    }
  }

  lemma RepeatMultiplicity<T>(s: seq<T>, i: nat, j: nat)
    requires i < j < |s|
    ensures s[i] == s[j] ==> multiset(s)[s[i]] >= 2
  {
    assert s == s[..i] + [s[i]] + s[i + 1..j] + [s[j]] + s[j + 1..];
  }

  lemma DistinctPermutes<T>(s: seq<T>, t: seq<T>)
    requires Distinct(s) && multiset(s) == multiset(t)
    ensures Distinct(t)
  {
    forall i, j | 0 <= i < j < |t|
      ensures t[i] != t[j]
    {
      DistinctMultiplicity(s, t[i]);
      RepeatMultiplicity(t, i, j);
    }
  }

  // ---------- joining and cutting paths ----------

  lemma JoinPaths<T>(edges: set<(T, T)>, p: seq<T>, q: seq<T>)
    requires IsPath(edges, p) && IsPath(edges, q)
    requires (p[|p| - 1], q[0]) in edges
    ensures PathBetween(edges, p + q, p[0], q[|q| - 1])
  {
  }

  lemma CutPath<T>(edges: set<(T, T)>, p: seq<T>, lo: nat, hi: nat)
    requires IsPath(edges, p) && lo < hi <= |p|
    ensures PathBetween(edges, p[lo..hi], p[lo], p[hi - 1])
  {
  }

  /** Following an edge from the end of a path back onto the path closes a cycle. */
  lemma CloseCycle<T>(edges: set<(T, T)>, p: seq<T>, i: nat)
    requires IsPath(edges, p) && i < |p|
    requires (p[|p| - 1], p[i]) in edges
    ensures IsCycle(edges, p[i..] + [p[i]])
  {
  }

  lemma AcyclicSubset<T(!new)>(edges: set<(T, T)>, more: set<(T, T)>)
    requires edges <= more && Acyclic(more)
    ensures Acyclic(edges)
  {
    forall p: seq<T> | IsCycle(edges, p)
      ensures false
    {
      assert IsCycle(more, p);
    }
  }

  // ---------- reversal ----------

  function Reverse<T(==)>(edges: set<(T, T)>): set<(T, T)> {
    set e | e in edges :: (e.1, e.0)
  }

  function ReverseSeq<T>(p: seq<T>): seq<T> {
    seq(|p|, i requires 0 <= i < |p| => p[|p| - 1 - i])
  }

  lemma ReverseMember<T>(edges: set<(T, T)>, a: T, b: T)
    ensures (a, b) in Reverse(edges) <==> (b, a) in edges
  {
  }

  lemma ReverseAcyclic<T(!new)>(edges: set<(T, T)>)
    requires Acyclic(edges)
    ensures Acyclic(Reverse(edges))
  {
    forall p: seq<T> | IsCycle(Reverse(edges), p)
      ensures false
    {
      var q := ReverseSeq(p);
      forall i, j | 0 <= i < j < |q| && j == i + 1
        ensures (q[i], q[j]) in edges
      {
        assert (p[|p| - 1 - j], p[|p| - 1 - i]) in Reverse(edges);
        ReverseMember(edges, q[j], q[i]);
      }
      assert IsCycle(edges, q);
    }
  }

  // ---------- topological orders ----------

  /** Every edge from a member of `order` leads to an earlier member. */
  ghost predicate Topological<T>(edges: set<(T, T)>, order: seq<T>) {
    && Distinct(order)
    && forall i, e :: 0 <= i < |order| && e in edges && e.0 == order[i] ==> e.1 in order[..i]
  }

  lemma ExtendTopological<T>(edges: set<(T, T)>, order: seq<T>, x: T)
    requires Topological(edges, order) && x !in order
    requires forall e :: e in edges && e.0 == x ==> e.1 in order
    ensures Topological(edges, order + [x])
  {
    var longer := order + [x];
    forall i, e | 0 <= i < |longer| && e in edges && e.0 == longer[i]
      ensures e.1 in longer[..i]
    {
      assert longer[..i] == order[..i];
      assert order[..|order|] == order;
    }
  }

  /** From a member of a topological order, each step of a path goes strictly down. */
  lemma {:induction false} PathDescends<T>(edges: set<(T, T)>, order: seq<T>, p: seq<T>, i: nat)
    requires Topological(edges, order)
    requires IsPath(edges, p) && i < |order| && order[i] == p[0]
    ensures exists k :: 0 <= k <= i && order[k] == p[|p| - 1] && (|p| > 1 ==> k < i)
  {
    if |p| > 1 {
      var e := (p[0], p[1]);
      assert e in edges && e.0 == order[i];
      assert e.1 in order[..i];
      var j :| 0 <= j < i && order[..i][j] == p[1];
      CutPath(edges, p, 1, |p|);
      assert p[1..|p|] == p[1..];
      PathDescends(edges, order, p[1..], j);
    }
  }

  /** A graph all of whose sources stand in a topological order has no cycle. */
  lemma TopologicalAcyclic<T(!new)>(edges: set<(T, T)>, order: seq<T>)
    requires Topological(edges, order)
    requires forall e :: e in edges ==> e.0 in order
    ensures Acyclic(edges)
  {
    forall p: seq<T> | IsCycle(edges, p)
      ensures false
    {
      assert (p[0], p[1]) in edges;
      assert (p[0], p[1]).0 in order;
      var i :| 0 <= i < |order| && order[i] == p[0];
      PathDescends(edges, order, p, i);
    }
  }

  // ---------- reachability, computed ----------

  /** All nodes that can be reached from `seen`, by rounds of following edges. */
  function Closure<T(==)>(edges: set<(T, T)>, seen: set<T>): (all: set<T>)
    ensures seen <= all
    ensures forall e :: e in edges && e.0 in all ==> e.1 in all
    decreases set e | e in edges && e.1 !in seen
  {
    var next := set e | e in edges && e.0 in seen && e.1 !in seen :: e.1;
    assert forall e :: e in edges && e.0 in seen && e.1 !in seen ==> e.1 in next;
    if next == {} then seen
    else
      var left, left' := (set e | e in edges && e.1 !in seen), (set e | e in edges && e.1 !in seen + next);
      assert left' < left by {
        var y :| y in next;
        var e :| e in edges && e.0 in seen && e.1 !in seen && e.1 == y;
        assert e in left && e !in left';
      }
      Closure(edges, seen + next)
  }

  predicate HasPath<T(==)>(edges: set<(T, T)>, a: T, b: T) {
    b in Closure(edges, {a})
  }

  lemma {:induction false} ClosureReached<T(!new)>(edges: set<(T, T)>, start: T, seen: set<T>)
    requires forall y :: y in seen ==> Reaches(edges, start, y)
    ensures forall y :: y in Closure(edges, seen) ==> Reaches(edges, start, y)
    decreases set e | e in edges && e.1 !in seen
  {
    var next := set e | e in edges && e.0 in seen && e.1 !in seen :: e.1;
    if next != {} {
      var left, left' := (set e | e in edges && e.1 !in seen), (set e | e in edges && e.1 !in seen + next);
      assert left' < left by {
        var y :| y in next;
        var e :| e in edges && e.0 in seen && e.1 !in seen && e.1 == y;
        assert e in left && e !in left';
      }
      forall y | y in next
        ensures Reaches(edges, start, y)
      {
        var e :| e in edges && e.0 in seen && e.1 !in seen && e.1 == y;
        var p :| PathBetween(edges, p, start, e.0);
        JoinPaths(edges, p, [y]);
      }
      ClosureReached(edges, start, seen + next);
    }
  }

  lemma {:induction false} ClosedUnderPaths<T>(edges: set<(T, T)>, all: set<T>, p: seq<T>)
    requires forall e :: e in edges && e.0 in all ==> e.1 in all
    requires IsPath(edges, p) && p[0] in all
    ensures p[|p| - 1] in all
  {
    if |p| > 1 {
      assert (p[0], p[1]) in edges;
      assert (p[0], p[1]).1 in all;
      CutPath(edges, p, 1, |p|);
      assert p[1..|p|] == p[1..];
      ClosedUnderPaths(edges, all, p[1..]);
    }
  }

  /** The computed check is exact: there is a path if and only if it says so. */
  lemma HasPathExact<T(!new)>(edges: set<(T, T)>, a: T, b: T)
    ensures HasPath(edges, a, b) <==> Reaches(edges, a, b)
  {
    assert PathBetween(edges, [a], a, a);
    ClosureReached(edges, a, {a});
    if Reaches(edges, a, b) {
      var p :| PathBetween(edges, p, a, b);
      ClosedUnderPaths(edges, Closure(edges, {a}), p);
    }
  }

  // ---------- growing an acyclic graph ----------

  /** A path in the grown graph either was there before or takes the new edge somewhere. */
  lemma OldOrThrough<T>(edges: set<(T, T)>, a: T, b: T, p: seq<T>)
    requires IsPath(edges + {(a, b)}, p)
    ensures IsPath(edges, p) || exists k: nat, l: nat :: l == k + 1 < |p| && p[k] == a && p[l] == b
  {
  }

  /** A path from b to a in the grown graph contains one that was there before. */
  lemma {:induction false} NewEdgeCycle<T(!new)>(edges: set<(T, T)>, a: T, b: T, p: seq<T>)
    requires PathBetween(edges + {(a, b)}, p, b, a)
    ensures Reaches(edges, b, a)
    decreases |p|
  {
    OldOrThrough(edges, a, b, p);
    if IsPath(edges, p) {
      assert PathBetween(edges, p, b, a);
    } else {
      var k: nat, l: nat :| l == k + 1 < |p| && p[k] == a && p[l] == b;
      CutPath(edges + {(a, b)}, p, l, |p|);
      NewEdgeCycle(edges, a, b, p[l..|p|]);
    }
  }

  /** Adding an edge keeps a graph acyclic exactly when its target does not already reach its source. */
  lemma AddEdgeAcyclic<T(!new)>(edges: set<(T, T)>, a: T, b: T)
    requires Acyclic(edges)
    ensures Acyclic(edges + {(a, b)}) <==> !Reaches(edges, b, a)
  {
    var more := edges + {(a, b)};
    if Reaches(edges, b, a) {
      var p :| PathBetween(edges, p, b, a);
      assert PathBetween(more, p, b, a);
      CloseCycle(more, p, 0);
    } else {
      forall p: seq<T>
        ensures !IsCycle(more, p)
      {
        if IsCycle(more, p) {
          CycleThrough(edges, a, b, p);
          assert false;
        }
      }
    }
  }

  /** A cycle that a new edge from a to b brings about goes back from b to a. */
  lemma CycleThrough<T(!new)>(edges: set<(T, T)>, a: T, b: T, p: seq<T>)
    requires Acyclic(edges) && IsCycle(edges + {(a, b)}, p)
    ensures Reaches(edges, b, a)
  {
    var more := edges + {(a, b)};
    OldOrThrough(edges, a, b, p);
    assert !IsCycle(edges, p);
    var k: nat, l: nat :| l == k + 1 < |p| && p[k] == a && p[l] == b;
    CutPath(more, p, l, |p|);
    var rest := p[l..|p|];
    if k == 0 {
      NewEdgeCycle(edges, a, b, rest);
    } else {
      // p[0] is also the last node of rest, so the walk goes on from there
      CutPath(more, p, 1, l);
      assert (p[0], p[1]) in more;
      JoinPaths(more, rest, p[1..l]);
      NewEdgeCycle(edges, a, b, rest + p[1..l]);
    }
  }

  // ---------- a finite acyclic graph has a sink ----------

  lemma SinkWithin<T(!new)>(edges: set<(T, T)>, nodes: set<T>, trail: seq<T>) returns (v: T)
    requires Acyclic(edges)
    requires IsPath(edges, trail) && Distinct(trail)
    requires forall x :: x in trail ==> x in nodes
    ensures v in nodes && forall y :: y in nodes ==> (v, y) !in edges
    decreases |nodes| - |trail|
  {
    v := trail[|trail| - 1];
    if y :| y in nodes && (v, y) in edges {
      if y in trail {
        var i :| 0 <= i < |trail| && trail[i] == y;
        CloseCycle(edges, trail, i);
        assert false;
      }
      JoinPaths(edges, trail, [y]);
      DistinctCardinality(trail + [y], nodes);
      v := SinkWithin(edges, nodes, trail + [y]);
    }
  }

  /** Some node of a nonempty finite set has no edge into that set. */
  lemma AcyclicHasSink<T(!new)>(edges: set<(T, T)>, nodes: set<T>)
    requires Acyclic(edges) && nodes != {}
    ensures exists v :: v in nodes && forall y :: y in nodes ==> (v, y) !in edges
  {
    var x :| x in nodes;
    var v := SinkWithin(edges, nodes, [x]);
  }

  // ---------- ranks ----------

  /** A number for each node that falls along every edge between them. */
  ghost predicate Ranks<T(!new)>(edges: set<(T, T)>, nodes: set<T>, rank: map<T, nat>) {
    rank.Keys == nodes && forall x, y :: x in nodes && y in nodes && (x, y) in edges ==> rank[y] < rank[x]
  }

  /** An acyclic graph on finitely many nodes has ranks. */
  lemma {:induction false} AcyclicHasRank<T(!new)>(edges: set<(T, T)>, nodes: set<T>)
    requires Acyclic(edges)
    ensures exists rank :: Ranks(edges, nodes, rank)
    decreases |nodes|
  {
    if nodes == {} {
      var none: map<T, nat> := map[];
      assert Ranks(edges, nodes, none);
    } else {
      AcyclicHasSink(edges, nodes);
      var v :| v in nodes && forall y :: y in nodes ==> (v, y) !in edges;
      AcyclicHasRank(edges, nodes - {v});
      var r :| Ranks(edges, nodes - {v}, r);
      var rank: map<T, nat> := map x | x in nodes :: if x == v then 0 else r[x] + 1;
      assert Ranks(edges, nodes, rank);
    }
  }

  /** Ranks fall along paths. */
  lemma {:induction false} RankFalls<T(!new)>(edges: set<(T, T)>, nodes: set<T>, rank: map<T, nat>, p: seq<T>)
    requires Ranks(edges, nodes, rank) && IsPath(edges, p)
    requires forall e :: e in edges ==> e.0 in nodes && e.1 in nodes
    ensures |p| > 1 ==> p[0] in nodes && p[|p| - 1] in nodes && rank[p[|p| - 1]] < rank[p[0]]
    decreases |p|
  {
    if |p| > 1 {
      assert (p[0], p[1]) in edges;
      CutPath(edges, p, 1, |p|);
      RankFalls(edges, nodes, rank, p[1..|p|]);
    }
  }

  /** With edges between the nodes only, ranks exist exactly when there is no cycle. */
  lemma RanksExactly<T(!new)>(edges: set<(T, T)>, nodes: set<T>)
    requires forall e :: e in edges ==> e.0 in nodes && e.1 in nodes
    ensures Acyclic(edges) <==> exists rank :: Ranks(edges, nodes, rank)
  {
    if Acyclic(edges) {
      AcyclicHasRank(edges, nodes);
    }
    if rank :| Ranks(edges, nodes, rank) {
      forall p: seq<T>
        ensures !IsCycle(edges, p)
      {
        if IsCycle(edges, p) {
          RankFalls(edges, nodes, rank, p);
          assert false;
        }
      }
    }
  }
}
