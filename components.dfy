/** Call-aware weakly connected components: the relation BuildWCC walks, and
    what it means for a block set to be one component of it. */
module Components {
  import opened Blocks
  import opened Graph
  import Fusion

  /** A known procedure: an explicitly marked procedure start or a direct-call target. */
  predicate IsKnown(known: set<nat>, n: Node)
  {
    n.Real? && n.addr in known
  }

  /** One move of BuildWCC from `u` to `v`: forward along an edge into a block that
      is not a known procedure, or backward along an edge into `u` when `u` itself
      is not a known procedure. */
  ghost predicate Step(edges: set<Edge>, known: set<nat>, u: Node, v: Node)
  {
    ((u, v) in edges && !IsKnown(known, v)) || (!IsKnown(known, u) && (v, u) in edges)
  }

  /** The two exclusions make the walk symmetric: either way it crosses exactly
      the edges whose target is not a known procedure. */
  lemma StepSymmetric(edges: set<Edge>, known: set<nat>, u: Node, v: Node)
    ensures Step(edges, known, u, v) <==> Step(edges, known, v, u)
    ensures Step(edges, known, u, v) <==>
      ((u, v) in edges && !IsKnown(known, v)) || ((v, u) in edges && !IsKnown(known, u))
  {
  }

  /** No walk step leaves `s`. */
  ghost predicate Closed(edges: set<Edge>, known: set<nat>, s: set<Node>)
  {
    forall u, v :: u in s && Step(edges, known, u, v) ==> v in s
  }

  /** No edge ends in a known procedure. */
  ghost predicate NoneIntoKnown(edges: set<Edge>, known: set<nat>)
  {
    forall e :: e in edges ==> !IsKnown(known, e.1)
  }

  /** Once every edge into a known procedure is cut, a set closed under the walk
      has no edge crossing its boundary in either direction. */
  lemma ClosedIsIsolated(edges: set<Edge>, known: set<nat>, s: set<Node>)
    requires Closed(edges, known, s) && NoneIntoKnown(edges, known)
    ensures Fusion.Isolated(edges, s)
  {
    forall e | e in edges ensures e.0 in s <==> e.1 in s {
      assert Step(edges, known, e.0, e.1);
      assert Step(edges, known, e.1, e.0);
    }
  }

  /** `parent` and `rank` witness that every block of `s` is reached from `root`
      by walk steps inside `s`: each block other than the root was entered from
      its parent, which was reached earlier. */
  ghost predicate SpanningTree(edges: set<Edge>, known: set<nat>, root: Node, s: set<Node>,
                               parent: map<Node, Node>, rank: map<Node, nat>)
  {
    && root in s
    && parent.Keys == s - {root}
    && rank.Keys == s
    && forall v :: v in parent ==>
         parent[v] in s && Step(edges, known, parent[v], v) && rank[parent[v]] < rank[v]
  }

  /** The tree from `node` over the blocks already reached, with the tree BuildWCC
      grew from its neighbour `next` over blocks not yet reached hung below it:
      together they span both. */
  lemma Graft(edges: set<Edge>, known: set<nat>, node: Node, nodesLeft: set<Node>, left: set<Node>, left': set<Node>,
              parent: map<Node, Node>, rank: map<Node, nat>, next: Node, sub: map<Node, Node>, subRank: map<Node, nat>)
    returns (parent': map<Node, Node>, rank': map<Node, nat>)
    requires node in nodesLeft && left <= nodesLeft - {node} && next in left && left' <= left - {next}
    requires Step(edges, known, node, next)
    requires SpanningTree(edges, known, node, nodesLeft - left, parent, rank)
    requires SpanningTree(edges, known, next, left - left', sub, subRank)
    ensures SpanningTree(edges, known, node, nodesLeft - left', parent', rank')
  {
    parent' := parent + sub + map[next := node];
    rank' := rank + map x | x in subRank :: subRank[x] + rank[node] + 1;
    var reached := nodesLeft - left';
    assert (left - left') * (nodesLeft - left) == {};
    forall v | v in parent'
      ensures parent'[v] in reached && Step(edges, known, parent'[v], v)
      ensures rank'[parent'[v]] < rank'[v]
    {
      if v == next {
      } else if v in sub {
        assert parent'[v] == sub[v] && rank'[v] == subRank[v] + rank[node] + 1;
        assert rank'[sub[v]] == subRank[sub[v]] + rank[node] + 1;
      } else {
        assert v in parent && parent'[v] == parent[v] && rank'[v] == rank[v];
      }
    }
  }

  /** A walk: consecutive blocks are joined by a step. */
  ghost predicate IsWalk(edges: set<Edge>, known: set<nat>, p: seq<Node>)
  {
    forall k :: 0 <= k < |p| - 1 ==> Step(edges, known, p[k], p[k + 1])
  }

  /** The witness gives, for every block of `s`, a walk inside `s` from the root to it. */
  lemma {:induction false} WalkFromRoot(edges: set<Edge>, known: set<nat>, root: Node, s: set<Node>,
                                        parent: map<Node, Node>, rank: map<Node, nat>, v: Node)
    returns (p: seq<Node>)
    requires SpanningTree(edges, known, root, s, parent, rank) && v in s
    ensures |p| >= 1 && p[0] == root && p[|p| - 1] == v && IsWalk(edges, known, p)
    ensures forall k :: 0 <= k < |p| ==> p[k] in s
    decreases rank[v]
  {
    if v == root {
      p := [root];
    } else {
      var q := WalkFromRoot(edges, known, root, s, parent, rank, parent[v]);
      p := q + [v];
      assert forall k :: 0 <= k < |q| ==> p[k] == q[k];
    }
  }

  /** All the blocks of a sequence of block sets. */
  function Union(parts: seq<set<Node>>): set<Node>
  {
    if parts == [] then {} else Union(parts[..|parts| - 1]) + parts[|parts| - 1]
  }

  lemma {:induction false} UnionMember(parts: seq<set<Node>>, n: Node)
    ensures n in Union(parts) <==> exists k :: 0 <= k < |parts| && n in parts[k]
    decreases |parts|
  {
    if parts != [] {
      var init := parts[..|parts| - 1];
      UnionMember(init, n);
      if n in Union(init) {
        var k :| 0 <= k < |init| && n in init[k];
        assert n in parts[k];
      }
      if exists k :: 0 <= k < |parts| && n in parts[k] {
        var k :| 0 <= k < |parts| && n in parts[k];
        if k < |init| {
          assert n in init[k];
        }
      }
    }
  }

  /** Pairwise disjoint, non-empty block sets, none of which a walk step leaves. */
  ghost predicate IsComponents(edges: set<Edge>, known: set<nat>, parts: seq<set<Node>>)
  {
    && (forall k :: 0 <= k < |parts| ==> parts[k] != {} && Closed(edges, known, parts[k]))
    && (forall j, k :: 0 <= j < k < |parts| ==> parts[j] * parts[k] == {})
  }

  /** The step of FindClusters: when a walk from the set of blocks not yet placed
      takes out a set `d` that no step leaves for the blocks still left, `d` is one
      more component. */
  lemma ExtendComponents(edges: set<Edge>, known: set<nat>, parts: seq<set<Node>>, nodes: set<Node>,
                         nodesLeft: set<Node>, left: set<Node>, node: Node)
    requires forall e :: e in edges ==> e.0 in nodes && e.1 in nodes
    requires IsComponents(edges, known, parts) && Union(parts) == nodes - nodesLeft
    requires nodesLeft <= nodes && left <= nodesLeft && node in nodesLeft - left
    requires forall u, v :: u in nodesLeft - left && Step(edges, known, u, v) ==> v !in left
    ensures IsComponents(edges, known, parts + [nodesLeft - left])
    ensures Union(parts + [nodesLeft - left]) == nodes - left
  {
    var d := nodesLeft - left;
    var parts' := parts + [d];
    assert parts'[..|parts'| - 1] == parts;
    forall u, v | u in d && Step(edges, known, u, v) ensures v in d {
      if v !in d {
        UnionMember(parts, v);
        var k :| 0 <= k < |parts| && v in parts[k];
        StepSymmetric(edges, known, u, v);
        UnionMember(parts, u);
      }
    }
    forall k | 0 <= k < |parts| ensures parts[k] * d == {} {
      forall n | n in parts[k] ensures n !in d {
        UnionMember(parts, n);
      }
    }
  }

  /** Each part is contained in the union. */
  lemma {:induction false} UnionContains(parts: seq<set<Node>>, k: nat)
    requires k < |parts|
    ensures parts[k] <= Union(parts)
  {
    forall n | n in parts[k] ensures n in Union(parts) {
      UnionMember(parts, n);
    }
  }

  /** What BuildProcedures needs of the graph and of the clusters from `from` on:
      real blocks only, no edge into a known procedure while clusters remain, and
      each remaining cluster a non-empty set of graph nodes that no edge enters
      or leaves. */
  ghost predicate Pending(g: GraphState, known: set<nat>, parts: seq<set<Node>>, from: nat)
  {
    && AllReal(g.nodes)
    && (from < |parts| ==> NoneIntoKnown(g.edges, known))
    && forall k :: from <= k < |parts| ==> parts[k] != {} && parts[k] <= g.nodes && Fusion.Isolated(g.edges, parts[k])
  }

  /** Fusing inside one cluster leaves the later clusters as they were: still in
      the graph, still isolated, and still no edge into a known procedure. */
  lemma PendingAfterSweep(g: GraphState, order: seq<Node>, known: set<nat>, parts: seq<set<Node>>, i: nat)
    requires WellFormed(g) && i < |parts| && Pending(g, known, parts, i)
    requires forall n :: n in order ==> n in parts[i]
    requires forall k :: i < k < |parts| ==> parts[i] * parts[k] == {}
    ensures WellFormed(Fusion.FuseSweep(g, order)) && Pending(Fusion.FuseSweep(g, order), known, parts, i + 1)
  {
    var h := Fusion.FuseSweep(g, order);
    Fusion.FuseSweepWellFormed(g, order);
    Fusion.FuseSweepTargets(g, order);
    forall e | e in h.edges ensures !IsKnown(known, e.1) {
      assert e.1 in Fusion.Targets(h.edges);
      var e' :| e' in g.edges && e'.1 == e.1;
    }
    forall k | i + 1 <= k < |parts| ensures parts[k] <= h.nodes && Fusion.Isolated(h.edges, parts[k]) {
      forall j | 0 <= j < |order| ensures order[j] !in parts[k] {
        assert order[j] in parts[i];
      }
      Fusion.FuseSweepIsolated(g, order, parts[k]);
      assert parts[k] <= g.nodes * parts[k];
    }
  }
}
