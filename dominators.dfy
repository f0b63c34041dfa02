/** Immediate dominators of a rooted graph. LTDominatorGraph.Create (Lengauer and
    Tarjan's algorithm) is not part of this model; it is represented by what the
    detector relies on of its result. */
module Dominators {
  import opened Blocks
  import opened Graph

  /** `dist` bounds each covered node's distance from the root: every covered node
      is a successor of the root or of a covered node strictly closer to it. */
  ghost predicate ReachedFrom(g: GraphState, root: Node, covered: set<Node>, dist: map<Node, nat>)
  {
    forall n :: n in covered ==>
      n in dist && ((root, n) in g.edges || exists p :: (p, n) in g.edges && p in covered && p in dist && dist[p] < dist[n])
  }

  /** The shape of a dominator tree over the nodes `idom` covers, with `depth`
      giving each covered node's depth in it:
      - the root has no immediate dominator, and only graph nodes are covered;
      - the covered nodes are closed under successor edges;
      - a direct successor of the root is immediately dominated by the root;
      - an immediate dominator is the root or a covered node one level higher;
      - a node that immediately dominates another has a successor, since every
        path from the root to the dominated node leaves it. */
  predicate IsTree(g: GraphState, root: Node, idom: map<Node, Node>, depth: map<Node, nat>)
  {
    && root !in idom
    && (forall n :: n in idom ==> n in g.nodes && n in depth)
    && (forall e :: e in g.edges && e.0 == root ==> e.1 in idom && idom[e.1] == root)
    && (forall e :: e in g.edges && e.0 in idom ==> e.1 in idom)
    && (forall n :: n in idom ==> idom[n] == root || (idom[n] in idom && depth[idom[n]] < depth[n]))
    && (forall n :: n in idom && idom[n] != root ==> Succ(g.edges, idom[n]) != {})
  }

  /** A dominator map: a tree whose covered nodes are each reached from the root,
      so they are exactly the nodes the root reaches. */
  ghost predicate IsDominatorMap(g: GraphState, root: Node, idom: map<Node, Node>, depth: map<Node, nat>)
  {
    IsTree(g, root, idom, depth) && exists dist :: ReachedFrom(g, root, idom.Keys, dist)
  }

  /** One more node, a successor of the root or of a reached node, is reached one
      edge further out. */
  lemma ReachedGrow(g: GraphState, root: Node, dist: map<Node, nat>, p: Node, n: Node, d: nat)
    requires ReachedFrom(g, root, dist.Keys, dist) && n !in dist && (p, n) in g.edges
    requires p == root || (p in dist && dist[p] < d)
    ensures ReachedFrom(g, root, dist[n := d].Keys, dist[n := d])
  {
    var next := dist[n := d];
    forall m | m in next.Keys ensures
      m in next && ((root, m) in g.edges || exists q :: (q, m) in g.edges && q in next.Keys && q in next && next[q] < next[m])
    {
      if m != n && (root, m) !in g.edges {
        var q :| (q, m) in g.edges && q in dist.Keys && q in dist && dist[q] < dist[m];
        assert next[q] == dist[q];
      }
    }
  }

  lemma FewerLeft(all: set<Node>, keys: set<Node>, x: Node)
    requires x in all && x !in keys
    ensures all - (keys + {x}) < all - keys
  {
    assert x in all - keys;
  }

  /** The nodes the root reaches, each with its distance from the root in edges
      along the path by which it was found. */
  method Reachable(g: GraphState, root: Node) returns (dist: map<Node, nat>)
    requires WellFormed(g) && root in g.nodes
    requires forall e :: e in g.edges ==> e.1 != root
    ensures dist.Keys <= g.nodes - {root}
    ensures ReachedFrom(g, root, dist.Keys, dist)
    ensures forall e :: e in g.edges && (e.0 == root || e.0 in dist) ==> e.1 in dist
  {
    dist := map[];
    while exists e :: e in g.edges && (e.0 == root || e.0 in dist) && e.1 !in dist
      invariant dist.Keys <= g.nodes - {root}
      invariant ReachedFrom(g, root, dist.Keys, dist)
      decreases g.nodes - dist.Keys
    {
      var e :| e in g.edges && (e.0 == root || e.0 in dist) && e.1 !in dist;
      var d := if e.0 == root then 0 else dist[e.0] + 1;
      ReachedGrow(g, root, dist, e.0, e.1, d);
      FewerLeft(g.nodes, dist.Keys, e.1);
      assert dist[e.1 := d].Keys == dist.Keys + {e.1};
      dist := dist[e.1 := d];
    }
  }

  /** Some immediate-dominator map of the graph rooted at `root`. */
  method Create(g: GraphState, root: Node) returns (idom: map<Node, Node>, depth: map<Node, nat>)
    requires WellFormed(g) && root in g.nodes
    requires forall e :: e in g.edges ==> e.1 != root
    ensures IsDominatorMap(g, root, idom, depth)
  {
    var dist := Reachable(g, root);
    var flat := map n | n in dist :: root;
    var level := map n | n in dist :: 0;
    assert flat.Keys == dist.Keys;
    assert IsTree(g, root, flat, level);
    idom, depth :| IsTree(g, root, idom, depth) && idom.Keys == dist.Keys;
    assert ReachedFrom(g, root, idom.Keys, dist);
  }

  /** No edge enters `s` from outside it. */
  ghost predicate Sealed(edges: set<Edge>, s: set<Node>)
  {
    forall e :: e in edges && e.1 in s ==> e.0 in s
  }

  /** Inside a sealed set without the root, every covered node is at least `d`
      edges away, for every `d`. */
  lemma {:induction false} SealedFar(g: GraphState, root: Node, covered: set<Node>, dist: map<Node, nat>,
                                     s: set<Node>, d: nat)
    requires ReachedFrom(g, root, covered, dist) && root !in s && Sealed(g.edges, s)
    ensures forall n :: n in s && n in covered ==> d <= dist[n]
    decreases d
  {
    if d > 0 {
      SealedFar(g, root, covered, dist, s, d - 1);
      forall n | n in s && n in covered ensures d <= dist[n] {
        assert (root, n) !in g.edges;
        var p :| (p, n) in g.edges && p in covered && p in dist && dist[p] < dist[n];
        assert p in s;
      }
    }
  }

  /** The dominator map covers no node of a sealed set without the root: LTDominatorGraph
      has no entry for a node the root cannot reach. */
  lemma SealedUncovered(g: GraphState, root: Node, idom: map<Node, Node>, depth: map<Node, nat>, s: set<Node>)
    requires IsDominatorMap(g, root, idom, depth) && root !in s && Sealed(g.edges, s)
    ensures forall n :: n in s ==> n !in idom
  {
    var dist :| ReachedFrom(g, root, idom.Keys, dist);
    forall n | n in s ensures n !in idom {
      if n in dist {
        SealedFar(g, root, idom.Keys, dist, s, dist[n] + 1);
      }
    }
  }
}
