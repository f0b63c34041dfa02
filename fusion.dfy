/** Block fusion: contracting a block and its fall-through successor into one
    block, and one sweep of such contractions over a list of blocks. */
module Fusion {
  import opened Blocks
  import opened Graph

  /** Block `b` may absorb block `s`: `s` is the only successor of `b`, `b` is the
      only predecessor of `s`, and `s` starts exactly where `b` ends. */
  ghost predicate CanFuse(g: GraphState, b: Node, s: Node)
  {
    && b.Real? && s.Real?
    && Succ(g.edges, b) == {s}
    && Pred(g.edges, s) == {b}
    && EndAddress(b.addr, InstrsOf(g, b.addr)) == s.addr
  }

  /** Edges from `b` to each of `targets`. */
  function FanOut(b: Node, targets: set<Node>): set<Edge>
  {
    set n | n in targets :: (b, n)
  }

  lemma FanOutAdd(b: Node, targets: set<Node>, n: Node)
    ensures FanOut(b, targets + {n}) == FanOut(b, targets) + {(b, n)}
  {
  }

  /** The graph after `b` absorbs `s`: `s` is gone with its edges, `b` inherits the
      successors of `s`, and `s`'s instructions are appended to `b`'s. */
  ghost function Absorb(g: GraphState, b: Node, s: Node): GraphState
    requires b.Real? && s.Real?
  {
    GraphState(
      g.nodes - {s},
      WithoutNode(g.edges, s) + FanOut(b, Succ(g.edges, s)),
      g.instrs[b.addr := InstrsOf(g, b.addr) + InstrsOf(g, s.addr)])
  }

  /** One visit of FuseBlocks' loop to block `b`. */
  ghost function FuseAt(g: GraphState, b: Node): GraphState
  {
    if exists s :: CanFuse(g, b, s) then
      var s :| CanFuse(g, b, s);
      Absorb(g, b, s)
    else
      g
  }

  /** FuseBlocks' loop over `order`, visiting its blocks first to last. */
  ghost function FuseSweep(g: GraphState, order: seq<Node>): GraphState
    decreases |order|
  {
    if order == [] then g
    else FuseAt(FuseSweep(g, order[..|order| - 1]), order[|order| - 1])
  }

  /** Extending the visited prefix by one block is one more visit. */
  lemma FuseSweepStep(g: GraphState, order: seq<Node>, i: nat)
    requires i < |order|
    ensures FuseSweep(g, order[..i + 1]) == FuseAt(FuseSweep(g, order[..i]), order[i])
  {
    assert order[..i + 1][..i] == order[..i];
  }

  lemma SingletonMember<T>(s: set<T>, x: T, y: T)
    requires s == {x} && y in s
    ensures y == x
  {
  }

  lemma SingletonOf<T>(s: set<T>, x: T)
    requires |s| == 1 && x in s
    ensures s == {x}
  {
    assert |s - {x}| == 0;
  }

  /** When the three conditions hold, the absorbing block ends up with both
      instruction runs, the absorbed block leaves the graph, and the absorbing
      block's successors are exactly the absorbed block's former successors. */
  lemma FuseAtMerges(g: GraphState, b: Node, s: Node)
    requires WellFormed(g) && CanFuse(g, b, s)
    ensures FuseAt(g, b) == Absorb(g, b, s)
    ensures b != s && b in g.nodes && s in g.nodes
    ensures FuseAt(g, b).nodes == g.nodes - {s}
    ensures InstrsOf(FuseAt(g, b), b.addr) == InstrsOf(g, b.addr) + InstrsOf(g, s.addr)
    ensures EndAddress(b.addr, InstrsOf(FuseAt(g, b), b.addr)) == EndAddress(s.addr, InstrsOf(g, s.addr))
    ensures forall a :: a != b.addr ==> InstrsOf(FuseAt(g, b), a) == InstrsOf(g, a)
    ensures Succ(FuseAt(g, b).edges, b) == Succ(g.edges, s)
    ensures forall e :: e in g.edges && e.0 != s && e.1 != s ==> e in FuseAt(g, b).edges
    ensures forall e :: e in FuseAt(g, b).edges ==> e in g.edges || (e.0 == b && (s, e.1) in g.edges)
    ensures WellFormed(FuseAt(g, b))
  {
    var h := Absorb(g, b, s);
    assert (b, s) in g.edges;
    assert b in g.nodes && s in g.nodes;
    assert b != s by {
      assert TotalLength(g.instrs[b.addr]) > 0;
    }
    forall s' | CanFuse(g, b, s') ensures s' == s {
      SingletonMember(Succ(g.edges, b), s, s');
    }
    assert FuseAt(g, b) == h;
    ContiguousEnd(b.addr, InstrsOf(g, b.addr), InstrsOf(g, s.addr));
    assert s !in Succ(g.edges, s);
    assert Succ(h.edges, b) == Succ(g.edges, s) by {
      forall n | n in Succ(h.edges, b) ensures n in Succ(g.edges, s) {
        assert (b, n) in h.edges;
      }
    }
    forall n | n in h.nodes && n.Real? ensures n.addr in h.instrs && TotalLength(h.instrs[n.addr]) > 0 {
      if n.addr == b.addr {
        TotalLengthAppend(InstrsOf(g, b.addr), InstrsOf(g, s.addr));
      }
    }
  }

  /** Without the three conditions, visiting `b` changes nothing. */
  lemma FuseAtIdle(g: GraphState, b: Node)
    requires forall s :: !CanFuse(g, b, s)
    ensures FuseAt(g, b) == g
  {
  }

  /** One visit never gives a predecessor to a block that had none. */
  lemma FuseAtKeepsUnreached(g: GraphState, b: Node, n: Node)
    requires WellFormed(g) && Pred(g.edges, n) == {}
    ensures Pred(FuseAt(g, b).edges, n) == {}
    ensures n in g.nodes ==> n in FuseAt(g, b).nodes
  {
    if exists s :: CanFuse(g, b, s) {
      var s :| CanFuse(g, b, s);
      FuseAtMerges(g, b, s);
      assert forall p :: p !in Pred(FuseAt(g, b).edges, n);
    }
  }

  /** The sweep keeps the graph well formed and free of the synthetic root. */
  lemma {:induction false} FuseSweepWellFormed(g: GraphState, order: seq<Node>)
    requires WellFormed(g) && Root !in g.nodes
    ensures WellFormed(FuseSweep(g, order)) && Root !in FuseSweep(g, order).nodes
    ensures FuseSweep(g, order).nodes <= g.nodes
    decreases |order|
  {
    if order != [] {
      var h := FuseSweep(g, order[..|order| - 1]);
      FuseSweepWellFormed(g, order[..|order| - 1]);
      var b := order[|order| - 1];
      if exists s :: CanFuse(h, b, s) {
        var s :| CanFuse(h, b, s);
        FuseAtMerges(h, b, s);
      }
    }
  }

  /** A block with no predecessors keeps none and stays in the graph. */
  lemma {:induction false} FuseSweepKeepsUnreached(g: GraphState, order: seq<Node>, n: Node)
    requires WellFormed(g) && Root !in g.nodes && Pred(g.edges, n) == {}
    ensures Pred(FuseSweep(g, order).edges, n) == {}
    ensures n in g.nodes ==> n in FuseSweep(g, order).nodes
    decreases |order|
  {
    if order != [] {
      FuseSweepKeepsUnreached(g, order[..|order| - 1], n);
      FuseSweepWellFormed(g, order[..|order| - 1]);
      FuseAtKeepsUnreached(FuseSweep(g, order[..|order| - 1]), order[|order| - 1], n);
    }
  }

  /** Every node of `g` that no edge enters is still a node of `h`, and still no
      edge enters it. */
  ghost predicate KeepsUnreached(g: GraphState, h: GraphState)
  {
    forall n :: n in g.nodes && Pred(g.edges, n) == {} ==> n in h.nodes && Pred(h.edges, n) == {}
  }

  lemma FuseSweepKeepsAllUnreached(g: GraphState, order: seq<Node>)
    requires WellFormed(g) && Root !in g.nodes
    ensures KeepsUnreached(g, FuseSweep(g, order))
  {
    forall n | n in g.nodes && Pred(g.edges, n) == {}
      ensures n in FuseSweep(g, order).nodes && Pred(FuseSweep(g, order).edges, n) == {}
    {
      FuseSweepKeepsUnreached(g, order, n);
    }
  }

  /** A cluster entry survives the sweep when it has no predecessors or when no
      visited block lies below it: an absorbed block always starts above the block
      that absorbs it. */
  lemma {:induction false} FuseSweepKeepsEntry(g: GraphState, order: seq<Node>, e: Node)
    requires WellFormed(g) && Root !in g.nodes && e in g.nodes
    requires Pred(g.edges, e) == {} || forall i :: 0 <= i < |order| ==> order[i].Real? && e.addr <= order[i].addr
    ensures e in FuseSweep(g, order).nodes
    decreases |order|
  {
    if Pred(g.edges, e) == {} {
      FuseSweepKeepsUnreached(g, order, e);
    } else if order != [] {
      var h := FuseSweep(g, order[..|order| - 1]);
      FuseSweepKeepsEntry(g, order[..|order| - 1], e);
      FuseSweepWellFormed(g, order[..|order| - 1]);
      var b := order[|order| - 1];
      if exists s :: CanFuse(h, b, s) {
        var s :| CanFuse(h, b, s);
        FuseAtMerges(h, b, s);
        assert TotalLength(h.instrs[b.addr]) > 0;
      }
    }
  }

  /** Every entry of a cluster survives a sweep over the cluster's blocks when each
      entry either has no predecessors or lies at the lowest address. */
  lemma FuseSweepKeepsEntries(g: GraphState, visited: set<Node>, blocks: set<Node>, entries: set<Node>)
    requires WellFormed(g) && Root !in g.nodes && entries <= g.nodes && AllReal(blocks) && visited <= blocks
    requires forall e :: e in entries ==> Pred(g.edges, e) == {} || forall b :: b in blocks ==> e.addr <= b.addr
    ensures entries <= FuseSweep(g, Descending(visited)).nodes
  {
    var order := Descending(visited);
    forall e | e in entries ensures e in FuseSweep(g, order).nodes {
      if Pred(g.edges, e) != {} {
        assert forall i :: 0 <= i < |order| ==> order[i].Real? && e.addr <= order[i].addr;
      }
      FuseSweepKeepsEntry(g, order, e);
    }
  }

  /** The blocks some edge leads into. */
  function Targets(edges: set<Edge>): set<Node>
  {
    set e | e in edges :: e.1
  }

  /** Fusion only redirects existing edges: a block no edge led into before the
      sweep has none leading into it afterwards. */
  lemma {:induction false} FuseSweepTargets(g: GraphState, order: seq<Node>)
    requires WellFormed(g) && Root !in g.nodes
    ensures Targets(FuseSweep(g, order).edges) <= Targets(g.edges)
    decreases |order|
  {
    if order != [] {
      var h := FuseSweep(g, order[..|order| - 1]);
      FuseSweepTargets(g, order[..|order| - 1]);
      FuseSweepWellFormed(g, order[..|order| - 1]);
      var b := order[|order| - 1];
      if exists x :: CanFuse(h, b, x) {
        var x :| CanFuse(h, b, x);
        FuseAtMerges(h, b, x);
        forall t | t in Targets(FuseAt(h, b).edges) ensures t in Targets(h.edges) {
          var e :| e in FuseAt(h, b).edges && e.1 == t;
          if e !in h.edges {
            assert (x, e.1) in h.edges;
          }
        }
      }
    }
  }

  /** No edge crosses the boundary of block set `s`. */
  ghost predicate Isolated(edges: set<Edge>, s: set<Node>)
  {
    forall e :: e in edges ==> (e.0 in s <==> e.1 in s)
  }

  /** A sweep over blocks outside an isolated set neither touches its blocks nor
      lets an edge cross its boundary. */
  lemma {:induction false} FuseSweepIsolated(g: GraphState, order: seq<Node>, s: set<Node>)
    requires WellFormed(g) && Root !in g.nodes && Isolated(g.edges, s)
    requires forall i :: 0 <= i < |order| ==> order[i] !in s
    ensures Isolated(FuseSweep(g, order).edges, s)
    ensures FuseSweep(g, order).nodes * s == g.nodes * s
    decreases |order|
  {
    if order != [] {
      var h := FuseSweep(g, order[..|order| - 1]);
      FuseSweepIsolated(g, order[..|order| - 1], s);
      FuseSweepWellFormed(g, order[..|order| - 1]);
      var b := order[|order| - 1];
      if exists x :: CanFuse(h, b, x) {
        var x :| CanFuse(h, b, x);
        FuseAtMerges(h, b, x);
        assert (b, x) in h.edges;
        assert x !in s;
        forall e | e in FuseAt(h, b).edges ensures e.0 in s <==> e.1 in s {
          if e !in h.edges {
            assert (x, e.1) in h.edges;
          }
        }
      }
    }
  }
}
