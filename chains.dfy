/** Fall-through chains: why one sweep of fusion from the highest block down
    contracts a whole chain of contiguous straight-line blocks into its lowest one. */
module Chains {
  import opened Blocks
  import opened Graph
  import opened Fusion

  /** A fall-through chain of real blocks: each block can absorb the next one. */
  ghost predicate IsChain(g: GraphState, c: seq<Node>)
  {
    && |c| >= 1 && c[0] in g.nodes
    && (forall k :: 0 <= k < |c| ==> c[k].Real?)
    && (forall k :: 0 <= k < |c| - 1 ==> CanFuse(g, c[k], c[k + 1]))
  }

  /** The instructions of the chain's blocks, one block after the other. */
  function ChainInstrs(g: GraphState, c: seq<Node>): seq<Instruction>
    requires forall k :: 0 <= k < |c| ==> c[k].Real?
    decreases |c|
  {
    if c == [] then [] else InstrsOf(g, c[0].addr) + ChainInstrs(g, c[1..])
  }

  /** A chain climbs in address: each block starts where the one before it ends. */
  lemma {:induction false} ChainAscending(g: GraphState, c: seq<Node>, k1: nat, k2: nat)
    requires WellFormed(g) && IsChain(g, c) && k1 < k2 < |c|
    ensures c[k1].addr < c[k2].addr
    decreases k2 - k1
  {
    assert c[k1 + 1] in Succ(g.edges, c[k1]);
    assert TotalLength(g.instrs[c[k1].addr]) > 0;
    if k1 + 1 < k2 {
      ChainAscending(g, c, k1 + 1, k2);
    }
  }

  /** Part way through the sweep: the chain's blocks above `c[j]` are gone, `c[j]`
      (while it is in the graph) starts with the instructions of the whole tail
      from `c[j]` up, and the blocks below still form a chain, as they were. */
  ghost predicate Collapsed(g: GraphState, h: GraphState, c: seq<Node>, j: nat)
    requires j < |c| && forall k :: 0 <= k < |c| ==> c[k].Real?
  {
    && (forall k :: j < k < |c| ==> c[k] !in h.nodes)
    && (c[j] in h.nodes ==> ChainInstrs(g, c[j..]) <= InstrsOf(h, c[j].addr))
    && (forall k :: 0 <= k < j ==> CanFuse(h, c[k], c[k + 1]) && InstrsOf(h, c[k].addr) == InstrsOf(g, c[k].addr))
  }

  lemma PrefixExtend(p: seq<Instruction>, x: seq<Instruction>, more: seq<Instruction>)
    requires p <= x
    ensures p <= x + more
  {
    assert (x + more)[..|p|] == x[..|p|];
  }

  lemma PrefixPrepend(a: seq<Instruction>, p: seq<Instruction>, x: seq<Instruction>)
    requires p <= x
    ensures a + p <= a + x
  {
    assert (a + x)[..|a + p|] == a + x[..|p|];
  }

  /** A link between two blocks that neither absorb nor are absorbed survives an
      absorption elsewhere. */
  lemma LinkSurvives(h: GraphState, b: Node, s: Node, x: Node, y: Node)
    requires WellFormed(h) && CanFuse(h, b, s) && CanFuse(h, x, y)
    requires x != b && x != s && y != s
    ensures CanFuse(Absorb(h, b, s), x, y)
    ensures InstrsOf(Absorb(h, b, s), x.addr) == InstrsOf(h, x.addr)
  {
    var h' := Absorb(h, b, s);
    FuseAtMerges(h, b, s);
    assert s !in Pred(h.edges, y);
    forall n ensures n in Succ(h'.edges, x) <==> n == y {
      assert (x, n) in h'.edges <==> (x, n) in h.edges && n != s;
      assert n in Succ(h.edges, x) <==> n == y;
    }
    forall p ensures p in Pred(h'.edges, y) <==> p == x {
      assert (p, y) in h'.edges <==> ((p, y) in h.edges && p != s) || (p == b && (s, y) in h.edges);
      assert p in Pred(h.edges, y) <==> p == x;
    }
  }

  /** Below the next unvisited chain block nothing is visited, and above it nothing
      is absorbed but the lowest block once it has been visited. */
  lemma Apart(g: GraphState, h: GraphState, c: seq<Node>, j: nat, b: Node, s: Node)
    requires WellFormed(g) && WellFormed(h) && IsChain(g, c) && j < |c| && Collapsed(g, h, c, j)
    requires CanFuse(h, b, s) && (j > 0 ==> c[j - 1].addr < b.addr)
    ensures forall k :: 0 <= k < j ==> c[k] != b
    ensures forall k :: 0 <= k <= j && (k > 0 || j > 0) ==> c[k] != s
  {
    forall k | 0 <= k < j ensures c[k] != b {
      if k < j - 1 {
        ChainAscending(g, c, k, j - 1);
      }
    }
    forall k | 0 <= k <= j && (k > 0 || j > 0) ensures c[k] != s {
      if k > 0 {
        assert b in Pred(h.edges, s);
        assert c[k - 1] in Pred(h.edges, c[k]);
      } else {
        assert TotalLength(h.instrs[b.addr]) > 0;
        if 0 < j - 1 {
          ChainAscending(g, c, 0, j - 1);
        }
      }
    }
  }

  /** An absorption by a block above the next unvisited chain block keeps the picture. */
  lemma AbsorbElsewhere(g: GraphState, h: GraphState, c: seq<Node>, j: nat, b: Node, s: Node)
    requires WellFormed(g) && WellFormed(h) && IsChain(g, c) && j < |c| && Collapsed(g, h, c, j)
    requires CanFuse(h, b, s) && (j > 0 ==> c[j - 1].addr < b.addr)
    ensures Collapsed(g, Absorb(h, b, s), c, j)
  {
    FuseAtMerges(h, b, s);
    var h' := Absorb(h, b, s);
    Apart(g, h, c, j, b, s);
    if c[j] in h'.nodes && b == c[j] {
      PrefixExtend(ChainInstrs(g, c[j..]), InstrsOf(h, c[j].addr), InstrsOf(h, s.addr));
    }
    forall k | 0 <= k < j ensures CanFuse(h', c[k], c[k + 1]) && InstrsOf(h', c[k].addr) == InstrsOf(g, c[k].addr) {
      LinkSurvives(h, b, s, c[k], c[k + 1]);
    }
  }

  /** A visit to a block above the next unvisited chain block keeps the picture. */
  lemma VisitElsewhere(g: GraphState, h: GraphState, c: seq<Node>, j: nat, b: Node)
    requires WellFormed(g) && WellFormed(h) && IsChain(g, c) && j < |c| && Collapsed(g, h, c, j)
    requires b.Real? && (j > 0 ==> c[j - 1].addr < b.addr)
    ensures Collapsed(g, FuseAt(h, b), c, j)
  {
    if exists s :: CanFuse(h, b, s) {
      var s :| CanFuse(h, b, s);
      FuseAtMerges(h, b, s);
      AbsorbElsewhere(g, h, c, j, b, s);
    } else {
      FuseAtIdle(h, b);
    }
  }

  /** The visit to the next unvisited chain block absorbs the tail above it. */
  lemma VisitMerge(g: GraphState, h: GraphState, c: seq<Node>, j: nat)
    requires WellFormed(g) && WellFormed(h) && IsChain(g, c) && 0 < j < |c| && Collapsed(g, h, c, j)
    ensures Collapsed(g, FuseAt(h, c[j - 1]), c, j - 1)
  {
    var b, s := c[j - 1], c[j];
    FuseAtMerges(h, b, s);
    var h' := FuseAt(h, b);
    assert c[j - 1..][1..] == c[j..];
    PrefixPrepend(InstrsOf(g, b.addr), ChainInstrs(g, c[j..]), InstrsOf(h, s.addr));
    forall k | 0 <= k < j - 1 ensures CanFuse(h', c[k], c[k + 1]) && InstrsOf(h', c[k].addr) == InstrsOf(g, c[k].addr) {
      ChainAscending(g, c, k, j - 1);
      ChainAscending(g, c, k + 1, j);
      LinkSurvives(h, b, s, c[k], c[k + 1]);
    }
  }

  /** A sweep order: real blocks, strictly descending in address, covering the chain. */
  ghost predicate DownOver(order: seq<Node>, c: seq<Node>)
  {
    && (forall p :: 0 <= p < |order| ==> order[p].Real?)
    && (forall p1, p2 :: 0 <= p1 < p2 < |order| ==> order[p2].addr < order[p1].addr)
    && (forall k :: 0 <= k < |c| ==> c[k] in order)
  }

  /** One visit to a block no lower than the next unvisited chain block: the
      chain stays collapsed, one block further down when that block is visited. */
  lemma Visit(g: GraphState, h: GraphState, c: seq<Node>, j0: nat, b: Node) returns (j: nat)
    requires WellFormed(g) && WellFormed(h) && IsChain(g, c) && j0 < |c| && Collapsed(g, h, c, j0)
    requires b.Real? && (j0 > 0 ==> c[j0 - 1].addr <= b.addr)
    ensures j < |c| && Collapsed(g, FuseAt(h, b), c, j)
    ensures forall k :: 0 <= k < j ==> c[k] != b && c[k].addr < b.addr
    ensures j <= j0
  {
    if j0 > 0 && b == c[j0 - 1] {
      VisitMerge(g, h, c, j0);
      j := j0 - 1;
      forall k | 0 <= k < j ensures c[k].addr < b.addr {
        ChainAscending(g, c, k, j0 - 1);
      }
    } else {
      VisitElsewhere(g, h, c, j0, b);
      j := j0;
      forall k | 0 <= k < j ensures c[k].addr < b.addr {
        if k < j0 - 1 {
          ChainAscending(g, c, k, j0 - 1);
        }
      }
    }
  }

  /** In a strictly descending order, a block not among the first `i` visited
      lies no higher than the `i`-th. */
  lemma Unvisited(order: seq<Node>, x: Node, i: nat)
    requires i < |order| && x in order && x !in order[..i]
    requires forall p :: 0 <= p < |order| ==> order[p].Real?
    requires forall p1, p2 :: 0 <= p1 < p2 < |order| ==> order[p2].addr < order[p1].addr
    ensures x.addr <= order[i].addr
  {
    var p :| 0 <= p < |order| && order[p] == x;
    assert forall q :: 0 <= q < i ==> order[..i][q] == order[q];
  }

  lemma StillUnvisited(order: seq<Node>, x: Node, i: nat)
    requires i < |order| && x !in order[..i] && x != order[i]
    ensures x !in order[..i + 1]
  {
    assert order[..i + 1] == order[..i] + [order[i]];
  }

  /** Collapse after one more visit, restated over the longer prefix. */
  lemma CollapsedStep(g: GraphState, order: seq<Node>, c: seq<Node>, i: nat, j: nat)
    requires i < |order| && j < |c| && forall k :: 0 <= k < |c| ==> c[k].Real?
    requires Collapsed(g, FuseAt(FuseSweep(g, order[..i]), order[i]), c, j)
    ensures Collapsed(g, FuseSweep(g, order[..i + 1]), c, j)
  {
    FuseSweepStep(g, order, i);
  }

  /** One more visit of the sweep. */
  lemma SweepStep(g: GraphState, order: seq<Node>, c: seq<Node>, i: nat, j0: nat) returns (j: nat)
    requires WellFormed(g) && Root !in g.nodes && IsChain(g, c) && i < |order| && DownOver(order, c)
    requires j0 < |c| && Collapsed(g, FuseSweep(g, order[..i]), c, j0)
    requires forall k :: 0 <= k < j0 ==> c[k] !in order[..i]
    ensures j < |c| && Collapsed(g, FuseSweep(g, order[..i + 1]), c, j)
    ensures forall k :: 0 <= k < j ==> c[k] !in order[..i + 1]
  {
    var b := order[i];
    var h := FuseSweep(g, order[..i]);
    FuseSweepWellFormed(g, order[..i]);
    if j0 > 0 {
      Unvisited(order, c[j0 - 1], i);
    }
    j := Visit(g, h, c, j0, b);
    CollapsedStep(g, order, c, i, j);
    forall k | 0 <= k < j ensures c[k] !in order[..i + 1] {
      StillUnvisited(order, c[k], i);
    }
  }

  /** After the first `i` visits of a sweep that runs down the addresses, the chain
      is collapsed down to some `c[j]`, and the blocks below it are not yet visited. */
  lemma {:induction false} SweepPrefix(g: GraphState, order: seq<Node>, c: seq<Node>, i: nat) returns (j: nat)
    requires WellFormed(g) && Root !in g.nodes && IsChain(g, c) && i <= |order| && DownOver(order, c)
    ensures j < |c| && Collapsed(g, FuseSweep(g, order[..i]), c, j)
    ensures forall k :: 0 <= k < j ==> c[k] !in order[..i]
    decreases i
  {
    if i == 0 {
      j := |c| - 1;
      assert c[j..] == [c[j]];
      assert ChainInstrs(g, c[j..]) == InstrsOf(g, c[j].addr);
    } else {
      var j0 := SweepPrefix(g, order, c, i - 1);
      j := SweepStep(g, order, c, i - 1, j0);
    }
  }

  /** The whole sweep over a strictly descending order that covers the chain. */
  lemma SweepAll(g: GraphState, order: seq<Node>, c: seq<Node>)
    requires WellFormed(g) && Root !in g.nodes && IsChain(g, c) && DownOver(order, c)
    ensures forall k :: 1 <= k < |c| ==> c[k] !in FuseSweep(g, order).nodes
    ensures c[0] in FuseSweep(g, order).nodes ==> ChainInstrs(g, c) <= InstrsOf(FuseSweep(g, order), c[0].addr)
  {
    var j := SweepPrefix(g, order, c, |order|);
    assert order[..|order|] == order;
    assert c[0] in order[..|order|];
    assert c[0..] == c;
  }

  /** One sweep over a set of blocks from the highest address down collapses every
      fall-through chain among them into its lowest block: the chain's other
      blocks leave the graph, and the lowest block, if nothing absorbed it in
      turn, starts with the instructions of the whole chain. */
  lemma ChainCollapses(g: GraphState, blocks: set<Node>, c: seq<Node>)
    requires WellFormed(g) && Root !in g.nodes && AllReal(blocks) && IsChain(g, c)
    requires forall k :: 0 <= k < |c| ==> c[k] in blocks
    ensures forall k :: 1 <= k < |c| ==> c[k] !in FuseSweep(g, Descending(blocks)).nodes
    ensures c[0] in FuseSweep(g, Descending(blocks)).nodes ==>
      ChainInstrs(g, c) <= InstrsOf(FuseSweep(g, Descending(blocks)), c[0].addr)
  {
    DescendingSorted(blocks);
    SweepAll(g, Descending(blocks), c);
  }
}
