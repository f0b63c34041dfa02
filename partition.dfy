/** How PartitionIntoSubclusters splits a multi-entry cluster: every block goes to
    the first new entry above it in the dominator tree, and successor-less new
    entries that were not entries before are set aside as shared exits. */
module Partitioning {
  import opened Blocks
  import opened Graph
  import opened Results
  import Dominators

  /** Following an immediate dominator that is itself covered lowers the depth. */
  predicate DepthOk(idom: map<Node, Node>, depth: map<Node, nat>)
  {
    forall n :: n in idom ==> n in depth && (idom[n] in idom ==> idom[n] in depth && depth[idom[n]] < depth[n])
  }

  /** What the idom walk decreases: one more than the depth while the node is covered. */
  function Height(idom: map<Node, Node>, depth: map<Node, nat>, n: Node): nat
    requires DepthOk(idom, depth)
  {
    if n in idom then depth[n] + 1 else 0
  }

  /** The edges from the synthetic root to each of `entries`. */
  function RootEdges(entries: set<Node>): set<Edge>
  {
    set e | e in entries :: (Root, e)
  }

  lemma RootEdgesAdd(entries: set<Node>, e: Node)
    ensures RootEdges(entries + {e}) == RootEdges(entries) + {(Root, e)}
  {
  }

  /** The graph with the synthetic root added and joined to every entry. */
  function WithRoot(g: GraphState, entries: set<Node>): GraphState
  {
    GraphState(g.nodes + {Root}, g.edges + RootEdges(entries), g.instrs)
  }

  /** Removing the root again gives back the graph it was added to. */
  lemma WithRootRemoved(g: GraphState, entries: set<Node>)
    requires WellFormed(g) && Root !in g.nodes
    ensures GraphState(WithRoot(g, entries).nodes - {Root}, WithoutNode(WithRoot(g, entries).edges, Root), g.instrs) == g
  {
    assert WithoutNode(WithRoot(g, entries).edges, Root) == g.edges;
  }

  /** The depths of a dominator map rooted at the synthetic root decrease along it. */
  lemma DominatorDepth(g: GraphState, idom: map<Node, Node>, depth: map<Node, nat>)
    requires Dominators.IsDominatorMap(g, Root, idom, depth)
    ensures DepthOk(idom, depth)
  {
  }

  /** The blocks whose immediate dominator is the synthetic root. */
  function NewEntries(blocks: set<Node>, idom: map<Node, Node>): set<Node>
  {
    set b | b in blocks && b in idom && idom[b] == Root
  }

  /** Where the idom walk from `n` stops: at the first of `heads` strictly above `n`,
      or at the first node on the way that has no immediate dominator. */
  function Owner(idom: map<Node, Node>, depth: map<Node, nat>, heads: set<Node>, n: Node): (r: Outcome<Node>)
    requires DepthOk(idom, depth)
    ensures r.Ok? ==> r.value in heads
    ensures !r.MissingBlock?
    decreases Height(idom, depth, n)
  {
    if n !in idom then MissingDominator(n)
    else if idom[n] in heads then Ok(idom[n])
    else Owner(idom, depth, heads, idom[n])
  }

  /** The dominator chain of `n`: `n`, its immediate dominator, that block's
      immediate dominator, and so on, up to the first node without one. */
  function Chain(idom: map<Node, Node>, depth: map<Node, nat>, n: Node): (c: seq<Node>)
    requires DepthOk(idom, depth)
    ensures |c| >= 1 && c[0] == n && c[|c| - 1] !in idom
    ensures forall k :: 0 <= k < |c| - 1 ==> c[k] in idom && c[k + 1] == idom[c[k]]
    decreases Height(idom, depth, n)
  {
    if n !in idom then [n] else [n] + Chain(idom, depth, idom[n])
  }

  /** The walk stops at the first head on the dominator chain above `n`. */
  lemma {:induction false} OwnerIsFirstHeadOnChain(idom: map<Node, Node>, depth: map<Node, nat>, heads: set<Node>,
                                                   n: Node, i: nat)
    requires DepthOk(idom, depth)
    requires 1 <= i < |Chain(idom, depth, n)| && Chain(idom, depth, n)[i] in heads
    requires forall j :: 1 <= j < i ==> Chain(idom, depth, n)[j] !in heads
    ensures Owner(idom, depth, heads, n) == Ok(Chain(idom, depth, n)[i])
    decreases Height(idom, depth, n)
  {
    var c := Chain(idom, depth, n);
    var d := idom[n];
    var c' := Chain(idom, depth, d);
    assert c == [n] + c';
    if i > 1 {
      assert c[1] !in heads;
      assert forall j :: 1 <= j < i - 1 ==> c'[j] == c[j + 1];
      OwnerIsFirstHeadOnChain(idom, depth, heads, d, i - 1);
    }
  }

  /** With no head on the dominator chain above `n`, the walk reports the chain's
      last node, the first one without an immediate dominator. */
  lemma {:induction false} OwnerWithoutHeadOnChain(idom: map<Node, Node>, depth: map<Node, nat>, heads: set<Node>, n: Node)
    requires DepthOk(idom, depth)
    requires forall j :: 1 <= j < |Chain(idom, depth, n)| ==> Chain(idom, depth, n)[j] !in heads
    ensures Owner(idom, depth, heads, n) == MissingDominator(Chain(idom, depth, n)[|Chain(idom, depth, n)| - 1])
    decreases Height(idom, depth, n)
  {
    if n in idom {
      var c := Chain(idom, depth, n);
      var d := idom[n];
      var c' := Chain(idom, depth, d);
      assert c == [n] + c';
      assert c[|c| - 1] == c'[|c'| - 1];
      assert d !in heads by {
        assert c[1] == d;
      }
      forall j | 1 <= j < |c'| ensures c'[j] !in heads {
        assert c'[j] == c[j + 1];
      }
      OwnerWithoutHeadOnChain(idom, depth, heads, d);
    }
  }

  lemma NewEntriesAdd(blocks: set<Node>, b: Node, idom: map<Node, Node>)
    ensures NewEntries(blocks + {b}, idom) ==
      NewEntries(blocks, idom) + (if b in idom && idom[b] == Root then {b} else {})
  {
  }

  /** The blocks that end up with new entry `k`: `k` itself and every block that is
      not a new entry and whose walk stops at `k`. */
  function Members(idom: map<Node, Node>, depth: map<Node, nat>, heads: set<Node>, blocks: set<Node>, k: Node): set<Node>
    requires DepthOk(idom, depth)
  {
    {k} + set b | b in blocks && b !in heads && Owner(idom, depth, heads, b) == Ok(k)
  }

  lemma MembersAdd(idom: map<Node, Node>, depth: map<Node, nat>, heads: set<Node>, blocks: set<Node>, b: Node)
    requires DepthOk(idom, depth)
    ensures forall k :: (Members(idom, depth, heads, blocks + {b}, k) ==
      Members(idom, depth, heads, blocks, k) + (if b !in heads && Owner(idom, depth, heads, b) == Ok(k) then {b} else {}))
  {
  }

  /** `dominated` maps each new entry to its members among `done`. */
  ghost predicate Assigned(idom: map<Node, Node>, depth: map<Node, nat>, heads: set<Node>, done: set<Node>,
                           dominated: map<Node, set<Node>>)
    requires DepthOk(idom, depth)
  {
    dominated.Keys == heads && forall k :: k in heads ==> dominated[k] == Members(idom, depth, heads, done, k)
  }

  /** A new entry met by the assignment stays where it is. */
  lemma AssignedKeep(idom: map<Node, Node>, depth: map<Node, nat>, heads: set<Node>, done: set<Node>,
                     dominated: map<Node, set<Node>>, b: Node)
    requires DepthOk(idom, depth) && Assigned(idom, depth, heads, done, dominated) && b in heads
    ensures Assigned(idom, depth, heads, done + {b}, dominated)
  {
    MembersAdd(idom, depth, heads, done, b);
  }

  /** Any other block joins the new entry its walk stops at. */
  lemma AssignedJoin(idom: map<Node, Node>, depth: map<Node, nat>, heads: set<Node>, done: set<Node>,
                     dominated: map<Node, set<Node>>, b: Node, k: Node)
    requires DepthOk(idom, depth) && Assigned(idom, depth, heads, done, dominated) && b !in heads
    requires Owner(idom, depth, heads, b) == Ok(k)
    ensures k in dominated && Assigned(idom, depth, heads, done + {b}, dominated[k := dominated[k] + {b}])
  {
    MembersAdd(idom, depth, heads, done, b);
  }

  /** Every block of the cluster is covered and every walk from a block that is not
      a new entry reaches a new entry: exactly when no look-up throws. */
  predicate Resolves(idom: map<Node, Node>, depth: map<Node, nat>, blocks: set<Node>)
    requires DepthOk(idom, depth)
  {
    && (forall b :: b in blocks ==> b in idom)
    && (forall b :: b in blocks && b !in NewEntries(blocks, idom) ==> Owner(idom, depth, NewEntries(blocks, idom), b).Ok?)
  }

  /** A block of the cluster that only blocks no entry reaches lead into, such as
      one whose sole predecessor was pruned as dead but is still in the graph, has
      no immediate dominator, so looking up its immediate dominator throws. */
  lemma SealedBlockFails(g: GraphState, entries: set<Node>, idom: map<Node, Node>, depth: map<Node, nat>,
                         blocks: set<Node>, s: set<Node>, b: Node)
    requires Dominators.IsDominatorMap(WithRoot(g, entries), Root, idom, depth) && DepthOk(idom, depth)
    requires Root !in s && s * entries == {} && Dominators.Sealed(g.edges, s)
    requires b in s && b in blocks
    ensures !Resolves(idom, depth, blocks)
  {
    forall e | e in RootEdges(entries) ensures e.1 !in s {
      var x :| x in entries && e == (Root, x);
      assert x !in s * entries;
    }
    Dominators.SealedUncovered(WithRoot(g, entries), Root, idom, depth, s);
  }

  /** The new entries that do not become shared exits: the original entries, and
      the others that have a successor. */
  function Survivors(heads: set<Node>, entries: set<Node>, edges: set<Edge>): (r: set<Node>)
    ensures r <= heads
  {
    set h | h in heads && (h in entries || Succ(edges, h) != {})
  }

  /** The new entries set aside as shared exits. */
  function SharedExits(heads: set<Node>, entries: set<Node>, edges: set<Edge>): (r: set<Node>)
    ensures r <= heads
  {
    set h | h in heads && h !in entries && Succ(edges, h) == {}
  }

  lemma SharedExitsAdd(heads: set<Node>, entries: set<Node>, edges: set<Edge>, h: Node)
    ensures SharedExits(heads + {h}, entries, edges) ==
      SharedExits(heads, entries, edges) + (if h !in entries && Succ(edges, h) == {} then {h} else {})
  {
  }

  /** Shared exits and survivors split the new entries, and no original entry is a
      shared exit. */
  lemma SharedExitsSplit(heads: set<Node>, entries: set<Node>, edges: set<Edge>)
    ensures SharedExits(heads, entries, edges) + Survivors(heads, entries, edges) == heads
    ensures SharedExits(heads, entries, edges) * Survivors(heads, entries, edges) == {}
    ensures SharedExits(heads, entries, edges) * entries == {}
    ensures heads * entries <= Survivors(heads, entries, edges)
  {
  }

  /** Two different new entries never share a block, and a shared exit belongs to
      no surviving new entry's blocks. */
  lemma MembersDisjoint(idom: map<Node, Node>, depth: map<Node, nat>, heads: set<Node>, blocks: set<Node>,
                        k1: Node, k2: Node)
    requires DepthOk(idom, depth) && k1 in heads && k2 in heads && k1 != k2
    ensures Members(idom, depth, heads, blocks, k1) * Members(idom, depth, heads, blocks, k2) == {}
    ensures k1 !in Members(idom, depth, heads, blocks, k2)
  {
  }

  /** When no look-up throws, the new entries' blocks together are exactly the
      cluster's blocks. */
  lemma MembersCover(idom: map<Node, Node>, depth: map<Node, nat>, blocks: set<Node>, b: Node)
    requires DepthOk(idom, depth) && Resolves(idom, depth, blocks) && b in blocks
    ensures var heads := NewEntries(blocks, idom);
      exists k :: k in heads && b in Members(idom, depth, heads, blocks, k)
  {
    var heads := NewEntries(blocks, idom);
    if b in heads {
      assert b in Members(idom, depth, heads, blocks, b);
    } else {
      var k := Owner(idom, depth, heads, b).value;
      assert b in Members(idom, depth, heads, blocks, k);
    }
  }

  /** A walk that stops at `k` left a node that `k` immediately dominates. */
  lemma {:induction false} OwnerHasChild(idom: map<Node, Node>, depth: map<Node, nat>, heads: set<Node>, n: Node, k: Node)
    requires DepthOk(idom, depth) && Owner(idom, depth, heads, n) == Ok(k)
    ensures exists c :: c in idom && idom[c] == k
    decreases Height(idom, depth, n)
  {
    if idom[n] !in heads {
      OwnerHasChild(idom, depth, heads, idom[n], k);
    }
  }

  /** The new entry a walk stops at immediately dominates a node, so it has a
      successor in the cluster's graph. */
  lemma OwnerHasSuccessor(g: GraphState, entries: set<Node>, idom: map<Node, Node>, depth: map<Node, nat>,
                          heads: set<Node>, b: Node, k: Node)
    requires Dominators.IsDominatorMap(WithRoot(g, entries), Root, idom, depth) && DepthOk(idom, depth)
    requires Owner(idom, depth, heads, b) == Ok(k) && k != Root
    ensures Succ(g.edges, k) != {}
  {
    OwnerHasChild(idom, depth, heads, b, k);
    var s :| s in Succ(WithRoot(g, entries).edges, k);
    assert (k, s) !in RootEdges(entries);
    assert s in Succ(g.edges, k);
  }

  /** A shared exit has no successor, so no walk stops at it: its block set holds
      the shared exit alone. */
  lemma SharedExitAlone(g: GraphState, entries: set<Node>, blocks: set<Node>, idom: map<Node, Node>,
                        depth: map<Node, nat>, k: Node)
    requires Dominators.IsDominatorMap(WithRoot(g, entries), Root, idom, depth) && DepthOk(idom, depth)
    requires k in SharedExits(NewEntries(blocks, idom), entries, g.edges)
    ensures Members(idom, depth, NewEntries(blocks, idom), blocks, k) == {k}
  {
    var heads := NewEntries(blocks, idom);
    forall b | b in blocks && b !in heads ensures Owner(idom, depth, heads, b) != Ok(k) {
      if Owner(idom, depth, heads, b) == Ok(k) {
        OwnerHasSuccessor(g, entries, idom, depth, heads, b, k);
      }
    }
  }

  /** When no look-up throws, every block of the cluster is a shared exit or lies
      in the block set of a surviving new entry. */
  lemma PartitionCovers(g: GraphState, entries: set<Node>, blocks: set<Node>, idom: map<Node, Node>,
                        depth: map<Node, nat>, b: Node)
    requires Dominators.IsDominatorMap(WithRoot(g, entries), Root, idom, depth) && DepthOk(idom, depth)
    requires Resolves(idom, depth, blocks) && b in blocks
    ensures var heads := NewEntries(blocks, idom);
      || b in SharedExits(heads, entries, g.edges)
      || exists k :: k in Survivors(heads, entries, g.edges) && b in Members(idom, depth, heads, blocks, k)
  {
    var heads := NewEntries(blocks, idom);
    MembersCover(idom, depth, blocks, b);
    var k :| k in heads && b in Members(idom, depth, heads, blocks, k);
    SharedExitsSplit(heads, entries, g.edges);
    if k in SharedExits(heads, entries, g.edges) {
      SharedExitAlone(g, entries, blocks, idom, depth, k);
    }
  }

  /** An original entry, joined to the root by an edge, is immediately dominated by
      the root, so it is a new entry and survives. */
  lemma EntriesSurvive(idom: map<Node, Node>, blocks: set<Node>, entries: set<Node>, edges: set<Edge>, e: Node)
    requires e in entries && e in blocks && e in idom && idom[e] == Root
    ensures e in Survivors(NewEntries(blocks, idom), entries, edges)
  {
  }

  /** Every original entry in the cluster is joined to the root, so it is a new
      entry, and it survives. */
  lemma EntriesAreKeys(g: GraphState, entries: set<Node>, blocks: set<Node>,
                       idom: map<Node, Node>, depth: map<Node, nat>, e: Node)
    requires Dominators.IsDominatorMap(WithRoot(g, entries), Root, idom, depth)
    requires e in entries && e in blocks
    ensures e in Survivors(NewEntries(blocks, idom), entries, g.edges)
  {
    assert (Root, e) in WithRoot(g, entries).edges;
    EntriesSurvive(idom, blocks, entries, g.edges, e);
  }

  /** Each key of `dominated` lies in its own block set, which lies in `within`,
      and no two keys share a block. */
  predicate Partitioned(dominated: map<Node, set<Node>>, within: set<Node>)
  {
    && (forall k :: k in dominated ==> k in dominated[k] && dominated[k] <= within)
    && (forall k1, k2 :: k1 in dominated && k2 in dominated && k1 != k2 ==> dominated[k1] * dominated[k2] == {})
  }

  /** The blocks of distinct new entries partition (part of) the cluster. */
  lemma MembersPartitioned(idom: map<Node, Node>, depth: map<Node, nat>, heads: set<Node>, blocks: set<Node>,
                           dominated: map<Node, set<Node>>)
    requires DepthOk(idom, depth) && heads <= blocks && dominated.Keys <= heads
    requires forall k :: k in dominated ==> dominated[k] == Members(idom, depth, heads, blocks, k)
    ensures Partitioned(dominated, blocks)
  {
    forall k1, k2 | k1 in dominated && k2 in dominated && k1 != k2 ensures dominated[k1] * dominated[k2] == {} {
      MembersDisjoint(idom, depth, heads, blocks, k1, k2);
    }
  }
}
