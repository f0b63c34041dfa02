/** The procedure detector: it severs call edges, collects call-aware weakly
    connected components of the graph, picks their entries, prunes and fuses
    their blocks, and splits the clusters that still have several entries. */
module Scanning {
  import opened Blocks
  import opened Results
  import opened Graph
  import opened Events
  import Dominators
  import opened Fusion
  import opened Components
  import opened EntryRules
  import opened Partitioning
  import opened Pruning

  /** A proto-procedure: a set of entries and a set of blocks, both kept in
      address order (Cluster.Cmp). */
  class Cluster {
    var blocks: set<Node>
    var entries: set<Node>

    constructor ()
      ensures blocks == {} && entries == {}
    {
      blocks := {};
      entries := {};
    }

    constructor From(entries: set<Node>, blocks: set<Node>)
      ensures this.entries == entries && this.blocks == blocks
    {
      this.entries := entries;
      this.blocks := blocks;
    }
  }

  /** Every cluster of `cs` has exactly one entry, which is one of its blocks, and
      all its blocks lie in `within`. */
  ghost predicate SingleEntries(cs: seq<Cluster>, within: set<Node>)
    reads cs
  {
    forall j :: 0 <= j < |cs| ==>
      |cs[j].entries| == 1 && cs[j].entries <= cs[j].blocks && cs[j].blocks <= within
  }

  /** No block belongs to two clusters of `cs`. */
  ghost predicate Disjoint(cs: seq<Cluster>)
    reads cs
  {
    forall j1, j2 :: 0 <= j1 < j2 < |cs| ==> cs[j1].blocks * cs[j2].blocks == {}
  }

  /** Each of `entries` is the entry of some cluster of `cs`. */
  ghost predicate HeadsAll(cs: seq<Cluster>, entries: set<Node>)
    reads cs
  {
    forall e :: e in entries ==> exists j :: 0 <= j < |cs| && cs[j].entries == {e}
  }

  /** What splitting a cluster with several entries produces, relative to the
      dominator map `idom` of graph `g` with the synthetic root joined to the
      entries: it succeeds exactly when every look-up resolves, and then the
      clusters and shared exits are as `Regrouped` says. */
  ghost predicate SplitBy(g: GraphState, entries: set<Node>, blocks: set<Node>, idom: map<Node, Node>,
                          depth: map<Node, nat>, r: Outcome<seq<Cluster>>, exits0: set<nat>, exits: set<nat>)
    reads if r.Ok? then set c | c in r.value else {}
  {
    && Dominators.IsDominatorMap(WithRoot(g, entries), Root, idom, depth)
    && Root !in idom
    && DepthOk(idom, depth)
    && (r.Ok? <==> Resolves(idom, depth, blocks))
    && (r.Ok? ==> Regrouped(g, entries, blocks, idom, depth, r.value, exits0, exits))
  }

  /** The new entries without successors that were not entries become shared
      exits, and there is one cluster per other new entry, in ascending address
      order, holding that entry and the blocks assigned to it; every block is a
      shared exit or in one of those clusters. */
  ghost predicate Regrouped(g: GraphState, entries: set<Node>, blocks: set<Node>, idom: map<Node, Node>,
                            depth: map<Node, nat>, cs: seq<Cluster>, exits0: set<nat>, exits: set<nat>)
    requires Root !in idom && DepthOk(idom, depth)
    reads set c | c in cs
  {
    var heads := NewEntries(blocks, idom);
    var keys := Ascending(Survivors(heads, entries, g.edges));
    && exits == exits0 + Addrs(SharedExits(heads, entries, g.edges))
    && |cs| == |keys|
    && (forall j1, j2 :: 0 <= j1 < j2 < |keys| ==> keys[j1].addr < keys[j2].addr)
    && (forall j :: 0 <= j < |keys| ==>
          cs[j].entries == {keys[j]} && cs[j].blocks == Members(idom, depth, heads, blocks, keys[j]))
    && forall b :: b in blocks ==> b in SharedExits(heads, entries, g.edges) || exists j :: 0 <= j < |cs| && b in cs[j].blocks
  }

  /** The clusters of the surviving new entries, with the shared exits, cover the
      cluster's blocks when no look-up throws. */
  lemma ClustersCover(g: GraphState, entries: set<Node>, blocks: set<Node>, idom: map<Node, Node>,
                      depth: map<Node, nat>, cs: seq<Cluster>, heads: set<Node>, keys: seq<Node>)
    requires Dominators.IsDominatorMap(WithRoot(g, entries), Root, idom, depth)
    requires DepthOk(idom, depth) && Resolves(idom, depth, blocks)
    requires heads == NewEntries(blocks, idom) && forall k :: k in keys <==> k in Survivors(heads, entries, g.edges)
    requires |cs| == |keys| && forall j :: 0 <= j < |keys| ==> cs[j].blocks == Members(idom, depth, heads, blocks, keys[j])
    ensures forall b :: b in blocks ==> b in SharedExits(heads, entries, g.edges) || exists j :: 0 <= j < |cs| && b in cs[j].blocks
  {
    forall b | b in blocks ensures b in SharedExits(heads, entries, g.edges) || exists j :: 0 <= j < |cs| && b in cs[j].blocks {
      ClusterCoversBlock(g, entries, blocks, idom, depth, cs, heads, keys, b);
    }
  }

  /** One block of a split cluster is a shared exit or in one of the clusters. */
  lemma ClusterCoversBlock(g: GraphState, entries: set<Node>, blocks: set<Node>, idom: map<Node, Node>,
                           depth: map<Node, nat>, cs: seq<Cluster>, heads: set<Node>, keys: seq<Node>, b: Node)
    requires Dominators.IsDominatorMap(WithRoot(g, entries), Root, idom, depth)
    requires DepthOk(idom, depth) && Resolves(idom, depth, blocks) && b in blocks
    requires heads == NewEntries(blocks, idom) && forall k :: k in keys <==> k in Survivors(heads, entries, g.edges)
    requires |cs| == |keys| && forall j :: 0 <= j < |keys| ==> cs[j].blocks == Members(idom, depth, heads, blocks, keys[j])
    ensures b in SharedExits(heads, entries, g.edges) || exists j :: 0 <= j < |cs| && b in cs[j].blocks
  {
    PartitionCovers(g, entries, blocks, idom, depth, b);
    if b !in SharedExits(heads, entries, g.edges) {
      var k :| k in Survivors(heads, entries, g.edges) && b in Members(idom, depth, heads, blocks, k);
      var j :| 0 <= j < |keys| && keys[j] == k;
      assert b in cs[j].blocks;
    }
  }

  /** The block sets of `cs`, in order. */
  ghost function BlocksOf(cs: seq<Cluster>): (bs: seq<set<Node>>)
    reads cs
    ensures |bs| == |cs| && forall j :: 0 <= j < |cs| ==> bs[j] == cs[j].blocks
  {
    seq(|cs|, j requires 0 <= j < |cs| reads cs => cs[j].blocks)
  }

  /** Where block `b` ends up: in one of the procedures whose block sets are
      `blocks`, flagged as a shared exit in `exits`, or left in graph `g` with no
      edge into it. */
  ghost predicate Accounted(b: Node, blocks: seq<set<Node>>, g: GraphState, exits: set<nat>)
  {
    || (exists j :: 0 <= j < |blocks| && b in blocks[j])
    || (b.Real? && b.addr in exits)
    || (b in g.nodes && Pred(g.edges, b) == {})
  }

  /** Later procedures, more shared exits and a graph that keeps its unreached
      blocks keep a block accounted for. */
  lemma AccountedLater(b: Node, blocks: seq<set<Node>>, more: seq<set<Node>>, g: GraphState, h: GraphState,
                       exits: set<nat>, exits': set<nat>)
    requires Accounted(b, blocks, g, exits) && KeepsUnreached(g, h) && exits <= exits'
    ensures Accounted(b, blocks + more, h, exits')
  {
    if exists j :: 0 <= j < |blocks| && b in blocks[j] {
      var j :| 0 <= j < |blocks| && b in blocks[j];
      assert (blocks + more)[j] == blocks[j];
    }
  }

  /** A block accounted for by the procedures `more` is accounted for by any list
      that ends with them. */
  lemma AccountedSuffix(b: Node, blocks: seq<set<Node>>, more: seq<set<Node>>, g: GraphState, exits: set<nat>)
    requires Accounted(b, more, g, exits)
    ensures Accounted(b, blocks + more, g, exits)
  {
    if exists j :: 0 <= j < |more| && b in more[j] {
      var j :| 0 <= j < |more| && b in more[j];
      assert (blocks + more)[|blocks| + j] == more[j];
    }
  }

  /** After a split that succeeds, each block of the cluster is in one of the
      clusters or flagged as a shared exit. */
  lemma SplitAccounted(g: GraphState, entries: set<Node>, blocks: set<Node>, idom: map<Node, Node>,
                       depth: map<Node, nat>, cs: seq<Cluster>, exits0: set<nat>, exits: set<nat>, h: GraphState)
    requires SplitBy(g, entries, blocks, idom, depth, Ok(cs), exits0, exits)
    ensures forall b :: b in blocks ==> Accounted(b, BlocksOf(cs), h, exits)
  {
    var shared := SharedExits(NewEntries(blocks, idom), entries, g.edges);
    forall b | b in blocks ensures Accounted(b, BlocksOf(cs), h, exits) {
      if b in shared {
        assert b.addr in Addrs(shared);
      }
    }
  }

  /** The blocks pruning left in a cluster are accounted for by its procedures, and
      the pruned ones, without predecessors, are left in the graph without any. */
  lemma PrunedAccounted(g: GraphState, part: set<Node>, entries: set<Node>, kept: set<Node>,
                        blocks: seq<set<Node>>, h: GraphState, exits: set<nat>)
    requires part <= g.nodes && kept == part - Dead(part, entries, g.edges) && KeepsUnreached(g, h)
    requires forall b :: b in kept ==> Accounted(b, blocks, h, exits)
    ensures forall b :: b in part ==> Accounted(b, blocks, h, exits)
  {
    forall b | b in part ensures Accounted(b, blocks, h, exits) {
      if b !in kept {
        assert b in Dead(part, entries, g.edges);
      }
    }
  }

  lemma HeadsAllSubset(cs: seq<Cluster>, entries: set<Node>, some: set<Node>)
    requires HeadsAll(cs, entries) && some <= entries
    ensures HeadsAll(cs, some)
  {
  }

  /** A cluster with one entry among its blocks is a procedure on its own. */
  lemma OneCluster(c: Cluster, e: Node)
    requires c.entries == {e} && e in c.blocks
    ensures SingleEntries([c], c.blocks) && Disjoint([c]) && HeadsAll([c], c.entries)
    ensures forall x :: x in [c] ==> x == c
  {
    assert [c][0] == c;
  }

  lemma SingleEntriesWithin(cs: seq<Cluster>, within: set<Node>, wider: set<Node>)
    requires SingleEntries(cs, within) && within <= wider
    ensures SingleEntries(cs, wider)
  {
  }

  /** The entry sets and block sets of a list of procedures whose blocks lie in
      `used`: each has one entry, among its blocks, and no block belongs to two
      of them. */
  ghost predicate Procedures(entries: seq<set<Node>>, blocks: seq<set<Node>>, used: set<Node>)
  {
    && |entries| == |blocks|
    && (forall j :: 0 <= j < |blocks| ==> |entries[j]| == 1 && entries[j] <= blocks[j] && blocks[j] <= used)
    && (forall j1, j2 :: 0 <= j1 < j2 < |blocks| ==> blocks[j1] * blocks[j2] == {})
  }

  /** The entry and block sets of a list of clusters, with what the cluster
      predicates say about them. */
  lemma Snapshot(cs: seq<Cluster>, within: set<Node>) returns (es: seq<set<Node>>, bs: seq<set<Node>>)
    requires SingleEntries(cs, within) && Disjoint(cs)
    ensures |es| == |cs| && bs == BlocksOf(cs)
    ensures forall j :: 0 <= j < |cs| ==> es[j] == cs[j].entries && bs[j] == cs[j].blocks
    ensures Procedures(es, bs, within)
  {
    es := seq(|cs|, j requires 0 <= j < |cs| reads cs => cs[j].entries);
    bs := BlocksOf(cs);
  }

  /** Two lists of clusters with their entry and block sets, put together. */
  lemma LinkAppend(a: seq<Cluster>, aEntries: seq<set<Node>>, aBlocks: seq<set<Node>>,
                   b: seq<Cluster>, bEntries: seq<set<Node>>, bBlocks: seq<set<Node>>)
    requires |aEntries| == |a| && |aBlocks| == |a| && |bEntries| == |b| && |bBlocks| == |b|
    requires forall j :: 0 <= j < |a| ==> a[j].entries == aEntries[j] && a[j].blocks == aBlocks[j]
    requires forall j :: 0 <= j < |b| ==> b[j].entries == bEntries[j] && b[j].blocks == bBlocks[j]
    ensures forall j :: 0 <= j < |a + b| ==>
      (a + b)[j].entries == (aEntries + bEntries)[j] && (a + b)[j].blocks == (aBlocks + bBlocks)[j]
  {
  }

  /** Procedures over blocks apart from `used` extend a list of procedures over `used`. */
  lemma ProceduresAppend(entries: seq<set<Node>>, blocks: seq<set<Node>>, used: set<Node>,
                         es: seq<set<Node>>, bs: seq<set<Node>>, part: set<Node>)
    requires Procedures(entries, blocks, used) && Procedures(es, bs, part) && used * part == {}
    ensures Procedures(entries + es, blocks + bs, used + part)
  {
    var all := blocks + bs;
    var n := |blocks|;
    forall j1, j2 | 0 <= j1 < j2 < |all| ensures all[j1] * all[j2] == {} {
      if j1 < n && j2 >= n {
        assert all[j1] <= used && all[j2] <= part;
      }
    }
  }

  /** The ghost copies after the procedures `cs` of a part apart from `used` are
      appended to `out`. */
  lemma Account(out: seq<Cluster>, outEntries: seq<set<Node>>, outBlocks: seq<set<Node>>, used: set<Node>,
                part: set<Node>, cs: seq<Cluster>)
    returns (outEntries': seq<set<Node>>, outBlocks': seq<set<Node>>)
    requires |outEntries| == |out| && |outBlocks| == |out|
    requires forall j :: 0 <= j < |out| ==> out[j].entries == outEntries[j] && out[j].blocks == outBlocks[j]
    requires Procedures(outEntries, outBlocks, used) && used * part == {}
    requires SingleEntries(cs, part) && Disjoint(cs)
    ensures |outEntries'| == |out + cs| && |outBlocks'| == |out + cs|
    ensures forall j :: 0 <= j < |out + cs| ==> (out + cs)[j].entries == outEntries'[j] && (out + cs)[j].blocks == outBlocks'[j]
    ensures Procedures(outEntries', outBlocks', used + part)
    ensures outBlocks' == outBlocks + BlocksOf(cs)
  {
    var es, bs := Snapshot(cs, part);
    LinkAppend(out, outEntries, outBlocks, cs, es, bs);
    ProceduresAppend(outEntries, outBlocks, used, es, bs, part);
    outEntries', outBlocks' := outEntries + es, outBlocks + bs;
  }

  /** What the ghost copies say, read back on the clusters they copy. */
  lemma Published(out: seq<Cluster>, entries: seq<set<Node>>, blocks: seq<set<Node>>, used: set<Node>, within: set<Node>)
    requires |entries| == |out| && |blocks| == |out|
    requires forall j :: 0 <= j < |out| ==> out[j].entries == entries[j] && out[j].blocks == blocks[j]
    requires Procedures(entries, blocks, used) && used <= within
    ensures SingleEntries(out, within) && Disjoint(out)
  {
  }

  class ProcedureDetector {
    const graph: Icfg
    const listener: Listener
    /** KnownProcedures together with the directly called addresses. */
    const knownProcedures: set<nat>
    /** The block at each address (mpAddrToBlock). */
    const blockIndex: map<nat, Node>

    ghost predicate Valid()
      reads this, graph
    {
      graph.Valid() && forall a :: a in blockIndex ==> blockIndex[a] == Real(a)
    }

    /** The known set is the explicit procedure starts plus the keys of the
        direct-call table (whose values the detector does not use); the index
        maps each block's address to the block. */
    constructor (graph: Icfg, listener: Listener, explicitProcedures: set<nat>, directlyCalled: map<nat, nat>)
      requires graph.Valid() && AllReal(graph.nodes)
      ensures Valid()
      ensures this.graph == graph && this.listener == listener
      ensures knownProcedures == explicitProcedures + directlyCalled.Keys
      ensures forall a :: a in blockIndex <==> Real(a) in graph.nodes
    {
      this.graph := graph;
      this.listener := listener;
      knownProcedures := explicitProcedures + directlyCalled.Keys;
      blockIndex := map n | n in graph.nodes :: n.addr := n;
    }

    /** Deletes every edge into a known procedure, polling for cancellation
        before each one. `severed` is the set of addresses handled before the run
        stopped. */
    method RemoveJumpsToKnownProcedures() returns (r: Outcome<()>, ghost severed: set<nat>)
      requires Valid()
      modifies graph, listener
      ensures Valid()
      ensures severed <= knownProcedures && severed <= blockIndex.Keys && !r.MissingDominator?
      ensures graph.nodes == old(graph.nodes) && graph.instrs == old(graph.instrs)
      ensures graph.sharedExits == old(graph.sharedExits)
      ensures graph.edges == set e | e in old(graph.edges) && !(e.1.Real? && e.1.addr in severed)
      ensures r.Ok? && !listener.canceled ==> severed == knownProcedures && NoneIntoKnown(graph.edges, knownProcedures)
      ensures r.MissingBlock? ==> r.addr in knownProcedures && r.addr !in blockIndex
      ensures old(listener.canceled) ==> r.Ok? && severed == {} && listener.canceled
    {
      severed := {};
      var todo := knownProcedures;
      while todo != {}
        invariant Valid()
        invariant todo <= knownProcedures && severed == knownProcedures - todo && severed <= blockIndex.Keys
        invariant graph.nodes == old(graph.nodes) && graph.instrs == old(graph.instrs)
        invariant graph.sharedExits == old(graph.sharedExits)
        invariant graph.edges == set e | e in old(graph.edges) && !(e.1.Real? && e.1.addr in severed)
        invariant old(listener.canceled) ==> severed == {} && listener.canceled
        decreases todo
      {
        var canceled := listener.IsCanceled();
        if canceled {
          return Ok(()), severed;
        }
        var calldest :| calldest in todo;
        if calldest !in blockIndex {
          return MissingBlock(calldest), severed;
        }
        var node := blockIndex[calldest];
        ghost var before := graph.edges;
        var preds := graph.Predecessors(node);
        var left := preds;
        while left != {}
          invariant Valid() && left <= preds
          invariant graph.nodes == old(graph.nodes) && graph.instrs == old(graph.instrs)
          invariant graph.sharedExits == old(graph.sharedExits)
          invariant graph.edges == set e | e in before && !(e.1 == node && e.0 in preds - left)
          decreases left
        {
          var p :| p in left;
          graph.RemoveEdge(p, node);
          left := left - {p};
        }
        severed := severed + {calldest};
        todo := todo - {calldest};
      }
      r := Ok(());
    }

    /** Collects the call-aware weakly connected components of the graph, one
        cluster per component, polling for cancellation before each one. */
    method FindClusters() returns (clusters: seq<Cluster>, ghost parts: seq<set<Node>>, ghost roots: seq<Node>,
                                   ghost parents: seq<map<Node, Node>>, ghost ranks: seq<map<Node, nat>>)
      requires Valid()
      modifies listener
      ensures |parts| == |clusters| && |roots| == |clusters| && |parents| == |clusters| && |ranks| == |clusters|
      ensures forall k :: 0 <= k < |clusters| ==>
        fresh(clusters[k]) && clusters[k].blocks == parts[k] && clusters[k].entries == {}
      ensures IsComponents(graph.edges, knownProcedures, parts)
      ensures forall k :: 0 <= k < |clusters| ==>
        SpanningTree(graph.edges, knownProcedures, roots[k], parts[k], parents[k], ranks[k])
      ensures Union(parts) <= graph.nodes
      ensures !listener.canceled ==> Union(parts) == graph.nodes
      ensures old(listener.canceled) ==> clusters == [] && listener.canceled
    {
      var nodesLeft := graph.nodes;
      clusters := [];
      parts := [];
      roots := [];
      parents := [];
      ranks := [];
      while nodesLeft != {}
        invariant nodesLeft <= graph.nodes
        invariant |parts| == |clusters| && |roots| == |clusters| && |parents| == |clusters| && |ranks| == |clusters|
        invariant forall k :: 0 <= k < |clusters| ==> fresh(clusters[k])
        invariant forall k :: 0 <= k < |clusters| ==> clusters[k].blocks == parts[k] && clusters[k].entries == {}
        invariant IsComponents(graph.edges, knownProcedures, parts)
        invariant forall k :: 0 <= k < |clusters| ==>
          SpanningTree(graph.edges, knownProcedures, roots[k], parts[k], parents[k], ranks[k])
        invariant Union(parts) == graph.nodes - nodesLeft
        invariant old(listener.canceled) ==> clusters == [] && listener.canceled
        // Polling the listener leaves every cluster alone.
        invariant forall k :: 0 <= k < |clusters| ==> clusters[k] as object != listener
        decreases nodesLeft
      {
        var canceled := listener.IsCanceled();
        if canceled {
          break;
        }
        var node :| node in nodesLeft;
        var cluster := new Cluster();
        clusters := clusters + [cluster];
        var left, parent, rank := BuildWCC(node, cluster, nodesLeft);
        ExtendComponents(graph.edges, knownProcedures, parts, graph.nodes, nodesLeft, left, node);
        parts := parts + [nodesLeft - left];
        roots := roots + [node];
        parents := parents + [parent];
        ranks := ranks + [rank];
        nodesLeft := left;
      }
    }

    /** Moves `node` and everything the call-aware walk reaches from it through
        blocks still in `nodesLeft` into the cluster, and returns the blocks that
        are left. `parent` and `rank` record how each block was reached. */
    method BuildWCC(node: Node, cluster: Cluster, nodesLeft: set<Node>)
      returns (left: set<Node>, ghost parent: map<Node, Node>, ghost rank: map<Node, nat>)
      requires Valid() && node in nodesLeft && nodesLeft <= graph.nodes
      modifies cluster
      ensures left <= nodesLeft - {node}
      ensures cluster.blocks == old(cluster.blocks) + (nodesLeft - left)
      ensures cluster.entries == old(cluster.entries)
      ensures forall u, v :: u in nodesLeft - left && Step(graph.edges, knownProcedures, u, v) ==> v !in left
      ensures SpanningTree(graph.edges, knownProcedures, node, nodesLeft - left, parent, rank)
      decreases nodesLeft
    {
      left := nodesLeft - {node};
      cluster.blocks := cluster.blocks + {node};
      parent := map[];
      rank := map[node := 0];

      var succs := graph.Successors(node);
      var todo := succs;
      while todo != {}
        invariant todo <= succs && left <= nodesLeft - {node}
        invariant cluster.blocks == old(cluster.blocks) + (nodesLeft - left)
        invariant cluster.entries == old(cluster.entries)
        invariant forall s :: s in succs - todo && !IsKnown(knownProcedures, s) ==> s !in left
        invariant forall u, v :: u in nodesLeft - left - {node} && Step(graph.edges, knownProcedures, u, v) ==> v !in left
        invariant SpanningTree(graph.edges, knownProcedures, node, nodesLeft - left, parent, rank)
        decreases todo
      {
        var s :| s in todo;
        todo := todo - {s};
        if s in left && !IsKnown(knownProcedures, s) {
          parent, rank, left := Descend(node, s, cluster, nodesLeft, left, parent, rank, old(cluster.blocks));
        }
      }

      if !IsKnown(knownProcedures, node) {
        var preds := graph.Predecessors(node);
        todo := preds;
        while todo != {}
          invariant todo <= preds && left <= nodesLeft - {node}
          invariant cluster.blocks == old(cluster.blocks) + (nodesLeft - left)
          invariant cluster.entries == old(cluster.entries)
          invariant forall s :: s in succs && !IsKnown(knownProcedures, s) ==> s !in left
          invariant forall p :: p in preds - todo ==> p !in left
          invariant forall u, v :: u in nodesLeft - left - {node} && Step(graph.edges, knownProcedures, u, v) ==> v !in left
          invariant SpanningTree(graph.edges, knownProcedures, node, nodesLeft - left, parent, rank)
          decreases todo
        {
          var p :| p in todo;
          todo := todo - {p};
          if p in left {
            parent, rank, left := Descend(node, p, cluster, nodesLeft, left, parent, rank, old(cluster.blocks));
          }
        }
      }
    }

    /** One recursive call of BuildWCC from `node` to its neighbour `next`, with the
        walk record of the blocks reached so far extended by the new subtree. */
    method Descend(node: Node, next: Node, cluster: Cluster, nodesLeft: set<Node>, left: set<Node>,
                   ghost parent: map<Node, Node>, ghost rank: map<Node, nat>, ghost base: set<Node>)
      returns (ghost parent': map<Node, Node>, ghost rank': map<Node, nat>, left': set<Node>)
      requires Valid() && nodesLeft <= graph.nodes && node in nodesLeft
      requires left <= nodesLeft - {node} && next in left
      requires Step(graph.edges, knownProcedures, node, next)
      requires cluster.blocks == base + (nodesLeft - left)
      requires forall u, v :: u in nodesLeft - left - {node} && Step(graph.edges, knownProcedures, u, v) ==> v !in left
      requires SpanningTree(graph.edges, knownProcedures, node, nodesLeft - left, parent, rank)
      modifies cluster
      ensures left' <= left - {next}
      ensures cluster.blocks == base + (nodesLeft - left')
      ensures cluster.entries == old(cluster.entries)
      ensures forall u, v :: u in nodesLeft - left' - {node} && Step(graph.edges, knownProcedures, u, v) ==> v !in left'
      ensures SpanningTree(graph.edges, knownProcedures, node, nodesLeft - left', parent', rank')
      decreases nodesLeft, 0
    {
      ghost var sub, subRank;
      left', sub, subRank := BuildWCC(next, cluster, left);
      parent', rank' := Graft(graph.edges, knownProcedures, node, nodesLeft, left, left', parent, rank, next, sub, subRank);
    }

    /** Adds the entries of the cluster: its known procedures; failing those, its
        blocks without predecessors; failing those, its lowest block. */
    method FindClusterEntries(cluster: Cluster)
      requires cluster.blocks != {} && AllReal(cluster.blocks)
      modifies cluster
      ensures cluster.blocks == old(cluster.blocks)
      ensures cluster.entries == ChooseEntries(old(cluster.entries), cluster.blocks, knownProcedures, graph.edges)
    {
      var nopreds: set<Node> := {};
      // The sorted set is visited in address order; the result does not depend on it.
      var todo := cluster.blocks;
      ghost var done: set<Node> := {};
      while todo != {}
        invariant done <= old(cluster.blocks) && todo == old(cluster.blocks) - done
        invariant cluster.blocks == old(cluster.blocks)
        invariant cluster.entries == old(cluster.entries) + CalledBlocks(done, knownProcedures)
        invariant nopreds == UnreachedBlocks(done, graph.edges)
        decreases todo
      {
        var block :| block in todo;
        CalledBlocksAdd(done, block, knownProcedures);
        UnreachedBlocksAdd(done, block, graph.edges);
        if IsKnown(knownProcedures, block) {
          cluster.entries := cluster.entries + {block};
        }
        if graph.Predecessors(block) == {} {
          nopreds := nopreds + {block};
        }
        todo := todo - {block};
        done := done + {block};
      }
      if cluster.entries != {} {
        return;
      }
      if nopreds != {} {
        cluster.entries := cluster.entries + nopreds;
        return;
      }
      cluster.entries := cluster.entries + {MinBlock(cluster.blocks)};
    }

    /** Turns a cluster with its entries into procedures: dead blocks are dropped,
        fall-through chains are fused, and a cluster with several entries is split. */
    method PostProcessCluster(cluster: Cluster)
      returns (r: Outcome<seq<Cluster>>, ghost idom: map<Node, Node>, ghost depth: map<Node, nat>)
      requires Valid() && Root !in graph.nodes && AllReal(cluster.blocks)
      requires cluster.entries != {} && cluster.entries <= cluster.blocks && cluster.entries <= graph.nodes
      requires forall e :: e in cluster.entries ==>
        Pred(graph.edges, e) == {} || forall b :: b in cluster.blocks ==> e.addr <= b.addr
      modifies graph, cluster
      ensures Valid() && cluster.entries == old(cluster.entries)
      ensures cluster.blocks == old(cluster.blocks) - Dead(old(cluster.blocks), cluster.entries, old(graph.edges))
      ensures !r.MissingBlock?
      ensures r.Ok? ==> graph.State() == FuseSweep(old(graph.State()), Descending(cluster.blocks))
      ensures r.Ok? ==> Root !in graph.nodes && old(graph.sharedExits) <= graph.sharedExits
      ensures |cluster.entries| == 1 ==> r == Ok([cluster]) && graph.sharedExits == old(graph.sharedExits)
      ensures r.Ok? ==> SingleEntries(r.value, cluster.blocks) && Disjoint(r.value)
      ensures r.Ok? ==> HeadsAll(r.value, cluster.entries)
      ensures r.Ok? ==> forall c :: c in r.value ==> c == cluster || fresh(c)
      ensures |cluster.entries| > 1 ==>
        SplitBy(FuseSweep(old(graph.State()), Descending(cluster.blocks)), cluster.entries, cluster.blocks,
                idom, depth, r, old(graph.sharedExits), graph.sharedExits)
      ensures r.Ok? ==> KeepsUnreached(old(graph.State()), graph.State())
      ensures r.Ok? ==> forall b :: b in cluster.blocks ==> Accounted(b, BlocksOf(r.value), graph.State(), graph.sharedExits)
    {
      ghost var g0 := graph.State();
      PruneAndFuse(cluster);
      r, idom, depth := Subclusters(cluster);
      FuseSweepKeepsAllUnreached(g0, Descending(cluster.blocks));
    }

    /** The last step of PostProcessCluster: a cluster with one entry is a
        procedure as it stands; one with several is partitioned. */
    method Subclusters(cluster: Cluster)
      returns (r: Outcome<seq<Cluster>>, ghost idom: map<Node, Node>, ghost depth: map<Node, nat>)
      requires Valid() && Root !in graph.nodes && AllReal(cluster.blocks)
      requires cluster.entries != {} && cluster.entries <= cluster.blocks && cluster.entries <= graph.nodes
      modifies graph
      ensures Valid() && !r.MissingBlock?
      ensures |cluster.entries| > 1 ==>
        SplitBy(old(graph.State()), cluster.entries, cluster.blocks, idom, depth, r, old(graph.sharedExits), graph.sharedExits)
      ensures cluster.blocks == old(cluster.blocks) && cluster.entries == old(cluster.entries)
      ensures r.Ok? ==> graph.State() == old(graph.State()) && old(graph.sharedExits) <= graph.sharedExits
      ensures |cluster.entries| == 1 ==> r == Ok([cluster]) && graph.sharedExits == old(graph.sharedExits)
      ensures r.Ok? ==> SingleEntries(r.value, cluster.blocks) && Disjoint(r.value)
      ensures r.Ok? ==> HeadsAll(r.value, cluster.entries)
      ensures r.Ok? ==> forall c :: c in r.value ==> c == cluster || fresh(c)
      ensures r.Ok? ==> forall b :: b in cluster.blocks ==> Accounted(b, BlocksOf(r.value), graph.State(), graph.sharedExits)
    {
      if |cluster.entries| > 1 {
        var p;
        ghost var g0 := graph.State();
        p, idom, depth := PartitionIntoSubclusters(cluster);
        if p.Ok? {
          HeadsAllSubset(p.value, cluster.entries * cluster.blocks, cluster.entries);
          ghost var heads := NewEntries(cluster.blocks, idom);
          ClustersCover(g0, cluster.entries, cluster.blocks, idom, depth, p.value, heads,
                        Ascending(Survivors(heads, cluster.entries, g0.edges)));
          assert SplitBy(g0, cluster.entries, cluster.blocks, idom, depth, p, old(graph.sharedExits), graph.sharedExits);
          SplitAccounted(g0, cluster.entries, cluster.blocks, idom, depth, p.value, old(graph.sharedExits),
                         graph.sharedExits, graph.State());
        }
        r := p;
      } else {
        var e :| e in cluster.entries;
        SingletonOf(cluster.entries, e);
        OneCluster(cluster, e);
        r, idom, depth := Ok([cluster]), map[], map[];
        assert BlocksOf(r.value)[0] == cluster.blocks;
      }
    }

    /** The first two steps of PostProcessCluster: dead blocks go, then fusion runs
        over the blocks that are left; every entry is still in the graph after it. */
    method PruneAndFuse(cluster: Cluster)
      requires Valid() && Root !in graph.nodes && AllReal(cluster.blocks)
      requires cluster.entries <= cluster.blocks && cluster.entries <= graph.nodes
      requires forall e :: e in cluster.entries ==>
        Pred(graph.edges, e) == {} || forall b :: b in cluster.blocks ==> e.addr <= b.addr
      modifies graph, cluster
      ensures Valid() && cluster.entries == old(cluster.entries) && graph.sharedExits == old(graph.sharedExits)
      ensures cluster.blocks == old(cluster.blocks) - Dead(old(cluster.blocks), cluster.entries, old(graph.edges))
      ensures graph.State() == FuseSweep(old(graph.State()), Descending(cluster.blocks))
      ensures Root !in graph.nodes && cluster.entries <= cluster.blocks && cluster.entries <= graph.nodes
    {
      ghost var g0, blocks0 := graph.State(), cluster.blocks;
      PruneDeadNodes(cluster);
      assert cluster.entries <= cluster.blocks by {
        forall e | e in cluster.entries ensures e in cluster.blocks {
          PrunedBlocks(blocks0, cluster.entries, g0.edges, e);
        }
      }
      FuseBlocks(cluster);
      FuseSweepWellFormed(g0, Descending(cluster.blocks));
      FuseSweepKeepsEntries(g0, cluster.blocks, blocks0, cluster.entries);
    }

    /** Drops the blocks that are neither entries nor reached by any edge. */
    method PruneDeadNodes(cluster: Cluster)
      modifies cluster
      ensures cluster.entries == old(cluster.entries)
      ensures cluster.blocks == old(cluster.blocks) - Dead(old(cluster.blocks), cluster.entries, graph.edges)
    {
      var blocks, entries := cluster.blocks, cluster.entries;
      var dead: set<Node> := {};
      var todo := blocks;
      ghost var done: set<Node> := {};
      while todo != {}
        invariant todo <= blocks && done <= blocks && todo == blocks - done
        invariant dead == Dead(done, entries, graph.edges)
        invariant cluster.blocks == blocks && cluster.entries == entries
        decreases todo
      {
        var b :| b in todo;
        DeadAdd(done, entries, graph.edges, b);
        if b !in entries && graph.Predecessors(b) == {} {
          dead := dead + {b};
        }
        todo := todo - {b};
        done := done + {b};
      }
      cluster.blocks := blocks - dead;
    }

    /** Visits the cluster's blocks from the highest address down and lets each
        absorb its successor when the two form a contiguous straight-line pair.
        Absorbed blocks leave the graph but stay in the cluster. */
    method FuseBlocks(cluster: Cluster)
      requires Valid() && AllReal(cluster.blocks)
      modifies graph
      ensures Valid()
      ensures graph.State() == FuseSweep(old(graph.State()), Descending(cluster.blocks))
      ensures graph.sharedExits == old(graph.sharedExits)
    {
      ghost var g0 := graph.State();
      var order := Descending(cluster.blocks);
      var i := 0;
      while i < |order|
        invariant 0 <= i <= |order|
        invariant Valid() && graph.sharedExits == old(graph.sharedExits)
        invariant graph.State() == FuseSweep(g0, order[..i])
      {
        FuseSweepStep(g0, order, i);
        FuseAtBlock(order[i]);
        i := i + 1;
      }
      assert order[..i] == order;
    }

    /** One turn of FuseBlocks' loop: `block` absorbs its only successor when that
        successor has no other predecessor and starts where `block` ends. */
    method FuseAtBlock(block: Node)
      requires Valid() && block.Real?
      modifies graph
      ensures Valid() && graph.sharedExits == old(graph.sharedExits)
      ensures graph.State() == FuseAt(old(graph.State()), block)
    {
      ghost var h := graph.State();
      var succs := graph.Successors(block);
      if |succs| == 1 {
        var s :| s in succs;
        SingletonOf(succs, s);
        var preds := graph.Predecessors(s);
        if preds == {block} && EndAddress(block.addr, InstrsOf(graph.State(), block.addr)) == s.addr {
          assert CanFuse(h, block, s);
          FuseAtMerges(h, block, s);
          Merge(block, s);
        } else {
          forall x | CanFuse(h, block, x) ensures false {
            SingletonMember(succs, s, x);
          }
          FuseAtIdle(h, block);
        }
      } else {
        assert forall x :: !CanFuse(h, block, x);
        FuseAtIdle(h, block);
      }
    }

    /** The body of a fusion in FuseBlocks: `block` takes over the successors and
        the instructions of `s`, and `s` leaves the graph. */
    method Merge(block: Node, s: Node)
      requires Valid() && CanFuse(graph.State(), block, s)
      modifies graph
      ensures Valid() && graph.sharedExits == old(graph.sharedExits)
      ensures graph.State() == Absorb(old(graph.State()), block, s)
    {
      ghost var h := graph.State();
      FuseAtMerges(h, block, s);
      var ss := graph.Successors(s);
      graph.RemoveEdge(block, s);
      graph.AppendInstructions(block.addr, graph.instrs[s.addr]);
      graph.RemoveNode(s);
      assert forall n :: n in ss ==> (s, n) in h.edges && n != s;
      AddEdgesFrom(block, ss);
    }

    /** The loop of Merge: `block` gets an edge to each of `targets`. */
    method AddEdgesFrom(block: Node, targets: set<Node>)
      requires Valid() && block in graph.nodes && targets <= graph.nodes && Root !in targets
      modifies graph
      ensures Valid() && graph.sharedExits == old(graph.sharedExits)
      ensures graph.nodes == old(graph.nodes) && graph.instrs == old(graph.instrs)
      ensures graph.edges == old(graph.edges) + FanOut(block, targets)
    {
      var todo := targets;
      ghost var done: set<Node> := {};
      while todo != {}
        invariant todo <= targets && done <= targets && forall x :: x in targets ==> (x in todo <==> x !in done)
        invariant Valid() && graph.sharedExits == old(graph.sharedExits)
        invariant graph.nodes == old(graph.nodes) && graph.instrs == old(graph.instrs)
        invariant graph.edges == old(graph.edges) + FanOut(block, done)
        decreases todo
      {
        var n :| n in todo;
        FanOutAdd(block, done, n);
        graph.AddEdge(block, n);
        todo := todo - {n};
        done := done + {n};
      }
      assert done == targets;
    }

    /** Splits a cluster with several entries: the synthetic root is joined to the
        entries, every block is assigned to the first block above it in the
        dominator tree that the root immediately dominates, and the successor-less
        ones among those that were not entries become shared exits. */
    method PartitionIntoSubclusters(cluster: Cluster)
      returns (r: Outcome<seq<Cluster>>, ghost idom: map<Node, Node>, ghost depth: map<Node, nat>)
      requires Valid() && Root !in graph.nodes && AllReal(cluster.blocks)
      requires cluster.entries <= graph.nodes
      modifies graph
      ensures Valid()
      ensures Dominators.IsDominatorMap(WithRoot(old(graph.State()), cluster.entries), Root, idom, depth)
      ensures DepthOk(idom, depth)
      ensures r.Ok? <==> Resolves(idom, depth, cluster.blocks)
      ensures !r.MissingBlock?
      ensures !(cluster.blocks <= old(graph.nodes)) ==> r.MissingDominator?
      ensures r.MissingDominator? ==>
        graph.State() == WithRoot(old(graph.State()), cluster.entries) && graph.sharedExits == old(graph.sharedExits)
      ensures r.Ok? ==> graph.State() == old(graph.State())
      ensures r.Ok? ==>
        var heads := NewEntries(cluster.blocks, idom);
        graph.sharedExits == old(graph.sharedExits) + Addrs(SharedExits(heads, cluster.entries, old(graph.edges)))
      ensures r.Ok? ==>
        var heads := NewEntries(cluster.blocks, idom);
        var keys := Ascending(Survivors(heads, cluster.entries, old(graph.edges)));
        && |r.value| == |keys|
        && (forall j1, j2 :: 0 <= j1 < j2 < |keys| ==> keys[j1].addr < keys[j2].addr)
        && forall j :: 0 <= j < |keys| ==>
             fresh(r.value[j]) && r.value[j].entries == {keys[j]}
             && r.value[j].blocks == Members(idom, depth, heads, cluster.blocks, keys[j])
      ensures r.Ok? ==> SingleEntries(r.value, cluster.blocks) && Disjoint(r.value)
      ensures r.Ok? ==> HeadsAll(r.value, cluster.entries * cluster.blocks)
      ensures r.Ok? ==> forall c :: c in r.value ==> fresh(c)
      ensures cluster.blocks == old(cluster.blocks) && cluster.entries == old(cluster.entries)
    {
      ghost var g0 := graph.State();
      AddRoot(cluster.entries);
      var idoms, levels := Dominators.Create(graph.State(), Root);
      DominatorDepth(graph.State(), idoms, levels);
      assert idoms.Keys <= g0.nodes;
      idom, depth := idoms, levels;
      var found := FindNewEntries(cluster.blocks, idoms);
      if !found.Ok? {
        r := MissingDominator(found.node);
        return;
      }
      var newEntries := found.value;
      var partition := AssignBlocks(cluster.blocks, idoms, levels, newEntries);
      if !partition.Ok? {
        r := MissingDominator(partition.node);
        return;
      }
      var clusters := Regroup(cluster.blocks, cluster.entries, partition.value, g0, idom, depth, newEntries);
      r := Ok(clusters);
    }

    /** The last steps of PartitionIntoSubclusters once every block has its new
        entry: the root leaves the graph again, the new entries without successors
        become shared exits, and one cluster is made per surviving new entry. */
    method Regroup(blocks: set<Node>, entries: set<Node>, dominated: map<Node, set<Node>>, ghost g0: GraphState,
                   ghost idom: map<Node, Node>, ghost depth: map<Node, nat>, ghost heads: set<Node>)
      returns (clusters: seq<Cluster>)
      requires Valid() && WellFormed(g0) && Root !in g0.nodes && AllReal(blocks) && entries <= g0.nodes
      requires graph.State() == WithRoot(g0, entries)
      requires Dominators.IsDominatorMap(WithRoot(g0, entries), Root, idom, depth) && DepthOk(idom, depth)
      requires heads == NewEntries(blocks, idom) && dominated.Keys == heads
      requires forall k :: k in heads ==> dominated[k] == Members(idom, depth, heads, blocks, k)
      modifies graph
      ensures Valid() && graph.State() == g0
      ensures graph.sharedExits == old(graph.sharedExits) + Addrs(SharedExits(heads, entries, g0.edges))
      ensures
        var keys := Ascending(Survivors(heads, entries, g0.edges));
        && |clusters| == |keys|
        && (forall j1, j2 :: 0 <= j1 < j2 < |keys| ==> keys[j1].addr < keys[j2].addr)
        && forall j :: 0 <= j < |keys| ==>
             fresh(clusters[j]) && clusters[j].entries == {keys[j]}
             && clusters[j].blocks == Members(idom, depth, heads, blocks, keys[j])
      ensures SingleEntries(clusters, blocks) && Disjoint(clusters) && HeadsAll(clusters, entries * blocks)
      ensures forall c :: c in clusters ==> fresh(c)
    {
      graph.RemoveNode(Root);
      WithRootRemoved(g0, entries);
      var kept := MarkSharedExits(dominated, entries);
      var keys := Ascending(kept.Keys);
      AscendingSorted(kept.Keys);
      MembersPartitioned(idom, depth, heads, blocks, kept);
      forall e | e in entries * blocks ensures e in kept {
        EntriesAreKeys(g0, entries, blocks, idom, depth, e);
      }
      clusters := MakeClusters(keys, kept, blocks);
      assert kept.Keys == Survivors(heads, entries, g0.edges);
    }

    /** One new cluster per surviving new entry, in ascending address order. */
    static method MakeClusters(keys: seq<Node>, dominated: map<Node, set<Node>>, ghost within: set<Node>)
      returns (clusters: seq<Cluster>)
      requires forall j :: 0 <= j < |keys| ==> keys[j] in dominated
      requires forall k :: k in dominated ==> k in keys
      requires forall j1, j2 :: 0 <= j1 < j2 < |keys| ==> keys[j1] != keys[j2]
      requires Partitioned(dominated, within)
      ensures |clusters| == |keys|
      ensures forall j :: 0 <= j < |keys| ==>
        fresh(clusters[j]) && clusters[j].entries == {keys[j]} && clusters[j].blocks == dominated[keys[j]]
      ensures SingleEntries(clusters, within) && Disjoint(clusters) && HeadsAll(clusters, dominated.Keys)
    {
      clusters := [];
      var i := 0;
      while i < |keys|
        invariant 0 <= i <= |keys| && |clusters| == i
        invariant forall j :: 0 <= j < i ==>
          fresh(clusters[j]) && clusters[j].entries == {keys[j]} && clusters[j].blocks == dominated[keys[j]]
      {
        var c := new Cluster.From({keys[i]}, dominated[keys[i]]);
        clusters := clusters + [c];
        i := i + 1;
      }
      forall k | k in dominated ensures exists j :: 0 <= j < |clusters| && clusters[j].entries == {k} {
        var j :| 0 <= j < |keys| && keys[j] == k;
        assert clusters[j].entries == {k};
      }
    }

    /** Adds the synthetic root and an edge from it to each entry. */
    method AddRoot(entries: set<Node>)
      requires Valid() && Root !in graph.nodes && entries <= graph.nodes
      modifies graph
      ensures Valid() && graph.sharedExits == old(graph.sharedExits)
      ensures graph.State() == WithRoot(old(graph.State()), entries)
    {
      ghost var g0 := graph.State();
      graph.AddNode(Root);
      var todo := entries;
      while todo != {}
        invariant todo <= entries
        invariant Valid() && graph.sharedExits == old(graph.sharedExits)
        invariant graph.nodes == g0.nodes + {Root} && graph.instrs == g0.instrs
        invariant graph.edges == g0.edges + RootEdges(entries - todo)
        decreases todo
      {
        var e :| e in todo;
        RootEdgesAdd(entries - todo, e);
        graph.AddEdge(Root, e);
        assert entries - (todo - {e}) == (entries - todo) + {e};
        todo := todo - {e};
      }
    }

    /** The blocks the root immediately dominates, looked up block by block in
        address order; the first block without an immediate dominator makes the
        look-up throw. */
    method FindNewEntries(blocks: set<Node>, idom: map<Node, Node>) returns (r: Outcome<set<Node>>)
      requires AllReal(blocks)
      ensures r.Ok? <==> forall b :: b in blocks ==> b in idom
      ensures r.Ok? ==> r.value == NewEntries(blocks, idom)
      ensures r.MissingDominator? ==>
        r.node in blocks && r.node !in idom && forall b :: b in blocks && b.addr < r.node.addr ==> b in idom
      ensures !r.MissingBlock?
    {
      var newEntries: set<Node> := {};
      var todo := blocks;
      ghost var done: set<Node> := {};
      while todo != {}
        invariant todo <= blocks && done <= blocks && todo == blocks - done
        invariant forall b :: b in done ==> b in idom
        invariant forall b, c :: b in done && c in todo ==> b.addr < c.addr
        invariant newEntries == NewEntries(done, idom)
        decreases todo
      {
        var b := MinBlock(todo);
        NewEntriesAdd(done, b, idom);
        if b !in idom {
          return MissingDominator(b);
        }
        if idom[b] == Root {
          newEntries := newEntries + {b};
        }
        todo := todo - {b};
        done := done + {b};
      }
      r := Ok(newEntries);
    }

    /** The dictionary from each new entry to its blocks: every block that is not a
        new entry is added to the first new entry on its idom chain. The walk
        throws when it reaches a node without an immediate dominator. */
    method AssignBlocks(blocks: set<Node>, idom: map<Node, Node>, depth: map<Node, nat>, newEntries: set<Node>)
      returns (r: Outcome<map<Node, set<Node>>>)
      requires DepthOk(idom, depth)
      ensures r.Ok? <==> forall b :: b in blocks && b !in newEntries ==> Owner(idom, depth, newEntries, b).Ok?
      ensures r.Ok? ==> r.value.Keys == newEntries
      ensures r.Ok? ==> forall k :: k in newEntries ==> r.value[k] == Members(idom, depth, newEntries, blocks, k)
      ensures r.MissingDominator? ==>
        exists b :: b in blocks && b !in newEntries && Owner(idom, depth, newEntries, b) == MissingDominator(r.node)
      ensures !r.MissingBlock?
    {
      var dominatedEntries := map k | k in newEntries :: {k};
      var todo := blocks;
      ghost var done: set<Node> := {};
      while todo != {}
        invariant todo <= blocks && done <= blocks
        invariant forall x :: x in blocks ==> (x in todo <==> x !in done)
        invariant Assigned(idom, depth, newEntries, done, dominatedEntries)
        invariant forall b :: b in done && b !in newEntries ==> Owner(idom, depth, newEntries, b).Ok?
        decreases todo
      {
        var b :| b in todo;
        if b in dominatedEntries {
          AssignedKeep(idom, depth, newEntries, done, dominatedEntries, b);
        } else {
          var owner := WalkToEntry(idom, depth, newEntries, b);
          if !owner.Ok? {
            return MissingDominator(owner.node);
          }
          AssignedJoin(idom, depth, newEntries, done, dominatedEntries, b, owner.value);
          dominatedEntries := dominatedEntries[owner.value := dominatedEntries[owner.value] + {b}];
        }
        todo := todo - {b};
        done := done + {b};
      }
      assert done == blocks;
      r := Ok(dominatedEntries);
    }

    /** The inner loop of the assignment: climbs the idom chain from `b` until the
        immediate dominator is one of `heads`. */
    static method WalkToEntry(idom: map<Node, Node>, depth: map<Node, nat>, heads: set<Node>, b: Node)
      returns (r: Outcome<Node>)
      requires DepthOk(idom, depth)
      ensures r == Owner(idom, depth, heads, b)
    {
      var n := b;
      while true
        invariant Owner(idom, depth, heads, n) == Owner(idom, depth, heads, b)
        decreases Height(idom, depth, n)
      {
        if n !in idom {
          return MissingDominator(n);
        }
        var d := idom[n];
        if d in heads {
          return Ok(d);
        }
        n := d;
      }
    }

    /** Drops the new entries that were not entries before and have no successor,
        flagging each as a shared exit. */
    method MarkSharedExits(dominated: map<Node, set<Node>>, entries: set<Node>) returns (kept: map<Node, set<Node>>)
      requires AllReal(dominated.Keys)
      modifies graph
      ensures graph.State() == old(graph.State())
      ensures kept.Keys == Survivors(dominated.Keys, entries, graph.edges)
      ensures forall k :: k in kept ==> kept[k] == dominated[k]
      ensures graph.sharedExits == old(graph.sharedExits) + Addrs(SharedExits(dominated.Keys, entries, graph.edges))
    {
      kept := dominated;
      var candidates := dominated.Keys - entries;
      ghost var done: set<Node> := {};
      while candidates != {}
        invariant done <= dominated.Keys - entries && candidates <= dominated.Keys - entries
        invariant forall x :: x in dominated.Keys - entries ==> (x in candidates <==> x !in done)
        invariant graph.State() == old(graph.State())
        invariant kept.Keys == dominated.Keys - SharedExits(done, entries, graph.edges)
        invariant forall k :: k in kept ==> kept[k] == dominated[k]
        invariant graph.sharedExits == old(graph.sharedExits) + Addrs(SharedExits(done, entries, graph.edges))
        decreases candidates
      {
        var h :| h in candidates;
        SharedExitsAdd(done, entries, graph.edges, h);
        if graph.Successors(h) == {} {
          graph.MarkSharedExit(h.addr);
          kept := kept - {h};
        }
        candidates := candidates - {h};
        done := done + {h};
      }
      assert done == dominated.Keys - entries;
      SharedExitsSplit(dominated.Keys, entries, graph.edges);
    }

    /** Runs the detector: severs the edges into known procedures, collects the
        clusters and turns them into procedures. */
    method DetectProcedures() returns (r: Outcome<seq<Cluster>>)
      requires Valid() && AllReal(graph.nodes)
      modifies graph, listener
      ensures Valid()
      ensures r.MissingBlock? ==> r.addr in knownProcedures && r.addr !in blockIndex
      ensures r.Ok? && !listener.canceled ==> knownProcedures <= blockIndex.Keys
      ensures r.Ok? ==> SingleEntries(r.value, old(graph.nodes)) && Disjoint(r.value)
      ensures old(listener.canceled) ==> r == Ok([])
      ensures r.Ok? && !listener.canceled ==>
        forall b :: b in old(graph.nodes) ==> Accounted(b, BlocksOf(r.value), graph.State(), graph.sharedExits)
    {
      var removed, severed := RemoveJumpsToKnownProcedures();
      if removed.MissingBlock? {
        return MissingBlock(removed.addr);
      }
      var clusters, parts, roots, parents, ranks := FindClusters();
      forall k | 0 <= k < |parts| ensures parts[k] != {} && parts[k] <= graph.nodes && Isolated(graph.edges, parts[k]) {
        UnionContains(parts, k);
        ClosedIsIsolated(graph.edges, knownProcedures, parts[k]);
      }
      r := BuildProcedures(clusters, parts);
    }

    /** Picks the entries of each cluster and post-processes it, polling for
        cancellation before each one; the procedures of all clusters are returned
        in cluster order. */
    method BuildProcedures(clusters: seq<Cluster>, ghost parts: seq<set<Node>>) returns (r: Outcome<seq<Cluster>>)
      requires Valid() && |parts| == |clusters| && Pending(graph.State(), knownProcedures, parts, 0)
      requires forall k :: 0 <= k < |clusters| ==> clusters[k].blocks == parts[k] && clusters[k].entries == {}
      requires forall j, k :: 0 <= j < k < |parts| ==> parts[j] * parts[k] == {}
      modifies graph, listener, clusters
      ensures Valid() && !r.MissingBlock?
      ensures old(listener.canceled) ==> r == Ok([]) && listener.canceled
      ensures r.Ok? ==> SingleEntries(r.value, old(graph.nodes)) && Disjoint(r.value)
      ensures r.Ok? && !listener.canceled ==>
        forall b :: b in Union(parts) ==> Accounted(b, BlocksOf(r.value), graph.State(), graph.sharedExits)
    {
      ghost var nodes0 := graph.nodes;
      forall j, k | 0 <= j < k < |clusters| ensures clusters[j] != clusters[k] {
        assert parts[j] != {} && parts[j] * parts[k] == {};
        var n :| n in parts[j];
        assert n !in parts[j] * parts[k];
      }
      var out: seq<Cluster> := [];
      // Ghost copies of the outputs' entries and blocks, so that the facts about
      // them survive the heap updates; `used` holds the blocks of the clusters done.
      ghost var outEntries: seq<set<Node>> := [];
      ghost var outBlocks: seq<set<Node>> := [];
      ghost var used: set<Node> := {};
      var i := 0;
      while i < |clusters|
        invariant i <= |clusters| && Valid()
        invariant Pending(graph.State(), knownProcedures, parts, i)
        invariant forall k :: i <= k < |clusters| ==> clusters[k].blocks == parts[k] && clusters[k].entries == {}
        invariant |outEntries| == |out| && |outBlocks| == |out|
        invariant forall j :: 0 <= j < |out| ==> out[j].entries == outEntries[j] && out[j].blocks == outBlocks[j]
        invariant Procedures(outEntries, outBlocks, used) && used <= nodes0
        invariant forall k :: i <= k < |parts| ==> used * parts[k] == {} && parts[k] <= nodes0
        invariant forall k :: i <= k < |clusters| ==> clusters[k] !in out
        invariant old(listener.canceled) ==> out == [] && listener.canceled
        // Polling the listener leaves every cluster alone.
        invariant forall c :: c in clusters ==> c as object != listener
        invariant forall c :: c in out ==> c as object != listener
        invariant forall k :: 0 <= k < i ==> parts[k] <= used
        invariant forall b :: b in used ==> Accounted(b, outBlocks, graph.State(), graph.sharedExits)
        decreases |clusters| - i
      {
        var canceled := listener.IsCanceled();
        if canceled {
          break;
        }
        var res;
        res, out, outEntries, outBlocks := Turn(clusters, parts, i, out, outEntries, outBlocks, used);
        if !res.Ok? {
          return MissingDominator(res.node);
        }
        used := used + parts[i];
        i := i + 1;
      }
      r := Ok(out);
      Published(out, outEntries, outBlocks, used, nodes0);
      assert BlocksOf(out) == outBlocks;
      if !listener.canceled {
        forall b | b in Union(parts) ensures b in used {
          UnionMember(parts, b);
        }
      }
    }

    /** The body of BuildProcedures' loop after the poll: cluster `i` is processed
        and its procedures are appended to `out`, with the ghost copies kept in step. */
    method Turn(clusters: seq<Cluster>, ghost parts: seq<set<Node>>, i: nat, out: seq<Cluster>,
                ghost outEntries: seq<set<Node>>, ghost outBlocks: seq<set<Node>>, ghost used: set<Node>)
      returns (res: Outcome<seq<Cluster>>, out': seq<Cluster>, ghost outEntries': seq<set<Node>>,
               ghost outBlocks': seq<set<Node>>)
      requires i < |clusters| && |parts| == |clusters| && Valid()
      requires Pending(graph.State(), knownProcedures, parts, i)
      requires forall k :: i < k < |parts| ==> parts[i] * parts[k] == {}
      requires forall j, k :: 0 <= j < k < |clusters| ==> clusters[j] != clusters[k]
      requires forall k :: i <= k < |clusters| ==> clusters[k].blocks == parts[k] && clusters[k].entries == {}
      requires |outEntries| == |out| && |outBlocks| == |out|
      requires forall j :: 0 <= j < |out| ==> out[j].entries == outEntries[j] && out[j].blocks == outBlocks[j]
      requires Procedures(outEntries, outBlocks, used) && used * parts[i] == {}
      requires forall k :: i <= k < |clusters| ==> clusters[k] !in out
      requires forall b :: b in used ==> Accounted(b, outBlocks, graph.State(), graph.sharedExits)
      modifies graph, clusters[i]
      ensures Valid() && !res.MissingBlock?
      ensures res.Ok? ==> Pending(graph.State(), knownProcedures, parts, i + 1)
      ensures res.Ok? ==> forall k :: i + 1 <= k < |clusters| ==> clusters[k].blocks == parts[k] && clusters[k].entries == {}
      ensures res.Ok? ==> |outEntries'| == |out'| && |outBlocks'| == |out'|
      ensures res.Ok? ==> forall j :: 0 <= j < |out'| ==> out'[j].entries == outEntries'[j] && out'[j].blocks == outBlocks'[j]
      ensures res.Ok? ==> Procedures(outEntries', outBlocks', used + parts[i])
      ensures res.Ok? ==> forall k :: i + 1 <= k < |clusters| ==> clusters[k] !in out'
      ensures res.Ok? ==> forall c :: c in out' ==> c in out || c as object != listener
      ensures res.Ok? ==> forall b :: b in used + parts[i] ==> Accounted(b, outBlocks', graph.State(), graph.sharedExits)
    {
      ghost var g0, exits0 := graph.State(), graph.sharedExits;
      var cluster := clusters[i];
      ghost var others := out + clusters[..i] + clusters[i + 1..];
      assert cluster !in others;
      res := ProcessCluster(cluster, parts, i, others);
      out', outEntries', outBlocks' := out, outEntries, outBlocks;
      if res.Ok? {
        assert forall k :: i < k < |clusters| ==> clusters[k] in others;
        forall j | 0 <= j < |out| ensures out[j].entries == outEntries[j] && out[j].blocks == outBlocks[j] {
          assert out[j] in others;
        }
        outEntries', outBlocks' := Account(out, outEntries, outBlocks, used, parts[i], res.value);
        out' := out + res.value;
        forall b | b in used + parts[i] ensures Accounted(b, outBlocks', graph.State(), graph.sharedExits) {
          if b in used {
            AccountedLater(b, outBlocks, BlocksOf(res.value), g0, graph.State(), exits0, graph.sharedExits);
          } else {
            AccountedSuffix(b, outBlocks, BlocksOf(res.value), graph.State(), graph.sharedExits);
          }
        }
      }
    }

    /** One turn of BuildProcedures' loop: the entries of cluster `i` are chosen
        and the cluster is post-processed. */
    method ProcessCluster(cluster: Cluster, ghost parts: seq<set<Node>>, ghost i: nat, ghost others: seq<Cluster>)
      returns (r: Outcome<seq<Cluster>>)
      requires Valid() && i < |parts| && Pending(graph.State(), knownProcedures, parts, i)
      requires cluster.blocks == parts[i] && cluster.entries == {}
      requires forall k :: i < k < |parts| ==> parts[i] * parts[k] == {}
      requires cluster !in others
      modifies graph, cluster
      ensures Valid() && !r.MissingBlock?
      ensures forall c :: c in others ==> c.entries == old(c.entries) && c.blocks == old(c.blocks)
      ensures cluster.entries == ChooseEntries({}, parts[i], knownProcedures, old(graph.edges))
      ensures cluster.entries != {} && cluster.entries <= parts[i] && cluster.blocks <= parts[i]
      ensures r.Ok? ==> Pending(graph.State(), knownProcedures, parts, i + 1)
      ensures r.Ok? ==> SingleEntries(r.value, parts[i]) && Disjoint(r.value) && HeadsAll(r.value, cluster.entries)
      ensures r.Ok? ==> forall c :: c in r.value ==> c == cluster || fresh(c)
      ensures r.Ok? ==> forall c :: c in r.value ==> c !in others
      ensures r.Ok? ==> forall c :: c in r.value ==> c as object != listener
      ensures r.Ok? ==> KeepsUnreached(old(graph.State()), graph.State()) && old(graph.sharedExits) <= graph.sharedExits
      ensures r.Ok? ==> forall b :: b in parts[i] ==> Accounted(b, BlocksOf(r.value), graph.State(), graph.sharedExits)
    {
      ghost var g0 := graph.State();
      FindClusterEntries(cluster);
      ChooseEntriesRule(parts[i], knownProcedures, graph.edges);
      forall e | e in cluster.entries
        ensures Pred(graph.edges, e) == {} || forall b :: b in cluster.blocks ==> e.addr <= b.addr
      {
        ChosenEntriesAreSafe(parts[i], knownProcedures, graph.edges, e);
      }
      r := PostProcessPending(cluster, parts, i);
    }

    /** PostProcessCluster on the `i`-th pending cluster once its entries are
        chosen: the later clusters stay pending, and the procedures lie within it. */
    method PostProcessPending(cluster: Cluster, ghost parts: seq<set<Node>>, ghost i: nat)
      returns (r: Outcome<seq<Cluster>>)
      requires Valid() && i < |parts| && Pending(graph.State(), knownProcedures, parts, i)
      requires cluster.blocks == parts[i] && cluster.entries != {} && cluster.entries <= cluster.blocks
      requires forall k :: i < k < |parts| ==> parts[i] * parts[k] == {}
      requires forall e :: e in cluster.entries ==>
        Pred(graph.edges, e) == {} || forall b :: b in cluster.blocks ==> e.addr <= b.addr
      modifies graph, cluster
      ensures Valid() && !r.MissingBlock?
      ensures cluster.entries == old(cluster.entries) && cluster.blocks <= parts[i]
      ensures r.Ok? ==> Pending(graph.State(), knownProcedures, parts, i + 1)
      ensures r.Ok? ==> SingleEntries(r.value, parts[i]) && Disjoint(r.value) && HeadsAll(r.value, cluster.entries)
      ensures r.Ok? ==> forall c :: c in r.value ==> c == cluster || fresh(c)
      ensures r.Ok? ==> KeepsUnreached(old(graph.State()), graph.State()) && old(graph.sharedExits) <= graph.sharedExits
      ensures r.Ok? ==> forall b :: b in parts[i] ==> Accounted(b, BlocksOf(r.value), graph.State(), graph.sharedExits)
    {
      ghost var g0 := graph.State();
      ghost var idom, depth;
      r, idom, depth := PostProcessCluster(cluster);
      if r.Ok? {
        PendingAfterSweep(g0, Descending(cluster.blocks), knownProcedures, parts, i);
        SingleEntriesWithin(r.value, cluster.blocks, parts[i]);
        PrunedAccounted(g0, parts[i], cluster.entries, cluster.blocks, BlocksOf(r.value), graph.State(), graph.sharedExits);
      }
    }
  }
}
