/** How FindClusterEntries picks the entries of a cluster. */
module EntryRules {
  import opened Blocks
  import opened Graph
  import opened Components

  /** The cluster's blocks that are known procedures. */
  function CalledBlocks(blocks: set<Node>, known: set<nat>): set<Node>
  {
    set b | b in blocks && IsKnown(known, b)
  }

  /** The cluster's blocks that no edge reaches. */
  function UnreachedBlocks(blocks: set<Node>, edges: set<Edge>): set<Node>
  {
    set b | b in blocks && Pred(edges, b) == {}
  }

  lemma CalledBlocksAdd(done: set<Node>, b: Node, known: set<nat>)
    ensures CalledBlocks(done + {b}, known) == CalledBlocks(done, known) + (if IsKnown(known, b) then {b} else {})
  {
  }

  lemma UnreachedBlocksAdd(done: set<Node>, b: Node, edges: set<Edge>)
    ensures UnreachedBlocks(done + {b}, edges) == UnreachedBlocks(done, edges) + (if Pred(edges, b) == {} then {b} else {})
  {
  }

  /** The entries after FindClusterEntries, given the entries the cluster already had:
      the known procedures are added; if that leaves no entry, the blocks without
      predecessors are taken; if there are none, the lowest-addressed block is. */
  function ChooseEntries(prior: set<Node>, blocks: set<Node>, known: set<nat>, edges: set<Edge>): set<Node>
    requires blocks != {} && AllReal(blocks)
  {
    var called := prior + CalledBlocks(blocks, known);
    if called != {} then called
    else if UnreachedBlocks(blocks, edges) != {} then UnreachedBlocks(blocks, edges)
    else {MinBlock(blocks)}
  }

  /** The three-tier rule on a cluster with no entries yet: the first tier that
      yields a block decides, the entries are blocks of the cluster, and there is
      at least one. */
  lemma ChooseEntriesRule(blocks: set<Node>, known: set<nat>, edges: set<Edge>)
    requires blocks != {} && AllReal(blocks)
    ensures var r := ChooseEntries({}, blocks, known, edges);
      && r != {} && r <= blocks
      && (CalledBlocks(blocks, known) != {} ==>
            forall b :: b in r <==> b in blocks && IsKnown(known, b))
      && (CalledBlocks(blocks, known) == {} && UnreachedBlocks(blocks, edges) != {} ==>
            forall b :: b in r <==> b in blocks && Pred(edges, b) == {})
      && (CalledBlocks(blocks, known) == {} && UnreachedBlocks(blocks, edges) == {} ==>
            exists m :: r == {m} && m in blocks && forall b :: b in blocks ==> m.addr <= b.addr)
  {
    var m := MinBlock(blocks);
    if CalledBlocks(blocks, known) == {} && UnreachedBlocks(blocks, edges) == {} {
      assert ChooseEntries({}, blocks, known, edges) == {m};
    }
  }

  /** Once no edge reaches a known procedure, every entry the rule picks either has
      no predecessor or lies at the lowest address of the cluster. */
  lemma ChosenEntriesAreSafe(blocks: set<Node>, known: set<nat>, edges: set<Edge>, e: Node)
    requires blocks != {} && AllReal(blocks) && NoneIntoKnown(edges, known)
    requires e in ChooseEntries({}, blocks, known, edges)
    ensures e in blocks
    ensures Pred(edges, e) == {} || forall b :: b in blocks ==> e.addr <= b.addr
  {
    if e in CalledBlocks(blocks, known) {
      assert forall p :: (p, e) !in edges;
    }
  }
}
