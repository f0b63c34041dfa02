/** The first step of PostProcessCluster: dropping the cluster's dead blocks. */
module Pruning {
  import opened Blocks
  import opened Graph

  /** The blocks of a cluster that are not entries and that no edge reaches. */
  function Dead(blocks: set<Node>, entries: set<Node>, edges: set<Edge>): set<Node>
  {
    set b | b in blocks && b !in entries && Pred(edges, b) == {}
  }

  lemma DeadAdd(blocks: set<Node>, entries: set<Node>, edges: set<Edge>, b: Node)
    ensures Dead(blocks + {b}, entries, edges) ==
      Dead(blocks, entries, edges) + (if b !in entries && Pred(edges, b) == {} then {b} else {})
  {
  }

  /** Pruning keeps every entry and every block with a predecessor, and only those. */
  lemma PrunedBlocks(blocks: set<Node>, entries: set<Node>, edges: set<Edge>, b: Node)
    ensures b in blocks - Dead(blocks, entries, edges) <==> b in blocks && (b in entries || Pred(edges, b) != {})
  {
  }
}
