/** The interprocedural control-flow graph the detector works on, together with
    the table of block contents: each block's instructions and its shared-exit
    flag. In the original these live on the block objects; here they are kept by
    block address, which identifies a block uniquely. */
module Graph {
  import opened Blocks

  type Edge = (Node, Node)

  function Succ(edges: set<Edge>, n: Node): (r: set<Node>)
    ensures forall s :: s in r <==> (n, s) in edges
  {
    set e | e in edges && e.0 == n :: e.1
  }

  function Pred(edges: set<Edge>, n: Node): (r: set<Node>)
    ensures forall p :: p in r <==> (p, n) in edges
  {
    set e | e in edges && e.1 == n :: e.0
  }

  /** The edges left when a node is removed: removal takes every incident edge with it. */
  function WithoutNode(edges: set<Edge>, n: Node): set<Edge>
  {
    set e | e in edges && e.0 != n && e.1 != n
  }

  /** A snapshot of the graph and of the block table. */
  datatype GraphState = GraphState(nodes: set<Node>, edges: set<Edge>, instrs: map<nat, seq<Instruction>>)

  function InstrsOf(g: GraphState, a: nat): seq<Instruction>
  {
    if a in g.instrs then g.instrs[a] else []
  }

  /** Every edge joins two nodes of the graph, nothing flows into the synthetic
      root, and every real block holds at least one byte of instructions. */
  ghost predicate WellFormed(g: GraphState)
  {
    (forall e :: e in g.edges ==> e.0 in g.nodes && e.1 in g.nodes && e.1 != Root)
    && (forall n :: n in g.nodes && n.Real? ==> n.addr in g.instrs && TotalLength(g.instrs[n.addr]) > 0)
  }

  class Icfg {
    var nodes: set<Node>
    var edges: set<Edge>
    var instrs: map<nat, seq<Instruction>>
    var sharedExits: set<nat>

    function State(): GraphState
      reads this
    {
      GraphState(nodes, edges, instrs)
    }

    ghost predicate Valid()
      reads this
    {
      WellFormed(State())
    }

    constructor (nodes: set<Node>, edges: set<Edge>, instrs: map<nat, seq<Instruction>>)
      requires WellFormed(GraphState(nodes, edges, instrs))
      ensures Valid()
      ensures this.nodes == nodes && this.edges == edges && this.instrs == instrs
      ensures sharedExits == {}
    {
      this.nodes := nodes;
      this.edges := edges;
      this.instrs := instrs;
      sharedExits := {};
    }

    function Successors(n: Node): set<Node>
      reads this
    {
      Succ(edges, n)
    }

    function Predecessors(n: Node): set<Node>
      reads this
    {
      Pred(edges, n)
    }

    method AddNode(n: Node)
      requires Valid()
      requires n.Real? ==> n.addr in instrs && TotalLength(instrs[n.addr]) > 0
      modifies this
      ensures Valid()
      ensures nodes == old(nodes) + {n} && edges == old(edges)
      ensures instrs == old(instrs) && sharedExits == old(sharedExits)
    {
      nodes := nodes + {n};
    }

    method RemoveNode(n: Node)
      requires Valid()
      modifies this
      ensures Valid()
      ensures nodes == old(nodes) - {n} && edges == WithoutNode(old(edges), n)
      ensures instrs == old(instrs) && sharedExits == old(sharedExits)
    {
      nodes := nodes - {n};
      edges := WithoutNode(edges, n);
    }

    /** Adding an edge whose ends are not both nodes is a precondition violation. */
    method AddEdge(from: Node, to: Node)
      requires Valid() && from in nodes && to in nodes && to != Root
      modifies this
      ensures Valid()
      ensures edges == old(edges) + {(from, to)} && nodes == old(nodes)
      ensures instrs == old(instrs) && sharedExits == old(sharedExits)
    {
      edges := edges + {(from, to)};
    }

    method RemoveEdge(from: Node, to: Node)
      requires Valid()
      modifies this
      ensures Valid()
      ensures edges == old(edges) - {(from, to)} && nodes == old(nodes)
      ensures instrs == old(instrs) && sharedExits == old(sharedExits)
    {
      edges := edges - {(from, to)};
    }

    /** block.Instructions.AddRange(more). */
    method AppendInstructions(a: nat, more: seq<Instruction>)
      requires Valid() && a in instrs
      modifies this
      ensures Valid()
      ensures instrs == old(instrs)[a := old(instrs)[a] + more]
      ensures nodes == old(nodes) && edges == old(edges) && sharedExits == old(sharedExits)
    {
      TotalLengthAppend(instrs[a], more);
      instrs := instrs[a := instrs[a] + more];
    }

    /** block.IsSharedExitBlock = true. */
    method MarkSharedExit(a: nat)
      modifies this
      ensures sharedExits == old(sharedExits) + {a}
      ensures nodes == old(nodes) && edges == old(edges) && instrs == old(instrs)
    {
      sharedExits := sharedExits + {a};
    }
  }
}
