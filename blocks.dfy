/** Basic blocks of the interprocedural control-flow graph, identified by their
    start address, and the address order in which clusters keep their blocks. */
module Blocks {

  /** A node of the graph: a real basic block, known by its start address, or the
      synthetic root that the partitioning step adds while it computes dominators.
      The root has no address, so it is a variant of its own rather than a block
      whose address may be missing. */
  datatype Node = Real(addr: nat) | Root

  /** One disassembled instruction; the detector only needs its length. */
  datatype Instruction = Instruction(opcode: nat, length: nat)

  predicate AllReal(s: set<Node>)
  {
    forall n :: n in s ==> n.Real?
  }

  /** The addresses of a set of real blocks. */
  function Addrs(s: set<Node>): set<nat>
    requires AllReal(s)
  {
    set n | n in s :: n.addr
  }

  /** The number of bytes a run of instructions occupies. */
  function TotalLength(instrs: seq<Instruction>): nat
  {
    if instrs == [] then 0 else instrs[0].length + TotalLength(instrs[1..])
  }

  /** The address just past the last instruction of a block that starts at `addr`. */
  function EndAddress(addr: nat, instrs: seq<Instruction>): nat
  {
    addr + TotalLength(instrs)
  }

  lemma {:induction false} TotalLengthAppend(xs: seq<Instruction>, ys: seq<Instruction>)
    ensures TotalLength(xs + ys) == TotalLength(xs) + TotalLength(ys)
  {
    if xs == [] {
      assert xs + ys == ys;
    } else {
      assert (xs + ys)[1..] == xs[1..] + ys;
      TotalLengthAppend(xs[1..], ys);
    }
  }

  /** A block made of a block starting at `a` followed by the block that starts
      exactly where the first one ends ends where the second one ends. */
  lemma ContiguousEnd(a: nat, xs: seq<Instruction>, ys: seq<Instruction>)
    ensures EndAddress(a, xs + ys) == EndAddress(EndAddress(a, xs), ys)
  {
    TotalLengthAppend(xs, ys);
  }

  /** The comparer of a cluster's sorted sets: real blocks ordered by address. */
  function Compare(x: Node, y: Node): (r: int)
    requires x.Real? && y.Real?
    ensures r < 0 <==> x.addr < y.addr
    ensures r > 0 <==> y.addr < x.addr
    ensures r == 0 <==> x == y
  {
    if x.addr < y.addr then -1 else if y.addr < x.addr then 1 else 0
  }

  lemma {:induction false} LowestOf(s: set<Node>) returns (m: Node)
    requires s != {} && AllReal(s)
    ensures m in s && forall x :: x in s ==> m.addr <= x.addr
  {
    var y :| y in s;
    if s == {y} {
      m := y;
    } else {
      var rest := LowestOf(s - {y});
      m := if y.addr < rest.addr then y else rest;
    }
  }

  lemma MinExists(s: set<Node>)
    requires s != {} && AllReal(s)
    ensures exists m :: m in s && forall x :: x in s ==> m.addr <= x.addr
  {
    var m := LowestOf(s);
  }

  /** The lowest-addressed block of a non-empty set: the block that the cluster's
      `Blocks.Min()` is taken to be. */
  function MinBlock(s: set<Node>): (m: Node)
    requires s != {} && AllReal(s)
    ensures m in s && forall x :: x in s ==> m.addr <= x.addr
  {
    MinExists(s);
    var m :| m in s && forall x :: x in s ==> m.addr <= x.addr; m
  }

  /** The blocks of a set in the order a sorted set enumerates them. */
  function Ascending(s: set<Node>): (r: seq<Node>)
    requires AllReal(s)
    ensures |r| == |s|
    ensures forall n :: n in r <==> n in s
    decreases |s|
  {
    if s == {} then []
    else
      var m := MinBlock(s);
      [m] + Ascending(s - {m})
  }

  /** The blocks of a set from the highest address down (Enumerable.Reverse of a sorted set). */
  function Descending(s: set<Node>): (r: seq<Node>)
    requires AllReal(s)
    ensures |r| == |s|
    ensures forall n :: n in r <==> n in s
    decreases |s|
  {
    if s == {} then []
    else
      var m := MinBlock(s);
      Descending(s - {m}) + [m]
  }

  /** Ascending lists the blocks from the lowest address up. */
  lemma {:induction false} AscendingSorted(s: set<Node>)
    requires AllReal(s)
    ensures forall i, j :: 0 <= i < j < |Ascending(s)| ==> Ascending(s)[i].addr < Ascending(s)[j].addr
    decreases |s|
  {
    if s != {} {
      var m := MinBlock(s);
      var rest := Ascending(s - {m});
      AscendingSorted(s - {m});
      assert Ascending(s) == [m] + rest;
      forall i, j | 0 <= i < j < |rest| + 1 ensures ([m] + rest)[i].addr < ([m] + rest)[j].addr {
        var x := rest[j - 1];
        assert x in s - {m} && x == Real(x.addr) && m == Real(m.addr);
        if i > 0 {
          assert rest[i - 1].addr < x.addr;
        }
      }
    }
  }

  /** Descending lists the blocks from the highest address down. */
  lemma {:induction false} DescendingSorted(s: set<Node>)
    requires AllReal(s)
    ensures forall i, j :: 0 <= i < j < |Descending(s)| ==> Descending(s)[j].addr < Descending(s)[i].addr
    decreases |s|
  {
    if s != {} {
      var m := MinBlock(s);
      var rest := Descending(s - {m});
      DescendingSorted(s - {m});
      assert Descending(s) == rest + [m];
      forall i, j | 0 <= i < j < |rest| + 1 ensures (rest + [m])[j].addr < (rest + [m])[i].addr {
        var x := rest[i];
        assert x in s - {m} && x == Real(x.addr) && m == Real(m.addr);
        if j < |rest| {
          assert rest[j].addr < x.addr;
        }
      }
    }
  }

  /** The enumerations follow the comparer: a sorted set built with Compare lists
      each block before every block the comparer ranks above it, and its reverse
      the other way round. */
  lemma SortedByCompare(s: set<Node>)
    requires AllReal(s)
    ensures forall i, j :: 0 <= i < j < |Ascending(s)| ==> Compare(Ascending(s)[i], Ascending(s)[j]) < 0
    ensures forall i, j :: 0 <= i < j < |Descending(s)| ==> Compare(Descending(s)[i], Descending(s)[j]) > 0
  {
    AscendingSorted(s);
    DescendingSorted(s);
  }
}
