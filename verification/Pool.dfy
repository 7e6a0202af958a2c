/** Who owns which node: the free indices and the nodes in use split the pool. */
module Allocation {

  ghost predicate NoDup<T>(s: seq<T>) {
    forall i, j | 0 <= i < j < |s| :: s[i] != s[j]
  }

  ghost predicate Partition(free: seq<nat>, used: set<nat>, max: nat) {
    NoDup(free) &&
    (forall n | n in free :: n < max && n !in used) &&
    (forall n | n in used :: n < max) &&
    forall n: nat | n < max :: n in free || n in used
  }

  lemma {:induction false} CountUpto(s: set<nat>, max: nat)
    requires forall n: nat :: n in s <==> n < max
    ensures |s| == max
  {
    if max == 0 {
      assert s == {};
    } else {
      CountUpto(s - {max - 1}, max - 1);
    }
  }

  lemma {:induction false} CountNoDup<T>(s: seq<T>, elements: set<T>)
    requires NoDup(s) && forall x :: x in elements <==> x in s
    ensures |elements| == |s|
  {
    if s == [] {
      assert elements == {};
    } else {
      var x, rest := s[|s| - 1], s[..|s| - 1];
      CountNoDup(rest, elements - {x});
    }
  }

  /** Free and used nodes add up to the size of the pool. */
  lemma PartitionCount(free: seq<nat>, used: set<nat>, max: nat)
    requires Partition(free, used, max)
    ensures |free| + |used| == max
  {
    var elements := set n | n in free;
    CountNoDup(free, elements);
    assert elements !! used;
    CountUpto(elements + used, max);
  }

  lemma TakeKeeps(free: seq<nat>, used: set<nat>, max: nat)
    requires Partition(free, used, max) && free != []
    ensures free[0] < max && free[0] !in used && Partition(free[1..], used + {free[0]}, max)
  {
    var rest := free[1..];
    assert free[0] in free;
    forall n | n in rest
      ensures n in free && n != free[0]
    {
      var i :| 0 <= i < |rest| && rest[i] == n;
      assert free[i + 1] == n;
    }
    assert forall n | n in free :: n == free[0] || n in rest by {
      assert free == [free[0]] + rest;
    }
  }

  /** A node that is owned can be given back: there is room for it. */
  lemma GiveKeeps(free: seq<nat>, used: set<nat>, max: nat, n: nat)
    requires Partition(free, used, max) && n in used
    ensures |free| < max && Partition(free + [n], used - {n}, max)
  {
    PartitionCount(free, used, max);
  }

  /** Giving back a node nobody owns puts it in the list twice. */
  lemma GiveTwice(free: seq<nat>, used: set<nat>, max: nat, n: nat)
    requires Partition(free, used, max) && n < max && n !in used
    ensures !NoDup(free + [n])
  {
    var k :| 0 <= k < |free| && free[k] == n;
    assert (free + [n])[k] == (free + [n])[|free|];
  }

  function Upto(n: nat): (s: seq<nat>)
    ensures |s| == n && forall i | 0 <= i < n :: s[i] == i
  {
    seq(n, i requires 0 <= i => i)
  }

  lemma UptoNext(n: nat)
    ensures Upto(n) + [n] == Upto(n + 1)
  {
  }

  datatype Call = Get | Give(n: nat)

  /** A pool with its books: what it has issued and what came back, oldest first. */
  datatype Books = Books(free: seq<nat>, used: set<nat>, issued: seq<nat>, returned: seq<nat>, refused: nat)

  const NO_BOOKS: Books := Books([], {}, [], [], 0)

  function Serve(b: Books, max: nat, c: Call): Books {
    match c
    case Get =>
      if b.free == [] then b
      else b.(free := b.free[1..], used := b.used + {b.free[0]}, issued := b.issued + [b.free[0]])
    case Give(n) =>
      if n >= max || |b.free| >= max then b.(refused := b.refused + 1)
      else b.(free := b.free + [n], used := b.used - {n}, returned := b.returned + [n])
  }

  function Opened(max: nat): Books {
    NO_BOOKS.(free := Upto(max))
  }

  /** The states a client goes through when it frees only what it owns. */
  ghost predicate Served(states: seq<Books>, calls: seq<Call>, max: nat) {
    |states| == |calls| + 1 && states[0] == Opened(max) &&
    forall k: nat | k < |calls| ::
      states[k + 1] == Serve(states[k], max, calls[k]) && (calls[k].Give? ==> calls[k].n in states[k].used)
  }

  /** Whatever the calls: no node is live twice, none is lost, no release fails, and nodes go out
      in the order in which they were first laid down and then came back. */
  lemma {:induction false} PoolIsAllocator(states: seq<Books>, calls: seq<Call>, max: nat, k: nat)
    requires Served(states, calls, max) && k <= |calls|
    ensures Partition(states[k].free, states[k].used, max)
    ensures |states[k].free| + |states[k].used| == max
    ensures states[k].issued + states[k].free == Upto(max) + states[k].returned
    ensures states[k].refused == 0
  {
    if k > 0 {
      PoolIsAllocator(states, calls, max, k - 1);
      var b := states[k - 1];
      match calls[k - 1]
      case Get =>
        if b.free != [] {
          TakeKeeps(b.free, b.used, max);
          assert b.issued + [b.free[0]] + b.free[1..] == b.issued + b.free;
        }
      case Give(n) =>
        GiveKeeps(b.free, b.used, max, n);
        assert b.issued + (b.free + [n]) == Upto(max) + (b.returned + [n]) by {
          assert b.issued + (b.free + [n]) == (b.issued + b.free) + [n];
        }
    }
    forall n: nat | k == 0 && n < max
      ensures n in states[0].free
    {
      assert Upto(max)[n] == n;
    }
    PartitionCount(states[k].free, states[k].used, max);
  }
}

/** The fixed container of nodes; a pointer to a node is its offset from the start of the array. */
module Pool {
  import opened Bytes
  import opened Ring
  import opened Allocation

  class FixedContainer<T> {
    const nodes: seq<T>
    const freeNodes: Queue<nat>

    ghost predicate Valid()
      reads freeNodes
    {
      freeNodes.Valid() && 0 < |nodes| && freeNodes.size == |nodes| + 1
    }

    ghost function Free(): (s: seq<nat>)
      reads freeNodes, freeNodes.data
      requires Valid()
    {
      freeNodes.Contents()
    }

    /** `all` is the array of nodes the container allocates. */
    constructor (all: seq<T>)
      requires 0 < |all| < 0xFFFF_FFFF
      ensures Valid() && fresh(freeNodes) && fresh(freeNodes.data)
      ensures nodes == all && Free() == Upto(|all|)
    {
      nodes := all;
      freeNodes := new Queue(|all| + 1);
      new;
      Fill();
      assert freeNodes.IsFull();
    }

    /** The loop of the constructor and of `Clear`. */
    method Fill()
      requires Valid() && Free() == []
      modifies freeNodes`tail, freeNodes.data
      ensures Valid() && Free() == Upto(|nodes|)
    {
      hide Upto, Stored;
      assert Upto(0) == [];
      for i := 0 to |nodes|
        invariant Valid()
        invariant Free() == Upto(i)
      {
        var ok := freeNodes.EnQueue(i);
        assert ok;
        UptoNext(i);
      }
    }

    method GetNode() returns (p: Option<nat>)
      requires Valid()
      modifies freeNodes`head
      ensures Valid()
      ensures p.Some? <==> old(Free()) != []
      ensures if p.Some? then [p.value] + Free() == old(Free()) else Free() == old(Free())
    {
      p := freeNodes.DeQueue();
    }

    /** The only double release it can notice is one into a full free list. */
    method FreeNode(p: int) returns (ok: bool)
      requires Valid()
      modifies freeNodes`tail, freeNodes.data
      ensures Valid()
      ensures ok <==> 0 <= p < |nodes| && |old(Free())| < |nodes|
      ensures Free() == if ok then old(Free()) + [p] else old(Free())
    {
      if p < 0 || p > |nodes| - 1 {
        return false;
      }
      ok := freeNodes.EnQueue(p);
    }

    function NodesCount(): nat {
      |nodes|
    }

    function UsedNodesCount(): (n: nat)
      reads freeNodes, freeNodes.data
      requires Valid()
      ensures n + |Free()| == |nodes|
    {
      |nodes| - freeNodes.Count()
    }

    predicate IsEmpty()
      reads freeNodes, freeNodes.data
      requires Valid()
      ensures IsEmpty() <==> UsedNodesCount() == 0
    {
      freeNodes.IsFull()
    }

    predicate IsFull()
      reads freeNodes, freeNodes.data
      requires Valid()
      ensures IsFull() <==> Free() == []
    {
      freeNodes.IsEmpty()
    }

    /** Every node is free again, in order, wherever the ring stood. */
    method Clear()
      requires Valid()
      modifies freeNodes`head, freeNodes`tail, freeNodes.data
      ensures Valid() && Free() == Upto(|nodes|)
    {
      freeNodes.Clear();
      Fill();
    }
  }
}
