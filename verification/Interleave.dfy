/** The capture thread and the clearing thread, interleaved between the capture thread's lock regions. */
module Interleave {
  import opened Bytes
  import opened Allocation
  import opened HttpParse
  import opened FlowEngine
  import opened FlowPolicy
  import opened FlowRefinement

  /** Where the capture thread stands in a frame. */
  datatype Place =
    | Between
    | Missed(key: string)              // no entry was found; the lock for the pool is still to be taken
    | InFlight(key: string, n: nat)    // a node has been taken and is being filled, outside the lock
    | Found(key: string, n: nat)       // an entry was found; its node is being written, outside the lock
    | Finishing(key: string, n: nat)   // the body is complete and sent; the lock is still to be taken

  datatype State = State(size: nat, free: seq<nat>, table: map<string, nat>, order: seq<string>, at: Place)

  datatype Move =
    | Lookup(key: string)
    | GiveUp                       // a miss without a type, or with a body too large: no lock is taken
    | Claim | Publish              // the two locked regions of a new flow
    | Append(complete: bool)
    | Release                      // the locked region of a completed flow
    | Clear(count: nat)            // the clearing thread's locked loop, with whatever count it read before

  function InUse(s: State): set<nat> {
    s.table.Values + match s.at { case InFlight(_, n) => {n} case _ => {} }
  }

  /** The node found for the flow belongs to that flow or to none. */
  ghost predicate KeepsNode(table: map<string, nat>, key: string, n: nat) {
    if key in table then table[key] == n else n !in table.Values
  }

  /** Used nodes are the table's nodes and at most one in flight; an entry that was found and is still
      there still has its node. */
  ghost predicate Inv(s: State) {
    SameKeys(s.order, s.table) && Injective(s.table) && Partition(s.free, InUse(s), s.size) &&
    match s.at
    case Between => true
    case Missed(key) => key !in s.table
    case InFlight(key, n) => key !in s.table && n !in s.table.Values
    case Found(key, n) => n < s.size && KeepsNode(s.table, key, n)
    case Finishing(key, n) => n < s.size && KeepsNode(s.table, key, n)
  }

  /** `FreeNode`: refuses only when the ring is full. */
  function Freed(s: State, n: nat): seq<nat> {
    if |s.free| < s.size then s.free + [n] else s.free
  }

  function DropOne(s: State): State
    requires s.order != [] && s.order[0] in s.table
  {
    s.(free := Freed(s, s.table[s.order[0]]), table := s.table - {s.order[0]}, order := s.order[1..])
  }

  function ClearLoop(s: State, count: nat): State
    decreases count
  {
    if count == 0 || s.order == [] || s.order[0] !in s.table then s else ClearLoop(DropOne(s), count - 1)
  }

  function Next(s: State, m: Move): Option<State> {
    match (s.at, m)
    case (_, Clear(count)) => Some(ClearLoop(s, count))
    case (Between, Lookup(key)) => Some(s.(at := if key in s.table then Found(key, s.table[key]) else Missed(key)))
    case (Missed(_), GiveUp) => Some(s.(at := Between))
    case (Missed(key), Claim) =>
      if s.free == [] then Some(s.(at := Between)) else Some(s.(free := s.free[1..], at := InFlight(key, s.free[0])))
    case (InFlight(key, n), Publish) =>
      Some(s.(table := s.table[key := n], order := s.order + [key], at := Between))
    case (Found(key, n), Append(complete)) => Some(s.(at := if complete then Finishing(key, n) else Between))
    case (Finishing(key, n), Release) => Some(Released(s, key, n))
    case _ => None
  }

  function Released(s: State, key: string, n: nat): State {
    s.(free := Freed(s, n), table := s.table - {key}, order := Removed(s.order, key), at := Between)
  }

  function Started(size: nat): State {
    State(size, Upto(size), map[], [], Between)
  }

  /** Every run begins in a state that satisfies the invariant. */
  lemma StartsWell(size: nat)
    ensures Inv(Started(size))
  {
    forall n: nat | n < size
      ensures n in Upto(size)
    {
      assert Upto(size)[n] == n;
    }
  }

  /** The state after the moves, if each of them is possible. */
  function After(s: State, moves: seq<Move>): Option<State>
    decreases |moves|
  {
    if moves == [] then Some(s)
    else
      match Next(s, moves[0])
      case Some(s') => After(s', moves[1..])
      case None => None
  }

  lemma AfterOne(s: State, m: Move, s': State, moves: seq<Move>)
    requires Next(s, m) == Some(s')
    ensures After(s, [m] + moves) == After(s', moves)
  {
    assert ([m] + moves)[1..] == moves;
  }

  lemma DropOneKeeps(s: State)
    requires Inv(s) && s.order != []
    ensures s.order[0] in s.table && |s.free| < s.size && Inv(DropOne(s)) && DropOne(s).at == s.at &&
            DropOne(s).size == s.size
  {
    hide SameKeys, Partition, NoDup;
    var key := s.order[0];
    FirstIsStored(s.order, s.table);
    var n := s.table[key];
    assert n in s.table.Values;
    GiveKeeps(s.free, InUse(s), s.size, n);
    Deleted(s.table, key);
    assert InUse(DropOne(s)) == InUse(s) - {n};
    RestOfList(s.order, s.table);
  }

  lemma FirstIsStored(order: seq<string>, table: map<string, nat>)
    requires SameKeys(order, table) && order != []
    ensures order[0] in table
  {
    assert order[0] in order;
  }

  lemma RestOfList(order: seq<string>, table: map<string, nat>)
    requires SameKeys(order, table) && order != []
    ensures SameKeys(order[1..], table - {order[0]})
  {
    assert order == [order[0]] + order[1..];
  }

  lemma {:induction false} ClearKeeps(s: State, count: nat)
    requires Inv(s)
    ensures Inv(ClearLoop(s, count)) && ClearLoop(s, count).at == s.at && ClearLoop(s, count).size == s.size
    decreases count
  {
    hide Inv, DropOne;
    if count > 0 && s.order != [] {
      DropOneKeeps(s);
      ClearKeeps(DropOne(s), count - 1);
    }
  }

  /** Every move but the last locked region keeps the invariant, whenever the clearing thread runs. */
  lemma MoveKeeps(s: State, m: Move, s': State)
    requires Inv(s) && Next(s, m) == Some(s') && !m.Release?
    ensures Inv(s') && s'.size == s.size
  {
    match m
    case Clear(count) => ClearKeeps(s, count);
    case Lookup(key) => assert key in s.table ==> s.table[key] in s.table.Values;
    case GiveUp =>
    case Claim =>
      if s.free != [] {
        TakeKeeps(s.free, InUse(s), s.size);
      }
    case Publish =>
      Inserted(s.table, s.at.key, s.at.n);
    case Append(_) =>
  }

  /** The last locked region keeps the invariant exactly if the entry that was found at the start of
      the frame is still there, or if every node is free anyway so that the second release is refused. */
  lemma ReleaseKeepsExactly(s: State, s': State)
    requires Inv(s) && Next(s, Release) == Some(s')
    ensures Inv(s') <==> s.at.key in s.table || s.table == map[]
  {
    hide SameKeys, Partition, Removed;
    var key, n := s.at.key, s.at.n;
    if key in s.table {
      ReleaseKeeps(s, key, n);
    } else if s.table == map[] {
      ReleaseRefused(s, key, n);
    } else {
      ReleaseBreaks(s, key, n);
    }
  }

  lemma ReleaseRefused(s: State, key: string, n: nat)
    requires Inv(s) && s.at == Finishing(key, n) && s.table == map[]
    ensures Inv(Released(s, key, n))
  {
    PartitionCount(s.free, InUse(s), s.size);
    CountNoDup(s.order, s.table.Keys);
    assert s.order == [] && s.table - {key} == s.table;
  }

  lemma ReleaseKeeps(s: State, key: string, n: nat)
    requires Inv(s) && s.at == Finishing(key, n) && key in s.table
    ensures Inv(Released(s, key, n))
  {
    assert n in s.table.Values;
    GiveKeeps(s.free, InUse(s), s.size, n);
    Deleted(s.table, key);
  }

  /** Otherwise the node, which the clear has already freed, is put into the free list a second time. */
  lemma ReleaseBreaks(s: State, key: string, n: nat)
    requires Inv(s) && s.at == Finishing(key, n) && key !in s.table && s.table != map[] && n !in s.table.Values
    ensures !NoDup(Released(s, key, n).free) && !Inv(Released(s, key, n))
  {
    PartitionCount(s.free, InUse(s), s.size);
    var other :| other in s.table;
    assert s.table[other] in s.table.Values;
    GiveTwice(s.free, InUse(s), s.size, n);
  }

  function Opened(s: State, key: string): State
    requires s.free != []
  {
    s.(free := s.free[1..], table := s.table[key := s.free[0]], order := s.order + [key])
  }

  lemma AfterOpening(s: State, key: string, moves: seq<Move>)
    requires Inv(s) && s.at == Between && key !in s.table && s.free != []
    ensures Inv(Opened(s, key)) && After(s, [Lookup(key), Claim, Publish] + moves) == After(Opened(s, key), moves)
  {
    hide Inv, After;
    var s1 := s.(at := Missed(key));
    var s2 := s1.(free := s.free[1..], at := InFlight(key, s.free[0]));
    assert [Lookup(key), Claim, Publish] + moves == [Lookup(key)] + ([Claim] + ([Publish] + moves));
    AfterOne(s, Lookup(key), s1, [Claim] + ([Publish] + moves));
    AfterOne(s1, Claim, s2, [Publish] + moves);
    AfterOne(s2, Publish, Opened(s, key), moves);
    MoveKeeps(s, Lookup(key), s1);
    MoveKeeps(s1, Claim, s2);
    MoveKeeps(s2, Publish, Opened(s, key));
  }

  lemma AfterRelease(s: State, key: string, n: nat)
    requires s.at == Between && s.order != [] && key == s.order[0] && key in s.table && s.table[key] == n
    ensures After(s, [Lookup(key), Append(true), Clear(1), Release])
         == Some(Released(DropOne(s.(at := Finishing(key, n))), key, n))
  {
    hide After, Released;
    var s1, s2 := s.(at := Found(key, n)), s.(at := Finishing(key, n));
    var s3 := DropOne(s2);
    assert ClearLoop(s2, 1) == s3;
    assert [Lookup(key), Append(true), Clear(1), Release] == [Lookup(key)] + [Append(true), Clear(1), Release];
    assert [Append(true), Clear(1), Release] == [Append(true)] + [Clear(1), Release];
    assert [Clear(1), Release] == [Clear(1)] + [Release] && [Release] == [Release] + [];
    AfterOne(s, Lookup(key), s1, [Append(true), Clear(1), Release]);
    AfterOne(s1, Append(true), s2, [Clear(1), Release]);
    AfterOne(s2, Clear(1), s3, [Release]);
    AfterOne(s3, Release, Released(s3, key, n), []);
    AfterNone(Released(s3, key, n));
  }

  /** In every state with two flows: clearing the oldest one between its last slice and its release
      puts its node into the free list twice. */
  lemma ClearedWhileFinishing(s: State, key: string)
    requires Inv(s) && s.at == Between && 1 < |s.order| && key == s.order[0]
    ensures var r := After(s, [Lookup(key), Append(true), Clear(1), Release]);
            r.Some? && !NoDup(r.value.free) && !Inv(r.value)
  {
    FirstIsFound(s);
    hide Inv, After, Freed, Released, NoDup;
    var n := s.table[key];
    var s1, s2 := s.(at := Found(key, n)), s.(at := Finishing(key, n));
    MoveKeeps(s, Lookup(key), s1);
    MoveKeeps(s1, Append(true), s2);
    DropOneKeeps(s2);
    RestIsStored(DropOne(s2), key, n);
    ReleaseBreaks(DropOne(s2), key, n);
    AfterRelease(s, key, n);
  }

  lemma AfterNone(s: State)
    ensures After(s, []) == Some(s)
  {
  }

  lemma FirstIsFound(s: State)
    requires Inv(s) && s.order != []
    ensures s.order[0] in s.table
  {
    FirstIsStored(s.order, s.table);
  }

  lemma RestIsStored(s: State, key: string, n: nat)
    requires Inv(s) && s.at == Finishing(key, n) && s.order != [] && key !in s.table
    ensures s.table != map[] && n !in s.table.Values
  {
    FirstIsStored(s.order, s.table);
  }

  /** Such a state is reached from the start, with any pool of two nodes or more. */
  lemma DuplicateIsReachable(size: nat, a: string, b: string)
    requires 2 <= size && a != b
    ensures var moves := [Lookup(a), Claim, Publish]
                         + ([Lookup(b), Claim, Publish] + [Lookup(a), Append(true), Clear(1), Release]);
            var r := After(Started(size), moves);
            r.Some? && !NoDup(r.value.free)
  {
    hide Inv, After;
    var ending := [Lookup(a), Append(true), Clear(1), Release];
    var s := Started(size);
    StartsWell(size);
    AfterOpening(s, a, [Lookup(b), Claim, Publish] + ending);
    AfterOpening(Opened(s, a), b, ending);
    ClearedWhileFinishing(Opened(Opened(s, a), b), a);
  }

  /** A run in which no flow is cleared between being found and being released. */
  ghost predicate Run(states: seq<State>, moves: seq<Move>) {
    |states| == |moves| + 1 &&
    forall k: nat | k < |moves| ::
      Next(states[k], moves[k]) == Some(states[k + 1]) &&
      (moves[k].Release? ==> states[k].at.Finishing? && states[k].at.key in states[k].table)
  }

  lemma {:induction false} RunKeeps(states: seq<State>, moves: seq<Move>, k: nat)
    requires Run(states, moves) && k <= |moves| && Inv(states[0])
    ensures Inv(states[k]) && states[k].size == states[0].size
    ensures |states[k].free| + |states[k].table| + (if states[k].at.InFlight? then 1 else 0) == states[0].size
  {
    hide Inv, Next, Released;
    if k > 0 {
      RunKeeps(states, moves, k - 1);
      var s, m, s' := states[k - 1], moves[k - 1], states[k];
      assert Next(s, m) == Some(s');
      if m.Release? {
        ReleaseIs(s, s');
        ReleaseKeeps(s, s.at.key, s.at.n);
      } else {
        MoveKeeps(s, m, s');
      }
    }
    InUseCounts(states[k]);
  }

  lemma ReleaseIs(s: State, s': State)
    requires s.at.Finishing? && Next(s, Release) == Some(s')
    ensures s' == Released(s, s.at.key, s.at.n) && s'.size == s.size
  {
  }

  lemma InUseCounts(s: State)
    requires Inv(s)
    ensures |s.free| + |s.table| + (if s.at.InFlight? then 1 else 0) == s.size
  {
    hide NoDup;
    PartitionCount(s.free, InUse(s), s.size);
    CountValues(s.table);
  }

  // ---- without interleaving the moves are the steps of the engine ----

  /** What both threads share of the engine. */
  function Shared(e: Engine): State {
    State(|e.nodes|, e.free, e.table, e.order, Between)
  }

  /** The moves of the capture thread for a frame that passes the filters. */
  function FrameMoves(e: Engine, r: Engine, key: string): seq<Move> {
    [Lookup(key)] +
    if key in e.table then [Append(key !in r.table)] + if key in r.table then [] else [Release]
    else if key in r.table then [Claim] + [Publish]
    else [GiveUp]
  }

  lemma AfterTwo(s: State, m: Move, s1: State, m': Move, s2: State)
    requires Next(s, m) == Some(s1) && Next(s1, m') == Some(s2)
    ensures After(s, [m] + [m']) == Some(s2)
  {
    hide Next;
    assert [m'] == [m'] + [];
    AfterOne(s, m, s1, [m']);
    AfterOne(s1, m', s2, []);
    AfterNone(s2);
  }

  lemma AfterThree(s: State, m: Move, s1: State, m': Move, s2: State, m'': Move, s3: State)
    requires Next(s, m) == Some(s1) && Next(s1, m') == Some(s2) && Next(s2, m'') == Some(s3)
    ensures After(s, [m] + ([m'] + [m''])) == Some(s3)
  {
    hide Next;
    AfterOne(s, m, s1, [m'] + [m'']);
    AfterTwo(s1, m', s2, m'', s3);
  }

  lemma NewFrameIsMoves(e: Engine, key: string, p: seq<byte>, len: nat, head: Head)
    requires Coupled(e) && Readable(p, len) && Accepted(p, len, head) && key !in e.table
    ensures var r := HandleFrame(e, key, p, len, head); After(Shared(e), FrameMoves(e, r, key)) == Some(Shared(r))
  {
    hide Coupled, Readable, HandleFrame, After, LetPass, FirstSlice, Stands;
    var r, s := HandleFrame(e, key, p, len, head), Shared(e);
    LetExactly(p, len, head);
    if head.contentType == 0 {
      StrayFrameExactly(e, key, p, len, head);
    } else {
      NewFrameExactly(e, key, p, len, head);
    }
    if key in r.table {
      var s1 := s.(at := Missed(key));
      var s2 := s1.(free := s.free[1..], at := InFlight(key, s.free[0]));
      AfterThree(s, Lookup(key), s1, Claim, s2, Publish, Shared(r));
    } else {
      AfterTwo(s, Lookup(key), s.(at := Missed(key)), GiveUp, s);
    }
  }

  lemma SharedAfterSlice(e: Engine, key: string, slice: seq<byte>)
    requires Coupled(e) && key in e.table && |slice| <= 3000
    ensures var r, n := Continue(e, key, slice), e.table[key];
            Shared(r) == if key in r.table then Shared(e) else Released(Shared(e).(at := Finishing(key, n)), key, n)
  {
    hide Coupled, Grown, Complete, Removed, NodeOk;
    NodeIsOk(e, key);
    GrownExactly(e.nodes[NodeOf(e, key)], slice);
    CompleteFacts(e, key, Grown(e.nodes[NodeOf(e, key)], slice));
    RoomForOne(e, key);
  }

  lemma NextFrameIsMoves(e: Engine, key: string, p: seq<byte>, len: nat, head: Head)
    requires Coupled(e) && Readable(p, len) && Accepted(p, len, head) && key in e.table
    ensures var r := HandleFrame(e, key, p, len, head); After(Shared(e), FrameMoves(e, r, key)) == Some(Shared(r))
  {
    hide Coupled, Readable, HandleFrame, Continue, After, Accepted, Released;
    FrameContinues(e, key, p, len, head);
    SharedAfterSlice(e, key, p[..len]);
    var r, s, n := HandleFrame(e, key, p, len, head), Shared(e), e.table[key];
    if key in r.table {
      assert [Lookup(key)] + ([Append(false)] + []) == [Lookup(key)] + [Append(false)];
      AfterTwo(s, Lookup(key), s.(at := Found(key, n)), Append(false), s);
    } else {
      var s1, s2 := s.(at := Found(key, n)), s.(at := Finishing(key, n));
      AfterThree(s, Lookup(key), s1, Append(true), s2, Release, Shared(r));
    }
  }

  lemma RoomForOne(e: Engine, key: string)
    requires Coupled(e) && key in e.table
    ensures NodeOf(e, key) == e.table[key] && |e.free| < |e.nodes|
  {
    assert key in e.order;
    Counts(e);
  }

  /** With nothing in between, the moves for a frame do to table, list and free ring what the frame does. */
  lemma FrameIsMoves(e: Engine, key: string, p: seq<byte>, len: nat, head: Head)
    requires Coupled(e) && Readable(p, len) && Accepted(p, len, head)
    ensures var r := HandleFrame(e, key, p, len, head); After(Shared(e), FrameMoves(e, r, key)) == Some(Shared(r))
  {
    hide Coupled, Readable, HandleFrame, After, Accepted, FrameMoves;
    if key in e.table {
      NextFrameIsMoves(e, key, p, len, head);
    } else {
      NewFrameIsMoves(e, key, p, len, head);
    }
  }

  lemma {:induction false} ClearLoopAppends(s: State, k: nat)
    requires Inv(s) && k < |s.order|
    ensures Inv(ClearLoop(s, k)) && ClearLoop(s, k).order == s.order[k..]
    ensures ClearLoop(s, k).order[0] in ClearLoop(s, k).table && ClearLoop(s, k + 1) == DropOne(ClearLoop(s, k))
    decreases k
  {
    hide Inv, DropOne;
    DropOneKeeps(s);
    if k > 0 {
      DropIsRest(s);
      ClearLoopAppends(DropOne(s), k - 1);
    }
  }

  lemma DropIsRest(s: State)
    requires Inv(s) && s.order != []
    ensures s.order[0] in s.table && DropOne(s).order == s.order[1..]
  {
    DropOneKeeps(s);
  }

  lemma {:induction false} DropIsLoop(e: Engine, k: nat)
    requires Coupled(e) && k <= |e.order|
    ensures Shared(Drop(e, k)) == ClearLoop(Shared(e), k)
    decreases k
  {
    hide Coupled, Inv, DropOldest, DropOne;
    SharedIsInv(e);
    if k == 0 {
      DropsNone(e);
    } else {
      DropIsLoop(e, k - 1);
      ClearLoopAppends(Shared(e), k - 1);
      OldestIsOne(Drop(e, k - 1));
    }
  }

  lemma SharedIsInv(e: Engine)
    requires Coupled(e)
    ensures Inv(Shared(e))
  {
    assert InUse(Shared(e)) == e.table.Values;
  }

  lemma OldestIsOne(e: Engine)
    requires Coupled(e) && e.order != []
    ensures e.order[0] in e.table && Shared(DropOldest(e)) == DropOne(Shared(e))
  {
    assert e.order[0] in e.order;
    RoomForOne(e, e.order[0]);
  }

  /** A clear is one move of the clearing thread, with the number the engine computes. */
  lemma ClearIsMove(e: Engine)
    requires Coupled(e)
    ensures Next(Shared(e), Clear(ClearCount(e))) == Some(Shared(LRUClear(e)))
  {
    hide Coupled, Drop, ClearLoop, ClearCount;
    DropIsLoop(e, ClearCount(e));
  }
}
