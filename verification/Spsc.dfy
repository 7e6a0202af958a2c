/** One thread calling `EnQueue` and one calling `DeQueue`, interleaved load by load and store by store. */
module Spsc {
  import opened Bytes
  import opened Ring

  /** Where the thread in `EnQueue` stands. `room` records how many elements the ring held when `head` was read. */
  datatype Producer<T> =
    | Outside
    | HasNext(x: T, next: nat)
    | Checked(x: T, next: nat, room: nat)
    | Storing(x: T, next: nat, slot: nat, room: nat)
    | Filled(x: T, next: nat, room: nat)

  /** Where the thread in `DeQueue` stands. `held` records how many elements the ring held when `tail` was read. */
  datatype Consumer<T> =
    | Away
    | HasHead(head: nat)
    | HasTail(tail: nat, held: nat)
    | NonEmpty(held: nat)
    | Reading(slot: nat, seen: T, held: nat)
    | HasValue(value: T, held: nat)
    | HasStep(value: T, next: nat, held: nat)

  /** What a call returned, with the number of elements the ring held when the other thread's index was read. */
  datatype Verdict<T> =
    | Put(x: T, ok: bool, held: nat)
    | Got(out: Option<T>, held: nat)

  datatype State<T> = State(data: seq<T>, head: nat, tail: nat, p: Producer<T>, c: Consumer<T>,
                            verdicts: seq<Verdict<T>>)

  /** One load or one store by one of the threads; an element is stored and read in two moves. */
  datatype Move<T> =
    | CallEnQueue(x: T) | LoadHead | BeginStore(torn: T) | EndStore | StoreTail
    | CallDeQueueHead | CallDeQueueTail | LoadOther | BeginRead | EndRead | LoadHeadAgain | StoreHead

  predicate Shaped<T>(s: State<T>) {
    0 < |s.data| < 0x1_0000_0000 && s.head < |s.data| && s.tail < |s.data|
  }

  function Held<T>(s: State<T>): nat
    requires Shaped(s)
  {
    Occupied(|s.data|, s.head, s.tail)
  }

  function ProducerMove<T>(s: State<T>, m: Move<T>): Option<State<T>>
    requires Shaped(s)
  {
    match (s.p, m)
    case (Outside, CallEnQueue(x)) =>
      Some(s.(p := HasNext(x, Wrap32(s.tail + 1) % |s.data|)))
    case (HasNext(x, next), LoadHead) =>
      if next == s.head then Some(s.(p := Outside, verdicts := s.verdicts + [Put(x, false, Held(s))]))
      else Some(s.(p := Checked(x, next, Held(s))))
    case (Checked(x, next, room), BeginStore(torn)) =>
      Some(s.(p := Storing(x, next, s.tail, room), data := s.data[s.tail := torn]))
    case (Storing(x, next, slot, room), EndStore) =>
      if slot < |s.data| then Some(s.(p := Filled(x, next, room), data := s.data[slot := x])) else None
    case (Filled(x, next, room), StoreTail) =>
      Some(s.(p := Outside, tail := next, verdicts := s.verdicts + [Put(x, true, room)]))
    case _ => None
  }

  /** The two operands of `m_Head == m_Tail` may be loaded in either order. */
  function ConsumerMove<T>(s: State<T>, m: Move<T>): Option<State<T>>
    requires Shaped(s)
  {
    match (s.c, m)
    case (Away, CallDeQueueHead) => Some(s.(c := HasHead(s.head)))
    case (Away, CallDeQueueTail) => Some(s.(c := HasTail(s.tail, Held(s))))
    case (HasHead(head), LoadOther) => Some(Compare(s, head, s.tail, Held(s)))
    case (HasTail(tail, held), LoadOther) => Some(Compare(s, s.head, tail, held))
    case (NonEmpty(held), BeginRead) => Some(s.(c := Reading(s.head, s.data[s.head], held)))
    case (Reading(slot, seen, held), EndRead) =>
      if slot < |s.data| then Some(s.(c := HasValue(s.data[slot], held))) else None
    case (HasValue(value, held), LoadHeadAgain) =>
      Some(s.(c := HasStep(value, Wrap32(s.head + 1) % |s.data|, held)))
    case (HasStep(value, next, held), StoreHead) =>
      Some(s.(c := Away, head := next, verdicts := s.verdicts + [Got(Some(value), held)]))
    case _ => None
  }

  function Compare<T>(s: State<T>, head: nat, tail: nat, held: nat): State<T> {
    if head == tail then s.(c := Away, verdicts := s.verdicts + [Got(None, held)])
    else s.(c := NonEmpty(held))
  }

  ghost predicate Moves<T>(s: State<T>, m: Move<T>, s': State<T>)
    requires Shaped(s)
  {
    ProducerMove(s, m) == Some(s') || ConsumerMove(s, m) == Some(s')
  }

  /** The values of the calls to `EnQueue` that returned true, in order. */
  function Accepted<T>(vs: seq<Verdict<T>>): seq<T> {
    if vs == [] then []
    else Accepted(vs[..|vs| - 1]) + match vs[|vs| - 1] { case Put(x, true, _) => [x] case _ => [] }
  }

  /** The values handed out by the calls to `DeQueue` that returned true, in order. */
  function Delivered<T>(vs: seq<Verdict<T>>): seq<T> {
    if vs == [] then []
    else Delivered(vs[..|vs| - 1]) + match vs[|vs| - 1] { case Got(Some(x), _) => [x] case _ => [] }
  }

  ghost predicate Honest<T>(v: Verdict<T>, size: nat) {
    match v
    case Put(_, ok, held) => ok <==> held != size - 1
    case Got(out, held) => out.Some? <==> held != 0
  }

  ghost predicate ProducerInv<T>(s: State<T>)
    requires Shaped(s)
  {
    (!s.p.Outside? ==> s.p.next == Next(|s.data|, s.tail)) &&
    (!s.p.Outside? && !s.p.HasNext? ==> Held(s) <= s.p.room < |s.data| - 1) &&
    (s.p.Storing? ==> s.p.slot == s.tail) &&
    (s.p.Filled? ==> s.data[s.tail] == s.p.x)
  }

  ghost predicate ConsumerInv<T>(s: State<T>)
    requires Shaped(s)
  {
    match s.c
    case Away => true
    case HasHead(head) => head == s.head
    case HasTail(tail, held) => (held == 0 <==> tail == s.head) && held <= Held(s)
    case NonEmpty(held) => 0 < held && 0 < Held(s)
    case Reading(slot, seen, held) => 0 < held && 0 < Held(s) && slot == s.head && seen == s.data[s.head]
    case HasValue(value, held) => 0 < held && 0 < Held(s) && value == s.data[s.head]
    case HasStep(value, next, held) =>
      0 < held && 0 < Held(s) && value == s.data[s.head] && next == Next(|s.data|, s.head)
  }

  ghost predicate Books<T>(vs: seq<Verdict<T>>, stored: seq<T>, size: nat) {
    Accepted(vs) == Delivered(vs) + stored && forall v | v in vs :: Honest(v, size)
  }

  ghost predicate Inv<T>(s: State<T>) {
    Shaped(s) && ProducerInv(s) && ConsumerInv(s) && Books(s.verdicts, Stored(s.data, s.head, s.tail), |s.data|)
  }

  lemma Record<T>(vs: seq<Verdict<T>>, v: Verdict<T>, before: seq<T>, after: seq<T>, size: nat)
    requires Books(vs, before, size) && Honest(v, size)
    requires match v
             case Put(x, true, _) => after == before + [x]
             case Got(Some(x), _) => before == [x] + after
             case _ => after == before
    ensures Books(vs + [v], after, size)
  {
    assert (vs + [v])[..|vs|] == vs;
    match v
    case Put(x, true, _) => assert Accepted(vs) + [x] == Delivered(vs) + (before + [x]);
    case Got(Some(x), _) => assert Delivered(vs) + ([x] + after) == Delivered(vs) + [x] + after;
    case _ =>
  }

  lemma ProducerKeeps<T>(s: State<T>, m: Move<T>, s': State<T>)
    requires Inv(s) && ProducerMove(s, m) == Some(s')
    ensures Inv(s') && |s'.data| == |s.data|
    ensures var before, after := Stored(s.data, s.head, s.tail), Stored(s'.data, s'.head, s'.tail);
            if m.StoreTail? then s.p.Filled? && after == before + [s.p.x] else after == before
  {
    NextSlot(|s.data|, s.tail);
    match m
    case CallEnQueue(_) =>
    case LoadHead =>
      if s.p.next == s.head {
        Record(s.verdicts, Put(s.p.x, false, Held(s)),
               Stored(s.data, s.head, s.tail), Stored(s.data, s.head, s.tail), |s.data|);
      }
    case BeginStore(torn) =>
      StoredPush(s.data, s.head, s.tail, torn);
    case EndStore =>
      StoredPush(s.data, s.head, s.tail, s.p.x);
    case StoreTail =>
      StoredPush(s.data, s.head, s.tail, s.p.x);
      assert s.data[s.tail := s.p.x] == s.data;
      Record(s.verdicts, Put(s.p.x, true, s.p.room),
             Stored(s.data, s.head, s.tail), Stored(s.data, s.head, s'.tail), |s.data|);
  }

  lemma ConsumerKeeps<T>(s: State<T>, m: Move<T>, s': State<T>)
    requires Inv(s) && ConsumerMove(s, m) == Some(s')
    ensures Inv(s') && |s'.data| == |s.data|
    ensures var before, after := Stored(s.data, s.head, s.tail), Stored(s'.data, s'.head, s'.tail);
            if m.StoreHead? then s.c.HasStep? && before == [s.c.value] + after else after == before
  {
    NextSlot(|s.data|, s.head);
    match m
    case LoadOther =>
      var held := if s.c.HasHead? then Held(s) else s.c.held;
      if s'.c.Away? {
        Record(s.verdicts, Got(None, held), Stored(s.data, s.head, s.tail), Stored(s.data, s.head, s.tail), |s.data|);
      }
    case StoreHead =>
      StoredPop(s.data, s.head, s.tail);
      Record(s.verdicts, Got(Some(s.c.value), s.c.held),
             Stored(s.data, s.head, s.tail), Stored(s.data, s'.head, s.tail), |s.data|);
    case _ =>
  }

  /** Every state of every interleaving. */
  ghost predicate Run<T>(states: seq<State<T>>, moves: seq<Move<T>>) {
    |states| == |moves| + 1 && Shaped(states[0]) && Initial(states[0]) &&
    forall k: nat | k < |moves| :: Shaped(states[k]) ==> Moves(states[k], moves[k], states[k + 1])
  }

  ghost predicate Initial<T>(s: State<T>) {
    s.head == 0 && s.tail == 0 && s.p == Outside && s.c == Away && s.verdicts == []
  }

  lemma {:induction false} RunKeeps<T>(states: seq<State<T>>, moves: seq<Move<T>>, k: nat)
    requires Run(states, moves) && k <= |moves|
    ensures Inv(states[k]) && |states[k].data| == |states[0].data|
  {
    if k == 0 {
      assert Stored(states[0].data, 0, 0) == [];
    } else {
      RunKeeps(states, moves, k - 1);
      var s, m, s' := states[k - 1], moves[k - 1], states[k];
      assert Moves(s, m, s');
      if ProducerMove(s, m) == Some(s') {
        ProducerKeeps(s, m, s');
      } else {
        ConsumerKeeps(s, m, s');
      }
    }
  }

  /** First in, first out: what was handed out followed by what is stored is what was accepted. */
  lemma FifoInEveryInterleaving<T>(states: seq<State<T>>, moves: seq<Move<T>>, k: nat)
    requires Run(states, moves) && k <= |moves|
    ensures Shaped(states[k])
    ensures Accepted(states[k].verdicts)
         == Delivered(states[k].verdicts) + Stored(states[k].data, states[k].head, states[k].tail)
    ensures forall v | v in states[k].verdicts :: Honest(v, |states[0].data|)
  {
    RunKeeps(states, moves, k);
  }

  /** The threads never touch the same slot, and a value read is the value that was there all along. */
  lemma NoSlotShared<T>(states: seq<State<T>>, moves: seq<Move<T>>, k: nat)
    requires Run(states, moves) && k <= |moves|
    ensures states[k].p.Storing? && states[k].c.Reading? ==> states[k].p.slot != states[k].c.slot
    ensures states[k].c.Reading? ==>
              states[k].c.slot < |states[k].data| && states[k].data[states[k].c.slot] == states[k].c.seen
  {
    RunKeeps(states, moves, k);
  }

  /** Seen through the stored elements, every move is one of a bounded queue: nothing, append, or drop the first. */
  lemma MovesRefineQueue<T>(states: seq<State<T>>, moves: seq<Move<T>>, k: nat)
    requires Run(states, moves) && k < |moves|
    ensures Shaped(states[k]) && Shaped(states[k + 1])
    ensures var before := Stored(states[k].data, states[k].head, states[k].tail);
            var after := Stored(states[k + 1].data, states[k + 1].head, states[k + 1].tail);
            |after| < |states[0].data| &&
            match moves[k]
            case StoreTail => states[k].p.Filled? && after == before + [states[k].p.x]
            case StoreHead => states[k].c.HasStep? && before == [states[k].c.value] + after
            case _ => after == before
  {
    RunKeeps(states, moves, k);
    RunKeeps(states, moves, k + 1);
    var s, m, s' := states[k], moves[k], states[k + 1];
    assert Moves(s, m, s');
    if ProducerMove(s, m) == Some(s') {
      ProducerKeeps(s, m, s');
    } else {
      ConsumerKeeps(s, m, s');
    }
  }

  // ---- calls return ----

  /** The state after the moves, if each of them is possible. */
  function After<T>(s: State<T>, moves: seq<Move<T>>): Option<State<T>>
    decreases |moves|
  {
    if moves == [] then Some(s)
    else if !Shaped(s) then None
    else
      match if ProducerMove(s, moves[0]).Some? then ProducerMove(s, moves[0]) else ConsumerMove(s, moves[0])
      case Some(next) => After(next, moves[1..])
      case None => None
  }

  ghost predicate Alone<T>(s: State<T>, moves: seq<Move<T>>, s': State<T>) {
    After(s, moves) == Some(s')
  }

  lemma AloneOne<T>(s: State<T>, m: Move<T>, next: State<T>, moves: seq<Move<T>>, s': State<T>)
    requires Shaped(s) && Moves(s, m, next) && Alone(next, moves, s')
    ensures Alone(s, [m] + moves, s')
  {
    assert ([m] + moves)[1..] == moves;
  }

  lemma AloneNone<T>(s: State<T>)
    ensures Alone(s, [], s)
  {
  }

  /** Wherever the other thread stands, and whatever the slot holds while it is stored, a call of `EnQueue` can
      finish: with true and the element at the end if
      there is room, and with false and nothing changed if there is none. */
  lemma EnQueueReturns<T>(s: State<T>, x: T, torn: T) returns (moves: seq<Move<T>>, s': State<T>)
    requires Inv(s) && s.p.Outside?
    ensures Alone(s, moves, s') && Inv(s') && s'.p.Outside? && s'.c == s.c
    ensures var before := Stored(s.data, s.head, s.tail); var ok := |before| < |s.data| - 1;
            s'.verdicts == s.verdicts + [Put(x, ok, |before|)] &&
            Stored(s'.data, s'.head, s'.tail) == if ok then before + [x] else before
  {
    NextSlot(|s.data|, s.tail);
    var s1 := s.(p := HasNext(x, Wrap32(s.tail + 1) % |s.data|));
    ProducerKeeps(s, CallEnQueue(x), s1);
    if s1.p.next == s.head {
      s' := s1.(p := Outside, verdicts := s.verdicts + [Put(x, false, Held(s))]);
      ProducerKeeps(s1, LoadHead, s');
      moves := [CallEnQueue(x)] + ([LoadHead] + []);
      AloneNone(s');
      AloneOne(s1, LoadHead, s', [], s');
    } else {
      moves := [CallEnQueue(x)] + ([LoadHead] + ([BeginStore(torn)] + ([EndStore] + ([StoreTail] + []))));
      s' := EnQueueStores(s1, x, torn);
    }
    AloneOne(s, CallEnQueue(x), s1, moves[1..], s');
  }

  lemma EnQueueStores<T>(s1: State<T>, x: T, torn: T) returns (s': State<T>)
    requires Inv(s1) && s1.p.HasNext? && s1.p.x == x && s1.p.next != s1.head
    ensures Alone(s1, [LoadHead] + ([BeginStore(torn)] + ([EndStore] + ([StoreTail] + []))), s')
    ensures Inv(s') && s'.p.Outside? && s'.c == s1.c && s'.verdicts == s1.verdicts + [Put(x, true, Held(s1))]
    ensures Stored(s'.data, s'.head, s'.tail) == Stored(s1.data, s1.head, s1.tail) + [x]
  {
    hide Alone;
    var room, next := Held(s1), s1.p.next;
    var s2 := s1.(p := Checked(x, next, room));
    var s3 := s2.(p := Storing(x, next, s1.tail, room), data := s1.data[s1.tail := torn]);
    var s4 := s3.(p := Filled(x, next, room), data := s3.data[s1.tail := x]);
    s' := s4.(p := Outside, tail := next, verdicts := s1.verdicts + [Put(x, true, room)]);
    ProducerKeeps(s1, LoadHead, s2);
    ProducerKeeps(s2, BeginStore(torn), s3);
    ProducerKeeps(s3, EndStore, s4);
    ProducerKeeps(s4, StoreTail, s');
    AloneNone(s');
    AloneOne(s4, StoreTail, s', [], s');
    AloneOne(s3, EndStore, s4, [StoreTail] + [], s');
    AloneOne(s2, BeginStore(torn), s3, [EndStore] + ([StoreTail] + []), s');
    AloneOne(s1, LoadHead, s2, [BeginStore(torn)] + ([EndStore] + ([StoreTail] + [])), s');
  }

  /** Likewise a call of `DeQueue`, in whichever order it loads the indices: with the first element if there is one. */
  lemma DeQueueReturns<T>(s: State<T>, tailFirst: bool) returns (moves: seq<Move<T>>, s': State<T>)
    requires Inv(s) && s.c.Away?
    ensures Alone(s, moves, s') && Inv(s') && s'.c.Away? && s'.p == s.p
    ensures var before := Stored(s.data, s.head, s.tail);
            s'.verdicts == s.verdicts + [Got(if before == [] then None else Some(before[0]), |before|)] &&
            Stored(s'.data, s'.head, s'.tail) == if before == [] then [] else before[1..]
  {
    hide Alone, Inv, ConsumerMove, Stored, Moves;
    InvIsShaped(s);
    HeldIsStored(s);
    var m: Move<T> := if tailFirst then CallDeQueueTail else CallDeQueueHead;
    var s1 := s.(c := if tailFirst then HasTail(s.tail, Held(s)) else HasHead(s.head));
    IndexLoaded(s, m, s1);
    if s.head == s.tail {
      s' := DeQueueRefuses(s1);
      moves := [m] + ([LoadOther] + []);
    } else {
      s' := DeQueueTakes(s1);
      InvIsShaped(s');
      moves := [m] + ([LoadOther] + ([BeginRead] + ([EndRead] + ([LoadHeadAgain] + ([StoreHead] + [])))));
      var first, rest := s.data[s.head], Stored(s'.data, s'.head, s'.tail);
      assert ([first] + rest)[0] == first && ([first] + rest)[1..] == rest;
    }
    AloneOne(s, m, s1, moves[1..], s');
  }

  lemma InvIsShaped<T>(s: State<T>)
    requires Inv(s)
    ensures Shaped(s)
  {
  }

  lemma HeldIsStored<T>(s: State<T>)
    requires Shaped(s)
    ensures Held(s) == |Stored(s.data, s.head, s.tail)|
    ensures s.head == s.tail <==> Stored(s.data, s.head, s.tail) == []
  {
  }

  lemma IndexLoaded<T>(s: State<T>, m: Move<T>, s1: State<T>)
    requires Inv(s) && s.c.Away?
    requires (m.CallDeQueueHead? && s1 == s.(c := HasHead(s.head))) ||
             (m.CallDeQueueTail? && s1 == s.(c := HasTail(s.tail, Held(s))))
    ensures Moves(s, m, s1) && Inv(s1) && OneLoaded(s1)
  {
    ConsumerKeeps(s, m, s1);
  }

  ghost predicate OneLoaded<T>(s: State<T>)
    requires Shaped(s)
  {
    s.c == HasHead(s.head) || s.c == HasTail(s.tail, Held(s))
  }

  lemma DeQueueRefuses<T>(s1: State<T>) returns (s': State<T>)
    requires Inv(s1) && OneLoaded(s1) && s1.head == s1.tail
    ensures Alone(s1, [LoadOther] + [], s') && Inv(s')
    ensures s' == s1.(c := Away, verdicts := s1.verdicts + [Got(None, 0)])
  {
    hide Alone;
    s' := Compare(s1, s1.head, s1.tail, Held(s1));
    ConsumerKeeps(s1, LoadOther, s');
    AloneNone(s');
    AloneOne(s1, LoadOther, s', [], s');
  }

  lemma DeQueueTakes<T>(s1: State<T>) returns (s': State<T>)
    requires Inv(s1) && OneLoaded(s1) && s1.head != s1.tail
    ensures Alone(s1, [LoadOther] + ([BeginRead] + ([EndRead] + ([LoadHeadAgain] + ([StoreHead] + [])))), s')
    ensures Inv(s') && s'.c.Away? && s'.p == s1.p
    ensures s'.verdicts == s1.verdicts + [Got(Some(s1.data[s1.head]), Held(s1))]
    ensures Stored(s1.data, s1.head, s1.tail) == [s1.data[s1.head]] + Stored(s'.data, s'.head, s'.tail)
  {
    hide Alone, Stored;
    var s2 := s1.(c := NonEmpty(Held(s1)));
    ConsumerKeeps(s1, LoadOther, s2);
    s' := DeQueueReads(s2);
    AloneOne(s1, LoadOther, s2, [BeginRead] + ([EndRead] + ([LoadHeadAgain] + ([StoreHead] + []))), s');
  }

  lemma DeQueueReads<T>(s2: State<T>) returns (s': State<T>)
    requires Inv(s2) && s2.c.NonEmpty?
    ensures Alone(s2, [BeginRead] + ([EndRead] + ([LoadHeadAgain] + ([StoreHead] + []))), s')
    ensures Inv(s') && s'.c.Away? && s'.p == s2.p
    ensures s'.verdicts == s2.verdicts + [Got(Some(s2.data[s2.head]), s2.c.held)]
    ensures Stored(s2.data, s2.head, s2.tail) == [s2.data[s2.head]] + Stored(s'.data, s'.head, s'.tail)
  {
    hide Alone, Stored;
    var held, value := s2.c.held, s2.data[s2.head];
    var s3 := s2.(c := Reading(s2.head, value, held));
    var s4 := s2.(c := HasValue(value, held));
    var s5 := s2.(c := HasStep(value, Wrap32(s2.head + 1) % |s2.data|, held));
    s' := s2.(c := Away, head := s5.c.next, verdicts := s2.verdicts + [Got(Some(value), held)]);
    ConsumerKeeps(s2, BeginRead, s3);
    ConsumerKeeps(s3, EndRead, s4);
    ConsumerKeeps(s4, LoadHeadAgain, s5);
    ConsumerKeeps(s5, StoreHead, s');
    AloneNone(s');
    AloneOne(s5, StoreHead, s', [], s');
    AloneOne(s4, LoadHeadAgain, s5, [StoreHead] + [], s');
    AloneOne(s3, EndRead, s4, [LoadHeadAgain] + ([StoreHead] + []), s');
    AloneOne(s2, BeginRead, s3, [EndRead] + ([LoadHeadAgain] + ([StoreHead] + [])), s');
  }
}
