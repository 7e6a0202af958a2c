/** One upload from its header to its message, while frames of other flows arrive in between. */
module FlowDelivery {
  import opened Bytes
  import opened Allocation
  import opened HttpParse
  import opened Multipart
  import opened FlowEngine
  import opened FlowPolicy
  import opened FlowRefinement

  /** The bytes an event brings to the flow `key`. */
  function SliceOf(ev: Event, key: string): (slice: seq<byte>)
    requires EventOk(ev)
    ensures |slice| <= 3000
  {
    if ev.Frame? && ev.key == key && Accepted(ev.p, ev.len, ev.head) then ev.p[..ev.len] else []
  }

  function Arrived(evs: seq<Event>, key: string): seq<byte>
    requires forall ev | ev in evs :: EventOk(ev)
  {
    if evs == [] then [] else Arrived(evs[..|evs| - 1], key) + SliceOf(evs[|evs| - 1], key)
  }

  /** The messages sent for the flow `key`, oldest first. */
  function SentFor(sent: seq<Message>, key: string): seq<seq<byte>> {
    if sent == [] then []
    else SentFor(sent[..|sent| - 1], key) + if sent[|sent| - 1].key == key then [sent[|sent| - 1].bytes] else []
  }

  lemma SentOne(sent: seq<Message>, m: Message, key: string)
    ensures SentFor(sent + [m], key) == SentFor(sent, key) + if m.key == key then [m.bytes] else []
  {
    assert (sent + [m])[..|sent|] == sent;
  }

  /** The flow sits in node `n`, has received `got` of the `expected` bytes, and behind the place
      where the last byte will go the node still holds `left` from an earlier owner. */
  ghost predicate Waiting(e: Engine, key: string, n: nat, expected: nat, got: seq<byte>, left: seq<byte>) {
    Coupled(e) && key in e.table && e.table[key] == n && n < |e.nodes| && |got| < expected < 0x1_0000 &&
    Filled(e.nodes[n], expected, got, left)
  }

  ghost predicate Filled(node: Node, expected: nat, got: seq<byte>, left: seq<byte>) {
    expected < 0x1_0000 && NodeOk(node) && node.cLen == expected && node.used == |got| && got <= node.data
    && node.data[expected..expected + 3] == left
  }

  lemma FillMore(node: Node, expected: nat, got: seq<byte>, left: seq<byte>, slice: seq<byte>)
    requires Filled(node, expected, got, left) && |got| + |slice| <= expected && |slice| <= 3000
    ensures Filled(Grown(node, slice), expected, got + slice, left)
  {
    var grown := Grown(node, slice);
    assert grown.data[..|got| + |slice|] == got + slice;
    assert grown.data[expected..expected + 3] == node.data[expected..expected + 3];
  }

  // ---- frames of other flows ----

  /** Nothing about the flow `key` has changed. */
  ghost predicate Undisturbed(e: Engine, r: Engine, key: string) {
    key in e.table && key in r.table && r.table[key] == e.table[key] < |e.nodes| == |r.nodes| &&
    r.nodes[e.table[key]] == e.nodes[e.table[key]] && SentFor(r.sent, key) == SentFor(e.sent, key)
  }

  lemma OpenLeaves(e: Engine, key: string, other: string, contentLen: int, first: seq<byte>)
    requires Coupled(e) && key in e.table && other !in e.table && e.free != [] && |first| < 0x1_0000
    ensures Undisturbed(e, Open(e, other, contentLen, first), key)
  {
    hide Claimed, SentFor;
    assert e.free[0] in e.free && e.table[key] in e.table.Values;
  }

  lemma StoreLeaves(e: Engine, key: string, other: string, node: Node)
    requires Coupled(e) && key in e.table && other in e.table && other != key
    ensures Undisturbed(e, e.(nodes := e.nodes[NodeOf(e, other) := node]), key)
  {
    hide SentFor;
    OtherNode(e, key, other);
    assert NodeOf(e, key) < |e.nodes|;
  }

  lemma CompleteLeaves(e: Engine, key: string, other: string, node: Node)
    requires Coupled(e) && key in e.table && other in e.table && other != key && NodeOk(node)
    ensures Undisturbed(e, Complete(e, other, node), key)
  {
    hide SentFor, Coupled, Complete, Sent, Removed;
    CompleteFacts(e, other, node);
    OtherNode(e, key, other);
    assert NodeOf(e, key) < |e.nodes|;
    match Sent(node.data, node.used)
    case Some(bytes) => SentOne(e.sent, Message(other, bytes), key);
    case None =>
  }

  lemma ContinueLeaves(e: Engine, key: string, other: string, slice: seq<byte>)
    requires Coupled(e) && key in e.table && other in e.table && other != key && |slice| <= 3000
    ensures Undisturbed(e, Continue(e, other, slice), key)
  {
    hide SentFor, Undisturbed, Complete, Partition, NoDup;
    var node := Grown(e.nodes[NodeOf(e, other)], slice);
    StoreLeaves(e, key, other, node);
    CompleteLeaves(e, key, other, node);
  }

  lemma ModifiedLeaves(e: Engine, key: string, other: string, p: seq<byte>, len: nat)
    requires Coupled(e) && key in e.table && other != key && 0 < len <= |p|
    ensures Undisturbed(e, Modified(e, other, p, len), key)
  {
    hide SentFor, Coupled, Is4;
    assert NodeOf(e, key) < |e.nodes|;
    SentOne(e.sent, Message(other, p[..len]), key);
  }

  lemma OtherFrame(e: Engine, key: string, other: string, p: seq<byte>, len: nat, head: Head)
    requires Coupled(e) && key in e.table && other != key && Readable(p, len)
    ensures Undisturbed(e, HandleFrame(e, other, p, len, head), key)
  {
    assert len <= |p|;
    assert NodeOf(e, key) < |e.nodes|;
    hide Coupled, Readable, SentFor, Continue, Open, Modified, FirstSlice;
    if Accepted(p, len, head) {
      if other in e.table {
        ContinueLeaves(e, key, other, p[..len]);
      } else if head.contentType == TYPE_UNKNOWN {
        ModifiedLeaves(e, key, other, p, len);
      } else if head.contentLen < MAX_BUF_LEN && e.free != [] {
        OpenLeaves(e, key, other, head.contentLen, FirstSlice(p, len));
      }
    }
  }

  // ---- clears ----

  /** No clear of the run takes the flow out of the table. */
  ghost predicate Spared(e: Engine, evs: seq<Event>, key: string)
    requires Coupled(e) && forall ev | ev in evs :: EventOk(ev)
  {
    evs == [] || (Spared(e, evs[..|evs| - 1], key) && (evs[|evs| - 1].Tick? ==> key in Run(e, evs).table))
  }

  /** A clear leaves a flow alone exactly if it does not act or the flow is not among the older half. */
  lemma ClearLeaves(e: Engine, key: string)
    requires Coupled(e) && key in e.table
    ensures var k := if NeedsClear(e) then |e.order| / 2 + 1 else 0;
            k <= |e.order| && (key in LRUClear(e).table <==> key in e.order[k..])
    ensures key in LRUClear(e).table ==> Undisturbed(e, LRUClear(e), key)
    ensures key !in LRUClear(e).table ==> e.table[key] in LRUClear(e).free
    ensures SentFor(LRUClear(e).sent, key) == SentFor(e.sent, key)
  {
    hide Coupled, SentFor, LRUClear, NodesOf;
    var r := LRUClear(e);
    Counts(e);
    ClearTakes(e);
    ShareIsHalf(|e.order|);
    FirstOfList(e, key);
    assert NodeOf(e, key) < |e.nodes|;
    if key !in r.table {
      Forgotten(e, r, key);
    }
  }

  lemma FirstOfList(e: Engine, key: string)
    requires Coupled(e) && key in e.table
    ensures e.order != []
  {
    assert key in e.order;
  }

  lemma Forgotten(e: Engine, r: Engine, key: string)
    requires Coupled(e) && Coupled(r) && key in e.table && key !in r.table && r.nodes == e.nodes
    requires forall k | k in r.table :: k in e.table && r.table[k] == e.table[k]
    ensures e.table[key] in r.free
  {
    assert NodeOf(e, key) < |e.nodes|;
  }

  // ---- the flow itself ----

  lemma OpenWaits(e: Engine, key: string, contentLen: int, first: seq<byte>)
    requires Coupled(e) && key !in e.table && e.free != [] && |first| < contentLen % 0x1_0000
    ensures e.free[0] < |e.nodes| && |e.nodes[e.free[0]].data| == MAX_BUF_LEN
    ensures var n, expected := e.free[0], contentLen % 0x1_0000; var r := Open(e, key, contentLen, first);
            Waiting(r, key, n, expected, first, e.nodes[n].data[expected..expected + 3]) && r.sent == e.sent
  {
    hide Claimed, NoDup;
    var n := e.free[0];
    assert n in e.free;
    ClaimFills(e.nodes[n], contentLen, first);
  }

  lemma Starts(e: Engine, key: string, p: seq<byte>, len: nat, head: Head)
    requires Coupled(e) && Readable(p, len) && Accepted(p, len, head) && key !in e.table && e.free != []
    requires head.contentType != TYPE_UNKNOWN && head.contentLen < MAX_BUF_LEN &&
             |FirstSlice(p, len)| < head.contentLen % 0x1_0000
    ensures e.free[0] < |e.nodes| && |e.nodes[e.free[0]].data| == MAX_BUF_LEN
    ensures var n, expected := e.free[0], head.contentLen % 0x1_0000; var r := HandleFrame(e, key, p, len, head);
            Waiting(r, key, n, expected, FirstSlice(p, len), e.nodes[n].data[expected..expected + 3]) &&
            r.sent == e.sent
  {
    hide Coupled, HandleFrame, Readable, FirstSlice, Accepted, Open, Waiting;
    FrameOpens(e, key, p, len, head);
    OpenWaits(e, key, head.contentLen, FirstSlice(p, len));
  }

  lemma ClaimFills(node: Node, contentLen: int, first: seq<byte>)
    requires NodeOk(node) && |first| < contentLen % 0x1_0000
    ensures var expected := contentLen % 0x1_0000;
            Filled(Claimed(node, contentLen, first), expected, first, node.data[expected..expected + 3])
  {
    var expected, data := contentLen % 0x1_0000, Claimed(node, contentLen, first).data;
    assert data[..|first|] == first;
    assert data[expected..expected + 3] == node.data[expected..expected + 3];
  }

  lemma OwnSlice(e: Engine, key: string, n: nat, expected: nat, got: seq<byte>, left: seq<byte>, slice: seq<byte>)
    requires Waiting(e, key, n, expected, got, left) && |slice| <= 3000 && |got| + |slice| < expected
    ensures var r := Continue(e, key, slice); Waiting(r, key, n, expected, got + slice, left) && r.sent == e.sent
  {
    hide Coupled, Complete, Grown;
    FillMore(e.nodes[n], expected, got, left, slice);
  }

  lemma WaitingStep(e: Engine, ev: Event, key: string, n: nat, expected: nat, got: seq<byte>, left: seq<byte>)
    requires Waiting(e, key, n, expected, got, left) && EventOk(ev) && |got| + |SliceOf(ev, key)| < expected
    requires ev.Tick? ==> key in Step(e, ev).table
    ensures var r := Step(e, ev);
            Waiting(r, key, n, expected, got + SliceOf(ev, key), left) && SentFor(r.sent, key) == SentFor(e.sent, key)
  {
    hide Coupled, Readable, HandleFrame, Continue, Filled, SentFor, Accepted, LRUClear;
    if ev.Tick? {
      assert got + [] == got;
      ClearLeaves(e, key);
    } else if ev.key != key {
      assert got + [] == got;
      OtherFrame(e, key, ev.key, ev.p, ev.len, ev.head);
    } else if Accepted(ev.p, ev.len, ev.head) {
      FrameContinues(e, key, ev.p, ev.len, ev.head);
      OwnSlice(e, key, n, expected, got, left, ev.p[..ev.len]);
    } else {
      assert got + [] == got;
      FrameIgnored(e, key, ev.p, ev.len, ev.head);
    }
  }

  lemma FrameIgnored(e: Engine, key: string, p: seq<byte>, len: nat, head: Head)
    requires Coupled(e) && Readable(p, len) && !Accepted(p, len, head)
    ensures HandleFrame(e, key, p, len, head) == e
  {
  }

  /** While fewer bytes than expected have come, the flow waits, whatever other flows do and whichever
      other flows are cleared. */
  lemma {:induction false} WaitingRun(e: Engine, evs: seq<Event>, key: string, n: nat, expected: nat,
                                      got: seq<byte>, left: seq<byte>)
    requires Waiting(e, key, n, expected, got, left)
    requires (forall ev | ev in evs :: EventOk(ev)) && Spared(e, evs, key)
    requires |got| + |Arrived(evs, key)| < expected
    ensures var r := Run(e, evs);
            Waiting(r, key, n, expected, got + Arrived(evs, key), left) && SentFor(r.sent, key) == SentFor(e.sent, key)
  {
    hide Coupled, EventOk, Step, Filled, SentFor, SliceOf;
    if evs == [] {
      assert got + [] == got;
    } else {
      var init, ev := evs[..|evs| - 1], evs[|evs| - 1];
      WaitingRun(e, init, key, n, expected, got, left);
      assert ev in evs;
      WaitingStep(Run(e, init), ev, key, n, expected, got + Arrived(init, key), left);
      assert got + Arrived(init, key) + SliceOf(ev, key) == got + (Arrived(init, key) + SliceOf(ev, key));
    }
  }

  /** The slice that brings the flow to its expected length sends what the body selects, and the flow is gone. */
  lemma Finishes(e: Engine, key: string, n: nat, expected: nat, got: seq<byte>, left: seq<byte>, slice: seq<byte>)
    requires Waiting(e, key, n, expected, got, left) && |slice| <= 3000 && |got| + |slice| == expected
    ensures |left| == 3
    ensures var r := Continue(e, key, slice);
            key !in r.table && key !in r.order && r.free == e.free + [n] &&
            SentFor(r.sent, key) == SentFor(e.sent, key) +
              match Sent(got + slice + left, expected) { case Some(bytes) => [bytes] case None => [] }
  {
    hide Coupled, Complete, Grown, SentFor, Sent, Removed;
    var node := Grown(e.nodes[n], slice);
    FillMore(e.nodes[n], expected, got, left, slice);
    var body := got + slice;
    assert node.data[..expected + 3] == body + left by {
      assert node.data[..expected] == body && node.data[expected..expected + 3] == left;
    }
    SentReadsWindow(node.data, body + left, expected);
    CompleteFacts(e, key, node);
    match Sent(node.data, node.used)
    case Some(bytes) => SentOne(e.sent, Message(key, bytes), key);
    case None =>
  }

  /** From the header to the message: the frame that opens the flow, any number of frames of this and
      other flows and of clears that spare this one, and the frame that brings the flow to its content
      length modulo 2^16. Nothing is sent for the flow before; then what the bytes up to there select
      is sent, once, and the flow's node is free again. For a content length of 2^16 or more those bytes are only a
      beginning of the body. */
  lemma BodyArrives(e: Engine, key: string, p: seq<byte>, len: nat, head: Head, evs: seq<Event>, last: Event,
                    body: seq<byte>)
    requires Coupled(e) && key !in e.table && e.free != []
    requires Readable(p, len) && Accepted(p, len, head) && head.contentType != TYPE_UNKNOWN
    requires (forall ev | ev in evs :: EventOk(ev)) && Spared(HandleFrame(e, key, p, len, head), evs, key)
    requires EventOk(last) && SliceOf(last, key) != []
    requires body == FirstSlice(p, len) + Arrived(evs, key) + SliceOf(last, key)
    requires |body| < 0x1_0000 && (head.contentLen - |body|) % 0x1_0000 == 0 && head.contentLen < MAX_BUF_LEN
    ensures e.free[0] < |e.nodes| && |e.nodes[e.free[0]].data| == MAX_BUF_LEN
    ensures var n := e.free[0]; var left := e.nodes[n].data[|body|..|body| + 3];
            var before := Run(HandleFrame(e, key, p, len, head), evs); var r := Step(before, last);
            SentFor(before.sent, key) == SentFor(e.sent, key) && key in before.table && before.table[key] == n &&
            key !in r.table && key !in r.order && n in r.free &&
            SentFor(r.sent, key) == SentFor(e.sent, key) +
              match Sent(body + left, |body|) { case Some(bytes) => [bytes] case None => [] }
  {
    hide Coupled, Readable, HandleFrame, Run, Continue, SentFor, FirstSlice, Arrived, Sent, Filled, Accepted;
    var first, n, expected := FirstSlice(p, len), e.free[0], |body|;
    Starts(e, key, p, len, head);
    var left := e.nodes[n].data[expected..expected + 3];
    var waiting := HandleFrame(e, key, p, len, head);
    WaitingRun(waiting, evs, key, n, expected, first, left);
    var before := Run(waiting, evs);
    FrameContinues(before, key, last.p, last.len, last.head);
    Finishes(before, key, n, expected, first + Arrived(evs, key), left, SliceOf(last, key));
  }

  // ---- flows that never meet their length ----

  /** The flow sits in node `n`, which keeps the announced length and the total so far modulo 2^16. */
  ghost predicate Counting(e: Engine, key: string, n: nat, announced: int, total: nat) {
    Coupled(e) && key in e.table && e.table[key] == n < |e.nodes| &&
    e.nodes[n].cLen == announced % 0x1_0000 && e.nodes[n].used == total % 0x1_0000
  }

  /** The total is the announced length, as far as 16 bits tell. */
  predicate Meets(total: int, announced: int) {
    (total - announced) % 0x1_0000 == 0
  }

  lemma MeetsExactly(announced: int, total: nat, more: nat)
    ensures (total % 0x1_0000 + more) % 0x1_0000 == announced % 0x1_0000 <==> Meets(total + more, announced)
    ensures (total % 0x1_0000 + more) % 0x1_0000 == (total + more) % 0x1_0000
  {
    WrapAdds(total, more);
    SameRemainder(total + more, announced);
  }

  lemma MissedSlice(e: Engine, key: string, n: nat, announced: int, total: nat, slice: seq<byte>)
    requires Counting(e, key, n, announced, total) && |slice| <= 3000
    requires !Meets(total + |slice|, announced)
    ensures var r := Continue(e, key, slice); Counting(r, key, n, announced, total + |slice|) && r.sent == e.sent
  {
    hide Complete, Splice, Partition, NoDup;
    MeetsExactly(announced, total, |slice|);
  }

  lemma MissedStep(e: Engine, ev: Event, key: string, n: nat, announced: int, total: nat)
    requires Counting(e, key, n, announced, total) && EventOk(ev)
    requires ev.Tick? ==> key in Step(e, ev).table
    requires SliceOf(ev, key) != [] ==> !Meets(total + |SliceOf(ev, key)|, announced)
    ensures var r := Step(e, ev);
            Counting(r, key, n, announced, total + |SliceOf(ev, key)|) && SentFor(r.sent, key) == SentFor(e.sent, key)
  {
    hide Coupled, Readable, HandleFrame, Continue, SentFor, Accepted, LRUClear, Meets;
    if ev.Tick? {
      ClearLeaves(e, key);
    } else if ev.key != key {
      OtherFrame(e, key, ev.key, ev.p, ev.len, ev.head);
    } else if Accepted(ev.p, ev.len, ev.head) {
      FrameContinues(e, key, ev.p, ev.len, ev.head);
      MissedSlice(e, key, n, announced, total, ev.p[..ev.len]);
    } else {
      FrameIgnored(e, key, ev.p, ev.len, ev.head);
    }
  }

  /** No slice of the flow brings its total to the announced length modulo 2^16. */
  ghost predicate NeverMeets(evs: seq<Event>, key: string, announced: int, total: nat)
    requires forall ev | ev in evs :: EventOk(ev)
  {
    evs == [] ||
    (NeverMeets(evs[..|evs| - 1], key, announced, total) &&
     (SliceOf(evs[|evs| - 1], key) != [] ==> !Meets(total + |Arrived(evs, key)|, announced)))
  }

  /** A flow whose total never meets its announced length modulo 2^16 stays as long as every clear spares
      it, however long other flows come and go, and nothing is sent for it. */
  lemma {:induction false} StaysUntilCleared(e: Engine, evs: seq<Event>, key: string, n: nat, announced: int,
                                             total: nat)
    requires Counting(e, key, n, announced, total)
    requires (forall ev | ev in evs :: EventOk(ev)) && Spared(e, evs, key) && NeverMeets(evs, key, announced, total)
    ensures var r := Run(e, evs);
            Counting(r, key, n, announced, total + |Arrived(evs, key)|) && SentFor(r.sent, key) == SentFor(e.sent, key)
  {
    hide Coupled, EventOk, Step, SentFor, SliceOf, Counting, Meets;
    CountingIsIn(e, key, n, announced, total);
    if evs != [] {
      var init, ev := evs[..|evs| - 1], evs[|evs| - 1];
      StaysUntilCleared(e, init, key, n, announced, total);
      assert ev in evs;
      MissedStep(Run(e, init), ev, key, n, announced, total + |Arrived(init, key)|);
    }
  }

  /** The flow is in the table all the way. */
  ghost predicate Unbroken(e: Engine, evs: seq<Event>, key: string)
    requires Coupled(e) && forall ev | ev in evs :: EventOk(ev)
  {
    key in Run(e, evs).table && (evs == [] || Unbroken(e, evs[..|evs| - 1], key))
  }

  lemma StepStays(e: Engine, ev: Event, key: string, n: nat, announced: int, total: nat)
    requires Counting(e, key, n, announced, total) && EventOk(ev)
    ensures key in Step(e, ev).table
       <==> (ev.Tick? ==> key in Step(e, ev).table) &&
            (SliceOf(ev, key) != [] ==> !Meets(total + |SliceOf(ev, key)|, announced))
  {
    hide Coupled, Readable, HandleFrame, Continue, SentFor, Accepted, LRUClear, Meets;
    if ev.Frame? {
      if ev.key != key {
        OtherFrame(e, key, ev.key, ev.p, ev.len, ev.head);
      } else if Accepted(ev.p, ev.len, ev.head) {
        FrameContinues(e, key, ev.p, ev.len, ev.head);
        ContinueEnds(e, key, ev.p[..ev.len]);
        MeetsExactly(announced, total, ev.len);
      } else {
        FrameIgnored(e, key, ev.p, ev.len, ev.head);
      }
    }
  }

  /** A flow stays exactly if every clear spares it and no slice brings its total to the announced length
      modulo 2^16. */
  lemma {:induction false} StaysExactly(e: Engine, evs: seq<Event>, key: string, n: nat, announced: int, total: nat)
    requires Counting(e, key, n, announced, total) && forall ev | ev in evs :: EventOk(ev)
    ensures Unbroken(e, evs, key) <==> Spared(e, evs, key) && NeverMeets(evs, key, announced, total)
  {
    hide Coupled, EventOk, Step, SentFor, SliceOf, Meets;
    if evs != [] {
      var init, ev := evs[..|evs| - 1], evs[|evs| - 1];
      StaysExactly(e, init, key, n, announced, total);
      assert ev in evs;
      if Unbroken(e, init, key) {
        StaysUntilCleared(e, init, key, n, announced, total);
        StepStays(Run(e, init), ev, key, n, announced, total + |Arrived(init, key)|);
      }
    }
  }

  lemma CountingIsIn(e: Engine, key: string, n: nat, announced: int, total: nat)
    requires Counting(e, key, n, announced, total)
    ensures Coupled(e) && key in e.table && e.table[key] == n
  {
  }

  /** A flow never meets its length while it still lacks bytes, or if nothing comes any more. */
  lemma {:induction false} ShortNeverMeets(evs: seq<Event>, key: string, announced: int, total: nat, length: nat)
    requires (forall ev | ev in evs :: EventOk(ev)) && length < 0x1_0000 && (announced - length) % 0x1_0000 == 0
    requires total + |Arrived(evs, key)| < length || Arrived(evs, key) == []
    ensures NeverMeets(evs, key, announced, total)
  {
    hide EventOk, SliceOf, Meets;
    if evs != [] {
      ShortNeverMeets(evs[..|evs| - 1], key, announced, total, length);
      StillShort(announced, total + |Arrived(evs, key)|, length);
    }
  }

  lemma StillShort(announced: int, total: nat, length: nat)
    requires length < 0x1_0000 && (announced - length) % 0x1_0000 == 0
    ensures total < length ==> !Meets(total, announced)
  {
    if total < length {
      SameRemainder(total, announced);
      SameRemainder(announced, length);
    }
  }

  lemma StartsCounting(e: Engine, key: string, p: seq<byte>, len: nat, head: Head)
    requires Coupled(e) && Readable(p, len) && Accepted(p, len, head) && key !in e.table && e.free != []
    requires head.contentType != TYPE_UNKNOWN && head.contentLen < MAX_BUF_LEN
    ensures |FirstSlice(p, len)| <= 3000
    ensures var r := HandleFrame(e, key, p, len, head);
            Counting(r, key, e.free[0], head.contentLen, |FirstSlice(p, len)|) && r.sent == e.sent
  {
    FrameOpens(e, key, p, len, head);
    hide HandleFrame, Readable, FirstSlice, Splice, NoDup;
    assert e.free[0] in e.free;
  }

  /** The frame of a flow that is there all the way since it was opened ends it exactly if all that has
      come differs from the announced length by a multiple of 2^16. Nothing is sent for the flow before,
      and if it does not end, nothing then. */
  lemma EndsExactly(e: Engine, key: string, p: seq<byte>, len: nat, head: Head, evs: seq<Event>, last: Event)
    requires Coupled(e) && key !in e.table && e.free != []
    requires Readable(p, len) && Accepted(p, len, head) && head.contentType != TYPE_UNKNOWN
    requires head.contentLen < MAX_BUF_LEN && (forall ev | ev in evs :: EventOk(ev))
    requires Unbroken(HandleFrame(e, key, p, len, head), evs, key)
    requires EventOk(last) && SliceOf(last, key) != []
    ensures var before := Run(HandleFrame(e, key, p, len, head), evs); var r := Step(before, last);
            SentFor(before.sent, key) == SentFor(e.sent, key) &&
            (key !in r.table <==>
             (|FirstSlice(p, len)| + |Arrived(evs, key)| + |SliceOf(last, key)| - head.contentLen) % 0x1_0000 == 0) &&
            (key in r.table ==> SentFor(r.sent, key) == SentFor(e.sent, key))
  {
    hide Coupled, Readable, HandleFrame, EventOk, Step, SentFor, SliceOf, FirstSlice, Arrived, Accepted, Counting,
         NeverMeets;
    var h, n := HandleFrame(e, key, p, len, head), e.free[0];
    var announced, total := head.contentLen, |FirstSlice(p, len)|;
    StartsCounting(e, key, p, len, head);
    StaysExactly(h, evs, key, n, announced, total);
    StaysUntilCleared(h, evs, key, n, announced, total);
    var now := total + |Arrived(evs, key)|;
    BringsIsFrame(last, key);
    StepStays(Run(h, evs), last, key, n, announced, now);
    if key in Step(Run(h, evs), last).table {
      MissedStep(Run(h, evs), last, key, n, announced, now);
    }
  }

  lemma BringsIsFrame(ev: Event, key: string)
    requires EventOk(ev) && SliceOf(ev, key) != []
    ensures ev.Frame?
  {
  }

  // ---- no long messages ----

  ghost predicate Short(sent: seq<Message>) {
    forall m | m in sent :: |m.bytes| < 0x1_0000
  }

  lemma FrameSendsShort(e: Engine, key: string, p: seq<byte>, len: nat, head: Head)
    requires Coupled(e) && Readable(p, len) && Short(e.sent)
    ensures Short(HandleFrame(e, key, p, len, head).sent)
  {
    assert len <= |p|;
    hide Coupled, Readable, Complete, FirstSlice, Claimed, Is4, Grown;
    if Accepted(p, len, head) && key in e.table {
      NodeStaysOk(e, key, p[..len]);
      CompleteFacts(e, key, Grown(e.nodes[NodeOf(e, key)], p[..len]));
    }
  }

  lemma NodeStaysOk(e: Engine, key: string, slice: seq<byte>)
    requires Coupled(e) && key in e.table && |slice| <= 3000
    ensures NodeOk(e.nodes[NodeOf(e, key)]) && NodeOk(Grown(e.nodes[NodeOf(e, key)], slice))
  {
  }

  /** No run ever sends a message of 2^16 bytes or more: a longer payload never arrives, although the buffer has room
      for it. */
  lemma {:induction false} EveryMessageIsShort(e: Engine, evs: seq<Event>)
    requires Coupled(e) && (forall ev | ev in evs :: EventOk(ev)) && Short(e.sent)
    ensures Short(Run(e, evs).sent)
  {
    hide Coupled, HandleFrame, Drop, Short;
    if evs != [] {
      var init, ev := evs[..|evs| - 1], evs[|evs| - 1];
      EveryMessageIsShort(e, init);
      assert ev in evs;
      if ev.Frame? {
        FrameSendsShort(Run(e, init), ev.key, ev.p, ev.len, ev.head);
      }
    }
  }
}
