/** Where the bytes of every message come from: flows do not see each other's bytes. */
module FlowOrigin {
  import opened Bytes
  import opened Allocation
  import opened Multipart
  import opened FlowEngine
  import opened FlowPolicy
  import opened FlowRefinement
  import opened FlowDelivery

  /** The accepted frames of a flow among the events, oldest first. */
  function Brought(evs: seq<Event>, key: string): (slices: seq<seq<byte>>)
    requires forall ev | ev in evs :: EventOk(ev)
    ensures Small(slices)
  {
    if evs == [] then []
    else
      var init, slice := Brought(evs[..|evs| - 1], key), SliceOf(evs[|evs| - 1], key);
      if slice == [] then init else init + [slice]
  }

  predicate IsFrame(ev: Event, key: string) {
    ev.Frame? && ev.key == key && Accepted(ev.p, ev.len, ev.head)
  }

  /** What a flow has received that frame `from` opened: the start of the body in that frame, then its frames since. */
  function OwnSlices(evs: seq<Event>, from: nat, key: string): (slices: seq<seq<byte>>)
    requires from < |evs| && (forall ev | ev in evs :: EventOk(ev)) && IsFrame(evs[from], key)
    ensures Small(slices)
  {
    assert EventOk(evs[from]);
    [FirstSlice(evs[from].p, evs[from].len)] + Brought(evs[from + 1..], key)
  }

  lemma OneEventMore(evs: seq<Event>, from: nat, key: string)
    requires from < |evs| - 1 && (forall ev | ev in evs :: EventOk(ev)) && IsFrame(evs[from], key)
    ensures var init, slice := evs[..|evs| - 1], SliceOf(evs[|evs| - 1], key);
            OwnSlices(evs, from, key) == OwnSlices(init, from, key) + if slice == [] then [] else [slice]
  {
    hide FirstSlice, SliceOf, EventOk, Accepted;
    var later := evs[from + 1..];
    assert later[..|later| - 1] == evs[..|evs| - 1][from + 1..];
  }

  // ---- what the node of a flow holds ----

  ghost predicate Keeps(e: Engine, key: string, slices: seq<seq<byte>>)
    requires Coupled(e)
  {
    key in e.table && Holds(e.nodes[NodeOf(e, key)], Flow(e.nodes[NodeOf(e, key)].cLen, slices))
  }

  /** The flow was opened by the frame that last brought its key into the table, and its node begins
      with the image of what the flow has received since. */
  ghost predicate Traced(e0: Engine, evs: seq<Event>, key: string)
    requires Coupled(e0) && forall ev | ev in evs :: EventOk(ev)
  {
    var born := Born(e0, evs, key);
    0 < born && IsFrame(evs[born - 1], key) && Keeps(Run(e0, evs), key, OwnSlices(evs, born - 1, key))
  }

  /** A key enters the table only with a frame of its own, into a fresh claim of a node. */
  lemma NewKey(e: Engine, ev: Event, key: string)
    requires Coupled(e) && EventOk(ev) && key !in e.table && key in Step(e, ev).table
    ensures IsFrame(ev, key) && NodeOf(Step(e, ev), key) < |e.nodes|
    ensures var n := NodeOf(Step(e, ev), key);
            NodeOk(e.nodes[n]) &&
            Step(e, ev).nodes[n] == Claimed(e.nodes[n], ev.head.contentLen, FirstSlice(ev.p, ev.len))
  {
    hide NoDup, Injective, FirstSlice, Claimed, Sent, Grown, Accepted, Partition;
    match ev
    case Tick =>
    case Frame(other, p, len, head) =>
      assert Accepted(p, len, head);
      assert e.free[0] in e.free;
  }

  /** A flow that stays keeps its node, which takes up the slice if the event brings one. */
  lemma KeyStays(e: Engine, ev: Event, key: string)
    requires Coupled(e) && EventOk(ev) && key in e.table && key in Step(e, ev).table
    ensures var r, n, slice := Step(e, ev), NodeOf(e, key), SliceOf(ev, key);
            NodeOf(r, key) == n && n < |r.nodes| && NodeOk(e.nodes[n]) &&
            r.nodes[n] == if slice == [] then e.nodes[n] else Grown(e.nodes[n], slice)
  {
    NodesOk(e);
    hide Coupled, Readable, HandleFrame, Continue, Grown, SentFor, Accepted, LRUClear, NodeOk;
    if ev.Tick? {
      ClearLeaves(e, key);
    } else if ev.key != key {
      OtherFrame(e, key, ev.key, ev.p, ev.len, ev.head);
    } else if Accepted(ev.p, ev.len, ev.head) {
      FrameContinues(e, key, ev.p, ev.len, ev.head);
      StaysGrown(e, key, ev.p[..ev.len]);
    } else {
      FrameIgnored(e, key, ev.p, ev.len, ev.head);
    }
  }

  lemma NodesOk(e: Engine)
    requires Coupled(e)
    ensures forall n | 0 <= n < |e.nodes| :: NodeOk(e.nodes[n])
  {
  }

  lemma StaysGrown(e: Engine, key: string, slice: seq<byte>)
    requires Coupled(e) && key in e.table && |slice| <= 3000 && key in Continue(e, key, slice).table
    ensures var r, n := Continue(e, key, slice), NodeOf(e, key);
            NodeOf(r, key) == n && r.nodes[n] == Grown(e.nodes[n], slice)
  {
    hide Grown, Partition, Sent, Removed;
  }

  lemma Opened(e0: Engine, evs: seq<Event>, key: string)
    requires Coupled(e0) && (forall ev | ev in evs :: EventOk(ev)) && evs != []
    requires key !in Run(e0, evs[..|evs| - 1]).table && key in Run(e0, evs).table
    ensures Traced(e0, evs, key)
  {
    hide Coupled, EventOk, Step, Holds, Claimed, FirstSlice, Accepted, NodeOk, NodeOf;
    var e, ev := Run(e0, evs[..|evs| - 1]), evs[|evs| - 1];
    assert ev in evs;
    NewKey(e, ev, key);
    FirstIsShort(ev, key);
    var n, first := NodeOf(Run(e0, evs), key), FirstSlice(ev.p, ev.len);
    assert evs[|evs|..] == [];
    assert OwnSlices(evs, |evs| - 1, key) == [first];
    ClaimedHolds(e.nodes[n], ev.head.contentLen, first);
  }

  lemma FirstIsShort(ev: Event, key: string)
    requires EventOk(ev) && IsFrame(ev, key)
    ensures Readable(ev.p, ev.len) && |FirstSlice(ev.p, ev.len)| <= 3000
  {
    hide FirstSlice;
  }

  lemma KeepsOneMore(e: Engine, ev: Event, key: string, slices: seq<seq<byte>>)
    requires Coupled(e) && EventOk(ev) && Keeps(e, key, slices) && key in Step(e, ev).table
    ensures Keeps(Step(e, ev), key, slices + if SliceOf(ev, key) == [] then [] else [SliceOf(ev, key)])
  {
    hide Coupled, EventOk, Step, Holds, Grown, SliceOf, NodeOk, NodeOf;
    KeyStays(e, ev, key);
    var slice, node := SliceOf(ev, key), e.nodes[NodeOf(e, key)];
    if slice == [] {
      assert slices + [] == slices;
    } else {
      GrownHolds(node, Flow(node.cLen, slices), slice);
      GrownKeepsLength(node, slice);
    }
  }

  lemma Stayed(e0: Engine, evs: seq<Event>, key: string)
    requires Coupled(e0) && (forall ev | ev in evs :: EventOk(ev)) && evs != []
    requires Traced(e0, evs[..|evs| - 1], key) && key in Run(e0, evs).table
    ensures Traced(e0, evs, key)
  {
    hide Coupled, EventOk, Step, Keeps, SliceOf, IsFrame, OwnSlices;
    var init, ev := evs[..|evs| - 1], evs[|evs| - 1];
    var e, born := Run(e0, init), Born(e0, init, key);
    assert ev in evs;
    KeepsIsIn(e, key, OwnSlices(init, born - 1, key));
    KeepsOneMore(e, ev, key, OwnSlices(init, born - 1, key));
    OneEventMore(evs, born - 1, key);
  }

  lemma KeepsIsIn(e: Engine, key: string, slices: seq<seq<byte>>)
    requires Coupled(e) && Keeps(e, key, slices)
    ensures key in e.table
  {
  }

  lemma GrownKeepsLength(node: Node, slice: seq<byte>)
    requires NodeOk(node) && |slice| <= 3000
    ensures Grown(node, slice).cLen == node.cLen
  {
  }

  /** In every run, every flow in the table was opened by a frame of its own, and its node begins with
      the image of exactly what its own frames have brought since. */
  lemma {:induction false} EveryFlowIsTraced(nodes: seq<Node>, evs: seq<Event>, key: string)
    requires 0 < |nodes| && (forall n | 0 <= n < |nodes| :: NodeOk(nodes[n])) && forall ev | ev in evs :: EventOk(ev)
    ensures Coupled(Started(nodes))
    ensures key in Run(Started(nodes), evs).table ==> Traced(Started(nodes), evs, key)
  {
    hide Coupled, NodeOk, EventOk, Step, Traced;
    StartedIsCoupled(nodes);
    if evs != [] && key in Run(Started(nodes), evs).table {
      var init := evs[..|evs| - 1];
      EveryFlowIsTraced(nodes, init, key);
      if key in Run(Started(nodes), init).table {
        Stayed(Started(nodes), evs, key);
      } else {
        Opened(Started(nodes), evs, key);
      }
    }
  }

  // ---- messages ----

  /** The frame was sent on whole: a JSON body of which no header had come. */
  ghost predicate IsWhole(ev: Event, m: Message) {
    IsFrame(ev, m.key) && ev.len <= |ev.p| && m.bytes == ev.p[..ev.len] && Is4(ev.p, 0, JSON) &&
    ev.p[ev.len - 1] == JSON_END
  }

  /** The message is the part from `start` on of what the flow had received that frame `from` opened. */
  ghost predicate IsOwnRange(evs: seq<Event>, from: nat, start: nat, m: Message)
    requires forall ev | ev in evs :: EventOk(ev)
  {
    from < |evs| - 1 && IsFrame(evs[from], m.key) && IsFrame(evs[|evs| - 1], m.key) &&
    var image := Image(OwnSlices(evs, from, m.key));
    start + |m.bytes| <= |image| && m.bytes == image[start..start + |m.bytes|]
  }

  lemma SameMessage(sent: seq<Message>, m: Message, m': Message)
    requires sent + [m] == sent + [m']
    ensures m == m'
  {
    assert (sent + [m])[|sent|] == (sent + [m'])[|sent|];
  }

  lemma ContinueSends(e: Engine, key: string, slice: seq<byte>, m: Message)
    requires Coupled(e) && key in e.table && |slice| <= 3000 && Continue(e, key, slice).sent == e.sent + [m]
    ensures var grown := Grown(e.nodes[NodeOf(e, key)], slice);
            m.key == key && NodeOk(grown) && Sent(grown.data, grown.used) == Some(m.bytes)
  {
    NodeStaysOk(e, key, slice);
    hide Coupled, Grown, Complete, Sent, Removed, NodeOk;
    var node := Grown(e.nodes[NodeOf(e, key)], slice);
    CompleteFacts(e, key, node);
    match Sent(node.data, node.used)
    case Some(bytes) => SameMessage(e.sent, m, Message(key, bytes));
    case None =>
  }

  lemma NewFlowSends(e: Engine, ev: Event, m: Message)
    requires Coupled(e) && EventOk(ev) && ev.Frame? && ev.key !in e.table && Step(e, ev).sent == e.sent + [m]
    ensures m.key == ev.key && IsWhole(ev, m)
  {
    hide Coupled, FirstSlice, Claimed, Is4;
    assert Step(e, ev).sent == e.sent + [Message(ev.key, ev.p[..ev.len])];
    SameMessage(e.sent, m, Message(ev.key, ev.p[..ev.len]));
  }

  /** Frame `from` opened the flow that is in the table after the events. */
  ghost predicate Opener(nodes: seq<Node>, evs: seq<Event>, key: string, from: nat)
    requires Coupled(Started(nodes)) && forall ev | ev in evs :: EventOk(ev)
  {
    key in Run(Started(nodes), evs).table && from + 1 == Born(Started(nodes), evs, key)
  }

  /** What an event may add to the log. */
  lemma StepSends(e: Engine, ev: Event, m: Message)
    requires Coupled(e) && EventOk(ev) && Step(e, ev).sent == e.sent + [m]
    ensures ev.Frame? && IsFrame(ev, m.key)
    ensures m.key !in e.table ==> IsWhole(ev, m)
    ensures m.key in e.table ==>
              var grown := Grown(e.nodes[NodeOf(e, m.key)], SliceOf(ev, m.key));
              NodeOk(grown) && Sent(grown.data, grown.used) == Some(m.bytes)
  {
    hide Coupled, Drop, FirstSlice, Grown, Continue, HandleFrame, Sent, NodeOk, Is4, ClearCount, Accepted, Readable;
    if ev.Frame? {
      if ev.key !in e.table {
        NewFlowSends(e, ev, m);
      } else if Accepted(ev.p, ev.len, ev.head) {
        FrameContinues(e, ev.key, ev.p, ev.len, ev.head);
        ContinueSends(e, ev.key, ev.p[..ev.len], m);
      } else {
        FrameIgnored(e, ev.key, ev.p, ev.len, ev.head);
      }
    }
  }

  lemma EventSends(e: Engine, ev: Event)
    requires Coupled(e) && EventOk(ev)
    ensures Step(e, ev).sent == e.sent || exists m :: Step(e, ev).sent == e.sent + [m]
  {
    hide Coupled, Drop, FirstSlice, Grown, Complete, Is4, ClearCount;
    if ev.Frame? && Accepted(ev.p, ev.len, ev.head) && ev.key in e.table {
      NodeStaysOk(e, ev.key, ev.p[..ev.len]);
      CompleteFacts(e, ev.key, Grown(e.nodes[NodeOf(e, ev.key)], ev.p[..ev.len]));
    }
  }

  /** What a completed node sends is a range of the image of its flow. */
  lemma SendsOwnRange(node: Node, flow: Flow, bytes: seq<byte>) returns (start: nat)
    requires NodeOk(node) && Holds(node, flow) && Sent(node.data, node.used) == Some(bytes)
    ensures start + |bytes| <= |Image(flow.slices)| && bytes == Image(flow.slices)[start..start + |bytes|]
  {
    hide Image, LastAt;
    var r := Selected(node.data, node.used).value;
    start := r.start;
    assert Image(flow.slices) == node.data[..|Image(flow.slices)|];
  }

  /** The message that the last event adds to the log. */
  lemma LastMessage(nodes: seq<Node>, evs: seq<Event>, m: Message) returns (from: nat, start: nat)
    requires 0 < |nodes| && (forall n | 0 <= n < |nodes| :: NodeOk(nodes[n])) &&
             (forall ev | ev in evs :: EventOk(ev)) && evs != []
    requires Coupled(Started(nodes))
    requires Run(Started(nodes), evs).sent == Run(Started(nodes), evs[..|evs| - 1]).sent + [m]
    ensures var ev, before := evs[|evs| - 1], evs[..|evs| - 1];
            ev.Frame? && (IsWhole(ev, m) || (IsOwnRange(evs, from, start, m) && Opener(nodes, before, m.key, from)))
  {
    hide Coupled, NodeOk, EventOk, Step, Holds, Sent, Grown, SliceOf, Accepted, OwnSlices, Image, IsWhole;
    var init, ev := evs[..|evs| - 1], evs[|evs| - 1];
    var e, key := Run(Started(nodes), init), m.key;
    assert ev in evs;
    StepSends(e, ev, m);
    from, start := 0, 0;
    if key in e.table {
      EveryFlowIsTraced(nodes, init, key);
      from := Born(Started(nodes), init, key) - 1;
      var slices, slice, node := OwnSlices(init, from, key), SliceOf(ev, key), e.nodes[NodeOf(e, key)];
      OneEventMore(evs, from, key);
      SliceIsFrame(ev, key);
      NodesOk(e);
      GrownHolds(node, Flow(node.cLen, slices), slice);
      start := SendsOwnRange(Grown(node, slice), Flow(node.cLen, slices + [slice]), m.bytes);
    }
  }

  lemma SliceIsFrame(ev: Event, key: string)
    requires EventOk(ev) && IsFrame(ev, key)
    ensures SliceOf(ev, key) == ev.p[..ev.len] != []
  {
  }

  /** The message at place `x` of the log of a run, and the event `t` that sent it. */
  ghost predicate SentBy(nodes: seq<Node>, evs: seq<Event>, x: nat, t: nat)
    requires Coupled(Started(nodes)) && forall ev | ev in evs :: EventOk(ev)
  {
    t < |evs| && x < |Run(Started(nodes), evs).sent| &&
    Run(Started(nodes), evs[..t + 1]).sent == Run(Started(nodes), evs[..t]).sent + [Run(Started(nodes), evs).sent[x]] &&
    |Run(Started(nodes), evs[..t]).sent| == x
  }

  /** Every message of every run was sent by one frame of its own flow. It is that frame, whole, or a
      range of the image of what the flow received from the frame that opened it, this time, up to this one. */
  lemma {:induction false} EveryMessageIsOwn(nodes: seq<Node>, evs: seq<Event>, x: nat)
    returns (t: nat, from: nat, start: nat)
    requires 0 < |nodes| && (forall n | 0 <= n < |nodes| :: NodeOk(nodes[n])) && forall ev | ev in evs :: EventOk(ev)
    requires Coupled(Started(nodes)) && x < |Run(Started(nodes), evs).sent|
    ensures t < |evs| && SentBy(nodes, evs, x, t)
    ensures var m := Run(Started(nodes), evs).sent[x];
            evs[t].Frame? &&
            (IsWhole(evs[t], m) || (IsOwnRange(evs[..t + 1], from, start, m) && Opener(nodes, evs[..t], m.key, from)))
  {
    hide Coupled, NodeOk, EventOk, Step, IsWhole, IsOwnRange, Opener;
    var init, ev := evs[..|evs| - 1], evs[|evs| - 1];
    var e, sent := Run(Started(nodes), init), Run(Started(nodes), evs).sent;
    assert ev in evs && evs[..|evs|] == evs;
    EventSends(e, ev);
    if x < |e.sent| {
      t, from, start := EveryMessageIsOwn(nodes, init, x);
      assert init[..t] == evs[..t] && init[..t + 1] == evs[..t + 1];
      assert sent[x] == e.sent[x];
    } else {
      t := |evs| - 1;
      assert sent == e.sent + [sent[x]];
      from, start := LastMessage(nodes, evs, sent[x]);
    }
  }

  /** So each byte of each message was brought by a frame of the flow that sends it: by the sending
      frame, at the same place, or by the last slice since the flow was opened that was written over its place. */
  lemma ByteIsOwn(nodes: seq<Node>, evs: seq<Event>, x: nat, i: nat) returns (t: nat, from: nat, start: nat)
    requires 0 < |nodes| && (forall n | 0 <= n < |nodes| :: NodeOk(nodes[n])) && forall ev | ev in evs :: EventOk(ev)
    requires Coupled(Started(nodes)) && x < |Run(Started(nodes), evs).sent|
    requires i < |Run(Started(nodes), evs).sent[x].bytes|
    ensures t < |evs| && SentBy(nodes, evs, x, t) && evs[t].Frame?
    ensures var m := Run(Started(nodes), evs).sent[x];
            (IsWhole(evs[t], m) && m.bytes[i] == evs[t].p[i]) ||
            (Opener(nodes, evs[..t], m.key, from) && IsOwnRange(evs[..t + 1], from, start, m) &&
             var slices := OwnSlices(evs[..t + 1], from, m.key); var w := Writer(Lengths(slices), start + i);
             w.Some? && m.bytes[i] == slices[w.value][start + i - Place(Lengths(slices), w.value)])
  {
    hide Coupled, NodeOk, EventOk, Run, OwnSlices, Image, Writer, Place, IsFrame, SentBy, Opener;
    t, from, start := EveryMessageIsOwn(nodes, evs, x);
    var m := Run(Started(nodes), evs).sent[x];
    if IsOwnRange(evs[..t + 1], from, start, m) {
      ImageIsOwn(OwnSlices(evs[..t + 1], from, m.key), start + i);
    }
  }
}
