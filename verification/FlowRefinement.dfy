/** The engine against a simpler one: an ordered map from flows to the slices they have received. */
module FlowRefinement {
  import opened Bytes
  import opened Allocation
  import opened HttpParse
  import opened Multipart
  import opened FlowEngine
  import opened FlowPolicy

  /** A flow knows the length it expects, modulo 2^16, and its own slices. No node, no buffer. */
  datatype Flow = Flow(expected: nat, slices: seq<seq<byte>>)

  datatype Abstract = Abstract(order: seq<string>, flows: map<string, Flow>, sent: seq<Message>)

  ghost predicate Small(slices: seq<seq<byte>>) {
    forall s | s in slices :: |s| <= 3000
  }

  function Total(slices: seq<seq<byte>>): nat {
    if slices == [] then 0 else Total(slices[..|slices| - 1]) + |slices[|slices| - 1]|
  }

  function Concat(slices: seq<seq<byte>>): seq<byte> {
    if slices == [] then [] else Concat(slices[..|slices| - 1]) + slices[|slices| - 1]
  }

  function Overlay(image: seq<byte>, at: nat, slice: seq<byte>): (r: seq<byte>)
    requires at <= |image|
    ensures |r| == if at + |slice| < |image| then |image| else at + |slice|
  {
    image[..at] + slice + if at + |slice| < |image| then image[at + |slice|..] else []
  }

  /** The bytes a flow has put into its node: beyond 2^16 bytes it writes over its own beginning. */
  function Image(slices: seq<seq<byte>>): (r: seq<byte>)
    requires Small(slices)
    ensures |r| < 0x1_0000 + 3000 && Total(slices) % 0x1_0000 <= |r|
    ensures Total(slices) < 0x1_0000 ==> |r| == Total(slices)
    ensures Total(slices) >= 0x1_0000 ==> |r| >= 0x1_0000
  {
    if slices == [] then []
    else
      var init, last := slices[..|slices| - 1], slices[|slices| - 1];
      StepFits(Total(init), |last|);
      Overlay(Image(init), Total(init) % 0x1_0000, last)
  }

  lemma StepFits(total: nat, n: nat)
    ensures total % 0x1_0000 < 0x1_0000 && (total < 0x1_0000 ==> total % 0x1_0000 == total)
    ensures (total + n) % 0x1_0000 <= total % 0x1_0000 + n
    ensures total < 0x1_0000 <= total + n ==> total % 0x1_0000 + n >= 0x1_0000
  {
  }

  /** Below 2^16 bytes nothing is written over: the image is the concatenation of the slices. */
  lemma {:induction false} ImageIsConcat(slices: seq<seq<byte>>)
    requires Small(slices) && Total(slices) < 0x1_0000
    ensures Image(slices) == Concat(slices)
  {
    hide Overlay;
    if slices != [] {
      var init, last := slices[..|slices| - 1], slices[|slices| - 1];
      ImageIsConcat(init);
      OverlayAtEnd(Image(init), last);
    }
  }

  lemma OverlayAtEnd(image: seq<byte>, slice: seq<byte>)
    ensures Overlay(image, |image|, slice) == image + slice
  {
  }

  lemma Received(slices: seq<seq<byte>>, slice: seq<byte>)
    requires Small(slices) && |slice| <= 3000
    ensures Small(slices + [slice]) && Total(slices + [slice]) == Total(slices) + |slice|
    ensures Image(slices + [slice]) == Overlay(Image(slices), Total(slices) % 0x1_0000, slice)
  {
    hide Overlay;
    assert (slices + [slice])[..|slices|] == slices;
  }

  lemma OverlayInBuffer(data: seq<byte>, image: seq<byte>, at: nat, slice: seq<byte>)
    requires image <= data && at <= |image| && at + |slice| <= |data|
    ensures Overlay(image, at, slice) <= Splice(data, at, slice)
  {
  }

  // ---- which slice a byte of the image comes from ----

  function Lengths(slices: seq<seq<byte>>): (r: seq<nat>)
    ensures |r| == |slices| && forall j | 0 <= j < |r| :: r[j] == |slices[j]|
  {
    seq(|slices|, j requires 0 <= j < |slices| => |slices[j]|)
  }

  function Sum(lengths: seq<nat>): nat {
    if lengths == [] then 0 else Sum(lengths[..|lengths| - 1]) + lengths[|lengths| - 1]
  }

  /** Where slice `j` is written: at the number of bytes that came before it, modulo 2^16. */
  function Place(lengths: seq<nat>, j: nat): nat
    requires j < |lengths|
  {
    Sum(lengths[..j]) % 0x1_0000
  }

  predicate Covers(lengths: seq<nat>, j: nat, i: nat)
    requires j < |lengths|
  {
    Place(lengths, j) <= i < Place(lengths, j) + lengths[j]
  }

  /** The last of the slices that is written over position `i`. It depends on their lengths alone. */
  function Writer(lengths: seq<nat>, i: nat): (w: Option<nat>)
    ensures w.Some? ==> w.value < |lengths| && Covers(lengths, w.value, i)
    ensures forall j: nat | j < |lengths| && Covers(lengths, j, i) :: w.Some? && j <= w.value
  {
    if lengths == [] then None
    else
      var init, last := lengths[..|lengths| - 1], |lengths| - 1;
      assert forall j: nat | j < last :: init[..j] == lengths[..j];
      assert forall j: nat | j < last :: Covers(init, j, i) <==> Covers(lengths, j, i);
      if Covers(lengths, last, i) then Some(last) else Writer(init, i)
  }

  lemma {:induction false} SumIsTotal(slices: seq<seq<byte>>)
    ensures Sum(Lengths(slices)) == Total(slices)
  {
    if slices != [] {
      var init := slices[..|slices| - 1];
      assert Lengths(slices)[..|slices| - 1] == Lengths(init);
      SumIsTotal(init);
    }
  }

  lemma OverlayAt(image: seq<byte>, at: nat, slice: seq<byte>, i: nat)
    requires at <= |image|
    ensures var r := Overlay(image, at, slice);
            (i < |r| <==> i < |image| || at <= i < at + |slice|) &&
            (i < |r| ==> r[i] == if at <= i < at + |slice| then slice[i - at] else image[i])
  {
  }

  /** The last slice covers its own range; below it the places are those of the slices before. */
  lemma LastPlace(slices: seq<seq<byte>>, i: nat)
    requires slices != []
    ensures var lengths, before, last := Lengths(slices), Lengths(slices[..|slices| - 1]), |slices| - 1;
            var at := Total(slices[..last]) % 0x1_0000;
            Place(lengths, last) == at && (Covers(lengths, last, i) <==> at <= i < at + |slices[last]|) &&
            (forall j: nat | j < last :: Place(lengths, j) == Place(before, j)) &&
            Writer(lengths, i) == if at <= i < at + |slices[last]| then Some(last) else Writer(before, i)
  {
    var lengths, last := Lengths(slices), |slices| - 1;
    assert lengths[..last] == Lengths(slices[..last]);
    SumIsTotal(slices[..last]);
    assert forall j: nat | j < last :: lengths[..last][..j] == lengths[..j];
  }

  /** Beyond 2^16 bytes too, every byte of the image is the one that the last slice written over its
      place brought there; places no slice was written over are not part of the image. */
  lemma {:induction false} ImageIsOwn(slices: seq<seq<byte>>, i: nat)
    requires Small(slices)
    ensures i < |Image(slices)| <==> Writer(Lengths(slices), i).Some?
    ensures i < |Image(slices)| ==>
              var j := Writer(Lengths(slices), i).value;
              Image(slices)[i] == slices[j][i - Place(Lengths(slices), j)]
  {
    hide Overlay, Place, Covers, Total, Writer, Small;
    if slices == [] {
      assert Lengths(slices) == [];
      NoWriter(i);
    } else {
      var init, last := slices[..|slices| - 1], slices[|slices| - 1];
      InitIsSmall(slices);
      ImageIsOwn(init, i);
      LastPlace(slices, i);
      OverlayAt(Image(init), Total(init) % 0x1_0000, last, i);
    }
  }

  lemma NoWriter(i: nat)
    ensures Writer([], i).None?
  {
  }

  lemma InitIsSmall(slices: seq<seq<byte>>)
    requires Small(slices) && slices != []
    ensures Small(slices[..|slices| - 1]) && Total(slices[..|slices| - 1]) % 0x1_0000 <= |Image(slices[..|slices| - 1])|
  {
  }

  // ---- the abstract steps ----

  /** The window `RecvFinished` reads: the flow's bytes, then three more. What stands behind the
      flow's own bytes is not known to the abstract engine, which takes it from `look`. */
  function Seen(image: seq<byte>, used: nat, look: seq<byte>): (r: seq<byte>)
    requires used <= |image| && |look| == 3
    ensures |r| == used + 3
  {
    (image + look)[..used + 3]
  }

  function Extend(a: Abstract, key: string, slice: seq<byte>, look: seq<byte>): Abstract
    requires key in a.flows && Small(a.flows[key].slices) && |slice| <= 3000 && |look| == 3
  {
    var flow := Flow(a.flows[key].expected, a.flows[key].slices + [slice]);
    var used := Total(flow.slices) % 0x1_0000;
    if used != flow.expected then a.(flows := a.flows[key := flow])
    else
      var r := a.(flows := a.flows - {key}, order := Removed(a.order, key));
      match Sent(Seen(Image(flow.slices), used, look), used)
      case Some(bytes) => r.(sent := a.sent + [Message(key, bytes)])
      case None => r
  }

  ghost predicate AllSmall(a: Abstract) {
    forall key | key in a.flows :: Small(a.flows[key].slices)
  }

  function AbstractFrame(a: Abstract, size: nat, key: string, p: seq<byte>, len: nat, head: Head,
                         look: seq<byte>): Abstract
    requires AllSmall(a) && Readable(p, len) && |look| == 3
  {
    if !Accepted(p, len, head) then a
    else if key in a.flows then Extend(a, key, p[..len], look)
    else if head.contentType == TYPE_UNKNOWN then
      if Is4(p, 0, JSON) && p[len - 1] == JSON_END then a.(sent := a.sent + [Message(key, p[..len])]) else a
    else if head.contentLen >= MAX_BUF_LEN || |a.order| >= size then a
    else a.(flows := a.flows[key := Flow(head.contentLen % 0x1_0000, [FirstSlice(p, len)])], order := a.order + [key])
  }

  /** The oldest `k` flows go. */
  function AbstractDrop(a: Abstract, k: nat): (r: Abstract)
    requires k <= |a.order|
    ensures |r.order| == |a.order| - k && forall key | key in r.flows :: key in a.flows && r.flows[key] == a.flows[key]
  {
    if k == 0 then a
    else var d := AbstractDrop(a, k - 1); d.(order := d.order[1..], flows := d.flows - {d.order[0]})
  }

  function AbstractClear(a: Abstract, size: nat): (r: Abstract)
    ensures AllSmall(a) ==> AllSmall(r)
  {
    if |a.order| >= Threshold(size) then AbstractDrop(a, Share(|a.order|)) else a
  }

  function AbstractStep(a: Abstract, size: nat, ev: Event, look: seq<byte>): (r: Abstract)
    requires AllSmall(a) && EventOk(ev) && |look| == 3
    ensures AllSmall(r)
  {
    match ev
    case Frame(key, p, len, head) => AbstractFrame(a, size, key, p, len, head, look)
    case Tick => AbstractClear(a, size)
  }

  // ---- the simulation ----

  ghost predicate Holds(node: Node, flow: Flow) {
    Small(flow.slices) && node.cLen == flow.expected && node.used == Total(flow.slices) % 0x1_0000 &&
    Image(flow.slices) <= node.data
  }

  ghost predicate Simulates(e: Engine, a: Abstract)
    requires Coupled(e)
  {
    a.order == e.order && a.sent == e.sent && (forall key :: key in a.flows <==> key in e.table) &&
    forall key | key in e.table :: Holds(e.nodes[NodeOf(e, key)], a.flows[key])
  }

  /** A node holds what its flow has received: another slice. Also, no write reaches the end of the
      buffer, so the clamp of the code never shortens a slice. */
  lemma GrownHolds(node: Node, flow: Flow, slice: seq<byte>)
    requires NodeOk(node) && Holds(node, flow) && |slice| <= 3000
    ensures Holds(Grown(node, slice), Flow(flow.expected, flow.slices + [slice]))
    ensures node.used + |slice| < MAX_BUF_LEN
  {
    hide Image, Overlay, Splice, Small;
    Received(flow.slices, slice);
    OverlayInBuffer(node.data, Image(flow.slices), node.used, slice);
  }

  lemma ClaimedHolds(node: Node, contentLen: int, first: seq<byte>)
    requires NodeOk(node) && |first| <= 3000
    ensures Holds(Claimed(node, contentLen, first), Flow(contentLen % 0x1_0000, [first]))
  {
    var slices := [first];
    assert slices[..0] == [] && Total([]) == 0 && Image([]) == [];
    assert Total(slices) == |first|;
    assert Image(slices) == Overlay([], 0, first) == first;
  }

  /** `Sent` reads no further than three bytes behind the length. */
  lemma SentReadsWindow(p: seq<byte>, q: seq<byte>, len: nat)
    requires len + 3 <= |p| && len + 3 <= |q| && p[..len + 3] == q[..len + 3]
    ensures Sent(p, len) == Sent(q, len)
  {
    assert forall i | 0 <= i < len + 3 :: p[i] == p[..len + 3][i] == q[i];
    LastAtReadsWindow(p, q, len, CRLFCRLF);
    LastAtReadsWindow(p, q, len, CRLFDASH);
    LastAtReadsWindow(p, q, len, DASHCRLF);
    match Selected(p, len)
    case Some(r) => assert p[r.start..r.start + r.len] == q[r.start..r.start + r.len];
    case None =>
  }

  lemma {:induction false} LastAtReadsWindow(p: seq<byte>, q: seq<byte>, n: nat, m: seq<byte>)
    requires |m| == 4 && n + 3 <= |p| && n + 3 <= |q| && forall i | 0 <= i < n + 3 :: p[i] == q[i]
    ensures LastAt(p, n, m) == LastAt(q, n, m)
  {
    if n > 0 {
      LastAtReadsWindow(p, q, n - 1, m);
    }
  }

  /** The three bytes behind what the flow of `node` has written. */
  function Behind(node: Node, flow: Flow): (look: seq<byte>)
    requires NodeOk(node) && Holds(node, flow)
    ensures |look| == 3
  {
    var n := |Image(flow.slices)|;
    node.data[n..n + 3]
  }

  lemma SeenIsBuffer(node: Node, flow: Flow)
    requires NodeOk(node) && Holds(node, flow)
    ensures Sent(Seen(Image(flow.slices), node.used, Behind(node, flow)), node.used) == Sent(node.data, node.used)
  {
    var image := Image(flow.slices);
    assert image + Behind(node, flow) == node.data[..|image| + 3];
    SentReadsWindow(Seen(image, node.used, Behind(node, flow)), node.data, node.used);
  }

  lemma OtherNode(e: Engine, key: string, other: string)
    requires Coupled(e) && key in e.table && other in e.table && key != other
    ensures NodeOf(e, key) != NodeOf(e, other)
  {
  }

  lemma StoreSimulates(e: Engine, a: Abstract, key: string, node: Node, flow: Flow)
    requires Coupled(e) && Simulates(e, a) && key in e.table && NodeOk(node) && Holds(node, flow)
    ensures var e' := e.(nodes := e.nodes[NodeOf(e, key) := node]);
            Coupled(e') && Simulates(e', a.(flows := a.flows[key := flow]))
  {
    hide Holds, NodeOk, Partition, NoDup;
    forall other | other in e.table && other != key
      ensures NodeOf(e, key) != NodeOf(e, other)
    {
      OtherNode(e, key, other);
    }
  }

  lemma OpenSimulates(e: Engine, a: Abstract, key: string, contentLen: int, first: seq<byte>)
    requires Coupled(e) && Simulates(e, a) && key !in e.table && e.free != [] && |first| <= 3000
    ensures Simulates(Open(e, key, contentLen, first),
                      a.(flows := a.flows[key := Flow(contentLen % 0x1_0000, [first])], order := a.order + [key]))
  {
    hide Holds, Claimed;
    var n := e.free[0];
    assert n in e.free;
    var e' := Open(e, key, contentLen, first);
    ClaimedHolds(e.nodes[n], contentLen, first);
    forall other | other in e.table
      ensures NodeOf(e', other) == NodeOf(e, other) != n
    {
      assert e.table[other] in e.table.Values;
    }
  }

  /** Flows that are still there, with the same node contents, are still simulated. */
  lemma Remains(e: Engine, a: Abstract, r: Engine, b: Abstract)
    requires Coupled(e) && Simulates(e, a) && Coupled(r)
    requires b.order == r.order && b.sent == r.sent && forall key :: key in b.flows <==> key in r.table
    requires forall key | key in r.table :: key in e.table && r.nodes[NodeOf(r, key)] == e.nodes[NodeOf(e, key)]
    requires forall key | key in b.flows :: key in a.flows && b.flows[key] == a.flows[key]
    ensures Simulates(r, b)
  {
    hide Coupled, Holds;
  }

  lemma CompleteFacts(e: Engine, key: string, node: Node)
    requires Coupled(e) && key in e.table && NodeOk(node)
    ensures var r := Complete(e, key, node);
            r.order == Removed(e.order, key) && r.table == e.table - {key} && r.free == e.free + [NodeOf(e, key)] &&
            (match Sent(node.data, node.used)
             case Some(bytes) => r.sent == e.sent + [Message(key, bytes)]
             case None => r.sent == e.sent) &&
            forall n | 0 <= n < |e.nodes| && n != NodeOf(e, key) :: r.nodes[n] == e.nodes[n]
  {
    hide Sent, Removed;
  }

  lemma CompleteSimulates(e: Engine, a: Abstract, key: string, node: Node, flow: Flow)
    requires Coupled(e) && Simulates(e, a) && key in e.table && NodeOk(node) && Holds(node, flow)
    ensures var used := node.used; var r := a.(flows := a.flows - {key}, order := Removed(a.order, key));
            Simulates(Complete(e, key, node),
                      match Sent(Seen(Image(flow.slices), used, Behind(node, flow)), used)
                      case Some(bytes) => r.(sent := a.sent + [Message(key, bytes)])
                      case None => r)
  {
    SeenIsBuffer(node, flow);
    CompleteFacts(e, key, node);
    hide Holds, NodeOk, Sent, Image, Seen, Behind, Removed, Coupled, Complete, Simulates;
    SameBooks(e, a);
    var r := Complete(e, key, node);
    forall other | other in r.table
      ensures other in e.table && r.nodes[NodeOf(r, other)] == e.nodes[NodeOf(e, other)]
    {
      OtherNode(e, key, other);
    }
    var b := a.(flows := a.flows - {key}, order := Removed(a.order, key));
    match Sent(node.data, node.used)
    case Some(bytes) => Remains(e, a, r, b.(sent := a.sent + [Message(key, bytes)]));
    case None => Remains(e, a, r, b);
  }

  lemma SameBooks(e: Engine, a: Abstract)
    requires Coupled(e) && Simulates(e, a)
    ensures a.order == e.order && a.sent == e.sent && forall key :: key in a.flows <==> key in e.table
  {
  }

  lemma SentSimulates(e: Engine, a: Abstract, m: Message)
    requires Coupled(e) && Simulates(e, a)
    ensures Coupled(e.(sent := e.sent + [m])) && Simulates(e.(sent := e.sent + [m]), a.(sent := a.sent + [m]))
  {
    hide Holds, NodeOk, Partition, NoDup;
  }

  /** One frame, with the bytes the abstract engine has to be told. */
  lemma FrameSimulates(e: Engine, a: Abstract, key: string, p: seq<byte>, len: nat, head: Head)
    returns (look: seq<byte>)
    requires Coupled(e) && Simulates(e, a) && Readable(p, len)
    ensures |look| == 3 && AllSmall(a)
    ensures Simulates(HandleFrame(e, key, p, len, head), AbstractFrame(a, |e.nodes|, key, p, len, head, look))
  {
    assert len <= |p|;
    hide Coupled, Simulates, AllSmall, Readable, FirstSlice, Open, Continue, Extend;
    SimulatedIsSmall(e, a);
    SameBooks(e, a);
    look := [0, 0, 0];
    if Accepted(p, len, head) {
      SentSimulates(e, a, Message(key, p[..len]));
      if key in e.table {
        look := ContinueSimulates(e, a, key, p[..len]);
      } else if head.contentType != TYPE_UNKNOWN && head.contentLen < MAX_BUF_LEN {
        Counts(e);
        if e.free != [] {
          OpenSimulates(e, a, key, head.contentLen, FirstSlice(p, len));
        }
      }
    }
  }

  lemma SimulatedIsSmall(e: Engine, a: Abstract)
    requires Coupled(e) && Simulates(e, a)
    ensures AllSmall(a)
  {
    forall key | key in a.flows
      ensures Small(a.flows[key].slices)
    {
      assert Holds(e.nodes[NodeOf(e, key)], a.flows[key]);
    }
  }

  lemma ContinueSimulates(e: Engine, a: Abstract, key: string, slice: seq<byte>) returns (look: seq<byte>)
    requires Coupled(e) && Simulates(e, a) && key in e.table && |slice| <= 3000
    ensures |look| == 3 && Small(a.flows[key].slices)
    ensures Simulates(Continue(e, key, slice), Extend(a, key, slice, look))
  {
    hide Complete, Image, Sent, Seen, Small, Removed;
    var n, flow := NodeOf(e, key), a.flows[key];
    assert Holds(e.nodes[n], flow);
    var node, flow' := Grown(e.nodes[n], slice), Flow(flow.expected, flow.slices + [slice]);
    GrownHolds(e.nodes[n], flow, slice);
    look := Behind(node, flow');
    if node.cLen != node.used {
      StoreSimulates(e, a, key, node, flow');
    } else {
      CompleteSimulates(e, a, key, node, flow');
    }
  }

  lemma {:induction false} DropSimulates(e: Engine, a: Abstract, k: nat)
    requires Coupled(e) && Simulates(e, a) && k <= |e.order|
    ensures |a.order| == |e.order| && Simulates(Drop(e, k), AbstractDrop(a, k))
    decreases k
  {
    hide Coupled, Simulates, DropOldest;
    SameBooks(e, a);
    if k > 0 {
      DropSimulates(e, a, k - 1);
      OldestSimulates(Drop(e, k - 1), AbstractDrop(a, k - 1));
    }
  }

  lemma OldestSimulates(e: Engine, a: Abstract)
    requires Coupled(e) && Simulates(e, a) && e.order != []
    ensures a.order == e.order && Simulates(DropOldest(e), a.(order := a.order[1..], flows := a.flows - {a.order[0]}))
  {
    hide Coupled, Simulates;
    SameBooks(e, a);
    var r := DropOldest(e);
    forall key | key in r.table
      ensures key in e.table && r.nodes[NodeOf(r, key)] == e.nodes[NodeOf(e, key)]
    {
    }
    Remains(e, a, r, a.(order := a.order[1..], flows := a.flows - {a.order[0]}));
  }

  lemma ClearSimulates(e: Engine, a: Abstract)
    requires Coupled(e) && Simulates(e, a)
    ensures Simulates(LRUClear(e), AbstractClear(a, |e.nodes|))
  {
    hide Coupled, Simulates, Drop, Threshold, Share;
    Counts(e);
    SameBooks(e, a);
    DropSimulates(e, a, ClearCount(e));
    DropSimulates(e, a, 0);
    assert ClearCount(e) == 0 ==> AbstractDrop(a, 0) == a;
  }

  lemma StepSimulates(e: Engine, a: Abstract, ev: Event) returns (look: seq<byte>)
    requires Coupled(e) && Simulates(e, a) && EventOk(ev)
    ensures |look| == 3 && AllSmall(a)
    ensures Simulates(Step(e, ev), AbstractStep(a, |e.nodes|, ev, look))
  {
    hide Coupled, Simulates, HandleFrame, AbstractFrame, LRUClear, AbstractClear, AllSmall;
    look := [0, 0, 0];
    match ev {
      case Frame(key, p, len, head) => look := FrameSimulates(e, a, key, p, len, head);
      case Tick =>
        SimulatedIsSmall(e, a);
        ClearSimulates(e, a);
    }
  }

  function AbstractRun(a: Abstract, size: nat, evs: seq<Event>, looks: seq<seq<byte>>): (r: Abstract)
    requires |looks| == |evs| && (forall l | l in looks :: |l| == 3) && (forall ev | ev in evs :: EventOk(ev)) &&
             AllSmall(a)
    ensures AllSmall(r)
  {
    if evs == [] then a
    else
      assert looks[|evs| - 1] in looks;
      var r := AbstractRun(a, size, evs[..|evs| - 1], looks[..|evs| - 1]);
      AbstractStep(r, size, evs[|evs| - 1], looks[|evs| - 1])
  }

  /** Every run of the engine is a run of the abstract engine. */
  lemma {:induction false} RunSimulates(e: Engine, a: Abstract, evs: seq<Event>) returns (looks: seq<seq<byte>>)
    requires Coupled(e) && Simulates(e, a) && forall ev | ev in evs :: EventOk(ev)
    ensures |looks| == |evs| && (forall l | l in looks :: |l| == 3) && AllSmall(a)
    ensures Simulates(Run(e, evs), AbstractRun(a, |e.nodes|, evs, looks))
  {
    SimulatedIsSmall(e, a);
    hide Coupled, Simulates, Step, AbstractStep, AllSmall, EventOk;
    if evs == [] {
      looks := [];
    } else {
      var init, ev := evs[..|evs| - 1], evs[|evs| - 1];
      var before := RunSimulates(e, a, init);
      var e1, a1 := Run(e, init), AbstractRun(a, |e.nodes|, init, before);
      var look := StepSimulates(e1, a1, ev);
      looks := before + [look];
      assert looks[..|evs| - 1] == before;
    }
  }

  /** From the first frame on, whatever the nodes held before. */
  lemma EveryRunRefines(nodes: seq<Node>, evs: seq<Event>) returns (looks: seq<seq<byte>>)
    requires 0 < |nodes| && (forall n | 0 <= n < |nodes| :: NodeOk(nodes[n])) && forall ev | ev in evs :: EventOk(ev)
    ensures Coupled(Started(nodes)) && |looks| == |evs| && forall l | l in looks :: |l| == 3
    ensures Simulates(Run(Started(nodes), evs), AbstractRun(Abstract([], map[], []), |nodes|, evs, looks))
  {
    hide Run, AbstractRun, EventOk;
    StartedIsCoupled(nodes);
    looks := RunSimulates(Started(nodes), Abstract([], map[], []), evs);
  }

  // ---- what the simulation says about buffers, counters and messages ----

  /** Below 2^16 bytes the node of a flow holds exactly the flow's slices, one after the other, and
      counts them; beyond that the count is kept modulo 2^16. */
  lemma BufferHoldsSlices(e: Engine, a: Abstract, key: string)
    requires Coupled(e) && Simulates(e, a) && key in e.table
    ensures var node, slices := e.nodes[NodeOf(e, key)], a.flows[key].slices;
            node.used == Total(slices) % 0x1_0000 && node.cLen == a.flows[key].expected &&
            (Total(slices) < 0x1_0000 ==> node.used == Total(slices) && node.data[..node.used] == Concat(slices))
  {
    hide Coupled, Simulates, Image, Total, Concat;
    HeldBy(e, a, key);
    var node, flow := e.nodes[NodeOf(e, key)], a.flows[key];
    if Total(flow.slices) < 0x1_0000 {
      ImageIsConcat(flow.slices);
      assert Image(flow.slices) == node.data[..|Image(flow.slices)|];
    }
  }

  lemma HeldBy(e: Engine, a: Abstract, key: string)
    requires Coupled(e) && Simulates(e, a) && key in e.table
    ensures key in a.flows && NodeOk(e.nodes[NodeOf(e, key)]) && Holds(e.nodes[NodeOf(e, key)], a.flows[key])
  {
    hide Holds;
  }

  lemma ContinueEnds(e: Engine, key: string, slice: seq<byte>)
    requires Coupled(e) && key in e.table && |slice| <= 3000
    ensures var node := e.nodes[NodeOf(e, key)];
            key !in Continue(e, key, slice).table <==> (node.used + |slice|) % 0x1_0000 == node.cLen
  {
    hide Partition, Sent, Removed;
  }

  lemma WrapAdds(total: nat, n: nat)
    ensures (total % 0x1_0000 + n) % 0x1_0000 == (total + n) % 0x1_0000
  {
  }

  lemma FrameContinues(e: Engine, key: string, p: seq<byte>, len: nat, head: Head)
    requires Coupled(e) && Readable(p, len) && Accepted(p, len, head) && key in e.table
    ensures 20 <= len <= |p| && len <= 3000 && HandleFrame(e, key, p, len, head) == Continue(e, key, p[..len])
  {
  }

  lemma FrameOpens(e: Engine, key: string, p: seq<byte>, len: nat, head: Head)
    requires Coupled(e) && Readable(p, len) && Accepted(p, len, head) && key !in e.table
    requires head.contentType != TYPE_UNKNOWN && head.contentLen < MAX_BUF_LEN && e.free != []
    ensures len <= 3000 && HandleFrame(e, key, p, len, head) == Open(e, key, head.contentLen, FirstSlice(p, len))
  {
  }

  /** A flow ends at a slice exactly if that slice brings its total to the expected length modulo 2^16. */
  lemma CompletesExactly(e: Engine, a: Abstract, key: string, p: seq<byte>, len: nat, head: Head)
    requires Coupled(e) && Simulates(e, a) && Readable(p, len) && Accepted(p, len, head) && key in e.table
    ensures key in a.flows
    ensures key !in HandleFrame(e, key, p, len, head).table
       <==> (Total(a.flows[key].slices) + len - a.flows[key].expected) % 0x1_0000 == 0
  {
    hide Coupled, Simulates, Image, Total, Small, Continue, HandleFrame, Readable, NodeOf, Accepted;
    FrameContinues(e, key, p, len, head);
    HeldBy(e, a, key);
    ContinueEnds(e, key, p[..len]);
    WrapAdds(Total(a.flows[key].slices), len);
    RemainderIs(Total(a.flows[key].slices) + len, a.flows[key].expected);
  }

  /** The frame that opens a flow never ends it, even if it carries the whole body. */
  lemma OpeningNeverCompletes(e: Engine, key: string, p: seq<byte>, len: nat, head: Head)
    requires Coupled(e) && Readable(p, len) && Accepted(p, len, head) && key !in e.table
    requires head.contentType != TYPE_UNKNOWN && head.contentLen < MAX_BUF_LEN && e.free != []
    ensures var r := HandleFrame(e, key, p, len, head); key in r.table && r.sent == e.sent
  {
    FrameOpens(e, key, p, len, head);
    hide HandleFrame, Readable, Claimed, Coupled, FirstSlice;
  }

  /** No marker begins in the last three bytes before `used` and ends behind it. */
  ghost predicate NoStraddle(p: seq<byte>, used: nat)
    requires 3 <= used
  {
    Absent(p, CRLFCRLF, used - 3, used) && Absent(p, CRLFDASH, used - 3, used) && Absent(p, DASHCRLF, used - 3, used)
  }

  /** What an earlier owner left in the node can matter only by completing a marker at the very end. */
  lemma IsolatedUnlessStraddled(image: seq<byte>, used: nat, look: seq<byte>, look': seq<byte>)
    requires 3 <= used <= |image| && |look| == 3 && |look'| == 3
    requires NoStraddle(Seen(image, used, look), used) && NoStraddle(Seen(image, used, look'), used)
    ensures Sent(Seen(image, used, look), used) == Sent(Seen(image, used, look'), used)
  {
    var p, q := Seen(image, used, look), Seen(image, used, look');
    assert forall i | 0 <= i < used :: p[i] == image[i] == q[i];
    LastAtSame(p, q, used, CRLFCRLF);
    LastAtSame(p, q, used, CRLFDASH);
    LastAtSame(p, q, used, DASHCRLF);
    match Selected(p, used)
    case Some(r) => assert p[r.start..r.start + r.len] == q[r.start..r.start + r.len];
    case None =>
  }

  lemma LastAtSame(p: seq<byte>, q: seq<byte>, n: nat, m: seq<byte>)
    requires |m| == 4 && 3 <= n && n + 3 <= |p| && n + 3 <= |q| && forall i | 0 <= i < n :: p[i] == q[i]
    requires Absent(p, m, n - 3, n) && Absent(q, m, n - 3, n)
    ensures LastAt(p, n, m) == LastAt(q, n, m)
  {
    assert forall i: nat | i < n - 3 :: Is4(p, i, m) <==> Is4(q, i, m);
  }
}
