/** What every run of frames and clears keeps, and what a clear does. */
module FlowPolicy {
  import opened Bytes
  import opened Allocation
  import opened Multipart
  import opened FlowEngine

  /** The sniffer before its first frame: the memory of the nodes is whatever it is. */
  function Started(nodes: seq<Node>): Engine {
    Engine(nodes, Upto(|nodes|), map[], [], [])
  }

  /** From the first frame on: list, table and pool stay coupled, whatever arrives and whenever flows are cleared. */
  lemma EveryRunIsCoupled(nodes: seq<Node>, evs: seq<Event>)
    requires 0 < |nodes| && (forall n | 0 <= n < |nodes| :: NodeOk(nodes[n])) && forall ev | ev in evs :: EventOk(ev)
    ensures Coupled(Started(nodes))
    ensures var e := Run(Started(nodes), evs);
            Coupled(e) && |e.nodes| == |nodes| && Used(e) == |e.table| == |e.order| && |e.order| + |e.free| == |nodes|
  {
    StartedIsCoupled(nodes);
    Counts(Run(Started(nodes), evs));
  }

  lemma StartedIsCoupled(nodes: seq<Node>)
    requires 0 < |nodes| && forall n | 0 <= n < |nodes| :: NodeOk(nodes[n])
    ensures Coupled(Started(nodes))
  {
    forall n: nat | n < |nodes|
      ensures n in Upto(|nodes|)
    {
      assert Upto(|nodes|)[n] == n;
    }
  }

  // ---- what one frame does ----

  /** `GET ` at the front, sizes from 20 to 3000, and application bodies with a length are what the filters look at. */
  ghost predicate LetPass(p: seq<byte>, len: nat, head: Head) {
    20 <= len <= 3000 && !Stands(p, 0, [0x47, 0x45, 0x54, 0x20]) && head.ok &&
    !(head.contentType == 2 && head.contentLen > 0)
  }

  lemma LetExactly(p: seq<byte>, len: nat, head: Head)
    ensures LetPass(p, len, head) <==> Accepted(p, len, head)
    ensures LetPass(p, len, head) ==> 20 <= len <= 3000
  {
    if 4 <= |p| {
      assert p[0..4] == [p[0], p[1], p[2], p[3]];
    }
  }

  /** A frame that the filters stop changes nothing. One without a type and without a flow changes nothing
      but the log, into which it goes whole if it begins with `{"os` and ends with `}`. */
  lemma StrayFrameExactly(e: Engine, key: string, p: seq<byte>, len: nat, head: Head)
    requires Coupled(e) && Readable(p, len) && (!LetPass(p, len, head) || (key !in e.table && head.contentType == 0))
    ensures len <= |p|
    ensures var whole := LetPass(p, len, head) && Stands(p, 0, [0x7B, 0x22, 0x6F, 0x73]) && p[len - 1] == 0x7D;
            HandleFrame(e, key, p, len, head) == e.(sent := e.sent + if whole then [Message(key, p[..len])] else [])
  {
    LetExactly(p, len, head);
    InMemory(p, len);
    assert |p| < 4 || p[0..4] == [p[0], p[1], p[2], p[3]];
    assert e.sent + [] == e.sent;
    hide Coupled, Readable, Accepted, LetPass, FirstSlice, Open, Continue;
  }

  /** One with a type and without a flow opens the flow if its length is below 512 KiB and a node is free: the
      first free node, with the length cut to 16 bits and the first slice at its beginning; the key goes to the
      end of the list. */
  lemma NewFrameExactly(e: Engine, key: string, p: seq<byte>, len: nat, head: Head)
    requires Coupled(e) && Readable(p, len) && LetPass(p, len, head) && key !in e.table && head.contentType != 0
    ensures var r, first := HandleFrame(e, key, p, len, head), FirstSlice(p, len);
            if head.contentLen < 524288 && e.free != [] then
              e.free[0] < |e.nodes| == |r.nodes| && r.free == e.free[1..] && r.table == e.table[key := e.free[0]] &&
              r.order == e.order + [key] && r.sent == e.sent &&
              (forall n | 0 <= n < |e.nodes| && n != e.free[0] :: r.nodes[n] == e.nodes[n]) &&
              var before, after := e.nodes[e.free[0]], r.nodes[e.free[0]];
              after.cLen == head.contentLen % 65536 && after.used == |first| < |after.data| == |before.data| &&
              after.data == if first == [] then [0x00] + before.data[1..] else first + before.data[|first|..]
            else r == e
  {
    LetExactly(p, len, head);
    hide Readable, Accepted, LetPass, FirstSlice, Injective, SameKeys, NoDup;
    if head.contentLen < 524288 && e.free != [] {
      assert e.free[0] in e.free;
      ClaimedExactly(e.nodes[e.free[0]], head.contentLen, FirstSlice(p, len));
    }
  }

  lemma ClaimedExactly(node: Node, contentLen: int, first: seq<byte>)
    requires NodeOk(node) && |first| < 0x1_0000
    ensures var after := Claimed(node, contentLen, first);
            after.cLen == contentLen % 65536 && after.used == |first| < |after.data| == |node.data| &&
            after.data == if first == [] then [0x00] + node.data[1..] else first + node.data[|first|..]
  {
  }

  lemma GrownExactly(node: Node, slice: seq<byte>)
    requires NodeOk(node) && |slice| <= 3000
    ensures node.used + |slice| + 3 <= |node.data| && NodeOk(Grown(node, slice))
    ensures Grown(node, slice) == Node(node.cLen, (node.used + |slice|) % 65536,
                                       node.data[..node.used] + slice + node.data[node.used + |slice|..])
  {
  }

  lemma CompleteExactly(e: Engine, key: string, node: Node)
    requires Coupled(e) && key in e.table && NodeOk(node)
    ensures var n, r := NodeOf(e, key), Complete(e, key, node);
            r.table == e.table - {key} && r.free == e.free + [n] && key !in r.order && n < |r.nodes| &&
            match Sent(node.data, node.used)
            case Some(bytes) =>
              r.sent == e.sent + [Message(key, bytes)] && r.nodes[n] == Node(0, 0, [0x00] + node.data[1..])
            case None => r.sent == e.sent && r.nodes[n] == node
  {
    hide Sent, Injective, NoDup, Partition;
    assert node.data[0 := 0x00] == [0x00] + node.data[1..];
  }

  /** One whose flow is there writes all its bytes behind those that are counted, and counts them in 16 bits;
      where the counter is then not the expected length, nothing else happens. */
  lemma NextFrameExactly(e: Engine, key: string, p: seq<byte>, len: nat, head: Head)
    requires Coupled(e) && Readable(p, len) && LetPass(p, len, head) && key in e.table
    ensures e.table[key] < |e.nodes|
    ensures var n, r := e.table[key], HandleFrame(e, key, p, len, head); var node := e.nodes[n];
            len <= |p| && node.used + len + 3 <= |node.data| &&
            var used := (node.used + len) % 65536;
            var data := node.data[..node.used] + p[..len] + node.data[node.used + len..];
            if used != node.cLen then r == e.(nodes := e.nodes[n := Node(node.cLen, used, data)])
            else r.table == e.table - {key} && r.free == e.free + [n] && key !in r.order && n < |r.nodes| &&
                 used + 3 <= |data| &&
                 match Sent(data, used)
                 case Some(bytes) =>
                   r.sent == e.sent + [Message(key, bytes)] && r.nodes[n] == Node(0, 0, [0x00] + data[1..])
                 case None => r.sent == e.sent && r.nodes[n] == Node(node.cLen, used, data)
  {
    hide Coupled, Readable, Accepted, LetPass, FirstSlice, NodeOk, Sent, Grown, Complete;
    LetExactly(p, len, head);
    InMemory(p, len);
    NodeIsOk(e, key);
    var node := e.nodes[NodeOf(e, key)];
    GrownExactly(node, p[..len]);
    CompleteExactly(e, key, Grown(node, p[..len]));
  }

  lemma NodeIsOk(e: Engine, key: string)
    requires Coupled(e) && key in e.table
    ensures e.table[key] == NodeOf(e, key) < |e.nodes| && NodeOk(e.nodes[NodeOf(e, key)])
  {
  }

  // ---- the clear policy ----

  lemma ListedIsStored(e: Engine)
    requires Coupled(e)
    ensures NoDup(e.order) && forall key :: key in e.order <==> key in e.table
  {
  }

  lemma DropsOne(e: Engine, k: nat)
    requires Coupled(e) && 0 < k <= |e.order|
    ensures e.order[k - 1] in e.table && Drop(e, k).free == Drop(e, k - 1).free + [e.table[e.order[k - 1]]]
  {
    hide Coupled, NoDup;
    var d := Drop(e, k - 1);
    assert d.order[0] == e.order[k - 1];
    ListedIsStored(d);
    assert d.order[0] in d.table;
  }

  /** Dropping `k` flows frees the nodes of the first `k` of the age list, oldest first. */
  lemma {:induction false} DropFrees(e: Engine, k: nat)
    requires Coupled(e) && k <= |e.order|
    ensures forall key | key in e.order[..k] :: key in e.table
    ensures Drop(e, k).free == e.free + NodesOf(e, e.order[..k])
    decreases k
  {
    hide Coupled, NodesOf, NoDup, DropOldest, Drop;
    if k == 0 {
      assert e.order[..0] == [];
      DropsNone(e);
    } else {
      DropFrees(e, k - 1);
      DropsOne(e, k);
      var init, key := e.order[..k - 1], e.order[k - 1];
      assert e.order[..k] == init + [key];
      NodesOfOne(e, init, key);
      assert e.free + (NodesOf(e, init) + [e.table[key]]) == e.free + NodesOf(e, init) + [e.table[key]];
    }
  }

  lemma DropsNone(e: Engine)
    requires Coupled(e)
    ensures Drop(e, 0) == e
  {
  }

  lemma NodesOfOne(e: Engine, keys: seq<string>, key: string)
    requires Coupled(e) && key in e.table && forall k | k in keys :: k in e.table
    ensures forall k | k in keys + [key] :: k in e.table
    ensures NodesOf(e, keys + [key]) == NodesOf(e, keys) + [e.table[key]]
  {
    hide Coupled;
    assert (keys + [key])[..|keys|] == keys;
    assert forall k | k in keys + [key] :: k in keys || k == key;
  }

  lemma ShareIsHalf(used: nat)
    ensures Share(used) == if used == 0 then 0 else used / 2 + 1
  {
  }

  lemma ClearTakes(e: Engine)
    requires Coupled(e)
    ensures var r := LRUClear(e); var k := if NeedsClear(e) then Share(|e.order|) else 0;
            k <= |e.order| && r.order == e.order[k..] && r.nodes == e.nodes && r.sent == e.sent &&
            r.free == e.free + NodesOf(e, e.order[..k]) &&
            (forall key :: key in r.table <==> key in e.order[k..]) &&
            forall key | key in r.table :: key in e.table && r.table[key] == e.table[key]
  {
    hide Coupled, Drop, NodesOf, Used, NeedsClear, NoDup, Share;
    Counts(e);
    ListedIsStored(e);
    DropFrees(e, ClearCount(e));
    ListedIsStored(LRUClear(e));
  }

  /** A clear that acts removes the oldest half and one more, in creation order; the others keep
      their order, their nodes and what is in them, and the freed nodes go back to the pool. */
  lemma ClearPolicy(e: Engine)
    requires Coupled(e)
    ensures var r := LRUClear(e); var used := |e.order|;
            var k := if 0 < used && |e.nodes| * 4 % 0x1_0000_0000 / 5 <= used then used / 2 + 1 else 0;
            k <= |e.order| && r.order == e.order[k..] && r.nodes == e.nodes && r.sent == e.sent &&
            r.free == e.free + NodesOf(e, e.order[..k]) &&
            (forall key :: key in r.table <==> key in e.order[k..]) &&
            forall key | key in r.table :: key in e.table && r.table[key] == e.table[key]
  {
    hide Coupled, NodesOf, LRUClear;
    Counts(e);
    ClearTakes(e);
    ShareIsHalf(|e.order|);
  }

  lemma ThresholdBelow(size: nat)
    requires 0 < size
    ensures Threshold(size) < size
  {
    assert Wrap32(size * 4) <= size * 4;
  }

  /** After a clear, whether it acted or not, the next `GetNode` succeeds; after one that acted, less
      than half of the pool is in use. The 32-bit product never spoils this. */
  lemma ClearMakesRoom(e: Engine)
    requires Coupled(e)
    ensures LRUClear(e).free != []
    ensures NeedsClear(e) ==> 2 * Used(LRUClear(e)) < |e.nodes|
  {
    hide Coupled, LRUClear, NodesOf, Threshold, Share;
    var r := LRUClear(e);
    ClearTakes(e);
    Counts(e);
    Counts(r);
    assert 0 < |e.nodes| by { PoolIsNotEmpty(e); }
    ThresholdBelow(|e.nodes|);
  }

  lemma PoolIsNotEmpty(e: Engine)
    requires Coupled(e)
    ensures 0 < |e.nodes|
  {
  }

  // ---- the age list is in order of creation ----

  /** When the flow `key` last entered the table: the number of events up to then. */
  function Born(e: Engine, evs: seq<Event>, key: string): (n: nat)
    requires Coupled(e) && forall ev | ev in evs :: EventOk(ev)
    ensures n <= |evs|
  {
    if evs == [] then 0
    else
      var init := evs[..|evs| - 1];
      if key in Run(e, evs).table && key !in Run(e, init).table then |evs| else Born(e, init, key)
  }

  ghost predicate Precedes(order: seq<string>, x: string, y: string) {
    exists i, j :: 0 <= i < j < |order| && order[i] == x && order[j] == y
  }

  /** Of two keys in `after`, the earlier one is the earlier one in `before`. */
  ghost predicate KeepsOrder(before: seq<string>, after: seq<string>) {
    forall i, j | 0 <= i < j < |after| :: Precedes(before, after[i], after[j])
  }

  lemma {:induction false} RemovedKeepsOrder(order: seq<string>, key: string)
    ensures KeepsOrder(order, Removed(order, key))
  {
    if order != [] {
      var init, last := order[..|order| - 1], order[|order| - 1];
      RemovedKeepsOrder(init, key);
      var before, after := Removed(init, key), Removed(order, key);
      forall i, j | 0 <= i < j < |after|
        ensures Precedes(order, after[i], after[j])
      {
        if j < |before| {
          assert Precedes(init, before[i], before[j]);
          var i', j' :| 0 <= i' < j' < |init| && init[i'] == before[i] && init[j'] == before[j];
          assert order[i'] == after[i] && order[j'] == after[j];
        } else {
          assert after == before + [last] && before[i] in before;
          var i' :| 0 <= i' < |init| && init[i'] == before[i];
          assert order[i'] == after[i] && order[|order| - 1] == after[j];
        }
      }
    }
  }

  lemma TailKeepsOrder(order: seq<string>, k: nat)
    requires k <= |order|
    ensures KeepsOrder(order, order[k..])
  {
    forall i, j | 0 <= i < j < |order[k..]|
      ensures Precedes(order, order[k..][i], order[k..][j])
    {
      assert order[k + i] == order[k..][i] && order[k + j] == order[k..][j];
    }
  }

  /** A step keeps the order of the flows that stay, and a new flow comes last. */
  ghost predicate Ages(e: Engine, r: Engine) {
    KeepsOrder(e.order, r.order) ||
    (r.order != [] && r.order[|r.order| - 1] !in e.table && r.order[..|r.order| - 1] == e.order)
  }

  lemma SameOrderAges(e: Engine, r: Engine)
    requires r.order == e.order
    ensures Ages(e, r)
  {
    TailKeepsOrder(e.order, 0);
    assert e.order[0..] == e.order;
  }

  lemma FrameAges(e: Engine, key: string, p: seq<byte>, len: nat, head: Head)
    requires Coupled(e) && Readable(p, len)
    ensures Ages(e, HandleFrame(e, key, p, len, head))
  {
    hide Coupled, Readable, FirstSlice, KeepsOrder, Grown, Claimed, Sent, Accepted;
    var r := HandleFrame(e, key, p, len, head);
    RemovedKeepsOrder(e.order, key);
    if r.order == e.order {
      SameOrderAges(e, r);
    }
  }

  lemma StepAges(e: Engine, ev: Event)
    requires Coupled(e) && EventOk(ev)
    ensures Ages(e, Step(e, ev))
  {
    hide Coupled, HandleFrame, Drop, EventOk;
    match ev {
      case Frame(key, p, len, head) =>
        ReadableIfOk(ev);
        FrameAges(e, key, p, len, head);
      case Tick =>
        TailKeepsOrder(e.order, ClearCount(e));
    }
  }

  lemma ReadableIfOk(ev: Event)
    requires EventOk(ev) && ev.Frame?
    ensures Readable(ev.p, ev.len)
  {
  }

  /** In every run the age list is in order of creation, oldest first; no use of a flow moves it. */
  lemma {:induction false} OldestFirst(nodes: seq<Node>, evs: seq<Event>, i: nat, j: nat)
    requires 0 < |nodes| && (forall n | 0 <= n < |nodes| :: NodeOk(nodes[n])) && forall ev | ev in evs :: EventOk(ev)
    ensures Coupled(Started(nodes))
    ensures var order := Run(Started(nodes), evs).order;
            i < j < |order| ==> Born(Started(nodes), evs, order[i]) < Born(Started(nodes), evs, order[j])
  {
    hide Coupled, NodeOk, EventOk, Step;
    StartedIsCoupled(nodes);
    var e := Run(Started(nodes), evs);
    if evs != [] && i < j < |e.order| {
      var init := evs[..|evs| - 1];
      var e' := Run(Started(nodes), init);
      StepAges(e', evs[|evs| - 1]);
      ListedIsStored(e');
      ListedIsStored(e);
      assert e.order[i] in e.order && e.order[j] in e.order;
      if KeepsOrder(e'.order, e.order) {
        assert Precedes(e'.order, e.order[i], e.order[j]);
        var i', j' :| 0 <= i' < j' < |e'.order| && e'.order[i'] == e.order[i] && e'.order[j'] == e.order[j];
        OldestFirst(nodes, init, i', j');
      } else if j == |e.order| - 1 {
        assert e.order[i] == e'.order[i];
      } else {
        OldestFirst(nodes, init, i, j);
      }
    }
  }
}
