/** The packet sniffer: flow table, age list and node pool, updated in place. */
module Sniffer {
  import opened Bytes
  import opened Pool
  import opened HttpParse
  import opened Multipart
  import opened FlowEngine
  import opened FlowPolicy
  import FlowKey

  /** `CReqCache`, a node of the pool. */
  class ReqCache {
    var cLen: nat
    var usedCnt: nat
    const data: array<byte>

    /** The memory of a new node holds anything. */
    constructor ()
      ensures fresh(data) && NodeOk(View())
    {
      var c: nat, u: nat :| c < 0x1_0000 && u < 0x1_0000;
      cLen, usedCnt := c, u;
      data := new byte[MAX_BUF_LEN];
    }

    ghost function View(): Node
      reads this, data
    {
      Node(cLen, usedCnt, data[..])
    }

    /** Preparing the node for a new flow. */
    method Start(contentLen: int)
      requires NodeOk(View())
      modifies this, data
      ensures View() == Claimed(old(View()), contentLen, [])
      ensures cLen == contentLen % 0x1_0000 && usedCnt == 0 && data[0] == 0x00 && data[1..] == old(data[1..])
    {
      cLen := Wrap16(contentLen);
      usedCnt := 0;
      data[0] := NUL;
      assert data[..] == Splice(old(data[..])[0 := NUL], 0, []);
    }

    /** `memcpy` to the end of what is there, and counting in 16 bits. */
    method Append(src: seq<byte>)
      requires NodeOk(View()) && |src| <= 3000
      modifies this, data
      ensures View() == Grown(old(View()), src)
      ensures usedCnt == (old(usedCnt) + |src|) % 0x1_0000 && cLen == old(cLen)
      ensures data[..] == old(data[..usedCnt]) + src + old(data[usedCnt + |src|..])
    {
      for i := 0 to |src|
        invariant usedCnt == old(usedCnt) && cLen == old(cLen)
        invariant forall k | 0 <= k < i :: data[usedCnt + k] == src[k]
        invariant forall k | 0 <= k < data.Length && !(usedCnt <= k < usedCnt + i) :: data[k] == old(data[k])
      {
        data[usedCnt + i] := src[i];
      }
      assert data[..] == Splice(old(data[..]), usedCnt, src);
      usedCnt := Wrap16(usedCnt + |src|);
    }

    method Reset()
      requires NodeOk(View())
      modifies this, data
      ensures View() == Node(0, 0, old(View()).data[0 := NUL])
    {
      cLen, usedCnt := 0, 0;
      data[0] := NUL;
    }
  }

  /** The scan of `RecvStart`: the last place where a delimiter begins, 0 if there is none. */
  method FindDelimiter(p: seq<byte>, len: nat) returns (j: nat)
    requires len + 3 <= |p|
    ensures j == LastAt(p, len, CRLFDASH)
  {
    j := 0;
    for i := 0 to len
      invariant j == LastAt(p, i, CRLFDASH)
    {
      FieldMatches(p, i, CRLFDASH);
      match Field(p, i) {
        case 0x0D0A2D2D => j := i;
        case _ =>
      }
    }
  }

  /** The scan of `RecvFinished`: the last blank line, the last delimiter, the last end of one. */
  method FindMarkers(p: seq<byte>, len: nat) returns (start: nat, end: nat, last: nat)
    requires len + 3 <= |p|
    ensures start == LastAt(p, len, CRLFCRLF) && end == LastAt(p, len, CRLFDASH) && last == LastAt(p, len, DASHCRLF)
  {
    start, end, last := 0, 0, 0;
    for i := 0 to len
      invariant start == LastAt(p, i, CRLFCRLF) && end == LastAt(p, i, CRLFDASH) && last == LastAt(p, i, DASHCRLF)
    {
      FieldMatches(p, i, CRLFCRLF);
      FieldMatches(p, i, CRLFDASH);
      FieldMatches(p, i, DASHCRLF);
      match Field(p, i) {
        case 0x0D0A0D0A => start := i;
        case 0x0D0A2D2D => end := i;
        case 0x2D2D0D0A => last := i;
        case _ =>
      }
    }
  }

  class PacketSniffer {
    const pool: FixedContainer<ReqCache>
    var flowtable: map<string, nat>
    var lrukey: seq<string>
    ghost var sent: seq<Message>

    ghost predicate Apart()
      reads pool.freeNodes
    {
      (forall i | 0 <= i < |pool.nodes| :: pool.nodes[i].data.Length == MAX_BUF_LEN) &&
      (forall i | 0 <= i < |pool.nodes| :: pool.nodes[i].data as object != pool.freeNodes.data) &&
      forall i, j | 0 <= i < j < |pool.nodes| ::
        pool.nodes[i] != pool.nodes[j] && pool.nodes[i].data != pool.nodes[j].data
    }

    ghost function Buffers(): set<object> {
      set c | c in pool.nodes :: c.data
    }

    ghost function Nodes(): (s: seq<Node>)
      reads pool.nodes, Buffers()
      ensures |s| == |pool.nodes|
    {
      seq(|pool.nodes|, i requires 0 <= i < |pool.nodes| reads pool.nodes, Buffers() => pool.nodes[i].View())
    }

    ghost function View(): Engine
      reads this, pool.freeNodes, pool.freeNodes.data, pool.nodes, Buffers()
      requires pool.Valid()
    {
      Engine(Nodes(), pool.Free(), flowtable, lrukey, sent)
    }

    ghost predicate Valid()
      reads this, pool.freeNodes, pool.freeNodes.data, pool.nodes, Buffers()
    {
      pool.Valid() && Apart() && Coupled(View())
    }

    constructor (poolSize: nat)
      requires 0 < poolSize < 0x8000_0000
      ensures Valid() && View() == Started(Nodes()) && |Nodes()| == poolSize
    {
      var nodes: seq<ReqCache> := [];
      while |nodes| < poolSize
        invariant |nodes| <= poolSize
        invariant forall i | 0 <= i < |nodes| :: fresh(nodes[i]) && fresh(nodes[i].data) && NodeOk(nodes[i].View())
        invariant forall i, j | 0 <= i < j < |nodes| :: nodes[i] != nodes[j] && nodes[i].data != nodes[j].data
      {
        var node := new ReqCache();
        nodes := nodes + [node];
      }
      pool := new FixedContainer(nodes);
      flowtable, lrukey, sent := map[], [], [];
      new;
      StartedIsCoupled(Nodes());
    }

    /** `SendMsg`: what is handed to the producer goes into the log. */
    method SendMsg(key: string, bytes: seq<byte>)
      modifies this`sent
      ensures sent == old(sent) + [Message(key, bytes)]
    {
      sent := sent + [Message(key, bytes)];
    }

    method RecvModify(key: string, p: seq<byte>, len: nat) returns (ok: bool)
      requires len + 3 <= |p|
      modifies this`sent
      ensures ok <==> len >= 4 && Is4(p, 0, JSON) && p[len - 1] == JSON_END
      ensures sent == if ok then old(sent) + [Message(key, p[..len])] else old(sent)
    {
      if len < 4 {
        return false;
      }
      FieldMatches(p, 0, JSON);
      if Field(p, 0) == 0x7B226F73 && p[len - 1] == JSON_END {
        SendMsg(key, p[..len]);
        return true;
      }
      return false;
    }

    method RecvStart(cache: ReqCache, p: seq<byte>, len: nat) returns (ok: bool)
      requires NodeOk(cache.View()) && Readable(p, len) && len <= 3000
      modifies cache, cache.data
      ensures cache.View() == Grown(old(cache.View()), FirstSlice(p, len))
    {
      var j := FindDelimiter(p, len);
      MarkerInside(p, len);
      if j == 0 {
        GrownByNothing(cache.View());
        return false;
      }
      j := j + 2;
      var sliceCnt := len - j;
      if sliceCnt >= MAX_BUF_LEN {
        sliceCnt := MAX_BUF_LEN;
      }
      assert p[j..j + sliceCnt] == FirstSlice(p, len);
      cache.Append(p[j..j + sliceCnt]);
      return true;
    }

    method RecvFinished(cache: ReqCache, key: string) returns (ok: bool)
      requires NodeOk(cache.View())
      modifies this`sent, cache, cache.data
      ensures var node := old(cache.View());
              match Sent(node.data, node.used)
              case Some(bytes) =>
                ok && sent == old(sent) + [Message(key, bytes)] && cache.View() == Node(0, 0, node.data[0 := NUL])
              case None => !ok && sent == old(sent) && cache.View() == node
    {
      var len := cache.usedCnt;
      var p := cache.data[..];
      var start, end, last := FindMarkers(p, len);
      if start + 4 < len && end > 0 {
        start := start + 4;
        var realLen := end - start;
        if realLen < 0 {
          start := last;
          if start + 4 >= len {
            return false;
          }
          start := start + 4;
          realLen := len - start;
        }
        assert Selected(p, len) == Some(Range(start, realLen));
        SendMsg(key, p[start..start + realLen]);
        cache.Reset();
        return true;
      }
      return false;
    }

    /** The filters of a frame, up to the lookup of its flow. */
    method Filter(p: seq<byte>, len: nat) returns (ok: bool, head: Head)
      requires Padded(p, len)
      ensures ok <==> Accepted(p, len, Classify(p, len))
      ensures ok ==> head == Classify(p, len)
    {
      head := Head(false, TYPE_UNKNOWN, 0);
      if len < 20 || len > 3000 {
        return false, head;
      }
      FieldMatches(p, 0, GET);
      if Field(p, 0) == 0x47455420 {
        return false, head;
      }
      var info := new UrlInfo();
      ok := ParseHttp(p, len, info);
      head := Head(ok, info.contentType, info.contentLen);
      if !ok || (info.contentType == TYPE_APPLICATION && info.contentLen > 0) {
        ok := false;
      }
    }

    /** Only node `n` has changed. */
    twostate lemma OthersKept(n: nat)
      requires old(Apart()) && Apart() && n < |pool.nodes|
      requires forall i | 0 <= i < |pool.nodes| && i != n :: unchanged(pool.nodes[i]) && unchanged(pool.nodes[i].data)
      ensures Nodes() == old(Nodes())[n := pool.nodes[n].View()]
    {
      forall i | 0 <= i < |pool.nodes| && i != n
        ensures Nodes()[i] == old(Nodes())[i]
      {
        assert pool.nodes[i].View() == old(pool.nodes[i].View());
      }
    }

    /** Filling a node that has been taken for a new flow. */
    method Fill(n: nat, contentLen: int, p: seq<byte>, len: nat)
      requires pool.Valid() && Apart() && n < |pool.nodes| && NodeOk(Nodes()[n]) && Readable(p, len) && len <= 3000
      modifies pool.nodes, Buffers()
      ensures Apart() && Nodes() == old(Nodes())[n := Claimed(old(Nodes())[n], contentLen, FirstSlice(p, len))]
    {
      hide Claimed, Grown, FirstSlice, Readable;
      ghost var node := Nodes()[n];
      var cache := pool.nodes[n];
      assert cache.View() == node;
      cache.Start(contentLen);
      ClaimedIsOk(node, contentLen);
      var _ := RecvStart(cache, p, len);
      ClaimThenGrow(node, contentLen, FirstSlice(p, len));
      OthersKept(n);
    }

    /** The branch for a frame whose flow is not in the table. */
    method NewFlow(key: string, p: seq<byte>, len: nat, head: Head)
      requires Valid() && Readable(p, len) && 20 <= len <= 3000 && key !in flowtable
      modifies this, pool.freeNodes, pool.freeNodes.data, pool.nodes, Buffers()
      ensures Valid()
      ensures View() == var e := old(View());
                        if head.contentType == TYPE_UNKNOWN then Modified(e, key, p, len)
                        else if head.contentLen >= MAX_BUF_LEN || e.free == [] then e
                        else Open(e, key, head.contentLen, FirstSlice(p, len))
    {
      hide Coupled, Claimed, FirstSlice, Readable, Open, Modified, Nodes, NodeOk;
      ghost var e := View();
      if head.contentType == TYPE_UNKNOWN {
        InMemory(p, len);
        var _ := RecvModify(key, p, len);
        ModifiedIs(e, key, p, len, View());
      } else if head.contentLen < MAX_BUF_LEN {
        var node := pool.GetNode();
        if node.Some? {
          FirstIsNode(e);
          Fill(node.value, head.contentLen, p, len);
          flowtable := flowtable[key := node.value];
          lrukey := lrukey + [key];
          OpenIs(e, key, head.contentLen, FirstSlice(p, len), View());
        }
      }
    }

    /** Sending the body that node `n` holds. */
    method SendBody(n: nat, key: string)
      requires pool.Valid() && Apart() && n < |pool.nodes| && NodeOk(Nodes()[n])
      modifies this`sent, pool.nodes, Buffers()
      ensures Apart()
      ensures var nodes := old(Nodes()); var node := nodes[n];
              match Sent(node.data, node.used)
              case Some(bytes) =>
                sent == old(sent) + [Message(key, bytes)] && Nodes() == nodes[n := Node(0, 0, node.data[0 := NUL])]
              case None => sent == old(sent) && Nodes() == nodes
    {
      hide Sent;
      var cache := pool.nodes[n];
      assert cache.View() == Nodes()[n];
      var _ := RecvFinished(cache, key);
      OthersKept(n);
      assert old(Nodes())[n := old(Nodes())[n]] == old(Nodes());
    }

    /** The end of a flow: its body is sent, its node freed, and its key forgotten. */
    method Finish(key: string, n: nat, ghost e: Engine, ghost node: Node)
      requires pool.Valid() && Apart() && Coupled(e) && key in e.table && n == NodeOf(e, key) && NodeOk(node)
      requires View() == e.(nodes := e.nodes[n := node])
      modifies this, pool.freeNodes, pool.freeNodes.data, pool.nodes, Buffers()
      ensures Valid() && View() == Complete(e, key, node)
    {
      hide Coupled, Complete, Removed, Sent, Nodes, NodeOk;
      SendBody(n, key);
      NodeCanBeFreed(e, key);
      var freed := pool.FreeNode(n);
      assert freed;
      flowtable := flowtable - {key};
      lrukey := Removed(lrukey, key);
      CompleteIs(e, key, node, View());
    }

    /** The branch for a frame whose flow is in the table. */
    method NextSlice(key: string, p: seq<byte>, len: nat)
      requires Valid() && Readable(p, len) && len <= 3000 && key in flowtable
      modifies this, pool.freeNodes, pool.freeNodes.data, pool.nodes, Buffers()
      ensures Valid()
      ensures View() == Continue(old(View()), key, p[..len])
    {
      hide Coupled, Grown, Readable, Complete, Splice;
      InMemory(p, len);
      ghost var e := View();
      var n := flowtable[key];
      assert n == NodeOf(e, key);
      NodesAreOk(e);
      var cache := pool.nodes[n];
      assert cache.View() == e.nodes[n];
      var sliceCnt, used: int := len, cache.usedCnt;
      if used + len >= MAX_BUF_LEN {
        sliceCnt := MAX_BUF_LEN - used;
      }
      cache.Append(p[..sliceCnt]);
      ghost var node := cache.View();
      assert Nodes() == e.nodes[n := node] by {
        OthersKept(n);
      }
      GrownIsOk(e.nodes[n], p[..len]);
      var restSize := cache.cLen - cache.usedCnt;
      if restSize == 0 {
        Finish(key, n, e, node);
      } else {
        StoreIsCoupled(e, key, node);
      }
    }

    method HandleFrame(flow: FlowKey.Flow, p: seq<byte>, len: nat)
      requires Valid() && Padded(p, len)
      modifies this, pool.freeNodes, pool.freeNodes.data, pool.nodes, Buffers()
      ensures Valid() && Readable(p, len)
      ensures View() == FlowEngine.HandleFrame(old(View()), FlowKey.Create(flow), p, len, Classify(p, len))
    {
      PaddedIsReadable(p, len);
      var ok, head := Filter(p, len);
      if !ok {
        return;
      }
      var key := FlowKey.Create(flow);
      if key !in flowtable {
        NewFlow(key, p, len, head);
      } else {
        NextSlice(key, p, len);
      }
    }

    /** One round of the clearing loop. */
    method DropFront()
      requires Valid() && lrukey != []
      modifies this`flowtable, this`lrukey, pool.freeNodes`tail, pool.freeNodes.data
      ensures Valid() && View() == DropOldest(old(View()))
    {
      hide Coupled;
      ghost var e := View();
      ListedIsStored(e);
      assert lrukey[0] in lrukey;
      var n := flowtable[lrukey[0]];
      NodeCanBeFreed(e, lrukey[0]);
      var freed := pool.FreeNode(n);
      assert freed;
      flowtable := flowtable - {lrukey[0]};
      lrukey := lrukey[1..];
      assert Nodes() == e.nodes;
      assert View() == DropOldest(e);
    }

    method LRUClear() returns (acted: bool)
      requires Valid()
      modifies this`flowtable, this`lrukey, pool.freeNodes`tail, pool.freeNodes.data
      ensures Valid()
      ensures View() == FlowEngine.LRUClear(old(View())) && acted == NeedsClear(old(View()))
    {
      hide Coupled, Apart, DropOldest, Drop, Nodes, Threshold, Share, Wrap32;
      ghost var e := View();
      Counts(e);
      var limit := Wrap32(pool.NodesCount() * 4) / 5;
      ThresholdIs(|e.nodes|);
      DropsNone(e);
      if pool.UsedNodesCount() < limit {
        return false;
      }
      var clearCnt := pool.UsedNodesCount() / 2;
      var i := 0;
      while lrukey != []
        invariant Valid() && i <= |e.order| && i <= clearCnt + 1 && View() == Drop(e, i)
        decreases |lrukey|
      {
        if i > clearCnt {
          break;
        }
        i := i + 1;
        DropFront();
        DropNext(e, i);
      }
      LoopEnds(e, i);
      return true;
    }
  }

  lemma ModifiedIs(e: Engine, key: string, p: seq<byte>, len: nat, r: Engine)
    requires Coupled(e) && 4 <= len <= |p| && r == e.(sent := r.sent)
    requires r.sent == if Is4(p, 0, JSON) && p[len - 1] == JSON_END then e.sent + [Message(key, p[..len])] else e.sent
    ensures r == Modified(e, key, p, len)
  {
    hide Coupled, Is4;
  }

  lemma OpenIs(e: Engine, key: string, contentLen: int, first: seq<byte>, r: Engine)
    requires Coupled(e) && key !in e.table && e.free != [] && |first| < 0x1_0000 && e.free[0] < |e.nodes|
    requires NodeOk(e.nodes[e.free[0]])
    requires r.nodes == e.nodes[e.free[0] := Claimed(e.nodes[e.free[0]], contentLen, first)]
    requires r.free == e.free[1..] && r.table == e.table[key := e.free[0]] && r.order == e.order + [key] &&
             r.sent == e.sent
    ensures r == Open(e, key, contentLen, first)
  {
    hide Coupled, Claimed;
  }

  lemma CompleteIs(e: Engine, key: string, node: Node, r: Engine)
    requires Coupled(e) && key in e.table && NodeOk(node)
    requires r.order == Removed(e.order, key) && r.table == e.table - {key} && r.free == e.free + [NodeOf(e, key)]
    requires match Sent(node.data, node.used)
             case Some(bytes) =>
               r.sent == e.sent + [Message(key, bytes)] &&
               r.nodes == e.nodes[NodeOf(e, key) := Node(0, 0, node.data[0 := NUL])]
             case None => r.sent == e.sent && r.nodes == e.nodes[NodeOf(e, key) := node]
    ensures r == Complete(e, key, node)
  {
    hide Removed, Sent;
  }

  lemma ThresholdIs(size: nat)
    ensures Wrap32(size * 4) / 5 == Threshold(size)
  {
  }

  lemma DropNext(e: Engine, k: nat)
    requires Coupled(e) && 0 < k <= |e.order|
    ensures Drop(e, k - 1).order != [] && Drop(e, k) == DropOldest(Drop(e, k - 1))
  {
  }

  /** Where the loop stops: its counter has passed half of the used nodes, or the list is empty. */
  lemma LoopEnds(e: Engine, i: nat)
    requires Coupled(e) && NeedsClear(e) && i <= |e.order|
    requires i <= Used(e) / 2 + 1 && (Drop(e, i).order == [] || i > Used(e) / 2)
    ensures FlowEngine.LRUClear(e) == Drop(e, i)
  {
    hide Coupled, DropOldest;
    Counts(e);
    assert |Drop(e, i).order| == |e.order| - i;
  }

  lemma FirstIsNode(e: Engine)
    requires Coupled(e) && e.free != []
    ensures e.free[0] < |e.nodes| && NodeOk(e.nodes[e.free[0]])
  {
    assert e.free[0] in e.free;
  }

  lemma NodesAreOk(e: Engine)
    requires Coupled(e)
    ensures forall n | 0 <= n < |e.nodes| :: NodeOk(e.nodes[n])
  {
  }

  lemma NodeCanBeFreed(e: Engine, key: string)
    requires Coupled(e) && key in e.table
    ensures |e.free| < |e.nodes| && e.table[key] < |e.nodes|
  {
    Counts(e);
    assert e.table[key] in e.table.Values;
    assert key in e.order;
  }

  lemma GrownIsOk(node: Node, slice: seq<byte>)
    requires NodeOk(node) && |slice| <= 3000
    ensures NodeOk(Grown(node, slice))
  {
  }

  lemma StoreIsCoupled(e: Engine, key: string, node: Node)
    requires Coupled(e) && key in e.table && NodeOk(node)
    ensures Coupled(e.(nodes := e.nodes[NodeOf(e, key) := node]))
  {
  }

  lemma GrownByNothing(node: Node)
    requires NodeOk(node)
    ensures Grown(node, []) == node
  {
  }

  lemma ClaimedIsOk(node: Node, contentLen: int)
    requires NodeOk(node)
    ensures NodeOk(Claimed(node, contentLen, []))
  {
  }

  lemma ClaimThenGrow(node: Node, contentLen: int, first: seq<byte>)
    requires NodeOk(node) && |first| <= 3000
    ensures Grown(Claimed(node, contentLen, []), first) == Claimed(node, contentLen, first)
  {
  }
}
