/** The flow engine on values: one step per frame and one per age-based clear. */
module FlowEngine {
  import opened Bytes
  import opened Allocation
  import opened HttpParse
  import opened Multipart

  const MAX_BUF_LEN: nat := 512 * 1024

  /** `{"os`, with which a body that came before its header begins, and `}`, with which it ends. */
  const JSON: seq<byte> := [0x7B, 0x22, 0x6F, 0x73]
  const JSON_END: byte := 0x7D

  /** `CReqCache`: the expected length and the length so far are kept in 16 bits. */
  datatype Node = Node(cLen: nat, used: nat, data: seq<byte>)

  /** A call of `SendMsg`, with the flow it was made for. */
  datatype Message = Message(key: string, bytes: seq<byte>)

  datatype Engine = Engine(nodes: seq<Node>, free: seq<nat>, table: map<string, nat>, order: seq<string>,
                           sent: seq<Message>)

  /** What `ParseHttp` says about a packet. */
  datatype Head = Head(ok: bool, contentType: nat, contentLen: int)

  function Classify(p: seq<byte>, len: nat): Head
    requires Padded(p, len)
  {
    var r := Parse(p, len, NO_INFO);
    Head(r.ok, r.s.info.contentType, r.s.info.contentLen)
  }

  ghost predicate NodeOk(node: Node) {
    |node.data| == MAX_BUF_LEN && node.used < 0x1_0000 && node.cLen < 0x1_0000
  }

  ghost predicate Injective(table: map<string, nat>) {
    forall k, k' | k in table && k' in table && table[k] == table[k'] :: k == k'
  }

  ghost predicate SameKeys(order: seq<string>, table: map<string, nat>) {
    NoDup(order) && forall k :: k in order <==> k in table
  }

  /** Age list, flow table and free ring belong together: the list names the flows of the table once
      each, the flows have nodes of their own, and these are the nodes that are not free. */
  ghost predicate Coupled(e: Engine) {
    0 < |e.nodes| && (forall n | 0 <= n < |e.nodes| :: NodeOk(e.nodes[n])) &&
    SameKeys(e.order, e.table) && Injective(e.table) && Partition(e.free, e.table.Values, |e.nodes|)
  }

  function NodeOf(e: Engine, key: string): (n: nat)
    requires Coupled(e) && key in e.table
    ensures n < |e.nodes| && n in e.table.Values
  {
    assert e.table[key] in e.table.Values;
    e.table[key]
  }

  // ---- frames ----

  /** The filters a frame passes before its flow is looked up. */
  predicate Accepted(p: seq<byte>, len: nat, head: Head) {
    20 <= len <= 3000 && !Is4(p, 0, GET) && head.ok && !(head.contentType == TYPE_APPLICATION && head.contentLen > 0)
  }

  /** What is read of a frame lies in memory, and no delimiter begins with its very last byte: the
      length of the slice behind such a one would be negative. */
  ghost predicate Readable(p: seq<byte>, len: nat) {
    len + 3 <= |p| && (0 < len ==> !Is4(p, len - 1, CRLFDASH))
  }

  lemma PaddedIsReadable(p: seq<byte>, len: nat)
    requires Padded(p, len)
    ensures Readable(p, len)
  {
    assert p[len] == NUL;
  }

  lemma InMemory(p: seq<byte>, len: nat)
    requires Readable(p, len)
    ensures len + 3 <= |p|
  {
  }

  lemma MarkerInside(p: seq<byte>, len: nat)
    requires Readable(p, len)
    ensures var j := LastAt(p, len, CRLFDASH); j > 0 ==> j + 2 <= len
  {
  }

  /** The beginning of the body that `RecvStart` finds behind the header in the same packet. */
  function FirstSlice(p: seq<byte>, len: nat): (first: seq<byte>)
    requires Readable(p, len)
    ensures |first| <= len
  {
    MarkerInside(p, len);
    var j := LastAt(p, len, CRLFDASH);
    if j == 0 then [] else p[j + 2..len]
  }

  /** For every packet, whatever it ends with: what stands behind the line break of the last delimiter, and
      nothing if there is none behind the first byte. */
  lemma FirstSliceExactly(p: seq<byte>, len: nat, k: nat)
    requires Readable(p, len) && StandsLast(p, len, [0x0D, 0x0A, 0x2D, 0x2D], k)
    ensures k == 0 || k + 2 <= len
    ensures FirstSlice(p, len) == if k == 0 then [] else p[k + 2..len]
  {
    LastIsLast(p, len, [0x0D, 0x0A, 0x2D, 0x2D], k);
    MarkerInside(p, len);
    hide StandsLast, LastAt, Readable;
  }

  function Claimed(former: Node, contentLen: int, first: seq<byte>): Node
    requires |former.data| == MAX_BUF_LEN && |first| < 0x1_0000
  {
    Node(Wrap16(contentLen), |first|, Splice(former.data[0 := NUL], 0, first))
  }

  function Open(e: Engine, key: string, contentLen: int, first: seq<byte>): (r: Engine)
    requires Coupled(e) && key !in e.table && e.free != [] && |first| < 0x1_0000
    ensures Coupled(r) && |r.nodes| == |e.nodes|
  {
    var n := e.free[0];
    TakeKeeps(e.free, e.table.Values, |e.nodes|);
    var r := e.(nodes := e.nodes[n := Claimed(e.nodes[n], contentLen, first)], free := e.free[1..],
                table := e.table[key := n], order := e.order + [key]);
    Inserted(e.table, key, n);
    r
  }

  lemma Inserted(table: map<string, nat>, key: string, n: nat)
    requires key !in table && n !in table.Values
    ensures table[key := n].Values == table.Values + {n}
    ensures Injective(table) ==> Injective(table[key := n])
  {
    var table' := table[key := n];
    forall v | v in table.Values + {n}
      ensures v in table'.Values
    {
      if v == n {
        assert table'[key] == n;
      } else {
        var k :| k in table && table[k] == v;
        assert k in table' && table'[k] == v;
      }
    }
    assert forall k | k in table :: table[k] in table.Values;
  }

  function Grown(node: Node, slice: seq<byte>): Node
    requires NodeOk(node) && |slice| <= 3000
  {
    Node(node.cLen, Wrap16(node.used + |slice|), Splice(node.data, node.used, slice))
  }

  /** `list::remove`. */
  function Removed(order: seq<string>, key: string): (r: seq<string>)
    ensures forall k :: k in r <==> k in order && k != key
    ensures NoDup(order) ==> NoDup(r)
    ensures key !in order ==> r == order
  {
    if order == [] then []
    else
      var init := Removed(order[..|order| - 1], key);
      assert order == order[..|order| - 1] + [order[|order| - 1]];
      assert NoDup(order) ==> NoDup(order[..|order| - 1]) && order[|order| - 1] !in order[..|order| - 1];
      if order[|order| - 1] == key then init else init + [order[|order| - 1]]
  }

  lemma Deleted(table: map<string, nat>, key: string)
    requires key in table && Injective(table)
    ensures (table - {key}).Values == table.Values - {table[key]} && Injective(table - {key})
  {
    var table' := table - {key};
    forall v | v in table.Values && v != table[key]
      ensures v in table'.Values
    {
      var k :| k in table && table[k] == v;
      assert k in table';
    }
    forall v | v in table'.Values
      ensures v in table.Values && v != table[key]
    {
      var k :| k in table' && table'[k] == v;
      assert k in table;
    }
  }

  function Complete(e: Engine, key: string, node: Node): (r: Engine)
    requires Coupled(e) && key in e.table && NodeOk(node)
    ensures Coupled(r) && |r.nodes| == |e.nodes|
  {
    var n := NodeOf(e, key);
    GiveKeeps(e.free, e.table.Values, |e.nodes|, n);
    Deleted(e.table, key);
    var r := e.(free := e.free + [n], table := e.table - {key}, order := Removed(e.order, key));
    match Sent(node.data, node.used)
    case Some(bytes) =>
      r.(nodes := e.nodes[n := Node(0, 0, node.data[0 := NUL])], sent := e.sent + [Message(key, bytes)])
    case None => r.(nodes := e.nodes[n := node])
  }

  function Continue(e: Engine, key: string, slice: seq<byte>): (r: Engine)
    requires Coupled(e) && key in e.table && |slice| <= 3000
    ensures Coupled(r) && |r.nodes| == |e.nodes|
  {
    var n := NodeOf(e, key);
    var node := Grown(e.nodes[n], slice);
    if node.cLen != node.used then e.(nodes := e.nodes[n := node]) else Complete(e, key, node)
  }

  /** A body that arrived before its header is sent on at once. */
  function Modified(e: Engine, key: string, p: seq<byte>, len: nat): (r: Engine)
    requires Coupled(e) && 0 < len <= |p|
    ensures Coupled(r) && |r.nodes| == |e.nodes|
  {
    if Is4(p, 0, JSON) && p[len - 1] == JSON_END then e.(sent := e.sent + [Message(key, p[..len])]) else e
  }

  function HandleFrame(e: Engine, key: string, p: seq<byte>, len: nat, head: Head): (r: Engine)
    requires Coupled(e) && Readable(p, len)
    ensures Coupled(r) && |r.nodes| == |e.nodes|
  {
    if !Accepted(p, len, head) then e
    else if key in e.table then Continue(e, key, p[..len])
    else if head.contentType == TYPE_UNKNOWN then Modified(e, key, p, len)
    else if head.contentLen >= MAX_BUF_LEN || e.free == [] then e
    else Open(e, key, head.contentLen, FirstSlice(p, len))
  }

  // ---- the age-based clear ----

  function Used(e: Engine): (n: nat)
    requires Coupled(e)
    ensures n == |e.table.Values|
  {
    PartitionCount(e.free, e.table.Values, |e.nodes|);
    |e.nodes| - |e.free|
  }

  /** Four fifths of the pool, in 32-bit unsigned arithmetic. */
  function Threshold(size: nat): nat {
    Wrap32(size * 4) / 5
  }

  /** What the loop takes out of `used` flows: its counter passes half of them once too often. */
  function Share(used: nat): (k: nat)
    ensures k <= used && (0 < used ==> 2 * (used - k) < used)
  {
    if used / 2 + 1 < used then used / 2 + 1 else used
  }

  predicate NeedsClear(e: Engine)
    requires Coupled(e)
  {
    Used(e) >= Threshold(|e.nodes|)
  }

  function ClearCount(e: Engine): (k: nat)
    requires Coupled(e)
    ensures k <= |e.order|
  {
    Counts(e);
    if NeedsClear(e) then Share(Used(e)) else 0
  }

  lemma {:induction false} CountValues(table: map<string, nat>)
    requires Injective(table)
    ensures |table.Values| == |table|
  {
    if table != map[] {
      var key :| key in table;
      Deleted(table, key);
      assert table[key] in table.Values;
      CountValues(table - {key});
      assert |table - {key}| == |table| - 1 by {
        assert (table - {key}).Keys == table.Keys - {key};
        assert |table.Keys| == |table| && |(table - {key}).Keys| == |table - {key}|;
      }
    } else {
      assert table.Values == {};
    }
  }

  /** Used nodes, flows in the table and entries of the age list are equally many, and a used node
      can always be freed. */
  lemma Counts(e: Engine)
    requires Coupled(e)
    ensures Used(e) == |e.table| == |e.order| && |e.order| + |e.free| == |e.nodes|
    ensures e.order != [] ==> |e.free| < |e.nodes|
  {
    PartitionCount(e.free, e.table.Values, |e.nodes|);
    CountValues(e.table);
    CountNoDup(e.order, e.table.Keys);
  }

  function NodesOf(e: Engine, keys: seq<string>): (r: seq<nat>)
    requires Coupled(e) && forall k | k in keys :: k in e.table
    ensures |r| == |keys| && forall i | 0 <= i < |keys| :: r[i] == e.table[keys[i]]
  {
    if keys == [] then [] else NodesOf(e, keys[..|keys| - 1]) + [NodeOf(e, keys[|keys| - 1])]
  }

  /** One round of the loop: the oldest flow goes. */
  function DropOldest(e: Engine): (r: Engine)
    requires Coupled(e) && e.order != []
    ensures Coupled(r) && |r.nodes| == |e.nodes|
    ensures r.nodes == e.nodes && r.sent == e.sent && r.order == e.order[1..]
    ensures r.free == e.free + [e.table[e.order[0]]] && r.table == e.table - {e.order[0]}
  {
    var key := e.order[0];
    var n := NodeOf(e, key);
    GiveKeeps(e.free, e.table.Values, |e.nodes|, n);
    Deleted(e.table, key);
    assert e.order == [key] + e.order[1..];
    e.(free := e.free + [n], table := e.table - {key}, order := e.order[1..])
  }

  function Drop(e: Engine, k: nat): (r: Engine)
    requires Coupled(e) && k <= |e.order|
    ensures Coupled(r) && r.nodes == e.nodes && r.sent == e.sent && r.order == e.order[k..]
    ensures forall key | key in r.table :: key in e.table && r.table[key] == e.table[key]
    decreases k
  {
    if k == 0 then e else DropOldest(Drop(e, k - 1))
  }

  function LRUClear(e: Engine): (r: Engine)
    requires Coupled(e)
    ensures Coupled(r) && |r.nodes| == |e.nodes|
  {
    Drop(e, ClearCount(e))
  }

  // ---- runs ----

  datatype Event = Frame(key: string, p: seq<byte>, len: nat, head: Head) | Tick

  ghost predicate EventOk(ev: Event) {
    ev.Frame? ==> Readable(ev.p, ev.len)
  }

  function Step(e: Engine, ev: Event): (r: Engine)
    requires Coupled(e) && EventOk(ev)
    ensures Coupled(r) && |r.nodes| == |e.nodes|
  {
    match ev
    case Frame(key, p, len, head) => HandleFrame(e, key, p, len, head)
    case Tick => LRUClear(e)
  }

  function Run(e: Engine, evs: seq<Event>): (r: Engine)
    requires Coupled(e) && forall ev | ev in evs :: EventOk(ev)
    ensures Coupled(r) && |r.nodes| == |e.nodes|
  {
    if evs == [] then e else Step(Run(e, evs[..|evs| - 1]), evs[|evs| - 1])
  }
}
