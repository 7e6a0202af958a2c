/** The head/tail ring queue that keeps one slot empty. */
module Ring {
  import opened Bytes

  /** The elements stored in the slots from `head` up to `tail`, wrapping at the end. */
  function Stored<T>(data: seq<T>, head: nat, tail: nat): seq<T>
    requires head < |data| && tail < |data|
  {
    if head <= tail then data[head..tail] else data[head..] + data[..tail]
  }

  /** How many slots lie from `head` up to `tail`. */
  function Occupied(size: nat, head: nat, tail: nat): (n: nat)
    requires head < size && tail < size
    ensures n < size
  {
    if head <= tail then tail - head else size - head + tail
  }

  /** One step round the ring. */
  function Next(size: nat, at: nat): (r: nat)
    requires at < size
    ensures r < size
  {
    if at + 1 == size then 0 else at + 1
  }

  lemma StoredPush<T>(data: seq<T>, head: nat, tail: nat, x: T)
    requires head < |data| && tail < |data| && Occupied(|data|, head, tail) < |data| - 1
    ensures Stored(data[tail := x], head, tail) == Stored(data, head, tail)
    ensures Stored(data[tail := x], head, Next(|data|, tail)) == Stored(data, head, tail) + [x]
    ensures Occupied(|data|, head, Next(|data|, tail)) == Occupied(|data|, head, tail) + 1
  {
  }

  lemma StoredPop<T>(data: seq<T>, head: nat, tail: nat)
    requires head < |data| && tail < |data| && head != tail
    ensures Stored(data, head, tail) == [data[head]] + Stored(data, Next(|data|, head), tail)
    ensures Occupied(|data|, head, tail) == Occupied(|data|, Next(|data|, head), tail) + 1
  {
  }

  /** The index arithmetic of the code: 32 bits are enough for it. */
  lemma NextSlot(size: nat, at: nat)
    requires at < size < 0x1_0000_0000
    ensures Wrap32(at + 1) % size == Next(size, at)
  {
  }

  class Queue<T(0)> {
    var size: nat
    var data: array<T>
    var head: nat
    var tail: nat

    ghost predicate Valid()
      reads this
    {
      0 < size == data.Length < 0x1_0000_0000 && head < size && tail < size
    }

    ghost function Contents(): (s: seq<T>)
      reads this, data
      requires Valid()
      ensures |s| == Occupied(size, head, tail)
    {
      Stored(data[..], head, tail)
    }

    constructor (queueSize: nat)
      requires 0 < queueSize < 0x1_0000_0000
      ensures Valid() && fresh(data) && size == queueSize && Contents() == []
    {
      size, head, tail := queueSize, 0, 0;
      data := new T[queueSize];
    }

    method EnQueue(x: T) returns (ok: bool)
      requires Valid()
      modifies this`tail, data
      ensures Valid()
      ensures ok <==> |old(Contents())| < size - 1
      ensures Contents() == if ok then old(Contents()) + [x] else old(Contents())
    {
      NextSlot(size, tail);
      var next := Wrap32(tail + 1) % size;
      if next == head {
        return false;
      }
      data[tail] := x;
      tail := next;
      return true;
    }

    method DeQueue() returns (out: Option<T>)
      requires Valid()
      modifies this`head
      ensures Valid()
      ensures out.Some? <==> old(Contents()) != []
      ensures if out.Some? then [out.value] + Contents() == old(Contents()) else Contents() == old(Contents())
    {
      if head == tail {
        return None;
      }
      NextSlot(size, head);
      out := Some(data[head]);
      head := Wrap32(head + 1) % size;
    }

    method GetFront() returns (out: Option<T>)
      requires Valid()
      ensures out == if Contents() == [] then None else Some(Contents()[0])
    {
      if head == tail {
        return None;
      }
      return Some(data[head]);
    }

    function Count(): (n: nat)
      reads this, data
      requires Valid()
      ensures n == |Contents()|
    {
      if head == tail then 0
      else if head > tail then size - (head - tail)
      else tail - head
    }

    predicate IsEmpty()
      reads this, data
      requires Valid()
      ensures IsEmpty() <==> Contents() == []
    {
      head == tail
    }

    predicate IsFull()
      reads this, data
      requires Valid()
      ensures IsFull() <==> |Contents()| == size - 1
    {
      NextSlot(size, tail);
      head == Wrap32(tail + 1) % size
    }

    method Clear()
      requires Valid()
      modifies this`head
      ensures Valid() && Contents() == []
    {
      head := tail;
    }

    /** `elementSize` is `sizeof(DataType)`. The wrapped branch passes `tail` itself as the number of
        bytes of its second copy, so only the first `Kept` elements are sure to arrive; whatever the new
        array held stays in the places after them. */
    method Resize(newSize: nat, elementSize: nat) returns (ok: bool)
      requires Valid() && newSize < 0x1_0000_0000 && 0 < elementSize
      modifies this
      ensures Valid()
      ensures ok <==> |old(Contents())| < newSize
      ensures !ok ==> size == old(size) && data == old(data) && Contents() == old(Contents())
      ensures ok ==> size == newSize && fresh(data) && |Contents()| == |old(Contents())|
      ensures ok ==> var kept := Kept(old(size), old(head), old(tail), elementSize);
                     kept <= |Contents()| && Contents()[..kept] == old(Contents())[..kept]
      ensures ok && (old(head) <= old(tail) || old(tail) == 0 || elementSize == 1) ==> Contents() == old(Contents())
    {
      var count := Count();
      if newSize <= count {
        return false;
      }
      var copy := new T[newSize];
      if count > 0 {
        if tail < head {
          CopyWrapped(copy, data, head, tail, elementSize);
        } else {
          CopyElements(copy, data, head, count, elementSize);
        }
      }
      head, tail, size, data := 0, count, newSize, copy;
      return true;
    }
  }

  /** The two copies of the wrapped branch. */
  method CopyWrapped<T>(dst: array<T>, src: array<T>, head: nat, tail: nat, elementSize: nat)
    requires dst != src && 0 < elementSize && tail < head < src.Length
    requires src.Length - head + tail < dst.Length
    modifies dst
    ensures var kept := Kept(src.Length, head, tail, elementSize);
            kept <= src.Length - head + tail && dst[..kept] == (src[head..] + src[..tail])[..kept]
    ensures tail == 0 || elementSize == 1 ==> dst[..src.Length - head + tail] == src[head..] + src[..tail]
  {
    hide Whole, HasPart;
    var upper := src.Length - head;
    CopyElements(dst, src, head, upper, elementSize);
    CopyBytes(dst, upper, src, 0, tail, elementSize);
    ghost var kept := Kept(src.Length, head, tail, elementSize);
    ghost var whole := Whole(tail, elementSize);
    assert dst[..kept] == dst[..upper] + dst[upper..upper + whole];
    assert (src[head..] + src[..tail])[..kept] == src[head..] + src[..whole];
  }

  /** How many elements are copied in full by a copy of so many bytes. */
  function Whole(bytes: nat, elementSize: nat): (n: nat)
    requires 0 < elementSize
    ensures n <= bytes && (bytes % elementSize != 0 ==> n < bytes) && (bytes == 0 || elementSize == 1 ==> n == bytes)
  {
    FewerElements(bytes, elementSize);
    bytes / elementSize
  }

  predicate HasPart(bytes: nat, elementSize: nat)
    requires 0 < elementSize
    ensures HasPart(bytes, elementSize) ==> Whole(bytes, elementSize) < bytes
  {
    bytes % elementSize != 0
  }

  /** How many elements, from the front, `Resize` copies in full. */
  function Kept(size: nat, head: nat, tail: nat, elementSize: nat): (k: nat)
    requires head < size && tail < size && 0 < elementSize
    ensures k <= Occupied(size, head, tail)
  {
    if tail < head then size - head + Whole(tail, elementSize) else tail - head
  }

  lemma TimesOrdered(a: nat, b: nat, d: nat)
    requires a <= b
    ensures a * d <= b * d && (b - a) * d == b * d - a * d
  {
    assert (b - a) * d >= 0;
  }

  lemma QuotientIs(x: nat, d: nat, q: nat)
    requires 0 < d && q * d <= x < q * d + d
    ensures x / d == q
  {
    var actual := x / d;
    assert x == actual * d + x % d;
    StepsBelow(actual, q, d);
    StepsBelow(q, actual, d);
  }

  lemma StepsBelow(a: nat, b: nat, d: nat)
    ensures a < b ==> a * d + d <= b * d
  {
    if a < b {
      TimesOrdered(a + 1, b, d);
      assert (a + 1) * d == a * d + d;
    }
  }

  lemma WholeElements(n: nat, elementSize: nat)
    requires 0 < elementSize
    ensures n * elementSize / elementSize == n && n * elementSize % elementSize == 0
  {
    var x := n * elementSize;
    QuotientIs(x, elementSize, n);
    assert x == x / elementSize * elementSize + x % elementSize;
  }

  lemma FewerElements(n: nat, elementSize: nat)
    requires 0 < elementSize
    ensures n / elementSize <= n && (n % elementSize != 0 ==> n / elementSize < n)
    ensures n == 0 || elementSize == 1 ==> n / elementSize == n
  {
    var q := n / elementSize;
    assert n == q * elementSize + n % elementSize;
    TimesOrdered(1, elementSize, q);
    assert elementSize * q == q * elementSize;
  }

  /** `memcpy` of `bytes` bytes between arrays of elements of `elementSize` bytes: an element that
      is copied only in part holds some other value afterwards. */
  method CopyBytes<T>(dst: array<T>, to: nat, src: array<T>, from: nat, bytes: nat, elementSize: nat)
    requires dst != src && 0 < elementSize
    requires var reach := Whole(bytes, elementSize) + if HasPart(bytes, elementSize) then 1 else 0;
             to + reach <= dst.Length && from + reach <= src.Length
    modifies dst
    ensures dst[..to] == old(dst[..to])
    ensures dst[to..to + Whole(bytes, elementSize)] == src[from..from + Whole(bytes, elementSize)]
  {
    hide Whole, HasPart;
    var whole := Whole(bytes, elementSize);
    for i := 0 to whole
      invariant dst[..to] == old(dst[..to])
      invariant dst[to..to + i] == src[from..from + i]
    {
      dst[to + i] := src[from + i];
    }
    if HasPart(bytes, elementSize) {
      dst[to + whole] := *;
    }
  }

  lemma ScaledCopy(n: nat, elementSize: nat)
    requires 0 < elementSize
    ensures 0 <= n * elementSize && Whole(n * elementSize, elementSize) == n && !HasPart(n * elementSize, elementSize)
  {
    WholeElements(n, elementSize);
  }

  /** `memcpy` scaled by the element size, to the front of `dst`. */
  method CopyElements<T>(dst: array<T>, src: array<T>, from: nat, n: nat, elementSize: nat)
    requires dst != src && 0 < elementSize && n <= dst.Length && from + n <= src.Length
    modifies dst
    ensures dst[..n] == src[from..from + n]
  {
    hide Whole, HasPart;
    ScaledCopy(n, elementSize);
    CopyBytes(dst, 0, src, from, n * elementSize, elementSize);
  }

  /** The two copies of the wrapped branch, byte by byte: all bytes from `from` on, then the first
      `taken` bytes, into a new array whose memory holds `unset`. */
  function WrappedCopy(memory: seq<byte>, from: nat, taken: nat, unset: seq<byte>): (r: seq<byte>)
    requires from <= |memory| && taken <= |memory| && |memory| - from + taken <= |unset|
    ensures r == memory[from..] + memory[..taken] + unset[|memory| - from + taken..]
  {
    Splice(Splice(unset, 0, memory[from..]), |memory| - from, memory[..taken])
  }

  /** The memory of the new array after `Resize`; `unset` is what it held when it was allocated. */
  function ResizedMemory(memory: seq<byte>, size: nat, head: nat, tail: nat, elementSize: nat,
                         unset: seq<byte>): seq<byte>
    requires head < size && tail < size && 0 < elementSize && |memory| == size * elementSize
    requires Occupied(size, head, tail) * elementSize <= |unset|
  {
    Products(size, head, tail, elementSize);
    if tail < head then WrappedCopy(memory, head * elementSize, tail, unset)
    else Splice(unset, 0, memory[head * elementSize..tail * elementSize])
  }

  function StoredMemory(memory: seq<byte>, size: nat, head: nat, tail: nat, elementSize: nat): seq<byte>
    requires head < size && tail < size && 0 < elementSize && |memory| == size * elementSize
  {
    Products(size, head, tail, elementSize);
    if tail < head then memory[head * elementSize..] + memory[..tail * elementSize]
    else memory[head * elementSize..tail * elementSize]
  }

  lemma Products(size: nat, head: nat, tail: nat, elementSize: nat)
    requires head < size && tail < size && 0 < elementSize
    ensures 0 <= head * elementSize <= size * elementSize && tail <= tail * elementSize <= size * elementSize
    ensures (size - head) * elementSize == size * elementSize - head * elementSize
    ensures head <= tail ==> 0 <= (tail - head) * elementSize == tail * elementSize - head * elementSize
    ensures (size - head + tail) * elementSize == (size - head) * elementSize + tail * elementSize
    ensures tail < tail * elementSize <==> tail != 0 && elementSize != 1
  {
    TimesOrdered(head, size, elementSize);
    TimesOrdered(tail, size, elementSize);
    if head <= tail {
      TimesOrdered(head, tail, elementSize);
    }
    TimesOrdered(1, elementSize, tail);
    assert elementSize * tail == tail * elementSize == tail + (elementSize - 1) * tail;
    if tail != 0 && elementSize != 1 {
      TimesOrdered(1, elementSize - 1, tail);
    }
    TimesOrdered(size - head, size - head + tail, elementSize);
  }

  lemma WrappedCopyMisses(memory: seq<byte>, from: nat, taken: nat, wanted: nat, room: nat) returns (unset: seq<byte>)
    requires from <= |memory| && taken < wanted <= |memory| && |memory| - from + wanted <= room
    ensures |unset| == room && !(memory[from..] + memory[..wanted] <= WrappedCopy(memory, from, taken, unset))
  {
    hide WrappedCopy;
    var want, at := memory[from..] + memory[..wanted], |memory| - from + taken;
    var other: byte := if want[at] == 0 then 1 else 0;
    unset := seq(room, _ => other);
    assert WrappedCopy(memory, from, taken, unset)[at] == unset[at] == other;
  }

  /** The wrapped copy is complete for every `unset` exactly if all `wanted` bytes are taken. */
  lemma WrappedCopyKeeps(memory: seq<byte>, from: nat, taken: nat, wanted: nat, room: nat)
    requires from <= |memory| && taken <= wanted <= |memory| && |memory| - from + wanted <= room
    ensures (forall unset: seq<byte> | |unset| == room ::
               memory[from..] + memory[..wanted] <= WrappedCopy(memory, from, taken, unset))
       <==> taken == wanted
  {
    hide WrappedCopy;
    if taken < wanted {
      var unset := WrappedCopyMisses(memory, from, taken, wanted, room);
    }
  }

  /** Exactly when `Resize` keeps the contents, whatever the new memory held before. */
  lemma ResizeKeepsContents(memory: seq<byte>, size: nat, head: nat, tail: nat, elementSize: nat, room: nat)
    requires head < size && tail < size && 0 < elementSize && |memory| == size * elementSize
    requires Occupied(size, head, tail) * elementSize <= room
    ensures (forall unset: seq<byte> | |unset| == room ::
              StoredMemory(memory, size, head, tail, elementSize) <=
                ResizedMemory(memory, size, head, tail, elementSize, unset))
       <==> head <= tail || tail == 0 || elementSize == 1
  {
    hide WrappedCopy;
    Products(size, head, tail, elementSize);
    if tail < head {
      var from, wanted := head * elementSize, tail * elementSize;
      WrappedCopyKeeps(memory, from, tail, wanted, room);
      assert forall unset: seq<byte> | |unset| == room ::
        ResizedMemory(memory, size, head, tail, elementSize, unset) == WrappedCopy(memory, from, tail, unset);
    }
  }
}
