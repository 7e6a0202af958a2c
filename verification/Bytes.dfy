/** Bytes, the 4-byte word reads of the scanners, and last-match search. */
module Bytes {

  newtype byte = b: int | 0 <= b < 256

  datatype Option<+T> = None | Some(value: T)

  /** Value of a 32-bit unsigned computation. */
  function Wrap32(x: int): (r: nat) {
    x % 0x1_0000_0000
  }

  /** Value stored by an assignment to a `uint16_t`. */
  function Wrap16(x: int): (r: nat) {
    x % 0x1_0000
  }

  /** The stored value fits, and differs from the assigned one by a multiple of 2^16. */
  lemma Wrap16Is(x: int)
    ensures Wrap16(x) < 0x1_0000 && (x - Wrap16(x)) % 0x1_0000 == 0
  {
  }

  /** The same of 32 bits. */
  lemma Wrap32Is(x: int)
    ensures Wrap32(x) < 0x1_0000_0000 && (x - Wrap32(x)) % 0x1_0000_0000 == 0
  {
  }

  /** Two values are stored alike exactly if they differ by a multiple of 2^16. */
  lemma StoredAlike(x: int, y: int)
    ensures Wrap16(x) == Wrap16(y) <==> (x - y) % 0x1_0000 == 0
  {
  }

  lemma RemainderIs(x: int, y: nat)
    requires y < 0x1_0000
    ensures x % 0x1_0000 == y <==> (x - y) % 0x1_0000 == 0
  {
  }

  lemma SameRemainder(x: int, y: int)
    ensures x % 0x1_0000 == y % 0x1_0000 <==> (x - y) % 0x1_0000 == 0
  {
  }

  /** `*(unsigned int*) (p + i)` on a little-endian host. */
  function Load32(p: seq<byte>, i: nat): (w: nat)
    requires i + 4 <= |p|
    ensures w < 0x1_0000_0000
  {
    p[i] as int + 0x100 * p[i + 1] as int + 0x1_0000 * p[i + 2] as int + 0x100_0000 * p[i + 3] as int
  }

  /** Byte reversal of a 32-bit word. */
  function Ntohl(w: nat): nat
    requires w < 0x1_0000_0000
  {
    w % 0x100 * 0x100_0000 + w / 0x100 % 0x100 * 0x1_0000 + w / 0x1_0000 % 0x100 * 0x100 + w / 0x100_0000
  }

  /** The word the scanners switch on. */
  function Field(p: seq<byte>, i: nat): nat
    requires i + 4 <= |p|
  {
    Ntohl(Load32(p, i))
  }

  /** The four bytes `m` stand in `p` from index `i` on. */
  predicate Is4(p: seq<byte>, i: nat, m: seq<byte>)
    requires |m| == 4
  {
    i + 4 <= |p| && p[i] == m[0] && p[i + 1] == m[1] && p[i + 2] == m[2] && p[i + 3] == m[3]
  }

  /** The constant a `case` label writes for the bytes `m`. */
  function Label(m: seq<byte>): nat
    requires |m| == 4
  {
    0x100_0000 * m[0] as int + 0x1_0000 * m[1] as int + 0x100 * m[2] as int + m[3] as int
  }

  lemma LoadedBytes(w: nat, a: byte, b: byte, c: byte, d: byte)
    requires w == a as int + 0x100 * b as int + 0x1_0000 * c as int + 0x100_0000 * d as int
    ensures w % 0x100 == a as int
    ensures w / 0x100 % 0x100 == b as int
    ensures w / 0x1_0000 % 0x100 == c as int
    ensures w / 0x100_0000 == d as int
  {
    assert w / 0x100 == b as int + 0x100 * c as int + 0x1_0000 * d as int;
    assert w / 0x1_0000 == c as int + 0x100 * d as int;
  }

  /** Comparing a byte-swapped word with a label compares exactly four bytes. */
  lemma FieldMatches(p: seq<byte>, i: nat, m: seq<byte>)
    requires i + 4 <= |p| && |m| == 4
    ensures Field(p, i) == Label(m) <==> Is4(p, i, m)
  {
    LoadedBytes(Load32(p, i), p[i], p[i + 1], p[i + 2], p[i + 3]);
    assert Field(p, i) == Label(p[i..i + 4]);
    if Field(p, i) == Label(m) {
      LabelInjective(p[i..i + 4], m);
    }
  }

  lemma LabelInjective(m: seq<byte>, n: seq<byte>)
    requires |m| == 4 && |n| == 4 && Label(m) == Label(n)
    ensures m == n
  {
    LoadedBytes(Label(m), m[3], m[2], m[1], m[0]);
    LoadedBytes(Label(n), n[3], n[2], n[1], n[0]);
  }

  /** What a scan that overwrites its result on every match holds after `n` positions. */
  function LastAt(p: seq<byte>, n: nat, m: seq<byte>): (r: nat)
    requires |m| == 4
    ensures r == 0 || (r < n && Is4(p, r, m))
    ensures forall i: nat | r < i < n :: !Is4(p, i, m)
  {
    if n == 0 then 0
    else if Is4(p, n - 1, m) then n - 1
    else LastAt(p, n - 1, m)
  }

  predicate Stands(p: seq<byte>, i: nat, m: seq<byte>) {
    i + |m| <= |p| && p[i..i + |m|] == m
  }

  /** The last place behind the first at which the bytes begin among the first `len`, or 0. */
  ghost predicate StandsLast(p: seq<byte>, len: nat, m: seq<byte>, k: nat) {
    (k == 0 || (k < len && Stands(p, k, m))) && forall i: nat | k < i < len :: !Stands(p, i, m)
  }

  lemma LastIsLast(p: seq<byte>, len: nat, m: seq<byte>, k: nat)
    requires |m| == 4 && len + 3 <= |p| && StandsLast(p, len, m, k)
    ensures LastAt(p, len, m) == k
  {
    forall i: nat | i < len
      ensures Is4(p, i, m) <==> Stands(p, i, m)
    {
      assert p[i..i + 4] == [p[i], p[i + 1], p[i + 2], p[i + 3]];
      assert m == [m[0], m[1], m[2], m[3]];
    }
  }

  /** `memcpy(&data[at], src, |src|)`. */
  function Splice(data: seq<byte>, at: nat, src: seq<byte>): (r: seq<byte>)
    requires at + |src| <= |data|
    ensures |r| == |data|
  {
    data[..at] + src + data[at + |src|..]
  }

  lemma SpliceAt(data: seq<byte>, at: nat, src: seq<byte>, k: nat)
    requires at + |src| <= |data| && k < |data|
    ensures Splice(data, at, src)[k] == if at <= k < at + |src| then src[k - at] else data[k]
  {
  }

  const CRLF: seq<byte> := [0x0D, 0x0A]
  const CRLFCRLF: seq<byte> := [0x0D, 0x0A, 0x0D, 0x0A]
  const CRLFDASH: seq<byte> := [0x0D, 0x0A, 0x2D, 0x2D]
  const DASHCRLF: seq<byte> := [0x2D, 0x2D, 0x0D, 0x0A]
}
