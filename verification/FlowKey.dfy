/** Decimal and hexadecimal numerals, most significant digit first, without leading zeros. */
module Numerals {

  datatype Base = Dec | Hex {
    function Radix(): nat { if Dec? then 10 else 16 }
    function Times(n: nat): nat { if Dec? then 10 * n else 16 * n }
    function Over(n: nat): nat { if Dec? then n / 10 else n / 16 }
    function Rest(n: nat): nat { if Dec? then n % 10 else n % 16 }
  }

  function Digits(n: nat, base: Base): (ds: seq<nat>)
    ensures ds != [] && forall d | d in ds :: d < base.Radix()
    decreases n
  {
    if n < base.Radix() then [n] else Digits(base.Over(n), base) + [base.Rest(n)]
  }

  function ValueOf(ds: seq<nat>, base: Base): nat {
    if ds == [] then 0 else base.Times(ValueOf(ds[..|ds| - 1], base)) + ds[|ds| - 1]
  }

  lemma Appended(ds: seq<nat>, d: nat, base: Base)
    ensures ValueOf(ds + [d], base) == base.Times(ValueOf(ds, base)) + d
  {
    assert (ds + [d])[..|ds|] == ds;
  }

  /** Reading back what was written. */
  lemma {:induction false} DigitsRoundTrip(n: nat, base: Base)
    ensures ValueOf(Digits(n, base), base) == n
    decreases n
  {
    if n < base.Radix() {
      Appended([], n, base);
      assert [] + [n] == [n];
    } else {
      DigitsRoundTrip(base.Over(n), base);
      Appended(Digits(base.Over(n), base), base.Rest(n), base);
    }
  }

  function Power(base: Base, k: nat): nat {
    if k == 0 then 1 else base.Times(Power(base, k - 1))
  }

  lemma {:induction false} DigitsLength(n: nat, base: Base, k: nat)
    requires n < Power(base, k) && 0 < k
    ensures |Digits(n, base)| <= k
    decreases k
  {
    if n >= base.Radix() {
      assert k > 1 by {
        assert Power(base, 1) == base.Times(Power(base, 0)) == base.Radix();
      }
      DigitsLength(base.Over(n), base, k - 1);
    }
  }
}

/** The string that names a flow. */
module FlowKey {
  import opened Numerals

  type uint16 = x: int | 0 <= x < 0x1_0000
  type uint32 = x: int | 0 <= x < 0x1_0000_0000

  /** Source address, source port and destination address as they stand in the packet. */
  datatype Flow = Flow(saddr: uint32, source: uint16, daddr: uint32)

  function Ntohs(x: uint16): uint16 {
    x % 0x100 * 0x100 + x / 0x100
  }

  function HexDigit(d: nat): char
    requires d < 16
  {
    if d < 10 then (48 + d) as char else (55 + d) as char
  }

  function HexDigitOf(ds: seq<nat>, i: nat): char
    requires i < |ds| && forall d | d in ds :: d < 16
  {
    assert ds[i] in ds;
    HexDigit(ds[i])
  }

  function Show(ds: seq<nat>): (s: string)
    requires forall d | d in ds :: d < 16
    ensures |s| == |ds| && forall i | 0 <= i < |ds| :: ds[i] < 16 && s[i] == HexDigit(ds[i])
  {
    assert forall i | 0 <= i < |ds| :: ds[i] in ds;
    seq(|ds|, i requires 0 <= i < |ds| => HexDigitOf(ds, i))
  }

  function Decimal(n: nat): string {
    Show(Digits(n, Dec))
  }

  function Hexadecimal(n: nat): string {
    Show(Digits(n, Hex))
  }

  /** `snprintf` writes at most `size - 1` characters and the terminator. */
  function Snprintf(size: nat, text: string): string
    requires 0 < size
  {
    if |text| < size then text else text[..size - 1]
  }

  function Text(f: Flow): string {
    Decimal(Ntohs(f.source)) + "|" + Hexadecimal(f.saddr) + "|" + Hexadecimal(f.daddr)
  }

  /** The buffer has 32 characters; one less is passed as its size. */
  function Create(f: Flow): string {
    Snprintf(31, Text(f))
  }

  lemma ShowInjective(a: seq<nat>, b: seq<nat>)
    requires (forall d | d in a :: d < 16) && (forall d | d in b :: d < 16)
    requires Show(a) == Show(b)
    ensures a == b
  {
    forall i | 0 <= i < |a|
      ensures a[i] == b[i]
    {
      assert HexDigit(a[i]) == Show(a)[i] == Show(b)[i] == HexDigit(b[i]);
    }
  }

  lemma NoBar(ds: seq<nat>)
    requires forall d | d in ds :: d < 16
    ensures '|' !in Show(ds)
  {
    forall i | 0 <= i < |ds|
      ensures Show(ds)[i] != '|'
    {
      assert Show(ds)[i] == HexDigit(ds[i]);
    }
  }

  lemma NumeralInjective(m: nat, n: nat, base: Base)
    requires Show(Digits(m, base)) == Show(Digits(n, base))
    ensures m == n
  {
    ShowInjective(Digits(m, base), Digits(n, base));
    DigitsRoundTrip(m, base);
    DigitsRoundTrip(n, base);
  }

  lemma FieldsDiffer(a: seq<nat>, b: seq<nat>, c: string, a': seq<nat>, b': seq<nat>, c': string)
    requires forall ds, d | ds in {a, b, a', b'} && d in ds :: d < 16
    requires Show(a) + "|" + Show(b) + "|" + c == Show(a') + "|" + Show(b') + "|" + c'
    ensures Show(a) == Show(a') && Show(b) == Show(b') && c == c'
  {
    NoBar(a);
    NoBar(b);
    NoBar(a');
    NoBar(b');
    assert Show(a) + "|" + Show(b) + "|" + c == Show(a) + "|" + (Show(b) + "|" + c);
    assert Show(a') + "|" + Show(b') + "|" + c' == Show(a') + "|" + (Show(b') + "|" + c');
    CutAtBar(Show(a), Show(b) + "|" + c, Show(a'), Show(b') + "|" + c');
    CutAtBar(Show(b), c, Show(b'), c');
  }

  lemma CutAtBar(a: string, rest: string, b: string, rest': string)
    requires '|' !in a && '|' !in b && a + "|" + rest == b + "|" + rest'
    ensures a == b && rest == rest'
  {
    var s, t := a + "|" + rest, b + "|" + rest';
    assert s[|a|] == '|' && t[|b|] == '|';
    assert forall i | 0 <= i < |a| :: s[i] == a[i];
    assert forall i | 0 <= i < |b| :: t[i] == b[i];
    assert s[..|a|] == a && t[..|b|] == b;
    assert s[|a| + 1..] == rest && t[|b| + 1..] == rest';
  }

  /** The longest key has 23 characters, so nothing is ever cut off. */
  lemma NeverTruncated(f: Flow)
    ensures |Text(f)| <= 23 && Create(f) == Text(f)
  {
    assert Power(Dec, 5) == 100000 by { assert Power(Dec, 2) == 100; }
    assert Power(Hex, 8) == 0x1_0000_0000 by { assert Power(Hex, 4) == 0x1_0000; assert Power(Hex, 6) == 0x100_0000; }
    DigitsLength(Ntohs(f.source), Dec, 5);
    DigitsLength(f.saddr, Hex, 8);
    DigitsLength(f.daddr, Hex, 8);
  }

  /** Two flows share a key only if they are the same flow. */
  lemma KeysInjective(f: Flow, g: Flow)
    ensures Create(f) == Create(g) <==> f == g
  {
    if Create(f) == Create(g) {
      NeverTruncated(f);
      NeverTruncated(g);
      FieldsDiffer(Digits(Ntohs(f.source), Dec), Digits(f.saddr, Hex), Hexadecimal(f.daddr),
                   Digits(Ntohs(g.source), Dec), Digits(g.saddr, Hex), Hexadecimal(g.daddr));
      NumeralInjective(Ntohs(f.source), Ntohs(g.source), Dec);
      SwapTwice(f.source);
      SwapTwice(g.source);
      NumeralInjective(f.saddr, g.saddr, Hex);
      NumeralInjective(f.daddr, g.daddr, Hex);
    }
  }

  // ---- what a key says ----

  /** The digits as `%d` and `%X` write them. */
  function DigitOf(c: char): nat {
    if '0' <= c <= '9' then c as nat - 48 else if 'A' <= c <= 'F' then c as nat - 55 else 16
  }

  function Reading(text: string): (ds: seq<nat>)
    ensures |ds| == |text| && forall i | 0 <= i < |text| :: ds[i] == DigitOf(text[i])
  {
    seq(|text|, i requires 0 <= i < |text| => DigitOf(text[i]))
  }

  lemma ReadsBack(n: nat, base: Base)
    ensures ValueOf(Reading(Show(Digits(n, base))), base) == n
  {
    var ds := Digits(n, base);
    forall i | 0 <= i < |ds|
      ensures DigitOf(Show(ds)[i]) == ds[i]
    {
      assert ds[i] in ds && Show(ds)[i] == HexDigit(ds[i]);
    }
    assert Reading(Show(ds)) == ds;
    DigitsRoundTrip(n, base);
  }

  /** A key has three fields between bars: the source port in host order and decimal, the source address and the
      destination address as they stand in the packet and in hexadecimal. */
  lemma KeyFields(f: Flow) returns (port: string, source: string, destination: string)
    ensures Create(f) == port + "|" + source + "|" + destination
    ensures '|' !in port && '|' !in source && '|' !in destination
    ensures ValueOf(Reading(port), Dec) == f.source % 256 * 256 + f.source / 256
    ensures ValueOf(Reading(source), Hex) == f.saddr && ValueOf(Reading(destination), Hex) == f.daddr
  {
    NeverTruncated(f);
    port, source, destination := Decimal(Ntohs(f.source)), Hexadecimal(f.saddr), Hexadecimal(f.daddr);
    NoBar(Digits(Ntohs(f.source), Dec));
    NoBar(Digits(f.saddr, Hex));
    NoBar(Digits(f.daddr, Hex));
    ReadsBack(Ntohs(f.source), Dec);
    ReadsBack(f.saddr, Hex);
    ReadsBack(f.daddr, Hex);
  }

  lemma SwapTwice(x: uint16)
    ensures Ntohs(Ntohs(x)) == x
  {
    var low, high := x % 0x100, x / 0x100;
    assert Ntohs(x) == low * 0x100 + high && 0 <= high < 0x100;
    assert Ntohs(x) % 0x100 == high && Ntohs(x) / 0x100 == low;
  }
}
