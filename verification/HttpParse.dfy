/** The scanner that classifies a packet and picks out the header fields the sniffer needs. */
module HttpParse {
  import opened Bytes
  import opened Numerals

  const MAX_HOSTLEN: nat := 60
  const MAX_PATHLEN: nat := 256
  const MAX_UALEN: nat := 128

  const TYPE_UNKNOWN: nat := 0
  const TYPE_MULTIPART: nat := 1
  const TYPE_APPLICATION: nat := 2

  const NUL: byte := 0x00
  const CR: byte := 0x0D
  const SPACE: byte := 0x20
  const COLON: byte := 0x3A
  const SLASH: byte := 0x2F
  const QUERY: byte := 0x3F

  const GET: seq<byte> := [0x47, 0x45, 0x54, 0x20]
  const POST: seq<byte> := [0x50, 0x4F, 0x53, 0x54]
  const CONT: seq<byte> := [0x43, 0x6F, 0x6E, 0x74]
  const HOST: seq<byte> := [0x48, 0x6F, 0x73, 0x74]
  const REFE: seq<byte> := [0x52, 0x65, 0x66, 0x65]
  const USER: seq<byte> := [0x55, 0x73, 0x65, 0x72]
  const MULT: seq<byte> := [0x6D, 0x75, 0x6C, 0x74]
  const APPL: seq<byte> := [0x61, 0x70, 0x70, 0x6C]

  const WORD_END: set<byte> := {CR, NUL, SPACE}
  const LINE_END: set<byte> := {CR, NUL}
  const HOST_END: set<byte> := {SLASH, CR, NUL}

  /** The fields of `URLInfo`; the texts are whole arrays. */
  datatype Info = Info(host: seq<byte>, hlen: nat, path: seq<byte>, plen: nat, refer: seq<byte>, rlen: nat,
                       ua: seq<byte>, contentType: nat, contentLen: int)

  datatype Scan = Scan(info: Info, flag: bv8)

  /** What one turn of the loop does: leave with `false`, or go on behind index `at`. */
  datatype Turn = Reject | Go(at: nat, s: Scan)

  datatype Outcome = Outcome(ok: bool, s: Scan)

  /** The reads of the scanner run past the data; it relies on NUL bytes to stop it. */
  ghost predicate Padded(p: seq<byte>, len: nat) {
    len + 6 <= |p| && forall i | len <= i < len + 6 :: p[i] == NUL
  }

  predicate Sized(info: Info) {
    |info.host| == MAX_HOSTLEN && |info.path| == MAX_PATHLEN && |info.refer| == MAX_HOSTLEN && |info.ua| == MAX_UALEN
    && info.path[MAX_PATHLEN - 1] == NUL
    && info.hlen < MAX_HOSTLEN && info.plen < MAX_PATHLEN && info.rlen < MAX_HOSTLEN
  }

  /** The first index from `i` on that holds no space. */
  function PastSpaces(p: seq<byte>, i: nat): (r: nat)
    ensures i <= r && (i <= |p| ==> r <= |p|)
    ensures forall k: nat | i <= k < |p| && p[k] != SPACE :: r <= k
    ensures r < |p| ==> p[r] != SPACE
    ensures forall k: nat | i <= k < r :: k < |p| && p[k] == SPACE
    decreases |p| - i
  {
    if i < |p| && p[i] == SPACE then PastSpaces(p, i + 1) else i
  }

  /** Where copying from `i` on ends: at a byte of `stops` or after `room` bytes. */
  function CopyEnd(p: seq<byte>, i: nat, stops: set<byte>, room: nat): (r: nat)
    ensures i <= r <= i + room && (i <= |p| ==> r <= |p|)
    ensures forall k: nat | i <= k < |p| && p[k] in stops :: r <= k
    ensures forall k: nat | i <= k < r :: k < |p| && p[k] !in stops
    ensures r < |p| ==> r == i + room || p[r] in stops
    decreases room
  {
    if i < |p| && p[i] !in stops && 0 < room then CopyEnd(p, i + 1, stops, room - 1) else i
  }

  /** The text and, unless it is empty, its terminator are written to the front of the array. */
  function Terminated(dst: seq<byte>, text: seq<byte>): (r: seq<byte>)
    requires |text| < |dst|
    ensures |r| == |dst|
  {
    if text == [] then dst else Splice(dst, 0, text + [NUL])
  }

  /** `strstr(text, "?")` finds something. */
  predicate HasQuery(text: seq<byte>) {
    text != [] && text[0] != NUL && (text[0] == QUERY || HasQuery(text[1..]))
  }

  /** The target begins with `http:` or `https`. */
  predicate IsProxy(p: seq<byte>, i: nat)
    requires i + 4 < |p|
  {
    p[i] == 0x68 && p[i + 1] == 0x74 && p[i + 2] == 0x74 && p[i + 3] == 0x70 && (p[i + 4] == COLON || p[i + 4] == 0x73)
  }

  /** The type class of a Content-Type value, from its first four bytes. */
  function TypeOf(value: seq<byte>): nat {
    if Is4(value, 0, MULT) then TYPE_MULTIPART
    else if Is4(value, 0, APPL) then TYPE_APPLICATION
    else TYPE_UNKNOWN
  }

  // ---- atoi: strtol, which saturates at 64 bits, cut down to a 32-bit int ----

  predicate IsDigit(b: byte) {
    0x30 <= b <= 0x39
  }

  predicate IsSpace(b: byte) {
    b == SPACE || 0x09 <= b <= 0x0D
  }

  function LeadingDigits(s: seq<byte>): (n: nat)
    ensures n <= |s| && forall i | 0 <= i < n :: IsDigit(s[i])
    ensures n < |s| ==> !IsDigit(s[n])
  {
    if s != [] && IsDigit(s[0]) then 1 + LeadingDigits(s[1..]) else 0
  }

  function DigitValue(b: byte): nat {
    if IsDigit(b) then b as nat - 0x30 else 0
  }

  function Magnitude(s: seq<byte>): nat {
    var n := LeadingDigits(s);
    ValueOf(seq(n, i requires 0 <= i < n <= |s| => DigitValue(s[i])), Dec)
  }

  function Saturated(x: int): int {
    if x > 0x7FFF_FFFF_FFFF_FFFF then 0x7FFF_FFFF_FFFF_FFFF
    else if x < -0x8000_0000_0000_0000 then -0x8000_0000_0000_0000
    else x
  }

  function ToInt32(x: int): int {
    var m := Wrap32(x);
    if m >= 0x8000_0000 then m - 0x1_0000_0000 else m
  }

  function Atoi(s: seq<byte>): int {
    if s != [] && IsSpace(s[0]) then Atoi(s[1..])
    else if s != [] && s[0] == 0x2D then ToInt32(Saturated(0 - Magnitude(s[1..])))
    else if s != [] && s[0] == 0x2B then ToInt32(Saturated(Magnitude(s[1..])))
    else ToInt32(Saturated(Magnitude(s)))
  }

  // ---- the cases of the switch ----

  /** The request target behind the method and its space. */
  function TargetTurn(p: seq<byte>, len: nat, at: nat, s: Scan): (t: Turn)
    requires Padded(p, len) && Sized(s.info) && at + 1 < len
    ensures t.Go? ==> at < t.at && Sized(t.s.info)
  {
    if IsProxy(p, at) || p[at] != SLASH then Reject
    else
      var end := CopyEnd(p, at + 1, WORD_END, MAX_PATHLEN - 1);
      var path := Terminated(s.info.path, p[at + 1..end]);
      Go(end, s.(info := s.info.(path := path, plen := if at + 1 < end then end - (at + 1) else s.info.plen)))
  }

  function GetTurn(p: seq<byte>, len: nat, i: nat, s: Scan): (t: Turn)
    requires Padded(p, len) && Sized(s.info) && i < len
    ensures t.Go? ==> i <= t.at && Sized(t.s.info)
  {
    if i + 5 >= len then Go(i, s)
    else
      match TargetTurn(p, len, i + 4, s)
      case Reject => Reject
      case Go(end, s') => Go(if HasQuery(s'.info.path) then end + 1 else end, s'.(flag := s'.flag | 0x01))
  }

  function PostTurn(p: seq<byte>, len: nat, i: nat, s: Scan): (t: Turn)
    requires Padded(p, len) && Sized(s.info) && i < len
    ensures t.Go? ==> i <= t.at && Sized(t.s.info)
  {
    if i + 6 >= len then Go(i, s) else TargetTurn(p, len, i + 5, s)
  }

  /** The word of a Content header's value, from `at` on, and where it ends. */
  function ValueAt(p: seq<byte>, at: nat): (v: (seq<byte>, nat))
    requires at <= |p|
    ensures at <= v.1 <= |p| && |v.0| < MAX_PATHLEN
  {
    var from := PastSpaces(p, at);
    var end := CopyEnd(p, from, WORD_END, MAX_PATHLEN - 1);
    (p[from..end], end)
  }

  /** The first Content-Type recorded sets both of the low flag bits and so shuts out later ones. */
  function Typed(s: Scan, value: seq<byte>): Scan {
    if s.flag == s.flag | 0x03 then s
    else Scan(s.info.(contentType := TypeOf(value)), s.flag | 0x03)
  }

  function TypeTurn(p: seq<byte>, at: nat, s: Scan): (t: Turn)
    requires Sized(s.info) && at <= |p|
    ensures t.Go? && at <= t.at && Sized(t.s.info)
  {
    var (value, end) := ValueAt(p, at);
    Go(end, Typed(s, value))
  }

  function LengthTurn(p: seq<byte>, at: nat, s: Scan): (t: Turn)
    requires Sized(s.info) && at <= |p|
    ensures t.Go? && at <= t.at && Sized(t.s.info)
  {
    var (value, end) := ValueAt(p, at);
    Go(end, s.(info := s.info.(contentLen := Atoi(value))))
  }

  function ContentTurn(p: seq<byte>, len: nat, i: nat, s: Scan): (t: Turn)
    requires Padded(p, len) && Sized(s.info) && i < len
    ensures t.Go? && i <= t.at && Sized(t.s.info)
  {
    var at := i + 12;
    if i + 13 >= len then Go(i, s)
    else if p[at] == COLON then
      TypeTurn(p, at + 1, s)
    else if p[at] == 0x74 && p[at + 1] == 0x68 && p[at + 2] == COLON then
      LengthTurn(p, at + 3, s)
    else Go(at, s)
  }

  function HostTurn(p: seq<byte>, len: nat, i: nat, s: Scan): (t: Turn)
    requires Padded(p, len) && Sized(s.info) && i < len
    ensures t.Go? && i <= t.at && Sized(t.s.info)
  {
    if i + 9 >= len then Go(i, s) else HostText(p, PastSpaces(p, i + 5), s)
  }

  function HostText(p: seq<byte>, from: nat, s: Scan): (t: Turn)
    requires Sized(s.info) && from <= |p|
    ensures t.Go? && from <= t.at && Sized(t.s.info)
  {
    var end := CopyEnd(p, from, LINE_END, MAX_HOSTLEN - 1);
    var hlen := if from < end then end - from else s.info.hlen;
    var info := s.info.(host := Terminated(s.info.host, p[from..end]), hlen := hlen);
    Go(end, Scan(info, s.flag | 0x02))
  }

  function ReferTurn(p: seq<byte>, len: nat, i: nat, s: Scan): (t: Turn)
    requires Padded(p, len) && Sized(s.info) && i < len
    ensures t.Go? ==> i <= t.at && Sized(t.s.info)
  {
    if i + 20 >= len then Go(i, s)
    else
      var at := PastSpaces(p, i + 8);
      assert p[len] == NUL && at <= len;
      RefererTurn(p, len, at, s)
  }

  function RefererTurn(p: seq<byte>, len: nat, at: nat, s: Scan): (t: Turn)
    requires Padded(p, len) && Sized(s.info) && at <= len
    ensures t.Go? ==> at <= t.at && Sized(t.s.info)
  {
    if p[at + 4] == COLON then RefererHost(p, at + 7, s)
    else if p[at + 5] == COLON then RefererHost(p, at + 8, s)
    else Reject
  }

  function RefererHost(p: seq<byte>, from: nat, s: Scan): (t: Turn)
    requires Sized(s.info) && from <= |p|
    ensures t.Go? && from <= t.at && Sized(t.s.info)
  {
    var end := CopyEnd(p, from, HOST_END, MAX_HOSTLEN - 1);
    var rlen := if from < end then end - from else s.info.rlen;
    var info := s.info.(refer := Terminated(s.info.refer, p[from..end]), rlen := rlen);
    Go(end, Scan(info, s.flag | 0x04))
  }

  function AgentTurn(p: seq<byte>, len: nat, i: nat, s: Scan): (t: Turn)
    requires Padded(p, len) && Sized(s.info) && i < len
    ensures t.Go? && i <= t.at && Sized(t.s.info)
  {
    if s.flag == s.flag | 0x08 || i + 12 >= len then Go(i, s) else AgentText(p, PastSpaces(p, i + 11), s)
  }

  function AgentText(p: seq<byte>, from: nat, s: Scan): (t: Turn)
    requires Sized(s.info) && from <= |p|
    ensures t.Go? && from <= t.at && Sized(t.s.info)
  {
    var end := CopyEnd(p, from, LINE_END, MAX_UALEN - 1);
    Go(end, s.(info := s.info.(ua := Splice(s.info.ua, 0, p[from..end]))))
  }

  function TurnAt(p: seq<byte>, len: nat, i: nat, s: Scan): (t: Turn)
    requires Padded(p, len) && Sized(s.info) && i < len
    ensures t.Go? ==> i <= t.at && Sized(t.s.info)
  {
    if Is4(p, i, GET) then GetTurn(p, len, i, s)
    else if Is4(p, i, POST) then PostTurn(p, len, i, s)
    else if Is4(p, i, CONT) then ContentTurn(p, len, i, s)
    else if Is4(p, i, HOST) then HostTurn(p, len, i, s)
    else if Is4(p, i, REFE) then ReferTurn(p, len, i, s)
    else if Is4(p, i, USER) then AgentTurn(p, len, i, s)
    else Go(i, s)
  }

  function ParseFrom(p: seq<byte>, len: nat, i: nat, s: Scan): (r: Outcome)
    requires Padded(p, len) && Sized(s.info)
    ensures Sized(r.s.info)
    decreases len - i
  {
    if i >= len then Outcome(true, s)
    else
      match TurnAt(p, len, i, s)
      case Reject => Outcome(false, s)
      case Go(at, s') => ParseFrom(p, len, at + 1, s')
  }

  function Parse(p: seq<byte>, len: nat, info: Info): (r: Outcome)
    requires Padded(p, len) && Sized(info)
    ensures Sized(r.s.info)
  {
    if len == 0 then Outcome(false, Scan(info, 0)) else ParseFrom(p, len, 0, Scan(info, 0))
  }

  function Zeros(n: nat): seq<byte> {
    seq(n, _ => NUL)
  }

  /** A zero-initialised `URLInfo`. */
  const NO_INFO: Info :=
    Info(Zeros(MAX_HOSTLEN), 0, Zeros(MAX_PATHLEN), 0, Zeros(MAX_HOSTLEN), 0, Zeros(MAX_UALEN), TYPE_UNKNOWN, 0)

  // ---- the code ----

  /** `URLInfo`: fixed-size arrays and the lengths recorded for them. */
  class UrlInfo {
    const host: array<byte>
    const path: array<byte>
    const refer: array<byte>
    const ua: array<byte>
    var hlen: nat
    var plen: nat
    var rlen: nat
    var contentType: nat
    var contentLen: int

    constructor ()
      ensures Valid() && fresh(host) && fresh(path) && fresh(refer) && fresh(ua)
      ensures View() == NO_INFO
    {
      host := new byte[MAX_HOSTLEN](_ => NUL);
      path := new byte[MAX_PATHLEN](_ => NUL);
      refer := new byte[MAX_HOSTLEN](_ => NUL);
      ua := new byte[MAX_UALEN](_ => NUL);
      hlen, plen, rlen, contentType, contentLen := 0, 0, 0, TYPE_UNKNOWN, 0;
    }

    ghost predicate Valid()
      reads this, path
    {
      host.Length == MAX_HOSTLEN && path.Length == MAX_PATHLEN && refer.Length == MAX_HOSTLEN && ua.Length == MAX_UALEN
      && host != path && host != refer && host != ua && path != refer && path != ua && refer != ua
      && path[MAX_PATHLEN - 1] == NUL
      && hlen < MAX_HOSTLEN && plen < MAX_PATHLEN && rlen < MAX_HOSTLEN
    }

    ghost function View(): (v: Info)
      reads this, host, path, refer, ua
    {
      Info(host[..], hlen, path[..], plen, refer[..], rlen, ua[..], contentType, contentLen)
    }
  }

  method SkipSpaces(p: seq<byte>, len: nat, i: nat) returns (r: nat)
    requires Padded(p, len) && i < len + 6
    ensures r == PastSpaces(p, i) && r < len + 6 && (i <= len ==> r <= len)
  {
    assert p[len] == NUL && p[len + 5] == NUL;
    r := i;
    while p[r] == SPACE
      invariant i <= r < len + 6 && PastSpaces(p, i) == PastSpaces(p, r)
      decreases len - r
    {
      r := r + 1;
    }
  }

  /** The inner loops that copy a field; `j` counts the bytes written. */
  method CopyField(p: seq<byte>, len: nat, i: nat, stops: set<byte>, dst: array<byte>) returns (end: nat, j: nat)
    requires Padded(p, len) && i < len + 6 && NUL in stops && 0 < dst.Length
    modifies dst
    ensures end == CopyEnd(p, i, stops, dst.Length - 1) && end < len + 6 && (i <= len ==> end <= len)
    ensures j == end - i < dst.Length && dst[..] == Splice(old(dst[..]), 0, p[i..end])
  {
    assert p[len] == NUL && p[len + 5] == NUL;
    end, j := i, 0;
    while p[end] !in stops && j < dst.Length - 1
      invariant i <= end < len + 6 && j == end - i <= dst.Length - 1
      invariant CopyEnd(p, i, stops, dst.Length - 1) == CopyEnd(p, end, stops, dst.Length - 1 - j)
      invariant forall k | 0 <= k < j :: dst[k] == p[i + k]
      invariant forall k | j <= k < dst.Length :: dst[k] == old(dst[k])
      decreases dst.Length - j
    {
      dst[j] := p[end];
      j, end := j + 1, end + 1;
    }
  }

  /** Copying followed by the terminator, which an empty field does not get. */
  method CopyText(p: seq<byte>, len: nat, i: nat, stops: set<byte>, dst: array<byte>) returns (end: nat, j: nat)
    requires Padded(p, len) && i < len + 6 && NUL in stops && 0 < dst.Length
    modifies dst
    ensures end == CopyEnd(p, i, stops, dst.Length - 1) && end < len + 6 && (i <= len ==> end <= len)
    ensures j == end - i < dst.Length && dst[..] == Terminated(old(dst[..]), p[i..end])
  {
    hide CopyEnd;
    end, j := CopyField(p, len, i, stops, dst);
    if j > 0 {
      dst[j] := NUL;
    }
  }

  method ParseHttp(p: seq<byte>, len: nat, info: UrlInfo) returns (ok: bool)
    requires Padded(p, len) && info.Valid()
    modifies info, info.host, info.path, info.refer, info.ua
    ensures info.Valid() && Sized(info.View()) && info.plen <= 255 && info.hlen <= 59 && info.rlen <= 59
    ensures ok == Parse(p, len, old(info.View())).ok
    ensures info.View() == Parse(p, len, old(info.View())).s.info
  {
    if len == 0 {
      return false;
    }
    var flag: bv8 := 0;
    var i := 0;
    while i < len
      invariant info.Valid() && Sized(info.View())
      invariant Parse(p, len, old(info.View())) == ParseFrom(p, len, i, Scan(info.View(), flag))
      decreases len - i
    {
      var go;
      go, i, flag := OnWord(p, len, i, info, flag);
      if !go {
        return false;
      }
      i := i + 1;
    }
    return true;
  }

  /** The `switch` on the word at `i`. */
  method OnWord(p: seq<byte>, len: nat, i: nat, info: UrlInfo, flag: bv8) returns (go: bool, at: nat, flag': bv8)
    requires Padded(p, len) && info.Valid() && Sized(info.View()) && i < len
    modifies info, info.host, info.path, info.refer, info.ua
    ensures info.Valid() && (!go ==> info.View() == old(info.View()))
    ensures TurnAt(p, len, i, Scan(old(info.View()), flag)) == if go then Go(at, Scan(info.View(), flag')) else Reject
  {
    FieldMatches(p, i, GET);
    FieldMatches(p, i, POST);
    FieldMatches(p, i, CONT);
    FieldMatches(p, i, HOST);
    FieldMatches(p, i, REFE);
    FieldMatches(p, i, USER);
    go, at, flag' := true, i, flag;
    match Field(p, i) {
      case 0x47455420 => go, at, flag' := OnGet(p, len, i, info, flag);
      case 0x504F5354 => go, at := OnPost(p, len, i, info, flag);
      case 0x436F6E74 => at, flag' := OnContent(p, len, i, info, flag);
      case 0x486F7374 => at, flag' := OnHost(p, len, i, info, flag);
      case 0x52656665 => go, at, flag' := OnRefer(p, len, i, info, flag);
      case 0x55736572 => at := OnAgent(p, len, i, info, flag);
      case _ =>
    }
  }

  method OnTarget(p: seq<byte>, len: nat, from: nat, info: UrlInfo, ghost flag: bv8) returns (go: bool, at: nat)
    requires Padded(p, len) && info.Valid() && Sized(info.View()) && from + 1 < len
    modifies info, info.path
    ensures info.Valid() && (!go ==> info.View() == old(info.View()))
    ensures TargetTurn(p, len, from, Scan(old(info.View()), flag))
         == if go then Go(at, Scan(info.View(), flag)) else Reject
  {
    if IsProxy(p, from) || p[from] != SLASH {
      return false, from;
    }
    ghost var before := info.View();
    var j;
    at, j := CopyText(p, len, from + 1, WORD_END, info.path);
    if j > 0 {
      info.plen := j;
    }
    assert info.View()
        == before.(path := Terminated(before.path, p[from + 1..at]), plen := if j > 0 then j else before.plen);
    go := true;
  }

  method OnGet(p: seq<byte>, len: nat, i: nat, info: UrlInfo, flag: bv8) returns (go: bool, at: nat, flag': bv8)
    requires Padded(p, len) && info.Valid() && Sized(info.View()) && i < len
    modifies info, info.path
    ensures info.Valid() && (!go ==> info.View() == old(info.View()))
    ensures GetTurn(p, len, i, Scan(old(info.View()), flag)) == if go then Go(at, Scan(info.View(), flag')) else Reject
  {
    go, at, flag' := true, i, flag;
    if i + 5 < len {
      go, at := OnTarget(p, len, i + 4, info, flag);
      if go {
        if HasQuery(info.path[..]) {
          at := at + 1;
        }
        flag' := flag | 0x01;
      }
    }
  }

  method OnPost(p: seq<byte>, len: nat, i: nat, info: UrlInfo, ghost flag: bv8) returns (go: bool, at: nat)
    requires Padded(p, len) && info.Valid() && Sized(info.View()) && i < len
    modifies info, info.path
    ensures info.Valid() && (!go ==> info.View() == old(info.View()))
    ensures PostTurn(p, len, i, Scan(old(info.View()), flag)) == if go then Go(at, Scan(info.View(), flag)) else Reject
  {
    go, at := true, i;
    if i + 6 < len {
      go, at := OnTarget(p, len, i + 5, info, flag);
    }
  }

  /** Skipping the spaces and copying the word into the zeroed buffer. */
  method CopyValue(p: seq<byte>, len: nat, at: nat) returns (buffer: array<byte>, j: nat, end: nat)
    requires Padded(p, len) && at < len + 6
    ensures fresh(buffer) && j < buffer.Length == MAX_PATHLEN
    ensures (buffer[..j], end) == ValueAt(p, at)
    ensures forall k | j <= k < MAX_PATHLEN :: buffer[k] == NUL
  {
    buffer := new byte[MAX_PATHLEN](_ => NUL);
    var from := SkipSpaces(p, len, at);
    end, j := CopyField(p, len, from, WORD_END, buffer);
    assert buffer[..j] == p[from..end];
  }

  /** Comparing the first word of the zero-padded buffer finds the type of the value. */
  method ClassifyType(buffer: array<byte>, ghost value: seq<byte>) returns (contentType: nat)
    requires |value| < buffer.Length == MAX_PATHLEN && buffer[..|value|] == value
    requires forall k | |value| <= k < MAX_PATHLEN :: buffer[k] == NUL
    ensures contentType == TypeOf(value)
  {
    var text := buffer[..];
    var prop := Field(text, 0);
    FieldMatches(text, 0, MULT);
    FieldMatches(text, 0, APPL);
    assert forall k | 0 <= k < |value| :: text[k] == value[k];
    match prop {
      case 0x6D756C74 => return TYPE_MULTIPART;
      case 0x6170706C => return TYPE_APPLICATION;
      case _ => return TYPE_UNKNOWN;
    }
  }

  method OnContent(p: seq<byte>, len: nat, i: nat, info: UrlInfo, flag: bv8) returns (at: nat, flag': bv8)
    requires Padded(p, len) && info.Valid() && Sized(info.View()) && i < len
    modifies info
    ensures info.Valid()
    ensures ContentTurn(p, len, i, Scan(old(info.View()), flag)) == Go(at, Scan(info.View(), flag'))
  {
    at, flag' := i, flag;
    if i + 13 >= len {
      return;
    }
    at := i + 12;
    var isType := false;
    if p[at] == COLON {
      at, isType := at + 1, true;
    } else if p[at] == 0x74 && p[at + 1] == 0x68 && p[at + 2] == COLON {
      at := at + 3;
    } else {
      return;
    }
    at, flag' := OnValue(p, len, at, info, flag, isType);
  }

  method OnValue(p: seq<byte>, len: nat, from: nat, info: UrlInfo, flag: bv8, isType: bool)
    returns (at: nat, flag': bv8)
    requires Padded(p, len) && info.Valid() && Sized(info.View()) && from < len + 6
    modifies info
    ensures info.Valid()
    ensures var s := Scan(old(info.View()), flag);
            (if isType then TypeTurn(p, from, s) else LengthTurn(p, from, s)) == Go(at, Scan(info.View(), flag'))
  {
    flag' := flag;
    var buffer, j;
    buffer, j, at := CopyValue(p, len, from);
    if isType {
      if flag != flag | 0x03 {
        info.contentType := ClassifyType(buffer, buffer[..j]);
        flag' := flag | 0x03;
      }
    } else {
      info.contentLen := Atoi(buffer[..j]);
    }
  }

  method OnHost(p: seq<byte>, len: nat, i: nat, info: UrlInfo, flag: bv8) returns (at: nat, flag': bv8)
    requires Padded(p, len) && info.Valid() && Sized(info.View()) && i < len
    modifies info, info.host
    ensures info.Valid()
    ensures HostTurn(p, len, i, Scan(old(info.View()), flag)) == Go(at, Scan(info.View(), flag'))
  {
    at, flag' := i, flag;
    if i + 9 < len {
      at := SkipSpaces(p, len, i + 5);
      at, flag' := OnHostText(p, len, at, info, flag);
    }
  }

  method OnHostText(p: seq<byte>, len: nat, from: nat, info: UrlInfo, flag: bv8) returns (at: nat, flag': bv8)
    requires Padded(p, len) && info.Valid() && Sized(info.View()) && from < len + 6
    modifies info, info.host
    ensures info.Valid()
    ensures HostText(p, from, Scan(old(info.View()), flag)) == Go(at, Scan(info.View(), flag'))
  {
    ghost var before := info.View();
    var j;
    at, j := CopyText(p, len, from, LINE_END, info.host);
    if j > 0 {
      info.hlen := j;
    }
    assert info.View()
        == before.(host := Terminated(before.host, p[from..at]), hlen := if j > 0 then j else before.hlen);
    flag' := flag | 0x02;
  }

  method OnRefer(p: seq<byte>, len: nat, i: nat, info: UrlInfo, flag: bv8) returns (go: bool, at: nat, flag': bv8)
    requires Padded(p, len) && info.Valid() && Sized(info.View()) && i < len
    modifies info, info.refer
    ensures info.Valid() && (!go ==> info.View() == old(info.View()))
    ensures ReferTurn(p, len, i, Scan(old(info.View()), flag))
         == if go then Go(at, Scan(info.View(), flag')) else Reject
  {
    go, at, flag' := true, i, flag;
    if i + 20 < len {
      at := SkipSpaces(p, len, i + 8);
      go, at, flag' := OnReferer(p, len, at, info, flag);
    }
  }

  method OnReferer(p: seq<byte>, len: nat, from: nat, info: UrlInfo, flag: bv8) returns (go: bool, at: nat, flag': bv8)
    requires Padded(p, len) && info.Valid() && Sized(info.View()) && from <= len
    modifies info, info.refer
    ensures info.Valid() && (!go ==> info.View() == old(info.View()))
    ensures RefererTurn(p, len, from, Scan(old(info.View()), flag))
         == if go then Go(at, Scan(info.View(), flag')) else Reject
  {
    if p[from + 4] == COLON {
      at, flag' := OnRefererHost(p, len, from + 7, info, flag);
    } else if p[from + 5] == COLON {
      at, flag' := OnRefererHost(p, len, from + 8, info, flag);
    } else {
      return false, from, flag;
    }
    go := true;
  }

  method OnRefererHost(p: seq<byte>, len: nat, from: nat, info: UrlInfo, flag: bv8) returns (at: nat, flag': bv8)
    requires Padded(p, len) && info.Valid() && Sized(info.View()) && from < len + 6
    modifies info, info.refer
    ensures info.Valid()
    ensures RefererHost(p, from, Scan(old(info.View()), flag)) == Go(at, Scan(info.View(), flag'))
  {
    ghost var before := info.View();
    var j;
    at, j := CopyText(p, len, from, HOST_END, info.refer);
    if j > 0 {
      info.rlen := j;
    }
    assert info.View()
        == before.(refer := Terminated(before.refer, p[from..at]), rlen := if j > 0 then j else before.rlen);
    flag' := flag | 0x04;
  }

  method OnAgent(p: seq<byte>, len: nat, i: nat, info: UrlInfo, flag: bv8) returns (at: nat)
    requires Padded(p, len) && info.Valid() && Sized(info.View()) && i < len
    modifies info.ua
    ensures info.Valid()
    ensures AgentTurn(p, len, i, Scan(old(info.View()), flag)) == Go(at, Scan(info.View(), flag))
  {
    at := i;
    if flag == flag | 0x08 {
      return;
    }
    if i + 12 >= len {
      return;
    }
    at := SkipSpaces(p, len, i + 11);
    var j;
    at, j := CopyField(p, len, at, LINE_END, info.ua);
  }
}
