/** Which bytes of a completed buffer are sent on: the payload of a multipart body. */
module Multipart {
  import opened Bytes

  datatype Range = Range(start: nat, len: nat)

  /** What `RecvFinished` selects from the first `len` bytes of `p`. The three bytes after them
      are read too, because a word is loaded at every position. */
  function Selected(p: seq<byte>, len: nat): (r: Option<Range>)
    requires len + 3 <= |p|
    ensures r.Some? ==> r.value.start + r.value.len <= len
  {
    var start := LastAt(p, len, CRLFCRLF);
    var end := LastAt(p, len, CRLFDASH);
    var last := LastAt(p, len, DASHCRLF);
    if start + 4 < len && end > 0 then
      if end < start + 4 then
        if last + 4 >= len then None else Some(Range(last + 4, len - (last + 4)))
      else Some(Range(start + 4, end - (start + 4)))
    else None
  }

  function Sent(p: seq<byte>, len: nat): Option<seq<byte>>
    requires len + 3 <= |p|
  {
    match Selected(p, len)
    case Some(r) => Some(p[r.start..r.start + r.len])
    case None => None
  }

  /** For any bytes. With the last blank line at `s`, the last delimiter at `e` and the last end of a
      delimiter at `l` (each 0 if there is none behind the first place): nothing is sent without a
      delimiter, or without a byte behind the blank line; what lies between them if they are in order;
      else what comes behind the last end of a delimiter, if anything does. */
  lemma SentExactly(p: seq<byte>, len: nat, s: nat, e: nat, l: nat)
    requires len + 3 <= |p| && StandsLast(p, len, [0x0D, 0x0A, 0x0D, 0x0A], s)
    requires StandsLast(p, len, [0x0D, 0x0A, 0x2D, 0x2D], e) && StandsLast(p, len, [0x2D, 0x2D, 0x0D, 0x0A], l)
    ensures Sent(p, len) == if len <= s + 4 || e == 0 then None
                            else if s + 4 <= e then Some(p[s + 4..e])
                            else if len <= l + 4 then None
                            else Some(p[l + 4..len])
  {
    LastIsLast(p, len, [0x0D, 0x0A, 0x0D, 0x0A], s);
    LastIsLast(p, len, [0x0D, 0x0A, 0x2D, 0x2D], e);
    LastIsLast(p, len, [0x2D, 0x2D, 0x0D, 0x0A], l);
    hide StandsLast, LastAt;
  }

  /** `m` begins at no position from `from` up to `to`. */
  ghost predicate Absent(p: seq<byte>, m: seq<byte>, from: nat, to: nat)
    requires |m| == 4
  {
    forall i: nat | from <= i < to :: !Is4(p, i, m)
  }

  /** Exactly when the range sent is that of the payload. */
  lemma SelectsPayload(p: seq<byte>, len: nat, before: seq<byte>, payload: seq<byte>, tail: seq<byte>)
    requires len + 3 <= |p| && p[..len] == before + CRLFCRLF + payload + CRLFDASH + tail
    ensures p[|before| + 4..|before| + 4 + |payload|] == payload
    ensures Selected(p, len) == Some(Range(|before| + 4, |payload|))
       <==> Absent(p, CRLFCRLF, |before| + 1, len) && Absent(p, CRLFDASH, |before| + 4 + |payload| + 1, len)
  {
    var s0, e0 := |before|, |before| + 4 + |payload|;
    MarkersStand(p, len, before, payload, tail);
    var start, end := LastAt(p, len, CRLFCRLF), LastAt(p, len, CRLFDASH);
    assert s0 <= start && e0 <= end;
    assert start == s0 <==> Absent(p, CRLFCRLF, s0 + 1, len);
    assert end == e0 <==> Absent(p, CRLFDASH, e0 + 1, len);
  }

  lemma MarkersStand(p: seq<byte>, len: nat, before: seq<byte>, payload: seq<byte>, tail: seq<byte>)
    requires len + 3 <= |p| && p[..len] == before + CRLFCRLF + payload + CRLFDASH + tail
    ensures Is4(p, |before|, CRLFCRLF) && Is4(p, |before| + 4 + |payload|, CRLFDASH)
    ensures p[|before| + 4..|before| + 4 + |payload|] == payload
    ensures len == |before| + 4 + |payload| + 4 + |tail|
  {
    var q := p[..len];
    assert forall k | 0 <= k < len :: p[k] == q[k];
    assert q[|before| + 4..|before| + 4 + |payload|] == payload;
  }

  /** When the markers lie as they should among the first `len` bytes, the payload is sent if and
      only if no marker reaches over into the three bytes behind them. */
  lemma SendsPayloadUnlessStraddled(p: seq<byte>, len: nat, before: seq<byte>, payload: seq<byte>, tail: seq<byte>)
    requires len + 3 <= |p| && p[..len] == before + CRLFCRLF + payload + CRLFDASH + tail
    requires forall i: nat | |before| < i && i + 4 <= len :: !Is4(p, i, CRLFCRLF)
    requires forall i: nat | |before| + 4 + |payload| < i && i + 4 <= len :: !Is4(p, i, CRLFDASH)
    ensures Sent(p, len) == Some(payload)
       <==> Absent(p, CRLFCRLF, len - 3, len) && Absent(p, CRLFDASH, len - 3, len)
  {
    SelectsPayload(p, len, before, payload, tail);
    MarkersStand(p, len, before, payload, tail);
    var start, end := LastAt(p, len, CRLFCRLF), LastAt(p, len, CRLFDASH);
    if Absent(p, CRLFCRLF, len - 3, len) && !Absent(p, CRLFDASH, len - 3, len) {
      assert start == |before| && len - 3 <= end;
      assert Selected(p, len) == Some(Range(|before| + 4, end - (|before| + 4)));
    }
  }

  /** The header came after the body: what follows the last `--\r\n` is sent. */
  lemma SendsTailOutOfOrder(p: seq<byte>, len: nat, before: seq<byte>, rest: seq<byte>, blank: nat, end: nat)
    requires len + 3 <= |p| && p[..len] == before + DASHCRLF + rest && rest != []
    requires Absent(p, DASHCRLF, |before| + 1, len)
    requires 0 < end < blank + 4 < len
    requires Is4(p, blank, CRLFCRLF) && Absent(p, CRLFCRLF, blank + 1, len)
    requires Is4(p, end, CRLFDASH) && Absent(p, CRLFDASH, end + 1, len)
    ensures Sent(p, len) == Some(rest)
  {
    var q := p[..len];
    assert forall k | 0 <= k < len :: p[k] == q[k];
    assert Is4(p, |before|, DASHCRLF);
    assert q[|before| + 4..] == rest;
  }

  // ---- multipart/form-data bodies (RFC 7578, section 4; RFC 2046, section 5.1.1) ----

  const DASHES: seq<byte> := [0x2D, 0x2D]

  /** `headers` holds the header lines of the part without the final line break. */
  datatype Part = Part(headers: seq<byte>, content: seq<byte>)

  function PrintParts(boundary: seq<byte>, parts: seq<Part>): seq<byte> {
    if parts == [] then []
    else
      var part := parts[|parts| - 1];
      PrintParts(boundary, parts[..|parts| - 1]) + OpenPart(boundary, part) + part.content + CRLF
  }

  function OpenPart(boundary: seq<byte>, part: Part): seq<byte> {
    DASHES + boundary + CRLF + part.headers + CRLFCRLF
  }

  /** `ending` is what follows the closing delimiter. */
  function PrintBody(boundary: seq<byte>, parts: seq<Part>, ending: seq<byte>): seq<byte> {
    PrintParts(boundary, parts) + DASHES + boundary + DASHES + ending
  }

  /** Between the blank line and the delimiter there is no other blank line. */
  ghost predicate OneBlankLine(content: seq<byte>) {
    Absent(CRLFCRLF + content + CRLFDASH, CRLFCRLF, 1, |content| + 5)
  }

  predicate CanStraddle(next: seq<byte>) {
    CRLF <= next || DASHES <= next
  }

  /** For every well-formed body: the content of the last part is sent if and only if it brings in no
      further blank line and the bytes left in the node behind the body do not complete a marker begun
      by its final line break. */
  lemma SendsLastPart(p: seq<byte>, len: nat, boundary: seq<byte>, parts: seq<Part>, ending: seq<byte>)
    requires len + 3 <= |p| && p[..len] == PrintBody(boundary, parts, ending)
    requires parts != [] && 0x0D !in boundary && (ending == [] || ending == CRLF)
    ensures Sent(p, len) == Some(parts[|parts| - 1].content)
       <==> OneBlankLine(parts[|parts| - 1].content) && (ending == [] || !CanStraddle(p[len..len + 3]))
  {
    hide Sent, OneBlankLine, Absent, CanStraddle, PrintParts, Opening;
    var content := parts[|parts| - 1].content;
    var opening := Opening(boundary, parts);
    BodyShape(boundary, parts, ending);
    if OneBlankLine(content) {
      BodyMarkers(p, len, opening, content, boundary, ending);
      SendsPayloadUnlessStraddled(p, len, opening, content, boundary + DASHES + ending);
    } else {
      SecondBlankLine(p, len, opening, content, boundary, ending);
    }
  }

  /** Everything up to the last blank line. */
  function Opening(boundary: seq<byte>, parts: seq<Part>): seq<byte>
    requires parts != []
  {
    PrintParts(boundary, parts[..|parts| - 1]) + DASHES + boundary + CRLF + parts[|parts| - 1].headers
  }

  lemma BodyShape(boundary: seq<byte>, parts: seq<Part>, ending: seq<byte>)
    requires parts != []
    ensures PrintBody(boundary, parts, ending)
         == Opening(boundary, parts) + CRLFCRLF + parts[|parts| - 1].content + CRLFDASH + (boundary + DASHES + ending)
  {
    assert CRLF + DASHES == CRLFDASH;
  }

  lemma BodyMarkers(p: seq<byte>, len: nat, opening: seq<byte>, content: seq<byte>, boundary: seq<byte>,
                    ending: seq<byte>)
    requires len + 3 <= |p| && p[..len] == opening + CRLFCRLF + content + CRLFDASH + (boundary + DASHES + ending)
    requires OneBlankLine(content)
    requires 0x0D !in boundary && (ending == [] || ending == CRLF)
    ensures forall i: nat | |opening| < i && i + 4 <= len :: !Is4(p, i, CRLFCRLF)
    ensures forall i: nat | |opening| + 4 + |content| < i && i + 4 <= len :: !Is4(p, i, CRLFDASH)
    ensures Absent(p, CRLFCRLF, len - 3, len) && Absent(p, CRLFDASH, len - 3, len)
       <==> ending == [] || !CanStraddle(p[len..len + 3])
  {
    var q := p[..len];
    assert forall k | 0 <= k < len :: p[k] == q[k];
    var e0 := |opening| + 4 + |content|;
    var region := CRLFCRLF + content + CRLFDASH;
    assert forall k | 0 <= k < |region| :: p[|opening| + k] == region[k];
    forall i: nat | |opening| < i <= e0
      ensures !Is4(p, i, CRLFCRLF)
    {
      assert !Is4(region, i - |opening|, CRLFCRLF);
    }
    var text := boundary + DASHES;
    assert forall k | 0 <= k < |text| :: p[e0 + 4 + k] == text[k] && text[k] != 0x0D;
    assert forall i: nat | e0 < i < len - 2 :: p[i] != 0x0D;
    if ending == CRLF {
      assert p[len - 2] == 0x0D && p[len - 1] == 0x0A;
      var look := p[len..len + 3];
      assert look[0] == p[len] && look[1] == p[len + 1];
      assert CRLF <= look <==> look[..2] == CRLF;
      assert DASHES <= look <==> look[..2] == DASHES;
      assert Is4(p, len - 2, CRLFCRLF) <==> CRLF <= p[len..len + 3];
      assert Is4(p, len - 2, CRLFDASH) <==> DASHES <= p[len..len + 3];
    } else {
      assert p[len - 2] == p[len - 1] == 0x2D;
    }
  }

  /** A content with a blank line in it: what comes behind its last one is sent instead of the whole,
      if and only if the leftover bytes do not complete a marker. */
  lemma SendsBehindBlankLine(p: seq<byte>, len: nat, boundary: seq<byte>, parts: seq<Part>, ending: seq<byte>,
                             upper: seq<byte>, lower: seq<byte>)
    requires len + 3 <= |p| && p[..len] == PrintBody(boundary, parts, ending)
    requires parts != [] && 0x0D !in boundary && (ending == [] || ending == CRLF)
    requires parts[|parts| - 1].content == upper + CRLFCRLF + lower && OneBlankLine(lower)
    ensures Sent(p, len) == Some(lower) <==> ending == [] || !CanStraddle(p[len..len + 3])
  {
    hide Sent, OneBlankLine, Absent, CanStraddle, PrintParts, Opening;
    var opening, tail := Opening(boundary, parts), boundary + DASHES + ending;
    BodyShape(boundary, parts, ending);
    assert opening + CRLFCRLF + (upper + CRLFCRLF + lower) + CRLFDASH + tail
        == (opening + CRLFCRLF + upper) + CRLFCRLF + lower + CRLFDASH + tail;
    BodyMarkers(p, len, opening + CRLFCRLF + upper, lower, boundary, ending);
    SendsPayloadUnlessStraddled(p, len, opening + CRLFCRLF + upper, lower, tail);
  }

  /** A content that ends in a line break, in a body that does too: the line break and the delimiter make
      a blank line behind the content. Nothing is sent, or, with two dashes left behind the body, its closing
      delimiter. */
  lemma SendsNothingAfterBreak(p: seq<byte>, len: nat, boundary: seq<byte>, parts: seq<Part>, text: seq<byte>)
    requires len + 3 <= |p| && p[..len] == PrintBody(boundary, parts, CRLF)
    requires parts != [] && 0x0D !in boundary && parts[|parts| - 1].content == text + CRLF
    ensures Sent(p, len)
         == if p[len] == 0x2D && p[len + 1] == 0x2D then Some([0x2D, 0x2D] + boundary + [0x2D, 0x2D]) else None
  {
    hide Sent, PrintParts, Opening, Shaped;
    var opening := Opening(boundary, parts);
    var s0, e0 := |opening|, |opening| + 4 + |text| + 2;
    BodyShape(boundary, parts, CRLF);
    BodyIsShaped(p, len, opening, text + CRLF, boundary, CRLF);
    BreakBeforeDelimiter(p, opening, text, boundary + DASHES + CRLF, len);
    NothingAfterBreak(p, len, s0, e0);
    ClosingDelimiter(p, len, opening, text, boundary);
  }

  lemma BreakBeforeDelimiter(p: seq<byte>, opening: seq<byte>, text: seq<byte>, tail: seq<byte>, len: nat)
    requires len <= |p| && p[..len] == opening + CRLFCRLF + (text + CRLF) + CRLFDASH + tail
    ensures var e0 := |opening| + 4 + |text| + 2; e0 + 4 <= len && p[e0 - 2] == 0x0D && p[e0 - 1] == 0x0A
  {
    var q, e0 := p[..len], |opening| + 4 + |text| + 2;
    assert q[e0 - 2] == 0x0D && q[e0 - 1] == 0x0A;
  }

  lemma ClosingDelimiter(p: seq<byte>, len: nat, opening: seq<byte>, text: seq<byte>, boundary: seq<byte>)
    requires len <= |p| && p[..len] == opening + CRLFCRLF + (text + CRLF) + CRLFDASH + (boundary + DASHES + CRLF)
    ensures var e0 := |opening| + 4 + |text| + 2;
            len == e0 + 4 + |boundary| + 4 && p[e0 + 2..len - 2] == [0x2D, 0x2D] + boundary + [0x2D, 0x2D]
  {
    var q, e0 := p[..len], |opening| + 4 + |text| + 2;
    assert q[e0 + 2..len - 2] == [0x2D, 0x2D] + boundary + [0x2D, 0x2D];
  }

  lemma NothingAfterBreak(p: seq<byte>, len: nat, s0: nat, e0: nat)
    requires Shaped(p, len, s0, e0, CRLF) && s0 + 6 <= e0 && p[e0 - 2] == 0x0D && p[e0 - 1] == 0x0A
    ensures Sent(p, len) == if p[len] == 0x2D && p[len + 1] == 0x2D then Some(p[e0 + 2..len - 2]) else None
  {
    assert Is4(p, e0 - 2, CRLFCRLF);
    WhereMarkersLie(p, len, s0, e0, CRLF, e0 - 2);
    assert Is4(p, len - 4, DASHCRLF);
    assert Is4(p, len - 2, CRLFDASH) <==> p[len] == 0x2D && p[len + 1] == 0x2D;
    assert Is4(p, len - 2, CRLFCRLF) <==> p[len] == 0x0D && p[len + 1] == 0x0A;
  }

  /** The same in a body that ends in its closing delimiter: what comes behind the last `--` with a line break
      is sent, or, if there is none, everything from the fifth byte of the body on. */
  lemma SendsTailAfterBreak(p: seq<byte>, len: nat, boundary: seq<byte>, parts: seq<Part>, text: seq<byte>, l: nat)
    requires len + 3 <= |p| && p[..len] == PrintBody(boundary, parts, [])
    requires parts != [] && 0x0D !in boundary && parts[|parts| - 1].content == text + CRLF
    requires StandsLast(p, len, [0x2D, 0x2D, 0x0D, 0x0A], l)
    ensures Sent(p, len) == if len <= l + 4 then None else Some(p[l + 4..len])
  {
    hide Sent, PrintParts, Opening, Shaped, StandsLast;
    var opening := Opening(boundary, parts);
    BodyShape(boundary, parts, []);
    BodyIsShaped(p, len, opening, text + CRLF, boundary, []);
    BreakBeforeDelimiter(p, opening, text, boundary + DASHES + [], len);
    LastIsLast(p, len, [0x2D, 0x2D, 0x0D, 0x0A], l);
    TailAfterBreak(p, len, |opening|, |opening| + 4 + |text| + 2);
  }

  lemma TailAfterBreak(p: seq<byte>, len: nat, s0: nat, e0: nat)
    requires Shaped(p, len, s0, e0, []) && s0 + 6 <= e0 && p[e0 - 2] == 0x0D && p[e0 - 1] == 0x0A
    ensures var l := LastAt(p, len, DASHCRLF); Sent(p, len) == if len <= l + 4 then None else Some(p[l + 4..len])
  {
    assert Is4(p, e0 - 2, CRLFCRLF);
    WhereMarkersLie(p, len, s0, e0, [], e0 - 2);
    assert !Is4(p, len - 2, CRLFCRLF);
  }

  /** A body, its last blank line before the delimiter at `e0`, and its last one of all. */
  ghost predicate Shaped(p: seq<byte>, len: nat, s0: nat, e0: nat, ending: seq<byte>) {
    len + 3 <= |p| && s0 + 4 <= e0 && e0 + 6 + |ending| <= len && Is4(p, s0, CRLFCRLF) && Is4(p, e0, CRLFDASH) &&
    (forall i: nat | e0 < i < len - |ending| :: p[i] != 0x0D) && (ending == [] || ending == CRLF) &&
    Has2(p, len - |ending| - 2, DASHES) && (ending == CRLF ==> Has2(p, len - 2, CRLF))
  }

  predicate Has2(p: seq<byte>, i: nat, m: seq<byte>)
    requires |m| == 2
  {
    i + 2 <= |p| && p[i] == m[0] && p[i + 1] == m[1]
  }

  lemma BodyIsShaped(p: seq<byte>, len: nat, opening: seq<byte>, content: seq<byte>, boundary: seq<byte>,
                     ending: seq<byte>)
    requires len + 3 <= |p| && p[..len] == opening + CRLFCRLF + content + CRLFDASH + (boundary + DASHES + ending)
    requires 0x0D !in boundary && (ending == [] || ending == CRLF)
    ensures Shaped(p, len, |opening|, |opening| + 4 + |content|, ending)
    ensures p[|opening| + 4..|opening| + 4 + |content|] == content
  {
    MarkersStand(p, len, opening, content, boundary + DASHES + ending);
    var q, e0, text := p[..len], |opening| + 4 + |content|, boundary + DASHES + ending;
    assert forall k | 0 <= k < len :: p[k] == q[k];
    assert forall k | 0 <= k < |text| :: text[k] == q[e0 + 4 + k];
    assert forall i: nat | e0 < i < e0 + 4 + |boundary| :: p[i] != 0x0D by {
      assert forall k | 0 <= k < |boundary| :: boundary[k] == text[k];
      assert forall i: nat | e0 + 4 <= i < e0 + 4 + |boundary| :: p[i] == boundary[i - (e0 + 4)];
    }
  }

  lemma SecondBlankLine(p: seq<byte>, len: nat, opening: seq<byte>, content: seq<byte>, boundary: seq<byte>,
                        ending: seq<byte>)
    requires len + 3 <= |p| && p[..len] == opening + CRLFCRLF + content + CRLFDASH + (boundary + DASHES + ending)
    requires 0x0D !in boundary && (ending == [] || ending == CRLF) && !OneBlankLine(content)
    ensures Sent(p, len) != Some(content)
  {
    hide Sent, Shaped;
    BodyIsShaped(p, len, opening, content, boundary, ending);
    var region := CRLFCRLF + content + CRLFDASH;
    var q := p[..len];
    assert forall k | 0 <= k < len :: p[k] == q[k];
    assert forall k | 0 <= k < |region| :: region[k] == q[|opening| + k];
    var i: nat :| 1 <= i < |content| + 5 && Is4(region, i, CRLFCRLF);
    LaterBlankLine(p, len, |opening|, |opening| + 4 + |content|, ending, |opening| + i);
  }

  lemma WhereMarkersLie(p: seq<byte>, len: nat, s0: nat, e0: nat, ending: seq<byte>, blank: nat)
    requires Shaped(p, len, s0, e0, ending) && s0 < blank <= e0 && Is4(p, blank, CRLFCRLF)
    ensures var start := LastAt(p, len, CRLFCRLF);
            s0 < start && Is4(p, start, CRLFCRLF) && (start <= e0 - 2 || start == len - 2)
    ensures var end := LastAt(p, len, CRLFDASH); end == e0 || (ending == CRLF && end == len - 2)
  {
    assert p[e0] == 0x0D && p[e0 + 1] == 0x0A && p[e0 + 2] == 0x2D;
  }

  /** With a blank line between the one that opens the content and the delimiter, other bytes are sent, or none. */
  lemma LaterBlankLine(p: seq<byte>, len: nat, s0: nat, e0: nat, ending: seq<byte>, blank: nat)
    requires Shaped(p, len, s0, e0, ending) && s0 < blank <= e0 && Is4(p, blank, CRLFCRLF)
    ensures Sent(p, len) != Some(p[s0 + 4..e0])
  {
    var start, end, content := LastAt(p, len, CRLFCRLF), LastAt(p, len, CRLFDASH), p[s0 + 4..e0];
    WhereMarkersLie(p, len, s0, e0, ending, blank);
    if start <= e0 - 2 {
      if end < start + 4 {
        OutOfOrder(p, len, s0, e0, ending);
      } else if end == len - 2 {
        NoPeriod(p, len, s0, e0, ending, start);
      } else {
        assert |p[start + 4..end]| < |content|;
      }
    }
  }

  /** With a line break at the end of the content the code takes the header to have come last. */
  lemma OutOfOrder(p: seq<byte>, len: nat, s0: nat, e0: nat, ending: seq<byte>)
    requires Shaped(p, len, s0, e0, ending) && LastAt(p, len, CRLFDASH) == e0
    requires LastAt(p, len, CRLFCRLF) == e0 - 2 && s0 < e0 - 2
    ensures Sent(p, len) != Some(p[s0 + 4..e0])
  {
    var last, content := LastAt(p, len, DASHCRLF), p[s0 + 4..e0];
    if ending == CRLF {
      assert Is4(p, len - 4, DASHCRLF);
    } else if last + 4 < len && content != [] {
      assert Is4(p, e0 - 2, CRLFCRLF);
      assert content[|content| - 1] == p[e0 - 1] == 0x0A;
      assert p[last + 4..len][len - last - 5] == p[len - 1] == 0x2D;
    }
  }

  /** The bytes up to the end of the last delimiter do not repeat the content. */
  lemma NoPeriod(p: seq<byte>, len: nat, s0: nat, e0: nat, ending: seq<byte>, start: nat)
    requires Shaped(p, len, s0, e0, ending) && ending == CRLF && s0 < start <= e0 - 2
    requires start == LastAt(p, len, CRLFCRLF)
    ensures p[start + 4..len - 2] != p[s0 + 4..e0]
  {
    var shift := start - s0;
    if shift == len - 2 - e0 {
      var k := e0 - 1;
      if start + 3 < e0 {
        assert !Is4(p, start + shift, CRLFCRLF);
        var m :| 0 <= m < 4 && p[start + shift + m] != CRLFCRLF[m];
        k := start + m;
      }
      assert p[k] != p[k + shift];
      assert p[s0 + 4..e0][k - s0 - 4] != p[start + 4..len - 2][k - s0 - 4];
    }
  }
}
