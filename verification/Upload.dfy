/** An upload as a browser sends it, byte for byte, through parser, engine and extraction. */
module Upload {
  import opened Bytes
  import opened HttpParse
  import opened HttpCursor
  import opened HttpTurns
  import opened HttpPrint
  import opened Multipart
  import opened FlowEngine
  import opened FlowDelivery

  /** The header packet yields the beginning of the body that follows its header, exactly if no later
      place in the packet looks like a delimiter. */
  lemma FirstSliceIsBody(p: seq<byte>, len: nat, header: seq<byte>, start: seq<byte>)
    requires Padded(p, len) && p[..len] == header + start && 2 < |header| && header[|header| - 2..] == CRLF
    requires start == [] || DASHES <= start
    ensures Readable(p, len)
    ensures start != [] ==> |FirstSlice(p, len)| < |start| || FirstSlice(p, len) == start
    ensures FirstSlice(p, len) == start
       <==> Absent(p, CRLFDASH, if start == [] then 1 else |header| - 1, len)
  {
    var j := LastAt(p, len, CRLFDASH);
    PaddedIsReadable(p, len);
    assert p[len] == NUL && p[len + 1] == NUL && p[len + 2] == NUL;
    assert forall i | 0 <= i < len :: p[i] == p[..len][i];
    if start != [] {
      assert start[0] == 0x2D && start[1] == 0x2D;
      assert header[|header| - 2] == 0x0D && header[|header| - 1] == 0x0A by {
        assert header[|header| - 2..][0] == 0x0D && header[|header| - 2..][1] == 0x0A;
      }
      assert p[|header|] == start[0] && p[|header| + 1] == start[1];
      assert Is4(p, |header| - 2, CRLFDASH);
      assert p[|header|..len] == start;
    }
  }

  // ---- which packets pass ----

  /** The verdict, the type and the length of a packet, from the cursor positions of its scan. */
  lemma ClassifyExactly(p: seq<byte>, len: nat)
    requires Padded(p, len) && 0 < len
    ensures var at, head := Cursors(p, len), Classify(p, len);
            (head.ok <==> forall k | k in at :: !Refuses(p, len, k)) &&
            head.contentType == TypeMet(p, len, at, 0x00, TYPE_UNKNOWN) &&
            head.contentLen == LengthMet(p, len, at, 0)
  {
    hide ParseFrom, Visited, Refuses, Padded, TypeMet, LengthMet;
    ScanVerdict(p, len, 0, Scan(NO_INFO, 0));
    ScanType(p, len, 0, Scan(NO_INFO, 0));
    ScanLength(p, len, 0, Scan(NO_INFO, 0));
  }

  /** A packet of the right size that is no GET request, in which the scan meets no refusal, and not an
      application type first with a positive length last. */
  ghost predicate Passes(p: seq<byte>, len: nat)
    requires Padded(p, len)
  {
    var at := Cursors(p, len);
    20 <= len <= 3000 && !Is4(p, 0, GET) && (forall k | k in at :: !Refuses(p, len, k)) &&
    !(TypeMet(p, len, at, 0x00, TYPE_UNKNOWN) == TYPE_APPLICATION && LengthMet(p, len, at, 0) > 0)
  }

  /** Exactly these packets pass the filters. Without a type or without a length on the way of the
      scan only its size, its first word and the refusals count. */
  lemma PassesExactly(p: seq<byte>, len: nat)
    requires Padded(p, len)
    ensures Accepted(p, len, Classify(p, len)) <==> Passes(p, len)
    ensures (forall k | k in Cursors(p, len) :: !SetsType(p, len, k)) ||
            (forall k | k in Cursors(p, len) :: !SetsLength(p, len, k)) ==>
              (Passes(p, len) <==>
               20 <= len <= 3000 && !Is4(p, 0, GET) && forall k | k in Cursors(p, len) :: !Refuses(p, len, k))
  {
    hide Cursors, Refuses, SetsType, SetsLength, Padded, Is4, TypeMet, LengthMet, Classify;
    if 20 <= len {
      ClassifyExactly(p, len);
    }
    if forall k | k in Cursors(p, len) :: !SetsLength(p, len, k) {
      NoLengthMet(p, len, Cursors(p, len), 0);
    } else if forall k | k in Cursors(p, len) :: !SetsType(p, len, k) {
      NoTypeMet(p, len, Cursors(p, len), 0x00, TYPE_UNKNOWN);
    }
  }

  /** Judged by the bytes alone, without following the scan. */
  lemma PlainPacketPasses(p: seq<byte>, len: nat)
    requires Padded(p, len) && 20 <= len <= 3000 && !Is4(p, 0, GET)
    requires forall k: nat | k < len :: !Refuses(p, len, k) && !SetsLength(p, len, k)
    ensures Accepted(p, len, Classify(p, len))
  {
    hide Classify, Cursors, Accepted, Refuses, SetsLength, Padded, Is4;
    PassesExactly(p, len);
  }

  /** A packet is dropped if the first of the scanner's words in it refuses: a slice in which the text
      `POST` comes without a slash five bytes on, as in `POSTER`, or `Refe` without a scheme, as in `Reference`. */
  lemma FirstWordRefuses(p: seq<byte>, len: nat, i: nat)
    requires Padded(p, len) && i < len && Refuses(p, len, i) && forall k: nat | k < i :: !Keyword(p, k)
    ensures !Accepted(p, len, Classify(p, len))
  {
    hide Refuses, Keyword, TurnAt, Padded;
    SkipText(p, len, 0, i, Scan(NO_INFO, 0));
    RefusesExactly(p, len, i, Scan(NO_INFO, 0));
  }

  /** `POSTER` */
  const POSTER: seq<byte> := [0x50, 0x4F, 0x53, 0x54, 0x45, 0x52]

  /** A slice of an uploaded text that happens to begin with the word is lost. */
  lemma PosterIsDropped(p: seq<byte>, len: nat)
    requires Padded(p, len) && 6 < len && POSTER <= p
    ensures !Accepted(p, len, Classify(p, len))
  {
    assert p[..6] == POSTER && p[0] == POSTER[0] && p[1] == POSTER[1] && p[2] == POSTER[2] && p[3] == POSTER[3];
    assert p[5] == POSTER[5];
    FirstWordRefuses(p, len, 0);
  }

  // ---- the header packet ----

  /** `multipart/form-data` */
  const FORM_DATA: seq<byte> :=
    [0x6D, 0x75, 0x6C, 0x74, 0x69, 0x70, 0x61, 0x72, 0x74, 0x2F, 0x66, 0x6F, 0x72, 0x6D, 0x2D, 0x64, 0x61, 0x74, 0x61]
  /** `application/` */
  const APPLICATION: seq<byte> := [0x61, 0x70, 0x70, 0x6C, 0x69, 0x63, 0x61, 0x74, 0x69, 0x6F, 0x6E, 0x2F]

  /** The first type of the lines begins with this word. */
  predicate TypeBegins(lines: seq<Line>, word: seq<byte>) {
    FirstType(lines).Some? && Begins(FirstType(lines).value, word)
  }

  /** What the scanner says about printed lines with a type that begins with `mult`, whatever comes behind them. */
  lemma HeaderAccepted(p: seq<byte>, len: nat, path: seq<byte>, lines: seq<Line>, rest: seq<byte>)
    requires Padded(p, len) && p[..len] == PrintHead(path, lines) + rest && 2 <= |rest| && 20 <= len <= 3000
    requires PathOk(path) && (forall l | l in lines :: WellFormed(l)) && TypeBegins(lines, [0x6D, 0x75, 0x6C, 0x74])
    ensures |rest| <= len
    ensures var head, at := Classify(p, len), RestCursors(p, len, path, lines, rest);
            (Accepted(p, len, head) <==> forall k | k in at :: !Refuses(p, len, k)) &&
            head.contentType == 1 && head.contentLen == LengthMet(p, len, at, LastLength(lines))
  {
    hide Parse, PrintHead, WellFormed, PathOk, Padded, RestCursors, Refuses, SetsPath, SetsHost,
         SetsType, SetsLength, LengthMet, TypeMet, TypeOf;
    ParseOfPrint(p, len, path, lines, rest);
    IsPost(p, len, path, lines, rest);
    TypeIs(FirstType(lines).value);
  }

  /** Printed lines with the type of an upload are accepted as such, and those with an application type and a
      positive length are dropped, if the scan of what comes behind them meets no refusal and no other length. */
  lemma CommonTypes(p: seq<byte>, len: nat, path: seq<byte>, lines: seq<Line>, rest: seq<byte>)
    requires Padded(p, len) && p[..len] == PrintHead(path, lines) + rest && 2 <= |rest| <= len && 20 <= len <= 3000
    requires PathOk(path) && forall l | l in lines :: WellFormed(l)
    requires forall k | k in RestCursors(p, len, path, lines, rest) :: !Refuses(p, len, k) && !SetsLength(p, len, k)
    ensures TypeBegins(lines, FORM_DATA) ==>
              Accepted(p, len, Classify(p, len)) && Classify(p, len) == Head(true, 1, LastLength(lines))
    ensures TypeBegins(lines, APPLICATION) ==>
              (Accepted(p, len, Classify(p, len)) <==> LastLength(lines) <= 0)
  {
    hide Parse, PrintHead, WellFormed, PathOk, Padded, RestCursors, Refuses, SetsPath, SetsHost,
         SetsType, SetsLength, LengthMet, TypeMet, TypeOf;
    ParseOfPrint(p, len, path, lines, rest);
    PathFits(path);
    NoLengthMet(p, len, RestCursors(p, len, path, lines, rest), LastLength(lines));
    IsPost(p, len, path, lines, rest);
    if FirstType(lines).Some? {
      TypeIs(FirstType(lines).value);
      LongerBegins(FirstType(lines).value, FORM_DATA);
      LongerBegins(FirstType(lines).value, APPLICATION);
    }
  }

  lemma LongerBegins(value: seq<byte>, word: seq<byte>)
    requires 4 <= |word|
    ensures Begins(value, word) ==> 4 <= |value| && value[..4] == word[..4]
  {
    if Begins(value, word) {
      assert value[..4] == value[..|word|][..4];
    }
  }

  lemma IsPost(p: seq<byte>, len: nat, path: seq<byte>, lines: seq<Line>, rest: seq<byte>)
    requires Padded(p, len) && p[..len] == PrintHead(path, lines) + rest
    ensures !Is4(p, 0, GET)
  {
    hide PrintLines;
    var behind := path + VERSION + CRLF + PrintLines(lines) + rest;
    assert PrintHead(path, lines) + rest == METHOD + behind;
    assert (METHOD + behind)[0] == 0x50;
    assert p[0] == p[..len][0];
  }

  /** The length under which a header packet opens its flow: the last one that the scan meets behind the
      printed lines, or else that of the lines. */
  function StatedLength(p: seq<byte>, len: nat, path: seq<byte>, lines: seq<Line>, rest: seq<byte>): int
    requires Padded(p, len) && |path| <= 255 && |rest| <= len
  {
    LengthMet(p, len, RestCursors(p, len, path, lines, rest), LastLength(lines))
  }

  /** Printed lines for a multipart body open their flow if and only if the scan of what comes behind them
      meets no refusal, the length is below 512 KiB and a node is free; otherwise nothing changes. */
  lemma HeaderOpensExactly(e: Engine, key: string, p: seq<byte>, len: nat, path: seq<byte>, lines: seq<Line>,
                           rest: seq<byte>)
    requires Coupled(e) && key !in e.table
    requires Padded(p, len) && p[..len] == PrintHead(path, lines) + rest && 2 <= |rest| && 20 <= len <= 3000
    requires PathOk(path) && (forall l | l in lines :: WellFormed(l)) && TypeBegins(lines, [0x6D, 0x75, 0x6C, 0x74])
    ensures Readable(p, len) && |rest| <= len
    ensures var r := HandleFrame(e, key, p, len, Classify(p, len));
            (key in r.table <==>
             (forall k | k in RestCursors(p, len, path, lines, rest) :: !Refuses(p, len, k)) &&
             StatedLength(p, len, path, lines, rest) < 524288 && e.free != []) &&
            (key !in r.table ==> r == e)
  {
    PaddedIsReadable(p, len);
    hide Coupled, Padded, Readable, WellFormed, PathOk, PrintHead, TypeBegins, RestCursors, Refuses, LengthMet,
         Classify, Accepted, Claimed, FirstSlice;
    PathFits(path);
    HeaderAccepted(p, len, path, lines, rest);
  }

  /** Printed lines for a multipart body, and behind them the empty line with the start of the body or without,
      or a line that the packet cuts off; the scan of what comes behind meets no refusal, and the length is below
      512 KiB. */
  ghost predicate Announces(p: seq<byte>, len: nat, path: seq<byte>, lines: seq<Line>,
                            rest: seq<byte>): (announces: bool)
    ensures announces ==> Padded(p, len) && Readable(p, len) && 2 <= |rest| < len && |path| <= 255
  {
    Padded(p, len) && (PaddedIsReadable(p, len); true) && p[..len] == PrintHead(path, lines) + rest && 2 <= |rest| &&
    20 <= len <= 3000 && PathOk(path) && (forall l | l in lines :: WellFormed(l)) &&
    TypeBegins(lines, [0x6D, 0x75, 0x6C, 0x74]) && StatedLength(p, len, path, lines, rest) < 524288 &&
    forall k | k in RestCursors(p, len, path, lines, rest) :: !Refuses(p, len, k)
  }

  lemma OpensFlow(p: seq<byte>, len: nat, path: seq<byte>, lines: seq<Line>, rest: seq<byte>)
    requires Announces(p, len, path, lines, rest)
    ensures Accepted(p, len, Classify(p, len)) && Classify(p, len).contentType == 1
    ensures Classify(p, len).contentLen == StatedLength(p, len, path, lines, rest) < MAX_BUF_LEN
  {
    hide Padded, Readable, Classify, Accepted, PrintHead, WellFormed, PathOk, TypeBegins, RestCursors, Refuses,
         LengthMet;
    HeaderAccepted(p, len, path, lines, rest);
  }

  /** No place but the start of the body, if that is there, looks like the delimiter before a body. */
  ghost predicate OneDelimiter(p: seq<byte>, len: nat, start: seq<byte>)
    requires |start| < len
  {
    Absent(p, CRLFDASH, if start == [] then 1 else len - |start| - 1, len)
  }

  /** The start of the body behind the empty line is what the flow begins with, exactly if no other place looks
      like a delimiter; with another one it begins with less. */
  lemma StartsWith(p: seq<byte>, len: nat, path: seq<byte>, lines: seq<Line>, start: seq<byte>)
    requires Announces(p, len, path, lines, CRLF + start) && (start == [] || DASHES <= start)
    ensures |start| < len
    ensures FirstSlice(p, len) == start <==> OneDelimiter(p, len, start)
    ensures start != [] ==> |FirstSlice(p, len)| < |start| || FirstSlice(p, len) == start
  {
    hide Padded, Readable, FirstSlice, PrintHead, WellFormed, PathOk, TypeBegins, Absent, RestCursors, Refuses,
         StatedLength;
    var head := PrintHead(path, lines) + CRLF;
    assert PrintHead(path, lines) + (CRLF + start) == head + start;
    HeadIsLong(path, lines);
    assert head[|head| - 2..] == CRLF;
    FirstSliceIsBody(p, len, head, start);
  }

  lemma HeadIsLong(path: seq<byte>, lines: seq<Line>)
    ensures 2 < |PrintHead(path, lines)|
  {
    hide PrintLines;
  }

  // ---- the frames behind it ----

  /** The frames of the flow are scanned like every packet; those of other flows are whatever they are. */
  ghost predicate Heard(ev: Event, key: string): (heard: bool)
    ensures heard ==> EventOk(ev)
  {
    EventOk(ev) && (ev.Frame? && ev.key == key ==> Padded(ev.p, ev.len) && ev.head == Classify(ev.p, ev.len))
  }

  ghost predicate AllHeard(evs: seq<Event>, key: string): (heard: bool)
    ensures heard ==> forall ev | ev in evs :: Heard(ev, key) && EventOk(ev)
  {
    forall ev | ev in evs :: Heard(ev, key)
  }

  /** An event that takes bytes of the flow away: a frame of it that does not pass. */
  ghost predicate Loses(ev: Event, key: string)
    requires Heard(ev, key)
  {
    ev.Frame? && ev.key == key && 0 < ev.len && !Passes(ev.p, ev.len)
  }

  /** The bytes of all frames of a flow, as they were sent on the network. */
  function Carried(evs: seq<Event>, key: string): seq<byte>
    requires forall ev | ev in evs :: EventOk(ev)
  {
    if evs == [] then [] else Carried(evs[..|evs| - 1], key) + Payload(evs[|evs| - 1], key)
  }

  function Payload(ev: Event, key: string): seq<byte>
    requires EventOk(ev)
  {
    if ev.Frame? && ev.key == key then ev.p[..ev.len] else []
  }

  lemma SliceOfPayload(ev: Event, key: string)
    requires Heard(ev, key)
    ensures SliceOf(ev, key) == if Loses(ev, key) then [] else Payload(ev, key)
    ensures Loses(ev, key) ==> Payload(ev, key) != []
  {
    hide Passes, Classify, Padded, Accepted;
    if ev.Frame? && ev.key == key {
      PassesExactly(ev.p, ev.len);
      AcceptedIsLong(ev);
    }
  }

  lemma AcceptedIsLong(ev: Event)
    ensures ev.Frame? && Accepted(ev.p, ev.len, ev.head) ==> 20 <= ev.len
  {
  }

  /** What the frames carry arrives, all of it if and only if none of them is dropped. */
  lemma {:induction false} ArrivesExactly(evs: seq<Event>, key: string)
    requires AllHeard(evs, key)
    ensures |Arrived(evs, key)| <= |Carried(evs, key)|
    ensures Arrived(evs, key) == Carried(evs, key) <==> forall ev | ev in evs :: !Loses(ev, key)
    ensures |Arrived(evs, key)| == |Carried(evs, key)| ==> Arrived(evs, key) == Carried(evs, key)
  {
    hide Heard, Loses, Payload, SliceOf, EventOk;
    if evs != [] {
      var init, last := evs[..|evs| - 1], evs[|evs| - 1];
      assert last in evs && forall ev | ev in evs :: ev in init || ev == last;
      ArrivesExactly(init, key);
      SliceOfPayload(last, key);
    }
  }

  // ---- the whole way ----

  /** A request header for a multipart body arrives, perhaps with the start of the body; the rest comes
      in slices that pass, with frames of other flows in between and clears that spare this one. The length
      stated is that of the body, or differs from it by a multiple of 2^16. At the frame that completes the
      body, and not before, the content of the last part is sent on, and only that, if and only if it brings
      in no further blank line and the body ends in its closing delimiter or the node's leftover bytes behind
      it do not complete a marker that the final line break begins. Either way the flow is gone and its node
      is free. */
  lemma UploadArrives(e: Engine, key: string, p: seq<byte>, len: nat, path: seq<byte>, lines: seq<Line>,
                      start: seq<byte>, evs: seq<Event>, last: Event,
                      boundary: seq<byte>, parts: seq<Part>, ending: seq<byte>)
    requires Coupled(e) && key !in e.table && e.free != []
    requires Announces(p, len, path, lines, CRLF + start) && (start == [] || DASHES <= start)
    requires |start| < len && OneDelimiter(p, len, start)
    requires var total := |PrintBody(boundary, parts, ending)|;
             total < 0x1_0000 && (StatedLength(p, len, path, lines, CRLF + start) - total) % 0x1_0000 == 0
    requires parts != [] && 0x0D !in boundary && (ending == [] || ending == CRLF)
    requires AllHeard(evs, key) && Heard(last, key) && (forall ev | ev in evs :: !Loses(ev, key)) && !Loses(last, key)
    requires Spared(HandleFrame(e, key, p, len, Classify(p, len)), evs, key)
    requires PrintBody(boundary, parts, ending) == start + Carried(evs, key) + Payload(last, key) &&
             Payload(last, key) != []
    ensures e.free[0] < |e.nodes| && |e.nodes[e.free[0]].data| == MAX_BUF_LEN
    ensures var n, total := e.free[0], |PrintBody(boundary, parts, ending)|;
            var left := e.nodes[n].data[total..total + 3];
            var before := Run(HandleFrame(e, key, p, len, Classify(p, len)), evs); var r := Step(before, last);
            SentFor(before.sent, key) == SentFor(e.sent, key) &&
            key !in r.table && key !in r.order && n in r.free &&
            (SentFor(r.sent, key) == SentFor(e.sent, key) + [parts[|parts| - 1].content]
             <==> OneBlankLine(parts[|parts| - 1].content) && (ending == [] || !CanStraddle(left)))
  {
    hide Coupled, Padded, Readable, HandleFrame, Classify, Run, Step, SentFor, Arrived, Carried, Payload, Accepted,
         Announces, OneDelimiter, FirstSlice, PrintBody, OneBlankLine, EventOk, SliceOf, Sent, Heard, Loses, Spared,
         CanStraddle, StatedLength;
    var body := PrintBody(boundary, parts, ending);
    OpensFlow(p, len, path, lines, CRLF + start);
    StartsWith(p, len, path, lines, start);
    ArrivesExactly(evs, key);
    SliceOfPayload(last, key);
    BodyArrives(e, key, p, len, Classify(p, len), evs, last, body);
    var left := e.nodes[e.free[0]].data[|body|..|body| + 3];
    assert (body + left)[..|body|] == body && (body + left)[|body|..|body| + 3] == left;
    SendsLastPart(body + left, |body|, boundary, parts, ending);
    OneMore(SentFor(e.sent, key), Sent(body + left, |body|), parts[|parts| - 1].content);
  }

  /** If one slice is dropped, or the start of the body brings a further delimiter, or no slice comes
      behind the header packet because that has the whole body, the upload never completes: when all
      frames have come the flow still waits in its node, and nothing has been sent. */
  lemma UploadStalls(e: Engine, key: string, p: seq<byte>, len: nat, path: seq<byte>, lines: seq<Line>,
                     start: seq<byte>, evs: seq<Event>, body: seq<byte>)
    requires Coupled(e) && key !in e.table && e.free != []
    requires Announces(p, len, path, lines, CRLF + start) && (start == [] || DASHES <= start) && |start| < len
    requires start == [] ==> OneDelimiter(p, len, start)
    requires |body| < 0x1_0000 && (StatedLength(p, len, path, lines, CRLF + start) - |body|) % 0x1_0000 == 0
    requires AllHeard(evs, key) && body == start + Carried(evs, key)
    requires (exists ev | ev in evs :: Loses(ev, key)) || !OneDelimiter(p, len, start) || Carried(evs, key) == []
    requires Spared(HandleFrame(e, key, p, len, Classify(p, len)), evs, key)
    ensures var r := Run(HandleFrame(e, key, p, len, Classify(p, len)), evs);
            key in r.table && r.table[key] == e.free[0] && SentFor(r.sent, key) == SentFor(e.sent, key)
  {
    hide Coupled, Padded, Readable, HandleFrame, Classify, Run, SentFor, Arrived, Carried, Accepted, Announces,
         OneDelimiter, FirstSlice, EventOk, Heard, Loses, Spared, NeverMeets, StatedLength;
    OpensFlow(p, len, path, lines, CRLF + start);
    StartsWith(p, len, path, lines, start);
    ArrivesExactly(evs, key);
    var first, stated := |FirstSlice(p, len)|, Classify(p, len).contentLen;
    ShortNeverMeets(evs, key, stated, first, |body|);
    StartsCounting(e, key, p, len, Classify(p, len));
    StaysUntilCleared(HandleFrame(e, key, p, len, Classify(p, len)), evs, key, e.free[0], stated, first);
  }

  /** Whatever length is stated, and whatever comes behind the printed lines: `k` is the last place behind the
      first byte of the header packet where a delimiter begins, 0 if there is none. As long as the flow is there, a
      frame of it that passes ends it if and only if what stands behind that line break in the header packet and
      all bytes of the frames since differ in number from the stated length by a multiple of 2^16. */
  lemma UploadEndsExactly(e: Engine, key: string, p: seq<byte>, len: nat, path: seq<byte>, lines: seq<Line>,
                          rest: seq<byte>, k: nat, evs: seq<Event>, last: Event)
    requires Coupled(e) && key !in e.table && e.free != []
    requires Announces(p, len, path, lines, rest) && StandsLast(p, len, [0x0D, 0x0A, 0x2D, 0x2D], k)
    requires AllHeard(evs, key) && Heard(last, key) && (forall ev | ev in evs :: !Loses(ev, key)) && !Loses(last, key)
    requires Unbroken(HandleFrame(e, key, p, len, Classify(p, len)), evs, key) && Payload(last, key) != []
    ensures k == 0 || k + 2 <= len
    ensures var before := Run(HandleFrame(e, key, p, len, Classify(p, len)), evs); var r := Step(before, last);
            var total := (if k == 0 then 0 else len - (k + 2)) + |Carried(evs, key)| + |Payload(last, key)|;
            SentFor(before.sent, key) == SentFor(e.sent, key) &&
            (key !in r.table <==> (total - StatedLength(p, len, path, lines, rest)) % 0x1_0000 == 0) &&
            (key in r.table ==> SentFor(r.sent, key) == SentFor(e.sent, key))
  {
    hide Coupled, Padded, Readable, HandleFrame, Classify, Run, Step, SentFor, Arrived, Carried, Payload, Accepted,
         Announces, FirstSlice, EventOk, SliceOf, Heard, Loses, Unbroken, StatedLength, StandsLast;
    OpensFlow(p, len, path, lines, rest);
    FirstSliceExactly(p, len, k);
    InMemory(p, len);
    ArrivesExactly(evs, key);
    SliceOfPayload(last, key);
    EndsExactly(e, key, p, len, Classify(p, len), evs, last);
  }

  /** A header packet that is cut inside a line: it has no delimiter, and the cut-off end of the header comes in
      the frames behind it and counts as body. So the frame with which the body is complete does not end the flow,
      unless that end is a multiple of 2^16 bytes long. */
  lemma CutHeaderMisses(e: Engine, key: string, p: seq<byte>, len: nat, path: seq<byte>, lines: seq<Line>,
                        cut: seq<byte>, evs: seq<Event>, last: Event, headerEnd: seq<byte>, body: seq<byte>)
    requires Coupled(e) && key !in e.table && e.free != []
    requires Announces(p, len, path, lines, cut) && StandsLast(p, len, [0x0D, 0x0A, 0x2D, 0x2D], 0)
    requires (StatedLength(p, len, path, lines, cut) - |body|) % 0x1_0000 == 0
    requires AllHeard(evs, key) && Heard(last, key) && (forall ev | ev in evs :: !Loses(ev, key)) && !Loses(last, key)
    requires Unbroken(HandleFrame(e, key, p, len, Classify(p, len)), evs, key) && Payload(last, key) != []
    requires headerEnd + body == Carried(evs, key) + Payload(last, key)
    ensures var r := Step(Run(HandleFrame(e, key, p, len, Classify(p, len)), evs), last);
            (key !in r.table <==> |headerEnd| % 0x1_0000 == 0) &&
            (key in r.table ==> SentFor(r.sent, key) == SentFor(e.sent, key))
  {
    hide Coupled, Padded, Readable, HandleFrame, Classify, Run, Step, SentFor, Carried, Payload,
         Announces, EventOk, Heard, Loses, Unbroken, StatedLength, StandsLast;
    UploadEndsExactly(e, key, p, len, path, lines, cut, 0, evs, last);
    assert |headerEnd| + |body| == |Carried(evs, key)| + |Payload(last, key)|;
    SumMeets(|headerEnd|, |body|, StatedLength(p, len, path, lines, cut));
  }

  lemma SumMeets(x: int, y: int, z: int)
    requires (z - y) % 0x1_0000 == 0
    ensures (x + y - z) % 0x1_0000 == 0 <==> x % 0x1_0000 == 0
  {
  }

  lemma OneMore(before: seq<seq<byte>>, sent: Option<seq<byte>>, content: seq<byte>)
    ensures before + (match sent case Some(bytes) => [bytes] case None => []) == before + [content]
       <==> sent == Some(content)
  {
    var after := before + (match sent case Some(bytes) => [bytes] case None => []);
    if after == before + [content] {
      assert |after| == |before| + 1 && after[|before|] == content;
    }
  }
}
