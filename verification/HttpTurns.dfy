/** What the scanner does at each of its six words, in bytes, numbers and places of the packet. */
module HttpTurns {
  import opened Bytes
  import opened Numerals
  import opened HttpParse

  /** From `at` up to `from` there are only spaces, and `from` is none. */
  ghost predicate Blanks(p: seq<byte>, at: nat, from: nat) {
    at <= from < |p| && p[from] != 0x20 && forall k | at <= k < from :: p[k] == 0x20
  }

  /** Copying from `from` on stops at `end`: at the first stop byte, or when the room is used up. */
  ghost predicate StopsAt(p: seq<byte>, from: nat, stops: set<byte>, room: nat, end: nat) {
    from <= end <= from + room && end < |p| && (forall k | from <= k < end :: p[k] !in stops) &&
    (end == from + room || p[end] in stops)
  }

  /** A text that is not empty is written to the front of an array and ended by a zero byte. */
  ghost predicate Replaces(before: seq<byte>, text: seq<byte>, after: seq<byte>) {
    |after| == |before| &&
    if text == [] then after == before
    else |text| < |before| && after[..|text|] == text && after[|text|] == 0x00 &&
         after[|text| + 1..] == before[|text| + 1..]
  }

  ghost predicate HasMark(text: seq<byte>) {
    exists j :: 0 <= j < |text| && text[j] == 0x3F && forall m | 0 <= m < j :: text[m] != 0x00
  }

  lemma SpacesPassed(p: seq<byte>, at: nat, from: nat)
    requires Blanks(p, at, from)
    ensures PastSpaces(p, at) == from
  {
  }

  lemma CopyStops(p: seq<byte>, from: nat, stops: set<byte>, room: nat, end: nat)
    requires StopsAt(p, from, stops, room, end)
    ensures CopyEnd(p, from, stops, room) == end
  {
  }

  lemma TerminatedReplaces(before: seq<byte>, text: seq<byte>)
    requires |text| < |before|
    ensures Replaces(before, text, Terminated(before, text))
  {
  }

  lemma {:induction false} QueryIsMark(text: seq<byte>)
    ensures HasQuery(text) <==> HasMark(text)
  {
    if text != [] && text[0] != 0x00 {
      var rest := text[1..];
      QueryIsMark(rest);
      if HasMark(rest) {
        var j :| 0 <= j < |rest| && rest[j] == 0x3F && forall m | 0 <= m < j :: rest[m] != 0x00;
        assert text[j + 1] == 0x3F && forall m | 0 < m < j + 1 :: text[m] == rest[m - 1];
      }
      if HasMark(text) && text[0] != 0x3F {
        var j :| 0 <= j < |text| && text[j] == 0x3F && forall m | 0 <= m < j :: text[m] != 0x00;
        assert rest[j - 1] == 0x3F && forall m | 0 <= m < j - 1 :: rest[m] == text[m + 1];
      }
    }
  }

  /** The scan begins with nothing recorded and zero bytes in all arrays. */
  lemma NothingRecorded()
    ensures |NO_INFO.host| == |NO_INFO.refer| == 60 && |NO_INFO.path| == 256 && |NO_INFO.ua| == 128
    ensures forall b | b in NO_INFO.host + NO_INFO.path + NO_INFO.refer + NO_INFO.ua :: b == 0x00
    ensures NO_INFO.hlen == NO_INFO.plen == NO_INFO.rlen == NO_INFO.contentType == NO_INFO.contentLen == 0
  {
  }

  // ---- the request line ----

  /** `GET ` with room behind it and a slash: the path is copied, the first flag bit set; the cursor goes
      to the stop byte, and one further if the path array then holds a question mark. */
  lemma GetTurnExactly(p: seq<byte>, len: nat, k: nat, s: Scan, end: nat)
    requires Padded(p, len) && Sized(s.info) && Is4(p, k, [0x47, 0x45, 0x54, 0x20]) && k + 5 < len && p[k + 4] == 0x2F
    requires StopsAt(p, k + 5, {0x0D, 0x00, 0x20}, 255, end)
    ensures var t := TurnAt(p, len, k, s);
            t.Go? && Replaces(s.info.path, p[k + 5..end], t.s.info.path) &&
            t.s == Scan(s.info.(path := t.s.info.path, plen := if k + 5 < end then end - (k + 5) else s.info.plen),
                        s.flag | 0x01) &&
            t.at == if HasMark(t.s.info.path) then end + 1 else end
  {
    hide CopyEnd, Terminated, HasQuery, Replaces, HasMark;
    CopyStops(p, k + 5, {0x0D, 0x00, 0x20}, 255, end);
    TerminatedReplaces(s.info.path, p[k + 5..end]);
    QueryIsMark(Terminated(s.info.path, p[k + 5..end]));
  }

  /** `POST`, a byte, and a slash: the path is copied. */
  lemma PostTurnExactly(p: seq<byte>, len: nat, k: nat, s: Scan, end: nat)
    requires Padded(p, len) && Sized(s.info) && Is4(p, k, [0x50, 0x4F, 0x53, 0x54]) && k + 6 < len && p[k + 5] == 0x2F
    requires StopsAt(p, k + 6, {0x0D, 0x00, 0x20}, 255, end)
    ensures var t := TurnAt(p, len, k, s);
            t.Go? && t.at == end && Replaces(s.info.path, p[k + 6..end], t.s.info.path) &&
            t.s == s.(info := s.info.(path := t.s.info.path,
                                      plen := if k + 6 < end then end - (k + 6) else s.info.plen))
  {
    hide CopyEnd, Terminated, Replaces;
    CopyStops(p, k + 6, {0x0D, 0x00, 0x20}, 255, end);
    TerminatedReplaces(s.info.path, p[k + 6..end]);
  }

  /** Any other target leaves the scanner with false. */
  lemma TargetRefused(p: seq<byte>, len: nat, k: nat, s: Scan)
    requires Padded(p, len) && Sized(s.info) && k < len
    ensures Is4(p, k, [0x47, 0x45, 0x54, 0x20]) && k + 5 < len && p[k + 4] != 0x2F ==> TurnAt(p, len, k, s).Reject?
    ensures Is4(p, k, [0x50, 0x4F, 0x53, 0x54]) && k + 6 < len && p[k + 5] != 0x2F ==> TurnAt(p, len, k, s).Reject?
  {
    hide CopyEnd, Terminated, HasQuery;
  }

  // ---- Content headers ----

  /** Spaces, none or more, and then a word: the word is read, cut at 255 bytes, whatever their number. */
  lemma ValueRead(p: seq<byte>, at: nat, n: nat, word: seq<byte>)
    requires at + n + |word| < |p| && (forall k | at <= k < at + n :: p[k] == 0x20)
    requires p[at + n..at + n + |word|] == word && forall b | b in word :: b !in {0x0D, 0x00, 0x20}
    requires p[at + n + |word|] in (if word == [] then {0x0D, 0x00} else {0x0D, 0x00, 0x20})
    ensures var cut := if |word| < 255 then |word| else 255;
            ValueAt(p, at) == (word[..cut], at + n + cut)
  {
    hide CopyEnd, PastSpaces;
    var cut := if |word| < 255 then |word| else 255;
    assert forall k | 0 <= k < |word| :: p[at + n + k] == word[k] && word[k] in word;
    assert forall k | at + n <= k < at + n + |word| :: p[k] == word[k - at - n];
    assert word != [] ==> p[at + n] == word[0];
    assert p[at + n..at + n + cut] == p[at + n..at + n + |word|][..cut];
    SpacesPassed(p, at, at + n);
    CopyStops(p, at + n, {0x0D, 0x00, 0x20}, 255, at + n + cut);
  }

  /** `mult` is 1, `appl` is 2, everything else 0. */
  lemma TypeIs(value: seq<byte>)
    ensures TypeOf(value) == 1 <==> 4 <= |value| && value[..4] == [0x6D, 0x75, 0x6C, 0x74]
    ensures TypeOf(value) == 2 <==> 4 <= |value| && value[..4] == [0x61, 0x70, 0x70, 0x6C]
    ensures TypeOf(value) in {0, 1, 2}
  {
    if 4 <= |value| {
      assert value[..4] == [value[0], value[1], value[2], value[3]];
    }
  }

  /** A Content header of twelve letters and a colon: the first one is recorded, unless the two low flag
      bits are set already, and sets them. */
  lemma TypeTurnExactly(p: seq<byte>, len: nat, k: nat, s: Scan, from: nat, end: nat)
    requires Padded(p, len) && Sized(s.info) && Is4(p, k, [0x43, 0x6F, 0x6E, 0x74]) && k + 13 < len && p[k + 12] == 0x3A
    requires Blanks(p, k + 13, from) && StopsAt(p, from, {0x0D, 0x00, 0x20}, 255, end)
    ensures var t := TurnAt(p, len, k, s);
            t.Go? && t.at == end &&
            if s.flag & 0x03 == 0x03 then t.s == s
            else t.s == Scan(s.info.(contentType := t.s.info.contentType), s.flag | 0x03) &&
                 t.s.info.contentType == if Begins(p[from..end], [0x6D, 0x75, 0x6C, 0x74]) then 1
                                         else if Begins(p[from..end], [0x61, 0x70, 0x70, 0x6C]) then 2 else 0
  {
    hide CopyEnd, PastSpaces, TypeOf;
    SpacesPassed(p, k + 13, from);
    CopyStops(p, from, {0x0D, 0x00, 0x20}, 255, end);
    TypeIs(p[from..end]);
    assert s.flag == s.flag | 0x03 <==> s.flag & 0x03 == 0x03;
  }

  predicate Begins(value: seq<byte>, word: seq<byte>) {
    |word| <= |value| && value[..|word|] == word
  }

  /** A Content header of fourteen letters that ends in `th:` gives the length. */
  lemma LengthTurnExactly(p: seq<byte>, len: nat, k: nat, s: Scan, from: nat, end: nat)
    requires Padded(p, len) && Sized(s.info) && Is4(p, k, [0x43, 0x6F, 0x6E, 0x74]) && k + 13 < len
    requires p[k + 12] == 0x74 && p[k + 13] == 0x68 && p[k + 14] == 0x3A
    requires Blanks(p, k + 15, from) && StopsAt(p, from, {0x0D, 0x00, 0x20}, 255, end)
    ensures TurnAt(p, len, k, s) == Go(end, s.(info := s.info.(contentLen := Atoi(p[from..end]))))
  {
    hide CopyEnd, PastSpaces, Atoi;
    SpacesPassed(p, k + 15, from);
    CopyStops(p, from, {0x0D, 0x00, 0x20}, 255, end);
  }

  /** Of any other Content header twelve bytes are jumped over. */
  lemma OtherContentExactly(p: seq<byte>, len: nat, k: nat, s: Scan)
    requires Padded(p, len) && Sized(s.info) && Is4(p, k, [0x43, 0x6F, 0x6E, 0x74]) && k + 13 < len
    requires p[k + 12] != 0x3A && !(p[k + 12] == 0x74 && p[k + 13] == 0x68 && p[k + 14] == 0x3A)
    ensures TurnAt(p, len, k, s) == Go(k + 12, s)
  {
  }

  // ---- the other headers ----

  lemma HostTurnExactly(p: seq<byte>, len: nat, k: nat, s: Scan, from: nat, end: nat)
    requires Padded(p, len) && Sized(s.info) && Is4(p, k, [0x48, 0x6F, 0x73, 0x74]) && k + 9 < len
    requires Blanks(p, k + 5, from) && StopsAt(p, from, {0x0D, 0x00}, 59, end)
    ensures var t := TurnAt(p, len, k, s);
            t.Go? && t.at == end && Replaces(s.info.host, p[from..end], t.s.info.host) &&
            t.s == Scan(s.info.(host := t.s.info.host, hlen := if from < end then end - from else s.info.hlen),
                        s.flag | 0x02)
  {
    hide CopyEnd, PastSpaces, Terminated, Replaces;
    SpacesPassed(p, k + 5, from);
    CopyStops(p, from, {0x0D, 0x00}, 59, end);
    TerminatedReplaces(s.info.host, p[from..end]);
  }

  /** The site stands seven bytes behind the spaces if the fifth is a colon, else eight if the sixth is one. */
  lemma RefererTurnExactly(p: seq<byte>, len: nat, k: nat, s: Scan, at: nat, end: nat)
    requires Padded(p, len) && Sized(s.info) && Is4(p, k, [0x52, 0x65, 0x66, 0x65]) && k + 20 < len
    requires Blanks(p, k + 8, at) && at + 8 <= |p| && (p[at + 4] == 0x3A || p[at + 5] == 0x3A)
    requires StopsAt(p, if p[at + 4] == 0x3A then at + 7 else at + 8, {0x2F, 0x0D, 0x00}, 59, end)
    ensures var t, from := TurnAt(p, len, k, s), if p[at + 4] == 0x3A then at + 7 else at + 8;
            t.Go? && t.at == end && Replaces(s.info.refer, p[from..end], t.s.info.refer) &&
            t.s == Scan(s.info.(refer := t.s.info.refer, rlen := if from < end then end - from else s.info.rlen),
                        s.flag | 0x04)
  {
    hide CopyEnd, PastSpaces, Terminated, Replaces;
    var from := if p[at + 4] == 0x3A then at + 7 else at + 8;
    SpacesPassed(p, k + 8, at);
    CopyStops(p, from, {0x2F, 0x0D, 0x00}, 59, end);
    TerminatedReplaces(s.info.refer, p[from..end]);
  }

  lemma RefererRefused(p: seq<byte>, len: nat, k: nat, s: Scan, at: nat)
    requires Padded(p, len) && Sized(s.info) && Is4(p, k, [0x52, 0x65, 0x66, 0x65]) && k + 20 < len
    requires Blanks(p, k + 8, at) && at + 5 < |p| && p[at + 4] != 0x3A && p[at + 5] != 0x3A
    ensures TurnAt(p, len, k, s) == Reject
  {
    hide PastSpaces;
    SpacesPassed(p, k + 8, at);
  }

  /** The agent is copied without a zero byte behind it, as long as flag bit 8 is not set. */
  lemma AgentTurnExactly(p: seq<byte>, len: nat, k: nat, s: Scan, from: nat, end: nat)
    requires Padded(p, len) && Sized(s.info) && Is4(p, k, [0x55, 0x73, 0x65, 0x72]) && k + 12 < len
    requires s.flag & 0x08 == 0
    requires Blanks(p, k + 11, from) && StopsAt(p, from, {0x0D, 0x00}, 127, end)
    ensures TurnAt(p, len, k, s)
         == Go(end, s.(info := s.info.(ua := p[from..end] + s.info.ua[end - from..])))
  {
    hide CopyEnd, PastSpaces;
    SpacesPassed(p, k + 11, from);
    CopyStops(p, from, {0x0D, 0x00}, 127, end);
    assert s.flag != s.flag | 0x08;
    assert Splice(s.info.ua, 0, p[from..end]) == p[from..end] + s.info.ua[end - from..];
  }

  /** Where no word stands, or one stands too close to the end, the cursor goes on by one byte. */
  lemma NothingToDo(p: seq<byte>, len: nat, k: nat, s: Scan)
    requires Padded(p, len) && Sized(s.info) && k < len
    requires Is4(p, k, [0x47, 0x45, 0x54, 0x20]) ==> len <= k + 5
    requires Is4(p, k, [0x50, 0x4F, 0x53, 0x54]) ==> len <= k + 6
    requires Is4(p, k, [0x43, 0x6F, 0x6E, 0x74]) ==> len <= k + 13
    requires Is4(p, k, [0x48, 0x6F, 0x73, 0x74]) ==> len <= k + 9
    requires Is4(p, k, [0x52, 0x65, 0x66, 0x65]) ==> len <= k + 20
    requires Is4(p, k, [0x55, 0x73, 0x65, 0x72]) ==> len <= k + 12 || s.flag & 0x08 != 0
    ensures TurnAt(p, len, k, s) == Go(k, s)
  {
    hide CopyEnd, PastSpaces, ValueAt, Terminated;
    assert s.flag & 0x08 != 0 ==> s.flag == s.flag | 0x08;
  }

  // ---- atoi ----

  function Decimal(digits: seq<byte>): int {
    if digits == [] then 0 else 10 * Decimal(digits[..|digits| - 1]) + (digits[|digits| - 1] as int - 0x30)
  }

  ghost predicate AllDigits(text: seq<byte>) {
    forall i | 0 <= i < |text| :: 0x30 <= text[i] <= 0x39
  }

  predicate IsBlank(b: byte) {
    b == 0x20 || 0x09 <= b <= 0x0D
  }

  lemma {:induction false} DigitsLead(digits: seq<byte>, rest: seq<byte>)
    requires AllDigits(digits) && (rest == [] || !(0x30 <= rest[0] <= 0x39))
    ensures LeadingDigits(digits + rest) == |digits|
  {
    if digits == [] {
      assert digits + rest == rest;
    } else {
      assert (digits + rest)[1..] == digits[1..] + rest;
      DigitsLead(digits[1..], rest);
    }
  }

  function Values(digits: seq<byte>): (ds: seq<nat>)
    ensures |ds| == |digits|
  {
    seq(|digits|, i requires 0 <= i < |digits| => DigitValue(digits[i]))
  }

  lemma {:induction false} DecimalIsValue(digits: seq<byte>)
    requires AllDigits(digits)
    ensures ValueOf(Values(digits), Dec) == Decimal(digits)
  {
    if digits != [] {
      var init := digits[..|digits| - 1];
      DecimalIsValue(init);
      assert Values(digits)[..|digits| - 1] == Values(init);
    }
  }

  lemma MagnitudeIs(digits: seq<byte>, rest: seq<byte>)
    requires AllDigits(digits) && (rest == [] || !(0x30 <= rest[0] <= 0x39))
    ensures Magnitude(digits + rest) == Decimal(digits)
  {
    hide LeadingDigits, ValueOf, Decimal;
    DigitsLead(digits, rest);
    DecimalIsValue(digits);
    var s, n := digits + rest, LeadingDigits(digits + rest);
    assert seq(n, i requires 0 <= i < n <= |s| => DigitValue(s[i])) == Values(digits);
  }

  /** The nearest value that fits 64 bits. */
  function Nearest64(x: int): int {
    if 9223372036854775807 < x then 9223372036854775807
    else if x < -9223372036854775808 then -9223372036854775808
    else x
  }

  lemma {:induction false} BlanksSkipped(blanks: seq<byte>, text: seq<byte>)
    requires forall b | b in blanks :: IsBlank(b)
    ensures Atoi(blanks + text) == Atoi(text)
  {
    hide Magnitude, Saturated, ToInt32;
    if blanks == [] {
      assert blanks + text == text;
    } else {
      assert blanks[0] in blanks && (blanks + text)[0] == blanks[0];
      assert (blanks + text)[1..] == blanks[1..] + text;
      BlanksSkipped(blanks[1..], text);
    }
  }

  lemma SignRead(sign: seq<byte>, digits: seq<byte>, rest: seq<byte>)
    requires sign in {[], [0x2D], [0x2B]} && AllDigits(digits) && (rest == [] || !(0x30 <= rest[0] <= 0x39))
    requires sign != [] || digits != [] || rest == [] || !(IsBlank(rest[0]) || rest[0] in {0x2D, 0x2B})
    ensures Atoi(sign + (digits + rest))
         == ToInt32(Saturated(if sign == [0x2D] then -Decimal(digits) else Decimal(digits)))
  {
    hide Magnitude, Decimal, Saturated, ToInt32;
    var text := digits + rest;
    MagnitudeIs(digits, rest);
    if sign == [] {
      assert sign + text == text;
      assert text != [] ==> text[0] == if digits == [] then rest[0] else digits[0];
    } else {
      assert (sign + text)[0] == sign[0] && (sign + text)[1..] == text;
    }
  }

  lemma CutDown(x: int)
    ensures var r := ToInt32(Saturated(x)); -2147483648 <= r <= 2147483647 && (r - Nearest64(x)) % 4294967296 == 0
  {
  }

  /** Blanks, a sign or none, digits and whatever follows them: the value is held in 64 bits and then cut
      down to the 32-bit value that differs from it by a multiple of 2^32. */
  lemma AtoiExactly(blanks: seq<byte>, sign: seq<byte>, digits: seq<byte>, rest: seq<byte>)
    requires (forall b | b in blanks :: IsBlank(b)) && sign in {[], [0x2D], [0x2B]} && AllDigits(digits)
    requires rest == [] || !(0x30 <= rest[0] <= 0x39)
    requires sign != [] || digits != [] || rest == [] || !(IsBlank(rest[0]) || rest[0] in {0x2D, 0x2B})
    ensures var value := if sign == [0x2D] then -Decimal(digits) else Decimal(digits);
            var r := Atoi(blanks + sign + digits + rest);
            -2147483648 <= r <= 2147483647 && (r - Nearest64(value)) % 4294967296 == 0
  {
    hide Atoi, Decimal, Saturated, ToInt32, Nearest64;
    assert blanks + sign + digits + rest == blanks + (sign + (digits + rest));
    BlanksSkipped(blanks, sign + (digits + rest));
    SignRead(sign, digits, rest);
    CutDown(if sign == [0x2D] then -Decimal(digits) else Decimal(digits));
  }
}
