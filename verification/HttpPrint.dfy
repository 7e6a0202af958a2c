/** Requests as they are written, and what the scanner makes of them (RFC 7230, sections 3.1.1, 3.2 and 3.3.2). */
module HttpPrint {
  import opened Bytes
  import opened Numerals
  import opened HttpParse
  import opened HttpCursor

  /** `POST /` */
  const METHOD: seq<byte> := [0x50, 0x4F, 0x53, 0x54, 0x20, 0x2F]
  /** ` HTTP/1.1` */
  const VERSION: seq<byte> := [0x20, 0x48, 0x54, 0x54, 0x50, 0x2F, 0x31, 0x2E, 0x31]
  /** `Host:` */
  const HOST_NAME: seq<byte> := [0x48, 0x6F, 0x73, 0x74, 0x3A]
  /** `Content-Type:` */
  const TYPE_NAME: seq<byte> := [0x43, 0x6F, 0x6E, 0x74, 0x65, 0x6E, 0x74, 0x2D, 0x54, 0x79, 0x70, 0x65, 0x3A]
  /** `Content-Length:` */
  const LENGTH_NAME: seq<byte> :=
    [0x43, 0x6F, 0x6E, 0x74, 0x65, 0x6E, 0x74, 0x2D, 0x4C, 0x65, 0x6E, 0x67, 0x74, 0x68, 0x3A]
  /** `Content-Disposition:` */
  const DISPOSITION_NAME: seq<byte> :=
    [0x43, 0x6F, 0x6E, 0x74, 0x65, 0x6E, 0x74, 0x2D, 0x44, 0x69, 0x73, 0x70, 0x6F, 0x73, 0x69, 0x74, 0x69, 0x6F,
     0x6E, 0x3A]
  /** `User-Agent:` */
  const AGENT_NAME: seq<byte> := [0x55, 0x73, 0x65, 0x72, 0x2D, 0x41, 0x67, 0x65, 0x6E, 0x74, 0x3A]
  /** `Referer:` */
  const REFERER_NAME: seq<byte> := [0x52, 0x65, 0x66, 0x65, 0x72, 0x65, 0x72, 0x3A]
  /** `http://` and `https://` */
  const PLAIN: seq<byte> := [0x68, 0x74, 0x74, 0x70, 0x3A, 0x2F, 0x2F]
  const SECURE: seq<byte> := [0x68, 0x74, 0x74, 0x70, 0x73, 0x3A, 0x2F, 0x2F]

  function Scheme(secure: bool): (scheme: seq<byte>)
    ensures |scheme| == if secure then 8 else 7
  {
    if secure then SECURE else PLAIN
  }

  /** A header line; between the colon and the text there are spaces, none or more. */
  datatype Line =
    | HostLine(spaces: nat, host: seq<byte>)
    | TypeLine(spaces: nat, token: seq<byte>, parameters: seq<byte>)
    | LengthLine(spaces: nat, n: nat)
    | AgentLine(spaces: nat, agent: seq<byte>)
    | RefererLine(spaces: nat, secure: bool, site: seq<byte>, target: seq<byte>)
    | OtherLine(text: seq<byte>)

  function Blank(n: nat): (r: seq<byte>)
    ensures |r| == n && forall i | 0 <= i < n :: r[i] == 0x20
  {
    seq(n, _ => 0x20)
  }

  function PrintNumber(n: nat): seq<byte> {
    var ds := Digits(n, Dec);
    seq(|ds|, i requires 0 <= i < |ds| => DigitByte(ds, i))
  }

  function DigitByte(ds: seq<nat>, i: nat): byte
    requires i < |ds| && forall d | d in ds :: d < 10
  {
    assert ds[i] in ds;
    (0x30 + ds[i]) as byte
  }

  /** Decimal, most significant digit first, without leading zeros. */
  lemma NumberPrinted(n: nat)
    ensures PrintNumber(n) == if n < 10 then [(0x30 + n) as byte] else PrintNumber(n / 10) + [(0x30 + n % 10) as byte]
  {
  }

  function LineText(l: Line): seq<byte> {
    match l
    case HostLine(spaces, host) => HOST_NAME + Blank(spaces) + host
    case TypeLine(spaces, token, parameters) => TYPE_NAME + Blank(spaces) + token + parameters
    case LengthLine(spaces, n) => LENGTH_NAME + Blank(spaces) + PrintNumber(n)
    case AgentLine(spaces, agent) => AGENT_NAME + Blank(spaces) + agent
    case RefererLine(spaces, secure, site, target) => REFERER_NAME + Blank(spaces) + Scheme(secure) + site + target
    case OtherLine(text) => text
  }

  function PrintLines(lines: seq<Line>): seq<byte> {
    if lines == [] then [] else PrintLines(lines[..|lines| - 1]) + LineText(lines[|lines| - 1]) + CRLF
  }

  function RequestLine(path: seq<byte>): seq<byte> {
    METHOD + path + VERSION + CRLF
  }

  /** The request line and header lines, without what comes behind them. */
  function PrintHead(path: seq<byte>, lines: seq<Line>): seq<byte> {
    RequestLine(path) + PrintLines(lines)
  }

  predicate Keyword(p: seq<byte>, i: nat) {
    Is4(p, i, GET) || Is4(p, i, POST) || Is4(p, i, CONT) || Is4(p, i, HOST) || Is4(p, i, REFE) || Is4(p, i, USER)
  }

  /** A Content header that is neither like Content-Type nor like Content-Length: only its name is jumped over. */
  predicate Idle(p: seq<byte>, i: nat) {
    Is4(p, i, CONT) && i + 14 < |p| && p[i + 12] != COLON &&
    !(p[i + 12] == 0x74 && p[i + 13] == 0x68 && p[i + 14] == COLON)
  }

  /** No word the scanner acts on begins anywhere in the text. */
  ghost predicate Inert(text: seq<byte>) {
    forall i: nat | i < |text| :: !Keyword(text, i) || Idle(text, i)
  }

  ghost predicate Without(text: seq<byte>, bytes: set<byte>) {
    forall b | b in text :: b !in bytes
  }

  ghost predicate WellFormed(l: Line) {
    match l
    case HostLine(spaces, host) =>
      |host| <= 59 && Without(host, {0x0D, 0x00}) && (host != [] ==> host[0] != 0x20) && 0 < spaces + |host|
    case TypeLine(_, token, parameters) =>
      0 < |token| <= 255 && Without(token, {0x0D, 0x00, 0x20}) && Inert(parameters) &&
      (parameters != [] ==> parameters[0] == 0x20)
    case LengthLine(_, n) => n <= 2147483647
    case AgentLine(_, agent) => |agent| <= 127 && Without(agent, {0x0D, 0x00}) && (agent != [] ==> agent[0] != 0x20)
    case RefererLine(spaces, _, site, target) =>
      0 < |site| <= 59 && Without(site, {0x2F, 0x0D, 0x00}) && Inert(target) && (target != [] ==> target[0] == 0x2F) &&
      17 <= |LineText(l)|
    case OtherLine(text) => Inert(text)
  }

  /** A path without its leading slash. */
  ghost predicate PathOk(path: seq<byte>) {
    |path| <= 255 && Without(path, {0x0D, 0x00, 0x20})
  }

  /** The text stands in `p` at index `i`. */
  ghost predicate Has(p: seq<byte>, i: nat, text: seq<byte>) {
    i + |text| <= |p| && forall j | i <= j < i + |text| :: p[j] == text[j - i]
  }

  lemma HasAt(p: seq<byte>, i: nat, text: seq<byte>, k: nat)
    requires Has(p, i, text) && k < |text|
    ensures p[i + k] == text[k]
  {
  }

  lemma HasWord(p: seq<byte>, i: nat, text: seq<byte>, word: seq<byte>)
    requires Has(p, i, text) && |word| == 4 && word <= text
    ensures Is4(p, i, word)
  {
    HasAt(p, i, text, 0);
    HasAt(p, i, text, 1);
    HasAt(p, i, text, 2);
    HasAt(p, i, text, 3);
  }

  lemma HasParts(p: seq<byte>, i: nat, a: seq<byte>, b: seq<byte>)
    ensures Has(p, i, a + b) <==> Has(p, i, a) && Has(p, i + |a|, b)
  {
    if Has(p, i, a + b) {
      assert forall j | i <= j < i + |a| :: p[j] == (a + b)[j - i];
      assert forall j | i + |a| <= j < i + |a| + |b| :: p[j] == (a + b)[j - i];
    }
  }

  // ---- scanning over inert text ----

  lemma {:induction false} SkipText(p: seq<byte>, len: nat, i: nat, j: nat, s: Scan)
    requires Padded(p, len) && Sized(s.info) && i <= j <= len
    requires forall k: nat | i <= k < j :: !Keyword(p, k) || (Idle(p, k) && k + 12 < j)
    ensures ParseFrom(p, len, i, s) == ParseFrom(p, len, j, s)
    decreases j - i
  {
    hide Padded, Sized, TurnAt, Keyword, Idle;
    if i < j {
      InertTurn(p, len, i, s);
      match TurnAt(p, len, i, s)
      case Go(at, _) => SkipText(p, len, at + 1, j, s);
    }
  }

  lemma InertTurn(p: seq<byte>, len: nat, i: nat, s: Scan)
    requires Padded(p, len) && Sized(s.info) && i < len && (!Keyword(p, i) || Idle(p, i))
    ensures TurnAt(p, len, i, s) == Go(i, s) || (Keyword(p, i) && TurnAt(p, len, i, s) == Go(i + 12, s))
  {
    hide Padded, GetTurn, PostTurn, HostTurn, ReferTurn, AgentTurn, TypeTurn, LengthTurn;
  }

  /** No keyword reaches over a line break, and none begins in it. */
  lemma InertBefore(p: seq<byte>, i: nat, text: seq<byte>)
    requires Inert(text) && Has(p, i, text) && Has(p, i + |text|, CRLF)
    ensures forall k: nat | i <= k < i + |text| + 2 :: !Keyword(p, k) || (Idle(p, k) && k + 12 < i + |text|)
  {
    assert p[i + |text|] == 0x0D && p[i + |text| + 1] == 0x0A;
    forall k: nat | i <= k < i + |text|
      ensures !Keyword(p, k) || (Idle(p, k) && k + 12 < i + |text|)
    {
      assert !Keyword(text, k - i) || Idle(text, k - i);
    }
  }

  lemma SkipLine(p: seq<byte>, len: nat, i: nat, text: seq<byte>, s: Scan)
    requires Padded(p, len) && Sized(s.info) && i + |text| + 2 <= len
    requires Inert(text) && Has(p, i, text) && Has(p, i + |text|, CRLF)
    ensures ParseFrom(p, len, i, s) == ParseFrom(p, len, i + |text| + 2, s)
  {
    hide ParseFrom, Has;
    InertBefore(p, i, text);
    SkipText(p, len, i, i + |text| + 2, s);
  }

  /** From the carriage return on which a field ends to the next line. */
  lemma SkipBreak(p: seq<byte>, len: nat, i: nat, s: Scan)
    requires Padded(p, len) && Sized(s.info) && i + 2 <= len && Has(p, i, CRLF)
    ensures ParseFrom(p, len, i + 1, s) == ParseFrom(p, len, i + 2, s)
  {
    hide TurnAt, ParseFrom, Padded;
    assert p[i + 1] == 0x0A;
    SkipText(p, len, i + 1, i + 2, s);
  }

  // ---- one line ----

  lemma CopiesText(p: seq<byte>, i: nat, text: seq<byte>, stops: set<byte>, room: nat)
    requires Has(p, i, text) && Without(text, stops) && |text| <= room
    requires i + |text| < |p| && p[i + |text|] in stops
    ensures CopyEnd(p, i, stops, room) == i + |text| && p[i..i + |text|] == text
  {
    assert p[i..i + |text|] == text;
    assert forall j | i <= j < i + |text| :: p[j] in text;
  }

  /** What the scanner holds after a line. */
  function After(s: Scan, l: Line): (r: Scan)
    requires Sized(s.info)
    ensures Sized(r.info)
  {
    match l
    case HostLine(_, host) =>
      if |host| < MAX_HOSTLEN then
        var hlen := if host == [] then s.info.hlen else |host|;
        Scan(s.info.(host := Terminated(s.info.host, host), hlen := hlen), s.flag | 0x02)
      else s
    case TypeLine(_, token, _) => Typed(s, token)
    case LengthLine(_, n) => s.(info := s.info.(contentLen := n))
    case AgentLine(_, agent) =>
      if |agent| < MAX_UALEN then s.(info := s.info.(ua := Splice(s.info.ua, 0, agent))) else s
    case RefererLine(_, _, site, _) =>
      if 0 < |site| < MAX_HOSTLEN then
        Scan(s.info.(refer := Terminated(s.info.refer, site), rlen := |site|), s.flag | 0x04)
      else s
    case OtherLine(_) => s
  }

  ghost predicate Ready(p: seq<byte>, len: nat, i: nat, s: Scan, l: Line) {
    Padded(p, len) && Sized(s.info) && s.flag & 0x08 == 0 && WellFormed(l)
    && Has(p, i, LineText(l)) && Has(p, i + |LineText(l)|, CRLF) && i + |LineText(l)| + 4 <= len
  }

  /** One turn of the loop. */
  lemma Advance(p: seq<byte>, len: nat, i: nat, s: Scan, end: nat, s': Scan)
    requires Padded(p, len) && Sized(s.info) && i < len && TurnAt(p, len, i, s) == Go(end, s')
    ensures Sized(s'.info) && ParseFrom(p, len, i, s) == ParseFrom(p, len, end + 1, s')
  {
  }

  /** A turn that stops at the end of a line. */
  lemma TurnToBreak(p: seq<byte>, len: nat, i: nat, s: Scan, end: nat, s': Scan)
    requires Padded(p, len) && Sized(s.info) && i < len && TurnAt(p, len, i, s) == Go(end, s')
    requires end + 2 <= len && Has(p, end, CRLF)
    ensures Sized(s'.info) && ParseFrom(p, len, i, s) == ParseFrom(p, len, end + 2, s')
  {
    hide TurnAt, ParseFrom, Has;
    Advance(p, len, i, s, end, s');
    SkipBreak(p, len, end, s');
  }

  lemma AtHost(p: seq<byte>, len: nat, i: nat, s: Scan)
    requires Padded(p, len) && Sized(s.info) && Is4(p, i, HOST) && i + 9 < len
    ensures TurnAt(p, len, i, s) == HostText(p, PastSpaces(p, i + 5), s)
  {
  }

  lemma AtAgent(p: seq<byte>, len: nat, i: nat, s: Scan)
    requires Padded(p, len) && Sized(s.info) && Is4(p, i, USER) && i + 12 < len && s.flag & 0x08 == 0
    ensures TurnAt(p, len, i, s) == AgentText(p, PastSpaces(p, i + 11), s)
  {
    assert s.flag != s.flag | 0x08;
  }

  lemma AtType(p: seq<byte>, len: nat, i: nat, s: Scan)
    requires Padded(p, len) && Sized(s.info) && Is4(p, i, CONT) && i + 13 < len && p[i + 12] == COLON
    ensures TurnAt(p, len, i, s) == TypeTurn(p, i + 13, s)
  {
  }

  lemma AtLength(p: seq<byte>, len: nat, i: nat, s: Scan)
    requires Padded(p, len) && Sized(s.info) && Is4(p, i, CONT) && i + 13 < len
    requires p[i + 12] == 0x74 && p[i + 13] == 0x68 && p[i + 14] == COLON
    ensures TurnAt(p, len, i, s) == LengthTurn(p, i + 15, s)
  {
  }

  lemma AtReferer(p: seq<byte>, len: nat, i: nat, n: nat, s: Scan)
    requires Padded(p, len) && Sized(s.info) && Is4(p, i, REFE) && i + 20 < len
    requires Has(p, i + 8, Blank(n)) && i + 8 + n <= len && p[i + 8 + n] != SPACE
    ensures TurnAt(p, len, i, s) == RefererTurn(p, len, i + 8 + n, s)
  {
    hide Blank;
    BlanksPassed(p, i + 8, n);
  }

  lemma BlanksPassed(p: seq<byte>, at: nat, n: nat)
    requires Has(p, at, Blank(n)) && at + n < |p| && p[at + n] != SPACE
    ensures PastSpaces(p, at) == at + n
  {
  }

  /** A text after any number of spaces. */
  lemma TextRead(p: seq<byte>, at: nat, n: nat, text: seq<byte>, stops: set<byte>, room: nat)
    requires at + n + |text| < |p| && Has(p, at, Blank(n)) && Has(p, at + n, text) && p[at + n + |text|] in stops
    requires text == [] ==> p[at + n] != SPACE
    requires Without(text, stops) && |text| <= room && (text != [] ==> text[0] != SPACE)
    ensures PastSpaces(p, at) == at + n && CopyEnd(p, at + n, stops, room) == at + n + |text|
    ensures p[at + n..at + n + |text|] == text
  {
    CopiesText(p, at + n, text, stops, room);
    BlanksPassed(p, at, n);
  }

  lemma HostTextRead(p: seq<byte>, at: nat, n: nat, s: Scan, host: seq<byte>)
    requires Sized(s.info) && WellFormed(HostLine(n, host))
    requires at + n + |host| < |p| && Has(p, at, Blank(n)) && Has(p, at + n, host) && p[at + n + |host|] == CR
    ensures HostText(p, PastSpaces(p, at), s) == Go(at + n + |host|, After(s, HostLine(n, host)))
  {
    hide Blank, LineText, Terminated, Has;
    TextRead(p, at, n, host, LINE_END, MAX_HOSTLEN - 1);
  }

  lemma AgentTextRead(p: seq<byte>, at: nat, n: nat, s: Scan, agent: seq<byte>)
    requires Sized(s.info) && WellFormed(AgentLine(n, agent))
    requires at + n + |agent| < |p| && Has(p, at, Blank(n)) && Has(p, at + n, agent) && p[at + n + |agent|] == CR
    ensures AgentText(p, PastSpaces(p, at), s) == Go(at + n + |agent|, After(s, AgentLine(n, agent)))
  {
    hide Blank, LineText, Has;
    TextRead(p, at, n, agent, LINE_END, MAX_UALEN - 1);
  }

  lemma WordRead(p: seq<byte>, at: nat, n: nat, word: seq<byte>)
    requires 0 < |word| <= 255 && Without(word, WORD_END)
    requires at + n + |word| < |p| && Has(p, at, Blank(n)) && Has(p, at + n, word) && p[at + n + |word|] in WORD_END
    ensures ValueAt(p, at) == (word, at + n + |word|)
  {
    hide Blank;
    assert word[0] in word;
    TextRead(p, at, n, word, WORD_END, MAX_PATHLEN - 1);
  }

  lemma TypeTextRead(p: seq<byte>, at: nat, n: nat, s: Scan, token: seq<byte>, parameters: seq<byte>)
    requires Sized(s.info) && WellFormed(TypeLine(n, token, parameters))
    requires at + n + |token| < |p| && Has(p, at, Blank(n)) && Has(p, at + n, token) && p[at + n + |token|] in WORD_END
    ensures TypeTurn(p, at, s) == Go(at + n + |token|, After(s, TypeLine(n, token, parameters)))
  {
    WordRead(p, at, n, token);
  }

  lemma LengthTextRead(p: seq<byte>, at: nat, spaces: nat, s: Scan, n: nat)
    requires Sized(s.info) && WellFormed(LengthLine(spaces, n))
    requires var number := PrintNumber(n);
             at + spaces + |number| < |p| && Has(p, at, Blank(spaces)) && Has(p, at + spaces, number) &&
             p[at + spaces + |number|] == CR
    ensures LengthTurn(p, at, s) == Go(at + spaces + |PrintNumber(n)|, After(s, LengthLine(spaces, n)))
  {
    hide Blank, Has;
    NumberText(n);
    NumberShort(n);
    AtoiRoundTrip(n);
    WordRead(p, at, spaces, PrintNumber(n));
  }

  lemma SkipParameters(p: seq<byte>, len: nat, at: nat, s: Scan, parameters: seq<byte>)
    requires Padded(p, len) && Sized(s.info) && at + |parameters| + 2 <= len
    requires Inert(parameters) && Has(p, at, parameters) && Has(p, at + |parameters|, CRLF)
    ensures ParseFrom(p, len, at + 1, s) == ParseFrom(p, len, at + |parameters| + 2, s)
  {
    hide ParseFrom, Has;
    InertBefore(p, at, parameters);
    SkipText(p, len, at + 1, at + |parameters| + 2, s);
  }

  /** The name of a field, the spaces, its text, and the line break behind it. */
  lemma FieldParts(p: seq<byte>, i: nat, name: seq<byte>, n: nat, text: seq<byte>)
    requires Has(p, i, name + Blank(n) + text) && Has(p, i + |name + Blank(n) + text|, CRLF)
    ensures Has(p, i, name) && Has(p, i + |name|, Blank(n)) && Has(p, i + |name| + n, text)
    ensures i + |name| + n + |text| + 2 <= |p| && p[i + |name| + n + |text|] == CR
    ensures Has(p, i + |name| + n + |text|, CRLF)
  {
    hide Blank;
    HasParts(p, i, name + Blank(n), text);
    HasParts(p, i, name, Blank(n));
    HasAt(p, i + |name + Blank(n) + text|, CRLF, 0);
  }

  lemma HostLineTurn(p: seq<byte>, len: nat, i: nat, s: Scan, n: nat, host: seq<byte>)
    requires Ready(p, len, i, s, HostLine(n, host))
    ensures TurnAt(p, len, i, s) == Go(i + 5 + n + |host|, After(s, HostLine(n, host)))
    ensures Has(p, i + 5 + n + |host|, CRLF) && |LineText(HostLine(n, host))| == 5 + n + |host|
  {
    hide TurnAt, After, HostText, PastSpaces, Has, Padded, Is4, Sized, Without, Blank;
    FieldParts(p, i, HOST_NAME, n, host);
    HasWord(p, i, HOST_NAME, HOST);
    AtHost(p, len, i, s);
    HostTextRead(p, i + 5, n, s, host);
  }

  lemma AgentLineTurn(p: seq<byte>, len: nat, i: nat, s: Scan, n: nat, agent: seq<byte>)
    requires Ready(p, len, i, s, AgentLine(n, agent))
    ensures TurnAt(p, len, i, s) == Go(i + 11 + n + |agent|, After(s, AgentLine(n, agent)))
    ensures Has(p, i + 11 + n + |agent|, CRLF) && |LineText(AgentLine(n, agent))| == 11 + n + |agent|
  {
    hide TurnAt, After, AgentText, PastSpaces, Has, WellFormed, Padded, Is4, Sized, Blank;
    FieldParts(p, i, AGENT_NAME, n, agent);
    HasWord(p, i, AGENT_NAME, USER);
    AtAgent(p, len, i, s);
    AgentTextRead(p, i + 11, n, s, agent);
  }

  lemma LengthLineTurn(p: seq<byte>, len: nat, i: nat, s: Scan, spaces: nat, n: nat)
    requires Ready(p, len, i, s, LengthLine(spaces, n))
    ensures var l, end := LengthLine(spaces, n), i + 15 + spaces + |PrintNumber(n)|;
            TurnAt(p, len, i, s) == Go(end, After(s, l)) && Has(p, end, CRLF) && i + |LineText(l)| == end
  {
    hide TurnAt, LengthTurn, After, Has, WellFormed, Padded, Is4, Sized, PrintNumber, Blank;
    FieldParts(p, i, LENGTH_NAME, spaces, PrintNumber(n));
    HasWord(p, i, LENGTH_NAME, CONT);
    HasAt(p, i, LENGTH_NAME, 12);
    HasAt(p, i, LENGTH_NAME, 13);
    HasAt(p, i, LENGTH_NAME, 14);
    AtLength(p, len, i, s);
    LengthTextRead(p, i + 15, spaces, s, n);
  }

  lemma TypeLineShape(p: seq<byte>, i: nat, n: nat, token: seq<byte>, parameters: seq<byte>)
    requires WellFormed(TypeLine(n, token, parameters))
    requires Has(p, i, TYPE_NAME + Blank(n) + token + parameters) && Has(p, i + 13 + n + |token| + |parameters|, CRLF)
    ensures Is4(p, i, CONT) && p[i + 12] == COLON && Has(p, i + 13, Blank(n)) && Has(p, i + 13 + n, token)
    ensures var at := i + 13 + n + |token|; Has(p, at, parameters) && at < |p| && p[at] in WORD_END
  {
    hide Has, Blank;
    HasParts(p, i, TYPE_NAME + Blank(n) + token, parameters);
    HasParts(p, i, TYPE_NAME + Blank(n), token);
    HasParts(p, i, TYPE_NAME, Blank(n));
    HasWord(p, i, TYPE_NAME, CONT);
    HasAt(p, i, TYPE_NAME, 12);
    var at := i + 13 + n + |token|;
    HasAt(p, at + |parameters|, CRLF, 0);
    HasFits(p, at, parameters);
    HasFits(p, at + |parameters|, CRLF);
    if parameters != [] {
      HasAt(p, at, parameters, 0);
    }
  }

  lemma HasFits(p: seq<byte>, i: nat, text: seq<byte>)
    requires Has(p, i, text)
    ensures i + |text| <= |p|
  {
  }

  lemma TypeLineTurn(p: seq<byte>, len: nat, i: nat, s: Scan, n: nat, token: seq<byte>, parameters: seq<byte>)
    requires Ready(p, len, i, s, TypeLine(n, token, parameters))
    ensures var l, at := TypeLine(n, token, parameters), i + 13 + n + |token|;
            TurnAt(p, len, i, s) == Go(at, After(s, l)) && Has(p, at, parameters) &&
            at + |parameters| == i + |LineText(l)| && Inert(parameters)
  {
    hide TurnAt, TypeTurn, After, Has, Is4, Sized, Blank, Inert, Without, Padded;
    TypeLineShape(p, i, n, token, parameters);
    AtType(p, len, i, s);
    TypeTextRead(p, i + 13, n, s, token, parameters);
  }

  lemma TypeLineRead(p: seq<byte>, len: nat, i: nat, s: Scan, n: nat, token: seq<byte>, parameters: seq<byte>)
    requires Ready(p, len, i, s, TypeLine(n, token, parameters))
    ensures var l := TypeLine(n, token, parameters);
            ParseFrom(p, len, i, s) == ParseFrom(p, len, i + |LineText(l)| + 2, After(s, l))
  {
    hide TurnAt, ParseFrom, After, Has, Sized, Inert, WellFormed, LineText;
    TypeLineTurn(p, len, i, s, n, token, parameters);
    var at, s' := i + 13 + n + |token|, After(s, TypeLine(n, token, parameters));
    Advance(p, len, i, s, at, s');
    SkipParameters(p, len, at, s', parameters);
  }

  /** The scheme tells where the site begins. */
  lemma SchemeRead(p: seq<byte>, len: nat, at: nat, s: Scan, secure: bool)
    requires Padded(p, len) && Sized(s.info) && at + 8 <= len && Has(p, at, Scheme(secure))
    ensures RefererTurn(p, len, at, s) == RefererHost(p, at + |Scheme(secure)|, s)
  {
    hide RefererHost, Has, Sized;
    var scheme := Scheme(secure);
    HasAt(p, at, scheme, 4);
    HasAt(p, at, scheme, 5);
  }

  lemma SiteRead(p: seq<byte>, from: nat, s: Scan, l: Line)
    requires Sized(s.info) && l.RefererLine? && WellFormed(l)
    requires from + |l.site| < |p| && Has(p, from, l.site) && p[from + |l.site|] in HOST_END
    ensures RefererHost(p, from, s) == Go(from + |l.site|, After(s, l))
  {
    hide LineText, Inert;
    CopiesText(p, from, l.site, HOST_END, MAX_HOSTLEN - 1);
  }

  lemma RefererLineShape(p: seq<byte>, i: nat, l: Line)
    requires l.RefererLine? && WellFormed(l) && Has(p, i, LineText(l)) && Has(p, i + |LineText(l)|, CRLF)
    ensures Is4(p, i, REFE) && Has(p, i + 8, Blank(l.spaces))
    ensures var at := i + 8 + l.spaces; var from := at + |Scheme(l.secure)|;
            at < |p| && p[at] != SPACE && Has(p, at, Scheme(l.secure)) && Has(p, from, l.site) &&
            Has(p, from + |l.site|, l.target) && from + |l.site| < |p| && p[from + |l.site|] in HOST_END
  {
    hide Has, Blank, Inert, Without;
    var blank, scheme := Blank(l.spaces), Scheme(l.secure);
    HasParts(p, i, REFERER_NAME + blank + scheme + l.site, l.target);
    HasParts(p, i, REFERER_NAME + blank + scheme, l.site);
    HasParts(p, i, REFERER_NAME + blank, scheme);
    HasParts(p, i, REFERER_NAME, blank);
    HasWord(p, i, REFERER_NAME, REFE);
    HasAt(p, i + 8 + l.spaces, scheme, 0);
    var end := i + 8 + l.spaces + |scheme| + |l.site|;
    HasAt(p, end + |l.target|, CRLF, 0);
    HasFits(p, end + |l.target|, CRLF);
    if l.target != [] {
      HasAt(p, end, l.target, 0);
    }
  }

  lemma RefererLineTurn(p: seq<byte>, len: nat, i: nat, s: Scan, l: Line)
    requires l.RefererLine? && Ready(p, len, i, s, l)
    ensures var at := i + 8 + l.spaces + |Scheme(l.secure)| + |l.site|;
            TurnAt(p, len, i, s) == Go(at, After(s, l)) && Has(p, at, l.target) && at + |l.target| == i + |LineText(l)|
  {
    hide TurnAt, RefererTurn, RefererHost, After, Has, Is4, Sized, Inert, Without, Scheme, Blank;
    RefererLineShape(p, i, l);
    AtReferer(p, len, i, l.spaces, s);
    SchemeRead(p, len, i + 8 + l.spaces, s, l.secure);
    SiteRead(p, i + 8 + l.spaces + |Scheme(l.secure)|, s, l);
  }

  lemma RefererLineRead(p: seq<byte>, len: nat, i: nat, s: Scan, l: Line)
    requires l.RefererLine? && Ready(p, len, i, s, l)
    ensures ParseFrom(p, len, i, s) == ParseFrom(p, len, i + |LineText(l)| + 2, After(s, l))
  {
    hide TurnAt, ParseFrom, After, Has, Sized, Inert, Without, Scheme, LineText;
    RefererLineTurn(p, len, i, s, l);
    var at, s' := i + 8 + l.spaces + |Scheme(l.secure)| + |l.site|, After(s, l);
    Advance(p, len, i, s, at, s');
    SkipParameters(p, len, at, s', l.target);
  }

  lemma NumberText(n: nat)
    ensures PrintNumber(n) != [] && forall i | 0 <= i < |PrintNumber(n)| :: IsDigit(PrintNumber(n)[i])
    ensures Magnitude(PrintNumber(n)) == n
  {
    var text, ds := PrintNumber(n), Digits(n, Dec);
    forall i | 0 <= i < |ds|
      ensures IsDigit(text[i]) && DigitValue(text[i]) == ds[i]
    {
      assert ds[i] in ds && text[i] == DigitByte(ds, i);
    }
    assert LeadingDigits(text) == |text|;
    var n' := LeadingDigits(text);
    assert seq(n', i requires 0 <= i < n' <= |text| => DigitValue(text[i])) == ds;
    DigitsRoundTrip(n, Dec);
  }

  /** `atoi` reads back every decimal that fits an `int`. */
  lemma AtoiRoundTrip(n: nat)
    requires n < 0x8000_0000
    ensures Atoi(PrintNumber(n)) == n
  {
    NumberText(n);
    assert IsDigit(PrintNumber(n)[0]);
  }

  lemma NumberShort(n: nat)
    requires n < 0x8000_0000
    ensures |PrintNumber(n)| <= 10
  {
    assert Power(Dec, 10) == 10000000000 by { assert Power(Dec, 4) == 10000; assert Power(Dec, 8) == 100000000; }
    DigitsLength(n, Dec, 10);
  }

  lemma AgentBitStaysClear(s: Scan, l: Line)
    requires Sized(s.info) && s.flag & 0x08 == 0
    ensures After(s, l).flag & 0x08 == 0
  {
  }

  lemma LineRead(p: seq<byte>, len: nat, i: nat, s: Scan, l: Line)
    requires Ready(p, len, i, s, l)
    ensures ParseFrom(p, len, i, s) == ParseFrom(p, len, i + |LineText(l)| + 2, After(s, l))
  {
    hide TurnAt, ParseFrom, Has, Padded, Sized, Inert, PrintNumber;
    match l {
      case HostLine(n, host) =>
        HostLineTurn(p, len, i, s, n, host);
        TurnToBreak(p, len, i, s, i + |LineText(l)|, After(s, l));
      case AgentLine(n, agent) =>
        AgentLineTurn(p, len, i, s, n, agent);
        TurnToBreak(p, len, i, s, i + |LineText(l)|, After(s, l));
      case LengthLine(spaces, n) =>
        LengthLineTurn(p, len, i, s, spaces, n);
        TurnToBreak(p, len, i, s, i + |LineText(l)|, After(s, l));
      case TypeLine(n, token, parameters) => TypeLineRead(p, len, i, s, n, token, parameters);
      case RefererLine(_, _, _, _) => RefererLineRead(p, len, i, s, l);
      case OtherLine(text) => SkipLine(p, len, i, text, s);
    }
  }

  // ---- the request line and the list of lines ----

  lemma VersionIsQuiet()
    ensures Inert(VERSION)
  {
  }

  function AfterTarget(path: seq<byte>): (s: Scan)
    requires |path| <= 255
    ensures Sized(s.info)
  {
    Scan(NO_INFO.(path := Terminated(NO_INFO.path, path), plen := |path|), 0)
  }

  lemma TargetRead(p: seq<byte>, len: nat, path: seq<byte>)
    requires Padded(p, len) && Has(p, 0, METHOD) && Has(p, 6, path) && 6 + |path| < len && p[6 + |path|] == SPACE
    requires PathOk(path)
    ensures TurnAt(p, len, 0, Scan(NO_INFO, 0)) == Go(6 + |path|, AfterTarget(path))
  {
    hide CopyEnd, Has;
    HasWord(p, 0, METHOD, POST);
    HasAt(p, 0, METHOD, 5);
    CopiesText(p, 6, path, WORD_END, MAX_PATHLEN - 1);
  }

  lemma RequestLineRead(p: seq<byte>, len: nat, path: seq<byte>)
    requires Padded(p, len) && Has(p, 0, RequestLine(path)) && |RequestLine(path)| <= len
    requires PathOk(path)
    ensures ParseFrom(p, len, 0, Scan(NO_INFO, 0)) == ParseFrom(p, len, |RequestLine(path)|, AfterTarget(path))
  {
    hide TurnAt, ParseFrom, Has, Without, AfterTarget;
    HasParts(p, 0, METHOD + path + VERSION, CRLF);
    HasParts(p, 0, METHOD + path, VERSION);
    HasParts(p, 0, METHOD, path);
    HasAt(p, 6 + |path|, VERSION, 0);
    TargetRead(p, len, path);
    Advance(p, len, 0, Scan(NO_INFO, 0), 6 + |path|, AfterTarget(path));
    VersionIsQuiet();
    SkipParameters(p, len, 6 + |path|, AfterTarget(path), VERSION);
  }

  function AfterAll(s: Scan, lines: seq<Line>): (r: Scan)
    requires Sized(s.info)
    ensures Sized(r.info)
  {
    if lines == [] then s else After(AfterAll(s, lines[..|lines| - 1]), lines[|lines| - 1])
  }

  lemma {:induction false} LinesRead(p: seq<byte>, len: nat, i: nat, s: Scan, lines: seq<Line>)
    requires Padded(p, len) && Sized(s.info) && s.flag & 0x08 == 0 && forall l | l in lines :: WellFormed(l)
    requires Has(p, i, PrintLines(lines)) && i + |PrintLines(lines)| + 2 <= len
    ensures ParseFrom(p, len, i, s) == ParseFrom(p, len, i + |PrintLines(lines)|, AfterAll(s, lines))
    ensures AfterAll(s, lines).flag & 0x08 == 0
  {
    hide TurnAt, ParseFrom, Has, WellFormed, Padded, Sized, After, LineText;
    if lines != [] {
      var init, l := lines[..|lines| - 1], lines[|lines| - 1];
      var at := i + |PrintLines(init)|;
      HasParts(p, i, PrintLines(init) + LineText(l), CRLF);
      HasParts(p, i, PrintLines(init), LineText(l));
      LinesRead(p, len, i, s, init);
      LineRead(p, len, at, AfterAll(s, init), l);
      AgentBitStaysClear(AfterAll(s, init), l);
    }
  }

  // ---- what a list of lines means ----

  /** The last non-empty host. */
  function LastHost(lines: seq<Line>): seq<byte> {
    if lines == [] then []
    else
      match lines[|lines| - 1]
      case HostLine(_, host) => if host == [] then LastHost(lines[..|lines| - 1]) else host
      case _ => LastHost(lines[..|lines| - 1])
  }

  function LastLength(lines: seq<Line>): int {
    if lines == [] then 0
    else
      match lines[|lines| - 1]
      case LengthLine(_, n) => n
      case _ => LastLength(lines[..|lines| - 1])
  }

  /** The first content type. */
  function FirstType(lines: seq<Line>): Option<seq<byte>> {
    if lines == [] then None
    else
      match FirstType(lines[..|lines| - 1])
      case Some(token) => Some(token)
      case None => match lines[|lines| - 1] { case TypeLine(_, token, _) => Some(token) case _ => None }
  }

  function TypeClass(lines: seq<Line>): nat {
    match FirstType(lines)
    case Some(token) => TypeOf(token)
    case None => TYPE_UNKNOWN
  }

  /** The scan has recorded these values, and a type exactly if there was one. */
  ghost predicate Records(s: Scan, path: seq<byte>, host: seq<byte>, token: Option<seq<byte>>, n: int) {
    Sized(s.info) && s.info.path[..s.info.plen] == path && s.info.host[..s.info.hlen] == host &&
    s.info.contentLen == n &&
    match token
    case Some(t) => s.flag == s.flag | 0x03 && s.info.contentType == TypeOf(t)
    case None => s.flag & 0x01 == 0 && s.info.contentType == TYPE_UNKNOWN
  }

  lemma LineMeans(s: Scan, l: Line, path: seq<byte>, host: seq<byte>, token: Option<seq<byte>>, n: int)
    requires WellFormed(l) && Records(s, path, host, token, n)
    ensures Records(After(s, l), path,
                    if l.HostLine? && l.host != [] then l.host else host,
                    if l.TypeLine? && token.None? then Some(l.token) else token,
                    if l.LengthLine? then l.n else n)
  {
    hide TypeOf;
    if l.HostLine? && l.host != [] {
      assert Terminated(s.info.host, l.host)[..|l.host|] == l.host;
    }
  }

  lemma {:induction false} LinesMean(path: seq<byte>, lines: seq<Line>)
    requires |path| <= 255 && forall l | l in lines :: WellFormed(l)
    ensures Records(AfterAll(AfterTarget(path), lines), path, LastHost(lines), FirstType(lines), LastLength(lines))
  {
    hide Records, WellFormed, After, AfterTarget;
    if lines == [] {
      TargetMeans(path);
    } else {
      var init, l := lines[..|lines| - 1], lines[|lines| - 1];
      LinesMean(path, init);
      LineMeans(AfterAll(AfterTarget(path), init), l, path, LastHost(init), FirstType(init), LastLength(init));
    }
  }

  /** What a header without a type leaves in the two low bits of the flag. */
  function HostFlag(lines: seq<Line>): bv8 {
    if exists l | l in lines :: l.HostLine? then 0x02 else 0x00
  }

  lemma {:induction false} HostBit(path: seq<byte>, lines: seq<Line>)
    requires |path| <= 255 && (forall l | l in lines :: WellFormed(l)) && FirstType(lines).None?
    ensures AfterAll(AfterTarget(path), lines).flag & 0x03 == HostFlag(lines)
  {
    hide After, WellFormed, HostFlag, AfterTarget;
    if lines == [] {
      NoFlagYet(path);
    } else {
      var init, last := lines[..|lines| - 1], lines[|lines| - 1];
      assert last in lines;
      HostBit(path, init);
      FlagOfHost(init);
      BitAfter(AfterAll(AfterTarget(path), init), last);
      HostFlagNext(lines);
    }
  }

  lemma NoFlagYet(path: seq<byte>)
    requires |path| <= 255
    ensures AfterTarget(path).flag & 0x03 == HostFlag([])
  {
    hide Terminated;
  }

  lemma HostFlagNext(lines: seq<Line>)
    requires lines != []
    ensures HostFlag(lines) == if lines[|lines| - 1].HostLine? then 0x02 else HostFlag(lines[..|lines| - 1])
  {
    var init, last := lines[..|lines| - 1], lines[|lines| - 1];
    assert lines == init + [last] && last in lines;
    assert forall l | l in init :: l in lines;
  }

  lemma BitAfter(s: Scan, l: Line)
    requires Sized(s.info) && WellFormed(l) && !l.TypeLine? && s.flag & 0x03 in {0x00, 0x02}
    ensures After(s, l).flag & 0x03 == if l.HostLine? then 0x02 else s.flag & 0x03
  {
    hide Terminated, Splice, Without, Inert, LineText, Sized;
    BitsOf(s.flag);
  }

  lemma BitsOf(flag: bv8)
    ensures (flag | 0x02) & 0x03 == (flag & 0x03) | 0x02 && (flag | 0x04) & 0x03 == flag & 0x03
  {
  }

  lemma SameShutOut(p: seq<byte>, len: nat, at: seq<nat>, flag: bv8, flag': bv8, before: nat)
    requires Padded(p, len) && flag & 0x03 == flag' & 0x03
    ensures TypeMet(p, len, at, flag, before) == TypeMet(p, len, at, flag', before)
  {
    hide TypePlace, IsGet, SetsHost, TypeOf, ValueAt;
    assert flag & 0x01 == (flag & 0x03) & 0x01 && flag & 0x02 == (flag & 0x03) & 0x02;
    assert flag' & 0x01 == (flag' & 0x03) & 0x01 && flag' & 0x02 == (flag' & 0x03) & 0x02;
  }

  lemma TargetMeans(path: seq<byte>)
    requires |path| <= 255
    ensures Records(AfterTarget(path), path, [], None, 0)
  {
  }

  lemma HeaderShape(p: seq<byte>, len: nat, path: seq<byte>, lines: seq<Line>, rest: seq<byte>)
    requires Padded(p, len) && p[..len] == PrintHead(path, lines) + rest
    ensures |RequestLine(path)| + |PrintLines(lines)| + |rest| == len
    ensures Has(p, 0, RequestLine(path)) && Has(p, |RequestLine(path)|, PrintLines(lines))
  {
    hide RequestLine, PrintLines, Has;
    HasBeginning(p, len, PrintHead(path, lines) + rest);
    HasParts(p, 0, PrintHead(path, lines), rest);
    HasParts(p, 0, RequestLine(path), PrintLines(lines));
  }

  /** From the first byte to the first one behind the printed lines. */
  lemma HeaderRead(p: seq<byte>, len: nat, path: seq<byte>, lines: seq<Line>, rest: seq<byte>)
    requires Padded(p, len) && p[..len] == PrintHead(path, lines) + rest && 2 <= |rest|
    requires PathOk(path) && forall l | l in lines :: WellFormed(l)
    ensures |rest| <= len
    ensures Parse(p, len, NO_INFO) == ParseFrom(p, len, len - |rest|, AfterAll(AfterTarget(path), lines))
  {
    hide TurnAt, ParseFrom, PathOk, WellFormed, AfterTarget, RequestLine, PrintHead, PrintLines, AfterAll, Has, Padded;
    HeaderShape(p, len, path, lines, rest);
    PathFits(path);
    RequestLineRead(p, len, path);
    StartsClear(path);
    LinesRead(p, len, |RequestLine(path)|, AfterTarget(path), lines);
  }

  lemma PathFits(path: seq<byte>)
    requires PathOk(path)
    ensures |path| <= 255
  {
  }

  lemma HasBeginning(p: seq<byte>, len: nat, text: seq<byte>)
    requires len <= |p| && p[..len] == text
    ensures |text| == len && Has(p, 0, text)
  {
    assert forall j | 0 <= j < len :: p[j] == p[..len][j];
  }

  lemma StartsClear(path: seq<byte>)
    requires |path| <= 255
    ensures AfterTarget(path).flag & 0x08 == 0
  {
  }

  /** Where the scanner looks in the bytes behind the printed lines. */
  function RestCursors(p: seq<byte>, len: nat, path: seq<byte>, lines: seq<Line>, rest: seq<byte>): (r: seq<nat>)
    requires Padded(p, len) && |path| <= 255 && |rest| <= len
    ensures forall k | k in r :: len - |rest| <= k < len
  {
    Visited(p, len, len - |rest|, AfterAll(AfterTarget(path), lines))
  }

  /** Parsing what was printed, whatever bytes come behind the lines: an empty line and the start of the
      body, or a line that the packet cuts off. It succeeds exactly if the scan meets no refusal there.
      The path without its slash and the last host come back unless the scan meets another one there.
      The length is the last one the scan meets there, or else that of the lines; the type is the first
      one of the lines, or else the first one met there. */
  lemma ParseOfPrint(p: seq<byte>, len: nat, path: seq<byte>, lines: seq<Line>, rest: seq<byte>)
    requires Padded(p, len) && p[..len] == PrintHead(path, lines) + rest && 2 <= |rest|
    requires PathOk(path) && forall l | l in lines :: WellFormed(l)
    ensures |rest| <= len
    ensures var r, at := Parse(p, len, NO_INFO), RestCursors(p, len, path, lines, rest); var info := r.s.info;
            (r.ok <==> forall k | k in at :: !Refuses(p, len, k)) &&
            ((forall k | k in at :: !SetsPath(p, len, k)) ==> info.path[..info.plen] == path) &&
            ((forall k | k in at :: !SetsHost(p, len, k)) ==> info.host[..info.hlen] == LastHost(lines)) &&
            info.contentLen == LengthMet(p, len, at, LastLength(lines)) &&
            match FirstType(lines)
            case Some(token) => info.contentType == TypeOf(token)
            case None => info.contentType == TypeMet(p, len, at, HostFlag(lines), TYPE_UNKNOWN)
  {
    hide TurnAt, ParseFrom, Visited, AfterAll, AfterTarget, Padded, Sized, WellFormed, Without, PrintHead,
         Refuses, SetsPath, SetsHost, SetsType, SetsLength, TypeOf, LengthMet, TypeMet, HostFlag;
    var at, s := len - |rest|, AfterAll(AfterTarget(path), lines);
    HeaderRead(p, len, path, lines, rest);
    LinesMean(path, lines);
    ScanVerdict(p, len, at, s);
    ScanKeeps(p, len, at, s);
    ScanLength(p, len, at, s);
    if FirstType(lines).Some? {
      FirstTypeWins(p, len, at, s);
    } else {
      ScanType(p, len, at, s);
      HostBit(path, lines);
      FlagOfHost(lines);
      SameShutOut(p, len, Visited(p, len, at, s), s.flag, HostFlag(lines), TYPE_UNKNOWN);
    }
  }

  lemma FlagOfHost(lines: seq<Line>)
    ensures HostFlag(lines) in {0x00, 0x02} && HostFlag(lines) & 0x03 == HostFlag(lines)
  {
  }

  /** With one line of each kind the order of the lines does not matter, and nothing else of the
      packet does if the scan meets no other path, host or length behind the header. */
  lemma ParseInAnyOrder(p: seq<byte>, len: nat, path: seq<byte>, lines: seq<Line>, rest: seq<byte>,
                        hostLine: Line, typeLine: Line, lengthLine: Line)
    requires Padded(p, len) && p[..len] == PrintHead(path, lines) + rest && 2 <= |rest| <= len
    requires PathOk(path) && forall l | l in lines :: WellFormed(l)
    requires hostLine.HostLine? && typeLine.TypeLine? && lengthLine.LengthLine?
    requires hostLine in lines && typeLine in lines && lengthLine in lines
    requires forall l | l in lines :: l in {hostLine, typeLine, lengthLine} || IsSide(l)
    requires forall k | k in RestCursors(p, len, path, lines, rest) :: Harmless(p, len, k)
    ensures var r := Parse(p, len, NO_INFO); var info := r.s.info;
            r.ok && info.path[..info.plen] == path && info.host[..info.hlen] == hostLine.host &&
            info.contentType == TypeOf(typeLine.token) && info.contentLen == lengthLine.n
  {
    hide Parse, PrintHead, WellFormed, Without, RestCursors, Refuses, SetsPath, SetsHost, SetsType, SetsLength,
         LengthMet, TypeMet;
    ParseOfPrint(p, len, path, lines, rest);
    NoLengthMet(p, len, RestCursors(p, len, path, lines, rest), LastLength(lines));
    OneOfEach(lines, hostLine, typeLine, lengthLine);
  }

  predicate IsSide(l: Line) {
    l.OtherLine? || l.AgentLine? || l.RefererLine?
  }

  predicate Harmless(p: seq<byte>, len: nat, k: nat)
    requires Padded(p, len) && k < len
  {
    !Refuses(p, len, k) && !SetsPath(p, len, k) && !SetsHost(p, len, k) && !SetsLength(p, len, k)
  }

  /** The headers of a part (RFC 7578, section 4.2 and section 4.4) do no harm. */
  lemma PartHeaderIsHarmless(p: seq<byte>, len: nat, k: nat)
    requires Padded(p, len) && k < len && (Has(p, k, DISPOSITION_NAME) || Has(p, k, TYPE_NAME))
    ensures Harmless(p, len, k)
  {
    hide Has;
    if Has(p, k, DISPOSITION_NAME) {
      HasWord(p, k, DISPOSITION_NAME, CONT);
      HasAt(p, k, DISPOSITION_NAME, 12);
    } else {
      HasWord(p, k, TYPE_NAME, CONT);
      HasAt(p, k, TYPE_NAME, 12);
    }
  }

  lemma {:induction false} OneOfEach(lines: seq<Line>, hostLine: Line, typeLine: Line, lengthLine: Line)
    requires hostLine.HostLine? && typeLine.TypeLine? && lengthLine.LengthLine?
    requires forall l | l in lines :: l in {hostLine, typeLine, lengthLine} || IsSide(l)
    ensures LastHost(lines) == if hostLine in lines then hostLine.host else []
    ensures FirstType(lines) == if typeLine in lines then Some(typeLine.token) else None
    ensures LastLength(lines) == if lengthLine in lines then lengthLine.n else 0
  {
    if lines != [] {
      var init, l := lines[..|lines| - 1], lines[|lines| - 1];
      assert lines == init + [l];
      assert l in lines && forall x :: x in lines <==> x in init || x == l;
      OneOfEach(init, hostLine, typeLine, lengthLine);
    }
  }

  // ---- whatever bytes follow ----

  /** The type of the request header stands, whatever bytes come behind the header. */
  lemma HeaderTypeStands(p: seq<byte>, len: nat, path: seq<byte>, lines: seq<Line>, rest: seq<byte>)
    requires Padded(p, len) && p[..len] == PrintHead(path, lines) + rest && 2 <= |rest|
    requires PathOk(path) && forall l | l in lines :: WellFormed(l)
    requires FirstType(lines).Some?
    ensures Parse(p, len, NO_INFO).s.info.contentType == TypeOf(FirstType(lines).value)
  {
    hide TurnAt, ParseFrom, AfterAll, AfterTarget, Padded, WellFormed, Without, PrintHead;
    HeaderRead(p, len, path, lines, rest);
    LinesMean(path, lines);
    FirstTypeWins(p, len, len - |rest|, AfterAll(AfterTarget(path), lines));
  }
}
