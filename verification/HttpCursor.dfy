/** Which places of a packet the scanner looks at, and what stands there that has an effect. */
module HttpCursor {
  import opened Bytes
  import opened HttpParse

  /** The cursor positions of a scan from `i` on. The bytes in between are jumped over. */
  function Visited(p: seq<byte>, len: nat, i: nat, s: Scan): (r: seq<nat>)
    requires Padded(p, len) && Sized(s.info)
    ensures forall k | k in r :: i <= k < len
    decreases len - i
  {
    if i >= len then []
    else
      match TurnAt(p, len, i, s)
      case Reject => [i]
      case Go(at, s') => [i] + Visited(p, len, at + 1, s')
  }

  /** The cursor positions of the scan of a packet. */
  function Cursors(p: seq<byte>, len: nat): (r: seq<nat>)
    requires Padded(p, len)
    ensures forall k | k in r :: k < len
  {
    Visited(p, len, 0, Scan(NO_INFO, 0))
  }

  // ---- what can stand at a cursor position ----

  /** A method whose target has no slash, or a `Refe` with no scheme behind it. */
  predicate Refuses(p: seq<byte>, len: nat, k: nat)
    requires Padded(p, len) && k < len
  {
    (Is4(p, k, GET) && k + 5 < len && p[k + 4] != SLASH) ||
    (Is4(p, k, POST) && k + 6 < len && p[k + 5] != SLASH) ||
    (Is4(p, k, REFE) && k + 20 < len && NoScheme(p, len, PastSpaces(p, k + 8)))
  }

  predicate NoScheme(p: seq<byte>, len: nat, at: nat)
    requires Padded(p, len)
  {
    at <= len && p[at + 4] != COLON && p[at + 5] != COLON
  }

  predicate SetsPath(p: seq<byte>, len: nat, k: nat) {
    (Is4(p, k, GET) && k + 5 < len) || (Is4(p, k, POST) && k + 6 < len)
  }

  predicate SetsHost(p: seq<byte>, len: nat, k: nat) {
    Is4(p, k, HOST) && k + 9 < len
  }

  /** A Content header of twelve letters, like Content-Type. */
  predicate SetsType(p: seq<byte>, len: nat, k: nat)
    requires Padded(p, len)
  {
    Is4(p, k, CONT) && k + 13 < len && p[k + 12] == COLON
  }

  /** A Content header whose name ends in `th` after fourteen letters, like Content-Length. */
  predicate SetsLength(p: seq<byte>, len: nat, k: nat)
    requires Padded(p, len)
  {
    Is4(p, k, CONT) && k + 13 < len && p[k + 12] == 0x74 && p[k + 13] == 0x68 && p[k + 14] == COLON
  }

  // ---- one turn ----

  lemma SpacesEnd(p: seq<byte>, len: nat, i: nat)
    requires Padded(p, len) && i <= len
    ensures PastSpaces(p, i) <= len
  {
    assert p[len] == NUL;
  }

  lemma RefusesExactly(p: seq<byte>, len: nat, k: nat, s: Scan)
    requires Padded(p, len) && Sized(s.info) && k < len
    ensures TurnAt(p, len, k, s).Reject? <==> Refuses(p, len, k)
  {
    hide CopyEnd, Terminated, HasQuery, Sized, Padded, HostTurn, AgentTurn, ContentTurn;
    if k + 8 <= len {
      SpacesEnd(p, len, k + 8);
    }
  }

  /** What a turn that finds nothing of the kind leaves alone. */
  ghost predicate Untouched(p: seq<byte>, len: nat, k: nat, s: Scan, s': Scan)
    requires Padded(p, len)
  {
    (!SetsPath(p, len, k) ==> s'.info.path == s.info.path && s'.info.plen == s.info.plen) &&
    (!SetsHost(p, len, k) ==> s'.info.host == s.info.host && s'.info.hlen == s.info.hlen) &&
    (!SetsType(p, len, k) ==> s'.info.contentType == s.info.contentType) &&
    (!SetsLength(p, len, k) ==> s'.info.contentLen == s.info.contentLen)
  }

  ghost predicate Touches(p: seq<byte>, len: nat, k: nat, s: Scan, t: Turn)
    requires Padded(p, len)
  {
    t.Go? ==> Untouched(p, len, k, s, t.s)
  }

  lemma TargetTouches(p: seq<byte>, len: nat, k: nat, s: Scan)
    requires Padded(p, len) && Sized(s.info) && k < len
    ensures Is4(p, k, GET) ==> Touches(p, len, k, s, GetTurn(p, len, k, s))
    ensures Is4(p, k, POST) ==> Touches(p, len, k, s, PostTurn(p, len, k, s))
  {
    hide CopyEnd, Terminated, HasQuery, Padded, Sized;
  }

  lemma ContentTouches(p: seq<byte>, len: nat, k: nat, s: Scan)
    requires Padded(p, len) && Sized(s.info) && k < len
    ensures Is4(p, k, CONT) ==> Touches(p, len, k, s, ContentTurn(p, len, k, s))
  {
    hide ValueAt, Atoi, TypeOf, Padded, Sized;
  }

  lemma HostTouches(p: seq<byte>, len: nat, k: nat, s: Scan)
    requires Padded(p, len) && Sized(s.info) && k < len
    ensures Is4(p, k, HOST) ==> Touches(p, len, k, s, HostTurn(p, len, k, s))
  {
    hide CopyEnd, Terminated, Padded, Sized;
  }

  lemma OthersTouch(p: seq<byte>, len: nat, k: nat, s: Scan)
    requires Padded(p, len) && Sized(s.info) && k < len
    ensures Touches(p, len, k, s, ReferTurn(p, len, k, s)) && Touches(p, len, k, s, AgentTurn(p, len, k, s))
  {
    hide CopyEnd, Terminated, Padded, Sized, Is4;
  }

  lemma TurnTouches(p: seq<byte>, len: nat, k: nat, s: Scan)
    requires Padded(p, len) && Sized(s.info) && k < len
    ensures Touches(p, len, k, s, TurnAt(p, len, k, s))
  {
    hide Padded, Sized, Is4, GetTurn, PostTurn, ContentTurn, HostTurn, ReferTurn, AgentTurn;
    TargetTouches(p, len, k, s);
    ContentTouches(p, len, k, s);
    HostTouches(p, len, k, s);
    OthersTouch(p, len, k, s);
  }

  // ---- a whole scan ----

  /** A scan succeeds exactly if no cursor position refuses. */
  lemma {:induction false} ScanVerdict(p: seq<byte>, len: nat, i: nat, s: Scan)
    requires Padded(p, len) && Sized(s.info)
    ensures ParseFrom(p, len, i, s).ok <==> forall k | k in Visited(p, len, i, s) :: !Refuses(p, len, k)
    decreases len - i
  {
    hide TurnAt, Padded, Sized, Refuses;
    if i < len {
      RefusesExactly(p, len, i, s);
      match TurnAt(p, len, i, s)
      case Reject => assert i in Visited(p, len, i, s);
      case Go(at, s') => ScanVerdict(p, len, at + 1, s');
    }
  }

  /** What no cursor position sets is at the end what it was at the start. */
  lemma {:induction false} ScanKeeps(p: seq<byte>, len: nat, i: nat, s: Scan)
    requires Padded(p, len) && Sized(s.info)
    ensures var at, r := Visited(p, len, i, s), ParseFrom(p, len, i, s).s.info;
            ((forall k | k in at :: !SetsPath(p, len, k)) ==> r.path == s.info.path && r.plen == s.info.plen) &&
            ((forall k | k in at :: !SetsHost(p, len, k)) ==> r.host == s.info.host && r.hlen == s.info.hlen) &&
            ((forall k | k in at :: !SetsType(p, len, k)) ==> r.contentType == s.info.contentType) &&
            ((forall k | k in at :: !SetsLength(p, len, k)) ==> r.contentLen == s.info.contentLen)
    decreases len - i
  {
    hide TurnAt, Padded, Sized, SetsPath, SetsHost, SetsType, SetsLength;
    if i < len {
      TurnTouches(p, len, i, s);
      assert i in Visited(p, len, i, s);
      match TurnAt(p, len, i, s)
      case Reject =>
      case Go(at, s') =>
        assert forall k | k in Visited(p, len, at + 1, s') :: k in Visited(p, len, i, s);
        ScanKeeps(p, len, at + 1, s');
    }
  }

  // ---- the content type stands once it is recorded ----

  ghost predicate Kept(s: Scan, t: Turn) {
    t.Go? ==> t.s.flag | s.flag == t.s.flag && (s.flag == s.flag | 0x03 ==> t.s.info.contentType == s.info.contentType)
  }

  lemma RequestKeeps(p: seq<byte>, len: nat, i: nat, s: Scan)
    requires Padded(p, len) && Sized(s.info) && i < len
    ensures Kept(s, GetTurn(p, len, i, s)) && Kept(s, PostTurn(p, len, i, s))
  {
    hide CopyEnd, Padded, Terminated, HasQuery;
  }

  lemma ContentKeeps(p: seq<byte>, len: nat, i: nat, s: Scan)
    requires Padded(p, len) && Sized(s.info) && i < len
    ensures Kept(s, ContentTurn(p, len, i, s))
  {
    hide ValueAt, Padded, Atoi, TypeOf;
  }

  lemma HostKeeps(p: seq<byte>, len: nat, i: nat, s: Scan)
    requires Padded(p, len) && Sized(s.info) && i < len
    ensures Kept(s, HostTurn(p, len, i, s)) && Kept(s, AgentTurn(p, len, i, s))
  {
    hide CopyEnd, Padded, Terminated;
  }

  lemma ReferKeeps(p: seq<byte>, len: nat, i: nat, s: Scan)
    requires Padded(p, len) && Sized(s.info) && i < len
    ensures Kept(s, ReferTurn(p, len, i, s))
  {
    hide CopyEnd, Padded, Terminated;
  }

  lemma TurnKeeps(p: seq<byte>, len: nat, i: nat, s: Scan)
    requires Padded(p, len) && Sized(s.info) && i < len
    ensures Kept(s, TurnAt(p, len, i, s))
  {
    hide Padded, Is4, GetTurn, PostTurn, ContentTurn, HostTurn, ReferTurn, AgentTurn;
    RequestKeeps(p, len, i, s);
    ContentKeeps(p, len, i, s);
    HostKeeps(p, len, i, s);
    ReferKeeps(p, len, i, s);
  }

  /** Once a content type is recorded no later header changes it, and flag bits are only gained. */
  lemma {:induction false} FirstTypeWins(p: seq<byte>, len: nat, i: nat, s: Scan)
    requires Padded(p, len) && Sized(s.info)
    ensures var r := ParseFrom(p, len, i, s);
            r.s.flag | s.flag == r.s.flag && (s.flag == s.flag | 0x03 ==> r.s.info.contentType == s.info.contentType)
    decreases len - i
  {
    hide TurnAt, Padded, Sized;
    if i < len {
      match TurnAt(p, len, i, s)
      case Reject =>
      case Go(at, s') =>
        TurnKeeps(p, len, i, s);
        FirstTypeWins(p, len, at + 1, s');
    }
  }

  // ---- what type and length a scan records ----

  /** Which of the cursor positions is the last with a length. */
  function LengthPlace(p: seq<byte>, len: nat, at: seq<nat>): (r: Option<nat>)
    requires Padded(p, len)
    ensures r.Some? ==> r.value < |at| && SetsLength(p, len, at[r.value])
    ensures forall j: nat | j < |at| && SetsLength(p, len, at[j]) :: r.Some? && j <= r.value
  {
    if at == [] then None
    else
      match LengthPlace(p, len, at[1..])
      case Some(j) => Some(j + 1)
      case None => if SetsLength(p, len, at[0]) then Some(0) else None
  }

  /** Which of the cursor positions is the first with a type. */
  function TypePlace(p: seq<byte>, len: nat, at: seq<nat>): (r: Option<nat>)
    requires Padded(p, len)
    ensures r.Some? ==> r.value < |at| && SetsType(p, len, at[r.value])
    ensures forall j: nat | j < |at| && SetsType(p, len, at[j]) :: r.Some? && r.value <= j
  {
    if at == [] then None
    else if SetsType(p, len, at[0]) then Some(0)
    else
      match TypePlace(p, len, at[1..])
      case Some(j) => Some(j + 1)
      case None => None
  }

  /** The last length met, or the one from before. */
  function LengthMet(p: seq<byte>, len: nat, at: seq<nat>, before: int): int
    requires Padded(p, len)
  {
    match LengthPlace(p, len, at)
    case Some(j) => Atoi(ValueAt(p, at[j] + 15).0)
    case None => before
  }

  predicate IsGet(p: seq<byte>, len: nat, k: nat) {
    Is4(p, k, GET) && k + 5 < len
  }

  /** A GET and a Host together leave no room for a type. */
  predicate ShutOut(p: seq<byte>, len: nat, at: seq<nat>, flag: bv8) {
    (flag & 0x01 != 0 || exists k | k in at :: IsGet(p, len, k)) &&
    (flag & 0x02 != 0 || exists k | k in at :: SetsHost(p, len, k))
  }

  /** The first type met, unless it is shut out, or the one from before. */
  function TypeMet(p: seq<byte>, len: nat, at: seq<nat>, flag: bv8, before: nat): nat
    requires Padded(p, len)
  {
    match TypePlace(p, len, at)
    case Some(j) => if ShutOut(p, len, at[..j], flag) then before else TypeOf(ValueAt(p, at[j] + 13).0)
    case None => before
  }

  lemma LengthIsSet(p: seq<byte>, len: nat, k: nat, s: Scan)
    requires Padded(p, len) && Sized(s.info) && k < len && SetsLength(p, len, k)
    ensures var t := TurnAt(p, len, k, s); t.Go? && t.s.info.contentLen == Atoi(ValueAt(p, k + 15).0)
  {
    hide ValueAt, Atoi;
  }

  lemma TypeIsSet(p: seq<byte>, len: nat, k: nat, s: Scan)
    requires Padded(p, len) && Sized(s.info) && k < len && SetsType(p, len, k)
    ensures k + 13 <= |p|
    ensures var t := TurnAt(p, len, k, s); t.Go? && t.s == Typed(s, ValueAt(p, k + 13).0)
  {
    hide ValueAt, Typed;
  }

  /** The two low bits of the flag: a GET sets the first, a Host the second, a type both. */
  ghost predicate Flagged(p: seq<byte>, len: nat, k: nat, s: Scan, t: Turn)
    requires Padded(p, len)
  {
    t.Go? && !SetsType(p, len, k) ==>
      (t.s.flag & 0x01 != 0 <==> s.flag & 0x01 != 0 || IsGet(p, len, k)) &&
      (t.s.flag & 0x02 != 0 <==> s.flag & 0x02 != 0 || SetsHost(p, len, k))
  }

  lemma RequestFlags(p: seq<byte>, len: nat, k: nat, s: Scan)
    requires Padded(p, len) && Sized(s.info) && k < len
    ensures Is4(p, k, GET) ==> Flagged(p, len, k, s, GetTurn(p, len, k, s))
    ensures Is4(p, k, POST) ==> Flagged(p, len, k, s, PostTurn(p, len, k, s))
  {
    hide CopyEnd, Terminated, HasQuery, Padded, Sized;
  }

  lemma ContentFlags(p: seq<byte>, len: nat, k: nat, s: Scan)
    requires Padded(p, len) && Sized(s.info) && k < len
    ensures Is4(p, k, CONT) ==> Flagged(p, len, k, s, ContentTurn(p, len, k, s))
  {
    hide ValueAt, Atoi, TypeOf, Padded, Sized;
  }

  lemma OtherFlags(p: seq<byte>, len: nat, k: nat, s: Scan)
    requires Padded(p, len) && Sized(s.info) && k < len
    ensures Is4(p, k, HOST) ==> Flagged(p, len, k, s, HostTurn(p, len, k, s))
    ensures Is4(p, k, REFE) ==> Flagged(p, len, k, s, ReferTurn(p, len, k, s))
    ensures Is4(p, k, USER) ==> Flagged(p, len, k, s, AgentTurn(p, len, k, s))
  {
    hide CopyEnd, Terminated, Padded, Sized;
  }

  lemma TurnFlags(p: seq<byte>, len: nat, k: nat, s: Scan)
    requires Padded(p, len) && Sized(s.info) && k < len
    ensures Flagged(p, len, k, s, TurnAt(p, len, k, s))
  {
    RequestFlags(p, len, k, s);
    ContentFlags(p, len, k, s);
    OtherFlags(p, len, k, s);
    hide Padded, Sized, GetTurn, PostTurn, ContentTurn, HostTurn, ReferTurn, AgentTurn;
  }

  /** The length at the end of a scan is that of the last cursor position with a length. */
  lemma {:induction false} ScanLength(p: seq<byte>, len: nat, i: nat, s: Scan)
    requires Padded(p, len) && Sized(s.info)
    ensures ParseFrom(p, len, i, s).s.info.contentLen == LengthMet(p, len, Visited(p, len, i, s), s.info.contentLen)
    decreases len - i
  {
    hide TurnAt, Padded, Sized, SetsLength, Atoi, ValueAt, LengthMet;
    if i >= len {
      LengthMetNowhere(p, len, s.info.contentLen);
    } else {
      TurnTouches(p, len, i, s);
      if SetsLength(p, len, i) {
        LengthIsSet(p, len, i, s);
      }
      match TurnAt(p, len, i, s)
      case Reject =>
        assert Visited(p, len, i, s) == [i] + [];
        LengthMetNext(p, len, i, [], s.info.contentLen);
        LengthMetNowhere(p, len, s.info.contentLen);
      case Go(at, s') =>
        ScanLength(p, len, at + 1, s');
        LengthMetNext(p, len, i, Visited(p, len, at + 1, s'), s.info.contentLen);
    }
  }

  lemma LengthMetNowhere(p: seq<byte>, len: nat, before: int)
    requires Padded(p, len)
    ensures LengthMet(p, len, [], before) == before
  {
  }

  lemma NoLengthMet(p: seq<byte>, len: nat, at: seq<nat>, before: int)
    requires Padded(p, len) && forall k | k in at :: !SetsLength(p, len, k)
    ensures LengthMet(p, len, at, before) == before
  {
    hide SetsLength;
  }

  lemma NoTypeMet(p: seq<byte>, len: nat, at: seq<nat>, flag: bv8, before: nat)
    requires Padded(p, len) && forall k | k in at :: !SetsType(p, len, k)
    ensures TypeMet(p, len, at, flag, before) == before
  {
    hide SetsType;
  }

  lemma LengthMetNext(p: seq<byte>, len: nat, i: nat, rest: seq<nat>, before: int)
    requires Padded(p, len)
    ensures SetsLength(p, len, i) ==> i + 15 <= |p|
    ensures LengthMet(p, len, [i] + rest, before)
         == LengthMet(p, len, rest, if SetsLength(p, len, i) then Atoi(ValueAt(p, i + 15).0) else before)
  {
    hide Atoi, ValueAt;
    assert ([i] + rest)[1..] == rest;
  }

  /** The type at the end of a scan is that of the first cursor position with a type, unless a GET and
      a Host have shut it out. */
  lemma {:induction false} ScanType(p: seq<byte>, len: nat, i: nat, s: Scan)
    requires Padded(p, len) && Sized(s.info)
    ensures ParseFrom(p, len, i, s).s.info.contentType
         == TypeMet(p, len, Visited(p, len, i, s), s.flag, s.info.contentType)
    decreases len - i
  {
    hide TurnAt, Padded, Sized, SetsType, TypeOf, ValueAt, IsGet, SetsHost, ShutOut;
    if i < len {
      if SetsType(p, len, i) {
        FirstTypeStays(p, len, i, s);
      } else {
        TurnTouches(p, len, i, s);
        TurnFlags(p, len, i, s);
        match TurnAt(p, len, i, s)
        case Reject =>
        case Go(at, s') =>
          ScanType(p, len, at + 1, s');
          var rest := Visited(p, len, at + 1, s');
          assert Visited(p, len, i, s)[1..] == rest;
          match TypePlace(p, len, rest)
          case Some(j) => ShutOutLater(p, len, i, rest[..j], s.flag, s'.flag);
            assert Visited(p, len, i, s)[..j + 1] == [i] + rest[..j];
          case None =>
      }
    }
  }

  lemma ShutOutLater(p: seq<byte>, len: nat, i: nat, at: seq<nat>, flag: bv8, flag': bv8)
    requires flag' & 0x01 != 0 <==> flag & 0x01 != 0 || IsGet(p, len, i)
    requires flag' & 0x02 != 0 <==> flag & 0x02 != 0 || SetsHost(p, len, i)
    ensures ShutOut(p, len, at, flag') == ShutOut(p, len, [i] + at, flag)
  {
    hide IsGet, SetsHost;
    assert i in [i] + at && forall k | k in at :: k in [i] + at;
  }

  lemma FirstTypeStays(p: seq<byte>, len: nat, i: nat, s: Scan)
    requires Padded(p, len) && Sized(s.info) && i < len && SetsType(p, len, i)
    ensures ParseFrom(p, len, i, s).s.info.contentType
         == TypeMet(p, len, Visited(p, len, i, s), s.flag, s.info.contentType)
  {
    hide TurnAt, Padded, Sized, TypeOf, ValueAt, SetsType;
    TypeIsSet(p, len, i, s);
    match TurnAt(p, len, i, s)
    case Go(at, s') =>
      assert Visited(p, len, i, s)[0] == i && Visited(p, len, i, s)[..0] == [];
      FlagsAreFull(s.flag);
      FirstTypeWins(p, len, at + 1, s');
  }

  lemma FlagsAreFull(flag: bv8)
    ensures flag == flag | 0x03 <==> flag & 0x01 != 0 && flag & 0x02 != 0
    ensures flag | 0x03 == (flag | 0x03) | 0x03
  {
  }
}
