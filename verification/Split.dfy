/** Cutting a string at a delimiter. */
module Split {
  import opened Bytes

  predicate At(s: string, i: nat, pattern: string) {
    i + |pattern| <= |s| && s[i..i + |pattern|] == pattern
  }

  /** `std::string::find`: the first occurrence at or behind `i`. */
  function Find(s: string, pattern: string, i: nat): (r: Option<nat>)
    ensures r.Some? ==> i <= r.value && At(s, r.value, pattern)
    ensures forall k: nat | i <= k && At(s, k, pattern) :: r.Some? && r.value <= k
    decreases |s| - i
  {
    if At(s, i, pattern) then Some(i)
    else if i >= |s| then None
    else Find(s, pattern, i + 1)
  }

  /** The pieces the loop finds from `i` on. */
  function Pieces(s: string, pattern: string, i: nat): seq<string>
    requires pattern != ""
    decreases |s| - i
  {
    match Find(s, pattern, i)
    case Some(pos) => [s[i..pos]] + Pieces(s, pattern, pos + |pattern|)
    case None => []
  }

  /** An empty pattern is found where the loop stands and does not move it on. */
  lemma EmptyStandsStill(s: string, i: nat)
    requires i < |s|
    ensures Find(s, "", i) == Some(i) && i + |""| == i
  {
    assert At(s, i, "");
  }

  /** Where the loop stands at the beginning of its round `n`, if it has not ended before. */
  function IndexAt(s: string, pattern: string, n: nat): (r: Option<nat>)
    ensures r.Some? ==> r.value < |s|
  {
    if n == 0 then if s == "" then None else Some(0)
    else
      match IndexAt(s, pattern, n - 1)
      case None => None
      case Some(i) =>
        var next := match Find(s, pattern, i) case Some(pos) => pos + |pattern| case None => i + 1;
        if next < |s| then Some(next) else None
  }

  /** With an empty pattern every round stands at the beginning: in a text that is not empty the loop never ends. */
  lemma {:induction false} EmptyNeverEnds(s: string, n: nat)
    requires s != ""
    ensures IndexAt(s, "", n) == Some(0)
  {
    if n > 0 {
      EmptyNeverEnds(s, n - 1);
      EmptyStandsStill(s, 0);
    }
  }

  method Split(str: string, pattern: string, result: seq<string>) returns (result': seq<string>)
    requires pattern == "" ==> str == ""
    ensures result' == result + if pattern == "" then [] else Pieces(str + pattern, pattern, 0)
  {
    hide Find;
    var s := str + pattern;
    result' := result;
    var i := 0;
    while i < |s|
      invariant if pattern == "" then result' == result
                else result' + Pieces(s, pattern, i) == result + Pieces(s, pattern, 0)
      decreases |s| - i
    {
      match Find(s, pattern, i) {
        case Some(pos) =>
          result' := result' + [s[i..pos]];
          i := pos + |pattern| - 1;
        case None =>
          NothingBehind(s, pattern, i);
      }
      i := i + 1;
    }
    if pattern != "" {
      NothingAtEnd(s, pattern, i);
    }
  }

  lemma NothingAtEnd(s: string, pattern: string, i: nat)
    requires pattern != "" && |s| <= i
    ensures Pieces(s, pattern, i) == []
  {
  }

  lemma NothingBehind(s: string, pattern: string, i: nat)
    requires pattern != "" && Find(s, pattern, i).None?
    ensures Pieces(s, pattern, i + 1) == []
  {
  }

  // ---- joining the pieces again ----

  function Join(pieces: seq<string>, pattern: string): string {
    if pieces == [] then "" else if |pieces| == 1 then pieces[0] else pieces[0] + pattern + Join(pieces[1..], pattern)
  }

  /** How far the matches from `i` on reach. */
  function Reach(s: string, pattern: string, i: nat): nat
    requires pattern != ""
    decreases |s| - i
  {
    match Find(s, pattern, i)
    case Some(pos) => Reach(s, pattern, pos + |pattern|)
    case None => i
  }

  lemma JoinOne(piece: string, rest: seq<string>, pattern: string)
    ensures Join([piece] + rest, pattern) == if rest == [] then piece else piece + pattern + Join(rest, pattern)
  {
    assert ([piece] + rest)[1..] == rest;
  }

  lemma FoundAt(s: string, pattern: string, i: nat)
    requires Find(s, pattern, i).Some?
    ensures var pos := Find(s, pattern, i).value;
            i <= pos && pos + |pattern| <= |s| && s[i..pos + |pattern|] == s[i..pos] + pattern
  {
  }

  lemma JoinGrows(s: string, pattern: string, i: nat, next: nat, end: nat, piece: string, rest: seq<string>)
    requires i <= next <= end <= |s| && s[i..next] == piece + pattern && rest != []
    requires Join(rest, pattern) + pattern == s[next..end]
    ensures Join([piece] + rest, pattern) + pattern == s[i..end]
  {
    hide Join;
    JoinOne(piece, rest, pattern);
    var joined := Join(rest, pattern);
    assert piece + pattern + joined + pattern == piece + pattern + (joined + pattern);
    assert s[i..end] == s[i..next] + s[next..end];
  }

  lemma {:induction false} JoinReaches(s: string, pattern: string, i: nat)
    requires pattern != "" && Find(s, pattern, i).Some?
    ensures i <= Reach(s, pattern, i) <= |s|
    ensures Join(Pieces(s, pattern, i), pattern) + pattern == s[i..Reach(s, pattern, i)]
    decreases |s| - i
  {
    hide Find, Join, At;
    FoundAt(s, pattern, i);
    var pos := Find(s, pattern, i).value;
    var next := pos + |pattern|;
    var piece, rest := s[i..pos], Pieces(s, pattern, next);
    if Find(s, pattern, next).Some? {
      JoinReaches(s, pattern, next);
      JoinGrows(s, pattern, i, next, Reach(s, pattern, next), piece, rest);
    } else {
      JoinOne(piece, rest, pattern);
    }
  }

  function Divide(str: string, pattern: string): seq<string>
    requires pattern != ""
  {
    Pieces(str + pattern, pattern, 0)
  }

  lemma DelimiterAtEnd(str: string, pattern: string)
    ensures At(str + pattern, |str|, pattern)
  {
  }

  /** Joining gives the string back exactly if the last match is the delimiter that was appended. */
  lemma JoinsBackIfReached(str: string, pattern: string)
    requires pattern != ""
    ensures Join(Divide(str, pattern), pattern) == str <==> Reach(str + pattern, pattern, 0) == |str + pattern|
  {
    var s := str + pattern;
    DelimiterAtEnd(str, pattern);
    JoinReaches(s, pattern, 0);
    var joined := Join(Divide(str, pattern), pattern);
    assert joined + pattern == s[..Reach(s, pattern, 0)];
    if Reach(s, pattern, 0) == |s| {
      assert joined + pattern == str + pattern;
      assert |joined| == |str| && joined == (joined + pattern)[..|str|] == (str + pattern)[..|str|] == str;
    }
  }

  /** No proper beginning of the pattern is also an ending of it. */
  ghost predicate Unbordered(pattern: string) {
    forall k: nat | 0 < k < |pattern| :: pattern[..k] != pattern[|pattern| - k..]
  }

  lemma {:induction false} ReachesEnd(str: string, pattern: string, i: nat)
    requires pattern != "" && Unbordered(pattern) && i <= |str|
    ensures Reach(str + pattern, pattern, i) == |str + pattern|
    decreases |str| - i
  {
    var s := str + pattern;
    DelimiterAtEnd(str, pattern);
    var pos := Find(s, pattern, i).value;
    var next := pos + |pattern|;
    if pos < |str| {
      if |str| < next {
        Overlap(str, pattern, pos);
      }
      ReachesEnd(str, pattern, next);
    } else {
      assert Find(s, pattern, |s|).None?;
    }
  }

  /** A match that reaches into the appended delimiter shows a border of the pattern. */
  lemma Overlap(str: string, pattern: string, pos: nat)
    requires At(str + pattern, pos, pattern) && pos < |str| < pos + |pattern|
    ensures var k := pos + |pattern| - |str|; 0 < k < |pattern| && pattern[..k] == pattern[|pattern| - k..]
  {
    var s, k := str + pattern, pos + |pattern| - |str|;
    assert pattern[..k] == s[|str|..|str| + k];
    assert s[pos..pos + |pattern|][|pattern| - k..] == s[|str|..|str| + k];
  }

  /** A border makes the appended delimiter overlap an earlier match, which hides it. */
  lemma BorderLosesText(pattern: string, k: nat)
    requires 0 < k < |pattern| && pattern[..k] == pattern[|pattern| - k..]
    ensures var str := pattern[..|pattern| - k]; Join(Divide(str, pattern), pattern) != str
  {
    var str := pattern[..|pattern| - k];
    var s := str + pattern;
    assert s[0..|pattern|] == str + pattern[..k] == pattern;
    assert Find(s, pattern, 0) == Some(0);
    assert Find(s, pattern, |pattern|).None?;
    JoinsBackIfReached(str, pattern);
  }

  /** Splitting and joining are inverse for every string exactly if the delimiter has no border. */
  lemma JoinsBackExactly(pattern: string)
    requires pattern != ""
    ensures (forall str :: Join(Divide(str, pattern), pattern) == str) <==> Unbordered(pattern)
  {
    if Unbordered(pattern) {
      forall str
        ensures Join(Divide(str, pattern), pattern) == str
      {
        ReachesEnd(str, pattern, 0);
        JoinsBackIfReached(str, pattern);
      }
    } else {
      var k: nat :| 0 < k < |pattern| && pattern[..k] == pattern[|pattern| - k..];
      BorderLosesText(pattern, k);
    }
  }

  // ---- one-character delimiters, as in the list of devices ----

  function Occurrences(s: string, c: char): nat {
    if s == "" then 0 else (if s[0] == c then 1 else 0) + Occurrences(s[1..], c)
  }

  lemma {:induction false} OccurrencesSplit(a: string, b: string, c: char)
    ensures Occurrences(a + b, c) == Occurrences(a, c) + Occurrences(b, c)
  {
    if a == "" {
      assert a + b == b;
    } else {
      OccurrencesSplit(a[1..], b, c);
      assert (a + b)[1..] == a[1..] + b;
    }
  }

  lemma {:induction false} NoOccurrence(s: string, c: char)
    requires c !in s
    ensures Occurrences(s, c) == 0
  {
    if s != "" {
      NoOccurrence(s[1..], c);
    }
  }

  lemma CleanBetween(s: string, c: char, i: nat, j: nat)
    requires i <= j <= |s| && forall k: nat | i <= k < j :: !At(s, k, [c])
    ensures c !in s[i..j]
  {
    forall k | i <= k < j
      ensures s[k] != c
    {
      assert !At(s, k, [c]);
      assert s[k..k + 1] == [s[k]];
    }
  }

  lemma OccurrencesBehind(s: string, c: char, i: nat, pos: nat)
    requires i <= pos < |s| && s[pos] == c && c !in s[i..pos]
    ensures Occurrences(s[i..], c) == 1 + Occurrences(s[pos + 1..], c)
  {
    assert s[i..] == s[i..pos] + s[pos..];
    OccurrencesSplit(s[i..pos], s[pos..], c);
    NoOccurrence(s[i..pos], c);
    assert s[pos..][1..] == s[pos + 1..];
  }

  lemma {:induction false} PiecesAreClean(s: string, c: char, i: nat)
    requires i <= |s|
    ensures forall piece | piece in Pieces(s, [c], i) :: c !in piece
    ensures |Pieces(s, [c], i)| == Occurrences(s[i..], c)
    decreases |s| - i
  {
    hide Find, Occurrences;
    match Find(s, [c], i) {
      case Some(pos) =>
        PiecesAreClean(s, c, pos + 1);
        CleanBetween(s, c, i, pos);
        assert s[pos..pos + 1] == [c];
        OccurrencesBehind(s, c, i, pos);
      case None =>
        CleanBetween(s, c, i, |s|);
        assert s[i..] == s[i..|s|];
        NoOccurrence(s[i..], c);
    }
  }

  /** The pieces contain no delimiter, are one more than the delimiters, and join back. */
  lemma SplitAtCharacter(str: string, c: char)
    ensures forall piece | piece in Divide(str, [c]) :: c !in piece
    ensures |Divide(str, [c])| == Occurrences(str, c) + 1
    ensures Join(Divide(str, [c]), [c]) == str
  {
    PiecesAreClean(str + [c], c, 0);
    OccurrencesSplit(str, [c], c);
    assert (str + [c])[0..] == str + [c];
    ReachesEnd(str, [c], 0);
    JoinsBackIfReached(str, [c]);
  }
}
