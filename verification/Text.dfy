/** The string tools: replacing, splitting, and the log formatter, all against one notion: the pieces
    of a text between the occurrences of a pattern, taken from the left without overlap. */
module Text {
  import opened Sequences
  import opened Wrappers

  predicate MatchesAt(s: string, pat: string, i: nat)
  {
    i + |pat| <= |s| && s[i..i + |pat|] == pat
  }

  /** `std::string::find`: the first occurrence at or after a position. */
  function Find(s: string, pat: string, from: nat): (r: Option<nat>)
    ensures r.Some? ==> from <= r.value && r.value + |pat| <= |s|
    decreases |s| + 1 - from
  {
    if from > |s| then None
    else if MatchesAt(s, pat, from) then Some(from)
    else Find(s, pat, from + 1)
  }

  /** `std::string::find_first_of`: the first character that occurs in the set. */
  function FindFirstOf(s: string, chars: string, from: nat): (r: Option<nat>)
    ensures r.Some? ==> from <= r.value < |s| && chars != []
    decreases |s| - from
  {
    if from >= |s| then None
    else if s[from] in chars then Some(from)
    else FindFirstOf(s, chars, from + 1)
  }

  /** It is an occurrence, and there is none before it; without a result there is none at all. */
  lemma {:induction false} FindIsFirst(s: string, pat: string, from: nat)
    ensures Find(s, pat, from).Some? ==> MatchesAt(s, pat, Find(s, pat, from).value)
    ensures forall i: nat ::
      from <= i && (Find(s, pat, from).Some? ==> i < Find(s, pat, from).value) ==> !MatchesAt(s, pat, i)
    decreases |s| + 1 - from
  {
    if from <= |s| && !MatchesAt(s, pat, from) {
      FindIsFirst(s, pat, from + 1);
    }
  }

  /** The same in the terms of the text: what is found is the pattern, and an occurrence at or after the
      position means that one is found, no later. */
  lemma FoundSpelledOut(s: string, pat: string, from: nat, i: nat)
    ensures match Find(s, pat, from)
      case None => true
      case Some(k) => from <= k && k + |pat| <= |s| && s[k..k + |pat|] == pat
    ensures from <= i && i + |pat| <= |s| && s[i..i + |pat|] == pat ==>
      Find(s, pat, from).Some? && Find(s, pat, from).value <= i
  {
    FindIsFirst(s, pat, from);
    if from <= i && i + |pat| <= |s| && s[i..i + |pat|] == pat {
      assert MatchesAt(s, pat, i);
    }
  }

  /** The search for a set finds a character of the set, and misses none before it. */
  lemma {:induction false} FirstOfSpelledOut(s: string, chars: string, from: nat, i: nat)
    ensures match FindFirstOf(s, chars, from)
      case None => true
      case Some(k) => from <= k < |s| && s[k] in chars
    ensures from <= i < |s| && s[i] in chars ==>
      FindFirstOf(s, chars, from).Some? && FindFirstOf(s, chars, from).value <= i
    decreases |s| - from
  {
    if from < |s| && s[from] !in chars {
      FirstOfSpelledOut(s, chars, from + 1, i);
    }
  }

  lemma MatchBehind(done: string, rest: string, pat: string, i: nat)
    ensures MatchesAt(done + rest, pat, |done| + i) <==> MatchesAt(rest, pat, i)
  {
    if i + |pat| <= |rest| {
      assert (done + rest)[|done| + i..|done| + i + |pat|] == rest[i..i + |pat|];
    }
  }

  function Shifted(r: Option<nat>, k: nat): Option<nat>
  {
    match r case None => None case Some(i) => Some(k + i)
  }

  /** Searching behind a prefix is searching the rest. */
  lemma {:induction false} FindBehind(done: string, rest: string, pat: string, from: nat)
    ensures Find(done + rest, pat, |done| + from) == Shifted(Find(rest, pat, from), |done|)
    decreases |rest| + 1 - from
  {
    MatchBehind(done, rest, pat, from);
    if from <= |rest| && !MatchesAt(rest, pat, from) {
      FindBehind(done, rest, pat, from + 1);
    }
  }

  lemma MatchInPrefix(s: string, pat: string, n: nat, i: nat)
    requires n <= |s| && MatchesAt(s[..n], pat, i)
    ensures MatchesAt(s, pat, i)
  {
    assert s[..n][i..i + |pat|] == s[i..i + |pat|];
  }

  // ---------------------------------------------------------------- pieces

  function Pieces(s: string, pat: string): (ps: seq<string>)
    requires pat != []
    ensures ps != []
    decreases |s|
  {
    match Find(s, pat, 0)
    case None => [s]
    case Some(i) => [s[..i]] + Pieces(s[i + |pat|..], pat)
  }

  function Join(ps: seq<string>, sep: string): string
    requires ps != []
  {
    if |ps| == 1 then ps[0] else ps[0] + sep + Join(ps[1..], sep)
  }

  /** The pieces put back together with the pattern are the text, and none of them contains the pattern. */
  lemma {:induction false} PiecesSplit(s: string, pat: string)
    requires pat != []
    ensures Join(Pieces(s, pat), pat) == s
    ensures forall p <- Pieces(s, pat) :: Find(p, pat, 0) == None
    decreases |s|
  {
    match Find(s, pat, 0) {
      case None =>
      case Some(i) =>
        var rest := s[i + |pat|..];
        FindIsFirst(s, pat, 0);
        PiecesSplit(rest, pat);
        assert Pieces(s, pat)[1..] == Pieces(rest, pat);
        assert s[..i] + pat + rest == s;
        FindIsFirst(s[..i], pat, 0);
        if Find(s[..i], pat, 0).Some? {
          MatchInPrefix(s, pat, i, Find(s[..i], pat, 0).value);
          assert false;
        }
    }
  }

  /** `replace_all`: the result is edited in place while the position moves past each new value. */
  method ReplaceAll(str: string, oldValue: string, newValue: string) returns (res: string)
    requires oldValue != []
    ensures res == Join(Pieces(str, oldValue), newValue)
  {
    hide Pieces, Join, Find;
    res := str;
    var pos := 0;
    ghost var done, rest := "", str;
    while true
      invariant res == done + rest && pos == |done|
      invariant done + Join(Pieces(rest, oldValue), newValue) == Join(Pieces(str, oldValue), newValue)
      decreases |rest|
    {
      FindBehind(done, rest, oldValue, 0);
      var at := Find(res, oldValue, pos);
      if at == None {
        NothingToReplace(rest, oldValue, newValue);
        return;
      }
      ghost var i := Find(rest, oldValue, 0).value;
      ghost var tail := rest[i + |oldValue|..];
      Splice(done, rest, i, |oldValue|, newValue);
      res := res[..at.value] + newValue + res[at.value + |oldValue|..];
      pos := at.value + |newValue|;
      ReplaceStep(done, rest, oldValue, newValue, i);
      done, rest := done + rest[..i] + newValue, tail;
    }
  }

  /** The loop's state, or None once it has stopped. */
  type Turn = Option<(string, nat)>

  /** One turn of the loop: the next occurrence is replaced and the position moves behind it. */
  function ReplaceTurn(res: string, pos: nat, oldValue: string, newValue: string): Turn
  {
    match Find(res, oldValue, pos)
    case None => None
    case Some(at) => Some((res[..at] + newValue + res[at + |oldValue|..], at + |newValue|))
  }

  function ReplaceTurns(turn: Turn, oldValue: string, newValue: string, k: nat): Turn
    decreases k
  {
    if k == 0 || turn == None then turn
    else ReplaceTurns(ReplaceTurn(turn.value.0, turn.value.1, oldValue, newValue), oldValue, newValue, k - 1)
  }

  /** Every turn leaves fewer characters behind the position. */
  lemma {:induction false} ReplaceTurnsStop(res: string, pos: nat, oldValue: string, newValue: string) returns (k: nat)
    requires oldValue != [] && pos <= |res|
    ensures ReplaceTurns(Some((res, pos)), oldValue, newValue, k) == None
    decreases |res| - pos
  {
    var next := ReplaceTurn(res, pos, oldValue, newValue);
    if next == None {
      k := 1;
    } else {
      var rest := ReplaceTurnsStop(next.value.0, next.value.1, oldValue, newValue);
      k := rest + 1;
    }
  }

  /** The empty text occurs everywhere, so there is always another turn. */
  lemma {:induction false} ReplaceTurnsGoOn(res: string, pos: nat, newValue: string, k: nat)
    requires pos <= |res|
    ensures ReplaceTurns(Some((res, pos)), [], newValue, k).Some?
    decreases k
  {
    if k == 0 {
    } else {
      assert MatchesAt(res, [], pos);
      var next := ReplaceTurn(res, pos, [], newValue);
      ReplaceTurnsGoOn(next.value.0, next.value.1, newValue, k - 1);
    }
  }

  /** The loop ends on an input if and only if the old value is not empty, whatever the new value. */
  lemma ReplaceAllEndsIff(str: string, oldValue: string, newValue: string)
    ensures (exists k: nat :: ReplaceTurns(Some((str, 0)), oldValue, newValue, k) == None) <==> oldValue != []
  {
    if oldValue != [] {
      var k := ReplaceTurnsStop(str, 0, oldValue, newValue);
    } else {
      forall k: nat
        ensures ReplaceTurns(Some((str, 0)), oldValue, newValue, k) != None
      {
        ReplaceTurnsGoOn(str, 0, newValue, k);
      }
    }
  }

  lemma NothingToReplace(s: string, pat: string, sep: string)
    requires pat != [] && Find(s, pat, 0) == None
    ensures Join(Pieces(s, pat), sep) == s
  {
  }

  /** What the result is, without the pieces: nothing happens to a text without the old value; otherwise the
      first occurrence from the left becomes the new value, and the text behind it is done by itself. */
  lemma ReplacesFromTheLeft(s: string, oldValue: string, newValue: string, i: nat)
    requires oldValue != []
    ensures Find(s, oldValue, 0) == None ==> Join(Pieces(s, oldValue), newValue) == s
    ensures Find(s, oldValue, 0) == Some(i) ==>
      Join(Pieces(s, oldValue), newValue) == s[..i] + newValue + Join(Pieces(s[i + |oldValue|..], oldValue), newValue)
  {
    if Find(s, oldValue, 0) == Some(i) {
      PiecesStep(s, oldValue, i);
      JoinCons(s[..i], Pieces(s[i + |oldValue|..], oldValue), newValue);
    }
  }

  lemma Splice(done: string, rest: string, i: nat, n: nat, value: string)
    requires i + n <= |rest|
    ensures var s, at := done + rest, |done| + i;
      s[..at] + value + s[at + n..] == (done + rest[..i] + value) + rest[i + n..]
  {
    assert (done + rest)[..|done| + i] == done + rest[..i];
    assert (done + rest)[|done| + i + n..] == rest[i + n..];
  }

  lemma ReplaceStep(done: string, rest: string, pat: string, sep: string, i: nat)
    requires pat != [] && Find(rest, pat, 0) == Some(i)
    ensures done + Join(Pieces(rest, pat), sep) == (done + rest[..i] + sep) + Join(Pieces(rest[i + |pat|..], pat), sep)
  {
    var piece, ps := rest[..i], Pieces(rest[i + |pat|..], pat);
    PiecesStep(rest, pat, i);
    JoinCons(piece, ps, sep);
    hide Pieces, Find, Join;
    assert done + (piece + sep + Join(ps, sep)) == (done + piece + sep) + Join(ps, sep);
  }

  lemma JoinCons(p: string, ps: seq<string>, sep: string)
    requires ps != []
    ensures Join([p] + ps, sep) == p + sep + Join(ps, sep)
  {
    assert ([p] + ps)[1..] == ps;
  }

  // ---------------------------------------------------------------- split

  /** What both `split` overloads drop: an empty piece at the end. */
  function Trimmed(ps: seq<string>): seq<string>
    requires ps != []
  {
    if ps[|ps| - 1] == [] then ps[..|ps| - 1] else ps
  }

  /** The pieces `split` makes of the text from a position on. */
  function PiecesFrom(str: string, pat: string, pos: nat): seq<string>
    requires pat != [] && pos <= |str|
  {
    Trimmed(Pieces(str[pos..], pat))
  }

  lemma FindFrom(str: string, pat: string, pos: nat)
    requires pos <= |str|
    ensures Find(str, pat, pos) == Shifted(Find(str[pos..], pat, 0), pos)
  {
    assert str[..pos] + str[pos..] == str;
    FindBehind(str[..pos], str[pos..], pat, 0);
  }

  lemma TrimmedLast(s: string, pat: string)
    requires pat != [] && Find(s, pat, 0) == None
    ensures Trimmed(Pieces(s, pat)) == if s == [] then [] else [s]
  {
  }

  /** The pieces from a position on: the rest, or up to the next occurrence and then behind it. */
  lemma TrimmedFrom(str: string, pat: string, pos: nat, at: Option<nat>, ps: seq<string>)
    requires pat != [] && pos <= |str| && at == Find(str, pat, pos) && ps == PiecesFrom(str, pat, pos)
    ensures at == None ==> ps == if pos == |str| then [] else [str[pos..]]
    ensures at.Some? ==> ps == [str[pos..at.value]] + PiecesFrom(str, pat, at.value + |pat|)
  {
    var rest := str[pos..];
    FindFrom(str, pat, pos);
    if at == None {
      TrimmedLast(rest, pat);
    } else {
      var i := at.value - pos;
      TrimmedStep(rest, pat, i);
      assert rest[..i] == str[pos..at.value] && rest[i + |pat|..] == str[at.value + |pat|..];
    }
  }

  /** `split` by a character: `getline` until it extracts nothing. */
  method SplitByChar(str: string, delim: char) returns (res: seq<string>)
    ensures res == Trimmed(Pieces(str, [delim]))
    ensures var ps := Pieces(str, [delim]);
      res == if ps[|ps| - 1] == [] then ps[..|ps| - 1] else ps
  {
    res := [];
    var pos := 0;
    ghost var all := Trimmed(Pieces(str, [delim]));
    ghost var left := all;
    assert str[0..] == str;
    while pos < |str|
      invariant pos <= |str| && left == PiecesFrom(str, [delim], pos)
      invariant res + left == all
    {
      var at := Find(str, [delim], pos);
      TrimmedFrom(str, [delim], pos, at, left);
      if at == None {
        res := res + [str[pos..]];
        return;
      }
      ghost var after := PiecesFrom(str, [delim], at.value + 1);
      Associates(res, [str[pos..at.value]], after);
      res, left := res + [str[pos..at.value]], after;
      pos := at.value + 1;
    }
    TrimmedFrom(str, [delim], pos, Find(str, [delim], pos), left);
    FindFrom(str, [delim], pos);
  }

  lemma TrimmedStep(s: string, pat: string, i: nat)
    requires pat != [] && Find(s, pat, 0) == Some(i)
    ensures Trimmed(Pieces(s, pat)) == [s[..i]] + PiecesFrom(s, pat, i + |pat|)
  {
    var qs := Pieces(s[i + |pat|..], pat);
    PiecesStep(s, pat, i);
    hide Pieces, Trimmed;
    TrimmedCons(s[..i], qs);
  }

  lemma PiecesStep(s: string, pat: string, i: nat)
    requires pat != [] && Find(s, pat, 0) == Some(i)
    ensures Pieces(s, pat) == [s[..i]] + Pieces(s[i + |pat|..], pat)
  {
  }

  lemma TrimmedCons(p: string, ps: seq<string>)
    requires ps != []
    ensures Trimmed([p] + ps) == [p] + Trimmed(ps)
  {
    var n := |ps|;
    assert ([p] + ps)[n] == ps[n - 1];
    assert ([p] + ps)[..n] == [p] + ps[..n - 1];
  }

  /** What `split` by a string returns, or None where it throws: its first search is for any one
      character of the delimiter, the later ones for the delimiter. */
  function SplitByString(str: string, delim: string): Option<seq<string>>
  {
    match FindFirstOf(str, delim, 0)
    case None => Some(if str == [] then [] else [str])
    case Some(i) =>
      if i + |delim| > |str| then None
      else Some([str[..i]] + PiecesFrom(str, delim, i + |delim|))
  }

  method Split(str: string, delim: string) returns (res: Option<seq<string>>)
    ensures res == SplitByString(str, delim)
  {
    hide Find, FindFirstOf, Pieces, PiecesFrom, Trimmed;
    var pos1 := 0;
    var pos2 := FindFirstOf(str, delim, pos1);
    if pos2 == None {
      assert str[0..] == str;
      return Some(if |str| != 0 then [str[pos1..]] else []);
    }
    var pieces := [str[..pos2.value]];
    pos1 := pos2.value + |delim|;
    if pos1 > |str| {
      // The next search starts beyond the end and finds nothing; `substr` then throws.
      return None;
    }
    pos2 := Find(str, delim, pos1);
    ghost var left := PiecesFrom(str, delim, pos1);
    hide SplitByString;
    while pos2 != None
      invariant pos1 <= |str| && pos2 == Find(str, delim, pos1) && left == PiecesFrom(str, delim, pos1)
      invariant Some(pieces + left) == SplitByString(str, delim)
      decreases |str| - pos1
    {
      var next := pos2.value + |delim|;
      ghost var after := PiecesFrom(str, delim, next);
      TrimmedFrom(str, delim, pos1, pos2, left);
      Associates(pieces, [str[pos1..pos2.value]], after);
      pieces, left := pieces + [str[pos1..pos2.value]], after;
      pos1 := next;
      pos2 := Find(str, delim, pos1);
    }
    TrimmedFrom(str, delim, pos1, None, left);
    assert pieces + [] == pieces;
    if pos1 != |str| {
      pieces := pieces + [str[pos1..]];
    }
    res := Some(pieces);
  }

  /** An occurrence of the delimiter starts with one of its characters. */
  lemma {:induction false} FirstOfComesFirst(str: string, delim: string, from: nat)
    requires delim != []
    ensures match Find(str, delim, from)
      case None => true
      case Some(i) => FindFirstOf(str, delim, from).Some? && FindFirstOf(str, delim, from).value <= i < |str|
    decreases |str| + 1 - from
  {
    if MatchesAt(str, delim, from) {
      assert str[from..from + |delim|][0] == str[from] == delim[0];
    } else if from <= |str| {
      FirstOfComesFirst(str, delim, from + 1);
    }
  }

  lemma FirstPiece(str: string, delim: string)
    requires delim != [] && str != []
    ensures Trimmed(Pieces(str, delim)) != []
    ensures |Trimmed(Pieces(str, delim))[0]| == match Find(str, delim, 0) case None => |str| case Some(i) => i
  {
    if Find(str, delim, 0).Some? {
      TrimmedStep(str, delim, Find(str, delim, 0).value);
    }
  }

  /** The string overload splits by its delimiter exactly when the first character it stops at starts
      the first occurrence of the delimiter, or there is neither; otherwise it cuts too early or throws. */
  lemma SplitByStringIsRightIff(str: string, delim: string)
    requires delim != []
    ensures SplitByString(str, delim) == Some(Trimmed(Pieces(str, delim)))
      <==> FindFirstOf(str, delim, 0) == Find(str, delim, 0)
  {
    if FindFirstOf(str, delim, 0) == Find(str, delim, 0) {
      RightIfEqual(str, delim);
    } else {
      FirstOfComesFirst(str, delim, 0);
      CutsTooEarly(str, delim);
    }
  }

  lemma RightIfEqual(str: string, delim: string)
    requires delim != [] && FindFirstOf(str, delim, 0) == Find(str, delim, 0)
    ensures SplitByString(str, delim) == Some(Trimmed(Pieces(str, delim)))
  {
    hide Find, FindFirstOf, Pieces, Trimmed, PiecesFrom;
    match Find(str, delim, 0) {
      case None => TrimmedLast(str, delim);
      case Some(i) => TrimmedStep(str, delim, i);
    }
  }

  lemma CutsTooEarly(str: string, delim: string)
    requires delim != [] && FindFirstOf(str, delim, 0).Some? && FindFirstOf(str, delim, 0) != Find(str, delim, 0)
    ensures SplitByString(str, delim) != Some(Trimmed(Pieces(str, delim)))
  {
    FirstOfComesFirst(str, delim, 0);
    FirstPiece(str, delim);
    var i := FindFirstOf(str, delim, 0).value;
    var r := SplitByString(str, delim);
    assert r.Some? ==> r.value[0] == str[..i];
  }

  lemma FirstOfIs(str: string, chars: string, i: nat)
    requires i < |str| && str[i] in chars && forall j :: 0 <= j < i ==> str[j] !in chars
    ensures FindFirstOf(str, chars, 0) == Some(i)
  {
    hide FindFirstOf;
    FirstOfSpelledOut(str, chars, 0, i);
  }

  /** What the string overload does in general: it cuts in front of the first character of the delimiter,
      skips as many characters as the delimiter has, whatever they are, and splits only what is behind them
      by the delimiter; if there are fewer, it throws. */
  lemma SplitByStringSpelledOut(str: string, delim: string, i: nat)
    requires i < |str| && str[i] in delim && forall j :: 0 <= j < i ==> str[j] !in delim
    ensures SplitByString(str, delim) ==
      if i + |delim| > |str| then None else Some([str[..i]] + Trimmed(Pieces(str[i + |delim|..], delim)))
  {
    hide Pieces, Trimmed, FindFirstOf;
    FirstOfIs(str, delim, i);
  }

  /** A delimiter of more than one character does go wrong: "xb" by "ab" throws. */
  lemma SplitByStringThrows()
    ensures SplitByString("xb", "ab") == None
    ensures Trimmed(Pieces("xb", "ab")) == ["xb"]
  {
    var s, pat := "xb", "ab";
    assert s[0] !in pat && s[1] in pat;
    assert FindFirstOf(s, pat, 0) == FindFirstOf(s, pat, 1) == Some(1);
    assert !MatchesAt(s, pat, 0) by { assert s[0..2][0] == 'x'; }
    assert Find(s, pat, 1) == Find(s, pat, 2) == Find(s, pat, 3) == None;
  }

  lemma {:induction false} OneCharacter(str: string, c: char, from: nat)
    ensures FindFirstOf(str, [c], from) == Find(str, [c], from)
    decreases |str| + 1 - from
  {
    if from < |str| {
      assert str[from..from + 1] == [str[from]];
    }
    if from <= |str| {
      OneCharacter(str, c, from + 1);
    }
  }

  /** For a delimiter of one character the two overloads agree on every string. */
  lemma OverloadsAgree(str: string, c: char)
    ensures SplitByString(str, [c]) == Some(Trimmed(Pieces(str, [c])))
  {
    OneCharacter(str, c, 0);
    SplitByStringIsRightIff(str, [c]);
  }

  lemma {:induction false} LastPieceEmptyIff(str: string, c: char)
    ensures var ps := Pieces(str, [c]);
      ps[|ps| - 1] == [] <==> str == [] || str[|str| - 1] == c
    decreases |str|
  {
    FindIsFirst(str, [c], 0);
    match Find(str, [c], 0) {
      case None =>
        if str != [] && str[|str| - 1] == c {
          assert MatchesAt(str, [c], |str| - 1);
        }
      case Some(i) =>
        var rest := str[i + 1..];
        LastPieceEmptyIff(rest, c);
        assert Pieces(str, [c]) == [str[..i]] + Pieces(rest, [c]);
        assert str[i..i + 1][0] == c;
        if rest != [] {
          assert rest[|rest| - 1] == str[|str| - 1];
        }
    }
  }

  function JoinAll(ps: seq<string>, sep: string): string
  {
    if ps == [] then [] else Join(ps, sep)
  }

  lemma {:induction false} JoinEmptyLast(ps: seq<string>, sep: string)
    requires |ps| >= 2 && ps[|ps| - 1] == []
    ensures Join(ps, sep) == Join(ps[..|ps| - 1], sep) + sep
  {
    var qs := ps[..|ps| - 1];
    if |ps| == 2 {
      assert ps[1..] == [ps[1]];
    } else {
      JoinEmptyLast(ps[1..], sep);
      assert ps[1..][..|ps[1..]| - 1] == qs[1..];
      assert ps[0] + sep + (Join(qs[1..], sep) + sep) == (ps[0] + sep + Join(qs[1..], sep)) + sep;
    }
  }

  /** Replacing a character is joining the split with the new value, unless the string ends in the
      character and the new value is not empty: `split` has dropped the piece behind it. */
  lemma ReplaceIsSplitAndJoinIff(str: string, c: char, newValue: string)
    ensures Join(Pieces(str, [c]), newValue) == JoinAll(Trimmed(Pieces(str, [c])), newValue)
      <==> !(str != [] && str[|str| - 1] == c) || newValue == []
  {
    var ps := Pieces(str, [c]);
    LastPieceEmptyIff(str, c);
    if ps[|ps| - 1] == [] {
      if |ps| == 1 {
        PiecesSplit(str, [c]);
      } else {
        JoinEmptyLast(ps, newValue);
      }
    }
  }
}
