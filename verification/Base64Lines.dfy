/** Line breaks in Base64 text: PEM (section 2 of RFC 7468), MIME (section 6.8 of RFC 2045), and the
    decoder that removes them again. */
module Base64Lines {
  import opened Sequences
  import opened Wrappers
  import opened Bytes
  import opened Base64
  import opened Base64Laws

  const NEWLINE: Byte := '\n' as int
  const PEM_LINE := 64
  const MIME_LINE := 76

  /** The text cut into lines of d characters, a break between each two. */
  function Lines(s: seq<Byte>, d: nat): seq<Byte>
    requires d >= 1
    decreases |s|
  {
    if |s| <= d then s else s[..d] + [NEWLINE] + Lines(s[d..], d)
  }

  /** Whether the loop is still running after k turns, from a text of this size and this position: each
      turn inserts a break and moves the position behind the next line. */
  function Breaking(size: nat, pos: nat, distance: nat, k: nat): bool
    decreases k
  {
    pos < size && (k == 0 || Breaking(size + 1, pos + distance + 1, distance, k - 1))
  }

  lemma {:induction false} BreakingStops(size: nat, pos: nat, distance: nat, k: nat)
    requires distance >= 1 && pos + k >= size
    ensures !Breaking(size, pos, distance, k)
    decreases k
  {
    if k == 0 {
    } else {
      BreakingStops(size + 1, pos + distance + 1, distance, k - 1);
    }
  }

  lemma {:induction false} BreakingGoesOn(size: nat, pos: nat, k: nat)
    requires pos < size
    ensures Breaking(size, pos, 0, k)
    decreases k
  {
    if k == 0 {
    } else {
      BreakingGoesOn(size + 1, pos + 1, k - 1);
    }
  }

  /** The insertion into a text that is not empty ends if and only if the distance is not 0. */
  lemma InsertLinebreaksEndsIff(size: nat, distance: nat)
    requires size > 0
    ensures (exists k: nat :: !Breaking(size, distance, distance, k)) <==> distance >= 1
  {
    if distance >= 1 {
      BreakingStops(size, distance, distance, size);
    } else {
      forall k: nat
        ensures Breaking(size, distance, distance, k)
      {
        BreakingGoesOn(size, 0, k);
      }
    }
  }

  /** `insert_linebreaks`: breaks are inserted in place, from the front, while the text grows under
      the loop. The empty text is returned at once, whatever the distance. */
  method InsertLinebreaks(s: seq<Byte>, distance: nat) returns (str: seq<Byte>)
    requires s != [] ==> distance >= 1
    ensures str == if s == [] then [] else Lines(s, distance)
  {
    str := s;
    if |str| == 0 {
      return [];
    }
    var pos := distance;
    ghost var done, left := [], s;
    while pos < |str|
      invariant str == done + left && pos == |done| + distance
      invariant done + Lines(left, distance) == Lines(s, distance)
      decreases |left|
    {
      assert str[..pos] == done + left[..distance] && str[pos..] == left[distance..];
      str := str[..pos] + [NEWLINE] + str[pos..];
      assert done + Lines(left, distance) == (done + left[..distance] + [NEWLINE]) + Lines(left[distance..], distance);
      done, left := done + left[..distance] + [NEWLINE], left[distance..];
      pos := pos + distance + 1;
    }
  }

  method EncodePem(b: seq<Byte>) returns (str: seq<Byte>)
    requires |b| < UINT_RANGE
    ensures str == Lines(Encoded(false, b), 64)
  {
    var s := Encode(b, false);
    str := InsertLinebreaks(s, PEM_LINE);
  }

  method EncodeMime(b: seq<Byte>) returns (str: seq<Byte>)
    requires |b| < UINT_RANGE
    ensures str == Lines(Encoded(false, b), 76)
  {
    var s := Encode(b, false);
    str := InsertLinebreaks(s, MIME_LINE);
  }

  // ---------------------------------------------------------------- where the characters go

  lemma DivStep(i: nat, d: nat)
    requires d >= 1 && i >= d
    ensures i / d == (i - d) / d + 1
  {
    var q, r := (i - d) / d, (i - d) % d;
    assert i == d * (q + 1) + r;
    DivIs(i, d, q + 1, r);
  }

  lemma DivIs(i: nat, d: nat, q: nat, r: nat)
    requires d >= 1 && i == d * q + r && r < d
    ensures i / d == q
  {
    var q', r' := i / d, i % d;
    assert i == d * q' + r' && 0 <= r' < d;
    assert q' > q ==> d * q' >= d * (q + 1);
    assert q' < q ==> d * q >= d * (q' + 1);
  }

  lemma DivSmall(i: nat, d: nat)
    requires i < d
    ensures i / d == 0
  {
    DivIs(i, d, 0, i);
  }

  /** The number of breaks: one after every d characters, none at the end. */
  lemma {:induction false} LinesLength(s: seq<Byte>, d: nat)
    requires d >= 1 && s != []
    ensures |Lines(s, d)| == |s| + (|s| - 1) / d
    decreases |s|
  {
    if |s| <= d {
      DivSmall(|s| - 1, d);
    } else {
      LinesLength(s[d..], d);
      DivStep(|s| - 1, d);
    }
  }

  lemma BehindTheBreak(s: seq<Byte>, d: nat, k: nat)
    requires d >= 1 && |s| > d && k < |Lines(s[d..], d)|
    ensures d + 1 + k < |Lines(s, d)| && Lines(s, d)[d + 1 + k] == Lines(s[d..], d)[k]
  {
  }

  /** The character at i moves to i + i / d. */
  lemma {:induction false} CharacterMoves(s: seq<Byte>, d: nat, i: nat, to: nat)
    requires d >= 1 && i < |s| && to == i + i / d
    ensures to < |Lines(s, d)| && Lines(s, d)[to] == s[i]
    decreases |s|
  {
    if i < d {
      DivSmall(i, d);
    } else {
      DivStep(i, d);
      CharacterMoves(s[d..], d, i - d, to - d - 1);
      BehindTheBreak(s, d, to - d - 1);
    }
  }

  lemma {:induction false} NoBreakAtTheEnd(s: seq<Byte>, d: nat)
    requires d >= 1 && s != [] && NEWLINE !in s
    ensures Lines(s, d) != [] && Lines(s, d)[|Lines(s, d)| - 1] != NEWLINE
    decreases |s|
  {
    if |s| > d {
      NoBreakAtTheEnd(s[d..], d);
    }
  }

  lemma FirstLine(s: seq<Byte>, d: nat, j: nat)
    requires d >= 1 && j < |Lines(s, d)| && j <= d
    ensures j < |s| && Lines(s, d)[j] == if j < d then s[j] else NEWLINE
  {
  }

  /** The last place of a line of d characters and its break. */
  ghost predicate LineEnd(j: nat, d: nat)
  {
    (j + 1) % (d + 1) == 0
  }

  lemma FirstLineEnd(j: nat, d: nat)
    requires j <= d
    ensures LineEnd(j, d) <==> j == d
  {
    if j < d {
      ModSmall(j + 1, d + 1);
    }
  }

  lemma LineEndStep(j: nat, d: nat)
    requires j > d
    ensures LineEnd(j, d) <==> LineEnd(j - d - 1, d)
  {
    ModStep(j + 1, d + 1);
  }

  /** Position j of the broken text is a break exactly when j + 1 is a multiple of d + 1: every line
      but the last has exactly d characters, and the last has 1 to d. */
  lemma {:induction false} BreaksEveryLine(s: seq<Byte>, d: nat, j: nat)
    requires d >= 1 && j < |Lines(s, d)| && '\n' as int !in s
    ensures Lines(s, d)[j] == '\n' as int <==> (j + 1) % (d + 1) == 0
    decreases |s|
  {
    if j <= d {
      FirstLine(s, d, j);
      FirstLineEnd(j, d);
    } else {
      BehindTheBreak(s, d, j - d - 1);
      BreaksEveryLine(s[d..], d, j - d - 1);
      LineEndStep(j, d);
    }
  }

  lemma ModSmall(i: nat, d: nat)
    requires i < d
    ensures i % d == i
  {
  }

  lemma ModStep(i: nat, d: nat)
    requires 1 <= d <= i
    ensures i % d == (i - d) % d
  {
    DivStep(i, d);
    assert i == d * (i / d) + i % d && i - d == d * ((i - d) / d) + (i - d) % d;
    assert d * (i / d) == d * ((i - d) / d) + d;
  }

  // ---------------------------------------------------------------- and back

  /** `std::remove` of the breaks. */
  function WithoutBreaks(s: seq<Byte>): seq<Byte>
  {
    if s == [] then [] else (if s[0] == NEWLINE then [] else [s[0]]) + WithoutBreaks(s[1..])
  }

  /** `base64_decode(s, true)`. */
  method DecodeLines(s: seq<Byte>) returns (r: Result<seq<Byte>, DecodeError>)
    ensures r == Decoded(WithoutBreaks(s))
  {
    if |s| == 0 {
      return Ok([]);
    }
    var copy: seq<Byte> := [];
    assert s[0..] == s;
    for i := 0 to |s|
      invariant copy + WithoutBreaks(s[i..]) == WithoutBreaks(s)
    {
      assert s[i..][1..] == s[i + 1..];
      if s[i] != NEWLINE {
        copy := copy + [s[i]];
      }
    }
    assert copy == WithoutBreaks(s);
    r := Decode(copy);
  }

  lemma {:induction false} WithoutBreaksConcat(s: seq<Byte>, t: seq<Byte>)
    ensures WithoutBreaks(s + t) == WithoutBreaks(s) + WithoutBreaks(t)
  {
    if s == [] {
      assert s + t == t;
    } else {
      assert (s + t)[1..] == s[1..] + t;
      WithoutBreaksConcat(s[1..], t);
    }
  }

  lemma {:induction false} NothingToRemove(s: seq<Byte>)
    requires NEWLINE !in s
    ensures WithoutBreaks(s) == s
  {
    if s == [] {
    } else {
      NothingToRemove(s[1..]);
    }
  }

  lemma {:induction false} BreaksComeOut(s: seq<Byte>, d: nat)
    requires d >= 1 && NEWLINE !in s
    ensures WithoutBreaks(Lines(s, d)) == s
    decreases |s|
  {
    if |s| <= d {
      NothingToRemove(s);
    } else {
      var line, rest := s[..d], s[d..];
      BreaksComeOut(rest, d);
      WithoutBreaksConcat(line + [NEWLINE], Lines(rest, d));
      assert WithoutBreaks(line + [NEWLINE]) == line by {
        WithoutBreaksConcat(line, [NEWLINE]);
        NothingToRemove(line);
        assert [NEWLINE][1..] == [];
      }
    }
  }

  lemma NoBreakInEncoding(url: bool, b: seq<Byte>)
    ensures NEWLINE !in Encoded(url, b)
  {
    forall i | 0 <= i < |Encoded(url, b)|
      ensures Encoded(url, b)[i] != NEWLINE
    {
      PaddingIsAtTheEnd(url, b, i);
    }
  }

  /** The removal takes out every break and nothing else, and keeps the order. */
  lemma {:induction false} BreaksRemoved(s: seq<Byte>, c: Byte)
    ensures IsSubsequence(WithoutBreaks(s), s)
    ensures multiset(WithoutBreaks(s))[c] == if c == '\n' as int then 0 else multiset(s)[c]
    decreases |s|
  {
    if s == [] {
    } else {
      var front, x := s[..|s| - 1], s[|s| - 1];
      assert s == front + [x];
      assert WithoutBreaks([x]) == if x == '\n' as int then [] else [x] by {
        assert [x][1..] == [];
      }
      BreaksRemoved(front, c);
      WithoutBreaksConcat(front, [x]);
      hide WithoutBreaks, IsSubsequence;
      KeptOrRemoved(front, x, WithoutBreaks(front), WithoutBreaks([x]), c);
    }
  }

  lemma KeptOrRemoved(front: seq<Byte>, x: Byte, kept: seq<Byte>, last: seq<Byte>, c: Byte)
    requires IsSubsequence(kept, front) && last == if x == '\n' as int then [] else [x]
    ensures IsSubsequence(kept + last, front + [x])
    ensures c != '\n' as int && multiset(kept)[c] == multiset(front)[c] ==>
      multiset(kept + last)[c] == multiset(front + [x])[c]
    ensures c == '\n' as int ==> multiset(kept + last)[c] == multiset(kept)[c]
  {
    hide IsSubsequence;
    if last == [] {
      assert kept + last == kept;
      SubsequenceSkip(kept, front, x);
    } else {
      SubsequenceTake(kept, front, x);
    }
  }

  /** PEM and MIME text of any line length decodes, with the breaks removed, to what was encoded. */
  lemma LinesRoundTrip(b: seq<Byte>, d: nat)
    requires d >= 1
    ensures Decoded(WithoutBreaks(Lines(Encoded(false, b), d))) == Ok(b)
  {
    NoBreakInEncoding(false, b);
    BreaksComeOut(Encoded(false, b), d);
    var s := Encoded(false, b);
    EncodedLength(false, b);
    DecodeInvertsEncode(false, b, |s|);
    assert s[..|s|] == s;
  }

  /** An encoding carries at most two pads, at its end. */
  lemma PadsAreLast(b: seq<Byte>, i: nat)
    requires i < |Encoded(false, b)| && IsPad(Encoded(false, b)[i])
    ensures i + 2 >= |Encoded(false, b)|
  {
    EncodedLength(false, b);
    PaddingIsAtTheEnd(false, b, i);
    var c := Encoded(false, b)[i];
    assert InAlphabet(false, c) ==> PosOfChar(c).Ok?;
    assert i >= DataLength(|b|);
    EncodedLengthIsClose(|b|);
  }

  lemma EncodedLengthIsClose(n: nat)
    ensures (n + 2) / 3 * 4 <= DataLength(n) + 2 && (n + 2) / 3 * 4 % 4 == 0
  {
    var q, r := n / 3, n % 3;
    assert n == 3 * q + r;
    assert (n + 2) / 3 == q + (r + 2) / 3 && (4 * n + 2) / 3 == 4 * q + (4 * r + 2) / 3;
  }

  /** Behind a pad the decoder passes over a break, but the text is then one character longer than a
      whole number of chunks. */
  lemma BreakBehindPad(b: seq<Byte>, d: nat)
    requires 1 <= d < |Encoded(false, b)| && d % 4 == 3 && IsPad(Encoded(false, b)[d - 1])
    ensures |Lines(Encoded(false, b), d)| % 4 == 1
  {
    var s := Encoded(false, b);
    PadsAreLast(b, d - 1);
    EncodedLength(false, b);
    EncodedLengthIsClose(|b|);
    OneBehind(s, d);
  }

  /** A text of whole chunks whose first line leaves at most one character. */
  lemma OneBehind(s: seq<Byte>, d: nat)
    requires d >= 1 && d % 4 == 3 && d < |s| <= d + 1
    ensures |Lines(s, d)| == d + 2 && |Lines(s, d)| % 4 == 1
  {
    assert |Lines(s[d..], d)| == 1;
  }

  /** The first break is refused where the decoder looks at it. */
  lemma FirstBreakIsRefused(b: seq<Byte>, d: nat, t: seq<Byte>)
    requires 1 <= d < |Encoded(false, b)| && t == Lines(Encoded(false, b), d)
    ensures !Decodable(t)
  {
    var s := Encoded(false, b);
    FirstLine(s, d, d - 1);
    FirstLine(s, d, d);
    assert t[d] == NEWLINE && t[d - 1] == s[d - 1];
    assert !IsData(NEWLINE) && !IsPad(NEWLINE);
    LookupSpelledOut(NEWLINE);
    hide Lines, Encoded, IsData, IsPad;
    if d % 4 == 3 && IsPad(s[d - 1]) {
      BreakBehindPad(b, d);
    } else {
      assert !Readable(t, d);
    }
  }

  /** Without the removal the decoder refuses every text that was long enough to be broken, whatever the
      length of the lines. */
  lemma BreaksMustBeRemoved(b: seq<Byte>, d: nat)
    requires d >= 1
    ensures Decoded(Lines(Encoded(false, b), d)).Ok? <==> |Encoded(false, b)| <= d
  {
    var s := Encoded(false, b);
    if |s| <= d {
      EncodedLength(false, b);
      DecodeInvertsEncode(false, b, |s|);
      assert s[..|s|] == s;
    } else {
      FirstBreakIsRefused(b, d, Lines(s, d));
      DecodesIffDecodable(Lines(s, d));
    }
  }
}
