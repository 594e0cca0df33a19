/** What the Base64 codec promises: round trips in both directions, lengths, and concatenation. */
module Base64Laws {
  import opened Sequences
  import opened Wrappers
  import opened Bytes
  import opened Base64

  // ---------------------------------------------------------------- concatenation

  lemma EncodedCons(url: bool, g: seq<Byte>, rest: seq<Byte>)
    requires |g| == 3
    ensures Encoded(url, g + rest) == EncodeGroup(url, g) + Encoded(url, rest)
  {
    assert (g + rest)[..3] == g && (g + rest)[3..] == rest;
  }

  /** Encoding distributes over concatenation behind a multiple of three octets. */
  lemma {:induction false} EncodedConcat(url: bool, a: seq<Byte>, b: seq<Byte>)
    requires |a| % 3 == 0
    ensures Encoded(url, a + b) == Encoded(url, a) + Encoded(url, b)
    decreases |a|
  {
    if a == [] {
      assert a + b == b;
    } else {
      var g, t := a[..3], a[3..];
      calc {
        Encoded(url, a + b);
        { assert a + b == g + (t + b); EncodedCons(url, g, t + b); }
        EncodeGroup(url, g) + Encoded(url, t + b);
        { EncodedConcat(url, t, b); }
        EncodeGroup(url, g) + (Encoded(url, t) + Encoded(url, b));
        { Associates(EncodeGroup(url, g), Encoded(url, t), Encoded(url, b)); }
        (EncodeGroup(url, g) + Encoded(url, t)) + Encoded(url, b);
        { assert a == g + t; EncodedCons(url, g, t); }
        Encoded(url, a) + Encoded(url, b);
      }
    }
  }

  /** Decoding distributes over concatenation behind a multiple of four characters, errors and padding
      inside the first part included. */
  lemma {:induction false} DecodedConcat(x: seq<Byte>, y: seq<Byte>)
    requires |x| % 4 == 0
    ensures Decoded(x + y) == Append(Decoded(x), Decoded(y))
    decreases |x|
  {
    if x == [] {
      assert x + y == y;
      assert Decoded(y).Ok? ==> [] + Decoded(y).value == Decoded(y).value;
    } else {
      assert (x + y)[..4] == x[..4] && (x + y)[4..] == x[4..] + y;
      DecodedConcat(x[4..], y);
      AppendAssociates(DecodeChunk(x[..4]), Decoded(x[4..]), Decoded(y));
    }
  }

  // ---------------------------------------------------------------- decoding inverts encoding

  /** The length the encoder reserves is the length it produces. */
  lemma {:induction false} EncodedLength(url: bool, b: seq<Byte>)
    ensures |Encoded(url, b)| == (|b| + 2) / 3 * 4
    decreases |b|
  {
    if b == [] {
    } else {
      var rest := b[Min(3, |b|)..];
      EncodedLength(url, rest);
      GroupsOf(|b|);
      assert |Encoded(url, b)| == 4 + |Encoded(url, rest)|;
    }
  }

  lemma GroupsOf(n: nat)
    requires n > 0
    ensures (n + 2) / 3 * 4 == 4 + (n - Min(3, n) + 2) / 3 * 4
  {
    if n >= 3 {
      assert (n + 2) / 3 == 1 + (n - 1) / 3;
    }
  }

  /** How many characters of an encoding carry data: the rest is padding. */
  function DataLength(n: nat): nat
  {
    (4 * n + 2) / 3
  }

  /** The positions a group encodes to: the third and fourth only if there is data for them. */
  function Third(g: seq<Byte>): Option<Position>
    requires 1 <= |g| <= 3
  {
    if |g| == 1 then None else Some(g[1] % 16 * 4 + if |g| > 2 then g[2] / 64 else 0)
  }

  function Fourth(g: seq<Byte>): Option<Position>
    requires 1 <= |g| <= 3
  {
    if |g| < 3 then None else Some(g[2] % 64)
  }

  function Second(g: seq<Byte>): Position
    requires 1 <= |g| <= 3
  {
    g[0] % 4 * 16 + if |g| > 1 then g[1] / 16 else 0
  }

  lemma CharsOfGroup(url: bool, g: seq<Byte>)
    requires 1 <= |g| <= 3
    ensures EncodeGroup(url, g) == [
      CharAt(url, g[0] / 4), CharAt(url, Second(g)),
      if Third(g).Some? then CharAt(url, Third(g).value) else Pad(url),
      if Fourth(g).Some? then CharAt(url, Fourth(g).value) else Pad(url)]
  {
    SextetsOfGroup(g[0], if |g| > 1 then g[1] else 0, if |g| > 2 then g[2] else 0);
  }

  lemma OctetsOfGroup(g: seq<Byte>)
    requires 1 <= |g| <= 3
    ensures Octets(g[0] / 4, Second(g), Third(g), Fourth(g)) == g
  {
    var b1, b2 := if |g| > 1 then g[1] else 0, if |g| > 2 then g[2] else 0;
    assert Second(g) / 16 == g[0] % 4 && Second(g) % 16 == b1 / 16;
    if |g| > 1 {
      assert Third(g).value / 4 == b1 % 16 && Third(g).value % 4 == b2 / 64;
    }
    MaskedOctets(g[0] / 4, Second(g), Third(g), Fourth(g), g);
  }

  /** A group of n octets decodes from its four characters or from the first n + 1 of them. */
  lemma GroupRoundTrip(url: bool, g: seq<Byte>, k: nat)
    requires 1 <= |g| <= 3 && |g| + 1 <= k <= 4
    ensures DecodeChunk(EncodeGroup(url, g)[..k]) == Ok(g)
  {
    CharsOfGroup(url, g);
    var c := EncodeGroup(url, g)[..k];
    CharAtRoundTrip(url, g[0] / 4);
    CharAtRoundTrip(url, Second(g));
    if Third(g).Some? {
      CharAtRoundTrip(url, Third(g).value);
    }
    if Fourth(g).Some? {
      CharAtRoundTrip(url, Fourth(g).value);
    }
    ChunkOk(c, g[0] / 4, Second(g), Third(g), Fourth(g));
    OctetsOfGroup(g);
  }

  /** For every octet string and both alphabets, decoding the encoding gives the string back, with the
      padding on or cut off (or cut off in part). */
  lemma {:induction false} DecodeInvertsEncode(url: bool, b: seq<Byte>, k: nat)
    requires DataLength(|b|) <= k <= |Encoded(url, b)|
    ensures Decoded(Encoded(url, b)[..k]) == Ok(b)
    decreases |b|
  {
    EncodedLength(url, b);
    hide EncodeGroup, DecodeChunk;
    if |b| > 3 {
      var g, rest := b[..3], b[3..];
      var four, tail := EncodeGroup(url, g), Encoded(url, rest);
      assert g + rest == b;
      EncodedCons(url, g, rest);
      EncodedLength(url, rest);
      DecodeInvertsEncode(url, rest, k - 4);
      assert (four + tail)[..k] == four + tail[..k - 4];
      GroupRoundTrip(url, g, 4);
      DecodedCons(four, tail[..k - 4]);
    } else if b != [] {
      assert b[..|b|] == b && b[|b|..] == [];
      GroupRoundTrip(url, b, k);
      LastGroup(url, b, k);
    }
  }

  lemma DecodedCons(four: seq<Byte>, rest: seq<Byte>)
    requires |four| == 4
    ensures Decoded(four + rest) == Append(DecodeChunk(four[..4]), Decoded(rest))
  {
    assert (four + rest)[..4] == four[..4] && (four + rest)[4..] == rest;
  }

  lemma LastGroup(url: bool, b: seq<Byte>, k: nat)
    requires 1 <= |b| <= 3 && 1 <= k <= 4
    ensures Encoded(url, b) == EncodeGroup(url, b)
    ensures Decoded(EncodeGroup(url, b)[..k]) == DecodeChunk(EncodeGroup(url, b)[..k])
  {
    assert b[..|b|] == b && b[|b|..] == [];
    var s := EncodeGroup(url, b)[..k];
    assert s[..|s|] == s && s[|s|..] == [];
    assert DecodeChunk(s).Ok? ==> DecodeChunk(s).value + [] == DecodeChunk(s).value;
  }

  /** Beyond its data an encoding holds pads only, and before that none. */
  lemma {:induction false} PaddingIsAtTheEnd(url: bool, b: seq<Byte>, i: nat)
    requires i < |Encoded(url, b)|
    ensures if i < DataLength(|b|) then InAlphabet(url, Encoded(url, b)[i]) else Encoded(url, b)[i] == Pad(url)
    decreases |b|
  {
    var g, rest := b[..Min(3, |b|)], b[Min(3, |b|)..];
    var v := Group(g[0], if |g| > 1 then g[1] else 0, if |g| > 2 then g[2] else 0);
    CharAtRoundTrip(url, Sextet(v, 0));
    CharAtRoundTrip(url, Sextet(v, 1));
    CharAtRoundTrip(url, Sextet(v, 2));
    CharAtRoundTrip(url, Sextet(v, 3));
    if i >= 4 {
      PaddingIsAtTheEnd(url, rest, i - 4);
    }
  }

  // ---------------------------------------------------------------- encoding inverts decoding

  /** A full chunk of the chosen alphabet. */
  ghost predicate CanonicalFull(url: bool, c: seq<Byte>)
  {
    |c| == 4 && forall k :: 0 <= k < 4 ==> InAlphabet(url, c[k])
  }

  /** A last chunk that is full, or has the pad of the alphabet and zero bits under it (section 3.5 of
      RFC 4648). */
  ghost predicate CanonicalLast(url: bool, c: seq<Byte>)
  {
    || CanonicalFull(url, c)
    || (|c| == 4 && InAlphabet(url, c[0]) && InAlphabet(url, c[1]) && InAlphabet(url, c[2]) && c[3] == Pad(url)
        && PosOfChar(c[2]).value % 4 == 0)
    || (|c| == 4 && InAlphabet(url, c[0]) && InAlphabet(url, c[1]) && c[2] == c[3] == Pad(url)
        && PosOfChar(c[1]).value % 16 == 0)
  }

  ghost predicate Canonical(url: bool, x: seq<Byte>)
    decreases |x|
  {
    || x == []
    || (|x| == 4 && CanonicalLast(url, x))
    || (|x| > 4 && CanonicalFull(url, x[..4]) && Canonical(url, x[4..]))
  }

  lemma GroupIsCanonical(url: bool, g: seq<Byte>)
    requires 1 <= |g| <= 3
    ensures CanonicalLast(url, EncodeGroup(url, g)) && (|g| == 3 ==> CanonicalFull(url, EncodeGroup(url, g)))
  {
    hide CharAt, PosOfChar, InAlphabet, IsPad, Pad, Group, Sextet;
    var b0, b1, b2 := g[0], if |g| > 1 then g[1] else 0, if |g| > 2 then g[2] else 0;
    SextetsOfGroup(b0, b1, b2);
    var v := Group(b0, b1, b2);
    CharAtRoundTrip(url, Sextet(v, 0));
    CharAtRoundTrip(url, Sextet(v, 1));
    CharAtRoundTrip(url, Sextet(v, 2));
    CharAtRoundTrip(url, Sextet(v, 3));
  }

  lemma {:induction false} EncodedIsCanonical(url: bool, b: seq<Byte>)
    ensures Canonical(url, Encoded(url, b))
    decreases |b|
  {
    if b == [] {
    } else {
      var g, rest := b[..Min(3, |b|)], b[Min(3, |b|)..];
      GroupIsCanonical(url, g);
      EncodedIsCanonical(url, rest);
      EncodedLength(url, rest);
      var four, x := EncodeGroup(url, g), Encoded(url, b);
      assert x[..4] == four && x[4..] == Encoded(url, rest);
      if rest == [] {
        assert x == four;
      }
    }
  }

  /** A canonical chunk decodes to a group that encodes to the chunk. */
  lemma ChunkRoundTrip(url: bool, c: seq<Byte>)
    requires CanonicalLast(url, c)
    ensures DecodeChunk(c).Ok? && 1 <= |DecodeChunk(c).value| <= 3 && EncodeGroup(url, DecodeChunk(c).value) == c
    ensures CanonicalFull(url, c) ==> |DecodeChunk(c).value| == 3
  {
    CharAtRoundTrip(url, 0);
    var p0, p1 := PosOfChar(c[0]).value, PosOfChar(c[1]).value;
    var p2 := if InAlphabet(url, c[2]) then Some(PosOfChar(c[2]).value) else None;
    var p3 := if p2.Some? && InAlphabet(url, c[3]) then Some(PosOfChar(c[3]).value) else None;
    ChunkOk(c, p0, p1, p2, p3);
    var g := Octets(p0, p1, p2, p3);
    GroupOfOctets(p0, p1, p2, p3);
  }

  lemma GroupOfOctets(p0: Position, p1: Position, p2: Option<Position>, p3: Option<Position>)
    requires p2 == None ==> p3 == None && p1 % 16 == 0
    requires p2.Some? && p3 == None ==> p2.value % 4 == 0
    ensures var g := Octets(p0, p1, p2, p3);
      var v := Group(g[0], if |g| > 1 then g[1] else 0, if |g| > 2 then g[2] else 0);
      && Sextet(v, 0) == p0 && Sextet(v, 1) == p1
      && (p2.Some? ==> Sextet(v, 2) == p2.value) && (p3.Some? ==> Sextet(v, 3) == p3.value)
  {
    var q2 := if p2.Some? then p2.value else 0;
    var q3 := if p3.Some? then p3.value else 0;
    var b0, b1, b2 := p0 * 4 + p1 / 16, p1 % 16 * 16 + q2 / 4, q2 % 4 * 64 + q3;
    SextetsOfGroup(b0, b1, b2);
    MaskedOctets(p0, p1, p2, p3,
                 if p3.Some? then [b0, b1, b2] else if p2.Some? then [b0, b1] else [b0]);
    assert b0 / 4 == p0 && b0 % 4 == p1 / 16 && b1 / 16 == p1 % 16 && b1 % 16 == q2 / 4;
    assert b2 / 64 == q2 % 4 && b2 % 64 == q3;
  }

  lemma FourBehind(x: seq<Byte>)
    requires |x| >= 4
    ensures x == x[..4] + x[4..]
  {
  }

  lemma {:induction false} CanonicalRoundTrip(url: bool, x: seq<Byte>)
    requires Canonical(url, x)
    ensures Decoded(x).Ok? && Encoded(url, Decoded(x).value) == x
    decreases |x|
  {
    if |x| == 4 {
      hide Decoded, DecodeChunk, Encoded, EncodeGroup, CanonicalLast, CanonicalFull;
      ChunkRoundTrip(url, x);
      ShortText(x);
      OneGroup(url, DecodeChunk(x).value);
    } else if |x| > 4 {
      hide Decoded, DecodeChunk, Encoded, EncodeGroup, CanonicalFull;
      ChunkRoundTrip(url, x[..4]);
      LongText(x);
      CanonicalRoundTrip(url, x[4..]);
      EncodedCons(url, DecodeChunk(x[..4]).value, Decoded(x[4..]).value);
      FourBehind(x);
    }
  }

  /** Decoding and encoding again gives the text back exactly when the text is canonical for the
      alphabet: whole chunks, padding only at the very end, no bits set under it. */
  lemma EncodeInvertsDecodeIffCanonical(url: bool, x: seq<Byte>)
    ensures Decoded(x).Ok? && Encoded(url, Decoded(x).value) == x <==> Canonical(url, x)
  {
    if Canonical(url, x) {
      CanonicalRoundTrip(url, x);
    }
    if Decoded(x).Ok? {
      EncodedIsCanonical(url, Decoded(x).value);
    }
  }

  // ---------------------------------------------------------------- what the decoder accepts

  /** The i-th character is one that the decoder takes, or does not look at. */
  ghost predicate Readable(x: seq<Byte>, i: nat)
    requires i < |x|
  {
    || Letter(x[i])
    || (i % 4 == 2 && x[i] in {'=' as int, '.' as int})
    || (i % 4 == 3 && (x[i] in {'=' as int, '.' as int} || x[i - 1] in {'=' as int, '.' as int}))
  }

  /** No lone character at the end, data where data is needed. A character after a pad is never looked at. */
  ghost predicate Decodable(x: seq<Byte>)
  {
    |x| % 4 != 1 && forall i :: 0 <= i < |x| ==> Readable(x, i)
  }

  lemma ChunkAccepted(c: seq<Byte>)
    requires 1 <= |c| <= 4
    ensures DecodeChunk(c).Ok? <==> Decodable(c)
  {
    hide Letter, IsData, IsPad, PosOfChar, Octets;
    LookupSpelledOut(c[0]);
    LookupSpelledOut(c[Min(1, |c| - 1)]);
    LookupSpelledOut(c[Min(2, |c| - 1)]);
    LookupSpelledOut(c[|c| - 1]);
    assert |c| > 0 ==> (Readable(c, 0) <==> IsData(c[0]));
    assert |c| > 1 ==> (Readable(c, 1) <==> IsData(c[1]));
    assert |c| > 2 ==> (Readable(c, 2) <==> IsData(c[2]) || IsPad(c[2]));
    assert |c| > 3 ==> (Readable(c, 3) <==> IsData(c[3]) || IsPad(c[3]) || IsPad(c[2]));
  }

  lemma ReadableBehind(x: seq<Byte>, i: nat)
    requires 4 <= i < |x|
    ensures Readable(x, i) <==> Readable(x[4..], i - 4)
  {
    assert i % 4 == (i - 4) % 4;
    assert x[4..][i - 4] == x[i] && (i > 4 ==> x[4..][i - 5] == x[i - 1]);
  }

  lemma DecodableSplits(x: seq<Byte>)
    requires |x| >= 4
    ensures Decodable(x) <==> Decodable(x[..4]) && Decodable(x[4..])
  {
    forall i: nat | i < 4
      ensures Readable(x, i) <==> Readable(x[..4], i)
    {
    }
    forall i: nat | 4 <= i < |x|
      ensures Readable(x, i) <==> Readable(x[4..], i - 4)
    {
      ReadableBehind(x, i);
    }
    if Decodable(x[4..]) {
      forall i: nat | 4 <= i < |x|
        ensures Readable(x, i)
      {
        assert Readable(x[4..], i - 4);
      }
    }
    forall i: nat | i < |x| - 4 && Decodable(x)
      ensures Readable(x[4..], i)
    {
      assert Readable(x, i + 4);
    }
  }

  /** The decoder succeeds on exactly the decodable texts. */
  lemma {:induction false} DecodesIffDecodable(x: seq<Byte>)
    ensures Decoded(x).Ok? <==> Decodable(x)
    decreases |x|
  {
    if |x| >= 4 {
      ChunkAccepted(x[..4]);
      DecodesIffDecodable(x[4..]);
      DecodableSplits(x);
    } else if x != [] {
      assert x[..|x|] == x && x[|x|..] == [];
      ChunkAccepted(x);
    }
  }

  lemma ShortText(x: seq<Byte>)
    requires 1 <= |x| <= 4
    ensures Decoded(x) == DecodeChunk(x)
  {
    hide DecodeChunk;
    assert x[..|x|] == x && x[|x|..] == [] && Decoded([]) == Ok([]);
    assert DecodeChunk(x).Ok? ==> DecodeChunk(x).value + [] == DecodeChunk(x).value;
  }

  lemma LongText(x: seq<Byte>)
    requires |x| > 4
    ensures Decoded(x) == Append(DecodeChunk(x[..4]), Decoded(x[4..]))
  {
    hide DecodeChunk, Append;
  }

  lemma FourLess(n: nat)
    requires n >= 4
    ensures (n - 4) % 4 == n % 4
  {
  }

  lemma {:induction false} NoLoneCharacter(x: seq<Byte>)
    ensures Decoded(x) == Err(OutOfRange) ==> |x| % 4 == 1
    decreases |x|
  {
    if x == [] {
    } else if |x| <= 4 {
      hide *;
      ShortText(x);
      LongChunk(x);
    } else {
      hide Decoded, DecodeChunk;
      LongText(x);
      FourLess(|x|);
      LongChunk(x[..4]);
      NoLoneCharacter(x[4..]);
    }
  }

  lemma LongChunk(c: seq<Byte>)
    requires 1 <= |c| <= 4
    ensures DecodeChunk(c) == Err(OutOfRange) <==> |c| == 1
  {
    hide Octets, IsData, PosOfChar, IsPad;
  }

  lemma BehindChunks(front: seq<Byte>, c: Byte)
    requires |front| % 4 == 0
    ensures Decoded(front + [c]) == if Decodable(front) then Err(OutOfRange) else Err(InvalidChar)
  {
    hide Decoded, DecodeChunk, Decodable;
    DecodedConcat(front, [c]);
    DecodesIffDecodable(front);
    LoneCharacter(c);
    NoLoneCharacter(front);
    match Decoded(front) {
      case Ok(_) =>
      case Err(e) => assert e == InvalidChar || e == OutOfRange;
    }
  }

  lemma LoneIsNotDecodable(x: seq<Byte>)
    requires |x| % 4 == 1
    ensures !Decodable(x)
  {
  }

  lemma ContributesLetter(c: seq<Byte>, k: nat, url: bool, p: Position)
    requires k < |c| && c[k] == Alphabet(url)[p] as int
    ensures PosOfChar(c[k]) == Ok(p) && Contributes(c, k, Some(p))
  {
    hide Alphabet;
    CharAtSpelledOut(url, p);
    CharAtRoundTrip(url, p);
  }

  lemma ContributesNothing(c: seq<Byte>, k: nat)
    requires k < |c| ==> c[k] == '=' as int || c[k] == '.' as int
    ensures Contributes(c, k, None)
  {
  }

  /** Four letters, each of either table, are three octets. */
  lemma FourLetters(c: seq<Byte>, u: seq<bool>, p0: Position, p1: Position, p2: Position, p3: Position)
    requires |c| == |u| == 4 && c[0] == Alphabet(u[0])[p0] as int && c[1] == Alphabet(u[1])[p1] as int
    requires c[2] == Alphabet(u[2])[p2] as int && c[3] == Alphabet(u[3])[p3] as int
    ensures Decoded(c) == Ok([p0 * 4 + p1 / 16, p1 % 16 * 16 + p2 / 4, p2 % 4 * 64 + p3])
  {
    hide *;
    ContributesLetter(c, 0, u[0], p0);
    ContributesLetter(c, 1, u[1], p1);
    ContributesLetter(c, 2, u[2], p2);
    ContributesLetter(c, 3, u[3], p3);
    ShortText(c);
    ChunkOk(c, p0, p1, Some(p2), Some(p3));
    MaskedOctets(p0, p1, Some(p2), Some(p3), [p0 * 4 + p1 / 16, p1 % 16 * 16 + p2 / 4, p2 % 4 * 64 + p3]);
  }

  /** Three letters, with a pad of either kind behind them or nothing, are two octets; what the third has
      beyond them is not looked at. */
  lemma ThreeLetters(c: seq<Byte>, u: seq<bool>, p0: Position, p1: Position, p2: Position)
    requires 3 <= |c| <= 4 && |u| == 3 && c[0] == Alphabet(u[0])[p0] as int && c[1] == Alphabet(u[1])[p1] as int
    requires c[2] == Alphabet(u[2])[p2] as int && (|c| == 4 ==> c[3] == '=' as int || c[3] == '.' as int)
    ensures Decoded(c) == Ok([p0 * 4 + p1 / 16, p1 % 16 * 16 + p2 / 4])
  {
    hide *;
    ContributesLetter(c, 0, u[0], p0);
    ContributesLetter(c, 1, u[1], p1);
    ContributesLetter(c, 2, u[2], p2);
    ContributesNothing(c, 3);
    ShortText(c);
    ChunkOk(c, p0, p1, Some(p2), None);
    MaskedOctets(p0, p1, Some(p2), None, [p0 * 4 + p1 / 16, p1 % 16 * 16 + p2 / 4]);
  }

  /** Two letters, with a pad and any character behind it or less, are one octet. */
  lemma TwoLetters(c: seq<Byte>, u: seq<bool>, p0: Position, p1: Position)
    requires 2 <= |c| <= 4 && |u| == 2 && c[0] == Alphabet(u[0])[p0] as int && c[1] == Alphabet(u[1])[p1] as int
    requires |c| > 2 ==> c[2] == '=' as int || c[2] == '.' as int
    ensures Decoded(c) == Ok([p0 * 4 + p1 / 16])
  {
    hide *;
    ContributesLetter(c, 0, u[0], p0);
    ContributesLetter(c, 1, u[1], p1);
    ContributesNothing(c, 2);
    ShortText(c);
    ChunkOk(c, p0, p1, None, None);
    MaskedOctets(p0, p1, None, None, [p0 * 4 + p1 / 16]);
  }

  /** Which of the two exceptions: `at` throws exactly where one character is left over behind text that
      decodes; whatever else is not decodable has an invalid character. */
  lemma LoneCharacterIffOutOfRange(x: seq<Byte>)
    ensures Decoded(x) == Err(OutOfRange) <==> |x| % 4 == 1 && Decodable(x[..|x| - 1])
    ensures Decoded(x) == Err(InvalidChar) <==> !Decodable(x) && !(|x| % 4 == 1 && Decodable(x[..|x| - 1]))
  {
    hide *;
    DecodesIffDecodable(x);
    NoLoneCharacter(x);
    if |x| % 4 == 1 {
      var front, c := x[..|x| - 1], x[|x| - 1];
      LoneIsNotDecodable(x);
      LastApart(x);
      BehindChunks(front, c);
    } else {
      match Decoded(x) {
        case Ok(_) =>
        case Err(e) => assert e == InvalidChar || e == OutOfRange;
      }
    }
  }

  lemma LastApart(x: seq<Byte>)
    requires x != []
    ensures x == x[..|x| - 1] + [x[|x| - 1]]
  {
  }

  lemma LoneCharacter(c: Byte)
    ensures Decoded([c]) == Err(OutOfRange)
  {
    assert [c][..1] == [c];
  }

  // ---------------------------------------------------------------- the characters that come out

  lemma DataLengthIsRest(n: nat, len: nat, pads: nat)
    requires len == (n + 2) / 3 * 4 && pads == (3 - n % 3) % 3
    ensures len - pads == DataLength(n) && len % 4 == 0
  {
    var q, r := n / 3, n % 3;
    assert n == 3 * q + r;
    if r == 0 {
      assert (n + 2) / 3 == q && (4 * n + 2) / 3 == 4 * q;
    } else if r == 1 {
      assert (n + 2) / 3 == q + 1 && (4 * n + 2) / 3 == 4 * q + 2;
    } else {
      assert (n + 2) / 3 == q + 1 && (4 * n + 2) / 3 == 4 * q + 3;
    }
  }

  lemma LetterOf(url: bool, c: Byte)
    requires InAlphabet(url, c)
    ensures exists p: Position :: c == Alphabet(url)[p] as int
  {
    hide Alphabet;
    CharAtSpelledOut(url, PosOfChar(c).value);
  }

  /** An encoding is characters of its own table, then as many pads as octets are missing from the last
      group: '=' for the standard alphabet, '.' for the URL one. */
  lemma EncodingSpelledOut(url: bool, b: seq<Byte>, i: nat, pads: nat)
    requires i < |Encoded(url, b)| && pads == (3 - |b| % 3) % 3
    ensures var s := Encoded(url, b);
      && |s| % 4 == 0
      && if i < |s| - pads then exists p: Position :: s[i] == Alphabet(url)[p] as int
         else s[i] == (if url then '.' else '=') as int
  {
    var s := Encoded(url, b);
    assert Pad(url) == (if url then '.' else '=') as int;
    hide *;
    EncodedLength(url, b);
    DataLengthIsRest(|b|, |s|, pads);
    PaddingIsAtTheEnd(url, b, i);
    if i < DataLength(|b|) {
      LetterOf(url, s[i]);
    }
  }

  /** Group by group. */
  lemma {:induction false} EncodedGroupAt(url: bool, b: seq<Byte>, q: nat)
    requires 3 * q < |b|
    ensures 4 * q + 4 <= |Encoded(url, b)|
    ensures Encoded(url, b)[4 * q..4 * q + 4] == EncodeGroup(url, b[3 * q..Min(3 * q + 3, |b|)])
    decreases q
  {
    var k := Min(3, |b|);
    var four, tail := EncodeGroup(url, b[..k]), Encoded(url, b[k..]);
    assert Encoded(url, b) == four + tail;
    if q == 0 {
      assert (four + tail)[..4] == four;
    } else {
      hide Encoded, EncodeGroup;
      EncodedGroupAt(url, b[3..], q - 1);
      GroupBehind(b, four, tail, q);
    }
  }

  lemma GroupBehind(b: seq<Byte>, four: seq<Byte>, tail: seq<Byte>, q: nat)
    requires 3 * q < |b| && q >= 1 && |four| == 4 && 4 * q <= |tail|
    ensures b[3..][3 * (q - 1)..Min(3 * (q - 1) + 3, |b[3..]|)] == b[3 * q..Min(3 * q + 3, |b|)]
    ensures (four + tail)[4 * q..4 * q + 4] == tail[4 * (q - 1)..4 * (q - 1) + 4]
  {
  }

  lemma GroupSpelledOut(url: bool, g: seq<Byte>)
    requires 1 <= |g| <= 3
    ensures EncodeGroup(url, g)[0] == Alphabet(url)[g[0] / 4] as int
    ensures EncodeGroup(url, g)[1] == Alphabet(url)[g[0] % 4 * 16 + if |g| > 1 then g[1] / 16 else 0] as int
    ensures |g| > 1 ==>
      EncodeGroup(url, g)[2] == Alphabet(url)[g[1] % 16 * 4 + if |g| > 2 then g[2] / 64 else 0] as int
    ensures |g| > 2 ==> EncodeGroup(url, g)[3] == Alphabet(url)[g[2] % 64] as int
  {
    hide EncodeGroup, Alphabet, CharAt;
    CharsOfGroup(url, g);
    CharAtSpelledOut(url, g[0] / 4);
    CharAtSpelledOut(url, Second(g));
    CharAtSpelledOut(url, if Third(g).Some? then Third(g).value else 0);
    CharAtSpelledOut(url, if Fourth(g).Some? then Fourth(g).value else 0);
  }

  /** Which character stands where: the first of the four characters of a group is that of its first six
      bits, and so on; bits behind the end of the data are zero. */
  lemma EncodedCharacter(url: bool, b: seq<Byte>, q: nat)
    requires 3 * q < |b| && 4 * q + 4 <= |Encoded(url, b)|
    ensures var s, g := Encoded(url, b)[4 * q..4 * q + 4], b[3 * q..if |b| < 3 * q + 3 then |b| else 3 * q + 3];
      && s[0] == Alphabet(url)[g[0] / 4] as int
      && s[1] == Alphabet(url)[g[0] % 4 * 16 + if |g| > 1 then g[1] / 16 else 0] as int
      && (|g| > 1 ==> s[2] == Alphabet(url)[g[1] % 16 * 4 + if |g| > 2 then g[2] / 64 else 0] as int)
      && (|g| > 2 ==> s[3] == Alphabet(url)[g[2] % 64] as int)
  {
    hide Encoded, EncodeGroup, Alphabet;
    EncodedGroupAt(url, b, q);
    GroupSpelledOut(url, b[3 * q..Min(3 * q + 3, |b|)]);
  }

  /** Examples of section 10 of RFC 4648, and the URL alphabet with its own pad. */
  lemma Vectors()
    ensures Encoded(false, ['f' as int]) == ['Z' as int, 'g' as int, '=' as int, '=' as int]
    ensures Encoded(true, ['f' as int]) == ['Z' as int, 'g' as int, '.' as int, '.' as int]
    ensures Encoded(false, ['f' as int, 'o' as int]) == ['Z' as int, 'm' as int, '8' as int, '=' as int]
    ensures Encoded(false, ['f' as int, 'o' as int, 'o' as int]) == ['Z' as int, 'm' as int, '9' as int, 'v' as int]
  {
    hide Encoded, CharAt, EncodeGroup;
    OneGroup(false, [0x66]);
    OneGroup(true, [0x66]);
    OneGroup(false, [0x66, 0x6f]);
    OneGroup(false, [0x66, 0x6f, 0x6f]);
    CharsOfGroup(false, [0x66]);
    CharsOfGroup(true, [0x66]);
    CharsOfGroup(false, [0x66, 0x6f]);
    CharsOfGroup(false, [0x66, 0x6f, 0x6f]);
    VectorCharacters();
  }

  lemma VectorCharacters()
    ensures CharAt(false, 25) == CharAt(true, 25) == 'Z' as int
    ensures CharAt(false, 32) == CharAt(true, 32) == 'g' as int
    ensures CharAt(false, 38) == 'm' as int && CharAt(false, 60) == '8' as int
    ensures CharAt(false, 61) == '9' as int && CharAt(false, 47) == 'v' as int
  {
  }

  lemma OneGroup(url: bool, b: seq<Byte>)
    requires 1 <= |b| <= 3
    ensures Encoded(url, b) == EncodeGroup(url, b)
  {
    assert b[..|b|] == b && b[|b|..] == [];
  }
}
