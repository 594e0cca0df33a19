/** The Base64 codec of the file server: the encoder and the liberal decoder, against the 24-bit
    groups of section 4 of RFC 4648. Text is a sequence of octets, as in the source. */
module Base64 {
  import opened Sequences
  import opened Wrappers
  import opened Bytes

  /** A position in the alphabet: six bits. */
  type Position = x: int | 0 <= x < 64

  // ---------------------------------------------------------------- the masks of the code

  /** The bitwise and. The shifts of the code work on promoted integers: they multiply and divide. */
  function And(x: nat, mask: nat): nat
  {
    if x == 0 || mask == 0 then 0
    else 2 * And(x / 2, mask / 2) + if x % 2 == 1 && mask % 2 == 1 then 1 else 0
  }

  lemma AndBit(q: nat, r: nat, m: nat, n: nat)
    requires r < 2 && n < 2
    ensures And(2 * q + r, 2 * m + n) == 2 * And(q, m) + if r == 1 && n == 1 then 1 else 0
  {
    var x, y := 2 * q + r, 2 * m + n;
    assert x / 2 == q && x % 2 == r && y / 2 == m && y % 2 == n;
  }

  /** Two bits under a mask that takes none or both of them. */
  lemma AndTwoBits(q: nat, r: nat, m: nat)
    requires r < 4
    ensures And(4 * q + r, 4 * m) == 4 * And(q, m) && And(4 * q + r, 4 * m + 3) == 4 * And(q, m) + r
  {
    hide And;
    var r1, r0 := r / 2, r % 2;
    assert r == 2 * r1 + r0;
    AndBit(2 * q + r1, r0, 2 * m, 0);
    AndBit(q, r1, m, 0);
    AndBit(2 * q + r1, r0, 2 * m + 1, 1);
    AndBit(q, r1, m, 1);
  }

  lemma AndLowTwo(x: nat)
    ensures And(x, 0x03) == x % 4
  {
    assert And(x / 4, 0) == 0;
    hide And;
    AndTwoBits(x / 4, x % 4, 0);
  }

  lemma AndLowFour(x: nat)
    ensures And(x, 0x0f) == x % 16
  {
    var q, r := x / 16, x % 16;
    assert And(q, 0) == 0;
    hide And;
    AndTwoBits(q, r / 4, 0);
    AndTwoBits(4 * q + r / 4, r % 4, 0x03);
    assert 4 * (4 * q + r / 4) + r % 4 == x;
  }

  lemma AndLowSix(x: nat)
    ensures And(x, 0x3f) == x % 64
  {
    hide And;
    var q, r := x / 64, x % 64;
    AndTwoBits(16 * q + r / 4, r % 4, 0x0f);
    AndLowFour(16 * q + r / 4);
    assert 4 * (16 * q + r / 4) + r % 4 == x;
  }

  /** Masks behind two, four and six zero bits. */
  lemma AndBehindTwo(q: nat, r: nat, m: nat)
    requires r < 4
    ensures And(4 * q + r, 4 * m) == 4 * And(q, m)
  {
    hide And;
    AndTwoBits(q, r, m);
  }

  lemma AndBehindFour(q: nat, r: nat, m: nat)
    requires r < 16
    ensures And(16 * q + r, 16 * m) == 16 * And(q, m)
  {
    hide And;
    AndTwoBits(q, r / 4, m);
    AndTwoBits(4 * q + r / 4, r % 4, 4 * m);
  }

  lemma AndBehindSix(q: nat, r: nat, m: nat)
    requires r < 64
    ensures And(64 * q + r, 64 * m) == 64 * And(q, m)
  {
    hide And;
    AndBehindFour(q, r / 4, m);
    AndTwoBits(16 * q + r / 4, r % 4, 16 * m);
  }

  // ---------------------------------------------------------------- the alphabets

  /** `base64_chars[url][p]`. */
  function CharAt(url: bool, p: Position): Byte
  {
    if p < 26 then 'A' as int + p
    else if p < 52 then 'a' as int + (p - 26)
    else if p < 62 then '0' as int + (p - 52)
    else if p == 62 then (if url then '-' else '+') as int
    else (if url then '_' else '/') as int
  }

  function Pad(url: bool): Byte
  {
    if url then '.' as int else '=' as int
  }

  predicate IsPad(c: Byte)
  {
    c == '=' as int || c == '.' as int
  }

  datatype DecodeError = InvalidChar | OutOfRange

  /** `pos_of_char`: both alphabets are accepted. */
  function PosOfChar(c: Byte): Result<Position, DecodeError>
  {
    if 'A' as int <= c <= 'Z' as int then Ok(c - 'A' as int)
    else if 'a' as int <= c <= 'z' as int then Ok(c - 'a' as int + 26)
    else if '0' as int <= c <= '9' as int then Ok(c - '0' as int + 52)
    else if c == '+' as int || c == '-' as int then Ok(62)
    else if c == '/' as int || c == '_' as int then Ok(63)
    else Err(InvalidChar)
  }

  predicate IsData(c: Byte)
  {
    PosOfChar(c).Ok?
  }

  /** In the given alphabet, and not only in the other one. */
  predicate InAlphabet(url: bool, c: Byte)
  {
    PosOfChar(c).Ok? && CharAt(url, PosOfChar(c).value) == c
  }

  lemma CharAtRoundTrip(url: bool, p: Position)
    ensures PosOfChar(CharAt(url, p)) == Ok(p) && !IsPad(CharAt(url, p)) && InAlphabet(url, CharAt(url, p))
    ensures CharAt(url, p) != '\n' as int && !IsData(Pad(url)) && IsPad(Pad(url))
  {
  }

  /** The two tables of the source, put together there from the same pieces. */
  function Alphabet(url: bool): (s: string)
    ensures |s| == 64
  {
    "ABCDEFGHIJKLMNOPQRSTUVWXYZ" + "abcdefghijklmnopqrstuvwxyz" + "0123456789" + if url then "-_" else "+/"
  }

  lemma UpperAt(i: nat)
    requires i < 26
    ensures "ABCDEFGHIJKLMNOPQRSTUVWXYZ"[i] as int == 'A' as int + i
  {
  }

  lemma LowerAt(i: nat)
    requires i < 26
    ensures "abcdefghijklmnopqrstuvwxyz"[i] as int == 'a' as int + i
  {
  }

  lemma DigitAt(i: nat)
    requires i < 10
    ensures "0123456789"[i] as int == '0' as int + i
  {
  }

  lemma PieceAt(a: string, b: string, c: string, d: string, i: nat)
    requires |a| == |b| == 26 && |c| == 10 && |d| == 2 && i < 64
    ensures (a + b + c + d)[i]
      == if i < 26 then a[i] else if i < 52 then b[i - 26] else if i < 62 then c[i - 52] else d[i - 62]
  {
  }

  /** Position by position, the arithmetic of the model is the tables of the source. */
  lemma CharAtSpelledOut(url: bool, p: Position)
    ensures CharAt(url, p) == Alphabet(url)[p] as int
    ensures Alphabet(url) == "ABCDEFGHIJKLMNOPQRSTUVWXYZ" + "abcdefghijklmnopqrstuvwxyz" + "0123456789"
      + if url then "-_" else "+/"
  {
    var last := if url then "-_" else "+/";
    PieceAt("ABCDEFGHIJKLMNOPQRSTUVWXYZ", "abcdefghijklmnopqrstuvwxyz", "0123456789", last, p);
    if p < 26 {
      UpperAt(p);
    } else if p < 52 {
      LowerAt(p - 26);
    } else if p < 62 {
      DigitAt(p - 52);
    }
  }

  /** A character of one of the two tables. */
  ghost predicate Letter(c: Byte)
  {
    exists url: bool, p: Position :: Alphabet(url)[p] as int == c
  }

  /** The look-up of the decoder finds exactly the characters of the two tables, each at its place. */
  lemma LookupSpelledOut(c: Byte)
    ensures IsData(c) <==> Letter(c)
    ensures IsData(c) ==> (exists url: bool :: Alphabet(url)[PosOfChar(c).value] as int == c)
    ensures IsPad(c) <==> c == '=' as int || c == '.' as int
  {
    hide Alphabet;
    if IsData(c) {
      var p := PosOfChar(c).value;
      CharAtSpelledOut(false, p);
      CharAtSpelledOut(true, p);
      assert Alphabet(CharAt(true, p) == c)[p] as int == c;
    }
    if Letter(c) {
      var url: bool, p: Position :| Alphabet(url)[p] as int == c;
      CharAtSpelledOut(url, p);
      CharAtRoundTrip(url, p);
    }
  }

  // ---------------------------------------------------------------- the encoding, group by group

  /** The number three octets stand for, and the k-th six bits of it. */
  function Group(b0: int, b1: int, b2: int): int
  {
    0x1_0000 * b0 + 0x100 * b1 + b2
  }

  function Sextet(v: int, k: nat): (p: Position)
    requires k < 4
  {
    if k == 0 then v / 0x4_0000 % 64 else if k == 1 then v / 0x1000 % 64 else if k == 2 then v / 64 % 64 else v % 64
  }

  /** One to three octets as four characters: missing octets count as zero, and each leaves a pad. */
  function EncodeGroup(url: bool, g: seq<Byte>): (s: seq<Byte>)
    requires 1 <= |g| <= 3
    ensures |s| == 4
  {
    var v := Group(g[0], if |g| > 1 then g[1] else 0, if |g| > 2 then g[2] else 0);
    [CharAt(url, Sextet(v, 0)), CharAt(url, Sextet(v, 1)),
     if |g| > 1 then CharAt(url, Sextet(v, 2)) else Pad(url), if |g| > 2 then CharAt(url, Sextet(v, 3)) else Pad(url)]
  }

  function Encoded(url: bool, b: seq<Byte>): seq<Byte>
    decreases |b|
  {
    if b == [] then [] else EncodeGroup(url, b[..Min(3, |b|)]) + Encoded(url, b[Min(3, |b|)..])
  }

  // ---------------------------------------------------------------- the decoding, chunk by chunk

  /** A chunk's octets: two to four positions, the first six bits of 24 first. */
  function Octets(p0: Position, p1: Position, p2: Option<Position>, p3: Option<Position>): seq<Byte>
    requires p2 == None ==> p3 == None
  {
    var v := 0x4_0000 * p0 + 0x1000 * p1 + (if p2.Some? then 64 * p2.value else 0) + if p3.Some? then p3.value else 0;
    [v / 0x1_0000 % 0x100]
    + (if p2.Some? then [v / 0x100 % 0x100] else [])
    + (if p3.Some? then [v % 0x100] else [])
  }

  /** Where the third or fourth character is absent or a pad, it holds no data. */
  function DataAt(c: seq<Byte>, k: nat): Option<Byte>
  {
    if k < |c| && !IsPad(c[k]) then Some(c[k]) else None
  }

  /** One to four characters. The second is looked up before the first; nothing after a third
      character that holds no data is looked at. */
  function DecodeChunk(c: seq<Byte>): Result<seq<Byte>, DecodeError>
    requires 1 <= |c| <= 4
  {
    if |c| < 2 then Err(OutOfRange)
    else if !IsData(c[1]) || !IsData(c[0]) then Err(InvalidChar)
    else
      var p0, p1 := PosOfChar(c[0]).value, PosOfChar(c[1]).value;
      match DataAt(c, 2)
      case None => Ok(Octets(p0, p1, None, None))
      case Some(c2) =>
        if !IsData(c2) then Err(InvalidChar) else
        var p2 := PosOfChar(c2).value;
        match DataAt(c, 3)
        case None => Ok(Octets(p0, p1, Some(p2), None))
        case Some(c3) =>
          if !IsData(c3) then Err(InvalidChar) else Ok(Octets(p0, p1, Some(p2), Some(PosOfChar(c3).value)))
  }

  function Append(x: Result<seq<Byte>, DecodeError>, y: Result<seq<Byte>, DecodeError>): Result<seq<Byte>, DecodeError>
  {
    if x.Err? then x else if y.Err? then y else Ok(x.value + y.value)
  }

  function Decoded(s: seq<Byte>): Result<seq<Byte>, DecodeError>
    decreases |s|
  {
    if s == [] then Ok([]) else Append(DecodeChunk(s[..Min(4, |s|)]), Decoded(s[Min(4, |s|)..]))
  }

  // ---------------------------------------------------------------- the two loops

  const UINT_RANGE := 0x1_0000_0000

  /** The index expressions of the encoding loop; none leaves the alphabet. */
  method FirstSextet(b0: Byte) returns (p: Position)
    ensures p == b0 / 4
  {
    hide And;
    AndBehindTwo(b0 / 4, b0 % 4, 0x3f);
    AndLowSix(b0 / 4);
    p := And(b0, 0xfc) / 4;
  }

  method SecondSextet(b0: Byte, b1: Byte) returns (p: Position)
    ensures p == b0 % 4 * 16 + b1 / 16
  {
    hide And;
    AndLowTwo(b0);
    AndBehindFour(b1 / 16, b1 % 16, 0x0f);
    AndLowFour(b1 / 16);
    p := And(b0, 0x03) * 16 + And(b1, 0xf0) / 16;
  }

  method LastSecondSextet(b0: Byte) returns (p: Position)
    ensures p == b0 % 4 * 16
  {
    hide And;
    AndLowTwo(b0);
    p := And(b0, 0x03) * 16;
  }

  method ThirdSextet(b1: Byte, b2: Byte) returns (p: Position)
    ensures p == b1 % 16 * 4 + b2 / 64
  {
    hide And;
    AndLowFour(b1);
    AndBehindSix(b2 / 64, b2 % 64, 0x03);
    AndLowTwo(b2 / 64);
    p := And(b1, 0x0f) * 4 + And(b2, 0xc0) / 64;
  }

  method LastThirdSextet(b1: Byte) returns (p: Position)
    ensures p == b1 % 16 * 4
  {
    hide And;
    AndLowFour(b1);
    p := And(b1, 0x0f) * 4;
  }

  method FourthSextet(b2: Byte) returns (p: Position)
    ensures p == b2 % 64
  {
    hide And;
    AndLowSix(b2);
    p := And(b2, 0x3f);
  }

  /** The body of the encoding loop. */
  method EncodeAt(b: seq<Byte>, pos: nat, url: bool) returns (four: seq<Byte>)
    requires pos < |b|
    ensures four == EncodeGroup(url, b[pos..Min(pos + 3, |b|)])
  {
    var p0 := FirstSextet(b[pos]);
    if pos + 1 < |b| {
      var p1 := SecondSextet(b[pos], b[pos + 1]);
      if pos + 2 < |b| {
        var p2 := ThirdSextet(b[pos + 1], b[pos + 2]);
        var p3 := FourthSextet(b[pos + 2]);
        four := [CharAt(url, p0), CharAt(url, p1), CharAt(url, p2), CharAt(url, p3)];
      } else {
        var p2 := LastThirdSextet(b[pos + 1]);
        four := [CharAt(url, p0), CharAt(url, p1), CharAt(url, p2), Pad(url)];
      }
    } else {
      var p1 := LastSecondSextet(b[pos]);
      four := [CharAt(url, p0), CharAt(url, p1), Pad(url), Pad(url)];
    }
    MaskedGroup(url, b[pos..Min(pos + 3, |b|)], four);
  }

  /** What is left to encode at a position, which may have passed the end. */
  function EncodedFrom(url: bool, b: seq<Byte>, pos: nat): seq<Byte>
  {
    Encoded(url, b[Min(pos, |b|)..])
  }

  lemma EncodedAt(url: bool, b: seq<Byte>, pos: nat)
    requires pos < |b|
    ensures EncodedFrom(url, b, pos) == EncodeGroup(url, b[pos..Min(pos + 3, |b|)]) + EncodedFrom(url, b, pos + 3)
  {
    var rest := b[pos..];
    assert rest[..Min(3, |rest|)] == b[pos..Min(pos + 3, |b|)];
    assert rest[Min(3, |rest|)..] == b[Min(pos + 3, |b|)..];
  }

  /** `pos += 3` on a 32-bit unsigned int: it does not wrap, because 2^32 - 1 is a multiple of three. */
  method Advance(pos: nat, n: nat) returns (next: nat)
    requires pos < n < UINT_RANGE && pos % 3 == 0
    ensures next == pos + 3 < UINT_RANGE && next % 3 == 0
  {
    assert UINT_RANGE == 3 * 1431655765 + 1;
    next := (pos + 3) % UINT_RANGE;
  }

  /** `base64_encode`. Its position is a 32-bit unsigned int. */
  method Encode(b: seq<Byte>, url: bool) returns (ret: seq<Byte>)
    requires |b| < UINT_RANGE
    ensures ret == Encoded(url, b)
  {
    ret := [];
    var pos := 0;
    assert b[0..] == b;
    ghost var left := EncodedFrom(url, b, 0);
    while pos < |b|
      invariant 0 <= pos < |b| + 3 && pos < UINT_RANGE && pos % 3 == 0
      invariant left == EncodedFrom(url, b, pos) && ret + left == Encoded(url, b)
      decreases |b| - pos
    {
      var four := EncodeAt(b, pos, url);
      EncodedAt(url, b, pos);
      ghost var after := EncodedFrom(url, b, pos + 3);
      Associates(ret, four, after);
      ret, left := ret + four, after;
      pos := Advance(pos, |b|);
    }
    assert b[|b|..] == [];
  }

  /** The masks and shifts pick exactly the sextets of the group. */
  lemma MaskedGroup(url: bool, g: seq<Byte>, four: seq<Byte>)
    requires 1 <= |g| <= 3
    requires |g| == 3 ==> four == [CharAt(url, g[0] / 4), CharAt(url, g[0] % 4 * 16 + g[1] / 16),
                                   CharAt(url, g[1] % 16 * 4 + g[2] / 64), CharAt(url, g[2] % 64)]
    requires |g| == 2 ==> four == [CharAt(url, g[0] / 4), CharAt(url, g[0] % 4 * 16 + g[1] / 16),
                                   CharAt(url, g[1] % 16 * 4), Pad(url)]
    requires |g| == 1 ==> four == [CharAt(url, g[0] / 4), CharAt(url, g[0] % 4 * 16), Pad(url), Pad(url)]
    ensures four == EncodeGroup(url, g)
  {
    SextetsOfGroup(g[0], if |g| > 1 then g[1] else 0, if |g| > 2 then g[2] else 0);
  }

  lemma SextetsOfGroup(b0: Byte, b1: Byte, b2: Byte)
    ensures var v := Group(b0, b1, b2);
      && Sextet(v, 0) == b0 / 4 && Sextet(v, 1) == b0 % 4 * 16 + b1 / 16
      && Sextet(v, 2) == b1 % 16 * 4 + b2 / 64 && Sextet(v, 3) == b2 % 64
  {
    var q0, r0, q1, r1, q2, r2 := b0 / 4, b0 % 4, b1 / 16, b1 % 16, b2 / 64, b2 % 64;
    assert b0 == 4 * q0 + r0 && b1 == 16 * q1 + r1 && b2 == 64 * q2 + r2;
    SextetsOfNumber(q0, r0 * 16 + q1, r1 * 4 + q2, r2, Group(b0, b1, b2));
  }

  lemma SextetsOfNumber(p0: Position, p1: Position, p2: Position, p3: Position, v: int)
    requires v == 0x4_0000 * p0 + 0x1000 * p1 + 64 * p2 + p3
    ensures Sextet(v, 0) == p0 && Sextet(v, 1) == p1 && Sextet(v, 2) == p2 && Sextet(v, 3) == p3
  {
    assert v / 64 == 0x1000 * p0 + 64 * p1 + p2;
    assert v / 0x1000 == 64 * p0 + p1;
    assert v / 0x4_0000 == p0;
  }

  /** The loop reaches its end exactly when the length fits the 32-bit position: from 2^32 octets on
      the position wraps below the length for ever. */
  lemma EncodeLoopEnds(n: nat)
    ensures (exists k: nat :: 3 * k % UINT_RANGE >= n) <==> n < UINT_RANGE
  {
    if n < UINT_RANGE {
      var k: nat := 1431655765;
      assert 3 * k % UINT_RANGE == UINT_RANGE - 1;
    }
  }

  /** The three sums of the decoding loop; none leaves the range of an octet. */
  method FirstOctet(p0: Position, p1: Position) returns (b: Byte)
    ensures b == p0 * 4 + p1 / 16
  {
    hide And;
    AndBehindFour(p1 / 16, p1 % 16, 0x03);
    AndLowTwo(p1 / 16);
    b := p0 * 4 + And(p1, 0x30) / 16;
  }

  method SecondOctet(p1: Position, p2: Position) returns (b: Byte)
    ensures b == p1 % 16 * 16 + p2 / 4
  {
    hide And;
    AndLowFour(p1);
    AndBehindTwo(p2 / 4, p2 % 4, 0x0f);
    AndLowFour(p2 / 4);
    b := And(p1, 0x0f) * 16 + And(p2, 0x3c) / 4;
  }

  method ThirdOctet(p2: Position, p3: Position) returns (b: Byte)
    ensures b == p2 % 4 * 64 + p3
  {
    hide And;
    AndLowTwo(p2);
    b := And(p2, 0x03) * 64 + p3;
  }

  /** What a third or fourth character contributes. */
  predicate Contributes(c: seq<Byte>, k: nat, p: Option<Position>)
  {
    match DataAt(c, k)
    case None => p == None
    case Some(x) => p.Some? && PosOfChar(x) == Ok(p.value)
  }

  lemma ChunkOk(c: seq<Byte>, p0: Position, p1: Position, p2: Option<Position>, p3: Option<Position>)
    requires 2 <= |c| <= 4 && PosOfChar(c[0]) == Ok(p0) && PosOfChar(c[1]) == Ok(p1)
    requires Contributes(c, 2, p2) && if p2 == None then p3 == None else Contributes(c, 3, p3)
    ensures DecodeChunk(c) == Ok(Octets(p0, p1, p2, p3))
  {
  }

  /** The last character of a chunk: the third octet, if there is one. */
  method DecodeFourth(c: seq<Byte>, p0: Position, p1: Position, p2: Position)
    returns (r: Result<seq<Byte>, DecodeError>)
    requires 3 <= |c| <= 4 && PosOfChar(c[0]) == Ok(p0) && PosOfChar(c[1]) == Ok(p1)
    requires !IsPad(c[2]) && PosOfChar(c[2]) == Ok(p2)
    ensures r == DecodeChunk(c)
  {
    var first := FirstOctet(p0, p1);
    var second := SecondOctet(p1, p2);
    if |c| <= 3 || c[3] == '=' as int || c[3] == '.' as int {
      MaskedOctets(p0, p1, Some(p2), None, [first, second]);
      ChunkOk(c, p0, p1, Some(p2), None);
      return Ok([first, second]);
    }
    var p3 := PosOfChar(c[3]);
    if p3.Err? {
      return Err(p3.error);
    }
    var third := ThirdOctet(p2, p3.value);
    MaskedOctets(p0, p1, Some(p2), Some(p3.value), [first, second, third]);
    ChunkOk(c, p0, p1, Some(p2), Some(p3.value));
    r := Ok([first, second, third]);
  }

  /** The body of the decoding loop. */
  method DecodeAt(s: seq<Byte>, pos: nat) returns (r: Result<seq<Byte>, DecodeError>)
    requires pos < |s|
    ensures r == DecodeChunk(s[pos..Min(pos + 4, |s|)])
  {
    var c := s[pos..Min(pos + 4, |s|)];
    if |c| < 2 {
      return Err(OutOfRange);
    }
    var p1 := PosOfChar(c[1]);
    if p1.Err? {
      return Err(p1.error);
    }
    var p0 := PosOfChar(c[0]);
    if p0.Err? {
      return Err(p0.error);
    }
    if |c| <= 2 || c[2] == '=' as int || c[2] == '.' as int {
      var first := FirstOctet(p0.value, p1.value);
      MaskedOctets(p0.value, p1.value, None, None, [first]);
      ChunkOk(c, p0.value, p1.value, None, None);
      return Ok([first]);
    }
    var p2 := PosOfChar(c[2]);
    if p2.Err? {
      return Err(p2.error);
    }
    r := DecodeFourth(c, p0.value, p1.value, p2.value);
  }

  lemma DecodedAt(s: seq<Byte>, pos: nat)
    requires pos < |s|
    ensures Decoded(s[pos..]) == Append(DecodeChunk(s[pos..Min(pos + 4, |s|)]), Decoded(s[Min(pos + 4, |s|)..]))
  {
    var rest := s[pos..];
    assert rest[..Min(4, |rest|)] == s[pos..Min(pos + 4, |s|)];
    assert rest[Min(4, |rest|)..] == s[Min(pos + 4, |s|)..];
  }

  lemma AppendAssociates(x: Result<seq<Byte>, DecodeError>, y: Result<seq<Byte>, DecodeError>,
                         z: Result<seq<Byte>, DecodeError>)
    ensures Append(Append(x, y), z) == Append(x, Append(y, z))
  {
    if x.Ok? && y.Ok? && z.Ok? {
      assert x.value + y.value + z.value == x.value + (y.value + z.value);
    }
  }

  /** `decode` without line-break removal. */
  method Decode(s: seq<Byte>) returns (r: Result<seq<Byte>, DecodeError>)
    ensures r == Decoded(s)
  {
    var ret: seq<Byte> := [];
    var pos := 0;
    ghost var left := Decoded(s);
    assert s[0..] == s && (left.Ok? ==> [] + left.value == left.value);
    while pos < |s|
      invariant 0 <= pos < |s| + 4
      invariant left == Decoded(s[Min(pos, |s|)..]) && Append(Ok(ret), left) == Decoded(s)
      decreases |s| - pos
    {
      var out := DecodeAt(s, pos);
      DecodedAt(s, pos);
      if out.Err? {
        return out;
      }
      left := Decoded(s[Min(pos + 4, |s|)..]);
      AppendAssociates(Ok(ret), out, left);
      ret := ret + out.value;
      pos := pos + 4;
    }
    assert s[|s|..] == [];
    assert ret + [] == ret;
    r := Ok(ret);
  }

  lemma MaskedOctets(p0: Position, p1: Position, p2: Option<Position>, p3: Option<Position>, out: seq<Byte>)
    requires p2 == None ==> p3 == None
    requires p2 == None ==> out == [p0 * 4 + p1 / 16]
    requires p2.Some? && p3 == None ==> out == [p0 * 4 + p1 / 16, p1 % 16 * 16 + p2.value / 4]
    requires p3.Some? ==> out == [p0 * 4 + p1 / 16, p1 % 16 * 16 + p2.value / 4, p2.value % 4 * 64 + p3.value]
    ensures out == Octets(p0, p1, p2, p3)
  {
    OctetsOfPositions(p0, p1, if p2.Some? then p2.value else 0, if p3.Some? then p3.value else 0);
  }

  lemma OctetsOfPositions(p0: Position, p1: Position, p2: Position, p3: Position)
    ensures var v := 0x4_0000 * p0 + 0x1000 * p1 + 64 * p2 + p3;
      && v / 0x1_0000 % 0x100 == p0 * 4 + p1 / 16
      && v / 0x100 % 0x100 == p1 % 16 * 16 + p2 / 4
      && v % 0x100 == p2 % 4 * 64 + p3
  {
    var q1, r1, q2, r2 := p1 / 16, p1 % 16, p2 / 4, p2 % 4;
    assert p1 == 16 * q1 + r1 && p2 == 4 * q2 + r2;
    BytesOfGroup(p0 * 4 + q1, r1 * 16 + q2, r2 * 64 + p3);
  }

  lemma BytesOfGroup(b0: Byte, b1: Byte, b2: Byte)
    ensures var v := Group(b0, b1, b2);
      v / 0x1_0000 % 0x100 == b0 && v / 0x100 % 0x100 == b1 && v % 0x100 == b2
  {
    var v := Group(b0, b1, b2);
    assert v / 0x100 == 0x100 * b0 + b1;
    assert v / 0x1_0000 == b0;
  }
}
