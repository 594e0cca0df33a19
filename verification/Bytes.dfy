/** Octets, the signed 16-bit `short` of the headers, and network byte order. */
module Bytes {
  type Byte = x: int | 0 <= x < 0x100

  type Short = x: int | -0x8000 <= x < 0x8000

  /** The byte order of the machine the server runs on. */
  datatype Endian = Little | Big

  /** The implicit conversion to `short`: the value modulo 2^16, read as two's complement. */
  function ToShort(x: int): Short
  {
    var m := x % 0x1_0000;
    if m < 0x8000 then m else m - 0x1_0000
  }

  /** The high octet first: the order the wire uses. */
  function BigEndian(x: Short): seq<Byte>
  {
    [x % 0x1_0000 / 0x100, x % 0x100]
  }

  /** The number two octets stand for. */
  function Pair(hi: int, lo: int): int
  {
    0x100 * hi + lo
  }

  /** What `memcpy(dst, &x, 2)` leaves at `dst`. */
  function InMemory(host: Endian, x: Short): seq<Byte>
  {
    match host
    case Big => [x % 0x1_0000 / 0x100, x % 0x100]
    case Little => [x % 0x100, x % 0x1_0000 / 0x100]
  }

  /** What `memcpy(&x, src, 2)` leaves in `x`. */
  function FromMemory(host: Endian, src: seq<Byte>): Short
    requires |src| == 2
  {
    match host
    case Big => ToShort(Pair(src[0], src[1]))
    case Little => ToShort(Pair(src[1], src[0]))
  }

  /** `host_to_network_short` and `network_to_host_short`: swap the octets unless the host is big-endian. */
  function SwapShort(host: Endian, x: Short): Short
  {
    match host
    case Big => x
    case Little => ToShort(Pair(x % 0x100, x % 0x1_0000 / 0x100))
  }

  lemma SmallShort(n: nat)
    requires n < 0x8000
    ensures ToShort(n) == n
  {
  }

  lemma PairParts(hi: Byte, lo: Byte)
    ensures 0 <= Pair(hi, lo) < 0x1_0000 && Pair(hi, lo) / 0x100 == hi && Pair(hi, lo) % 0x100 == lo
  {
  }

  lemma ShortParts(x: nat)
    requires x < 0x1_0000
    ensures ToShort(x) % 0x1_0000 == x && ToShort(x) % 0x100 == x % 0x100
  {
    var q, r := x / 0x100, x % 0x100;
    if x >= 0x8000 {
      assert ToShort(x) == 0x100 * (q - 0x100) + r;
    }
  }

  lemma PairSplits(hi: Byte, lo: Byte)
    ensures ToShort(Pair(hi, lo)) % 0x1_0000 / 0x100 == hi && ToShort(Pair(hi, lo)) % 0x100 == lo
  {
    PairParts(hi, lo);
    ShortParts(Pair(hi, lo));
  }

  /** Converting to network order and copying puts the high octet first, whatever the host. */
  lemma NetworkOrder(host: Endian, x: Short)
    ensures InMemory(host, SwapShort(host, x)) == BigEndian(x)
  {
    if host == Little {
      PairSplits(x % 0x100, x % 0x1_0000 / 0x100);
    }
  }

  /** Copying two octets into a `short` and converting to host order reads them high octet first. */
  lemma HostOrder(host: Endian, src: seq<Byte>)
    requires |src| == 2
    ensures SwapShort(host, FromMemory(host, src)) == ToShort(Pair(src[0], src[1]))
  {
    PairSplits(src[1], src[0]);
  }

  lemma BigEndianPairs(x: Short, src: seq<Byte>)
    requires src == BigEndian(x)
    ensures ToShort(Pair(src[0], src[1])) == x
  {
    var u := x % 0x1_0000;
    assert x == u || x == u - 0x100 * 0x100;
    assert u % 0x100 == x % 0x100;
    assert Pair(src[0], src[1]) == u;
  }

  /** Every `short`, negative ones included, survives the trip over the wire. */
  lemma ShortRoundTrip(host: Endian, x: Short, src: seq<Byte>)
    requires src == BigEndian(x)
    ensures SwapShort(host, FromMemory(host, src)) == x
  {
    HostOrder(host, src);
    BigEndianPairs(x, src);
  }
}
