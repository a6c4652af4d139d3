/** Integers in memory: C ints and unsigned shorts on a little-endian machine, and single bits. */
module Bytes {
  import opened PoolModel

  predicate IsInt(v: int) {
    -0x8000_0000 <= v <= INT_MAX
  }

  /** The four bytes of a C int. */
  function IntBytes(v: int): (bs: seq<byte>)
    requires IsInt(v)
    ensures |bs| == 4
  {
    var u := v % 0x1_0000_0000;
    var q1 := u / 256;
    var q2 := q1 / 256;
    [u % 256, q1 % 256, q2 % 256, q2 / 256]
  }

  function BytesToInt(bs: seq<byte>): (v: int)
    requires |bs| == 4
    ensures IsInt(v)
  {
    var b0: int, b1: int, b2: int, b3: int := bs[0], bs[1], bs[2], bs[3];
    var u := b0 + 256 * b1 + 65536 * b2 + 16777216 * b3;
    if u <= INT_MAX then u else u - 0x1_0000_0000
  }

  lemma IntRoundTrip(v: int)
    requires IsInt(v)
    ensures BytesToInt(IntBytes(v)) == v
  {
    var u := v % 0x1_0000_0000;
    var q1 := u / 256;
    var q2 := q1 / 256;
    assert u == u % 256 + 256 * q1 && q1 == q1 % 256 + 256 * q2 && q2 == q2 % 256 + 256 * (q2 / 256);
  }

  lemma TwoDigits(u: int)
    ensures u == u % 256 + 256 * (u / 256)
  {
  }

  lemma Wrapped(v: int)
    requires IsInt(v)
    ensures v % 0x1_0000_0000 == if v >= 0 then v else v + 0x1_0000_0000
  {
  }

  /** Least significant byte first, negative numbers in two's complement. */
  lemma IntBytesMeaning(v: int)
    requires IsInt(v)
    ensures var bs := IntBytes(v);
            bs[0] as int + 256 * bs[1] as int + 65536 * bs[2] as int + 16777216 * bs[3] as int
              == if v >= 0 then v else v + 0x1_0000_0000
  {
    var u := v % 0x1_0000_0000;
    Wrapped(v);
    TwoDigits(u);
    TwoDigits(u / 256);
    TwoDigits(u / 256 / 256);
  }

  /** Different bytes are different numbers. */
  lemma BytesRoundTrip(bs: seq<byte>)
    requires |bs| == 4
    ensures IntBytes(BytesToInt(bs)) == bs
  {
    var b0: int, b1: int, b2: int, b3: int := bs[0], bs[1], bs[2], bs[3];
    var u := b0 + 256 * b1 + 65536 * b2 + 16777216 * b3;
    assert BytesToInt(bs) % 0x1_0000_0000 == u;
    assert u / 256 == b1 + 256 * b2 + 65536 * b3;
    assert u / 256 / 256 == b2 + 256 * b3;
  }

  /** The two bytes of a length that is stored as an unsigned short; longer lengths wrap around. */
  function ShortBytes(n: nat): (bs: seq<byte>)
    ensures |bs| == 2
  {
    [n % 256, (n / 256) % 256]
  }

  function BytesToShort(bs: seq<byte>): (n: nat)
    requires |bs| == 2
    ensures n <= 65535
  {
    var b0: int, b1: int := bs[0], bs[1];
    b0 + 256 * b1
  }

  lemma ShortRoundTrip(n: nat)
    ensures BytesToShort(ShortBytes(n)) == n % 65536
  {
    assert n % 65536 == n % 256 + 256 * ((n / 256) % 256);
  }

  /** 1 << k */
  function Mask(k: int): bv8
    requires 0 <= k < 8
  {
    if k == 0 then 1 else if k == 1 then 2 else if k == 2 then 4 else if k == 3 then 8
    else if k == 4 then 16 else if k == 5 then 32 else if k == 6 then 64 else 128
  }

  function ToBits(b: byte): bv8 {
    b as bv8
  }

  function FromBits(x: bv8): byte {
    x as int
  }

  function Or(x: bv8, y: bv8): bv8 {
    x | y
  }

  predicate Meets(x: bv8, y: bv8) {
    x & y != 0
  }

  /** b & (1 << k) */
  predicate TestBit(b: byte, k: int)
    requires 0 <= k < 8
  {
    Meets(ToBits(b), Mask(k))
  }

  /** b | (1 << k) */
  function SetBit(b: byte, k: int): byte
    requires 0 <= k < 8
  {
    FromBits(Or(ToBits(b), Mask(k)))
  }

  function Pow2(k: nat): (n: nat)
    ensures n >= 1
  {
    if k == 0 then 1 else 2 * Pow2(k - 1)
  }

  /** Bit k is the binary digit of 2^k. */
  lemma TestBitMeaning(b: byte, k: int)
    requires 0 <= k < 8
    ensures TestBit(b, k) <==> (b / Pow2(k)) % 2 == 1
  {
    PowersOf2();
    if k == 0 { } else if k == 1 { } else if k == 2 { } else if k == 3 { }
    else if k == 4 { } else if k == 5 { } else if k == 6 { } else { }
  }

  lemma PowersOf2()
    ensures Pow2(0) == 1 && Pow2(1) == 2 && Pow2(2) == 4 && Pow2(3) == 8
    ensures Pow2(4) == 16 && Pow2(5) == 32 && Pow2(6) == 64 && Pow2(7) == 128
  {
  }

  lemma MaskedBits(x: bv8, k: int, j: int)
    requires 0 <= k < 8 && 0 <= j < 8
    ensures Meets(Or(x, Mask(k)), Mask(j)) <==> j == k || Meets(x, Mask(j))
  {
  }

  lemma ByteOfBits(x: bv8)
    ensures ToBits(FromBits(x)) == x
  {
  }

  lemma SetBitTest(b: byte, k: int, j: int)
    requires 0 <= k < 8 && 0 <= j < 8
    ensures TestBit(SetBit(b, k), j) <==> j == k || TestBit(b, j)
  {
    hide Mask, ToBits, FromBits, Or, Meets;
    MaskedBits(ToBits(b), k, j);
    ByteOfBits(Or(ToBits(b), Mask(k)));
  }

  lemma ZeroBits(k: int)
    requires 0 <= k < 8
    ensures !TestBit(0, k)
  {
  }
}
