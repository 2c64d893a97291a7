/**
 * The fixed-width values the save code is made of: bits of 32-bit words,
 * the little-endian bytes of a word, and the two bytes of a 16-bit
 * two's-complement score.
 */
module Bits {

  type byte = bv8

  /** Bit `i` of `w` is set: `w & (1 << i)` is non-zero. */
  predicate BitAt(w: bv32, i: bv5)
  {
    w & (1 << i) != 0
  }

  /** Bit `b` of `w`, for a position given as a number. */
  predicate Bit(w: bv32, b: nat)
    requires b < 32
  {
    BitAt(w, b as bv5)
  }

  /** Bit positions survive the round trip through a 5-bit shift count. */
  lemma ShiftCountValue(x: int)
    requires 0 <= x < 32
    ensures (x as bv5) as int == x
  {
  }

  /** A shift count below 32 is its own low five bits. */
  lemma SmallShiftCount(i: int)
    requires 0 <= i < 32
    ensures i % 32 == i
  {
  }

  lemma BitAtOr(w: bv32, k: bv5, i: bv5)
    ensures BitAt(w | (1 << k), i) <==> BitAt(w, i) || i == k
  {
  }

  lemma BitAtAnd(w: bv32, m: bv32, i: bv5)
    ensures BitAt(w & m, i) <==> BitAt(w, i) && BitAt(m, i)
  {
  }

  lemma BitAtMask27(i: bv5)
    ensures BitAt(0x7ff_ffff, i) <==> i < 27
  {
  }

  lemma BitAtZero(i: bv5)
    ensures !BitAt(0, i)
  {
  }

  lemma BitOfOr(w: bv32, k: nat, b: nat)
    requires k < 32 && b < 32
    ensures Bit(w | (1 << (k as bv5)), b) <==> Bit(w, b) || b == k
  {
    BitAtOr(w, k as bv5, b as bv5);
    ShiftCountValue(k);
    ShiftCountValue(b);
  }

  lemma BitOfAnd(w: bv32, m: bv32, b: nat)
    requires b < 32
    ensures Bit(w & m, b) <==> Bit(w, b) && Bit(m, b)
  {
    BitAtAnd(w, m, b as bv5);
  }

  lemma BitOfZero(b: nat)
    requires b < 32
    ensures !Bit(0, b)
  {
    BitAtZero(b as bv5);
  }

  /** The mask applied to the found-countries word keeps bits 0..26. */
  lemma BitOfMask27(b: nat)
    requires b < 32
    ensures Bit(0x7ff_ffff, b) <==> b < 27
  {
    BitAtMask27(b as bv5);
    ShiftCountValue(b);
  }

  /** A bit of the masked found-countries word is a bit of 0..26 set in the word. */
  lemma MaskedBit(w: bv32, b: nat)
    requires b < 32
    ensures Bit(w & 0x7ff_ffff, b) <==> b < 27 && Bit(w, b)
  {
    BitOfAnd(w, 0x7ff_ffff, b);
    BitOfMask27(b);
  }

  /** The four bytes of `w`, least significant first (a `Uint32Array` buffer). */
  function WordBytes(w: bv32): (r: seq<byte>)
  {
    [(w & 0xff) as byte, ((w >> 8) & 0xff) as byte,
     ((w >> 16) & 0xff) as byte, (w >> 24) as byte]
  }

  /** The word stored little-endian at offset `k`. */
  function WordAt(bs: seq<byte>, k: nat): bv32
    requires k + 4 <= |bs|
  {
    (bs[k] as bv32) | (bs[k + 1] as bv32 << 8) |
    (bs[k + 2] as bv32 << 16) | (bs[k + 3] as bv32 << 24)
  }

  /** A word written at offset `k` reads back unchanged. */
  lemma WordRoundTrip(w: bv32, bs: seq<byte>, k: nat)
    requires k + 4 <= |bs| && bs[k..k + 4] == WordBytes(w)
    ensures WordAt(bs, k) == w
  {
    assert bs[k] == WordBytes(w)[0] && bs[k + 1] == WordBytes(w)[1];
    assert bs[k + 2] == WordBytes(w)[2] && bs[k + 3] == WordBytes(w)[3];
  }

  /** Numbers below 16 survive the round trip through four bits. */
  lemma NibbleValue(x: int)
    requires 0 <= x < 0x10
    ensures (x as bv4) as int == x
  {
  }

  /** A byte put together from two nibbles splits back into them. */
  lemma ByteNibbles(h: bv4, l: bv4)
    ensures var b := (h as byte << 4) | l as byte;
      (b >> 4) as bv4 == h && (b & 0xf) as bv4 == l
  {
  }

  /** The byte holding a number below 256, built one nibble at a time. */
  function ToByte(x: int): byte
    requires 0 <= x < 0x100
  {
    ((x / 0x10) as bv4 as byte << 4) | (x % 0x10) as bv4 as byte
  }

  /** The number a byte holds, read one nibble at a time. */
  function ByteValue(b: byte): (r: int)
    ensures 0 <= r < 0x100
  {
    0x10 * (b >> 4) as bv4 as int + (b & 0xf) as bv4 as int
  }

  /** Numbers below 256 survive the round trip through a byte. */
  lemma ByteRoundTrip(x: int)
    requires 0 <= x < 0x100
    ensures ByteValue(ToByte(x)) == x
  {
    ByteNibbles((x / 0x10) as bv4, (x % 0x10) as bv4);
    NibbleValue(x / 0x10);
    NibbleValue(x % 0x10);
  }

  /**
   * The two bytes of `new Int16Array([score])`: the score modulo 2^16,
   * least significant byte first.
   */
  function Int16Bytes(score: int): (r: seq<byte>)
  {
    var u := score % 0x1_0000;
    [ToByte(u % 0x100), ToByte(u / 0x100)]
  }

  /** The signed 16-bit value stored little-endian at offset `k`. */
  function Int16At(bs: seq<byte>, k: nat): (r: int)
    requires k + 2 <= |bs|
    ensures -0x8000 <= r < 0x8000
  {
    var u := ByteValue(bs[k]) + 0x100 * ByteValue(bs[k + 1]);
    if u < 0x8000 then u else u - 0x1_0000
  }

  /** A score reads back congruent to itself modulo 2^16. */
  lemma Int16Wraps(score: int, bs: seq<byte>)
    requires 2 <= |bs| && bs[..2] == Int16Bytes(score)
    ensures (Int16At(bs, 0) - score) % 0x1_0000 == 0
  {
    var u := score % 0x1_0000;
    var lo, hi := u % 0x100, u / 0x100;
    assert bs[0] == ToByte(lo) && bs[1] == ToByte(hi);
    ByteRoundTrip(lo);
    ByteRoundTrip(hi);
    assert ByteValue(bs[0]) + 0x100 * ByteValue(bs[1]) == u;
  }

  /** A score within the 16-bit range reads back unchanged. */
  lemma Int16RoundTrip(score: int, bs: seq<byte>)
    requires -0x8000 <= score < 0x8000
    requires 2 <= |bs| && bs[..2] == Int16Bytes(score)
    ensures Int16At(bs, 0) == score
  {
    Int16Wraps(score, bs);
  }
}
