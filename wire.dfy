/**
 * The bytes that travel through the bridge's socket pair.
 *
 * The signal handler writes the raw memory of a C `int` (`sizeof(int)` bytes)
 * and `propagateSignal` reads the same number of bytes back into an `int`.
 * This module fixes the layout of that record (four bytes, two's complement,
 * least significant byte first, as on Linux on x86 and ARM) and proves that
 * encoding and decoding are inverse bijections. It also models the
 * `ssize_t` to `unsigned long` conversion that the short-read test applies
 * to the result of read(2).
 */
module Wire {

  newtype byte = b: int | 0 <= b < 256

  /** A C `int` on the platforms the bridge targets. */
  newtype int32 = x: int | -0x8000_0000 <= x < 0x8000_0000

  /** `sizeof(int)`: the length of one signal-number record on the channel. */
  const IntSize: nat := 4

  const TwoTo32: nat := 0x1_0000_0000
  const TwoTo63: nat := 0x8000_0000_0000_0000
  const TwoTo64: nat := 0x1_0000_0000_0000_0000

  function Pow256(k: nat): (p: nat)
    ensures p >= 1
  {
    if k == 0 then 1 else 256 * Pow256(k - 1)
  }

  lemma Pow256IntSize()
    ensures Pow256(IntSize) == TwoTo32
  {
    assert Pow256(1) == 256;
    assert Pow256(2) == 65536;
    assert Pow256(3) == 16777216;
  }

  lemma DivBound(u: nat, p: nat)
    requires u < 256 * p
    ensures u / 256 < p
  {
  }

  /** The `k` least significant base-256 digits of `u`, lowest first. */
  function LittleEndian(u: nat, k: nat): (r: seq<byte>)
    requires u < Pow256(k)
    ensures |r| == k
  {
    if k == 0 then []
    else
      DivBound(u, Pow256(k - 1));
      [(u % 256) as byte] + LittleEndian(u / 256, k - 1)
  }

  /** The unsigned value of a little-endian byte string. */
  function FromLittleEndian(bs: seq<byte>): (u: nat)
    ensures u < Pow256(|bs|)
  {
    if bs == [] then 0 else bs[0] as nat + 256 * FromLittleEndian(bs[1..])
  }

  lemma {:induction false} FromLittleEndianOfLittleEndian(u: nat, k: nat)
    requires u < Pow256(k)
    ensures FromLittleEndian(LittleEndian(u, k)) == u
  {
    if k > 0 {
      DivBound(u, Pow256(k - 1));
      var bs := LittleEndian(u, k);
      assert bs[1..] == LittleEndian(u / 256, k - 1);
      FromLittleEndianOfLittleEndian(u / 256, k - 1);
    }
  }

  lemma DigitSplit(b: nat, y: nat)
    requires b < 256
    ensures (b + 256 * y) % 256 == b && (b + 256 * y) / 256 == y
  {
  }

  lemma {:induction false} LittleEndianOfFromLittleEndian(bs: seq<byte>)
    ensures LittleEndian(FromLittleEndian(bs), |bs|) == bs
  {
    if bs != [] {
      var y := FromLittleEndian(bs[1..]);
      DigitSplit(bs[0] as nat, y);
      LittleEndianOfFromLittleEndian(bs[1..]);
      assert bs == [bs[0]] + bs[1..];
    }
  }

  /** The bit pattern of a C `int` read as an unsigned 32-bit number. */
  function ToUnsigned32(n: int32): (u: nat)
    ensures u < TwoTo32
    ensures (u - n as int) % TwoTo32 == 0
  {
    if n < 0 then n as int + TwoTo32 else n as int
  }

  /** The C `int` whose bit pattern is the unsigned 32-bit number `u`. */
  function FromUnsigned32(u: nat): (n: int32)
    requires u < TwoTo32
    ensures (u - n as int) % TwoTo32 == 0
  {
    if u >= 0x8000_0000 then (u - TwoTo32) as int32 else u as int32
  }

  /** The bytes `::write(fd, &signalNo, sizeof(signalNo))` hands to the kernel. */
  function EncodeInt(n: int32): (r: seq<byte>)
    ensures |r| == IntSize
  {
    Pow256IntSize();
    LittleEndian(ToUnsigned32(n), IntSize)
  }

  /** The `int` that `::read(fd, &signalNo, sizeof(signalNo))` leaves in `signalNo`. */
  function DecodeInt(bs: seq<byte>): int32
    requires |bs| == IntSize
  {
    Pow256IntSize();
    FromUnsigned32(FromLittleEndian(bs))
  }

  /** What is written is what is read back: the record round trip. */
  lemma DecodeEncode(n: int32)
    ensures DecodeInt(EncodeInt(n)) == n
  {
    Pow256IntSize();
    FromLittleEndianOfLittleEndian(ToUnsigned32(n), IntSize);
  }

  /** Every four-byte record is the encoding of the number it decodes to. */
  lemma EncodeDecode(bs: seq<byte>)
    requires |bs| == IntSize
    ensures EncodeInt(DecodeInt(bs)) == bs
  {
    Pow256IntSize();
    var u := FromLittleEndian(bs);
    assert ToUnsigned32(FromUnsigned32(u)) == u;
    LittleEndianOfFromLittleEndian(bs);
  }

  /** Two different numbers never share a record. */
  lemma EncodeInjective(m: int32, n: int32)
    requires EncodeInt(m) == EncodeInt(n)
    ensures m == n
  {
    DecodeEncode(m);
    DecodeEncode(n);
  }

  /** The range of `ssize_t`, the type read(2) and write(2) return. */
  predicate InSsizeRange(s: int)
  {
    -(TwoTo63 as int) <= s < TwoTo63
  }

  /**
   * `static_cast<unsigned long>(s)` for a 64-bit `ssize_t`: the unique value
   * below 2^64 that is congruent to `s` modulo 2^64.
   */
  function UnsignedLong(s: int): (u: nat)
    requires InSsizeRange(s)
    ensures u < TwoTo64
    ensures (u - s) % TwoTo64 == 0
  {
    if s < 0 then s + TwoTo64 else s
  }

  /** The test `static_cast<unsigned long>(s) < sizeof(signalNo)`. */
  predicate IsShortRead(s: int)
    requires InSsizeRange(s)
  {
    UnsignedLong(s) < IntSize
  }

  /**
   * The short-read test accepts exactly the byte counts 0 to 3; every
   * negative result, the error value -1 included, wraps to a huge unsigned
   * value and is not treated as short.
   */
  lemma ShortReadExactly(s: int)
    requires InSsizeRange(s)
    ensures IsShortRead(s) <==> 0 <= s < IntSize
    ensures s == -1 ==> !IsShortRead(s)
  {
  }
}
