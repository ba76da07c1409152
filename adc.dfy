/** Decoding a conversion result.  A block read returns the 12-bit sample in
    its first two bytes, [vvvvvvvv][vvvv0000]: the first byte holds bits 11..4
    and the high nibble of the second holds bits 3..0. */
module Adc {
  import opened Wire

  /** The sample as the driver assembles it, `(b0 << 4) + (b1 >> 4)` on integers. */
  function Sample12(b0: byte, b1: byte): (v: nat)
    ensures v < 4096
    ensures v / 16 == b0 as int && v % 16 == (b1 >> 4) as int
  {
    (b0 as int) * 16 + (b1 as int) / 16
  }

  /** The two parts never overlap, so the sum the driver computes is the
      bitwise OR `(b0 << 4) | (b1 >> 4)` of the format description. */
  lemma SampleIsOr(b0: byte, b1: byte)
    ensures Sample12(b0, b1) == (((b0 as bv16) << 4) | ((b1 as bv16) >> 4)) as int
  {
  }

  /** The two bytes a chip sends for a 12-bit sample, with the unused nibble zero. */
  function SampleBytes(v: bv16): (bs: (byte, byte))
    requires v < 4096
  {
    ((v >> 4) as byte, ((v & 0xF) << 4) as byte)
  }

  /** Every 12-bit value survives the trip through the two-byte format. */
  lemma SampleRoundTrip(v: bv16)
    requires v < 4096
    ensures Sample12(SampleBytes(v).0, SampleBytes(v).1) == v as int
  {
    var (b0, b1) := SampleBytes(v);
    SampleIsOr(b0, b1);
    assert ((b0 as bv16) << 4) | ((b1 as bv16) >> 4) == v;
  }

  /** Decoding keeps the first byte and the high nibble of the second and
      discards the low nibble, so two byte pairs give the same sample exactly
      when they agree on those twelve bits. */
  lemma SampleIgnoresLowNibble(a0: byte, a1: byte, c0: byte, c1: byte)
    ensures Sample12(a0, a1) == Sample12(c0, c1) <==> a0 == c0 && a1 & 0xF0 == c1 & 0xF0
  {
    var x, y := Sample12(a0, a1), Sample12(c0, c1);
    assert x == 16 * (x / 16) + x % 16 && y == 16 * (y / 16) + y % 16;
    ByteInjective(a0, c0);
    ByteInjective(a1 >> 4, c1 >> 4);
    HighNibble(a1, c1);
  }

  /** A byte's integer value determines it. */
  lemma ByteInjective(a: byte, c: byte)
    ensures a as int == c as int <==> a == c
  {
  }

  /** Two bytes have the same high nibble exactly when they agree on their top four bits. */
  lemma HighNibble(a: byte, c: byte)
    ensures a >> 4 == c >> 4 <==> a & 0xF0 == c & 0xF0
  {
  }

  /** The worked example of the format: [0xAB, 0xC0] is 0xABC. */
  lemma SampleExample()
    ensures Sample12(0xAB, 0xC0) == 0xABC == 2748
  {
  }
}
