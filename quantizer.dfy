/**
 * The reduced palette of colors.py (`quantize`, `rgb9`): each channel keeps
 * its top three bits, which are then repeated downwards to fill the byte.
 */
module Quantizer {
  import opened ColorCodec

  /** The eight values a quantized channel can take: 0, 1/7, ..., 7/7 of 255. */
  const Levels: set<Byte> := {0x00, 0x24, 0x49, 0x6d, 0x92, 0xb6, 0xdb, 0xff}

  /** `quantize` on the bits of a byte. */
  function QuantizeBits(x: bv8): (r: bv8)
    ensures r & 0xe0 == x & 0xe0
    ensures r >> 5 == x >> 5 && (r >> 2) & 7 == x >> 5
  {
    var top := x & (7 << 5);
    top | (top >> 3) | (top >> 6)
  }

  /** `quantize` on a channel value: one of the eight levels, with the same top three bits. */
  function Quantize(x: Byte): (r: Byte)
    ensures r in Levels
    ensures r / 32 == x / 32
  {
    QuantizeBits(x as bv8) as int
  }

  /** Quantizing twice is quantizing once. */
  lemma QuantizeIdempotent(x: Byte)
    ensures Quantize(Quantize(x)) == Quantize(x)
  {
  }

  /** Every level is its own quantization, so the levels are exactly the values quantize takes. */
  lemma QuantizeLevels()
    ensures |Levels| == 8
    ensures forall l | l in Levels :: Quantize(l) == l
    ensures Quantize(0) == 0 && Quantize(255) == 255
  {
    assert Quantize(0x00) == 0x00;
    assert Quantize(0x24) == 0x24;
    assert Quantize(0x49) == 0x49;
    assert Quantize(0x6d) == 0x6d;
    assert Quantize(0x92) == 0x92;
    assert Quantize(0xb6) == 0xb6;
    assert Quantize(0xdb) == 0xdb;
    assert Quantize(0xff) == 0xff;
  }

  /** `rgb9`: every channel quantized, repacked with `from_rgb`. */
  function Rgb9(c: Color): (q: Color)
    ensures Red(q) == Quantize(Red(c))
    ensures Green(q) == Quantize(Green(c))
    ensures Blue(q) == Quantize(Blue(c))
  {
    FromRgbBytes(Quantize(Red(c)), Quantize(Green(c)), Quantize(Blue(c)));
    FromRgb(Quantize(Red(c)) as real, Quantize(Green(c)) as real, Quantize(Blue(c)) as real)
  }

  /** Reducing a colour that is already reduced changes nothing. */
  lemma Rgb9Idempotent(c: Color)
    ensures Rgb9(Rgb9(c)) == Rgb9(c)
  {
    var q := Rgb9(c);
    QuantizeIdempotent(Red(c));
    QuantizeIdempotent(Green(c));
    QuantizeIdempotent(Blue(c));
    PackChannels(Rgb9(q));
    PackChannels(q);
  }
}
