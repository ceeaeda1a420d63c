/**
 * Packed pixel formats. A frame-buffer colour is a 24-bit 0xRRGGBB value; a
 * texel is a 32-bit 0xAARRGGBB word (the unsigned bit pattern of the signed
 * integer the renderer stores). Channels are read with a mask and a shift.
 */
module Packed {
  import opened Bits

  type Byte = b: int | 0 <= b < 0x100
  type Color = c: int | 0 <= c < 0x100_0000
  type Word = w: int | 0 <= w < 0x1_0000_0000

  /** `(c & 0xff0000) >> 16` */
  function Red(c: nat): Byte { (c / 0x1_0000) % 0x100 }

  /** `(c & 0xff00) >> 8` */
  function Green(c: nat): Byte { (c / 0x100) % 0x100 }

  /** `c & 0xff` */
  function Blue(c: nat): Byte { c % 0x100 }

  /** `(w >> 24) & 0xff` */
  function Alpha(w: nat): Byte { (w / 0x100_0000) % 0x100 }

  /** `r << 16 | g << 8 | b` */
  function Rgb(r: Byte, g: Byte, b: Byte): Color
  {
    (r * 0x100 + g) * 0x100 + b
  }

  /** Packing three channels and reading them back gives the channels. */
  lemma RgbChannels(r: Byte, g: Byte, b: Byte)
    ensures var c := Rgb(r, g, b); Red(c) == r && Green(c) == g && Blue(c) == b
  {
    Unpack3(r, g, b);
  }

  /**
   * `r << 16 | g << 8 | b` as the renderer evaluates it: the three fields
   * share no bit, so the ORs add them up to the packed colour.
   */
  lemma OrChannels(r: Byte, g: Byte, b: Byte)
    ensures Or(Or(r * 0x1_0000, g * 0x100), b) == Rgb(r, g, b)
  {
    Pow2Constants();
    OrDisjoint(r, g * 0x100, 16);
    assert r * 0x1_0000 + g * 0x100 == (r * 0x100 + g) * 0x100;
    OrDisjoint(r * 0x100 + g, b, 8);
  }

  /** `a << 24 | r << 16 | g << 8 | b`, as an unsigned word. */
  function Argb(a: Byte, r: Byte, g: Byte, b: Byte): Word
  {
    ((a * 0x100 + r) * 0x100 + g) * 0x100 + b
  }

  /** Packing four channels and reading them back gives the channels. */
  lemma ArgbChannels(a: Byte, r: Byte, g: Byte, b: Byte)
    ensures var w := Argb(a, r, g, b); Alpha(w) == a && Red(w) == r && Green(w) == g && Blue(w) == b
  {
    Unpack4(a, r, g, b);
  }

  /** Appending a byte below hi: the byte is the remainder, hi the quotient. */
  lemma Split(hi: nat, lo: Byte)
    ensures (hi * 0x100 + lo) / 0x100 == hi && (hi * 0x100 + lo) % 0x100 == lo
  {
    DivModUnique(hi * 0x100 + lo, 0x100, hi, lo);
  }

  lemma Unpack3(r: Byte, g: Byte, b: Byte)
    ensures var c := (r * 0x100 + g) * 0x100 + b;
      c < 0x100_0000 && c / 0x1_0000 % 0x100 == r && c / 0x100 % 0x100 == g && c % 0x100 == b
  {
    var c1 := r * 0x100 + g;
    var c := c1 * 0x100 + b;
    Split(c1, b);
    Split(r, g);
    DivDiv(c, 0x100, 0x100);
    assert c / 0x1_0000 == r;
    assert c1 < 0x1_0000;
    assert c < 0x100_0000;
  }

  lemma Unpack4(a: Byte, r: Byte, g: Byte, b: Byte)
    ensures var w := ((a * 0x100 + r) * 0x100 + g) * 0x100 + b;
      w < 0x1_0000_0000 && w / 0x100_0000 % 0x100 == a && w / 0x1_0000 % 0x100 == r &&
      w / 0x100 % 0x100 == g && w % 0x100 == b
  {
    var w2 := a * 0x100 + r;
    var w1 := w2 * 0x100 + g;
    var w := w1 * 0x100 + b;
    Split(w1, b);
    Split(w2, g);
    Split(a, r);
    DivDiv(w, 0x100, 0x100);
    DivDiv(w / 0x100, 0x100, 0x100);
    DivDiv(w, 0x100, 0x1_0000);
    assert w / 0x1_0000 == w2;
    assert w / 0x100_0000 == a;
    assert w2 < 0x1_0000;
    assert w1 < 0x100_0000;
  }

  /** Every colour is the packing of its own three channels. */
  lemma RgbOfChannels(c: Color)
    ensures Rgb(Red(c), Green(c), Blue(c)) == c
  {
    var r: int, g: int, b: int := Red(c), Green(c), Blue(c);
    assert c / 0x1_0000 < 0x100;
    assert c / 0x1_0000 == r;
    DivDiv(c, 0x100, 0x100);
    assert (c / 0x100) / 0x100 == r;
    assert c / 0x100 == r * 0x100 + g;
    assert c == (c / 0x100) * 0x100 + b;
  }

  /** Every word is the packing of its own four channels. */
  lemma ArgbOfChannels(w: Word)
    ensures Argb(Alpha(w), Red(w), Green(w), Blue(w)) == w
  {
    var q1 := w / 0x100;
    var q2 := q1 / 0x100;
    var q3 := q2 / 0x100;
    DivDiv(w, 0x100, 0x100);
    DivDiv(w, 0x1_0000, 0x100);
    assert q3 == w / 0x100_0000 && q3 < 0x100;
    assert q2 == q3 * 0x100 + Red(w);
    assert q1 == q2 * 0x100 + Green(w);
    assert w == q1 * 0x100 + Blue(w);
  }

  /** `w & 0xff0000` is the red channel in place. */
  lemma MaskRed(w: Word)
    ensures And(w, 0xff_0000) == Red(w) * 0x1_0000
  {
    Pow2Constants();
    AndLowMask(w / 0x1_0000, 8);
    AndShiftedMask(w, 0xff, 16);
  }

  /** `w & 0xff00` is the green channel in place. */
  lemma MaskGreen(w: Word)
    ensures And(w, 0xff00) == Green(w) * 0x100
  {
    Pow2Constants();
    AndLowMask(w / 0x100, 8);
    AndShiftedMask(w, 0xff, 8);
  }

  /** `w & 0xff` is the blue channel. */
  lemma MaskBlue(w: Word)
    ensures And(w, 0xff) == Blue(w)
  {
    Pow2Constants();
    AndLowMask(w, 8);
  }

  /** `w & 0xff000000` is the alpha channel in place. */
  lemma MaskAlpha(w: Word)
    ensures And(w, 0xff00_0000) == Alpha(w) * 0x100_0000
  {
    Pow2Constants();
    AndLowMask(w / 0x100_0000, 8);
    AndShiftedMask(w, 0xff, 24);
  }

  /**
   * The masks the renderer applies select exactly one channel each, in
   * place: what `c & 0xff0000`, `c & 0xff00`, `c & 0xff` and
   * `c & 0xff000000` compute is the channel times its place value.
   */
  lemma MasksSelectChannels(w: Word)
    ensures And(w, 0xff_0000) == Red(w) * 0x1_0000
    ensures And(w, 0xff00) == Green(w) * 0x100
    ensures And(w, 0xff) == Blue(w)
    ensures And(w, 0xff00_0000) == Alpha(w) * 0x100_0000
  {
    MaskRed(w);
    MaskGreen(w);
    MaskBlue(w);
    MaskAlpha(w);
  }
}
