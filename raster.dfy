/**
 * The integer core of the scan-line renderers: ordering a triangle's corners
 * by screen row, setting up one span, the depth-tested writes into the
 * depth, colour and selection buffers, the 2x2 point footprint and the
 * per-channel colour arithmetic of blending and texture modulation.
 *
 * Screen positions and span ends are integers; depths are reals (rounding
 * is not modelled). The float edge stepping that produces the span ends, and
 * the interpolation of palette index and texture coordinates across a span,
 * are abstracted: a span receives its ends, and its cells receive their ink
 * as a function of the column.
 */
module Raster {
  import opened Bits
  import opened Packed

  // ---------------------------------------------------------------------
  // Triangle corners
  // ---------------------------------------------------------------------

  /** Which corner is topmost (high), bottommost (low) and in between (mid). */
  datatype Corners = Corners(high: nat, mid: int, low: nat)

  /**
   * The renderers' classification of a triangle's corners by screen row:
   * high is the last corner of least y, low the last corner of greatest y,
   * and mid the remaining one, `3 - low - high`. A triangle is drawn only
   * when high != low, which is exactly when it spans more than one row.
   */
  function Classify(ys: seq<int>): (c: Corners)
    requires |ys| == 3
    ensures c.high < 3 && c.low < 3
    ensures forall k | 0 <= k < 3 :: ys[c.high] <= ys[k] <= ys[c.low]
    ensures c.high == c.low <==> ys[0] == ys[1] == ys[2]
    ensures c.high != c.low ==>
      && 0 <= c.mid < 3 && c.mid != c.high && c.mid != c.low
      && ys[c.high] <= ys[c.mid] <= ys[c.low]
  {
    var high0 := if ys[0] < ys[1] then 0 else 1;
    var high := if ys[high0] < ys[2] then high0 else 2;
    var low0 := if ys[0] > ys[1] then 0 else 1;
    var low := if ys[low0] > ys[2] then low0 else 2;
    Corners(high, 3 - low - high, low)
  }

  // ---------------------------------------------------------------------
  // Span set-up
  // ---------------------------------------------------------------------

  /** The two ends of a span on one scan line, each a column and a depth. */
  datatype Span = Span(xLeft: int, zLeft: real, xRight: int, zRight: real)

  /** The ends in left-to-right order: column and depth are swapped together. */
  function Ordered(s: Span): Span
  {
    if s.xLeft > s.xRight then Span(s.xRight, s.zRight, s.xLeft, s.zLeft) else s
  }

  /** The depth step per column: the slope between the ends, or 1 when they share a column. */
  function Slope(s: Span): real
  {
    if s.xLeft != s.xRight then (s.zRight - s.zLeft) / (s.xRight - s.xLeft) as real else 1.0
  }

  /** The depth at column x on the line through (x0, z0) with step zInc. */
  function DepthAt(x0: int, z0: real, zInc: real, x: int): real
  {
    z0 + (x - x0) as real * zInc
  }

  /** A span ready to fill: first and last column, depth at the first, step. */
  datatype Setup = Setup(xLeft: int, xRight: int, zLeft: real, zInc: real)

  /** Column x clamped to the row 0..w-1 from the side each end can leave it. */
  function ClampLeft(x: int): int { if x < 0 then 0 else x }
  function ClampRight(x: int, w: int): int { if x >= w then w - 1 else x }

  /**
   * Flat shading's set-up: order the ends, clamp the columns to 0..w-1,
   * then take the depth step between the clamped columns. The end depths
   * are kept, so a clamped span spreads its full depth range over the
   * columns that remain.
   */
  function FlatSetup(s: Span, w: int): Setup
  {
    var o := Ordered(s);
    Setup(ClampLeft(o.xLeft), ClampRight(o.xRight, w), o.zLeft,
          Slope(Span(ClampLeft(o.xLeft), o.zLeft, ClampRight(o.xRight, w), o.zRight)))
  }

  /**
   * Smooth and textured shading's set-up: order the ends and take the
   * slope between them, then clamp; a clamped left end also advances the
   * left depth by -xLeft steps.
   */
  function SmoothSetup(s: Span, w: int): Setup
  {
    var o := Ordered(s);
    var zInc := Slope(o);
    Setup(ClampLeft(o.xLeft), ClampRight(o.xRight, w),
          if o.xLeft < 0 then o.zLeft - o.xLeft as real * zInc else o.zLeft,
          zInc)
  }

  /** The ordered span runs left to right, and its depth line passes through both ends. */
  lemma OrderedLine(s: Span)
    ensures var o := Ordered(s);
      && o.xLeft <= o.xRight
      && {(o.xLeft, o.zLeft), (o.xRight, o.zRight)} == {(s.xLeft, s.zLeft), (s.xRight, s.zRight)}
      && DepthAt(o.xLeft, o.zLeft, Slope(o), o.xLeft) == o.zLeft
      && (o.xLeft != o.xRight ==> DepthAt(o.xLeft, o.zLeft, Slope(o), o.xRight) == o.zRight)
  {
    var o := Ordered(s);
    if o.xLeft != o.xRight {
      SlopeReaches(o);
    }
  }

  /** The line through two distinct columns' depths meets the second end. */
  lemma SlopeReaches(s: Span)
    requires s.xLeft != s.xRight
    ensures DepthAt(s.xLeft, s.zLeft, Slope(s), s.xRight) == s.zRight
  {
    var d := (s.xRight - s.xLeft) as real;
    assert d * ((s.zRight - s.zLeft) / d) == s.zRight - s.zLeft;
  }

  /**
   * Smooth set-up keeps the fill inside the row (columns 0..w-1), keeps
   * each end that is on screen, and keeps the depth line: every column
   * gets the depth the unclamped line through the ordered ends has there.
   */
  lemma SmoothSetupLine(s: Span, w: int, x: int)
    ensures var o, sm := Ordered(s), SmoothSetup(s, w);
      && sm.xLeft >= 0 && sm.xRight <= w - 1
      && (o.xLeft >= 0 ==> sm.xLeft == o.xLeft) && (o.xRight < w ==> sm.xRight == o.xRight)
      && DepthAt(sm.xLeft, sm.zLeft, sm.zInc, x) == DepthAt(o.xLeft, o.zLeft, Slope(o), x)
  {
    var o := Ordered(s);
    var zInc := Slope(o);
    if o.xLeft < 0 {
      assert (o.zLeft - o.xLeft as real * zInc) + x as real * zInc == o.zLeft + (x - o.xLeft) as real * zInc;
    }
  }

  /**
   * Flat set-up clamps the same columns as smooth set-up, starts at the
   * ordered left depth and, over two or more columns, ends exactly at the
   * ordered right depth, whether or not an end was clamped.
   */
  lemma FlatSetupLine(s: Span, w: int)
    ensures var o, fl, sm := Ordered(s), FlatSetup(s, w), SmoothSetup(s, w);
      && fl.xLeft == sm.xLeft && fl.xRight == sm.xRight && fl.zLeft == o.zLeft
      && (fl.xLeft != fl.xRight ==> DepthAt(fl.xLeft, fl.zLeft, fl.zInc, fl.xRight) == o.zRight)
  {
    var o := Ordered(s);
    var c := Span(ClampLeft(o.xLeft), o.zLeft, ClampRight(o.xRight, w), o.zRight);
    if c.xLeft != c.xRight {
      SlopeReaches(c);
    }
  }

  // ---------------------------------------------------------------------
  // Colour arithmetic
  // ---------------------------------------------------------------------

  /** A channel mixed from background and foreground with opacity opaci/255. */
  function Mix(back: Byte, fore: Byte, opaci: Byte): Byte
  {
    MixBound(back, fore, opaci);
    (back * (255 - opaci) + fore * opaci) / 0x100
  }

  lemma MixBound(back: Byte, fore: Byte, opaci: Byte)
    ensures 0 <= back * (255 - opaci) + fore * opaci < 0x1_0000
    ensures (back * (255 - opaci) + fore * opaci) / 0x100 < 0x100
  {
    ProductLe(255 - opaci, back, 255);
    ProductLe(opaci, fore, 255);
    ByteQuotient(back * (255 - opaci) + fore * opaci);
  }

  /** A product of naturals grows with its second factor. */
  lemma ProductLe(a: int, b: int, B: int)
    requires 0 <= a && 0 <= b <= B
    ensures 0 <= a * b <= a * B
  {
    MulMono(a, 0, b);
    MulMono(a, b, B);
  }

  /** A sum below 2^16 has a quotient by 256 that fits a byte. */
  lemma ByteQuotient(s: int)
    requires 0 <= s < 0x1_0000
    ensures 0 <= s / 0x100 < 0x100
  {
  }

  /** A sum below 2^24 has a quotient by 65536 that fits a byte. */
  lemma WordQuotient(s: int)
    requires 0 <= s < 0x100_0000
    ensures 0 <= s / 0x1_0000 < 0x100
  {
  }

  /** The blend of a foreground colour or texel over the background colour, channel by channel. */
  function Blend(back: nat, fore: nat, opaci: Byte): Color
  {
    Rgb(Mix(Red(back), Red(fore), opaci), Mix(Green(back), Green(fore), opaci),
        Mix(Blue(back), Blue(fore), opaci))
  }

  /** The channel product of a palette colour and a texel, scaled back to a byte. */
  function Scale(c: Byte, t: Byte): Byte
  {
    ProductBound(c, t);
    c * t / 0x100
  }

  lemma ProductBound(c: Byte, t: Byte)
    ensures 0 <= c * t < 0x1_0000 && c * t / 0x100 < 0x100
  {
    ProductLe(c, t, 255);
    ByteQuotient(c * t);
  }

  /** A lit texel: each channel of the palette colour times the texel's, over 256. */
  function Modulate(color: nat, texel: nat): Color
  {
    Rgb(Scale(Red(color), Red(texel)), Scale(Green(color), Green(texel)),
        Scale(Blue(color), Blue(texel)))
  }

  /** The opacity of a lit texel: texel alpha times material opacity, over 256. */
  function LitOpacity(texel: nat, matOpacity: Byte): Byte
  {
    ProductBound(Alpha(texel), matOpacity);
    Alpha(texel) * matOpacity / 0x100
  }

  /** One red or green channel of a lit translucent texel, before the final division. */
  function LitSum(c: Byte, t: Byte, b: Byte, opaci: Byte): nat
  {
    LitBound(c, t, b, opaci);
    c * t * opaci + 0x100 * b * (255 - opaci)
  }

  lemma LitBound(c: Byte, t: Byte, b: Byte, opaci: Byte)
    ensures 0 <= c * t * opaci + 0x100 * b * (255 - opaci) < 0x100_0000
    ensures (c * t * opaci + 0x100 * b * (255 - opaci)) / 0x1_0000 < 0x100
  {
    ProductLe(c, t, 255);
    ProductLe(opaci, c * t, 0xfe01);
    ProductLe(255 - opaci, b, 255);
    WordQuotient(c * t * opaci + 0x100 * b * (255 - opaci));
  }

  /**
   * A lit texel blended over the background as the textured renderers
   * compute it: red and green blend the full products c*t before scaling
   * (one division by 65536), blue blends the already scaled product.
   */
  function LitBlend(color: nat, texel: nat, back: nat, opaci: Byte): Color
  {
    LitBound(Red(color), Red(texel), Red(back), opaci);
    LitBound(Green(color), Green(texel), Green(back), opaci);
    Rgb(LitSum(Red(color), Red(texel), Red(back), opaci) / 0x1_0000,
        LitSum(Green(color), Green(texel), Green(back), opaci) / 0x1_0000,
        Mix(Blue(back), Scale(Blue(color), Blue(texel)), opaci))
  }

  /**
   * `(x >> s) & m` for a mask m below bit 32 - s: the operand is first
   * wrapped to 32 bits, and the bits an arithmetic shift fills with copies
   * of the sign lie above the mask.
   */
  function SarMask(x: nat, s: nat, m: nat): nat
  {
    And(Shr(Bits32(x), s), m)
  }

  /** A value below 2^32 is its own 32-bit pattern. */
  lemma Bits32Small(x: nat)
    requires x < 0x1_0000_0000
    ensures Bits32(x) == x
  {
    Pow2Constants();
    DivModUnique(x, 0x1_0000_0000, 0, x);
  }

  /** A quotient below 256 is its own low byte. */
  lemma SmallByte(q: nat)
    requires q < 0x100
    ensures q % 0x100 == q
  {
    DivModUnique(q, 0x100, 0, q);
  }

  /** `(256 T >> 8) & 0xff0000` keeps the red byte of T in place. */
  lemma SarRed(t: nat)
    requires t < 0x100_0000
    ensures SarMask(t * 0x100, 8, 0xff_0000) == (t / 0x1_0000) * 0x1_0000
  {
    Pow2Constants();
    Bits32Small(t * 0x100);
    DivModUnique(t * 0x100, 0x100, t, 0);
    MaskRed(t);
    DivMono(t, 0xff_ffff, 0x1_0000);
    SmallByte(t / 0x1_0000);
  }

  /** `(T >> 8) & 0xff00` keeps the second byte of T / 256 in place. */
  lemma SarGreen(t: nat)
    requires t < 0x100_0000
    ensures SarMask(t, 8, 0xff00) == (t / 0x1_0000) * 0x100
  {
    Pow2Constants();
    Bits32Small(t);
    DivMono(t, 0xff_ffff, 0x100);
    MaskGreen(t / 0x100);
    DivDiv(t, 0x100, 0x100);
    DivMono(t, 0xff_ffff, 0x1_0000);
    SmallByte(t / 0x1_0000);
  }

  /** `(T >> 8) & 0xff` is T / 256 for T below 2^16. */
  lemma SarBlue(t: nat)
    requires t < 0x1_0000
    ensures SarMask(t, 8, 0xff) == t / 0x100
  {
    Pow2Constants();
    Bits32Small(t);
    DivMono(t, 0xffff, 0x100);
    MaskBlue(t / 0x100);
    SmallByte(t / 0x100);
  }

  /** The opacity-weighted sum of one channel, as the renderers form it before shifting. */
  function Weighted(back: nat, fore: nat, mask: nat, opaci: Byte): nat
  {
    var b, f := And(back, mask), And(fore, mask);
    MulMono(b, 0, 255 - opaci);
    MulMono(f, 0, opaci);
    b * (255 - opaci) + f * opaci
  }

  /** A weighted sum of two channels that sit k above the units is the weighted sum of the bytes, times k. */
  lemma WeightedScaled(back: nat, fore: nat, mask: nat, opaci: Byte, x: nat, y: nat, k: nat)
    requires And(back, mask) == x * k && And(fore, mask) == y * k
    ensures Weighted(back, fore, mask, opaci) == (x * (255 - opaci) + y * opaci) * k
  {
    ScaledSum(x, y, 255 - opaci, opaci, k);
  }

  /** Two terms scaled by the same k sum to their sum scaled by k. */
  lemma ScaledSum(x: nat, y: nat, u: nat, v: nat, k: nat)
    ensures (x * k) * u + (y * k) * v == (x * u + y * v) * k
  {
    Rotate(x, k, u);
    Rotate(y, k, v);
    Distribute(x * u, y * v, k);
  }

  /** Multiplication distributes over a sum. */
  lemma Distribute(a: nat, b: nat, k: nat)
    ensures (a + b) * k == a * k + b * k
  {
  }

  /** Moving a factor past another. */
  lemma Rotate(x: nat, k: nat, u: nat)
    ensures (x * k) * u == (x * u) * k
  {
  }

  /** `(s << 16 >> 8) & 0xff0000` is s's high byte at the red position, for s below 2^16. */
  lemma SarRedScaled(s: nat)
    requires s < 0x1_0000
    ensures SarMask(s * 0x1_0000, 8, 0xff_0000) == (s / 0x100) * 0x1_0000
  {
    Pow2Constants();
    Bits32Small(s * 0x1_0000);
    DivModUnique(s * 0x1_0000, 0x100, s * 0x100, 0);
    MaskRedProduct(s);
  }

  /** `(s << 8 >> 8) & 0xff00` is s's high byte at the green position, for s below 2^16. */
  lemma SarGreenScaled(s: nat)
    requires s < 0x1_0000
    ensures SarMask(s * 0x100, 8, 0xff00) == (s / 0x100) * 0x100
  {
    Pow2Constants();
    Bits32Small(s * 0x100);
    DivModUnique(s * 0x100, 0x100, s, 0);
    MaskGreenProduct(s);
  }

  /** The red channel of a blend, `((b & 0xff0000) * trans + (f & 0xff0000) * opaci) >> 8 & 0xff0000`. */
  lemma BlendRed(back: Color, fore: Word, opaci: Byte)
    ensures SarMask(Weighted(back, fore, 0xff_0000, opaci), 8, 0xff_0000)
            == Mix(Red(back), Red(fore), opaci) * 0x1_0000
  {
    MaskRed(back);
    MaskRed(fore);
    BlendRedOf(back, fore, opaci, Red(back), Red(fore));
  }

  lemma BlendRedOf(back: nat, fore: nat, opaci: Byte, x: Byte, y: Byte)
    requires And(back, 0xff_0000) == x * 0x1_0000 && And(fore, 0xff_0000) == y * 0x1_0000
    ensures SarMask(Weighted(back, fore, 0xff_0000, opaci), 8, 0xff_0000) == Mix(x, y, opaci) * 0x1_0000
  {
    WeightedScaled(back, fore, 0xff_0000, opaci, x, y, 0x1_0000);
    MixBound(x, y, opaci);
    SarRedScaled(x * (255 - opaci) + y * opaci);
  }

  /** The green channel of a blend. */
  lemma BlendGreen(back: Color, fore: Word, opaci: Byte)
    ensures SarMask(Weighted(back, fore, 0xff00, opaci), 8, 0xff00)
            == Mix(Green(back), Green(fore), opaci) * 0x100
  {
    MaskGreen(back);
    MaskGreen(fore);
    BlendGreenOf(back, fore, opaci, Green(back), Green(fore));
  }

  lemma BlendGreenOf(back: nat, fore: nat, opaci: Byte, x: Byte, y: Byte)
    requires And(back, 0xff00) == x * 0x100 && And(fore, 0xff00) == y * 0x100
    ensures SarMask(Weighted(back, fore, 0xff00, opaci), 8, 0xff00) == Mix(x, y, opaci) * 0x100
  {
    WeightedScaled(back, fore, 0xff00, opaci, x, y, 0x100);
    MixBound(x, y, opaci);
    SarGreenScaled(x * (255 - opaci) + y * opaci);
  }

  /** The blue channel of a blend. */
  lemma BlendBlue(back: Color, fore: Word, opaci: Byte)
    ensures SarMask(Weighted(back, fore, 0xff, opaci), 8, 0xff) == Mix(Blue(back), Blue(fore), opaci)
  {
    MaskBlue(back);
    MaskBlue(fore);
    BlendBlueOf(back, fore, opaci, Blue(back), Blue(fore));
  }

  lemma BlendBlueOf(back: nat, fore: nat, opaci: Byte, x: Byte, y: Byte)
    requires And(back, 0xff) == x && And(fore, 0xff) == y
    ensures SarMask(Weighted(back, fore, 0xff, opaci), 8, 0xff) == Mix(x, y, opaci)
  {
    WeightedScaled(back, fore, 0xff, opaci, x, y, 1);
    MixBound(x, y, opaci);
    SarBlue(x * (255 - opaci) + y * opaci);
  }

  /**
   * The blend as the renderers write it, `rr = ((back & 0xff0000) * trans +
   * (fore & 0xff0000) * opaci) >> 8` and likewise for green and blue, then
   * `(rr & 0xff0000) | (gg & 0xff00) | (bb & 0xff)` with trans = 255 - opaci:
   * it is the per-channel floor((back * trans + fore * opaci) / 256).
   */
  lemma BlendBits(back: Color, fore: Word, opaci: Byte)
    ensures Or(Or(SarMask(Weighted(back, fore, 0xff_0000, opaci), 8, 0xff_0000),
                  SarMask(Weighted(back, fore, 0xff00, opaci), 8, 0xff00)),
               SarMask(Weighted(back, fore, 0xff, opaci), 8, 0xff))
            == Blend(back, fore, opaci)
  {
    BlendRed(back, fore, opaci);
    BlendGreen(back, fore, opaci);
    BlendBlue(back, fore, opaci);
    OrChannels(Mix(Red(back), Red(fore), opaci), Mix(Green(back), Green(fore), opaci),
               Mix(Blue(back), Blue(fore), opaci));
  }

  /** `((color & 0xff0000) >> 16) * ((texel & 0xff0000) >> 8)`: the red product, shifted up a byte. */
  function RedProduct(color: nat, texel: nat): nat
  {
    var c, t := Shr(And(color, 0xff_0000), 16), Shr(And(texel, 0xff_0000), 8);
    MulMono(c, 0, t);
    c * t
  }

  /** `((color & 0xff00) >> 8) * ((texel & 0xff00) >> 8)`: the green product. */
  function GreenProduct(color: nat, texel: nat): nat
  {
    var c, t := Shr(And(color, 0xff00), 8), Shr(And(texel, 0xff00), 8);
    MulMono(c, 0, t);
    c * t
  }

  /** `((color & 0xff) * (texel & 0xff)) >> 8`: the blue product, already scaled. */
  function BlueProduct(color: nat, texel: nat): nat
  {
    var c, t := And(color, 0xff), And(texel, 0xff);
    MulMono(c, 0, t);
    Shr(c * t, 8)
  }

  /** Shifting a multiple of k = 2^s right by s gives the multiplier back. */
  lemma ShrMultiple(q: nat, s: nat, k: nat)
    requires k == Pow2(s)
    ensures Shr(q * k, s) == q
  {
    DivModUnique(q * k, k, q, 0);
  }

  /** `(color & 0xff0000) >> 16` is the red byte. */
  lemma RedDown(color: Word)
    ensures Shr(And(color, 0xff_0000), 16) == Red(color)
  {
    Pow2Constants();
    MaskRed(color);
    ShrMultiple(Red(color), 16, 0x1_0000);
  }

  /** `(texel & 0xff0000) >> 8` is the red byte shifted up one byte. */
  lemma RedHalfDown(texel: Word)
    ensures Shr(And(texel, 0xff_0000), 8) == Red(texel) * 0x100
  {
    Pow2Constants();
    MaskRed(texel);
    var r: nat := Red(texel);
    assert r * 0x1_0000 == (r * 0x100) * 0x100;
    ShrMultiple(r * 0x100, 8, 0x100);
  }

  lemma RedProductIs(color: Color, texel: Word)
    ensures RedProduct(color, texel) == (Red(color) * Red(texel)) * 0x100
  {
    RedDown(color);
    RedHalfDown(texel);
    Associate(Red(color), Red(texel), 0x100);
  }

  /** Regrouping a product of three factors. */
  lemma Associate(a: nat, b: nat, k: nat)
    ensures a * (b * k) == (a * b) * k
  {
  }

  lemma GreenProductIs(color: Color, texel: Word)
    ensures GreenProduct(color, texel) == Green(color) * Green(texel)
  {
    Pow2Constants();
    MaskGreen(color);
    MaskGreen(texel);
    ShrMultiple(Green(color), 8, 0x100);
    ShrMultiple(Green(texel), 8, 0x100);
  }

  lemma BlueProductIs(color: Color, texel: Word)
    ensures BlueProduct(color, texel) == Scale(Blue(color), Blue(texel))
  {
    Pow2Constants();
    MaskBlue(color);
    MaskBlue(texel);
  }

  /** `M & 0xff0000` for M = 256 m, m below 2^16, is m's high byte in place. */
  lemma MaskRedProduct(m: nat)
    requires m < 0x1_0000
    ensures And(m * 0x100, 0xff_0000) == (m / 0x100) * 0x1_0000
  {
    MaskRed(m * 0x100);
    DivModUnique(m * 0x100, 0x1_0000, m / 0x100, (m % 0x100) * 0x100);
    DivMono(m, 0xffff, 0x100);
    SmallByte(m / 0x100);
  }

  /** `M & 0xff00` for M below 2^16 is M's high byte in place. */
  lemma MaskGreenProduct(m: nat)
    requires m < 0x1_0000
    ensures And(m, 0xff00) == (m / 0x100) * 0x100
  {
    MaskGreen(m);
    DivMono(m, 0xffff, 0x100);
    SmallByte(m / 0x100);
  }

  /**
   * Modulation as the renderers write it: the red, green and blue products
   * masked with 0xff0000, 0xff00 and 0xff and ORed: each channel is
   * floor(c * t / 256).
   */
  lemma ModulateBits(color: Color, texel: Word)
    ensures Or(Or(And(RedProduct(color, texel), 0xff_0000), And(GreenProduct(color, texel), 0xff00)),
               And(BlueProduct(color, texel), 0xff))
            == Modulate(color, texel)
  {
    RedProductIs(color, texel);
    GreenProductIs(color, texel);
    BlueProductIs(color, texel);
    ProductBound(Red(color), Red(texel));
    ProductBound(Green(color), Green(texel));
    MaskRedProduct(Red(color) * Red(texel));
    MaskGreenProduct(Green(color) * Green(texel));
    MaskBlue(Scale(Blue(color), Blue(texel)));
    SmallByte(Scale(Blue(color), Blue(texel)));
    OrChannels(Scale(Red(color), Red(texel)), Scale(Green(color), Green(texel)),
               Scale(Blue(color), Blue(texel)));
  }

  /** `((texel >> 24) & 0xff) * (matOpacity & 0xff)`: texel alpha times material opacity. */
  function AlphaProduct(texel: nat, matOpacity: nat): nat
  {
    var a, m := SarMask(texel, 24, 0xff), And(matOpacity, 0xff);
    MulMono(a, 0, m);
    a * m
  }

  /** The alpha byte of a 32-bit texel, `(texel >> 24) & 0xff`. */
  lemma SarAlpha(texel: Word)
    ensures SarMask(texel, 24, 0xff) == Alpha(texel)
  {
    Pow2Constants();
    Bits32Small(texel);
    DivMono(texel, 0xffff_ffff, 0x100_0000);
    MaskBlue(texel / 0x100_0000);
    SmallByte(texel / 0x100_0000);
  }

  /** `AlphaProduct >> 8` is LitOpacity. */
  lemma LitAlphaBits(texel: Word, matOpacity: Byte)
    ensures Shr(AlphaProduct(texel, matOpacity), 8) == LitOpacity(texel, matOpacity)
  {
    Pow2Constants();
    SarAlpha(texel);
    MaskBlue(matOpacity);
    SmallByte(matOpacity);
  }

  /** `(prod * opaci + (back & mask) * trans)`: a lit product blended with one background channel. */
  function LitWeighted(prod: nat, back: nat, mask: nat, opaci: Byte): nat
  {
    var b := And(back, mask);
    MulMono(prod, 0, opaci);
    MulMono(b, 0, 255 - opaci);
    prod * opaci + b * (255 - opaci)
  }

  /** A lit product and a background channel that both sit k above the units blend to the blend of the bytes, times k. */
  lemma LitWeightedScaled(prod: nat, back: nat, mask: nat, opaci: Byte, p: nat, x: nat, k: nat)
    requires prod == p * k && And(back, mask) == x * k
    ensures LitWeighted(prod, back, mask, opaci) == (p * opaci + x * (255 - opaci)) * k
  {
    ScaledSum(p, x, opaci, 255 - opaci, k);
  }

  /** The red channel of a lit translucent texel: `(rr * opaci + (back & 0xff0000) * trans) >> 8 & 0xff0000`. */
  lemma LitRed(color: Color, texel: Word, back: Color, opaci: Byte)
    ensures SarMask(LitWeighted(RedProduct(color, texel), back, 0xff_0000, opaci), 8, 0xff_0000)
            == (LitSum(Red(color), Red(texel), Red(back), opaci) / 0x1_0000) * 0x1_0000
  {
    RedProductIs(color, texel);
    MaskRed(back);
    LitRedOf(RedProduct(color, texel), back, opaci, Red(color), Red(texel), Red(back));
  }

  lemma LitRedOf(prod: nat, back: nat, opaci: Byte, c: Byte, t: Byte, b: Byte)
    requires prod == (c * t) * 0x100 && And(back, 0xff_0000) == b * 0x1_0000
    ensures SarMask(LitWeighted(prod, back, 0xff_0000, opaci), 8, 0xff_0000)
            == (LitSum(c, t, b, opaci) / 0x1_0000) * 0x1_0000
  {
    assert b * 0x1_0000 == (0x100 * b) * 0x100;
    LitWeightedScaled(prod, back, 0xff_0000, opaci, c * t, 0x100 * b, 0x100);
    LitBound(c, t, b, opaci);
    SarRed(LitSum(c, t, b, opaci));
  }

  /** The green channel of a lit translucent texel. */
  lemma LitGreen(color: Color, texel: Word, back: Color, opaci: Byte)
    ensures SarMask(LitWeighted(GreenProduct(color, texel), back, 0xff00, opaci), 8, 0xff00)
            == (LitSum(Green(color), Green(texel), Green(back), opaci) / 0x1_0000) * 0x100
  {
    GreenProductIs(color, texel);
    MaskGreen(back);
    LitGreenOf(GreenProduct(color, texel), back, opaci, Green(color), Green(texel), Green(back));
  }

  lemma LitGreenOf(prod: nat, back: nat, opaci: Byte, c: Byte, t: Byte, b: Byte)
    requires prod == c * t && And(back, 0xff00) == b * 0x100
    ensures SarMask(LitWeighted(prod, back, 0xff00, opaci), 8, 0xff00)
            == (LitSum(c, t, b, opaci) / 0x1_0000) * 0x100
  {
    LitBound(c, t, b, opaci);
    assert (b * 0x100) * (255 - opaci) == 0x100 * b * (255 - opaci);
    assert LitWeighted(prod, back, 0xff00, opaci) == LitSum(c, t, b, opaci);
    SarGreen(LitSum(c, t, b, opaci));
  }

  /** The blue channel of a lit translucent texel. */
  lemma LitBlue(color: Color, texel: Word, back: Color, opaci: Byte)
    ensures SarMask(LitWeighted(BlueProduct(color, texel), back, 0xff, opaci), 8, 0xff)
            == Mix(Blue(back), Scale(Blue(color), Blue(texel)), opaci)
  {
    BlueProductIs(color, texel);
    MaskBlue(back);
    LitBlueOf(BlueProduct(color, texel), back, opaci, Scale(Blue(color), Blue(texel)), Blue(back));
  }

  lemma LitBlueOf(prod: nat, back: nat, opaci: Byte, s: Byte, b: Byte)
    requires prod == s && And(back, 0xff) == b
    ensures SarMask(LitWeighted(prod, back, 0xff, opaci), 8, 0xff) == Mix(b, s, opaci)
  {
    LitWeightedScaled(prod, back, 0xff, opaci, s, b, 1);
    MixBound(b, s, opaci);
    SarBlue(b * (255 - opaci) + s * opaci);
  }

  /**
   * The translucent lit-texture write as the renderers form it: the
   * unmasked products of modulation are blended with the background,
   * `rr = (rr * opaci + (back & 0xff0000) * trans) >> 8` and likewise, then
   * masked and ORed.
   */
  lemma LitBlendBits(color: Color, texel: Word, back: Color, opaci: Byte)
    ensures Or(Or(SarMask(LitWeighted(RedProduct(color, texel), back, 0xff_0000, opaci), 8, 0xff_0000),
                  SarMask(LitWeighted(GreenProduct(color, texel), back, 0xff00, opaci), 8, 0xff00)),
               SarMask(LitWeighted(BlueProduct(color, texel), back, 0xff, opaci), 8, 0xff))
            == LitBlend(color, texel, back, opaci)
  {
    LitRed(color, texel, back, opaci);
    LitGreen(color, texel, back, opaci);
    LitBlue(color, texel, back, opaci);
    LitBound(Red(color), Red(texel), Red(back), opaci);
    LitBound(Green(color), Green(texel), Green(back), opaci);
    OrChannels(LitSum(Red(color), Red(texel), Red(back), opaci) / 0x1_0000,
               LitSum(Green(color), Green(texel), Green(back), opaci) / 0x1_0000,
               Mix(Blue(back), Scale(Blue(color), Blue(texel)), opaci));
  }

  // ---------------------------------------------------------------------
  // Frame buffers and depth-tested writes
  // ---------------------------------------------------------------------

  /** The depth, colour and selection (mesh id) buffers, cell for cell. */
  datatype Frame = Frame(z: seq<real>, c: seq<Color>, s: seq<nat>)
  {
    predicate Valid() { |z| == |c| == |s| }
    function Len(): nat { |z| }
    /** Cell p of the three buffers. */
    function At(p: nat): (real, Color, nat)
      requires Valid() && p < Len()
    {
      (z[p], c[p], s[p])
    }
  }

  /**
   * What a covered cell receives: an opaque colour (depth, colour and id
   * written together), a translucent flat colour of transparency
   * trans/255 (a whole-number weight), a translucent texel (blended by its alpha), or a lit
   * translucent texel (colour modulated, opacity scaled by the material's).
   */
  datatype Ink =
    | Paint(color: Color)
    | Tint(color: Color, trans: Byte)
    | Decal(texel: Word)
    | LitDecal(color: Color, texel: Word, matOpacity: Byte)

  /**
   * What a covered cell over background colour back receives: whether its
   * depth is written, and its new colour. Translucent flat colours and
   * texels blend and never write depth; a lit translucent texel writes
   * depth, unblended, only when its opacity exceeds 250.
   */
  function Shade(ink: Ink, back: Color): (bool, Color)
  {
    match ink
    case Paint(color) => (true, color)
    case Tint(color, trans) => (false, Blend(back, color, 255 - trans))
    case Decal(texel) => (false, Blend(back, texel, Alpha(texel)))
    case LitDecal(color, texel, matOpacity) =>
      var opaci := LitOpacity(texel, matOpacity);
      if opaci > 250 then (true, Modulate(color, texel))
      else (false, LitBlend(color, texel, back, opaci))
  }

  /** Only opaque inks and lit texels of opacity above 250 write depth. */
  lemma ShadeDepth(ink: Ink, back: Color)
    ensures Shade(ink, back).0 <==>
      ink.Paint? || (ink.LitDecal? && LitOpacity(ink.texel, ink.matOpacity) > 250)
  {
  }

  /** One depth-tested write: nothing happens unless z is nearer (greater) than the stored depth. */
  function Dab(f: Frame, p: nat, z: real, ink: Ink, id: nat): (r: Frame)
    requires f.Valid() && p < f.Len()
    ensures r.Valid() && r.Len() == f.Len()
  {
    if z <= f.z[p] then f
    else
      var shade := Shade(ink, f.c[p]);
      Frame(if shade.0 then f.z[p := z] else f.z, f.c[p := shade.1], f.s[p := id])
  }

  /**
   * A write touches only its own cell and never moves depth back. When z
   * is nearer, the cell takes the shade's colour and the mesh id, and the
   * new depth if the shade writes depth; otherwise nothing changes.
   */
  lemma DabCell(f: Frame, p: nat, z: real, ink: Ink, id: nat, q: nat)
    requires f.Valid() && p < f.Len() && q < f.Len()
    ensures var r, shade := Dab(f, p, z, ink, id), Shade(ink, f.c[p]);
      && r.z[q] >= f.z[q]
      && r.At(q) == if q == p && z > f.z[p] then (if shade.0 then z else f.z[p], shade.1, id) else f.At(q)
  {
  }

  /** A cell written with an opaque colour takes depth, colour and id exactly when z is nearer. */
  lemma PaintCell(f: Frame, p: nat, z: real, color: Color, id: nat, q: nat)
    requires f.Valid() && p < f.Len() && q < f.Len()
    ensures Dab(f, p, z, Paint(color), id).At(q) ==
      if q == p && z > f.z[p] then (z, color, id) else f.At(q)
  {
    DabCell(f, p, z, Paint(color), id, q);
  }

  /**
   * A run of n cells from base along one row: cell base + k gets the
   * depth depth(k) and the ink ink(k).
   */
  function Run(f: Frame, base: nat, n: nat, depth: nat -> real, ink: nat -> Ink, id: nat): (r: Frame)
    requires f.Valid() && base + n <= f.Len()
    ensures r.Valid() && r.Len() == f.Len()
    decreases n
  {
    if n == 0 then f
    else Dab(Run(f, base, n - 1, depth, ink, id), base + n - 1, depth(n - 1), ink(n - 1), id)
  }

  /** Cell q of a run of n cells, given cell q of the run of n - 1. */
  function RunSpec(f: Frame, base: nat, n: nat, depth: nat -> real, ink: nat -> Ink, id: nat, q: nat): (real, Color, nat)
    requires f.Valid() && base + n <= f.Len() && q < f.Len()
  {
    if base <= q < base + n then Dab(f, q, depth(q - base), ink(q - base), id).At(q) else f.At(q)
  }

  /**
   * Each cell of a run is written at most once: a covered cell ends as one
   * depth-tested write of its own depth and ink on the original buffers,
   * every other cell is untouched.
   */
  lemma {:induction false} RunCell(f: Frame, base: nat, n: nat, depth: nat -> real, ink: nat -> Ink,
                                   id: nat, q: nat)
    requires f.Valid() && base + n <= f.Len() && q < f.Len()
    ensures Run(f, base, n, depth, ink, id).At(q) == RunSpec(f, base, n, depth, ink, id, q)
    decreases n
  {
    if n > 0 {
      RunCell(f, base, n - 1, depth, ink, id, q);
      RunCellStep(f, base, n, depth, ink, id, q);
    }
  }

  /** One step of RunCell: the write at base + n - 1 on the run of n - 1. */
  lemma RunCellStep(f: Frame, base: nat, n: nat, depth: nat -> real, ink: nat -> Ink, id: nat, q: nat)
    requires f.Valid() && 0 < n && base + n <= f.Len() && q < f.Len()
    requires Run(f, base, n - 1, depth, ink, id).At(q) == RunSpec(f, base, n - 1, depth, ink, id, q)
    ensures Run(f, base, n, depth, ink, id).At(q) == RunSpec(f, base, n, depth, ink, id, q)
  {
    var g := Run(f, base, n - 1, depth, ink, id);
    var p := base + n - 1;
    DabCell(g, p, depth(n - 1), ink(n - 1), id, q);
    if q == p {
      DabSameCell(f, g, p, depth(n - 1), ink(n - 1), id);
    }
  }

  /** A write at p depends only on cell p of the buffers it is applied to. */
  lemma DabSameCell(f: Frame, g: Frame, p: nat, z: real, ink: Ink, id: nat)
    requires f.Valid() && g.Valid() && p < f.Len() && p < g.Len() && f.At(p) == g.At(p)
    ensures Dab(f, p, z, ink, id).At(p) == Dab(g, p, z, ink, id).At(p)
  {
  }

  /**
   * The opaque span: a cell of the row from base changes exactly when its
   * interpolated depth is nearer than the stored one, and then depth,
   * colour and mesh id are set together; every other cell is untouched.
   */
  lemma PaintRunCell(f: Frame, base: nat, n: nat, depth: nat -> real, color: Color, id: nat, q: nat)
    requires f.Valid() && base + n <= f.Len() && q < f.Len()
    ensures var r := Run(f, base, n, depth, _ => Paint(color), id);
      r.At(q) == if base <= q < base + n && depth(q - base) > f.z[q] then (depth(q - base), color, id) else f.At(q)
  {
    RunCell(f, base, n, depth, _ => Paint(color), id, q);
    if base <= q < base + n {
      PaintCell(f, q, depth(q - base), color, id, q);
    }
  }

  /** Translucent flat colours and texels never write depth. */
  lemma {:induction false} TranslucentRunKeepsDepth(f: Frame, base: nat, n: nat, depth: nat -> real,
                                                    ink: nat -> Ink, id: nat)
    requires f.Valid() && base + n <= f.Len()
    requires forall k | 0 <= k < n :: ink(k).Tint? || ink(k).Decal?
    ensures Run(f, base, n, depth, ink, id).z == f.z
    decreases n
  {
    if n > 0 {
      TranslucentRunKeepsDepth(f, base, n - 1, depth, ink, id);
    }
  }

  /** The depths of a span: zLeft at its first cell, stepping by zInc. */
  function Ramp(zLeft: real, zInc: real): nat -> real
  {
    k => zLeft + k as real * zInc
  }

  /** One more step along a ramp. */
  lemma RampStep(zLeft: real, zInc: real, k: nat)
    ensures Ramp(zLeft, zInc)(k) + zInc == Ramp(zLeft, zInc)(k + 1)
  {
  }

  /**
   * The number of cells a span covers from xLeft: opaque spans run while
   * x <= xRight, translucent ones while x < xRight, so a translucent span
   * leaves its right end column unwritten.
   */
  function SpanCells(xLeft: int, xRight: int, isOpaque: bool): nat
  {
    if isOpaque then (if xRight >= xLeft then xRight - xLeft + 1 else 0)
    else (if xRight > xLeft then xRight - xLeft else 0)
  }

  /**
   * The fill of one span of a scan line: from column xLeft of the row at
   * linebase, for SpanCells columns, with depth stepping by zInc.
   */
  method FillSpan(zbuf: array<real>, cbuf: array<Color>, sbuf: array<nat>, linebase: nat,
                  xLeft: nat, xRight: int, isOpaque: bool, zLeft: real, zInc: real,
                  ink: nat -> Ink, id: nat)
    requires zbuf.Length == cbuf.Length == sbuf.Length
    requires linebase + xLeft + SpanCells(xLeft, xRight, isOpaque) <= zbuf.Length
    modifies zbuf, cbuf, sbuf
    ensures Frame(zbuf[..], cbuf[..], sbuf[..]) ==
      Run(old(Frame(zbuf[..], cbuf[..], sbuf[..])), linebase + xLeft,
          SpanCells(xLeft, xRight, isOpaque), Ramp(zLeft, zInc), ink, id)
  {
    ghost var f0 := Frame(zbuf[..], cbuf[..], sbuf[..]);
    var n := SpanCells(xLeft, xRight, isOpaque);
    var pix := linebase + xLeft;
    var k := 0;
    var z := zLeft;
    while k < n
      invariant 0 <= k <= n && pix == linebase + xLeft + k
      invariant z == Ramp(zLeft, zInc)(k)
      invariant Frame(zbuf[..], cbuf[..], sbuf[..]) == Run(f0, linebase + xLeft, k, Ramp(zLeft, zInc), ink, id)
    {
      DabArrays(zbuf, cbuf, sbuf, pix, z, ink(k), id);
      RampStep(zLeft, zInc, k);
      pix, k, z := pix + 1, k + 1, z + zInc;
    }
  }

  /** One depth-tested write, in place. */
  method DabArrays(zbuf: array<real>, cbuf: array<Color>, sbuf: array<nat>, pix: nat,
                   z: real, ink: Ink, id: nat)
    requires zbuf.Length == cbuf.Length == sbuf.Length && pix < zbuf.Length
    modifies zbuf, cbuf, sbuf
    ensures Frame(zbuf[..], cbuf[..], sbuf[..]) ==
      Dab(old(Frame(zbuf[..], cbuf[..], sbuf[..])), pix, z, ink, id)
  {
    if z > zbuf[pix] {
      var shade := Shade(ink, cbuf[pix]);
      if shade.0 {
        zbuf[pix] := z;
      }
      cbuf[pix] := shade.1;
      sbuf[pix] := id;
    }
  }

  // ---------------------------------------------------------------------
  // Points
  // ---------------------------------------------------------------------

  /** The cells of the 2x2 footprint of a point at (x, y) in a w-wide frame. */
  lemma FootprintInside(w: nat, h: nat, x: nat, y: nat)
    requires x + 1 < w && y + 1 < h
    ensures (y * w + x) + w + 1 < w * h
  {
    MulMono(w, y + 1, h - 1);
  }

  /**
   * Point rendering: a point strictly inside the frame (x < w - 1, y < h -
   * 1) plots its colour with depth tests at (x, y), (x+1, y), (x, y+1) and
   * (x+1, y+1); any other point plots nothing.
   */
  function Footprint(f: Frame, w: nat, h: nat, x: int, y: int, z: real, color: Color, id: nat): (r: Frame)
    requires f.Valid() && w * h <= f.Len()
    ensures r.Valid() && r.Len() == f.Len()
  {
    if 0 <= x < w - 1 && 0 <= y < h - 1 then
      FootprintInside(w, h, x, y);
      var pix := y * w + x;
      var f1 := Dab(f, pix, z, Paint(color), id);
      var f2 := Dab(f1, pix + 1, z, Paint(color), id);
      var f3 := Dab(f2, pix + w, z, Paint(color), id);
      Dab(f3, pix + w + 1, z, Paint(color), id)
    else f
  }

  /**
   * The four footprint cells are distinct; each takes the point's depth,
   * colour and id exactly when the point is nearer than what it holds,
   * and every other cell is untouched.
   */
  lemma FootprintCell(f: Frame, w: nat, h: nat, x: int, y: int, z: real, color: Color, id: nat, q: nat)
    requires f.Valid() && w * h <= f.Len() && q < f.Len()
    ensures var inside := 0 <= x < w - 1 && 0 <= y < h - 1;
      var pix := y * w + x;
      Footprint(f, w, h, x, y, z, color, id).At(q) ==
        if inside && (q == pix || q == pix + 1 || q == pix + w || q == pix + w + 1) && z > f.z[q]
        then (z, color, id) else f.At(q)
  {
    if 0 <= x < w - 1 && 0 <= y < h - 1 {
      FootprintInside(w, h, x, y);
      var pix := y * w + x;
      FourCells(f, pix, pix + 1, pix + w, pix + w + 1, z, color, id, q);
    }
  }

  /** Four opaque writes at distinct cells: each cell is written exactly when z is nearer. */
  lemma FourCells(f: Frame, a: nat, b: nat, c: nat, d: nat, z: real, color: Color, id: nat, q: nat)
    requires f.Valid() && a < f.Len() && b < f.Len() && c < f.Len() && d < f.Len() && q < f.Len()
    requires a != b && a != c && a != d && b != c && b != d && c != d
    ensures var f1 := Dab(f, a, z, Paint(color), id);
      var f2 := Dab(f1, b, z, Paint(color), id);
      var f3 := Dab(f2, c, z, Paint(color), id);
      Dab(f3, d, z, Paint(color), id).At(q) ==
        if (q == a || q == b || q == c || q == d) && z > f.z[q] then (z, color, id) else f.At(q)
  {
    var f1 := Dab(f, a, z, Paint(color), id);
    var f2 := Dab(f1, b, z, Paint(color), id);
    var f3 := Dab(f2, c, z, Paint(color), id);
    PaintCell(f, a, z, color, id, q);
    PaintCell(f1, b, z, color, id, q);
    PaintCell(f2, c, z, color, id, q);
    PaintCell(f3, d, z, color, id, q);
    PaintCell(f, a, z, color, id, b);
    PaintCell(f, a, z, color, id, c);
    PaintCell(f1, b, z, color, id, c);
    PaintCell(f, a, z, color, id, d);
    PaintCell(f1, b, z, color, id, d);
    PaintCell(f2, c, z, color, id, d);
  }

  /** renderPoint's per-point step, in place. */
  method PlotPoint(zbuf: array<real>, cbuf: array<Color>, sbuf: array<nat>, w: nat, h: nat,
                   x: int, y: int, z: real, color: Color, id: nat)
    requires zbuf.Length == cbuf.Length == sbuf.Length && w * h <= zbuf.Length
    modifies zbuf, cbuf, sbuf
    ensures Frame(zbuf[..], cbuf[..], sbuf[..]) ==
      Footprint(old(Frame(zbuf[..], cbuf[..], sbuf[..])), w, h, x, y, z, color, id)
  {
    var xbound, ybound := w - 1, h - 1;
    if x >= 0 && x < xbound && y >= 0 && y < ybound {
      FootprintInside(w, h, x, y);
      var pix := y * w + x;
      DabArrays(zbuf, cbuf, sbuf, pix, z, Paint(color), id);
      pix := pix + 1;
      DabArrays(zbuf, cbuf, sbuf, pix, z, Paint(color), id);
      pix := pix + xbound;
      DabArrays(zbuf, cbuf, sbuf, pix, z, Paint(color), id);
      pix := pix + 1;
      DabArrays(zbuf, cbuf, sbuf, pix, z, Paint(color), id);
    }
  }
}
