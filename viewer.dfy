/**
 * The viewer's frame buffers: the working frame's size for each quality
 * level, the background gradient, the per-frame clear, the resampling of
 * the working frame onto the canvas's RGBA bytes, and picking a mesh
 * through the selection buffer.
 */
module Viewers {
  import opened Wrappers
  import opened Bits
  import opened Packed
  import Geometry
  import Raster
  import Textures
  import opened Meshes
  import opened Scenes

  /** The quality level: the working frame is half, equal to or twice the canvas in each direction. */
  datatype Definition = Low | Standard | High

  /** A canvas of two pixels or less in either direction is always drawn at standard quality. */
  function Effective(d: Definition, canvasWidth: nat, canvasHeight: nat): Definition
  {
    if canvasWidth <= 2 || canvasHeight <= 2 then Standard else d
  }

  /** The working frame's width and height for a quality level. */
  function FrameSize(d: Definition, canvasWidth: nat, canvasHeight: nat): (nat, nat)
  {
    match d
    case Low => ((canvasWidth + 1) / 2, (canvasHeight + 1) / 2)
    case High => (canvasWidth * 2, canvasHeight * 2)
    case Standard => (canvasWidth, canvasHeight)
  }

  /** The depth a cleared frame holds: the most negative double. */
  const MinZ: real := -Geometry.MaxValue

  // ---------------------------------------------------------------------
  // Index arithmetic of a row-major frame
  // ---------------------------------------------------------------------

  /** Cell i*w + j of a row-major frame lies in row i, column j. */
  lemma RowColumn(i: nat, j: nat, w: nat)
    requires j < w
    ensures (i * w + j) / w == i && (i * w + j) % w == j
  {
    DivModUnique(i * w + j, w, i, j);
  }

  /** Cell (i, j) of an h-row frame lies inside it. */
  lemma CellInside(i: nat, j: nat, w: nat, h: nat)
    requires i < h && j < w
    ensures 0 <= i * w + j < h * w
  {
    MulMono(w, 0, i);
    MulMono(w, i + 1, h);
  }

  /** The cell after the last one of row i starts row i + 1. */
  lemma NextRow(i: nat, w: nat)
    ensures i * w + w == (i + 1) * w
  {
  }

  // ---------------------------------------------------------------------
  // Picking
  // ---------------------------------------------------------------------

  /**
   * The working-frame cell under canvas pixel (x, y): halved coordinates
   * at low quality, doubled at high quality.
   */
  function FrameCell(d: Definition, x: nat, y: nat, frameWidth: nat): nat
  {
    match d
    case Low => (y / 2) * frameWidth + x / 2
    case High => (y * 2) * frameWidth + x * 2
    case Standard => y * frameWidth + x
  }

  /** Every canvas pixel maps to a cell of the working frame sized for the same quality level. */
  lemma FrameCellInside(d: Definition, x: nat, y: nat, canvasWidth: nat, canvasHeight: nat)
    requires x < canvasWidth && y < canvasHeight
    ensures var (w, h) := FrameSize(d, canvasWidth, canvasHeight);
      x < canvasWidth && FrameCell(d, x, y, w) < w * h
  {
    var (w, h) := FrameSize(d, canvasWidth, canvasHeight);
    match d
    case Low => CellInside(y / 2, x / 2, w, h);
    case High => CellInside(y * 2, x * 2, w, h);
    case Standard => CellInside(y, x, w, h);
  }

  /** The outcome of a pick; a missing depth stands for minus infinity. */
  datatype PickInfo = PickInfo(canvasX: int, canvasY: int, depth: Option<real>, mesh: Mesh?)

  /**
   * How a pick ends: with its PickInfo, or with a TypeError when the cell
   * holds a mesh id but the viewer has no scene to look it up in.
   */
  datatype PickResult = Picked(info: PickInfo) | NoScene

  /** Some child carries the id. */
  predicate HasId(kids: seq<Mesh>, id: nat)
    reads kids
  {
    exists k | 0 <= k < |kids| :: kids[k].internalId == id
  }

  /** kids[k] is the first child carrying the id. */
  predicate FirstWithId(kids: seq<Mesh>, id: nat, k: nat)
    reads kids
  {
    k < |kids| && kids[k].internalId == id && forall i | 0 <= i < k :: kids[i].internalId != id
  }

  // ---------------------------------------------------------------------
  // The background gradient
  // ---------------------------------------------------------------------

  /**
   * One channel of background row i of h: `(a + i*(b-a)/h) & 0xff`. The
   * quotient is taken exactly and the sum is never negative (see
   * LevelBetween), so truncating it to an integer is taking the floor.
   */
  function Level(a: Byte, b: Byte, i: nat, h: nat): Byte
    requires h > 0
  {
    (a + (i * (b - a)) / h) % 0x100
  }

  /** The colour of background row i of h, from bkgColor1 at the top towards bkgColor2 at the bottom. */
  function BackgroundColor(c1: Color, c2: Color, i: nat, h: nat): Color
    requires h > 0
  {
    Rgb(Level(Red(c1), Red(c2), i, h), Level(Green(c1), Green(c2), i, h), Level(Blue(c1), Blue(c2), i, h))
  }

  /** Within the frame the mask changes nothing: each channel lies between its two end values. */
  lemma LevelBetween(a: Byte, b: Byte, i: nat, h: nat)
    requires i < h
    ensures Level(a, b, i, h) == a + (i * (b - a)) / h
    ensures a <= b ==> a <= Level(a, b, i, h) <= b
    ensures b <= a ==> b <= Level(a, b, i, h) <= a
  {
    var n := i * (b - a);
    if a <= b {
      MulMono(b - a, i, h);
      MulMono(b - a, 0, i);
      FloorBetween(n, h, 0, b - a);
    } else {
      MulMono(a - b, i, h);
      MulMono(a - b, 0, i);
      FloorBetween(n, h, b - a, 0);
    }
  }

  /** n between lo*h and hi*h has its floored quotient by h between lo and hi. */
  lemma FloorBetween(n: int, h: int, lo: int, hi: int)
    requires h > 0 && lo * h <= n <= hi * h
    ensures lo <= n / h <= hi
  {
    var q := n / h;
    if q > hi {
      MulMono(h, hi + 1, q);
    } else if q < lo {
      MulMono(h, q, lo - 1);
    }
  }

  /** Floored division by a positive number is monotone, for operands of any sign. */
  lemma FloorMono(x: int, y: int, h: int)
    requires x <= y && h > 0
    ensures x / h <= y / h
  {
    if x / h > y / h {
      MulMono(h, y / h + 1, x / h);
    }
  }

  /** The top row is bkgColor1 itself. */
  lemma BackgroundTop(c1: Color, c2: Color, h: nat)
    requires h > 0
    ensures BackgroundColor(c1, c2, 0, h) == c1
  {
    LevelTop(Red(c1), Red(c2), h);
    LevelTop(Green(c1), Green(c2), h);
    LevelTop(Blue(c1), Blue(c2), h);
    RgbOfChannels(c1);
  }

  lemma LevelTop(a: Byte, b: Byte, h: nat)
    requires h > 0
    ensures Level(a, b, 0, h) == a
  {
    assert 0 * (b - a) == 0;
  }

  /** Each channel of each row lies between that channel of the two end colours. */
  lemma BackgroundBetween(c1: Color, c2: Color, i: nat, h: nat)
    requires i < h
    ensures var c := BackgroundColor(c1, c2, i, h);
      && Between(Red(c), Red(c1), Red(c2))
      && Between(Green(c), Green(c1), Green(c2))
      && Between(Blue(c), Blue(c1), Blue(c2))
  {
    LevelBetween(Red(c1), Red(c2), i, h);
    LevelBetween(Green(c1), Green(c2), i, h);
    LevelBetween(Blue(c1), Blue(c2), i, h);
    RgbChannels(Level(Red(c1), Red(c2), i, h), Level(Green(c1), Green(c2), i, h), Level(Blue(c1), Blue(c2), i, h));
  }

  /** x lies between a and b, in whichever order they come. */
  predicate Between(x: int, a: int, b: int)
  {
    (a <= x <= b) || (b <= x <= a)
  }

  /** Going down the frame, each channel moves monotonically from one end value towards the other. */
  lemma LevelMonotone(a: Byte, b: Byte, i: nat, k: nat, h: nat)
    requires i <= k < h
    ensures a <= b ==> Level(a, b, i, h) <= Level(a, b, k, h)
    ensures b <= a ==> Level(a, b, i, h) >= Level(a, b, k, h)
  {
    LevelBetween(a, b, i, h);
    LevelBetween(a, b, k, h);
    if a <= b {
      MulMono(b - a, i, k);
      FloorMono(i * (b - a), k * (b - a), h);
    } else {
      MulMono(a - b, i, k);
      FloorMono(k * (b - a), i * (b - a), h);
    }
  }

  /** `(c1 & 0xff0000) >> 16`, `(c1 & 0xff00) >> 8` and `c1 & 0xff` are the channels. */
  lemma ChannelsDown(c: Color)
    ensures Shr(And(c, 0xff_0000), 16) == Red(c)
    ensures Shr(And(c, 0xff00), 8) == Green(c)
    ensures And(c, 0xff) == Blue(c)
  {
    Pow2Constants();
    Raster.RedDown(c);
    MaskGreen(c);
    Raster.ShrMultiple(Green(c), 8, 0x100);
    MaskBlue(c);
  }

  // ---------------------------------------------------------------------
  // Resampling the working frame onto the canvas
  // ---------------------------------------------------------------------

  /** Canvas pixel q shows the three channels, fully opaque. */
  predicate Shows(data: array<Byte>, q: nat, r: Byte, g: Byte, b: Byte)
    reads data
  {
    && 4 * q + 3 < data.Length
    && data[4 * q] == r && data[4 * q + 1] == g && data[4 * q + 2] == b && data[4 * q + 3] == 0xff
  }

  /** Canvas pixel q shows the colour c. */
  predicate ShowsColor(data: array<Byte>, q: nat, c: Color)
    reads data
  {
    Shows(data, q, Red(c), Green(c), Blue(c))
  }

  /** The working cell a low-quality canvas pixel takes its colour from. */
  function LowSource(q: nat, canvasWidth: nat, frameWidth: nat): nat
    requires canvasWidth > 0
  {
    (q / canvasWidth / 2) * frameWidth + (q % canvasWidth) / 2
  }

  /** The top-left cell of the 2x2 block a high-quality canvas pixel averages. */
  function HighSource(q: nat, canvasWidth: nat, frameWidth: nat): nat
    requires canvasWidth > 0
  {
    (2 * (q / canvasWidth)) * frameWidth + 2 * (q % canvasWidth)
  }

  /** The floor of the mean of four channel values. */
  function Quarter(a: Byte, b: Byte, c: Byte, d: Byte): Byte
  {
    (a + b + c + d) / 4
  }

  predicate StandardPixel(data: array<Byte>, cbuf: array<Color>, q: nat)
    reads data, cbuf
  {
    q < cbuf.Length && ShowsColor(data, q, cbuf[q])
  }

  predicate LowPixel(data: array<Byte>, cbuf: array<Color>, q: nat, canvasWidth: nat, frameWidth: nat)
    reads data, cbuf
    requires canvasWidth > 0
  {
    var s := LowSource(q, canvasWidth, frameWidth);
    s < cbuf.Length && ShowsColor(data, q, cbuf[s])
  }

  predicate HighPixel(data: array<Byte>, cbuf: array<Color>, q: nat, canvasWidth: nat, frameWidth: nat)
    reads data, cbuf
    requires canvasWidth > 0
  {
    var s := HighSource(q, canvasWidth, frameWidth);
    && s + frameWidth + 1 < cbuf.Length
    && var c0, c1, c2, c3 := cbuf[s], cbuf[s + 1], cbuf[s + frameWidth], cbuf[s + frameWidth + 1];
    Shows(data, q, Quarter(Red(c0), Red(c1), Red(c2), Red(c3)),
      Quarter(Green(c0), Green(c1), Green(c2), Green(c3)), Quarter(Blue(c0), Blue(c1), Blue(c2), Blue(c3)))
  }

  /** What canvas pixel q shows after the frame is presented at quality d. */
  predicate Presented(d: Definition, data: array<Byte>, cbuf: array<Color>, q: nat, canvasWidth: nat, frameWidth: nat)
    reads data, cbuf
    requires canvasWidth > 0
  {
    match d
    case Low => LowPixel(data, cbuf, q, canvasWidth, frameWidth)
    case Standard => StandardPixel(data, cbuf, q)
    case High => HighPixel(data, cbuf, q, canvasWidth, frameWidth)
  }

  /** At low quality canvas pixel (i, j) shows working cell (i/2, j/2). */
  lemma LowSourceAt(i: nat, j: nat, canvasWidth: nat, frameWidth: nat)
    requires j < canvasWidth
    ensures LowSource(i * canvasWidth + j, canvasWidth, frameWidth) == (i / 2) * frameWidth + j / 2
  {
    RowColumn(i, j, canvasWidth);
  }

  /** At high quality canvas pixel (i, j) averages the block whose top-left cell is (2i, 2j). */
  lemma HighSourceAt(i: nat, j: nat, canvasWidth: nat, frameWidth: nat)
    requires j < canvasWidth
    ensures HighSource(i * canvasWidth + j, canvasWidth, frameWidth) == (2 * i) * frameWidth + 2 * j
  {
    RowColumn(i, j, canvasWidth);
  }

  /** The four canvas pixels of a 2x2 block show the same working cell at low quality. */
  lemma LowDuplicates(i: nat, j: nat, di: nat, dj: nat, canvasWidth: nat, frameWidth: nat)
    requires di < 2 && dj < 2 && 2 * j + dj < canvasWidth
    ensures LowSource((2 * i + di) * canvasWidth + 2 * j + dj, canvasWidth, frameWidth)
         == LowSource((2 * i) * canvasWidth + 2 * j, canvasWidth, frameWidth)
  {
    LowSourceAt(2 * i + di, 2 * j + dj, canvasWidth, frameWidth);
    LowSourceAt(2 * i, 2 * j, canvasWidth, frameWidth);
    assert (2 * i + di) / 2 == i == (2 * i) / 2;
    assert (2 * j + dj) / 2 == j == (2 * j) / 2;
  }

  /** Low-quality cell (i/2, j/2) lies inside the half-size working frame. */
  lemma LowInside(i: nat, j: nat, canvasWidth: nat, canvasHeight: nat)
    requires i < canvasHeight && j < canvasWidth
    ensures var (w, h) := FrameSize(Low, canvasWidth, canvasHeight);
      (i / 2) * w + j / 2 < w * h
  {
    var (w, h) := FrameSize(Low, canvasWidth, canvasHeight);
    CellInside(i / 2, j / 2, w, h);
  }

  /** The 2x2 block of high-quality canvas pixel (i, j) lies inside the double-size working frame. */
  lemma HighInside(i: nat, j: nat, canvasWidth: nat, canvasHeight: nat)
    requires i < canvasHeight && j < canvasWidth
    ensures var (w, h) := FrameSize(High, canvasWidth, canvasHeight);
      (2 * i) * w + 2 * j + w + 1 < w * h
  {
    var (w, h) := FrameSize(High, canvasWidth, canvasHeight);
    CellInside(2 * i + 1, 2 * j + 1, w, h);
  }

  /** `(c0 & 0xff0000) + ... + (c3 & 0xff0000) >> 18` is the mean red channel. */
  lemma {:induction false} HighRed(c0: Color, c1: Color, c2: Color, c3: Color)
    ensures Shr(And(c0, 0xff_0000) + And(c1, 0xff_0000) + And(c2, 0xff_0000) + And(c3, 0xff_0000), 18)
         == Quarter(Red(c0), Red(c1), Red(c2), Red(c3))
  {
    Pow2Constants();
    Pow2Add(16, 2);
    MaskRed(c0);
    MaskRed(c1);
    MaskRed(c2);
    MaskRed(c3);
    ShiftedQuarter(And(c0, 0xff_0000), And(c1, 0xff_0000), And(c2, 0xff_0000), And(c3, 0xff_0000),
      Red(c0), Red(c1), Red(c2), Red(c3), 0x1_0000, 18);
  }

  /** `(c0 & 0xff00) + ... + (c3 & 0xff00) >> 10` is the mean green channel. */
  lemma {:induction false} HighGreen(c0: Color, c1: Color, c2: Color, c3: Color)
    ensures Shr(And(c0, 0xff00) + And(c1, 0xff00) + And(c2, 0xff00) + And(c3, 0xff00), 10)
         == Quarter(Green(c0), Green(c1), Green(c2), Green(c3))
  {
    Pow2Constants();
    Pow2Add(8, 2);
    MaskGreen(c0);
    MaskGreen(c1);
    MaskGreen(c2);
    MaskGreen(c3);
    ShiftedQuarter(And(c0, 0xff00), And(c1, 0xff00), And(c2, 0xff00), And(c3, 0xff00),
      Green(c0), Green(c1), Green(c2), Green(c3), 0x100, 10);
  }

  /** `(c0 & 0xff) + ... + (c3 & 0xff) >> 2` is the mean blue channel. */
  lemma {:induction false} HighBlue(c0: Color, c1: Color, c2: Color, c3: Color)
    ensures Shr(And(c0, 0xff) + And(c1, 0xff) + And(c2, 0xff) + And(c3, 0xff), 2)
         == Quarter(Blue(c0), Blue(c1), Blue(c2), Blue(c3))
  {
    assert Pow2(2) == 4;
    MaskBlue(c0);
    MaskBlue(c1);
    MaskBlue(c2);
    MaskBlue(c3);
    ShiftedQuarter(And(c0, 0xff), And(c1, 0xff), And(c2, 0xff), And(c3, 0xff),
      Blue(c0), Blue(c1), Blue(c2), Blue(c3), 1, 2);
  }

  /** The red channel the high-quality pass computes for the block c0, c1 / c2, c3. */
  function MeanRed(c0: Color, c1: Color, c2: Color, c3: Color): (v: Byte)
    ensures v == Quarter(Red(c0), Red(c1), Red(c2), Red(c3))
  {
    HighRed(c0, c1, c2, c3);
    Shr(And(c0, 0xff_0000) + And(c1, 0xff_0000) + And(c2, 0xff_0000) + And(c3, 0xff_0000), 18)
  }

  /** The green channel the high-quality pass computes for the block c0, c1 / c2, c3. */
  function MeanGreen(c0: Color, c1: Color, c2: Color, c3: Color): (v: Byte)
    ensures v == Quarter(Green(c0), Green(c1), Green(c2), Green(c3))
  {
    HighGreen(c0, c1, c2, c3);
    Shr(And(c0, 0xff00) + And(c1, 0xff00) + And(c2, 0xff00) + And(c3, 0xff00), 10)
  }

  /** The blue channel the high-quality pass computes for the block c0, c1 / c2, c3. */
  function MeanBlue(c0: Color, c1: Color, c2: Color, c3: Color): (v: Byte)
    ensures v == Quarter(Blue(c0), Blue(c1), Blue(c2), Blue(c3))
  {
    HighBlue(c0, c1, c2, c3);
    Shr(And(c0, 0xff) + And(c1, 0xff) + And(c2, 0xff) + And(c3, 0xff), 2)
  }

  /** Four channels held in place k, summed and shifted down by log2(4k), give their floored mean. */
  lemma ShiftedQuarter(m0: nat, m1: nat, m2: nat, m3: nat, a: Byte, b: Byte, c: Byte, d: Byte, k: nat, s: nat)
    requires k > 0 && m0 == a * k && m1 == b * k && m2 == c * k && m3 == d * k
    requires Pow2(s) == 4 * k
    ensures Shr(m0 + m1 + m2 + m3, s) == Quarter(a, b, c, d)
  {
    assert m0 + m1 + m2 + m3 == (a + b + c + d) * k;
    Textures.PlacedQuarter(a + b + c + d, k, 4 * k);
  }

  /** Write the four bytes of canvas pixel q, leaving the bytes of earlier pixels alone. */
  method PutPixel(data: array<Byte>, q: nat, r: Byte, g: Byte, b: Byte)
    requires 4 * q + 3 < data.Length
    modifies data
    ensures Shows(data, q, r, g, b)
    ensures forall k | 0 <= k < 4 * q :: data[k] == old(data[k])
  {
    data[4 * q] := r;
    data[4 * q + 1] := g;
    data[4 * q + 2] := b;
    data[4 * q + 3] := 0xff;
  }

  /** Standard quality: copy every working cell to its canvas pixel. */
  method PresentStandard(cbuf: array<Color>, data: array<Byte>, size: nat)
    requires size <= cbuf.Length && 4 * size <= data.Length
    modifies data
    ensures forall q | 0 <= q < size :: StandardPixel(data, cbuf, q)
  {
    var src := 0;
    while src < size
      invariant src <= size
      invariant forall q | 0 <= q < src :: StandardPixel(data, cbuf, q)
    {
      var r, g, b := SplitColor(cbuf[src]);
      label before:
      PutPixel(data, src, r, g, b);
      assert StandardPixel(data, cbuf, src);
      forall q | 0 <= q < src ensures StandardPixel(data, cbuf, q) {
        assert old@before(StandardPixel(data, cbuf, q));
      }
      src := src + 1;
    }
  }

  /**
   * Low quality: every canvas pixel shows the working cell at half its
   * coordinates. The source index advances by one after each odd column
   * and steps back half a canvas row after each even row.
   */
  method PresentLow(cbuf: array<Color>, data: array<Byte>, width: nat, height: nat, cwidth: nat)
    requires width > 0 && cwidth == (width + 1) / 2
    requires var (w, h) := FrameSize(Low, width, height); w * h <= cbuf.Length
    requires 4 * (width * height) <= data.Length
    modifies data
    ensures forall q | 0 <= q < width * height :: LowPixel(data, cbuf, q, width, cwidth)
  {
    var halfWidth := Shr(width, 1);
    assert Pow2(1) == 2;
    assert halfWidth == width / 2;
    var surplus: int := cwidth - halfWidth;
    var src: int := 0;
    var i := 0;
    while i < height
      invariant i <= height && src == (i / 2) * cwidth
      invariant forall q | 0 <= q < i * width :: LowPixel(data, cbuf, q, width, cwidth)
    {
      src := PresentLowRow(cbuf, data, width, height, cwidth, i, src);
      NextRow(i, width);
      LowRowStep(i, cwidth, halfWidth, surplus, src);
      src := src + if And(i, 1) == 1 then surplus else -(halfWidth as int);
      i := i + 1;
    }
    assert i * width == width * height;
  }

  /**
   * After canvas row i the source index, half a canvas row into working
   * row i/2, moves on to working row (i+1)/2: forward past the surplus
   * after an odd row, back to the row's start after an even one.
   */
  lemma LowRowStep(i: nat, cwidth: nat, halfWidth: nat, surplus: int, src: int)
    requires surplus == cwidth - halfWidth && src == (i / 2) * cwidth + halfWidth
    ensures src + (if And(i, 1) == 1 then surplus else -(halfWidth as int)) == ((i + 1) / 2) * cwidth
  {
    AndLowMask(i, 1);
    assert Pow2(1) == 2;
    if i % 2 == 1 {
      NextRow(i / 2, cwidth);
    }
  }

  /** One canvas row at low quality; the source index ends half a canvas row further on. */
  method PresentLowRow(cbuf: array<Color>, data: array<Byte>, width: nat, height: nat, cwidth: nat, i: nat, start: nat)
    returns (src: nat)
    requires width > 0 && cwidth == (width + 1) / 2 && i < height && start == (i / 2) * cwidth
    requires var (w, h) := FrameSize(Low, width, height); w * h <= cbuf.Length
    requires 4 * (width * height) <= data.Length
    requires forall q | 0 <= q < i * width :: LowPixel(data, cbuf, q, width, cwidth)
    modifies data
    ensures src == start + width / 2
    ensures forall q | 0 <= q < i * width + width :: LowPixel(data, cbuf, q, width, cwidth)
  {
    src := start;
    var j := 0;
    while j < width
      invariant j <= width && src == start + j / 2
      invariant forall q | 0 <= q < i * width + j :: LowPixel(data, cbuf, q, width, cwidth)
    {
      LowInside(i, j, width, height);
      CellInside(i, j, width, height);
      LowSourceAt(i, j, width, cwidth);
      PresentLowPixel(cbuf, data, width, cwidth, i * width + j, src);
      AndLowMask(j, 1);
      assert Pow2(1) == 2;
      src := src + And(j, 1);
      j := j + 1;
    }
  }

  /** Canvas pixel `pixel` at low quality, from working cell src. */
  method PresentLowPixel(cbuf: array<Color>, data: array<Byte>, width: nat, cwidth: nat, pixel: nat, src: nat)
    requires width > 0 && src == LowSource(pixel, width, cwidth) && src < cbuf.Length && 4 * pixel + 3 < data.Length
    requires forall q | 0 <= q < pixel :: LowPixel(data, cbuf, q, width, cwidth)
    modifies data
    ensures forall q | 0 <= q < pixel + 1 :: LowPixel(data, cbuf, q, width, cwidth)
  {
    var r, g, b := SplitColor(cbuf[src]);
    label before:
    PutPixel(data, pixel, r, g, b);
    assert LowPixel(data, cbuf, pixel, width, cwidth);
    forall q | 0 <= q < pixel ensures LowPixel(data, cbuf, q, width, cwidth) {
      assert old@before(LowPixel(data, cbuf, q, width, cwidth));
    }
  }

  /**
   * High quality: every canvas pixel shows the per-channel floored mean of
   * the 2x2 working block at twice its coordinates. The source index
   * advances two cells per pixel and skips the block's second row after
   * each canvas row.
   */
  method PresentHigh(cbuf: array<Color>, data: array<Byte>, width: nat, height: nat, cwidth: nat)
    requires width > 0 && cwidth == 2 * width
    requires var (w, h) := FrameSize(High, width, height); w * h <= cbuf.Length
    requires 4 * (width * height) <= data.Length
    modifies data
    ensures forall q | 0 <= q < width * height :: HighPixel(data, cbuf, q, width, cwidth)
  {
    var src := 0;
    var i := 0;
    while i < height
      invariant i <= height && src == (2 * i) * cwidth
      invariant forall q | 0 <= q < i * width :: HighPixel(data, cbuf, q, width, cwidth)
    {
      src := PresentHighRow(cbuf, data, width, height, cwidth, i, src);
      NextRow(i, width);
      HighRowStep(i, cwidth, src);
      src := src + cwidth;
      i := i + 1;
    }
    assert i * width == width * height;
  }

  /** After canvas row i the source index, at the start of working row 2i+1, moves to row 2i+2. */
  lemma HighRowStep(i: nat, cwidth: nat, src: nat)
    requires src == (2 * i) * cwidth + cwidth
    ensures src + cwidth == (2 * (i + 1)) * cwidth
  {
  }

  /** One canvas row at high quality; the source index ends at the start of the block's second row. */
  method PresentHighRow(cbuf: array<Color>, data: array<Byte>, width: nat, height: nat, cwidth: nat, i: nat, start: nat)
    returns (src: nat)
    requires width > 0 && cwidth == 2 * width && i < height && start == (2 * i) * cwidth
    requires var (w, h) := FrameSize(High, width, height); w * h <= cbuf.Length
    requires 4 * (width * height) <= data.Length
    requires forall q | 0 <= q < i * width :: HighPixel(data, cbuf, q, width, cwidth)
    modifies data
    ensures src == start + cwidth
    ensures forall q | 0 <= q < i * width + width :: HighPixel(data, cbuf, q, width, cwidth)
  {
    src := start;
    var j := 0;
    while j < width
      invariant j <= width && src == start + 2 * j
      invariant forall q | 0 <= q < i * width + j :: HighPixel(data, cbuf, q, width, cwidth)
    {
      HighInside(i, j, width, height);
      CellInside(i, j, width, height);
      HighSourceAt(i, j, width, cwidth);
      PresentHighPixel(cbuf, data, width, cwidth, i * width + j, src);
      src := src + 2;
      j := j + 1;
    }
  }

  /** Canvas pixel `pixel` at high quality, from the block whose top-left cell is src. */
  method PresentHighPixel(cbuf: array<Color>, data: array<Byte>, width: nat, cwidth: nat, pixel: nat, src: nat)
    requires width > 0 && src == HighSource(pixel, width, cwidth) && src + cwidth + 1 < cbuf.Length
    requires 4 * pixel + 3 < data.Length
    requires forall q | 0 <= q < pixel :: HighPixel(data, cbuf, q, width, cwidth)
    modifies data
    ensures forall q | 0 <= q < pixel + 1 :: HighPixel(data, cbuf, q, width, cwidth)
  {
    var c0, c1, c2, c3 := cbuf[src], cbuf[src + 1], cbuf[src + cwidth], cbuf[src + cwidth + 1];
    ShowHighPixel(cbuf, data, width, cwidth, pixel, src, MeanRed(c0, c1, c2, c3), MeanGreen(c0, c1, c2, c3),
      MeanBlue(c0, c1, c2, c3));
  }

  /** Write the averaged channels r, g, b of the block at src to canvas pixel `pixel`. */
  method ShowHighPixel(cbuf: array<Color>, data: array<Byte>, width: nat, cwidth: nat, pixel: nat, src: nat,
                       r: Byte, g: Byte, b: Byte)
    requires width > 0 && src == HighSource(pixel, width, cwidth) && src + cwidth + 1 < cbuf.Length
    requires 4 * pixel + 3 < data.Length
    requires r == Quarter(Red(cbuf[src]), Red(cbuf[src + 1]), Red(cbuf[src + cwidth]), Red(cbuf[src + cwidth + 1]))
    requires g == Quarter(Green(cbuf[src]), Green(cbuf[src + 1]), Green(cbuf[src + cwidth]), Green(cbuf[src + cwidth + 1]))
    requires b == Quarter(Blue(cbuf[src]), Blue(cbuf[src + 1]), Blue(cbuf[src + cwidth]), Blue(cbuf[src + cwidth + 1]))
    requires forall q | 0 <= q < pixel :: HighPixel(data, cbuf, q, width, cwidth)
    modifies data
    ensures forall q | 0 <= q < pixel + 1 :: HighPixel(data, cbuf, q, width, cwidth)
  {
    label before:
    PutPixel(data, pixel, r, g, b);
    assert HighPixel(data, cbuf, pixel, width, cwidth);
    forall q | 0 <= q < pixel ensures HighPixel(data, cbuf, q, width, cwidth) {
      assert old@before(HighPixel(data, cbuf, q, width, cwidth));
    }
  }

  /** `(c & 0xff0000) >> 16`, `(c & 0xff00) >> 8` and `c & 0xff`: the three channels of c. */
  method SplitColor(c: Color) returns (r: Byte, g: Byte, b: Byte)
    ensures r == Red(c) && g == Green(c) && b == Blue(c)
  {
    ChannelsDown(c);
    r, g, b := Shr(And(c, 0xff_0000), 16), Shr(And(c, 0xff00), 8), And(c, 0xff);
  }

  /** `r << 16 | g << 8 | b`: the colour of three channels. */
  method PackColor(r: Byte, g: Byte, b: Byte) returns (c: Color)
    ensures c == Rgb(r, g, b)
  {
    OrChannels(r, g, b);
    c := Or(Or(r * 0x1_0000, g * 0x100), b);
  }

  /** The first n cells of a w-wide background buffer hold the gradient colour of their row of h. */
  predicate GradientUpTo(pixels: array<Color>, n: nat, w: nat, h: nat, color1: Color, color2: Color)
    reads pixels
    requires w > 0 && h > 0
  {
    n <= pixels.Length && forall p | 0 <= p < n :: pixels[p] == BackgroundColor(color1, color2, p / w, h)
  }

  /** The filling loops of Viewer.GenerateBackground over a w x h frame. */
  method FillGradient(pixels: array<Color>, w: nat, h: nat, color1: Color, color2: Color)
    requires w * h <= pixels.Length
    modifies pixels
    ensures w > 0 && h > 0 ==> GradientUpTo(pixels, w * h, w, h, color1, color2)
    ensures forall p | w * h <= p < pixels.Length :: pixels[p] == old(pixels[p])
  {
    var r1, g1, b1 := SplitColor(color1);
    var r2, g2, b2 := SplitColor(color2);
    // An empty frame has no cell to fill.
    if w == 0 || h == 0 {
      return;
    }
    var pix: nat := 0;
    var i := 0;
    while i < h
      invariant i <= h && pix == i * w
      invariant GradientUpTo(pixels, pix, w, h, color1, color2)
      invariant forall p | w * h <= p < pixels.Length :: pixels[p] == old(pixels[p])
    {
      assert pix + w <= w * h by {
        NextRow(i, w);
        MulMono(w, i + 1, h);
      }
      var r, g, b := Level(r1, r2, i, h), Level(g1, g2, i, h), Level(b1, b2, i, h);
      var color := PackColor(r, g, b);
      FillGradientRow(pixels, pix, i, w, h, color1, color2, r, g, b, color);
      pix := pix + w;
      i := i + 1;
    }
    assert pix == w * h;
  }

  /** Row i of the background: its w cells, from pix = i * w, take the row's gradient colour. */
  method FillGradientRow(pixels: array<Color>, pix: nat, i: nat, w: nat, h: nat, color1: Color, color2: Color,
                         r: Byte, g: Byte, b: Byte, color: Color)
    requires w > 0 && i < h && pix == i * w && pix + w <= pixels.Length
    requires r == Level(Red(color1), Red(color2), i, h) && g == Level(Green(color1), Green(color2), i, h)
    requires b == Level(Blue(color1), Blue(color2), i, h) && color == Rgb(r, g, b)
    requires GradientUpTo(pixels, pix, w, h, color1, color2)
    modifies pixels
    ensures GradientUpTo(pixels, pix + w, w, h, color1, color2)
    ensures forall p | pix + w <= p < pixels.Length :: pixels[p] == old(pixels[p])
  {
    label before:
    FillRow(pixels, pix, w, color);
    forall p | 0 <= p < pix + w ensures pixels[p] == BackgroundColor(color1, color2, p / w, h) {
      if p < pix {
        assert old@before(pixels[p]) == BackgroundColor(color1, color2, p / w, h);
      } else {
        RowColumn(i, p - pix, w);
      }
    }
  }

  /** The inner loop of Viewer.GenerateBackground: w cells from start take one colour. */
  method FillRow(pixels: array<Color>, start: nat, w: nat, color: Color)
    requires start + w <= pixels.Length
    modifies pixels
    ensures forall p | start <= p < start + w :: pixels[p] == color
    ensures forall p | 0 <= p < pixels.Length && !(start <= p < start + w) :: pixels[p] == old(pixels[p])
  {
    var j := 0;
    while j < w
      invariant j <= w
      invariant forall p | start <= p < start + j :: pixels[p] == color
      invariant forall p | 0 <= p < pixels.Length && !(start <= p < start + j) :: pixels[p] == old(pixels[p])
    {
      pixels[start + j] := color;
      j := j + 1;
    }
  }

  /** The clearing loop of BeginScene over the first size cells. */
  method Clear(cbuf: array<Color>, zbuf: array<real>, sbuf: array<nat>, bbuf: array<Color>, size: nat)
    requires size <= cbuf.Length && size <= zbuf.Length && size <= sbuf.Length && size <= bbuf.Length
    requires cbuf != bbuf
    modifies cbuf, zbuf, sbuf
    ensures forall p | 0 <= p < size :: cbuf[p] == bbuf[p] && zbuf[p] == MinZ && sbuf[p] == 0
    ensures forall p | size <= p < cbuf.Length :: cbuf[p] == old(cbuf[p])
    ensures forall p | size <= p < zbuf.Length :: zbuf[p] == old(zbuf[p])
    ensures forall p | size <= p < sbuf.Length :: sbuf[p] == old(sbuf[p])
  {
    var i := 0;
    while i < size
      invariant i <= size
      invariant forall p | 0 <= p < i :: cbuf[p] == bbuf[p] && zbuf[p] == MinZ && sbuf[p] == 0
      invariant forall p | size <= p < cbuf.Length :: cbuf[p] == old(cbuf[p])
      invariant forall p | size <= p < zbuf.Length :: zbuf[p] == old(zbuf[p])
      invariant forall p | size <= p < sbuf.Length :: sbuf[p] == old(sbuf[p])
    {
      cbuf[i] := bbuf[i];
      zbuf[i] := MinZ;
      sbuf[i] := 0;
      i := i + 1;
    }
  }

  /** An id of zero names no mesh: ids are handed out from 1. */
  lemma NoMeshHasIdZero(kids: seq<Mesh>, next: nat)
    requires IdsIncreasing(kids, next)
    ensures !HasId(kids, 0)
  {
  }

  /** In a scene whose ids increase, the first child with an id is the only one. */
  lemma FirstWithIdUnique(kids: seq<Mesh>, next: nat, id: nat, k: nat, m: nat)
    requires IdsIncreasing(kids, next) && FirstWithId(kids, id, k) && m < |kids| && kids[m].internalId == id
    ensures m == k
  {
    IdsDistinct(kids, next, k, m);
  }

  // ---------------------------------------------------------------------
  // The viewer
  // ---------------------------------------------------------------------

  class Viewer {
    const canvasWidth: nat
    const canvasHeight: nat
    /** The canvas's RGBA bytes, four per canvas pixel. */
    const canvasData: array<Byte>
    var definition: Definition
    var frameWidth: nat
    var frameHeight: nat
    var colorBuffer: array<Color>
    var zBuffer: array<real>
    var selectionBuffer: array<nat>
    var bkgColorBuffer: array<Color>
    var bkgColor1: Color
    var bkgColor2: Color
    var scene: Scene?

    /**
     * The working frame has the size its quality level gives the canvas,
     * a tiny canvas is at standard quality, and every buffer holds at
     * least one entry per working cell.
     */
    predicate Valid()
      reads this
    {
      && definition == Effective(definition, canvasWidth, canvasHeight)
      && (frameWidth, frameHeight) == FrameSize(definition, canvasWidth, canvasHeight)
      && frameWidth * frameHeight <= colorBuffer.Length
      && frameWidth * frameHeight <= zBuffer.Length
      && frameWidth * frameHeight <= selectionBuffer.Length
      && frameWidth * frameHeight <= bkgColorBuffer.Length
      && colorBuffer != bkgColorBuffer
      && canvasData.Length == 4 * (canvasWidth * canvasHeight)
    }

    /** Every working cell of the background buffer holds the gradient colour of its row. */
    predicate BackgroundReady()
      reads this, bkgColorBuffer
    {
      && frameWidth * frameHeight <= bkgColorBuffer.Length
      && (frameWidth > 0 && frameHeight > 0 ==>
           GradientUpTo(bkgColorBuffer, frameWidth * frameHeight, frameWidth, frameHeight, bkgColor1, bkgColor2))
    }

    /**
     * A viewer on a canvas, sized for the requested quality level, with
     * its frame buffers allocated, the background generated and drawn:
     * every working cell holds its background colour, the farthest depth
     * and no mesh, and the canvas shows that frame.
     */
    constructor (width: nat, height: nat, d: Definition, color1: Color, color2: Color)
      ensures Valid() && BackgroundReady()
      ensures canvasWidth == width && canvasHeight == height && definition == Effective(d, width, height)
      ensures bkgColor1 == color1 && bkgColor2 == color2 && scene == null
      ensures forall p | 0 <= p < frameWidth * frameHeight ::
        colorBuffer[p] == bkgColorBuffer[p] && zBuffer[p] == MinZ && selectionBuffer[p] == 0
      ensures canvasWidth > 0 ==> forall q | 0 <= q < canvasWidth * canvasHeight ::
        Presented(definition, canvasData, colorBuffer, q, canvasWidth, frameWidth)
    {
      canvasWidth := width;
      canvasHeight := height;
      MulMono(width, 0, height);
      canvasData := new Byte[4 * (width * height)];
      var eff := Effective(d, width, height);
      definition := eff;
      var (w, h) := FrameSize(eff, width, height);
      frameWidth, frameHeight := w, h;
      MulMono(w, 0, h);
      var cells: nat := w * h;
      colorBuffer := new Color[cells];
      zBuffer := new real[cells];
      selectionBuffer := new nat[cells];
      bkgColorBuffer := new Color[cells];
      bkgColor1, bkgColor2 := color1, color2;
      scene := null;
      new;
      GenerateBackground();
      // drawBackground: clear the frame and present it.
      BeginScene();
      EndScene();
    }

    /**
     * Fill the background buffer row by row with the vertical gradient
     * from bkgColor1 to bkgColor2; cells past the frame stay as they were.
     */
    method GenerateBackground()
      requires Valid()
      modifies bkgColorBuffer
      ensures BackgroundReady()
      ensures forall p | frameWidth * frameHeight <= p < bkgColorBuffer.Length :: bkgColorBuffer[p] == old(bkgColorBuffer[p])
    {
      FillGradient(bkgColorBuffer, frameWidth, frameHeight, bkgColor1, bkgColor2);
    }

    /** Clear the working frame: background colours, the farthest depth, and no mesh. */
    method BeginScene()
      requires Valid()
      modifies colorBuffer, zBuffer, selectionBuffer
      ensures forall p | 0 <= p < frameWidth * frameHeight ::
        colorBuffer[p] == bkgColorBuffer[p] && zBuffer[p] == MinZ && selectionBuffer[p] == 0
      ensures forall p | frameWidth * frameHeight <= p < colorBuffer.Length :: colorBuffer[p] == old(colorBuffer[p])
      ensures forall p | frameWidth * frameHeight <= p < zBuffer.Length :: zBuffer[p] == old(zBuffer[p])
      ensures forall p | frameWidth * frameHeight <= p < selectionBuffer.Length :: selectionBuffer[p] == old(selectionBuffer[p])
    {
      Clear(colorBuffer, zBuffer, selectionBuffer, bkgColorBuffer, frameWidth * frameHeight);
    }

    /** Present the working frame on the canvas at the viewer's quality level. */
    method EndScene()
      requires Valid()
      modifies canvasData
      ensures canvasWidth > 0 ==> forall q | 0 <= q < canvasWidth * canvasHeight ::
        Presented(definition, canvasData, colorBuffer, q, canvasWidth, frameWidth)
    {
      // A canvas without columns has no pixel to present.
      if canvasWidth > 0 {
        match definition
        case Low => PresentLow(colorBuffer, canvasData, canvasWidth, canvasHeight, frameWidth);
        case Standard => PresentStandard(colorBuffer, canvasData, frameWidth * frameHeight);
        case High => PresentHigh(colorBuffer, canvasData, canvasWidth, canvasHeight, frameWidth);
      }
    }

    /**
     * Switch the quality level. Nothing happens when the level (after a tiny
     * canvas forces standard) is the current one; otherwise the frame is
     * resized, each buffer is replaced only when too small for the new
     * frame, so none ever shrinks, and the background is regenerated.
     */
    method SetDefinition(d: Definition)
      requires Valid()
      modifies this, bkgColorBuffer
      ensures Valid()
      ensures Effective(d, canvasWidth, canvasHeight) == old(definition) ==>
        unchanged(this) && unchanged(bkgColorBuffer)
      ensures Effective(d, canvasWidth, canvasHeight) != old(definition) ==>
        && definition == Effective(d, canvasWidth, canvasHeight)
        && BackgroundReady()
        && Regrown(old(colorBuffer), colorBuffer, frameWidth * frameHeight)
        && (old(colorBuffer.Length) < frameWidth * frameHeight ==> fresh(colorBuffer))
        && Regrown(old(zBuffer), zBuffer, frameWidth * frameHeight)
        && (old(zBuffer.Length) < frameWidth * frameHeight ==> fresh(zBuffer))
        && Regrown(old(selectionBuffer), selectionBuffer, frameWidth * frameHeight)
        && (old(selectionBuffer.Length) < frameWidth * frameHeight ==> fresh(selectionBuffer))
        && Regrown(old(bkgColorBuffer), bkgColorBuffer, frameWidth * frameHeight)
        && (old(bkgColorBuffer.Length) < frameWidth * frameHeight ==> fresh(bkgColorBuffer))
      ensures colorBuffer.Length >= old(colorBuffer.Length) && zBuffer.Length >= old(zBuffer.Length)
      ensures selectionBuffer.Length >= old(selectionBuffer.Length) && bkgColorBuffer.Length >= old(bkgColorBuffer.Length)
      ensures bkgColor1 == old(bkgColor1) && bkgColor2 == old(bkgColor2) && scene == old(scene)
    {
      var eff := Effective(d, canvasWidth, canvasHeight);
      if eff == definition {
        return;
      }
      Resize(eff);
      GenerateBackground();
    }

    /** Take quality level eff: size the working frame for it and grow the buffers that are too small. */
    method Resize(eff: Definition)
      requires Valid() && eff == Effective(eff, canvasWidth, canvasHeight)
      modifies this
      ensures Valid() && definition == eff
      ensures Regrown(old(colorBuffer), colorBuffer, frameWidth * frameHeight)
      ensures old(colorBuffer.Length) < frameWidth * frameHeight ==> fresh(colorBuffer)
      ensures Regrown(old(zBuffer), zBuffer, frameWidth * frameHeight)
      ensures old(zBuffer.Length) < frameWidth * frameHeight ==> fresh(zBuffer)
      ensures Regrown(old(selectionBuffer), selectionBuffer, frameWidth * frameHeight)
      ensures old(selectionBuffer.Length) < frameWidth * frameHeight ==> fresh(selectionBuffer)
      ensures Regrown(old(bkgColorBuffer), bkgColorBuffer, frameWidth * frameHeight)
      ensures old(bkgColorBuffer.Length) < frameWidth * frameHeight ==> fresh(bkgColorBuffer)
      ensures colorBuffer.Length >= old(colorBuffer.Length) && zBuffer.Length >= old(zBuffer.Length)
      ensures selectionBuffer.Length >= old(selectionBuffer.Length) && bkgColorBuffer.Length >= old(bkgColorBuffer.Length)
      ensures bkgColor1 == old(bkgColor1) && bkgColor2 == old(bkgColor2) && scene == old(scene)
    {
      var (w, h) := FrameSize(eff, canvasWidth, canvasHeight);
      MulMono(w, 0, h);
      var cb, zb, sb, bb := Regrow(colorBuffer, zBuffer, selectionBuffer, bkgColorBuffer, w * h);
      definition, frameWidth, frameHeight := eff, w, h;
      colorBuffer, zBuffer, selectionBuffer, bkgColorBuffer := cb, zb, sb, bb;
    }

    /** The selection-buffer cell under a canvas pixel. */
    function PickedCell(x: nat, y: nat): (cell: nat)
      reads this
      requires Valid() && x < canvasWidth && y < canvasHeight
      ensures cell < selectionBuffer.Length && cell < zBuffer.Length
    {
      FrameCellInside(definition, x, y, canvasWidth, canvasHeight);
      FrameCell(definition, x, y, frameWidth)
    }

    /**
     * Find the mesh drawn at a canvas position: off the canvas, or where
     * the selection buffer holds 0, there is none; otherwise, with a scene,
     * it is the first child whose id the selection buffer holds, if any,
     * and the depth buffer gives its depth there. Without a scene (before
     * one is loaded, or while one loads), a cell that still holds an id
     * from an earlier frame makes the lookup throw.
     */
    method Pick(canvasX: int, canvasY: int) returns (result: PickResult)
      requires Valid()
      ensures result == NoScene <==>
        && 0 <= canvasX < canvasWidth && 0 <= canvasY < canvasHeight
        && selectionBuffer[PickedCell(canvasX, canvasY)] > 0 && scene == null
      ensures result.Picked? ==> result.info.canvasX == canvasX && result.info.canvasY == canvasY
      ensures result.Picked? && !(0 <= canvasX < canvasWidth && 0 <= canvasY < canvasHeight) ==> result.info.mesh == null
      ensures result.Picked? && 0 <= canvasX < canvasWidth && 0 <= canvasY < canvasHeight ==>
        var id := selectionBuffer[PickedCell(canvasX, canvasY)];
        && (result.info.mesh != null <==> id > 0 && scene != null && HasId(scene.children, id))
        && (result.info.mesh != null ==>
              && scene != null
              && (exists k | 0 <= k < |scene.children| :: FirstWithId(scene.children, id, k) && scene.children[k] == result.info.mesh)
              && result.info.depth == Some(zBuffer[PickedCell(canvasX, canvasY)]))
      ensures result.Picked? && result.info.mesh == null ==> result.info.depth == None
    {
      var info := PickInfo(canvasX, canvasY, None, null);
      if 0 <= canvasX < canvasWidth && 0 <= canvasY < canvasHeight {
        var cell := PickedCell(canvasX, canvasY);
        var pickedId := selectionBuffer[cell];
        if pickedId > 0 {
          if scene == null {
            return NoScene;
          }
          var meshes := scene.children;
          var i := 0;
          while i < |meshes|
            invariant i <= |meshes|
            invariant forall k | 0 <= k < i :: meshes[k].internalId != pickedId
          {
            if meshes[i].internalId == pickedId {
              assert FirstWithId(meshes, pickedId, i);
              return Picked(info.(mesh := meshes[i], depth := Some(zBuffer[cell])));
            }
            i := i + 1;
          }
        }
      }
      return Picked(info);
    }
  }

  /** Replace each frame buffer that holds fewer than size entries with a fresh one of exactly that size. */
  method Regrow(cb: array<Color>, zb: array<real>, sb: array<nat>, bb: array<Color>, size: nat)
    returns (cb': array<Color>, zb': array<real>, sb': array<nat>, bb': array<Color>)
    requires cb != bb
    ensures Regrown(cb, cb', size) && Regrown(zb, zb', size) && Regrown(sb, sb', size) && Regrown(bb, bb', size)
    ensures cb.Length < size ==> fresh(cb')
    ensures zb.Length < size ==> fresh(zb')
    ensures sb.Length < size ==> fresh(sb')
    ensures bb.Length < size ==> fresh(bb')
    ensures size <= cb'.Length && size <= zb'.Length && size <= sb'.Length && size <= bb'.Length
    ensures cb.Length <= cb'.Length && zb.Length <= zb'.Length && sb.Length <= sb'.Length && bb.Length <= bb'.Length
    ensures cb' != bb'
  {
    cb', zb', sb', bb' := cb, zb, sb, bb;
    if cb.Length < size {
      cb' := new Color[size];
    }
    if zb.Length < size {
      zb' := new real[size];
    }
    if sb.Length < size {
      sb' := new nat[size];
    }
    if bb.Length < size {
      bb' := new Color[size];
    }
  }

  /** A buffer is kept when it already holds size entries, and otherwise replaced by one of exactly that size. */
  predicate Regrown<T>(before: array<T>, after: array<T>, size: nat)
  {
    if before.Length >= size then after == before else after.Length == size
  }
}
