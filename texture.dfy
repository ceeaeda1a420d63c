/**
 * Textures: square power-of-two grids of 32-bit ARGB texels, the mip chain
 * built from them by 2x2 box filtering, the choice of a mip level from an
 * area ratio, and the wrapped texel lookup of the texture renderers.
 */
module Textures {
  import opened Wrappers
  import opened Bits
  import opened Packed

  /**
   * The side of the square texture an image is scaled to: the smallest of
   * 32, 64, 128 and 256 that holds the image's larger side, else 512.
   */
  function ChooseDimension(imageWidth: nat, imageHeight: nat): (dim: nat)
    ensures dim in {32, 64, 128, 256, 512}
    ensures var side := if imageWidth > imageHeight then imageWidth else imageHeight;
      && (side <= 512 ==> side <= dim)
      && (dim == 32 || dim / 2 < side)
  {
    var side := if imageWidth > imageHeight then imageWidth else imageHeight;
    if side <= 32 then 32
    else if side <= 64 then 64
    else if side <= 128 then 128
    else if side <= 256 then 256
    else 512
  }

  /** The dimensions ChooseDimension picks are powers of two. */
  lemma DimensionIsPower(dim: nat)
    requires dim in {32, 64, 128, 256, 512}
    ensures exists k: nat :: 5 <= k <= 9 && Pow2(k) == dim
  {
    if dim == 32 {
      assert Pow2(5) == 32;
    } else if dim == 64 {
      assert Pow2(6) == 64;
    } else if dim == 128 {
      assert Pow2(7) == 128;
    } else if dim == 256 {
      assert Pow2(8) == 256;
    } else {
      assert Pow2(9) == 512;
    }
  }

  /** The texel packed from bytes 4i..4i+3: alpha<<24 | r<<16 | g<<8 | b. */
  function PackedTexel(rgba: seq<Byte>, i: nat): (t: Word)
    requires 4 * i + 3 < |rgba|
  {
    Argb(rgba[4 * i + 3], rgba[4 * i], rgba[4 * i + 1], rgba[4 * i + 2])
  }

  /**
   * Packing the canvas's RGBA bytes into ARGB texels, texel i from bytes
   * 4i..4i+3, and noticing whether any texel is not fully opaque.
   */
  method PackTexels(rgba: seq<Byte>) returns (texels: seq<Word>, translucent: bool)
    requires |rgba| % 4 == 0
    ensures |texels| == |rgba| / 4
    ensures forall i | 0 <= i < |texels| :: texels[i] == PackedTexel(rgba, i)
    ensures translucent <==> exists i | 0 <= i < |texels| :: rgba[4 * i + 3] < 255
  {
    var size := |rgba| / 4;
    var data := new Word[size](_ => 0);
    translucent := false;
    var i, j := 0, 0;
    assert 4 * size == |rgba|;
    while i < size
      invariant 0 <= i <= size && j == 4 * i && j <= |rgba|
      invariant forall k | 0 <= k < i :: 4 * k + 3 < |rgba| && data[k] == PackedTexel(rgba, k)
      invariant translucent <==> exists k | 0 <= k < i :: rgba[4 * k + 3] < 255
    {
      var alpha := rgba[j + 3];
      data[i] := PackedTexel(rgba, i);
      if alpha < 255 {
        translucent := true;
      }
      i, j := i + 1, j + 4;
    }
    texels := data[..];
  }

  /**
   * The box filter of one texel of the next mip level: each channel is the
   * floor of the mean of that channel over the four parent texels.
   */
  function Mean4(t0: Word, t1: Word, t2: Word, t3: Word): Word
  {
    Argb((Alpha(t0) + Alpha(t1) + Alpha(t2) + Alpha(t3)) / 4,
         (Red(t0) + Red(t1) + Red(t2) + Red(t3)) / 4,
         (Green(t0) + Green(t1) + Green(t2) + Green(t3)) / 4,
         (Blue(t0) + Blue(t1) + Blue(t2) + Blue(t3)) / 4)
  }

  /** Position of the top-left parent of texel (i, j) of a dim x dim level, and of the texel itself. */
  lemma ParentIndex(dim: nat, i: nat, j: nat)
    requires i < dim && j < dim
    ensures 4 * (i * dim) + 2 * j + 2 * dim + 1 < 4 * (dim * dim)
    ensures i * dim + j < dim * dim
  {
    MulMono(dim, i + 1, dim);
  }

  /**
   * The box filter of the 2x2 block whose top-left texel is at src in a
   * level whose rows are w texels long.
   */
  function BlockMean(upper: seq<Word>, src: nat, w: nat): Word
    requires src + w + 1 < |upper|
  {
    Mean4(upper[src], upper[src + 1], upper[src + w], upper[src + w + 1])
  }

  /** Texel (i, j) of the level below a 2dim x 2dim level: the mean of its four parents. */
  function Filtered(upper: seq<Word>, dim: nat, i: nat, j: nat): Word
    requires |upper| == 4 * (dim * dim) && i < dim && j < dim
  {
    ParentIndex(dim, i, j);
    BlockMean(upper, 4 * (i * dim) + 2 * j, 2 * dim)
  }

  /** Row and column of a row-major position. */
  lemma RowMajor(dim: nat, p: nat)
    requires p < dim * dim
    ensures p / dim < dim && p % dim < dim && (p / dim) * dim + p % dim == p
  {
    if p / dim >= dim {
      MulMono(dim, dim, p / dim);
    }
  }

  /** The next mip level: the row-major dim x dim grid of filtered texels. */
  function Downsampled(upper: seq<Word>, dim: nat): (lower: seq<Word>)
    requires |upper| == 4 * (dim * dim)
    ensures |lower| == dim * dim
  {
    seq(dim * dim, p requires 0 <= p < dim * dim =>
      RowMajor(dim, p);
      Filtered(upper, dim, p / dim, p % dim))
  }

  /**
   * One box-filter pass: src walks the upper level two texels at a time and
   * skips a row at the end of each output row.
   */
  method Downsample(upper: seq<Word>, dim: nat) returns (lower: seq<Word>)
    requires |upper| == 4 * (dim * dim)
    ensures lower == Downsampled(upper, dim)
  {
    MulMono(dim, 0, dim);
    var cells: nat := dim * dim;
    var m := new Word[cells](_ => 0);
    ghost var want := Downsampled(upper, dim);
    var upperdim := 2 * dim;
    var src, dest := 0, 0;
    var i := 0;
    while i < dim
      invariant 0 <= i <= dim
      invariant src == 4 * (i * dim) && dest == i * dim
      invariant dest <= dim * dim
      invariant forall p | 0 <= p < dest :: m[p] == want[p]
    {
      MulMono(dim, i + 1, dim);
      assert (i + 1) * dim == i * dim + dim;
      var j := 0;
      while j < dim
        invariant 0 <= j <= dim
        invariant src == 4 * (i * dim) + 2 * j && dest == i * dim + j
        invariant dest <= dim * dim
        invariant forall p | 0 <= p < dest :: m[p] == want[p]
      {
        DownsampleStep(upper, dim, i, j, src, dest);
        m[dest] := BlockMean(upper, src, upperdim);
        src, dest := src + 2, dest + 1;
        j := j + 1;
      }
      src := src + upperdim;
      i := i + 1;
    }
    lower := m[..];
  }

  /** The row-major position of (i, j) has row i and column j. */
  lemma RowColumn(dim: nat, i: nat, j: nat)
    requires i < dim && j < dim
    ensures (i * dim + j) / dim == i && (i * dim + j) % dim == j
  {
    DivModUnique(i * dim + j, dim, i, j);
  }

  /** Each channel of a filtered texel is the floor of the mean of the parents' channels. */
  lemma Mean4Channels(t0: Word, t1: Word, t2: Word, t3: Word)
    ensures var t := Mean4(t0, t1, t2, t3);
      && Alpha(t) == (Alpha(t0) + Alpha(t1) + Alpha(t2) + Alpha(t3)) / 4
      && Red(t) == (Red(t0) + Red(t1) + Red(t2) + Red(t3)) / 4
      && Green(t) == (Green(t0) + Green(t1) + Green(t2) + Green(t3)) / 4
      && Blue(t) == (Blue(t0) + Blue(t1) + Blue(t2) + Blue(t3)) / 4
  {
    ArgbChannels((Alpha(t0) + Alpha(t1) + Alpha(t2) + Alpha(t3)) / 4,
                 (Red(t0) + Red(t1) + Red(t2) + Red(t3)) / 4,
                 (Green(t0) + Green(t1) + Green(t2) + Green(t3)) / 4,
                 (Blue(t0) + Blue(t1) + Blue(t2) + Blue(t3)) / 4);
  }

  /**
   * The box filter as the mip-map generator writes it, on the unsigned bit
   * patterns: alpha as `((t0 & 0xff000000) >>> 2) + ... & 0xff000000`, the
   * other channels as `((t0 & M) + ... + (t3 & M)) >> 2 & M`, summed. Every
   * sum stays below 2^32, so the 32-bit wrap of `&` changes no bit, and the
   * shifted values are non-negative, so `>> 2` and `>>> 2` divide by four.
   */
  function MaskedMean(t0: Word, t1: Word, t2: Word, t3: Word): nat
  {
    MaskedAlpha(t0, t1, t2, t3) + MaskedRed(t0, t1, t2, t3)
      + MaskedGreen(t0, t1, t2, t3) + MaskedBlue(t0, t1, t2, t3)
  }

  function MaskedAlpha(t0: Word, t1: Word, t2: Word, t3: Word): nat
  {
    And(And(t0, 0xff00_0000) / 4 + And(t1, 0xff00_0000) / 4
      + And(t2, 0xff00_0000) / 4 + And(t3, 0xff00_0000) / 4, 0xff00_0000)
  }

  function MaskedRed(t0: Word, t1: Word, t2: Word, t3: Word): nat
  {
    And((And(t0, 0xff_0000) + And(t1, 0xff_0000) + And(t2, 0xff_0000) + And(t3, 0xff_0000)) / 4, 0xff_0000)
  }

  function MaskedGreen(t0: Word, t1: Word, t2: Word, t3: Word): nat
  {
    And((And(t0, 0xff00) + And(t1, 0xff00) + And(t2, 0xff00) + And(t3, 0xff00)) / 4, 0xff00)
  }

  function MaskedBlue(t0: Word, t1: Word, t2: Word, t3: Word): nat
  {
    And((And(t0, 0xff) + And(t1, 0xff) + And(t2, 0xff) + And(t3, 0xff)) / 4, 0xff)
  }

  lemma AlphaQuarter(t0: Word, t1: Word, t2: Word, t3: Word)
    ensures MaskedAlpha(t0, t1, t2, t3) == (Alpha(t0) + Alpha(t1) + Alpha(t2) + Alpha(t3)) / 4 * 0x100_0000
  {
    AlphaPart(t0);
    AlphaPart(t1);
    AlphaPart(t2);
    AlphaPart(t3);
    AlphaReadBack(And(t0, 0xff00_0000) / 4 + And(t1, 0xff00_0000) / 4
      + And(t2, 0xff00_0000) / 4 + And(t3, 0xff00_0000) / 4, Alpha(t0) + Alpha(t1) + Alpha(t2) + Alpha(t3));
  }

  /** The alpha channel of one texel, masked in place and quartered without remainder. */
  lemma AlphaPart(t: Word)
    ensures And(t, 0xff00_0000) / 4 == Alpha(t) * 0x40_0000
  {
    MaskAlpha(t);
    DivModUnique(And(t, 0xff00_0000), 4, Alpha(t) * 0x40_0000, 0);
  }

  /** Four quartered alpha channels summed and masked leave their floored mean in place. */
  lemma AlphaReadBack(sum: nat, n: nat)
    requires n < 0x400 && sum == n * 0x40_0000
    ensures And(sum, 0xff00_0000) == n / 4 * 0x100_0000
  {
    PlacedQuarter(n, 0x40_0000, 0x100_0000);
    var q := n / 4;
    assert q < 0x100;
    MaskAlpha(sum);
    assert Alpha(sum) == q % 0x100 == q;
  }

  /**
   * A channel sum n, placed at a quarter of the channel's place value,
   * reads back from the channel's byte as floor(n/4).
   */
  lemma PlacedQuarter(n: nat, quarter: nat, place: nat)
    requires n < 0x400 && quarter > 0 && place == 4 * quarter
    ensures (n * quarter) / place == n / 4
  {
    DivModUnique(n * quarter, place, n / 4, (n % 4) * quarter);
  }

  lemma RedQuarter(t0: Word, t1: Word, t2: Word, t3: Word)
    ensures MaskedRed(t0, t1, t2, t3) == (Red(t0) + Red(t1) + Red(t2) + Red(t3)) / 4 * 0x1_0000
  {
    MaskRed(t0);
    MaskRed(t1);
    MaskRed(t2);
    MaskRed(t3);
    RedReadBack(And(t0, 0xff_0000) + And(t1, 0xff_0000) + And(t2, 0xff_0000) + And(t3, 0xff_0000),
      Red(t0) + Red(t1) + Red(t2) + Red(t3));
  }

  /** Four red channels summed in place, divided by four and masked, leave their floored mean in place. */
  lemma RedReadBack(sum: nat, n: nat)
    requires n < 0x400 && sum == n * 0x1_0000
    ensures And(sum / 4, 0xff_0000) == n / 4 * 0x1_0000
  {
    DivModUnique(sum, 4, n * 0x4000, 0);
    PlacedQuarter(n, 0x4000, 0x1_0000);
    var q := n / 4;
    assert q < 0x100;
    MaskRed(n * 0x4000);
    assert Red(n * 0x4000) == q % 0x100 == q;
  }

  lemma GreenQuarter(t0: Word, t1: Word, t2: Word, t3: Word)
    ensures MaskedGreen(t0, t1, t2, t3) == (Green(t0) + Green(t1) + Green(t2) + Green(t3)) / 4 * 0x100
  {
    MaskGreen(t0);
    MaskGreen(t1);
    MaskGreen(t2);
    MaskGreen(t3);
    GreenReadBack(And(t0, 0xff00) + And(t1, 0xff00) + And(t2, 0xff00) + And(t3, 0xff00),
      Green(t0) + Green(t1) + Green(t2) + Green(t3));
  }

  /** Four green channels summed in place, divided by four and masked, leave their floored mean in place. */
  lemma GreenReadBack(sum: nat, n: nat)
    requires n < 0x400 && sum == n * 0x100
    ensures And(sum / 4, 0xff00) == n / 4 * 0x100
  {
    DivModUnique(sum, 4, n * 0x40, 0);
    PlacedQuarter(n, 0x40, 0x100);
    var q := n / 4;
    assert q < 0x100;
    MaskGreen(n * 0x40);
    assert Green(n * 0x40) == q % 0x100 == q;
  }

  lemma BlueQuarter(t0: Word, t1: Word, t2: Word, t3: Word)
    ensures MaskedBlue(t0, t1, t2, t3) == (Blue(t0) + Blue(t1) + Blue(t2) + Blue(t3)) / 4
  {
    MaskBlue(t0);
    MaskBlue(t1);
    MaskBlue(t2);
    MaskBlue(t3);
    BlueReadBack(Blue(t0) + Blue(t1) + Blue(t2) + Blue(t3));
  }

  /** Four blue channels summed, divided by four and masked, leave their floored mean. */
  lemma BlueReadBack(n: nat)
    requires n < 0x400
    ensures And(n / 4, 0xff) == n / 4
  {
    var q := n / 4;
    DivModUnique(n, 4, q, n % 4);
    assert q < 0x100;
    DivModUnique(q, 0x100, 0, q);
    MaskBlue(q);
  }

  /** The masked formula computes exactly the box filter. */
  lemma MaskedMeanIsMean(t0: Word, t1: Word, t2: Word, t3: Word)
    ensures MaskedMean(t0, t1, t2, t3) == Mean4(t0, t1, t2, t3)
  {
    AlphaQuarter(t0, t1, t2, t3);
    RedQuarter(t0, t1, t2, t3);
    GreenQuarter(t0, t1, t2, t3);
    BlueQuarter(t0, t1, t2, t3);
  }

  /** (2d)^2 is four times d^2. */
  lemma Square2(d: nat)
    ensures (2 * d) * (2 * d) == 4 * (d * d)
  {
  }

  /** Level L of the mip chain of a 2^k x 2^k texture: level 0 is the texture, each next level is box-filtered. */
  function MipLevel(data: seq<Word>, k: nat, L: nat): (level: seq<Word>)
    requires |data| == Pow2(k) * Pow2(k) && L <= k
    ensures |level| == Pow2(k - L) * Pow2(k - L)
    decreases L
  {
    if L == 0 then data
    else
      var upper := MipLevel(data, k, L - 1);
      Square2(Pow2(k - L));
      assert Pow2(k - (L - 1)) == 2 * Pow2(k - L);
      Downsampled(upper, Pow2(k - L))
  }

  /** Level L of the chain is the filtered level L - 1, whose side is twice as long. */
  lemma MipLevelNext(data: seq<Word>, k: nat, L: nat)
    requires |data| == Pow2(k) * Pow2(k) && L < k
    ensures |MipLevel(data, k, L)| == 4 * (Pow2(k - (L + 1)) * Pow2(k - (L + 1)))
    ensures MipLevel(data, k, L + 1) == Downsampled(MipLevel(data, k, L), Pow2(k - (L + 1)))
    ensures Pow2(k - L) / 2 == Pow2(k - (L + 1))
  {
    Square2(Pow2(k - (L + 1)));
    assert Pow2(k - L) == 2 * Pow2(k - (L + 1));
  }

  /**
   * The generator's loop: starting from the texels, append one filtered
   * level per step, halving the side, and record 4^L for each level L.
   */
  method BuildMipChain(texels: seq<Word>, k: nat) returns (maps: seq<seq<Word>>, entries: seq<nat>)
    requires |texels| == Pow2(k) * Pow2(k) && k >= 1
    ensures maps == MipChain(texels, k) && entries == MipEntries(k)
  {
    ghost var chain, want := MipChain(texels, k), MipEntries(k);
    maps := [texels];
    entries := [1];
    var dim := Pow2(k - 1);
    var level := 1;
    while level <= k
      invariant 1 <= level <= k + 1
      invariant maps == chain[..level] && entries == want[..level]
      invariant level <= k ==> dim == Pow2(k - level)
    {
      MipLevelNext(texels, k, level - 1);
      var m := Downsample(maps[level - 1], dim);
      PrefixGrows(chain, level);
      PrefixGrows(want, level);
      maps := maps + [m];
      entries := entries + [Pow4(level)];
      dim := dim / 2;
      level := level + 1;
    }
    assert maps == chain && entries == want;
  }

  lemma PrefixGrows<T>(s: seq<T>, n: nat)
    requires n < |s|
    ensures s[..n + 1] == s[..n] + [s[n]]
  {
  }

  /** 4^L, the texel count ratio of level L to level 0. */
  function Pow4(L: nat): (r: nat)
    ensures r >= 1
  {
    if L == 0 then 1 else 4 * Pow4(L - 1)
  }

  /** The mip chain and its entries as the generator leaves them: k+1 levels. */
  function MipChain(data: seq<Word>, k: nat): (chain: seq<seq<Word>>)
    requires |data| == Pow2(k) * Pow2(k)
    ensures |chain| == k + 1 && chain[0] == data
    ensures forall L | 0 <= L <= k :: chain[L] == MipLevel(data, k, L)
  {
    seq(k + 1, L requires 0 <= L <= k => MipLevel(data, k, L))
  }

  function MipEntries(k: nat): (entries: seq<nat>)
    ensures |entries| == k + 1
    ensures forall L | 0 <= L <= k :: entries[L] == Pow4(L)
  {
    seq(k + 1, L requires 0 <= L => Pow4(L))
  }

  /** Level L of a generated chain has (width >> L)^2 texels. */
  lemma MipLevelSize(data: seq<Word>, k: nat, L: nat)
    requires |data| == Pow2(k) * Pow2(k) && L <= k
    ensures |MipChain(data, k)[L]| == Shr(Pow2(k), L) * Shr(Pow2(k), L)
  {
    Pow2Add(k - L, L);
    DivModUnique(Pow2(k), Pow2(L), Pow2(k - L), 0);
    assert Shr(Pow2(k), L) == Pow2(k - L);
  }

  /** The pointers of the filter loop address texel (i, j) and its parents. */
  lemma DownsampleStep(upper: seq<Word>, dim: nat, i: nat, j: nat, src: nat, dest: nat)
    requires |upper| == 4 * (dim * dim) && i < dim && j < dim
    requires src == 4 * (i * dim) + 2 * j && dest == i * dim + j
    ensures dest < dim * dim && src + 2 * dim + 1 < |upper|
    ensures Downsampled(upper, dim)[dest] == BlockMean(upper, src, 2 * dim)
  {
    DownsampledAt(upper, dim, i, j);
  }

  /** Texel (i, j) of the next level sits at row-major position i * dim + j. */
  lemma DownsampledAt(upper: seq<Word>, dim: nat, i: nat, j: nat)
    requires |upper| == 4 * (dim * dim) && i < dim && j < dim
    ensures i * dim + j < dim * dim && 4 * (i * dim) + 2 * j + 2 * dim + 1 < |upper|
    ensures Downsampled(upper, dim)[i * dim + j] == BlockMean(upper, 4 * (i * dim) + 2 * j, 2 * dim)
  {
    ParentIndex(dim, i, j);
    var p := i * dim + j;
    RowColumn(dim, i, j);
    assert Downsampled(upper, dim)[p] == Filtered(upper, dim, p / dim, p % dim);
  }

  /** 4^a grows strictly with a. */
  lemma {:induction false} Pow4Grows(a: nat, b: nat)
    requires a < b
    ensures Pow4(a) < Pow4(b)
    decreases b
  {
    if a < b - 1 {
      Pow4Grows(a, b - 1);
    }
  }

  /**
   * Level L of a chain with k levels above level 0 brackets the area ratio:
   * 4^L is at most the ratio unless L is 0, and 4^(L+1) is above it unless
   * L is the last level.
   */
  predicate Brackets(ratio: real, k: nat, L: nat)
  {
    && L <= k
    && (L == 0 || Pow4(L) as real <= ratio)
    && (L == k || ratio < Pow4(L + 1) as real)
  }

  /**
   * Mip level selection: below the second entry use level 0; at or above
   * the last entry use the last level with a 1x1 texture; otherwise step up
   * while the next entry is still at most the ratio, halving the texture
   * side each time.
   */
  method SelectMipLevel(ratio: real, entries: seq<nat>, k: nat) returns (level: nat, tdim: nat)
    requires k >= 1 && entries == MipEntries(k)
    ensures Brackets(ratio, k, level) && tdim == Pow2(k - level)
  {
    tdim := Pow2(k);
    if ratio < entries[1] as real {
      level := 0;
    } else if ratio >= entries[|entries| - 1] as real {
      level := |entries| - 1;
      tdim := 1;
    } else {
      level := 0;
      while ratio >= entries[level + 1] as real
        invariant 0 <= level < k
        invariant level == 0 || Pow4(level) as real <= ratio
        invariant tdim == Pow2(k - level)
        decreases k - level
      {
        level := level + 1;
        tdim := tdim / 2;
      }
    }
  }

  /** 4^a is monotone in a. */
  lemma Pow4Order(a: nat, b: nat)
    ensures a <= b ==> Pow4(a) <= Pow4(b)
  {
    if a < b {
      Pow4Grows(a, b);
    }
  }

  /** A larger area ratio never selects a smaller (finer) mip level. */
  lemma BracketsMonotone(r1: real, r2: real, k: nat, L1: nat, L2: nat)
    requires r1 <= r2 && Brackets(r1, k, L1) && Brackets(r2, k, L2)
    ensures L1 <= L2
  {
    Pow4Order(L2 + 1, L1);
  }

  /** The bracket determines the level: the selection has one possible result. */
  lemma BracketsUnique(ratio: real, k: nat, L1: nat, L2: nat)
    requires Brackets(ratio, k, L1) && Brackets(ratio, k, L2)
    ensures L1 == L2
  {
    BracketsMonotone(ratio, ratio, k, L1, L2);
    BracketsMonotone(ratio, ratio, k, L2, L1);
  }

  /**
   * The two shortcut branches: a ratio below 4 selects level 0 and a ratio
   * of at least 4^k selects level k, where the texture is 1x1.
   */
  lemma BracketsEdges(ratio: real, k: nat, L: nat)
    requires k >= 1 && Brackets(ratio, k, L)
    ensures ratio < Pow4(1) as real ==> L == 0
    ensures ratio >= Pow4(k) as real ==> L == k && Pow2(k - L) == 1
  {
    Pow4Order(1, L);
    Pow4Order(L + 1, k);
  }

  /** JavaScript's ToInt32 truncation of a finite number toward zero. */
  function Trunc(x: real): int
  {
    if x >= 0.0 then x.Floor else -((-x).Floor)
  }

  /**
   * The texel lookup `(tv & tbound) * tdim + (th & tbound)` with tbound =
   * tdim - 1 and tdim = 2^k: the coordinates wrap around the texture.
   */
  function TexelIndex(tv: real, th: real, k: nat): (index: nat)
    requires k <= 16
    ensures index == (Trunc(tv) % Pow2(k)) * Pow2(k) + Trunc(th) % Pow2(k)
    ensures index < Pow2(k) * Pow2(k)
  {
    var tdim := Pow2(k);
    WrapMask(Trunc(tv), k);
    WrapMask(Trunc(th), k);
    var row := And(Bits32(Trunc(tv)), tdim - 1);
    var col := And(Bits32(Trunc(th)), tdim - 1);
    GridIndex(tdim, row, col);
    row * tdim + col
  }

  /**
   * The number of mip levels above level 0, which the generator computes as
   * `~~(0.1 + Math.log(width) * Math.LOG2E)`; for a power of two this is its
   * exponent (the floating-point logarithm is not modelled).
   */
  function Log2(n: nat): nat
    requires n >= 1
  {
    if n == 1 then 0 else 1 + Log2(n / 2)
  }

  lemma {:induction false} Log2Pow2(k: nat)
    ensures Log2(Pow2(k)) == k
  {
    if k > 0 {
      assert Pow2(k) / 2 == Pow2(k - 1);
      Log2Pow2(k - 1);
    }
  }

  /** A row-major position of a cell of a d x d grid lies in the grid. */
  lemma GridIndex(d: nat, row: nat, col: nat)
    requires row < d && col < d
    ensures 0 <= row * d + col < d * d
  {
    MulMono(d, row + 1, d);
    MulMono(d, 0, row);
  }

  /** The side length of each dimension the texture creator picks, as a power of two. */
  function DimensionLog(dim: nat): (k: nat)
    requires dim in {32, 64, 128, 256, 512}
    ensures Pow2(k) == dim && 5 <= k <= 9
  {
    assert Pow2(5) == 32 && Pow2(6) == 64 && Pow2(7) == 128 && Pow2(8) == 256 && Pow2(9) == 512;
    if dim == 32 then 5 else if dim == 64 then 6 else if dim == 128 then 7 else if dim == 256 then 8 else 9
  }

  class Texture {
    var width: nat
    var height: nat
    var data: Option<seq<Word>>
    var mipmaps: Option<seq<seq<Word>>>
    var mipentries: Option<seq<nat>>
    var hasTransparency: bool
    /** log2 of the width once texel data is present. */
    ghost var logWidth: nat

    constructor ()
      ensures width == 0 && height == 0 && data == None && mipmaps == None && mipentries == None
      ensures !hasTransparency && Valid()
    {
      width, height := 0, 0;
      data, mipmaps, mipentries := None, None, None;
      hasTransparency := false;
      logWidth := 0;
    }

    /**
     * Texel data, when present, is a square power-of-two grid, and a mip
     * chain, when present, is the one generated from it.
     */
    ghost predicate Valid()
      reads this
    {
      && (data.Some? ==> width == height == Pow2(logWidth) && |data.value| == width * width)
      && (mipmaps.Some? ==>
            && data.Some? && logWidth >= 1
            && mipmaps.value == MipChain(data.value, logWidth)
            && mipentries == Some(MipEntries(logWidth)))
    }

    function HasData(): (r: bool)
      reads this
      ensures r <==> data.Some?
    {
      data.Some?
    }

    function HasMipmap(): (r: bool)
      reads this
      ensures r <==> mipmaps.Some?
    {
      mipmaps.Some?
    }

    /**
     * Build the mip chain unless the texture is 1x1 or smaller, has no data
     * or already has a chain.
     */
    method GenerateMipmaps()
      requires Valid()
      modifies this
      ensures Valid()
      ensures width == old(width) && height == old(height) && data == old(data)
      ensures hasTransparency == old(hasTransparency) && logWidth == old(logWidth)
      ensures old(width <= 1 || data.None? || mipmaps.Some?) ==>
        mipmaps == old(mipmaps) && mipentries == old(mipentries)
      ensures old(!(width <= 1 || data.None? || mipmaps.Some?)) ==>
        && mipmaps == Some(MipChain(data.value, logWidth))
        && mipentries == Some(MipEntries(logWidth))
    {
      if width <= 1 || data.None? || mipmaps.Some? {
        return;
      }
      var k := Log2(width);
      Log2Pow2(logWidth);
      var texels := data.value;
      assert k == logWidth && |texels| == Pow2(k) * Pow2(k);
      var maps, entries := BuildMipChain(texels, k);
      mipmaps := Some(maps);
      mipentries := Some(entries);
    }

    /**
     * Load texels from an image already drawn on a dim x dim canvas, where
     * dim is ChooseDimension of the image size: pack them, raise (never
     * clear) the transparency flag, drop any old mip chain and optionally
     * build a new one. A non-positive image size leaves the texture alone.
     */
    method CreateFromImage(imageWidth: int, imageHeight: int, rgba: seq<Byte>, useMipmap: bool)
      requires Valid()
      requires imageWidth > 0 && imageHeight > 0 ==>
        var dim := ChooseDimension(imageWidth, imageHeight); |rgba| == 4 * (dim * dim)
      modifies this
      ensures Valid()
      ensures imageWidth <= 0 || imageHeight <= 0 ==>
        && width == old(width) && height == old(height) && data == old(data)
        && mipmaps == old(mipmaps) && hasTransparency == old(hasTransparency)
      ensures imageWidth > 0 && imageHeight > 0 ==>
        && width == height == ChooseDimension(imageWidth, imageHeight)
        && data.Some? && |data.value| == |rgba| / 4
        && (forall i | 0 <= i < |data.value| :: data.value[i] == PackedTexel(rgba, i))
        && (hasTransparency <==> old(hasTransparency) || exists i | 0 <= i < |data.value| :: rgba[4 * i + 3] < 255)
        && (useMipmap <==> mipmaps.Some?)
    {
      if imageWidth <= 0 || imageHeight <= 0 {
        return;
      }
      Load(ChooseDimension(imageWidth, imageHeight), rgba, useMipmap);
    }

    /** The part of CreateFromImage after the image is drawn on its dim x dim canvas. */
    method Load(dim: nat, rgba: seq<Byte>, useMipmap: bool)
      requires Valid() && dim in {32, 64, 128, 256, 512} && |rgba| == 4 * (dim * dim)
      modifies this
      ensures Valid()
      ensures width == height == dim
      ensures data.Some? && |data.value| == |rgba| / 4
      ensures forall i | 0 <= i < |data.value| :: data.value[i] == PackedTexel(rgba, i)
      ensures hasTransparency <==> old(hasTransparency) || exists i | 0 <= i < |data.value| :: rgba[4 * i + 3] < 255
      ensures useMipmap <==> mipmaps.Some?
    {
      var texels, translucent := PackTexels(rgba);
      data := Some(texels);
      if translucent {
        hasTransparency := true;
      }
      width, height := dim, dim;
      logWidth := DimensionLog(dim);
      mipmaps := None;
      if useMipmap {
        GenerateMipmaps();
      }
    }
  }
}
