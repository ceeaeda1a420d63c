/**
 * Little-endian readers of the binary STL loader: an unsigned 32-bit
 * integer and an IEEE 754 binary32 number, each read from four bytes.
 */
module LittleEndian {
  import opened Bits
  import opened Packed

  /** The number four bytes stand for, least significant first. */
  function UInt(bytes: seq<Byte>): nat
  {
    if |bytes| == 0 then 0 else bytes[0] + 0x100 * UInt(bytes[1..])
  }

  /** 256^k */
  function Pow256(k: nat): (r: nat)
    ensures r >= 1
  {
    if k == 0 then 1 else 0x100 * Pow256(k - 1)
  }

  /** A byte appended at the most significant end adds its value times 256^|bytes|. */
  lemma {:induction false} UIntAppend(bytes: seq<Byte>, b: Byte)
    ensures UInt(bytes + [b]) == UInt(bytes) + b * Pow256(|bytes|)
    decreases |bytes|
  {
    if |bytes| > 0 {
      assert (bytes + [b])[1..] == bytes[1..] + [b];
      UIntAppend(bytes[1..], b);
    } else {
      assert (bytes + [b])[1..] == [];
    }
  }

  /** k bytes stand for a number below 256^k. */
  lemma {:induction false} UIntBound(bytes: seq<Byte>)
    ensures UInt(bytes) < Pow256(|bytes|)
    decreases |bytes|
  {
    if |bytes| > 0 {
      UIntBound(bytes[1..]);
    }
  }

  /** The k bytes of n, least significant first. */
  function Encode(n: nat, k: nat): (bytes: seq<Byte>)
    ensures |bytes| == k
  {
    if k == 0 then [] else [n % 0x100] + Encode(n / 0x100, k - 1)
  }

  /** Reading back the k bytes of a number below 256^k gives the number. */
  lemma {:induction false} DecodeEncode(n: nat, k: nat)
    requires n < Pow256(k)
    ensures UInt(Encode(n, k)) == n
    decreases k
  {
    if k > 0 {
      var bytes := Encode(n, k);
      assert bytes[1..] == Encode(n / 0x100, k - 1);
      DivMono(n, Pow256(k), 0x100);
      DecodeEncode(n / 0x100, k - 1);
    }
  }

  /** Encoding the number some bytes stand for gives the bytes back. */
  lemma {:induction false} EncodeDecode(bytes: seq<Byte>)
    ensures Encode(UInt(bytes), |bytes|) == bytes
    decreases |bytes|
  {
    if |bytes| > 0 {
      var n := UInt(bytes);
      DivModUnique(n, 0x100, UInt(bytes[1..]), bytes[0]);
      EncodeDecode(bytes[1..]);
    }
  }

  /**
   * `readUInt32LittleEndian`: add each byte times a factor that starts at 1
   * and is multiplied by 256 after each byte.
   */
  method ReadUInt32(data: seq<Byte>, start: nat) returns (rv: nat)
    requires start + 4 <= |data|
    ensures rv == UInt(data[start..start + 4])
    ensures rv < 0x1_0000_0000
  {
    rv := 0;
    var f: nat := 1;
    var i := 0;
    while i < 4
      invariant 0 <= i <= 4
      invariant f == Pow256(i)
      invariant rv == UInt(data[start..start + i])
    {
      UIntAppend(data[start..start + i], data[start + i]);
      assert data[start..start + i] + [data[start + i]] == data[start..start + i + 1];
      rv := rv + data[start + i] * f;
      f := f * 0x100;
      i := i + 1;
    }
    UIntBound(data[start..start + 4]);
  }

  /**
   * A binary32 number: a finite value, an infinity, or not a number. Every
   * finite binary32 value is a whole multiple of 2^-149, the least
   * subnormal, so a finite value is kept exactly as that multiple.
   */
  datatype Float = Finite(units: int) | Infinite(negative: bool) | NaN

  /** x with sign bit S applied. */
  function Signed(S: nat, x: int): int
  {
    if S == 1 then -x else x
  }

  /** The sign bit of a binary32 word. */
  function SignBit(w: Word): nat { w / 0x8000_0000 }

  /** The 8-bit biased exponent of a binary32 word. */
  function BiasedExponent(w: Word): nat { (w / 0x80_0000) % 0x100 }

  /** The 23-bit trailing significand of a binary32 word. */
  function Trailing(w: Word): nat { w % 0x80_0000 }

  /**
   * The value a binary32 word encodes, as section 3.4 of IEEE 754-2008
   * defines it (p = 24, bias = 127, emin = -126), counted in units of
   * 2^-149: an all-ones exponent is an infinity when the trailing
   * significand T is 0 and NaN otherwise; a zero exponent is the subnormal
   * 2^emin * (0 + 2^(1-p) * T), which is T units; any other exponent E is
   * the normal 2^(E-bias) * (1 + 2^(1-p) * T), which is (2^23 + T) * 2^(E-1)
   * units.
   */
  function Binary32(w: Word): Float
  {
    var S, E, T := SignBit(w), BiasedExponent(w), Trailing(w);
    if E == 0xff then (if T != 0 then NaN else Infinite(S == 1))
    else if E == 0 then Finite(Signed(S, T))
    else Finite(Signed(S, (0x80_0000 + T) * Pow2(E - 1)))
  }

  /** The value with the sign flipped. */
  function Negated(f: Float): Float
  {
    match f
    case Finite(u) => Finite(-u)
    case Infinite(negative) => Infinite(!negative)
    case NaN => NaN
  }

  /** The word four bytes make, least significant first. */
  function Word4(b0: nat, b1: nat, b2: nat, b3: nat): nat
  {
    b0 + 0x100 * (b1 + 0x100 * (b2 + 0x100 * b3))
  }

  /** The three fields of the word four little-endian bytes make. */
  lemma WordFields(b0: Byte, b1: Byte, b2: Byte, b3: Byte)
    ensures var w := Word4(b0, b1, b2, b3);
      && w < 0x1_0000_0000
      && SignBit(w) == b3 / 0x80
      && BiasedExponent(w) == (b3 % 0x80) * 2 + b2 / 0x80
      && Trailing(w) == ((b2 % 0x80) * 0x100 + b1) * 0x100 + b0
  {
    var w := Word4(b0, b1, b2, b3);
    var lo: nat := (b2 % 0x80) * 0x100 + b1;
    var T: nat := lo * 0x100 + b0;
    var high: nat := b3 * 2 + b2 / 0x80;
    var mid: nat := (b3 % 0x80) * 2 + b2 / 0x80;
    assert w == 0x80_0000 * high + T;
    DivModUnique(w, 0x80_0000, high, T);
    DivModUnique(high, 0x100, b3 / 0x80, mid);
    DivModUnique(w, 0x8000_0000, b3 / 0x80, mid * 0x80_0000 + T);
  }

  /** The four bytes from start, as the little-endian word they make. */
  lemma UIntOfFour(data: seq<Byte>, start: nat)
    requires start + 4 <= |data|
    ensures UInt(data[start..start + 4]) == Word4(data[start], data[start + 1], data[start + 2], data[start + 3])
  {
    var q := data[start..start + 4];
    assert UInt(q[3..]) == data[start + 3] by {
      assert q[3..][1..] == [];
    }
    assert UInt(q[2..]) == data[start + 2] + 0x100 * UInt(q[3..]) by {
      assert q[2..][1..] == q[3..];
    }
    assert UInt(q[1..]) == data[start + 1] + 0x100 * UInt(q[2..]) by {
      assert q[1..][1..] == q[2..];
    }
  }

  /** The little-endian word at start. */
  function WordAt(data: seq<Byte>, start: nat): (w: Word)
    requires start + 4 <= |data|
    ensures w == Word4(data[start], data[start + 1], data[start + 2], data[start + 3])
  {
    UIntOfFour(data, start);
    WordFields(data[start], data[start + 1], data[start + 2], data[start + 3]);
    UInt(data[start..start + 4])
  }

  /** `& ((1 << k) - 1)` keeps the k low bits. */
  function LowBits(x: nat, k: nat): (r: nat)
    ensures r == x % Pow2(k)
  {
    AndLowMask(x, k);
    And(x, Shl(1, k) - 1)
  }

  /** A byte placed above a value keeps that value's low seven bits and shifts its upper bits down. */
  lemma ByteAbove(x: nat, y: Byte)
    ensures (x * 0x100 + y) % 0x80 == y % 0x80
    ensures (x * 0x100 + y) / 0x80 == x * 2 + y / 0x80
  {
    DivModUnique(x * 0x100 + y, 0x80, x * 2 + y / 0x80, y % 0x80);
  }

  /**
   * `readFloatLittleEndian`: gather the sign and exponent from the high
   * bytes and the significand from the low bytes, most significant byte
   * first, then scale. The result is the binary32 value of the four bytes;
   * the source's `m * 2^(e - 23)` is here `m * 2^(e + 126)` units of 2^-149.
   */
  method ReadFloat(data: seq<Byte>, start: nat) returns (f: Float)
    requires start + 4 <= |data|
    ensures f == Binary32(WordAt(data, start))
  {
    var mLen, eLen, eMax, eBias := 23, 8, 255, 127;
    var b0: nat, b1: nat, b2: nat, b3: nat := data[start], data[start + 1], data[start + 2], data[start + 3];
    var i: int := 3;
    var d := -1;
    var s: nat := data[start + i];
    i := i + d;
    var bits: int := -7;
    var e: int := LowBits(s, 7);
    s := Shr(s, 7);
    bits := bits + eLen;
    while bits > 0
      invariant || (bits == 1 && i == 2 && e == b3 % 0x80)
                || (bits == -7 && i == 1 && e == (b3 % 0x80) * 0x100 + b2)
      decreases bits
    {
      e := e * 0x100 + data[start + i];
      i := i + d;
      bits := bits - 8;
    }
    ByteAbove(b3 % 0x80, b2);
    var m: int := LowBits(e, 7);
    e := Shr(e, 7);
    bits := bits + mLen;
    while bits > 0
      invariant || (bits == 16 && i == 1 && m == b2 % 0x80)
                || (bits == 8 && i == 0 && m == (b2 % 0x80) * 0x100 + b1)
                || (bits == 0 && i == -1 && m == ((b2 % 0x80) * 0x100 + b1) * 0x100 + b0)
      decreases bits
    {
      m := m * 0x100 + data[start + i];
      i := i + d;
      bits := bits - 8;
    }
    var w := WordAt(data, start);
    WordFields(data[start], data[start + 1], data[start + 2], data[start + 3]);
    f := Assemble(w, s, e, m);
  }

  /**
   * The closing switch of `readFloatLittleEndian`, from the sign bit s, the
   * biased exponent e and the trailing significand m of the word w: a zero
   * exponent becomes emin, an all-ones exponent gives NaN or an infinity,
   * any other exponent is unbiased and the implicit bit 2^23 is added.
   */
  method Assemble(w: Word, s: nat, e: int, m: int) returns (f: Float)
    requires s == SignBit(w) && e == BiasedExponent(w) && m == Trailing(w)
    ensures f == Binary32(w)
  {
    var mLen, eMax, eBias := 23, 255, 127;
    var e, m := e, m;
    if e == 0 {
      e := 1 - eBias;
    } else if e == eMax {
      return if m != 0 then NaN else Infinite(s == 1);
    } else {
      m := m + 0x80_0000;  // Math.pow(2, mLen)
      e := e - eBias;
    }
    var k: nat := e - mLen + 149;
    var magnitude := m * Pow2(k);
    f := Finite(if s == 1 then -magnitude else magnitude);
  }

  /** Flipping the sign bit negates the value. */
  lemma SignSymmetry(w: Word)
    requires w < 0x8000_0000
    ensures Binary32(w + 0x8000_0000) == Negated(Binary32(w))
  {
    DivModUnique(w + 0x8000_0000, 0x8000_0000, 1, w);
    DivModUnique(w, 0x8000_0000, 0, w);
    var v := w + 0x8000_0000;
    DivModUnique(v / 0x80_0000, 0x100, 1, w / 0x80_0000);
    DivModUnique(v, 0x80_0000, 0x100 + w / 0x80_0000, w % 0x80_0000);
  }

  /**
   * The positive finite words, from +0 up to the largest finite number
   * 0x7f7f_ffff, encode strictly increasing values: the encoding is ordered
   * like the bit patterns.
   */
  lemma {:induction false} PositiveOrder(w1: Word, w2: Word)
    requires w1 < w2 < 0x7f80_0000
    ensures Binary32(w1).Finite? && Binary32(w2).Finite?
    ensures Binary32(w1).units < Binary32(w2).units
    decreases w2 - w1
  {
    NextUp(w2 - 1);
    if w1 < w2 - 1 {
      PositiveOrder(w1, w2 - 1);
    }
  }

  /** The next positive word up encodes the next larger value. */
  lemma NextUp(w: Word)
    requires w + 1 < 0x7f80_0000
    ensures Binary32(w).Finite? && Binary32(w + 1).Finite?
    ensures Binary32(w).units < Binary32(w + 1).units
  {
    var E, T := w / 0x80_0000, w % 0x80_0000;
    DivModUnique(w, 0x8000_0000, 0, w);
    DivModUnique(w + 1, 0x8000_0000, 0, w + 1);
    DivModUnique(E, 0x100, 0, E);
    if T + 1 < 0x80_0000 {
      DivModUnique(w + 1, 0x80_0000, E, T + 1);
      if E > 0 {
        var P := Pow2(E - 1);
        assert (0x80_0000 + T + 1) * P == (0x80_0000 + T) * P + P;
      }
    } else {
      DivModUnique(w + 1, 0x80_0000, E + 1, 0);
      DivModUnique(E + 1, 0x100, 0, E + 1);
      if E > 0 {
        var P := Pow2(E - 1);
        assert Pow2(E) == 2 * P;
        assert (0x80_0000 + T) * P < 0x100_0000 * P;
      }
    }
  }

  /** The word after the largest finite number is +infinity; the words above it, up to the sign bit, are NaN. */
  lemma PastFinite(w: Word)
    requires 0x7f80_0000 <= w < 0x8000_0000
    ensures w == 0x7f80_0000 ==> Binary32(w) == Infinite(false)
    ensures w > 0x7f80_0000 ==> Binary32(w) == NaN
  {
    DivModUnique(w, 0x8000_0000, 0, w);
    DivModUnique(w, 0x80_0000, 0xff, w - 0x7f80_0000);
  }
}
