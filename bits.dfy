/**
 * Bit-level arithmetic on unbounded naturals: powers of two and a bitwise
 * AND, enough to state what the renderer's masks (`&`) compute.
 */
module Bits {

  function Pow2(k: nat): (r: nat)
    ensures r >= 1
  {
    if k == 0 then 1 else 2 * Pow2(k - 1)
  }

  lemma {:induction false} Pow2Add(a: nat, b: nat)
    ensures Pow2(a + b) == Pow2(a) * Pow2(b)
    decreases a
  {
    if a > 0 {
      Pow2Add(a - 1, b);
      assert Pow2(a + b) == 2 * Pow2(a - 1 + b);
    }
  }

  lemma Pow2Constants()
    ensures Pow2(8) == 0x100 && Pow2(16) == 0x1_0000
    ensures Pow2(24) == 0x100_0000 && Pow2(32) == 0x1_0000_0000
  {
    assert Pow2(1) == 2;
    assert Pow2(2) == 4;
    assert Pow2(3) == 8;
    assert Pow2(4) == 16;
    Pow2Add(4, 4);
    Pow2Add(8, 8);
    Pow2Add(16, 8);
    Pow2Add(16, 16);
  }

  /** x % (2*p) splits into the low bit and the remainder of x / 2 modulo p. */
  lemma ModDouble(x: nat, p: nat)
    requires p > 0
    ensures x % (2 * p) == 2 * ((x / 2) % p) + x % 2
  {
    var q, b := x / 2, x % 2;
    var s, t := q / p, q % p;
    assert x == 2 * p * s + (2 * t + b) by {
      assert x == 2 * q + b;
      assert q == p * s + t;
    }
    DivModUnique(x, 2 * p, s, 2 * t + b);
  }

  lemma DivModUnique(x: int, d: int, q: int, r: int)
    requires d > 0 && 0 <= r < d && x == d * q + r
    ensures x / d == q && x % d == r
  {
    var q', r' := x / d, x % d;
    assert d * q' + r' == d * q + r;
    if q' > q {
      assert d * q' >= d * (q + 1) by { MulMono(d, q + 1, q'); }
      assert false;
    } else if q' < q {
      assert d * q >= d * (q' + 1) by { MulMono(d, q' + 1, q); }
      assert false;
    }
  }

  lemma MulMono(d: int, a: int, b: int)
    requires d >= 0 && a <= b
    ensures d * a <= d * b
  {
    assert d * b - d * a == d * (b - a);
  }

  /** Integer division by a positive number is monotone. */
  lemma DivMono(a: int, b: int, k: int)
    requires 0 <= a <= b && k > 0
    ensures a / k <= b / k
  {
    if a / k > b / k {
      MulMono(k, b / k + 1, a / k);
      assert false;
    }
  }

  /** A product of naturals divided by a positive number is a natural. */
  function MulDiv(n: nat, d: nat, k: nat): (q: nat)
    requires k > 0
    ensures q * k <= n * d
  {
    MulMono(n, 0, d);
    n * d / k
  }

  /** Dividing by a then by b is dividing by a * b. */
  lemma DivDiv(x: nat, a: nat, b: nat)
    requires a > 0 && b > 0
    ensures (x / a) / b == x / (a * b)
  {
    var q1 := x / a;
    var r1 := x % a;
    var q2 := q1 / b;
    var r2 := q1 % b;
    assert x == a * b * q2 + (a * r2 + r1) by {
      assert x == a * q1 + r1;
      assert q1 == b * q2 + r2;
    }
    assert a * r2 + r1 < a * b by {
      MulMono(a, r2, b - 1);
    }
    DivModUnique(x, a * b, q2, a * r2 + r1);
  }

  /** Reducing modulo a multiple of m keeps the remainder modulo m. */
  lemma ModOfMultipleMod(x: int, m: int, k: int)
    requires m > 0 && k > 0
    ensures (x % (m * k)) % m == x % m
  {
    var q, r := x / (m * k), x % (m * k);
    assert x == m * (k * q) + r;
    var s, t := r / m, r % m;
    assert x == m * (k * q + s) + t;
    DivModUnique(x, m, k * q + s, t);
  }

  /** Bitwise AND of two naturals, taken from the least significant bit up. */
  function And(x: nat, y: nat): (r: nat)
    ensures r <= x && r <= y
    decreases x
  {
    if x == 0 || y == 0 then 0
    else 2 * And(x / 2, y / 2) + (if x % 2 == 1 && y % 2 == 1 then 1 else 0)
  }

  /** A mask of k low one-bits keeps exactly the remainder modulo 2^k. */
  lemma {:induction false} AndLowMask(x: nat, k: nat)
    ensures And(x, Pow2(k) - 1) == x % Pow2(k)
    decreases k
  {
    if k == 0 {
      DivModUnique(x, 1, x, 0);
    } else if x == 0 {
      DivModUnique(0, Pow2(k), 0, 0);
    } else {
      AndLowMask(x / 2, k - 1);
      AndLowMaskStep(x, k);
    }
  }

  /** One step of AndLowMask: the result for x follows from the result for x / 2. */
  lemma AndLowMaskStep(x: nat, k: nat)
    requires x > 0 && k > 0
    requires And(x / 2, Pow2(k - 1) - 1) == (x / 2) % Pow2(k - 1)
    ensures And(x, Pow2(k) - 1) == x % Pow2(k)
  {
    var m := Pow2(k) - 1;
    LowMaskHalves(k);
    AndOddMask(x, m, And(x / 2, m / 2));
    ModPow2Halves(x, k);
  }

  /** x modulo 2^k is twice (x / 2) modulo 2^(k-1), plus the low bit. */
  lemma ModPow2Halves(x: nat, k: nat)
    requires k > 0
    ensures x % Pow2(k) == 2 * ((x / 2) % Pow2(k - 1)) + x % 2
  {
    ModDouble(x, Pow2(k - 1));
  }

  /** 2^k - 1 for k > 0 is odd and halves to 2^(k-1) - 1. */
  lemma LowMaskHalves(k: nat)
    requires k > 0
    ensures (Pow2(k) - 1) % 2 == 1 && (Pow2(k) - 1) / 2 == Pow2(k - 1) - 1
  {
    DivModUnique(Pow2(k) - 1, 2, Pow2(k - 1) - 1, 1);
  }

  /** With an odd mask, AND keeps the low bit of x and ANDs the rest with the halved mask. */
  lemma AndOddMask(x: nat, m: nat, half: nat)
    requires x > 0 && m % 2 == 1 && half == And(x / 2, m / 2)
    ensures And(x, m) == 2 * half + x % 2
  {
  }

  /** Bitwise OR of two naturals, taken from the least significant bit up. */
  function Or(x: nat, y: nat): nat
    decreases x + y
  {
    if x == 0 then y
    else if y == 0 then x
    else 2 * Or(x / 2, y / 2) + (if x % 2 == 1 || y % 2 == 1 then 1 else 0)
  }

  /** OR-ing a value below 2^k into a field shifted left by k adds the two. */
  lemma {:induction false} OrDisjoint(hi: nat, lo: nat, k: nat)
    requires lo < Pow2(k)
    ensures Or(hi * Pow2(k), lo) == hi * Pow2(k) + lo
    decreases k
  {
    if k > 0 && hi != 0 && lo != 0 {
      var x := hi * Pow2(k);
      assert x == 2 * (hi * Pow2(k - 1));
      OrDisjoint(hi, lo / 2, k - 1);
    }
  }

  /** x shifted left by s bits. */
  function Shl(x: nat, s: nat): (r: nat)
    ensures r == x * Pow2(s)
  {
    if s == 0 then x else 2 * Shl(x, s - 1)
  }

  /** x shifted right by s bits. */
  function Shr(x: nat, s: nat): (r: nat)
    ensures r == x / Pow2(s)
  {
    if s == 0 then x
    else
      var r := Shr(x / 2, s - 1);
      DivDiv(x, 2, Pow2(s - 1));
      r
  }

  /** A mask shifted left by s bits selects the bits of x shifted right by s, shifted back. */
  lemma {:induction false} AndShiftedMask(x: nat, m: nat, s: nat)
    ensures And(x, Shl(m, s)) == Shl(And(Shr(x, s), m), s)
    decreases s
  {
    if s > 0 {
      AndEven(x, Shl(m, s - 1));
      AndShiftedMask(x / 2, m, s - 1);
    }
  }

  lemma AndEven(x: nat, y: nat)
    ensures And(x, 2 * y) == 2 * And(x / 2, y)
  {
    if x != 0 && y != 0 {
      assert (2 * y) % 2 == 0 && (2 * y) / 2 == y;
    }
  }

  /**
   * JavaScript's bitwise operators first wrap their operand to 32 bits; the
   * unsigned bit pattern of an integer x is x modulo 2^32.
   */
  function Bits32(x: int): (r: nat)
    ensures r < Pow2(32)
  {
    x % Pow2(32)
  }

  /**
   * `x & (2^k - 1)` on an arbitrary (possibly negative) integer is x modulo 2^k,
   * the wrap-around the renderer relies on for texture addressing.
   */
  lemma WrapMask(x: int, k: nat)
    requires k <= 32
    ensures And(Bits32(x), Pow2(k) - 1) == x % Pow2(k)
  {
    AndLowMask(Bits32(x), k);
    Pow2Add(k, 32 - k);
    ModOfMultipleMod(x, Pow2(k), Pow2(32 - k));
  }
}
