/**
 * A material's shading palette: 256 colours indexed by 255 times the
 * view-space z of a unit normal, ramping from the ambient colour towards
 * ambient plus diffuse, with an optional brighter specular segment.
 */
module Palette {
  import opened Packed

  /** Entries of the palette; the specular variant switches segment at SpecularStart. */
  const Size: nat := 256
  const SpecularStart: nat := 204

  /**
   * One channel of entry i: ambient plus a fraction of diffuse (a fraction
   * i/256 plainly, i/204 in the first specular segment), or in the second
   * specular segment ambient plus diffuse plus a fraction (i-204)/82 of what
   * diffuse lacks to 255; clamped at 255. JavaScript computes the fraction
   * in floating point and truncates when packing; for non-negative values
   * that is the integer quotient below.
   */
  function Level(ambient: Byte, diffuse: Byte, specular: bool, i: nat): (v: Byte)
    requires i < Size
  {
    var raw :=
      if !specular then ambient + Bits.MulDiv(i, diffuse, 256)
      else if i < SpecularStart then ambient + Bits.MulDiv(i, diffuse, 204)
      else ambient + diffuse + Bits.MulDiv(i - SpecularStart, 255 - diffuse, 82);
    if raw > 255 then 255 else raw
  }

  /** Entry i of the palette: the three channel levels packed as r<<16|g<<8|b. */
  function Entry(ambient: Color, diffuse: Color, specular: bool, i: nat): Color
    requires i < Size
  {
    Rgb(Level(Red(ambient), Red(diffuse), specular, i),
        Level(Green(ambient), Green(diffuse), specular, i),
        Level(Blue(ambient), Blue(diffuse), specular, i))
  }

  /** A quotient n*d/k grows with n. */
  lemma QuotientMono(m: nat, n: nat, d: nat, k: nat)
    requires m <= n && k > 0
    ensures Bits.MulDiv(m, d, k) <= Bits.MulDiv(n, d, k)
  {
    Bits.MulMono(d, m, n);
    Bits.DivMono(m * d, n * d, k);
  }

  /** Each channel level is non-decreasing along the palette, in both variants. */
  lemma LevelMonotone(ambient: Byte, diffuse: Byte, specular: bool, i: nat, j: nat)
    requires i <= j < Size
    ensures Level(ambient, diffuse, specular, i) <= Level(ambient, diffuse, specular, j)
  {
    if !specular {
      QuotientMono(i, j, diffuse, 256);
    } else if j < SpecularStart {
      QuotientMono(i, j, diffuse, 204);
    } else if i >= SpecularStart {
      QuotientMono(i - SpecularStart, j - SpecularStart, 255 - diffuse, 82);
    } else {
      QuotientMono(i, SpecularStart, diffuse, 204);
      assert Bits.MulDiv(SpecularStart, diffuse, 204) == diffuse;
    }
  }

  /** The whole palette as the material's colours determine it. */
  function Ramp(ambient: Color, diffuse: Color, specular: bool): (p: seq<Color>)
    ensures |p| == Size
    ensures forall i | 0 <= i < Size :: p[i] == Entry(ambient, diffuse, specular, i)
  {
    seq(Size, i requires 0 <= i < Size => Entry(ambient, diffuse, specular, i))
  }

  /**
   * The palette's properties: every channel of every entry is at most 255
   * and does not decrease along the palette, and entry 0 is the ambient
   * colour itself.
   */
  lemma RampProperties(ambient: Color, diffuse: Color, specular: bool, i: nat, j: nat)
    requires i <= j < Size
    ensures var p := Ramp(ambient, diffuse, specular);
      && Red(p[i]) <= Red(p[j]) && Green(p[i]) <= Green(p[j]) && Blue(p[i]) <= Blue(p[j])
      && Red(p[j]) <= 255 && Green(p[j]) <= 255 && Blue(p[j]) <= 255
      && p[0] == ambient
  {
    var p := Ramp(ambient, diffuse, specular);
    RgbChannels(Level(Red(ambient), Red(diffuse), specular, i), Level(Green(ambient), Green(diffuse), specular, i),
      Level(Blue(ambient), Blue(diffuse), specular, i));
    RgbChannels(Level(Red(ambient), Red(diffuse), specular, j), Level(Green(ambient), Green(diffuse), specular, j),
      Level(Blue(ambient), Blue(diffuse), specular, j));
    LevelMonotone(Red(ambient), Red(diffuse), specular, i, j);
    LevelMonotone(Green(ambient), Green(diffuse), specular, i, j);
    LevelMonotone(Blue(ambient), Blue(diffuse), specular, i, j);
    RgbOfChannels(ambient);
    assert p[0] == Entry(ambient, diffuse, specular, 0);
  }

  class Material {
    var ambientColor: Color
    var diffuseColor: Color
    /** Fraction of the background that shows through: 0 opaque, 1 invisible. */
    var transparency: real
    var simulateSpecular: bool
    var palette: array?<Color>

    /** Defaults: black ambient, mid-grey diffuse, opaque, no specular ramp, no palette yet. */
    constructor ()
      ensures ambientColor == 0 && diffuseColor == 0x7f7f7f && transparency == 0.0
      ensures !simulateSpecular && palette == null
    {
      ambientColor := 0;
      diffuseColor := 0x7f7f7f;
      transparency := 0.0;
      simulateSpecular := false;
      palette := null;
    }

    predicate Valid()
      reads this
    {
      palette != null ==> palette.Length == Size
    }

    /** Fill the palette: two loops for the specular ramp, one otherwise. */
    method GeneratePalette()
      requires palette != null && palette.Length == Size
      modifies palette
      ensures palette[..] == Ramp(ambientColor, diffuseColor, simulateSpecular)
    {
      var a, d := ambientColor, diffuseColor;
      if simulateSpecular {
        var i := 0;
        while i < SpecularStart
          invariant 0 <= i <= SpecularStart
          invariant forall k | 0 <= k < i :: palette[k] == Entry(a, d, true, k)
        {
          palette[i] := Entry(a, d, true, i);
          i := i + 1;
        }
        while i < Size
          invariant SpecularStart <= i <= Size
          invariant forall k | 0 <= k < i :: palette[k] == Entry(a, d, true, k)
        {
          palette[i] := Entry(a, d, true, i);
          i := i + 1;
        }
      } else {
        var i := 0;
        while i < Size
          invariant 0 <= i <= Size
          invariant forall k | 0 <= k < i :: palette[k] == Entry(a, d, false, k)
        {
          palette[i] := Entry(a, d, false, i);
          i := i + 1;
        }
      }
    }

    /**
     * The palette, generated on first use and kept from then on: a later
     * change of the colours does not regenerate it.
     */
    method GetPalette() returns (p: array<Color>)
      requires Valid()
      modifies this
      ensures Valid() && palette == p && p.Length == Size
      ensures old(palette) != null ==> p == old(palette) && p[..] == old(palette[..])
      ensures old(palette) == null ==>
        fresh(p) && p[..] == Ramp(ambientColor, diffuseColor, simulateSpecular)
      ensures ambientColor == old(ambientColor) && diffuseColor == old(diffuseColor)
      ensures transparency == old(transparency) && simulateSpecular == old(simulateSpecular)
    {
      if palette == null {
        palette := new Color[Size](_ => 0);
        GeneratePalette();
      }
      p := palette;
    }
  }
}
