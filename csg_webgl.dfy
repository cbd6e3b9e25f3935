/**
 * The circle texture of the CSG WebGL view: the circle list is packed into a
 * 128-by-128 RGBA byte texture, one circle per texel, which the fragment
 * shader walks texel by texel.
 */
module CsgWebGL {
  import opened Wrappers
  import opened Raster

  const TextureWidth: nat := 128
  const TextureHeight: nat := 128
  /** Number of texels, hence the largest number of circles the texture holds. */
  const Texels: nat := 16384
  /** Bytes of the texture buffer. */
  const TextureBytes: nat := 65536

  datatype Circle = Circle(x: real, y: real, r: real)

  /** Truncation toward zero, as ECMAScript's ToIntegerOrInfinity does for finite numbers. */
  function Trunc(v: real): (t: int)
    ensures 0.0 <= v ==> t as real <= v < t as real + 1.0
    ensures v < 0.0 ==> t as real - 1.0 < v <= t as real
  {
    if v >= 0.0 then v.Floor else -((-v).Floor)
  }

  /**
   * The conversion a store into a `Uint8Array` applies to a finite number:
   * truncate toward zero, then wrap modulo 256.
   */
  function ToUint8(v: real): (b: Byte)
  {
    Trunc(v) % 256
  }

  /** In range, the stored byte is the number rounded down. */
  lemma ToUint8InRange(v: real)
    requires 0.0 <= v < 256.0
    ensures ToUint8(v) == v.Floor
  {
  }

  /** An integer is stored as its residue modulo 256, negative ones included. */
  lemma ToUint8Wraps(n: int)
    ensures ToUint8(n as real) == n % 256
    ensures ToUint8(n as real) == ToUint8((n + 256) as real)
  {
    assert Trunc(n as real) == n;
    assert Trunc((n + 256) as real) == n + 256;
  }

  /** The four bytes one circle occupies: x, y and r scaled by 255, then a zero. */
  function TexelBytes(c: Circle): (bs: seq<Byte>)
  {
    [ToUint8(c.x * 255.0), ToUint8(c.y * 255.0), ToUint8(c.r * 255.0), 0]
  }

  /** Byte k of the texture built from `circles`. */
  function CircleByte(circles: seq<Circle>, k: nat): Byte
  {
    if k / 4 < |circles| then TexelBytes(circles[k / 4])[k % 4] else 0
  }

  /** The whole texture buffer `makeCircleData` produces. */
  function CircleTexture(circles: seq<Circle>): (t: seq<Byte>)
    ensures |t| == TextureBytes
    ensures forall k :: 0 <= k < TextureBytes && |circles| <= k / 4 ==> t[k] == 0
  {
    seq(TextureBytes, (k: int) requires 0 <= k => CircleByte(circles, k))
  }

  /**
   * The buffer holds 4 * 128 * 128 bytes; circle j, for j below both the
   * number of circles and 16384, sits at bytes 4j .. 4j + 3.
   */
  lemma TextureLayout(circles: seq<Circle>, j: int)
    requires 0 <= j < |circles| && j < Texels
    ensures |CircleTexture(circles)| == 4 * TextureWidth * TextureHeight
    ensures CircleTexture(circles)[4 * j .. 4 * j + 4] == TexelBytes(circles[j])
  {
    var t := CircleTexture(circles);
    forall m | 0 <= m < 4
      ensures t[4 * j + m] == TexelBytes(circles[j])[m]
    {
      assert (4 * j + m) / 4 == j && (4 * j + m) % 4 == m;
    }
  }

  /** Circles beyond the first 16384 have no effect on the texture. */
  lemma TextureIgnoresExtra(circles: seq<Circle>)
    requires |circles| > Texels
    ensures CircleTexture(circles) == CircleTexture(circles[..Texels])
  {
    var a := CircleTexture(circles);
    var b := CircleTexture(circles[..Texels]);
    forall k | 0 <= k < TextureBytes
      ensures a[k] == b[k]
    {
      assert k / 4 < Texels;
    }
  }

  /** Bytes i .. i + 3 of a texel-aligned index all belong to texel i / 4, in order. */
  lemma SameTexel(i: int)
    requires 0 <= i && i % 4 == 0
    ensures forall k :: i <= k < i + 4 ==> k / 4 == i / 4 && k % 4 == k - i
  {
    forall k | i <= k < i + 4
      ensures k / 4 == i / 4 && k % 4 == k - i
    {
      assert k == 4 * (i / 4) + (k - i);
    }
  }

  /** One step of `makeCircleData`: the circle's four bytes go to i .. i + 3, nothing else changes. */
  method WriteTexel(circleData: array<Byte>, i: int, c: Circle)
    requires 0 <= i && i + 4 <= circleData.Length
    modifies circleData
    ensures forall k :: 0 <= k < circleData.Length ==>
      circleData[k] == (if i <= k < i + 4 then TexelBytes(c)[k - i] else old(circleData[k]))
  {
    circleData[i + 0] := ToUint8(c.x * 255.0);
    circleData[i + 1] := ToUint8(c.y * 255.0);
    circleData[i + 2] := ToUint8(c.r * 255.0);
    circleData[i + 3] := 0;
  }

  /**
   * The CSG WebGL renderer's texture state. The GL context is a flag; the
   * texture it would hold is the byte buffer last handed to `texImage2D`.
   */
  class WebGLRenderer {
    const hasGl: bool
    var textureSize: Option<(nat, nat)>
    var uploaded: Option<(nat, nat, seq<Byte>)>

    constructor(hasGl: bool)
      ensures this.hasGl == hasGl
      ensures textureSize == None && uploaded == None
    {
      this.hasGl := hasGl;
      textureSize := None;
      uploaded := None;
    }

    /**
     * `makeCircleData`: steps through the texture four bytes at a time,
     * stopping at the first texel with no circle, writes x, y and r scaled
     * by 255 and a zero byte, and records the texture size.
     */
    method MakeCircleData(circles: seq<Circle>) returns (circleData: array<Byte>, textureWidth: nat, textureHeight: nat)
      modifies this
      ensures fresh(circleData)
      ensures circleData[..] == CircleTexture(circles)
      ensures textureWidth == TextureWidth && textureHeight == TextureHeight
      ensures textureSize == Some((TextureWidth, TextureHeight))
      ensures uploaded == old(uploaded)
    {
      textureWidth := TextureWidth;
      textureHeight := TextureHeight;
      circleData := new Byte[4 * (textureWidth * textureHeight)](_ => 0);
      var i := 0;
      while i < textureWidth * textureHeight * 4
        modifies circleData
        invariant 0 <= i <= TextureBytes && i % 4 == 0
        invariant forall k :: 0 <= k < TextureBytes ==>
          circleData[k] == (if k < i then CircleByte(circles, k) else 0)
      {
        if i / 4 >= |circles| {
          break;
        }
        WriteTexel(circleData, i, circles[i / 4]);
        SameTexel(i);
        i := i + 4;
      }
      assert i == TextureBytes || |circles| <= i / 4;
      forall k | 0 <= k < TextureBytes
        ensures circleData[k] == CircleTexture(circles)[k]
      {
        if k >= i {
          assert |circles| <= k / 4;
        }
      }
      textureSize := Some((textureWidth, textureHeight));
    }

    /** `updateTexture`: without a GL context nothing is uploaded. */
    method UpdateTexture(width: nat, height: nat, data: array<Byte>)
      modifies this
      ensures hasGl ==> uploaded == Some((width, height, data[..]))
      ensures !hasGl ==> uploaded == old(uploaded)
      ensures textureSize == old(textureSize)
    {
      if !hasGl {
        return;
      }
      uploaded := Some((width, height, data[..]));
    }

    /** `updateCircles`: builds the circle texture and uploads it. */
    method UpdateCircles(circles: seq<Circle>)
      modifies this
      ensures textureSize == Some((TextureWidth, TextureHeight))
      ensures hasGl ==> uploaded == Some((TextureWidth, TextureHeight, CircleTexture(circles)))
      ensures !hasGl ==> uploaded == old(uploaded)
    {
      var circleData, textureWidth, textureHeight := MakeCircleData(circles);
      UpdateTexture(textureWidth, textureHeight, circleData);
    }
  }
}
