/**
 * The buffer Shady Business averages shadows into: per pixel, the sunlight
 * flux and the time a point has spent in the sun, summed over the shadow
 * masks of many sun positions, and the RGBA image drawn from either sum.
 */
module FluxBuffers {
  import opened Wrappers
  import opened Raster

  /** Which of the two per-pixel sums. */
  datatype Field = Flux | Time

  /** A colormap's output: red, green and blue in [0, 1] for in-range input. */
  datatype Color = Color(r: real, g: real, b: real)

  /**
   * One call of `accumulate`: the buffer's width and height, its resolution
   * scale, the bytes of the shadow mask, and the sun's flux for this mask.
   */
  datatype Pass = Pass(width: nat, height: nat, resolutionScale: real, data: seq<Byte>, flux: real)

  /** The columns past width - 40 * resolutionScale carry the colour bar. */
  predicate InStrip(p: Pass, j: nat) {
    (j as real) > (p.width as real) - 40.0 * p.resolutionScale
  }

  /** Row i of the colour bar is weighted 1 - i / height. */
  function RowWeight(i: nat, height: nat): real
    requires height > 0
  {
    1.0 - (i as real) / (height as real)
  }

  /**
   * The alpha byte of pixel `ind` of the shadow mask; a read past the end
   * of the mask gives nothing, which compares below 255 as false.
   */
  function MaskAlpha(data: seq<Byte>, ind: nat): Option<Byte> {
    if ind * 4 + 3 < |data| then Some(data[ind * 4 + 3]) else None
  }

  /** A pixel the shadow pass left clear (alpha below 255) is lit. */
  predicate Lit(data: seq<Byte>, ind: nat) {
    MaskAlpha(data, ind).Some? && MaskAlpha(data, ind).value < 255
  }

  /** What one pass adds to a lit pixel: the flux, or one unit of time. */
  function Amount(field: Field, flux: real): real {
    match field
    case Flux => flux
    case Time => 1.0
  }

  /**
   * What one pass adds to pixel (i, j), entry k of the buffer: the colour
   * bar gains the row's weight whatever the mask says; elsewhere a lit pixel
   * gains the full amount and a shadowed one (alpha 255, or beyond the mask)
   * gains nothing.
   */
  function PixelGain(field: Field, p: Pass, i: nat, j: nat, k: nat): (r: real)
    requires p.height > 0
    ensures i < p.height && Amount(field, p.flux) >= 0.0 ==> 0.0 <= r <= Amount(field, p.flux)
  {
    if InStrip(p, j) then
      if i < p.height && Amount(field, p.flux) >= 0.0 then
        var w := RowWeight(i, p.height);
        var a := Amount(field, p.flux);
        RowWeightRange(i, p.height);
        ScaledDown(w, a);
        assert 0.0 <= w * a <= a;
        w * a
      else RowWeight(i, p.height) * Amount(field, p.flux)
    else if Lit(p.data, k) then Amount(field, p.flux)
    else 0.0
  }

  /** The three cases of `PixelGain`, for both sums. */
  lemma PixelGainCases(p: Pass, i: nat, j: nat, k: nat)
    requires p.height > 0
    ensures var gf := PixelGain(Flux, p, i, j, k);
      var gt := PixelGain(Time, p, i, j, k);
      (InStrip(p, j) ==> gf == RowWeight(i, p.height) * p.flux && gt == RowWeight(i, p.height)) &&
      (!InStrip(p, j) && Lit(p.data, k) ==> gf == p.flux && gt == 1.0) &&
      (!InStrip(p, j) && !Lit(p.data, k) ==> gf == 0.0 && gt == 0.0)
  {
  }

  /** The row of entry k in rows of `width` entries: k / width, counted out by subtraction. */
  function EntryRow(k: nat, width: nat): nat
    requires width > 0
  {
    if k < width then 0 else EntryRow(k - width, width) + 1
  }

  /** The column of entry k: k % width. */
  function EntryColumn(k: nat, width: nat): (j: nat)
    requires width > 0
    ensures j < width
  {
    if k < width then k else EntryColumn(k - width, width)
  }

  /** Where row i starts in rows of `width` entries: i * width, counted out by addition. */
  function RowOffset(i: nat, width: nat): nat {
    if i == 0 then 0 else RowOffset(i - 1, width) + width
  }

  /** The row offset is the product the source computes. */
  lemma {:induction false} RowOffsetIsProduct(i: nat, width: nat)
    ensures RowOffset(i, width) == i * width
  {
    if i > 0 {
      RowOffsetIsProduct(i - 1, width);
      assert i * width == (i - 1) * width + width;
    }
  }

  /** Entry RowOffset(i, width) + j is row i, column j. */
  lemma {:induction false} EntryRowColumn(i: nat, j: nat, width: nat)
    requires j < width
    ensures EntryRow(RowOffset(i, width) + j, width) == i && EntryColumn(RowOffset(i, width) + j, width) == j
  {
    if i > 0 {
      EntryRowColumn(i - 1, j, width);
    }
  }

  /** Within a row, entry start + j is column j of the row that starts at `start`. */
  lemma {:induction false} RowShift(start: nat, j: nat, width: nat)
    requires width > 0 && EntryColumn(start, width) == 0 && j < width
    ensures EntryRow(start + j, width) == EntryRow(start, width) && EntryColumn(start + j, width) == j
    decreases start
  {
    if start >= width {
      RowShift(start - width, j, width);
    }
  }

  /** What one pass adds to entry k, pixel (k / width, k % width) in row-major order. */
  function Gain(field: Field, p: Pass, k: nat): real {
    if p.width == 0 || p.height == 0 then 0.0
    else PixelGain(field, p, EntryRow(k, p.width), EntryColumn(k, p.width), k)
  }

  /** The sum `before` once the pass has reached entry `upTo`: entries below it have their gain added. */
  function Passed(field: Field, p: Pass, before: seq<real>, upTo: nat): (now: seq<real>)
    ensures |now| == |before|
  {
    seq(|before|, k requires 0 <= k < |before| => if k < upTo then before[k] + Gain(field, p, k) else before[k])
  }

  /**
   * The pass at pixel (i, j) of a sum that has reached its entry k: adding
   * the pixel's gain there takes the sum one entry further.
   */
  lemma PixelStep(field: Field, p: Pass, before: seq<real>, now: seq<real>, i: nat, j: nat, k: nat)
    requires p.width > 0 && p.height > 0 && EntryRow(k, p.width) == i && EntryColumn(k, p.width) == j
    requires k < |before| && now == Passed(field, p, before, k)
    ensures now[k := now[k] + PixelGain(field, p, i, j, k)] == Passed(field, p, before, k + 1)
  {
    var next := Passed(field, p, before, k + 1);
    var stepped := now[k := now[k] + PixelGain(field, p, i, j, k)];
    forall m | 0 <= m < |before| ensures stepped[m] == next[m] {
    }
    assert stepped == next;
  }

  /** Row i of a width-by-height buffer ends inside it. */
  lemma RowFits(i: nat, width: nat, height: nat)
    requires i < height
    ensures RowOffset(i, width) + width <= width * height
  {
    RowOffsetIsProduct(i, width);
    MulAtLeast(height - i, width + 1);
    assert (height - i) * width == height * width - i * width;
  }

  /**
   * Entry i * width + j of the buffer is pixel (i, j), in row-major order,
   * and lies inside the buffer.
   */
  lemma GainAt(field: Field, p: Pass, i: nat, j: nat)
    requires i < p.height && j < p.width
    ensures i * p.width + j < p.width * p.height
    ensures Gain(field, p, i * p.width + j) == PixelGain(field, p, i, j, i * p.width + j)
  {
    EntryRowColumn(i, j, p.width);
    RowFits(i, p.width, p.height);
    RowOffsetIsProduct(i, p.width);
  }

  /** A shadow mask of the buffer's own size reaches every pixel's alpha byte. */
  lemma MaskCoversBuffer(data: seq<Byte>, width: nat, height: nat, k: nat)
    requires |data| == 4 * width * height && k < width * height
    ensures MaskAlpha(data, k) == Some(data[k * 4 + 3])
  {
    assert k * 4 + 4 <= 4 * width * height by {
      assert (k + 1) * 4 <= (width * height) * 4;
    }
  }

  /** Every entry of a width-by-height buffer lies in one of its rows. */
  lemma {:induction false} EntryRowBound(k: nat, width: nat, height: nat)
    requires width > 0 && k < width * height
    ensures EntryRow(k, width) < height
    decreases k
  {
    if k >= width {
      assert k - width < width * (height - 1);
      EntryRowBound(k - width, width, height - 1);
    }
  }

  /** The colour bar's weights fall from 1 at the top row towards 0, never reaching it. */
  lemma RowWeightRange(i: nat, height: nat)
    requires i < height
    ensures 0.0 < RowWeight(i, height) <= 1.0
  {
    assert (i as real) / (height as real) < 1.0;
  }

  /** One pass adds at least nothing and at most the full amount to an entry of the buffer. */
  lemma GainBounds(field: Field, p: Pass, k: nat)
    requires k < p.width * p.height && Amount(field, p.flux) >= 0.0
    ensures 0.0 <= Gain(field, p, k) <= Amount(field, p.flux)
  {
    var i := EntryRow(k, p.width);
    EntryRowBound(k, p.width, p.height);
    if InStrip(p, EntryColumn(k, p.width)) {
      RowWeightRange(i, p.height);
      ScaledDown(RowWeight(i, p.height), Amount(field, p.flux));
    }
  }

  /** A weight in [0, 1] scales a non-negative amount into [0, amount]. */
  lemma ScaledDown(w: real, a: real)
    requires 0.0 <= w <= 1.0 && 0.0 <= a
    ensures 0.0 <= w * a <= a
  {
    assert w * a <= 1.0 * a;
  }

  /**
   * Each sum stays between 0 and its maximum: a pass adds at most the
   * amount the maximum grows by, so the ratios drawn stay in [0, 1] as long
   * as the sun's flux is never negative.
   */
  lemma PassedBounded(field: Field, p: Pass, before: seq<real>, max: real)
    requires |before| == p.width * p.height && Amount(field, p.flux) >= 0.0
    requires forall k :: 0 <= k < |before| ==> 0.0 <= before[k] <= max
    ensures forall k :: 0 <= k < |before| ==>
      0.0 <= Passed(field, p, before, |before|)[k] <= max + Amount(field, p.flux)
  {
    forall k | 0 <= k < |before|
      ensures 0.0 <= Passed(field, p, before, |before|)[k] <= max + Amount(field, p.flux)
    {
      GainBounds(field, p, k);
    }
  }

  /**
   * `Uint8ClampedArray` storage of a number: below 0 gives 0, above 255
   * gives 255, and in between the nearest integer, halves going to the even one.
   */
  function Clamp(x: real): (b: Byte)
    ensures x <= 0.0 ==> b == 0
    ensures x >= 255.0 ==> b == 255
    ensures 0.0 <= x <= 255.0 ==> -0.5 <= (b as real) - x <= 0.5
  {
    if x <= 0.0 then 0
    else if x >= 255.0 then 255
    else
      var f := x.Floor;
      if (f as real) + 0.5 < x then f + 1
      else if x < (f as real) + 0.5 then f
      else if f % 2 == 0 then f
      else f + 1
  }

  /** Whole numbers in range are stored as they are. */
  lemma ClampWhole(n: int)
    requires 0 <= n <= 255
    ensures Clamp(n as real) == n
  {
  }

  /** The four bytes of one pixel: the colour scaled to 0..255, then an opaque alpha. */
  function Rgba(c: Color): (px: seq<Byte>)
    ensures |px| == 4 && px[3] == 255
  {
    [Clamp(c.r * 255.0), Clamp(c.g * 255.0), Clamp(c.b * 255.0), 255]
  }

  /**
   * The quotient a pixel's sum is coloured by; a zero denominator (no pass
   * yet, or no flux) gives IEEE's non-finite quotient, written None.
   */
  function Quotient(a: real, b: real): Option<real> {
    if b == 0.0 then None else Some(a / b)
  }

  /** The colour of pixel p: its value over the maximum, through the colormap. */
  function PixelColor(values: seq<real>, max: real, colormap: Option<real> -> Color, p: nat): Color
    requires p < |values|
  {
    colormap(Quotient(values[p], max))
  }

  /** Byte b of the image: byte b % 4 of pixel b / 4. */
  function ImageByte(values: seq<real>, max: real, colormap: Option<real> -> Color, b: nat): Byte
    requires b < 4 * |values|
  {
    Rgba(PixelColor(values, max, colormap, b / 4))[b % 4]
  }

  /** The image bytes for `values` scaled by `max` through `colormap`, four per value. */
  function ImageBytes(values: seq<real>, max: real, colormap: Option<real> -> Color): (img: seq<Byte>)
    ensures |img| == 4 * |values|
  {
    seq(4 * |values|, b requires 0 <= b < 4 * |values| => ImageByte(values, max, colormap, b))
  }

  /** Pixel p of the image is the four bytes of value p's colour, the last an alpha of 255. */
  lemma ImageBytesLayout(values: seq<real>, max: real, colormap: Option<real> -> Color, p: nat)
    requires p < |values|
    ensures ImageBytes(values, max, colormap)[4 * p .. 4 * p + 4] == Rgba(colormap(Quotient(values[p], max)))
    ensures ImageBytes(values, max, colormap)[4 * p + 3] == 255
  {
    var img := ImageBytes(values, max, colormap);
    var px := Rgba(colormap(Quotient(values[p], max)));
    forall c | 0 <= c < 4 ensures img[4 * p + c] == px[c] {
      assert (4 * p + c) / 4 == p && (4 * p + c) % 4 == c;
    }
    assert img[4 * p .. 4 * p + 4] == px;
  }

  /** Bytes 4i .. 4i + 3 of the image are the four bytes of pixel i. */
  lemma PixelBytes(values: seq<real>, max: real, colormap: Option<real> -> Color, i: nat)
    requires i < |values|
    ensures forall b :: 4 * i <= b < 4 * i + 4 ==>
      ImageByte(values, max, colormap, b) == Rgba(PixelColor(values, max, colormap, i))[b - 4 * i]
  {
    forall b | 4 * i <= b < 4 * i + 4
      ensures ImageByte(values, max, colormap, b) == Rgba(PixelColor(values, max, colormap, i))[b - 4 * i]
    {
      assert b / 4 == i && b % 4 == b - 4 * i;
    }
  }

  /** Bytes 4i .. 4i + 3 of the image take the pixel's colour and an opaque alpha; the rest stay. */
  method WritePixel(imageBuffer: array<Byte>, i: nat, color: Color)
    requires 4 * i + 4 <= imageBuffer.Length
    modifies imageBuffer
    ensures forall b :: 0 <= b < imageBuffer.Length ==>
      imageBuffer[b] == if 4 * i <= b < 4 * i + 4 then Rgba(color)[b - 4 * i] else old(imageBuffer[b])
  {
    imageBuffer[i * 4] := Clamp(color.r * 255.0);
    imageBuffer[i * 4 + 1] := Clamp(color.g * 255.0);
    imageBuffer[i * 4 + 2] := Clamp(color.b * 255.0);
    imageBuffer[i * 4 + 3] := 255;
  }

  class FluxBuffer {
    const width: nat
    const height: nat
    const resolutionScale: real
    const flux: array<real>
    const time: array<real>
    var maxFlux: real
    var maxTime: real

    ghost predicate Valid()
      reads this
    {
      flux.Length == width * height && time.Length == width * height && flux != time
    }

    /** Both sums start as width * height zeros, as do their maxima. */
    constructor(width: nat, height: nat, resolutionScale: real)
      ensures Valid()
      ensures this.width == width && this.height == height && this.resolutionScale == resolutionScale
      ensures maxFlux == 0.0 && maxTime == 0.0
      ensures forall k :: 0 <= k < flux.Length ==> flux[k] == 0.0
      ensures forall k :: 0 <= k < time.Length ==> time[k] == 0.0
      ensures fresh(flux) && fresh(time)
    {
      this.width := width;
      this.height := height;
      this.resolutionScale := resolutionScale;
      flux := new real[width * height](_ => 0.0);
      time := new real[width * height](_ => 0.0);
      maxFlux := 0.0;
      maxTime := 0.0;
    }

    /**
     * Add one shadow mask, taken with the sun giving `sunFlux` (the sine of
     * its elevation). A mask of other dimensions is only reported; the pass
     * still runs over the buffer's own pixels.
     */
    method Accumulate(maskWidth: nat, maskHeight: nat, data: seq<Byte>, sunFlux: real)
      returns (logged: bool)
      requires Valid()
      modifies this, flux, time
      ensures Valid()
      ensures logged <==> (maskWidth != width || maskHeight != height)
      ensures maxFlux == old(maxFlux) + sunFlux && maxTime == old(maxTime) + 1.0
      ensures flux[..] == Passed(Flux, Pass(width, height, resolutionScale, data, sunFlux), old(flux[..]), width * height)
      ensures time[..] == Passed(Time, Pass(width, height, resolutionScale, data, sunFlux), old(time[..]), width * height)
    {
      logged := maskWidth != width || maskHeight != height;
      maxFlux := maxFlux + sunFlux;
      maxTime := maxTime + 1.0;
      AccumulateRows(data, sunFlux);
    }

    /** The outer loop of the pass: every row of the buffer, top to bottom. */
    method AccumulateRows(data: seq<Byte>, sunFlux: real)
      requires Valid()
      modifies flux, time
      ensures flux[..] == Passed(Flux, Pass(width, height, resolutionScale, data, sunFlux), old(flux[..]), width * height)
      ensures time[..] == Passed(Time, Pass(width, height, resolutionScale, data, sunFlux), old(time[..]), width * height)
    {
      ghost var p := Pass(width, height, resolutionScale, data, sunFlux);
      ghost var flux0 := flux[..];
      ghost var time0 := time[..];
      // i * width, kept as a running sum
      var rowStart := 0;
      for i := 0 to height
        invariant rowStart == RowOffset(i, width) && rowStart <= |flux0|
        invariant flux[..] == Passed(Flux, p, flux0, rowStart)
        invariant time[..] == Passed(Time, p, time0, rowStart)
      {
        RowFits(i, width, height);
        if width > 0 {
          EntryRowColumn(i, 0, width);
        }
        AccumulateRow(i, rowStart, data, sunFlux, flux0, time0);
        rowStart := rowStart + width;
      }
      RowOffsetIsProduct(height, width);
    }

    /** The inner loop of the pass: row i, which starts at entry `rowStart`, column by column. */
    method AccumulateRow(i: nat, rowStart: nat, data: seq<Byte>, sunFlux: real,
                         ghost flux0: seq<real>, ghost time0: seq<real>)
      requires Valid() && i < height && |flux0| == |time0| == flux.Length && rowStart + width <= flux.Length
      requires width > 0 ==> EntryRow(rowStart, width) == i && EntryColumn(rowStart, width) == 0
      requires flux[..] == Passed(Flux, Pass(width, height, resolutionScale, data, sunFlux), flux0, rowStart)
      requires time[..] == Passed(Time, Pass(width, height, resolutionScale, data, sunFlux), time0, rowStart)
      modifies flux, time
      ensures flux[..] == Passed(Flux, Pass(width, height, resolutionScale, data, sunFlux), flux0, rowStart + width)
      ensures time[..] == Passed(Time, Pass(width, height, resolutionScale, data, sunFlux), time0, rowStart + width)
    {
      ghost var p := Pass(width, height, resolutionScale, data, sunFlux);
      for j := 0 to width
        invariant flux[..] == Passed(Flux, p, flux0, rowStart + j)
        invariant time[..] == Passed(Time, p, time0, rowStart + j)
      {
        var ourInd := rowStart + j;
        RowShift(rowStart, j, width);
        PixelStep(Flux, p, flux0, flux[..], i, j, ourInd);
        PixelStep(Time, p, time0, time[..], i, j, ourInd);
        AccumulatePixel(i, j, ourInd, data, sunFlux);
      }
    }

    /** The body of the pass at pixel (i, j), entry `ourInd`, in place on both sums. */
    method AccumulatePixel(i: nat, j: nat, ourInd: nat, data: seq<Byte>, sunFlux: real)
      requires Valid() && i < height && j < width && ourInd < flux.Length
      modifies flux, time
      ensures flux[..] == old(flux[..])[ourInd := old(flux[ourInd])
                            + PixelGain(Flux, Pass(width, height, resolutionScale, data, sunFlux), i, j, ourInd)]
      ensures time[..] == old(time[..])[ourInd := old(time[ourInd])
                            + PixelGain(Time, Pass(width, height, resolutionScale, data, sunFlux), i, j, ourInd)]
    {
      var p := Pass(width, height, resolutionScale, data, sunFlux);
      PixelGainCases(p, i, j, ourInd);
      var a := MaskAlpha(data, ourInd);
      var addFlux, addTime := 0.0, 0.0;
      if InStrip(p, j) {
        addFlux, addTime := RowWeight(i, height) * sunFlux, RowWeight(i, height);
      } else if a.Some? && a.value < 255 {
        addFlux, addTime := sunFlux, 1.0;
      }
      assert addFlux == PixelGain(Flux, p, i, j, ourInd) && addTime == PixelGain(Time, p, i, j, ourInd);
      flux[ourInd] := flux[ourInd] + addFlux;
      time[ourInd] := time[ourInd] + addTime;
    }

    /**
     * The RGBA bytes of the chosen sum, each pixel's value divided by the
     * sum's maximum and coloured by the chosen colormap, alpha 255.
     */
    method ToImageData(plotType: string, colormapName: string,
                       viridis: Option<real> -> Color, spectral: Option<real> -> Color)
      returns (imageBuffer: array<Byte>)
      requires Valid()
      ensures fresh(imageBuffer)
      ensures imageBuffer[..] == ImageBytes(if plotType == "time" then time[..] else flux[..],
                                            if plotType == "time" then maxTime else maxFlux,
                                            if colormapName == "viridis" then viridis else spectral)
    {
      var n := width * height;
      imageBuffer := new Byte[n * 4];
      var colormap := if colormapName == "viridis" then viridis else spectral;
      // the choice of sum, made once rather than per pixel
      var values := if plotType == "time" then time[..] else flux[..];
      var max := if plotType == "time" then maxTime else maxFlux;
      for i := 0 to n
        invariant forall b :: 0 <= b < 4 * i ==> imageBuffer[b] == ImageByte(values, max, colormap, b)
      {
        var color := PixelColor(values, max, colormap, i);
        WritePixel(imageBuffer, i, color);
        PixelBytes(values, max, colormap, i);
      }
      assert imageBuffer[..] == ImageBytes(values, max, colormap);
    }
  }
}
