/** The browser-side stand-ins of components/image-processor.tsx: the three
    quantisers that copy an RGBA buffer and round its colour samples to a
    step, and `calculateMetrics`, which compares two buffers. */
module ImageProcessor {
  import opened Common

  /** A canvas `ImageData`: four bytes (red, green, blue, alpha) for each of
      `width * height` pixels, held in a `Uint8ClampedArray`. */
  class ImageData {
    const width: nat
    const height: nat
    const data: array<Byte>

    ghost predicate Valid()
      reads this
    {
      data.Length == 4 * width * height
    }

    /** `new ImageData(new Uint8ClampedArray(source.data), source.width,
        source.height)`: a copy that shares no storage with `source`. */
    constructor Copy(source: ImageData)
      requires source.Valid()
      ensures Valid() && width == source.width && height == source.height
      ensures fresh(data) && data[..] == source.data[..]
    {
      width, height := source.width, source.height;
      data := new Byte[source.data.Length](i reads source.data =>
        if 0 <= i < source.data.Length then source.data[i] else 0);
    }
  }

  /** A buffer of whole pixels. */
  lemma WholePixels(image: ImageData)
    requires image.Valid()
    ensures image.data.Length % 4 == 0
  {
    assert image.data.Length == 4 * (image.width * image.height);
  }

  /** A step of four from a pixel boundary stays inside a buffer of whole
      pixels. */
  lemma StepFits(i: int, n: int)
    requires 0 <= i < n && i % 4 == 0 && n % 4 == 0
    ensures i + 4 <= n && (i + 4) % 4 == 0
  {
  }

  /** Byte `j` of the pixel at `i` is channel `j`. */
  lemma ModStep(i: int, j: int)
    requires i % 4 == 0 && 0 <= j < 4
    ensures (i + j) % 4 == j
  {
  }

  // ---------------------------------------------------------------------------
  // Quantisation

  /** `Math.round(v / q) * q` stored into a `Uint8ClampedArray`. For a
      non-negative quotient `Math.round(x)` is `floor(x + 1/2)`, which is
      `(2v + q) / (2q)` in integer division; the store clamps at 255. */
  function QuantiseSample(v: Byte, q: nat): Byte
    requires q >= 1
  {
    Min(255, ((2 * v + q) / (2 * q)) * q)
  }

  /** What a quantiser leaves in the buffer: every red, green and blue
      sample quantised, every alpha sample (index 3 of each pixel) as it
      was. */
  function Quantised(s: seq<Byte>, q: nat): (r: seq<Byte>)
    requires q >= 1
    ensures |r| == |s|
  {
    seq(|s|, k requires 0 <= k < |s| => if k % 4 == 3 then s[k] else QuantiseSample(s[k], q))
  }

  /** The copy-then-quantise loop shared by the three stand-ins: step
      through the copy four bytes at a time and overwrite bytes `i`, `i+1`
      and `i+2`. The input image is not touched. */
  method Quantise(image: ImageData, q: nat) returns (result: ImageData)
    requires image.Valid() && q >= 1
    ensures fresh(result) && fresh(result.data)
    ensures result.Valid() && result.width == image.width && result.height == image.height
    ensures result.data[..] == Quantised(image.data[..], q)
    ensures image.data[..] == old(image.data[..])
  {
    result := new ImageData.Copy(image);
    WholePixels(result);
    ghost var source := image.data[..];
    ghost var target := Quantised(source, q);
    var n := result.data.Length;
    var i := 0;
    while i < n
      invariant 0 <= i <= n && i % 4 == 0
      invariant forall k :: 0 <= k < i ==> result.data[k] == target[k]
      invariant forall k :: i <= k < n ==> result.data[k] == source[k]
      modifies result.data
    {
      StepFits(i, n);
      ModStep(i, 0);
      ModStep(i, 1);
      ModStep(i, 2);
      ModStep(i, 3);
      result.data[i] := QuantiseSample(result.data[i], q);
      result.data[i + 1] := QuantiseSample(result.data[i + 1], q);
      result.data[i + 2] := QuantiseSample(result.data[i + 2], q);
      i := i + 4;
    }
    assert result.data[..] == target;
  }

  /** `applyHuffmanCompression`: quantise with step 10. */
  method ApplyHuffmanCompression(image: ImageData) returns (result: ImageData)
    requires image.Valid()
    ensures fresh(result) && fresh(result.data)
    ensures result.Valid() && result.width == image.width && result.height == image.height
    ensures result.data[..] == Quantised(image.data[..], 10)
  {
    result := Quantise(image, 10);
  }

  /** `applyRLECompression`: quantise with step 20. */
  method ApplyRLECompression(image: ImageData) returns (result: ImageData)
    requires image.Valid()
    ensures fresh(result) && fresh(result.data)
    ensures result.Valid() && result.width == image.width && result.height == image.height
    ensures result.data[..] == Quantised(image.data[..], 20)
  {
    result := Quantise(image, 20);
  }

  /** `Math.max(1, Math.round(level / 10))`, with `Math.round(level / 10)`
      as `floor((2 level + 10) / 20)`. */
  function DctStep(level: int): (q: int)
    ensures q >= 1
    ensures level >= 5 ==> q == (level + 5) / 10
  {
    Max(1, (2 * level + 10) / 20)
  }

  /** `applyDCTCompression`: quantise with the step of the level. */
  method ApplyDCTCompression(image: ImageData, level: int) returns (result: ImageData)
    requires image.Valid()
    ensures fresh(result) && fresh(result.data)
    ensures result.Valid() && result.width == image.width && result.height == image.height
    ensures result.data[..] == Quantised(image.data[..], DctStep(level))
  {
    result := Quantise(image, DctStep(level));
  }

  /** Over the slider's levels 10 to 90 the step runs from 1 to 9, and it
      never falls as the level rises. */
  lemma DctStepRange(level1: int, level2: int)
    requires level1 <= level2
    ensures DctStep(level1) <= DctStep(level2)
    ensures 10 <= level1 <= 90 ==> 1 <= DctStep(level1) <= 9
  {
    DivMonotone(2 * level1 + 10, 2 * level2 + 10, 20);
  }

  /** Integer division recovers a factor from bounds on the dividend. */
  lemma DivByBounds(x: int, d: int, m: int)
    requires d > 0 && d * m <= x < d * m + d
    ensures x / d == m
  {
    var r := x / d;
    assert d * r <= x < d * r + d;
    LessOfProducts(m, r + 1, d);
    LessOfProducts(r, m + 1, d);
  }

  /** `Math.round(v / q) * q` is the multiple of `q` nearest to `v`: it lies
      within half a step of `v`. */
  lemma NearestMultiple(v: nat, q: nat)
    requires q >= 1
    ensures var m := (2 * v + q) / (2 * q);
      2 * (m * q) <= 2 * v + q && 2 * v < 2 * (m * q) + q
  {
    var m := (2 * v + q) / (2 * q);
    assert (2 * q) * m <= 2 * v + q < (2 * q) * m + 2 * q;
    assert (2 * q) * m == 2 * (m * q);
  }

  /** A quantised sample is within half a step of the input, and is a
      multiple of the step unless the store clamped it to 255. */
  lemma SampleError(v: Byte, q: nat)
    requires q >= 1
    ensures 2 * (QuantiseSample(v, q) as int - v) <= q && 2 * (v as int - QuantiseSample(v, q)) <= q
    ensures QuantiseSample(v, q) % q == 0 || QuantiseSample(v, q) == 255
  {
    var m := (2 * v + q) / (2 * q);
    var p := m * q;
    NearestMultiple(v, q);
    MultipleMod(m, q);
    assert QuantiseSample(v, q) == Min(255, p);
  }

  lemma MultipleMod(m: int, q: int)
    requires q >= 1
    ensures (m * q) % q == 0
  {
    DivByBounds(m * q, q, m);
  }

  /** Quantising a quantised sample changes nothing. */
  lemma SampleIdempotent(v: Byte, q: nat)
    requires q >= 1
    ensures QuantiseSample(QuantiseSample(v, q), q) == QuantiseSample(v, q)
  {
    var m := (2 * v + q) / (2 * q);
    var r := QuantiseSample(v, q);
    if m * q <= 255 {
      assert r == m * q;
      assert 2 * r + q == (2 * q) * m + q;
      DivByBounds(2 * r + q, 2 * q, m);
    } else {
      assert r == 255;
      DivMonotone(2 * v + q, 2 * 255 + q, 2 * q);
      var m' := (2 * 255 + q) / (2 * q);
      assert m' * q >= m * q by {
        MulMonotone(m, m', q);
      }
    }
  }

  lemma MulMonotone(a: nat, b: nat, q: nat)
    requires a <= b
    ensures a * q <= b * q
  {
  }

  /** The quantisers keep every alpha sample, leave every colour sample
      within half a step of its input and on a multiple of the step or 255,
      and applying one twice is applying it once. */
  lemma QuantisedFacts(s: seq<Byte>, q: nat)
    requires q >= 1
    ensures forall k | 0 <= k < |s| && k % 4 == 3 :: Quantised(s, q)[k] == s[k]
    ensures forall k | 0 <= k < |s| && k % 4 != 3 ::
      2 * (Quantised(s, q)[k] as int - s[k]) <= q && 2 * (s[k] as int - Quantised(s, q)[k]) <= q &&
      (Quantised(s, q)[k] % q == 0 || Quantised(s, q)[k] == 255)
    ensures Quantised(Quantised(s, q), q) == Quantised(s, q)
  {
    var r := Quantised(s, q);
    forall k | 0 <= k < |s| && k % 4 != 3
      ensures 2 * (r[k] as int - s[k]) <= q && 2 * (s[k] as int - r[k]) <= q && (r[k] % q == 0 || r[k] == 255)
      ensures Quantised(r, q)[k] == r[k]
    {
      SampleError(s[k], q);
      SampleIdempotent(s[k], q);
    }
    assert Quantised(r, q) == r;
  }

  // ---------------------------------------------------------------------------
  // Metrics

  function Square(x: int): nat {
    x * x
  }

  /** The sum of the squared differences of the red, green and blue samples
      among the first `n` bytes; alpha samples add nothing. */
  function SquaredDiffs(o: seq<Byte>, c: seq<Byte>, n: nat): nat
    requires n <= |o| && n <= |c|
  {
    if n == 0 then 0
    else SquaredDiffs(o, c, n - 1) + (if (n - 1) % 4 == 3 then 0 else Square(o[n - 1] as int - c[n - 1] as int))
  }

  /** The MSE as JavaScript computes it: a number, or NaN for `0 / 0`. */
  datatype Mse = Mse(value: real) | MseNaN

  /** The PSNR: the sentinel 100 for a zero MSE, `20 * log10(255 / sqrt(mse))`
      (not evaluated here) for a positive one, NaN when the MSE is NaN. */
  datatype Psnr = Sentinel | FromLog(mse: real) | PsnrNaN

  datatype Metrics = Metrics(mse: Mse, psnr: Psnr)

  /** `calculateMetrics`: compare the first `min` of the two lengths, divide
      by three colour values per pixel, and use the sentinel when the MSE is
      exactly zero. When that length leaves one or two bytes over a whole
      number of pixels, the last pass of the loop reads `data[length]` of the
      shorter buffer, which is `undefined`, so the sum, the MSE and the PSNR
      are NaN; an empty comparison gives `0 / 0`, also NaN. */
  function MetricsOf(o: seq<Byte>, c: seq<Byte>): (m: Metrics)
    ensures m.psnr == Sentinel <==> m.mse == Mse(0.0)
    ensures ReadsPastEnd(Min(|o|, |c|)) <==> m == Metrics(MseNaN, PsnrNaN)
    ensures m.mse.Mse? ==> m.mse.value >= 0.0
  {
    var length := Min(|o|, |c|);
    if ReadsPastEnd(length) then Metrics(MseNaN, PsnrNaN)
    else
      var mse := SquaredDiffs(o, c, length) as real / ((length as real / 4.0) * 3.0);
      Metrics(Mse(mse), if mse == 0.0 then Sentinel else FromLog(mse))
  }

  /** The comparison of the first `length` bytes has no number: it is empty,
      or its last pixel lacks its green or blue byte. */
  predicate ReadsPastEnd(length: nat) {
    length == 0 || length % 4 == 1 || length % 4 == 2
  }

  /** The nested loop of `calculateMetrics`. */
  method CalculateMetrics(original: ImageData, compressed: ImageData) returns (m: Metrics)
    requires original.Valid() && compressed.Valid()
    ensures m == MetricsOf(original.data[..], compressed.data[..])
  {
    WholePixels(original);
    WholePixels(compressed);
    var sumSquaredDiff := 0;
    var length := Min(original.data.Length, compressed.data.Length);
    ghost var o, c := original.data[..], compressed.data[..];
    var i := 0;
    while i < length
      invariant 0 <= i <= length && i % 4 == 0
      invariant sumSquaredDiff == SquaredDiffs(o, c, i)
    {
      StepFits(i, length);
      for j := 0 to 3
        invariant sumSquaredDiff == SquaredDiffs(o, c, i + j)
      {
        ModStep(i, j);
        var diff := original.data[i + j] as int - compressed.data[i + j] as int;
        sumSquaredDiff := sumSquaredDiff + diff * diff;
      }
      ModStep(i, 3);
      i := i + 4;
    }
    if length == 0 {
      return Metrics(MseNaN, PsnrNaN);
    }
    assert length % 4 == 0;
    var pixelCount := (length as real / 4.0) * 3.0;
    var mse := sumSquaredDiff as real / pixelCount;
    m := Metrics(Mse(mse), if mse == 0.0 then Sentinel else FromLog(mse));
  }

  /** The squared differences vanish exactly when the colour samples agree. */
  lemma {:induction false} SquaredDiffsZero(o: seq<Byte>, c: seq<Byte>, n: nat)
    requires n <= |o| && n <= |c|
    ensures SquaredDiffs(o, c, n) == 0 <==> forall k | 0 <= k < n && k % 4 != 3 :: o[k] == c[k]
  {
    if n > 0 {
      var k := n - 1;
      SquaredDiffsZero(o, c, k);
      SquareZero(o[k] as int - c[k] as int);
    }
  }

  lemma SquareZero(x: int)
    ensures Square(x) == 0 <==> x == 0
  {
    if x != 0 {
      MulMonotone(1, if x < 0 then -x else x, if x < 0 then -x else x);
    }
  }

  /** Over non-empty buffers the MSE is zero, and the PSNR the sentinel 100,
      exactly when every compared red, green and blue sample is equal. */
  lemma MseZeroIff(o: seq<Byte>, c: seq<Byte>)
    requires Min(|o|, |c|) > 0
    ensures MetricsOf(o, c).mse == Mse(0.0) <==>
      !ReadsPastEnd(Min(|o|, |c|)) &&
      forall k | 0 <= k < Min(|o|, |c|) && k % 4 != 3 :: o[k] == c[k]
    ensures MetricsOf(o, c).psnr == Sentinel <==>
      !ReadsPastEnd(Min(|o|, |c|)) &&
      forall k | 0 <= k < Min(|o|, |c|) && k % 4 != 3 :: o[k] == c[k]
  {
    var length := Min(|o|, |c|);
    SquaredDiffsZero(o, c, length);
    var pixelCount := (length as real / 4.0) * 3.0;
    assert pixelCount > 0.0;
  }

  /** The number of colour samples among the first `n` bytes. */
  function ColourSamples(n: nat): nat {
    if n == 0 then 0 else ColourSamples(n - 1) + (if (n - 1) % 4 == 3 then 0 else 1)
  }

  lemma {:induction false} ColourSamplesCount(n: nat)
    ensures ColourSamples(n) == n - n / 4
  {
    if n > 0 {
      ColourSamplesCount(n - 1);
    }
  }

  /** Each colour sample of a quantised buffer adds at most `q*q/4` to the
      squared differences. */
  lemma {:induction false} QuantisedDiffs(s: seq<Byte>, q: nat, n: nat)
    requires q >= 1 && n <= |s|
    ensures 4 * SquaredDiffs(s, Quantised(s, q), n) <= q * q * ColourSamples(n)
  {
    if n > 0 {
      var k := n - 1;
      QuantisedDiffs(s, q, k);
      var prev := SquaredDiffs(s, Quantised(s, q), k);
      if k % 4 != 3 {
        var e := Square(s[k] as int - Quantised(s, q)[k] as int);
        SampleSquareBound(s[k], q);
        AddBound(prev, e, ColourSamples(k), q * q);
      }
    }
  }

  lemma SampleSquareBound(v: Byte, q: nat)
    requires q >= 1
    ensures 4 * Square(v as int - QuantiseSample(v, q) as int) <= q * q
  {
    SampleError(v, q);
    var d := v as int - QuantiseSample(v, q) as int;
    var ad := if d < 0 then -d else d;
    SquareBound(2 * ad, q);
    assert 4 * Square(d) == (2 * ad) * (2 * ad);
  }

  lemma AddBound(a: nat, e: nat, count: nat, qq: nat)
    requires 4 * a <= qq * count && 4 * e <= qq
    ensures 4 * (a + e) <= qq * (count + 1)
  {
  }

  lemma SquareBound(a: nat, b: nat)
    requires a <= b
    ensures a * a <= b * b
  {
    MulMonotone(a, b, a);
    MulMonotone(a, b, b);
  }

  /** Comparing a whole buffer with its quantised copy gives an MSE of at
      most a quarter of the step squared: 25 for the Huffman stand-in, 100
      for the RLE stand-in. */
  lemma QuantisationMseBound(s: seq<Byte>, q: nat)
    requires q >= 1 && |s| > 0 && |s| % 4 == 0
    ensures MetricsOf(s, Quantised(s, q)).mse.Mse?
    ensures MetricsOf(s, Quantised(s, q)).mse.value <= (q * q) as real / 4.0
  {
    var t := Quantised(s, q);
    QuantisedDiffs(s, q, |s|);
    MseBound(s, t, q * q);
  }

  /** A bound on the squared differences per colour sample is a bound on
      the MSE. */
  lemma MseBound(o: seq<Byte>, c: seq<Byte>, bound: nat)
    requires |o| == |c| && |o| > 0 && |o| % 4 == 0
    requires 4 * SquaredDiffs(o, c, |o|) <= bound * ColourSamples(|o|)
    ensures MetricsOf(o, c).mse.Mse?
    ensures MetricsOf(o, c).mse.value <= bound as real / 4.0
  {
    var n := |o|;
    var sum, count := SquaredDiffs(o, c, n), ColourSamples(n);
    MseValue(o, c);
    PixelCountIsColourSamples(n);
    QuotientBound(sum, count, bound);
  }

  lemma QuotientBound(sum: nat, count: nat, bound: nat)
    requires count > 0 && 4 * sum <= bound * count
    ensures sum as real / count as real <= bound as real / 4.0
  {
    RealOfProduct(bound, count);
    RealQuotientBound(sum as real, count as real, bound as real);
  }

  lemma MseValue(o: seq<Byte>, c: seq<Byte>)
    requires !ReadsPastEnd(Min(|o|, |c|))
    ensures var length := Min(|o|, |c|);
      MetricsOf(o, c).mse == Mse(SquaredDiffs(o, c, length) as real / ((length as real / 4.0) * 3.0))
  {
  }

  lemma RealOfProduct(a: nat, b: nat)
    ensures (a * b) as real == a as real * b as real
  {
  }

  /** For whole pixels, `(length / 4) * 3` is the exact number of colour
      samples. */
  lemma PixelCountIsColourSamples(n: nat)
    requires n > 0 && n % 4 == 0
    ensures (n as real / 4.0) * 3.0 == ColourSamples(n) as real
    ensures ColourSamples(n) > 0
  {
    ColourSamplesCount(n);
    var p := n / 4;
    assert n == 4 * p;
    assert ColourSamples(n) == 3 * p;
  }

  lemma RealQuotientBound(x: real, p: real, b: real)
    requires p > 0.0 && 4.0 * x <= b * p
    ensures x / p <= b / 4.0
  {
    assert x / p * p == x;
  }
}
