/** The integer part of `svd_compress` in app.py: how many singular values
    are kept for a compression level, and the bit counts behind the
    reported compression ratio. The singular value decomposition itself is
    floating point in a foreign library and is not part of this model. */
module SvdSize {
  import opened Common

  /** Python's `int(x)` of a quotient: truncation toward zero. */
  function TruncDiv(a: int, b: int): (r: int)
    requires b > 0
    ensures a >= 0 ==> r == a / b
    ensures a < 0 ==> r <= 0
  {
    if a >= 0 then a / b else -((-a) / b)
  }

  /** `k = max(1, int((100 - level) * min(gray.shape) / 100))` for a grey
      image of `height` rows and `width` columns. */
  function SvdRank(height: nat, width: nat, level: int): (k: int)
    ensures k >= 1
  {
    Max(1, TruncDiv((100 - level) * Min(height, width), 100))
  }

  /** `original_size`: eight bits for each grey pixel. */
  function OriginalBits(height: nat, width: nat): nat {
    height * width * 8
  }

  /** `compressed_size`: 32 bits for each element of `U[:, :k]`,
      `sigma[:k]` and `Vt[:k, :]`. `linalg.svd` returns `U` of shape
      height x height, `sigma` of length min(height, width) and `Vt` of shape
      width x width; slicing past the end keeps what is there. */
  function CompressedBits(height: nat, width: nat, k: nat): nat {
    (height * Min(k, height) + Min(k, Min(height, width)) + Min(k, width) * width) * 32
  }

  /** `compression_ratio = original_size / compressed_size`, or None for the
      ZeroDivisionError when nothing is kept. */
  function SvdRatio(height: nat, width: nat, level: int): (r: Option<real>)
    ensures r.None? <==> CompressedBits(height, width, SvdRank(height, width, level)) == 0
  {
    var bits := CompressedBits(height, width, SvdRank(height, width, level));
    if bits == 0 then None else Some(OriginalBits(height, width) as real / bits as real)
  }

  /** For a level between 0 and 100 and a non-empty image, the rank lies
      between 1 and the smaller dimension. */
  lemma SvdRankBounds(height: nat, width: nat, level: int)
    requires 0 <= level <= 100 && Min(height, width) >= 1
    ensures 1 <= SvdRank(height, width, level) <= Min(height, width)
  {
    var m := Min(height, width);
    ProductBound(100 - level, m);
  }

  lemma ProductBound(a: nat, m: nat)
    requires a <= 100
    ensures a * m / 100 <= m
  {
    assert a * m <= 100 * m;
  }

  /** A higher level never keeps more singular values. */
  lemma SvdRankMonotone(height: nat, width: nat, level1: int, level2: int)
    requires level1 <= level2
    ensures SvdRank(height, width, level2) <= SvdRank(height, width, level1)
  {
    var m := Min(height, width);
    assert (100 - level2) * m <= (100 - level1) * m;
    TruncDivMonotone((100 - level2) * m, (100 - level1) * m, 100);
  }

  lemma TruncDivMonotone(a: int, b: int, d: int)
    requires d > 0 && a <= b
    ensures TruncDiv(a, d) <= TruncDiv(b, d)
  {
    if a < 0 && b >= 0 {
    } else if a < 0 {
      DivMonotone(-b, -a, d);
      assert TruncDiv(a, d) == -((-a) / d) && TruncDiv(b, d) == -((-b) / d);
    } else {
      DivMonotone(a, b, d);
    }
  }

  /** For a level between 0 and 100, the compressed size is 32 bits times
      `k * (height + width + 1)` against an original of eight bits a pixel,
      and the ratio is defined for every non-empty image. */
  lemma SvdSizes(height: nat, width: nat, level: int)
    requires 0 <= level <= 100 && Min(height, width) >= 1
    ensures var k := SvdRank(height, width, level);
      CompressedBits(height, width, k) == 32 * k * (height + width + 1) &&
      OriginalBits(height, width) == 8 * height * width &&
      SvdRatio(height, width, level).Some?
  {
    var k := SvdRank(height, width, level);
    SvdRankBounds(height, width, level);
    assert Min(k, height) == k && Min(k, width) == k && Min(k, Min(height, width)) == k;
    assert height * k + k + k * width == k * (height + width + 1);
  }
}
