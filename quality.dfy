/**
 * `QUALITY_SETTINGS` of tools/compress.py, the downscaling arithmetic of
 * the recompression, and the statistics `compress_pdf` reports. The scales
 * 0.5, 0.75 and 1.0 are exact binary fractions, so each is kept as the
 * ratio `num / den` and `int(d * scale)` is integer arithmetic.
 */
module Quality {

  /** One tier: the JPEG quality and the scale `num / den`. */
  datatype Settings = Settings(imageQuality: int, num: int, den: int)

  const Low := Settings(30, 1, 2)
  const Medium := Settings(60, 3, 4)
  const High := Settings(85, 1, 1)

  /**
   * `QUALITY_SETTINGS.get(quality, QUALITY_SETTINGS["medium"])`. Every tier
   * is a JPEG quality between 0 and 100 and a scale in (0, 1].
   */
  function Tier(name: string): (s: Settings)
    ensures 0 <= s.imageQuality <= 100
    ensures 0 < s.num <= s.den
    ensures s in {Low, Medium, High}
  {
    if name == "low" then Low
    else if name == "high" then High
    else Medium
  }

  lemma TierTable()
    ensures Tier("low") == Settings(30, 1, 2)
    ensures Tier("medium") == Settings(60, 3, 4)
    ensures Tier("high") == Settings(85, 1, 1)
  {
  }

  /** A name other than the three tiers behaves as "medium". */
  lemma UnknownTierIsMedium(name: string)
    requires name != "low" && name != "medium" && name != "high"
    ensures Tier(name) == Tier("medium")
  {
  }

  /** `settings["scale"] < 1.0`. */
  predicate Downscales(s: Settings) {
    s.num < s.den
  }

  /** Only "high" keeps the dimensions. */
  lemma DownscalingTiers(name: string)
    ensures Downscales(Tier(name)) <==> name != "high"
  {
  }

  /** Division that truncates toward zero, as Python's `int()` of a quotient does. */
  function TruncDiv(a: int, b: int): int
    requires b > 0
  {
    if a >= 0 then a / b else -((-a) / b)
  }

  /**
   * `int(d * scale)`: the product truncated toward zero. For a
   * non-negative `d` it is the largest whole number not above `d * scale`,
   * and it is never larger than `d`.
   */
  function Scaled(d: int, s: Settings): (r: int)
    requires 0 < s.num <= s.den
    ensures d >= 0 ==> 0 <= r <= d && r * s.den <= d * s.num < (r + 1) * s.den
    ensures d < 0 ==> d <= r <= 0
  {
    ScaleBounds(d, s.num, s.den);
    if d >= 0 then
      DivBounds(d * s.num, s.den, d);
      TruncDiv(d * s.num, s.den)
    else
      DivBounds(-(d * s.num), s.den, -d);
      TruncDiv(d * s.num, s.den)
  }

  lemma ScaleBounds(d: int, num: int, den: int)
    requires 0 < num <= den
    ensures d >= 0 ==> 0 <= d * num <= d * den
    ensures d < 0 ==> 0 < -(d * num) <= (-d) * den
  {
    if d >= 0 {
      assert d * den - d * num == d * (den - num);
    } else {
      assert (-d) * den - -(d * num) == (-d) * (den - num);
      assert -(d * num) == (-d) * num;
    }
  }

  /** The quotient of `p` by `den` when `p` lies between 0 and `m * den`. */
  lemma DivBounds(p: int, den: int, m: int)
    requires den > 0 && m >= 0 && 0 <= p <= m * den
    ensures 0 <= p / den <= m
    ensures (p / den) * den <= p < (p / den + 1) * den
  {
    var q, rem := p / den, p % den;
    assert p == q * den + rem && 0 <= rem < den;
    assert (q + 1) * den == q * den + den;
  }

  /** With scale 1 the dimension stays. */
  lemma ScaledByOne(d: int)
    ensures Scaled(d, High) == d
  {
  }

  /** The 800 x 600 image of the "low" tier becomes 400 x 300; "medium" makes it 600 x 450. */
  lemma ScaledExamples()
    ensures Scaled(800, Low) == 400 && Scaled(600, Low) == 300
    ensures Scaled(800, Medium) == 600 && Scaled(600, Medium) == 450
    ensures Scaled(101, Low) == 50 && Scaled(101, Medium) == 75
  {
  }

  // ---------------------------------------------------------------------
  // Statistics

  /** The dictionary `compress_pdf` returns. */
  datatype Stats = Stats(originalSize: int, compressedSize: int, reductionPercent: real)

  /**
   * `(1 - compressed / original) * 100`, or 0 when the original is empty;
   * the rounding to one decimal is not modelled.
   */
  function ReductionPercent(original: int, compressed: int): (p: real)
    ensures original == 0 ==> p == 0.0
    ensures original > 0 ==> p * (original as real) == ((original - compressed) as real) * 100.0
  {
    if original > 0 then (1.0 - (compressed as real) / (original as real)) * 100.0 else 0.0
  }

  /**
   * Between an empty output and no change at all the percentage runs from
   * 100 down to 0; a larger output gives a negative one.
   */
  lemma ReductionRange(original: int, compressed: int)
    requires original > 0 && compressed >= 0
    ensures compressed <= original ==> 0.0 <= ReductionPercent(original, compressed) <= 100.0
    ensures compressed > original ==> ReductionPercent(original, compressed) < 0.0
    ensures compressed == original ==> ReductionPercent(original, compressed) == 0.0
    ensures compressed == 0 ==> ReductionPercent(original, compressed) == 100.0
  {
    var o := original as real;
    var p := ReductionPercent(original, compressed);
    assert p * o == ((original - compressed) as real) * 100.0;
  }
}
