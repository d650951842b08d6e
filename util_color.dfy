/** The colour helpers of internal/util/color.go that the capture side uses:
    the greyish test and the average, squared-average and median reducers,
    which work on 16-bit channel values and scale back with
    uint8(v / 0xFFFF * 0xFF). The mode reducer is the same code as in
    internal/screen/color.go and is modelled there. Floats are exact reals. */
module UtilColor {
  import opened Numeric
  import opened Pixels
  import ScreenColor

  /** float64(s) <= 0xFFFF * 0.2. */
  predicate IsColorGreyish(saturation: U16)
  {
    saturation as real <= 65535.0 * 0.2
  }

  /** A saturation is greyish exactly up to 13107, a fifth of full scale. */
  lemma GreyishIff(saturation: U16)
    ensures IsColorGreyish(saturation) <==> saturation <= 13107
  {
  }

  lemma NarrowValue(w: nat)
    ensures (w as real / 65535.0 * 255.0).Floor == w / 257
  {
    var q, r := w / 257, w % 257;
    assert w as real / 65535.0 * 255.0 == w as real / 257.0;
    assert w == 257 * q + r;
    assert w as real / 257.0 == q as real + r as real / 257.0;
  }

  /** uint8(float64(w) / 0xFFFF * 0xFF) for a 16-bit value: w / 257. */
  function Narrow(w: nat): (c: Byte)
    requires w <= 65535
  {
    NarrowValue(w);
    assert w / 257 <= 255;
    Trunc(w as real / 65535.0 * 255.0)
  }

  /** Scaling back a 16-bit channel value recovers the 8-bit one. */
  lemma NarrowExpand(c: Byte)
    ensures Narrow(Expand16(c)) == c
  {
    NarrowValue(Expand16(c));
    DivUnique(Expand16(c), 257, c, 0);
  }

  /** sum / n for a sum of at most n 16-bit values. */
  function WideMean(sum: nat, n: nat): (v: nat)
    requires n > 0 && sum <= n * 65535
    ensures v <= 65535
  {
    ScreenColor.DivBound(sum, n, n, 65535);
    sum / n
  }

  /** The integer square root of sum / n for a sum of at most n squared
      16-bit values. */
  function WideRootMean(sum: nat, n: nat): (v: nat)
    requires n > 0 && sum <= n * 4294836225
    ensures v <= 65535
  {
    ScreenColor.DivBound(sum, n, n, 4294836225);
    ScreenColor.SqrtAtMost(sum / n, 65535);
    IntSqrt(sum / n)
  }

  function AverageChannel(img: Image, g: nat, k: Chan): Byte
    requires g > 0 && img.width > 0 && img.height > 0
  {
    var s := Samples(img, g);
    SamplesNonEmpty(img, g);
    SumBound(s, k, Wide);
    Narrow(WideMean(SumOf(s, k, Wide), |s|))
  }

  function Average(img: Image, g: nat): Rgba
    requires g > 0 && img.width > 0 && img.height > 0
  {
    Rgba(AverageChannel(img, g, R), AverageChannel(img, g, G), AverageChannel(img, g, B), AverageChannel(img, g, A))
  }

  /** uint8(sqrt(q) / 0xFFFF * 0xFF) with the root taken whole first, which
      changes nothing: floor(floor(x) / 257) == floor(x / 257). */
  function SquaredAverageChannel(img: Image, g: nat, k: Chan): Byte
    requires g > 0 && img.width > 0 && img.height > 0
  {
    var s := Samples(img, g);
    SamplesNonEmpty(img, g);
    SumBound(s, k, WideSquare);
    Narrow(WideRootMean(SumOf(s, k, WideSquare), |s|))
  }

  function SquaredAverage(img: Image, g: nat): Rgba
    requires g > 0 && img.width > 0 && img.height > 0
  {
    Rgba(SquaredAverageChannel(img, g, R), SquaredAverageChannel(img, g, G),
         SquaredAverageChannel(img, g, B), SquaredAverageChannel(img, g, A))
  }

  /** The averages in terms of the channel sums of the visited pixels. */
  lemma AverageOfSums(img: Image, g: nat)
    requires g > 0 && img.width > 0 && img.height > 0
    ensures var s := Samples(img, g);
            && |s| > 0
            && (forall k :: SumOf(s, k, Wide) <= |s| * 65535)
            && Average(img, g) == Rgba(Narrow(WideMean(SumOf(s, R, Wide), |s|)), Narrow(WideMean(SumOf(s, G, Wide), |s|)),
                                       Narrow(WideMean(SumOf(s, B, Wide), |s|)), Narrow(WideMean(SumOf(s, A, Wide), |s|)))
  {
    SamplesNonEmpty(img, g);
    forall k {
      SumBound(Samples(img, g), k, Wide);
    }
  }

  lemma SquaredAverageOfSums(img: Image, g: nat)
    requires g > 0 && img.width > 0 && img.height > 0
    ensures var s := Samples(img, g);
            && |s| > 0
            && (forall k :: SumOf(s, k, WideSquare) <= |s| * 4294836225)
            && SquaredAverage(img, g) ==
               Rgba(Narrow(WideRootMean(SumOf(s, R, WideSquare), |s|)), Narrow(WideRootMean(SumOf(s, G, WideSquare), |s|)),
                    Narrow(WideRootMean(SumOf(s, B, WideSquare), |s|)), Narrow(WideRootMean(SumOf(s, A, WideSquare), |s|)))
  {
    SamplesNonEmpty(img, g);
    forall k {
      SumBound(Samples(img, g), k, WideSquare);
    }
  }

  // ---------------------------------------------------------------------------
  // The reducers

  /** One row of AverageColor's scan: every g-th pixel of row y is added to
      the sums. */
  method AverageRow(img: Image, g: nat, y: nat, ghost seen0: seq<Rgba>,
      sumR0: int, sumG0: int, sumB0: int, sumA0: int, total0: int)
    returns (sumR: int, sumG: int, sumB: int, sumA: int, total: int, ghost seen: seq<Rgba>)
    requires g > 0 && y < img.height && AtRow(img, g, y, seen0)
    requires Summed(seen0, Wide, sumR0, sumG0, sumB0, sumA0)
    requires total0 == |seen0|
    ensures AtRow(img, g, y + g, seen) && Summed(seen, Wide, sumR, sumG, sumB, sumA) && total == |seen|
  {
    sumR, sumG, sumB, sumA, total, seen := sumR0, sumG0, sumB0, sumA0, total0, seen0;
    var row := img.pix[y];
    var width := img.width;
    assert |row| == width;
    RowStart(img, g, y, seen);
    var x := 0;
    while x < width
      invariant InRow(img, g, y, x, seen)
      invariant Summed(seen, Wide, sumR, sumG, sumB, sumA)
      invariant total == |seen|
      decreases width - x
    {
      total := total + 1;
      var p := row[x];
      SumStep(seen, p, Wide, sumR, sumG, sumB, sumA);
      sumR := sumR + Expand16(p.red);
      sumG := sumG + Expand16(p.green);
      sumB := sumB + Expand16(p.blue);
      sumA := sumA + Expand16(p.alpha);
      VisitPixel(img, g, y, x, seen);
      seen := seen + [p];
      x := x + g;
    }
    RowEnd(img, g, y, x, seen);
  }

  /** AverageColor: at least one pixel must be visited, since the visited
      count is the divisor. */
  method AverageColor(img: Image, pixelGridSize: nat) returns (c: Rgba)
    requires pixelGridSize > 0
    requires img.width > 0 && img.height > 0
    ensures c == Average(img, pixelGridSize)
  {
    var g := pixelGridSize;
    var sumR, sumG, sumB, sumA, totalPixels := 0, 0, 0, 0, 0;
    var height: int := img.height;
    ghost var seen: seq<Rgba> := [];
    var y := 0;
    while y < height
      invariant AtRow(img, g, y, seen)
      invariant Summed(seen, Wide, sumR, sumG, sumB, sumA)
      invariant totalPixels == |seen|
      decreases height - y
    {
      sumR, sumG, sumB, sumA, totalPixels, seen := AverageRow(img, g, y, seen, sumR, sumG, sumB, sumA, totalPixels);
      y := y + g;
    }
    GridEnd(img, g, y, seen);
    AverageOfSums(img, g);
    c := Rgba(Narrow(WideMean(sumR, totalPixels)), Narrow(WideMean(sumG, totalPixels)),
              Narrow(WideMean(sumB, totalPixels)), Narrow(WideMean(sumA, totalPixels)));
  }

  /** One row of SquaredAverageColor's scan: every g-th pixel of row y is added to
      the sums. */
  method SquaredAverageRow(img: Image, g: nat, y: nat, ghost seen0: seq<Rgba>,
      sumR0: int, sumG0: int, sumB0: int, sumA0: int, total0: int)
    returns (sumR: int, sumG: int, sumB: int, sumA: int, total: int, ghost seen: seq<Rgba>)
    requires g > 0 && y < img.height && AtRow(img, g, y, seen0)
    requires Summed(seen0, WideSquare, sumR0, sumG0, sumB0, sumA0)
    requires total0 == |seen0|
    ensures AtRow(img, g, y + g, seen) && Summed(seen, WideSquare, sumR, sumG, sumB, sumA) && total == |seen|
  {
    sumR, sumG, sumB, sumA, total, seen := sumR0, sumG0, sumB0, sumA0, total0, seen0;
    var row := img.pix[y];
    var width := img.width;
    assert |row| == width;
    RowStart(img, g, y, seen);
    var x := 0;
    while x < width
      invariant InRow(img, g, y, x, seen)
      invariant Summed(seen, WideSquare, sumR, sumG, sumB, sumA)
      invariant total == |seen|
      decreases width - x
    {
      total := total + 1;
      var p := row[x];
      SumStep(seen, p, WideSquare, sumR, sumG, sumB, sumA);
      var r, gr, b, a := Expand16(p.red), Expand16(p.green), Expand16(p.blue), Expand16(p.alpha);
      sumR := sumR + r * r;
      sumG := sumG + gr * gr;
      sumB := sumB + b * b;
      sumA := sumA + a * a;
      VisitPixel(img, g, y, x, seen);
      seen := seen + [p];
      x := x + g;
    }
    RowEnd(img, g, y, x, seen);
  }

  method SquaredAverageColor(img: Image, pixelGridSize: nat) returns (c: Rgba)
    requires pixelGridSize > 0
    requires img.width > 0 && img.height > 0
    ensures c == SquaredAverage(img, pixelGridSize)
  {
    var g := pixelGridSize;
    var sumR, sumG, sumB, sumA, totalPixels := 0, 0, 0, 0, 0;
    var height: int := img.height;
    ghost var seen: seq<Rgba> := [];
    var y := 0;
    while y < height
      invariant AtRow(img, g, y, seen)
      invariant Summed(seen, WideSquare, sumR, sumG, sumB, sumA)
      invariant totalPixels == |seen|
      decreases height - y
    {
      sumR, sumG, sumB, sumA, totalPixels, seen := SquaredAverageRow(img, g, y, seen, sumR, sumG, sumB, sumA, totalPixels);
      y := y + g;
    }
    GridEnd(img, g, y, seen);
    SquaredAverageOfSums(img, g);
    c := Rgba(Narrow(WideRootMean(sumR, totalPixels)), Narrow(WideRootMean(sumG, totalPixels)),
              Narrow(WideRootMean(sumB, totalPixels)), Narrow(WideRootMean(sumA, totalPixels)));
  }

  /** One row of MedianColor's scan: the channels of every g-th pixel of
      row y are appended to the lists. */
  method MedianRow(img: Image, g: nat, y: nat, ghost seen0: seq<Rgba>,
                   reds0: seq<Byte>, greens0: seq<Byte>, blues0: seq<Byte>, alphas0: seq<Byte>)
    returns (reds: seq<Byte>, greens: seq<Byte>, blues: seq<Byte>, alphas: seq<Byte>, ghost seen: seq<Rgba>)
    requires g > 0 && y < img.height && AtRow(img, g, y, seen0)
    requires Collected(seen0, reds0, greens0, blues0, alphas0)
    ensures AtRow(img, g, y + g, seen) && Collected(seen, reds, greens, blues, alphas)
  {
    reds, greens, blues, alphas, seen := reds0, greens0, blues0, alphas0, seen0;
    var row := img.pix[y];
    var width := img.width;
    assert |row| == width;
    RowStart(img, g, y, seen);
    var x := 0;
    while x < width
      invariant InRow(img, g, y, x, seen)
      invariant Collected(seen, reds, greens, blues, alphas)
      decreases width - x
    {
      var p := row[x];
      NarrowExpand(p.red);
      NarrowExpand(p.green);
      NarrowExpand(p.blue);
      NarrowExpand(p.alpha);
      CollectStep(seen, p, reds, greens, blues, alphas);
      reds := reds + [Narrow(Expand16(p.red))];
      greens := greens + [Narrow(Expand16(p.green))];
      blues := blues + [Narrow(Expand16(p.blue))];
      alphas := alphas + [Narrow(Expand16(p.alpha))];
      VisitPixel(img, g, y, x, seen);
      seen := seen + [p];
      x := x + g;
    }
    RowEnd(img, g, y, x, seen);
  }

  /** MedianColor: each channel value is scaled back to 8 bits before the
      sort, which recovers the pixel's own value, so the result is the median
      of the 8-bit channels, as in internal/screen. At least one pixel must be
      visited. */
  method MedianColor(img: Image, pixelGridSize: nat) returns (c: Rgba)
    requires pixelGridSize > 0
    requires img.width > 0 && img.height > 0
    ensures c == ScreenColor.MedianOf(img, pixelGridSize)
  {
    var g := pixelGridSize;
    var reds: seq<Byte>, greens: seq<Byte>, blues: seq<Byte>, alphas: seq<Byte> := [], [], [], [];
    var height: int := img.height;
    ghost var seen: seq<Rgba> := [];
    var y := 0;
    while y < height
      invariant AtRow(img, g, y, seen)
      invariant Collected(seen, reds, greens, blues, alphas)
      decreases height - y
    {
      reds, greens, blues, alphas, seen := MedianRow(img, g, y, seen, reds, greens, blues, alphas);
      y := y + g;
    }
    GridEnd(img, g, y, seen);
    ScreenColor.MedianOfCollected(img, g, reds, greens, blues, alphas);
    reds, greens, blues, alphas := Sort(reds), Sort(greens), Sort(blues), Sort(alphas);
    c := Rgba(MiddleValue(reds), MiddleValue(greens), MiddleValue(blues), MiddleValue(alphas));
  }

  // ---------------------------------------------------------------------------
  // Properties

  /** The 16-bit sums are 257 times the 8-bit ones, and the sums of squares
      66049 = 257 * 257 times. */
  lemma {:induction false} WideSums(s: seq<Rgba>, k: Chan)
    ensures SumOf(s, k, Wide) == 257 * SumOf(s, k, Plain)
    ensures SumOf(s, k, WideSquare) == 66049 * SumOf(s, k, Square)
  {
    if s != [] {
      var front := s[..|s| - 1];
      WideSums(front, k);
      WideWeights(Component(s[|s| - 1], k));
    }
  }

  lemma WideWeights(c: Byte)
    ensures Weigh(c, Wide) == 257 * Weigh(c, Plain)
    ensures Weigh(c, WideSquare) == 66049 * Weigh(c, Square)
  {
    var n: nat := c;
    assert Weigh(c, Wide) == 257 * n;
    assert Weigh(c, WideSquare) == (257 * n) * (257 * n);
    assert Weigh(c, Square) == n * n;
  }

  /** floor(floor(257 S / n) / 257) == floor(S / n). */
  lemma ScaledMean(sum: nat, n: nat)
    requires n > 0
    ensures (257 * sum) / n / 257 == sum / n
  {
    var q, r := sum / n, sum % n;
    var t, u := (257 * r) / n, (257 * r) % n;
    assert 257 * r == t * n + u;
    assert 257 * sum == (257 * q + t) * n + u;
    DivUnique(257 * sum, n, 257 * q + t, u);
    assert r < n;
    assert t < 257 by {
      DivBoundStrict(257 * r, n, 257);
    }
    DivUnique(257 * q + t, 257, q, t);
  }

  lemma DivBoundStrict(a: nat, n: nat, m: nat)
    requires n > 0 && a < n * m
    ensures a / n < m
  {
  }

  /** The average is the floor of the mean of the visited 8-bit values: it is
      the screen average divided by the visited count, which is what the
      screen reducer evidently intends. */
  lemma AverageIsMean(img: Image, g: nat)
    requires g > 0 && img.width > 0 && img.height > 0
    ensures Average(img, g) == ScreenColor.IntendedAverage(img, g)
  {
    var s := Samples(img, g);
    SamplesNonEmpty(img, g);
    forall k | k in {R, G, B, A}
      ensures AverageChannel(img, g, k) == ScreenColor.IntendedAverageChannel(img, g, k)
    {
      WideSums(s, k);
      SumBound(s, k, Plain);
      ScaledMean(SumOf(s, k, Plain), |s|);
      NarrowValue(WideMean(SumOf(s, k, Wide), |s|));
    }
  }

  /** The squared average of one channel of a uniform image is its value. */
  lemma SquaredUniformChannel(img: Image, g: nat, c: Rgba, k: Chan)
    requires g > 0 && img.width > 0 && img.height > 0 && Uniform(img, c)
    ensures SquaredAverageChannel(img, g, k) == Component(c, k)
  {
    var s := Samples(img, g);
    var n := |s|;
    SamplesNonEmpty(img, g);
    SamplesUniform(img, g, c);
    var w := Expand16(Component(c, k));
    SumUniform(s, k, WideSquare, c);
    assert SumOf(s, k, WideSquare) == n * (w * w);
    DivUnique(n * (w * w), n, w * w, 0);
    IntSqrtUnique(w * w, w);
    NarrowExpand(Component(c, k));
  }

  /** A uniform image returns its own colour, whatever the grid size. */
  lemma AveragesUniform(img: Image, g: nat, c: Rgba)
    requires g > 0 && img.width > 0 && img.height > 0 && Uniform(img, c)
    ensures Average(img, g) == c && SquaredAverage(img, g) == c
  {
    AverageIsMean(img, g);
    ScreenColor.IntendedAveragesUniform(img, g, c);
    SquaredUniformChannel(img, g, c, R);
    SquaredUniformChannel(img, g, c, G);
    SquaredUniformChannel(img, g, c, B);
    SquaredUniformChannel(img, g, c, A);
  }
}
