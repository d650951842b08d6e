/** The integer colour reducers of internal/screen/color.go: average, squared
    average, median and mode of the pixels on a grid, each a pair of nested
    sampling loops over the image. */
module ScreenColor {
  import opened Numeric
  import opened Pixels

  // ---------------------------------------------------------------------------
  // What the reducers compute

  lemma DivBound(s: nat, n: nat, d: nat, m: nat)
    requires d > 0 && n <= d && s <= n * m
    ensures s / d <= m
  {
    assert n * m <= d * m;
    assert s / d * d <= s;
  }

  /** sum / d for a sum of at most d byte values. */
  function ByteMean(sum: nat, d: nat): (v: Byte)
    requires d > 0 && sum <= d * 255
  {
    DivBound(sum, d, d, 255);
    sum / d
  }

  /** The integer square root of sum / d, for a sum of at most d squared
      byte values. */
  function ByteRootMean(sum: nat, d: nat): (v: Byte)
    requires d > 0 && sum <= d * 65025
  {
    DivBound(sum, d, d, 65025);
    SqrtAtMost(sum / d, 255);
    IntSqrt(sum / d)
  }

  lemma SqrtAtMost(q: nat, m: nat)
    requires q <= m * m
    ensures IntSqrt(q) <= m
  {
  }

  /** The weighted channel sums of the visited pixels are within
      width * height times the largest weight. */
  lemma SampleSumBound(img: Image, g: nat, k: Chan, w: Weight)
    requires g > 0
    ensures SumOf(Samples(img, g), k, w) <= img.width * img.height * MaxWeight(w)
  {
    var s := Samples(img, g);
    SamplesCount(img, g);
    SumBound(s, k, w);
    MulLeft(|s|, img.width * img.height, MaxWeight(w));
  }

  /** One channel of AverageColor: the sum of the 8-bit values visited,
      divided by width * height. It fits in a byte because at most
      width * height pixels are visited. */
  function AverageChannel(img: Image, g: nat, k: Chan): (v: Byte)
    requires g > 0 && img.width * img.height > 0
  {
    SampleSumBound(img, g, k, Plain);
    ByteMean(SumOf(Samples(img, g), k, Plain), img.width * img.height)
  }

  function Average(img: Image, g: nat): Rgba
    requires g > 0 && img.width * img.height > 0
  {
    Rgba(AverageChannel(img, g, R), AverageChannel(img, g, G), AverageChannel(img, g, B), AverageChannel(img, g, A))
  }

  /** One channel of SquaredAverageColor: the integer square root of the sum
      of squared 8-bit values divided by width * height. */
  function SquaredAverageChannel(img: Image, g: nat, k: Chan): (v: Byte)
    requires g > 0 && img.width * img.height > 0
  {
    SampleSumBound(img, g, k, Square);
    ByteRootMean(SumOf(Samples(img, g), k, Square), img.width * img.height)
  }

  function SquaredAverage(img: Image, g: nat): Rgba
    requires g > 0 && img.width * img.height > 0
  {
    Rgba(SquaredAverageChannel(img, g, R), SquaredAverageChannel(img, g, G),
         SquaredAverageChannel(img, g, B), SquaredAverageChannel(img, g, A))
  }

  function MedianOf(img: Image, g: nat): Rgba
    requires g > 0 && img.width > 0 && img.height > 0
  {
    SamplesNonEmpty(img, g);
    var s := Samples(img, g);
    Rgba(Median(ChannelValues(s, R)), Median(ChannelValues(s, G)), Median(ChannelValues(s, B)), Median(ChannelValues(s, A)))
  }

  /** The median colour in terms of the channel lists of the visited pixels. */
  lemma MedianOfCollected(img: Image, g: nat, reds: seq<Byte>, greens: seq<Byte>, blues: seq<Byte>, alphas: seq<Byte>)
    requires g > 0 && img.width > 0 && img.height > 0
    requires Collected(Samples(img, g), reds, greens, blues, alphas)
    ensures |reds| > 0 && |greens| > 0 && |blues| > 0 && |alphas| > 0
    ensures MedianOf(img, g) == Rgba(MiddleValue(Sort(reds)), MiddleValue(Sort(greens)), MiddleValue(Sort(blues)), MiddleValue(Sort(alphas)))
  {
    SamplesNonEmpty(img, g);
  }

  // ---------------------------------------------------------------------------
  // The reducers

  /** One row of AverageColor's scan: every g-th pixel of row y is added to
      the sums. */
  method AverageRow(img: Image, g: nat, y: nat, ghost seen0: seq<Rgba>,
      sumR0: int, sumG0: int, sumB0: int, sumA0: int)
    returns (sumR: int, sumG: int, sumB: int, sumA: int, ghost seen: seq<Rgba>)
    requires g > 0 && y < img.height && AtRow(img, g, y, seen0)
    requires Summed(seen0, Plain, sumR0, sumG0, sumB0, sumA0)
    ensures AtRow(img, g, y + g, seen) && Summed(seen, Plain, sumR, sumG, sumB, sumA)
  {
    sumR, sumG, sumB, sumA, seen := sumR0, sumG0, sumB0, sumA0, seen0;
    var row := img.pix[y];
    var width := img.width;
    assert |row| == width;
    RowStart(img, g, y, seen);
    var x := 0;
    while x < width
      invariant InRow(img, g, y, x, seen)
      invariant Summed(seen, Plain, sumR, sumG, sumB, sumA)
      decreases width - x
    {
      var p := row[x];
      SumStep(seen, p, Plain, sumR, sumG, sumB, sumA);
      sumR := sumR + Expand16(p.red) / 256;
      sumG := sumG + Expand16(p.green) / 256;
      sumB := sumB + Expand16(p.blue) / 256;
      sumA := sumA + Expand16(p.alpha) / 256;
      VisitPixel(img, g, y, x, seen);
      seen := seen + [p];
      x := x + g;
    }
    RowEnd(img, g, y, x, seen);
  }

  /** AverageColor: width * height must be positive, since it is the divisor. */
  method AverageColor(img: Image, pixelGridSize: nat) returns (c: Rgba)
    requires pixelGridSize > 0
    requires img.width * img.height > 0
    ensures c == Average(img, pixelGridSize)
  {
    var g := pixelGridSize;
    var sumR, sumG, sumB, sumA := 0, 0, 0, 0;
    var width: int, height: int := img.width, img.height;
    var totalPixels := width * height;
    ghost var seen: seq<Rgba> := [];
    var y := 0;
    while y < height
      invariant AtRow(img, g, y, seen)
      invariant Summed(seen, Plain, sumR, sumG, sumB, sumA)
      decreases height - y
    {
      sumR, sumG, sumB, sumA, seen := AverageRow(img, g, y, seen, sumR, sumG, sumB, sumA);
      y := y + g;
    }
    GridEnd(img, g, y, seen);
    SampleSumBound(img, g, R, Plain);
    SampleSumBound(img, g, G, Plain);
    SampleSumBound(img, g, B, Plain);
    SampleSumBound(img, g, A, Plain);
    c := Rgba(ByteMean(sumR, totalPixels), ByteMean(sumG, totalPixels), ByteMean(sumB, totalPixels), ByteMean(sumA, totalPixels));
  }

  /** One row of SquaredAverageColor's scan: every g-th pixel of row y is added to
      the sums. */
  method SquaredAverageRow(img: Image, g: nat, y: nat, ghost seen0: seq<Rgba>,
      sumR0: int, sumG0: int, sumB0: int, sumA0: int)
    returns (sumR: int, sumG: int, sumB: int, sumA: int, ghost seen: seq<Rgba>)
    requires g > 0 && y < img.height && AtRow(img, g, y, seen0)
    requires Summed(seen0, Square, sumR0, sumG0, sumB0, sumA0)
    ensures AtRow(img, g, y + g, seen) && Summed(seen, Square, sumR, sumG, sumB, sumA)
  {
    sumR, sumG, sumB, sumA, seen := sumR0, sumG0, sumB0, sumA0, seen0;
    var row := img.pix[y];
    var width := img.width;
    assert |row| == width;
    RowStart(img, g, y, seen);
    var x := 0;
    while x < width
      invariant InRow(img, g, y, x, seen)
      invariant Summed(seen, Square, sumR, sumG, sumB, sumA)
      decreases width - x
    {
      var p := row[x];
      SumStep(seen, p, Square, sumR, sumG, sumB, sumA);
      var r, gr, b, a := Expand16(p.red) / 256, Expand16(p.green) / 256, Expand16(p.blue) / 256, Expand16(p.alpha) / 256;
      sumR := sumR + r * r;
      sumG := sumG + gr * gr;
      sumB := sumB + b * b;
      sumA := sumA + a * a;
      VisitPixel(img, g, y, x, seen);
      seen := seen + [p];
      x := x + g;
    }
    RowEnd(img, g, y, x, seen);
  }

  /** SquaredAverageColor: the root of the mean square per channel. */
  method SquaredAverageColor(img: Image, pixelGridSize: nat) returns (c: Rgba)
    requires pixelGridSize > 0
    requires img.width * img.height > 0
    ensures c == SquaredAverage(img, pixelGridSize)
  {
    var g := pixelGridSize;
    var sumR, sumG, sumB, sumA := 0, 0, 0, 0;
    var width: int, height: int := img.width, img.height;
    var totalPixels := width * height;
    ghost var seen: seq<Rgba> := [];
    var y := 0;
    while y < height
      invariant AtRow(img, g, y, seen)
      invariant Summed(seen, Square, sumR, sumG, sumB, sumA)
      decreases height - y
    {
      sumR, sumG, sumB, sumA, seen := SquaredAverageRow(img, g, y, seen, sumR, sumG, sumB, sumA);
      y := y + g;
    }
    GridEnd(img, g, y, seen);
    SampleSumBound(img, g, R, Square);
    SampleSumBound(img, g, G, Square);
    SampleSumBound(img, g, B, Square);
    SampleSumBound(img, g, A, Square);
    c := Rgba(ByteRootMean(sumR, totalPixels), ByteRootMean(sumG, totalPixels),
              ByteRootMean(sumB, totalPixels), ByteRootMean(sumA, totalPixels));
  }

  /** One row of MedianColor's scan: the channels of every g-th pixel of
      row y are appended to the lists. */
  method MedianRow(img: Image, g: nat, y: nat, ghost seen0: seq<Rgba>,
                   reds0: seq<Byte>, greens0: seq<Byte>, blues0: seq<Byte>, alphas0: seq<Byte>)
    returns (reds: seq<Byte>, greens: seq<Byte>, blues: seq<Byte>, alphas: seq<Byte>, ghost seen: seq<Rgba>)
    requires g > 0 && y < img.height && AtRow(img, g, y, seen0)
    requires Collected(seen0, reds0, greens0, blues0, alphas0)
    ensures AtRow(img, g, y + g, seen) && Collected(seen, reds, greens, blues, alphas)
  {
    reds, greens, blues, alphas, seen := reds0, greens0, blues0, alphas0, seen0;
    var row := img.pix[y];
    var width := img.width;
    assert |row| == width;
    RowStart(img, g, y, seen);
    var x := 0;
    while x < width
      invariant InRow(img, g, y, x, seen)
      invariant Collected(seen, reds, greens, blues, alphas)
      decreases width - x
    {
      var p := row[x];
      CollectStep(seen, p, reds, greens, blues, alphas);
      reds := reds + [Expand16(p.red) / 256];
      greens := greens + [Expand16(p.green) / 256];
      blues := blues + [Expand16(p.blue) / 256];
      alphas := alphas + [Expand16(p.alpha) / 256];
      VisitPixel(img, g, y, x, seen);
      seen := seen + [p];
      x := x + g;
    }
    RowEnd(img, g, y, x, seen);
  }

  /** MedianColor: at least one pixel must be visited, since an empty list is
      indexed at -1. Each channel list is sorted before its middle is read. */
  method MedianColor(img: Image, pixelGridSize: nat) returns (c: Rgba)
    requires pixelGridSize > 0
    requires img.width > 0 && img.height > 0
    ensures c == MedianOf(img, pixelGridSize)
  {
    var g := pixelGridSize;
    var reds: seq<Byte>, greens: seq<Byte>, blues: seq<Byte>, alphas: seq<Byte> := [], [], [], [];
    var height: int := img.height;
    ghost var seen: seq<Rgba> := [];
    var y := 0;
    while y < height
      invariant AtRow(img, g, y, seen)
      invariant Collected(seen, reds, greens, blues, alphas)
      decreases height - y
    {
      reds, greens, blues, alphas, seen := MedianRow(img, g, y, seen, reds, greens, blues, alphas);
      y := y + g;
    }
    GridEnd(img, g, y, seen);
    MedianOfCollected(img, g, reds, greens, blues, alphas);
    reds, greens, blues, alphas := Sort(reds), Sort(greens), Sort(blues), Sort(alphas);
    c := Rgba(MiddleValue(reds), MiddleValue(greens), MiddleValue(blues), MiddleValue(alphas));
  }

  /** One row of ModeColor's scan: every g-th pixel of row y is counted. */
  method CountRow(img: Image, g: nat, y: nat, ghost seen0: seq<Rgba>, counts0: map<Rgba, nat>)
    returns (colorCount: map<Rgba, nat>, ghost seen: seq<Rgba>)
    requires g > 0 && y < img.height && AtRow(img, g, y, seen0) && Tallied(seen0, counts0)
    ensures AtRow(img, g, y + g, seen) && Tallied(seen, colorCount)
  {
    colorCount, seen := counts0, seen0;
    var row := img.pix[y];
    var width := img.width;
    assert |row| == width;
    RowStart(img, g, y, seen);
    var x := 0;
    while x < width
      invariant InRow(img, g, y, x, seen)
      invariant Tallied(seen, colorCount)
      decreases width - x
    {
      var p := row[x];
      TallyStep(seen, p, colorCount);
      var count := if p in colorCount then colorCount[p] else 0;
      colorCount := colorCount[p := count + 1];
      VisitPixel(img, g, y, x, seen);
      seen := seen + [p];
      x := x + g;
    }
    RowEnd(img, g, y, x, seen);
  }

  /** ModeColor's second loop: walks the map in an unspecified order and
      keeps the first colour whose count beats every count before it. With
      every count positive, the result has the largest count, and it is the
      zero colour of an empty map. */
  method PickMode(colorCount: map<Rgba, nat>) returns (modeColor: Rgba)
    requires forall c | c in colorCount :: colorCount[c] > 0
    ensures colorCount == map[] ==> modeColor == Zero
    ensures colorCount != map[] ==> modeColor in colorCount
    ensures forall c | c in colorCount :: colorCount[c] <= colorCount[modeColor]
  {
    modeColor := Zero;
    var maxCount := 0;
    var remaining := colorCount.Keys;
    while remaining != {}
      invariant remaining <= colorCount.Keys
      invariant maxCount == 0 ==> modeColor == Zero
      invariant maxCount > 0 ==> modeColor in colorCount && colorCount[modeColor] == maxCount
      invariant forall c | c in colorCount.Keys - remaining :: colorCount[c] <= maxCount
      invariant colorCount.Keys - remaining != {} ==> maxCount > 0
      decreases remaining
    {
      var c :| c in remaining;
      if colorCount[c] > maxCount {
        maxCount := colorCount[c];
        modeColor := c;
      }
      remaining := remaining - {c};
    }
    if colorCount != map[] {
      assert colorCount.Keys != {};
    }
  }

  /** A colour of largest count in the tally of the pixels is their mode. */
  lemma ModeOfTally(s: seq<Rgba>, counts: map<Rgba, nat>, m: Rgba)
    requires Tallied(s, counts)
    requires counts == map[] ==> m == Zero
    requires counts != map[] ==> m in counts && forall c | c in counts :: counts[c] <= counts[m]
    ensures IsMode(s, m)
  {
    if s != [] {
      assert s[0] in counts;
      forall c | c in s
        ensures Count(s, c) <= Count(s, m)
      {
        assert c in counts;
      }
    } else {
      assert counts.Keys == {};
    }
  }

  /** ModeColor (the same code in internal/screen and internal/util): counts
      every visited colour, then keeps the first colour met, in the map's
      unspecified order, whose count beats every count before it. */
  method ModeColor(img: Image, pixelGridSize: nat) returns (modeColor: Rgba)
    requires pixelGridSize > 0
    ensures IsMode(Samples(img, pixelGridSize), modeColor)
  {
    var g := pixelGridSize;
    var colorCount: map<Rgba, nat> := map[];
    var height: int := img.height;
    ghost var seen: seq<Rgba> := [];
    TallyEmpty();
    var y := 0;
    while y < height
      invariant AtRow(img, g, y, seen)
      invariant Tallied(seen, colorCount)
      decreases height - y
    {
      colorCount, seen := CountRow(img, g, y, seen, colorCount);
      y := y + g;
    }
    GridEnd(img, g, y, seen);
    TallyPositive(seen, colorCount);
    modeColor := PickMode(colorCount);
    ModeOfTally(seen, colorCount, modeColor);
  }


  // ---------------------------------------------------------------------------
  // Properties

  lemma MeanUniform(n: nat, v: Byte)
    requires n > 0
    ensures n * v <= n * 255 && ByteMean(n * v, n) == v
  {
    assert n * v <= n * 255;
    DivUnique(n * v, n, v, 0);
  }



  lemma RootMeanUniform(n: nat, v: Byte)
    requires n > 0
    ensures n * (v * v) <= n * 65025 && ByteRootMean(n * (v * v), n) == v
  {
    var q: nat := v * v;
    MulMonotone(v, 255);
    MulLeft(q, 65025, n);
    DivUnique(n * q, n, q, 0);
    assert (v + 1) * (v + 1) == q + 2 * v + 1;
    IntSqrtUnique(q, v);
  }

  /** On a uniform image the visited sums are the visited count times the
      colour's weight in each channel. */
  lemma UniformSums(img: Image, g: nat, c: Rgba, k: Chan)
    requires g > 0 && Uniform(img, c)
    ensures SumOf(Samples(img, g), k, Plain) == |Samples(img, g)| * Component(c, k)
    ensures SumOf(Samples(img, g), k, Square) == |Samples(img, g)| * (Component(c, k) * Component(c, k))
  {
    SamplesUniform(img, g, c);
    SumUniform(Samples(img, g), k, Plain, c);
    SumUniform(Samples(img, g), k, Square, c);
  }

  /** With grid size 1 every pixel is visited once, so a uniform image
      averages, and square-averages, to its own colour. */
  lemma AveragesUniform(img: Image, c: Rgba)
    requires img.width * img.height > 0 && Uniform(img, c)
    ensures Average(img, 1) == c && SquaredAverage(img, 1) == c
  {
    var n := img.width * img.height;
    SamplesCount(img, 1);
    forall k | k in {R, G, B, A}
      ensures AverageChannel(img, 1, k) == Component(c, k)
      ensures SquaredAverageChannel(img, 1, k) == Component(c, k)
    {
      UniformSums(img, 1, c, k);
      MeanUniform(n, Component(c, k));
      RootMeanUniform(n, Component(c, k));
    }
  }

  /** A uniform image has its colour as median, whatever the grid size. */
  lemma MedianUniform(img: Image, g: nat, c: Rgba)
    requires g > 0 && img.width > 0 && img.height > 0 && Uniform(img, c)
    ensures MedianOf(img, g) == c
  {
    SamplesNonEmpty(img, g);
    MedianUniformChannel(img, g, c, R);
    MedianUniformChannel(img, g, c, G);
    MedianUniformChannel(img, g, c, B);
    MedianUniformChannel(img, g, c, A);
  }

  lemma MedianUniformChannel(img: Image, g: nat, c: Rgba, k: Chan)
    requires g > 0 && |Samples(img, g)| > 0 && Uniform(img, c)
    ensures Median(ChannelValues(Samples(img, g), k)) == Component(c, k)
  {
    var s := Samples(img, g);
    SamplesUniform(img, g, c);
    ChannelValuesAt(s, k);
    UniformMedian(ChannelValues(s, k), Component(c, k));
  }

  /** Each median channel lies between the smallest and the largest value of
      that channel among the visited pixels. */
  lemma MedianBetween(img: Image, g: nat, k: Chan)
    requires g > 0 && img.width > 0 && img.height > 0
    ensures var s, m := Samples(img, g), Component(MedianOf(img, g), k);
            && (exists i | 0 <= i < |s| :: Component(s[i], k) <= m)
            && (exists j | 0 <= j < |s| :: m <= Component(s[j], k))
  {
    MedianChannel(img, g, k);
    ChannelMedianBetween(Samples(img, g), k);
  }

  /** Any rearrangement of a channel's visited values has the same median:
      the order of the visit does not matter. */
  lemma MedianOrderFree(img: Image, g: nat, k: Chan, other: seq<Byte>)
    requires g > 0 && img.width > 0 && img.height > 0
    requires multiset(other) == multiset(ChannelValues(Samples(img, g), k))
    ensures |other| > 0 && Component(MedianOf(img, g), k) == Median(other)
  {
    MedianChannel(img, g, k);
    MedianRearranged(ChannelValues(Samples(img, g), k), other);
  }

  /** One channel of the median colour is the median of that channel. */
  lemma MedianChannel(img: Image, g: nat, k: Chan)
    requires g > 0 && img.width > 0 && img.height > 0
    ensures |ChannelValues(Samples(img, g), k)| > 0
    ensures Component(MedianOf(img, g), k) == Median(ChannelValues(Samples(img, g), k))
  {
    SamplesNonEmpty(img, g);
  }

  // ---------------------------------------------------------------------------
  // The divisor of the averages

  /** The averages as evidently intended: divided by the number of visited
      pixels rather than by width * height. */
  function IntendedAverageChannel(img: Image, g: nat, k: Chan): (v: Byte)
    requires g > 0 && img.width > 0 && img.height > 0
  {
    var s := Samples(img, g);
    SamplesNonEmpty(img, g);
    SumBound(s, k, Plain);
    ByteMean(SumOf(s, k, Plain), |s|)
  }

  function IntendedAverage(img: Image, g: nat): Rgba
    requires g > 0 && img.width > 0 && img.height > 0
  {
    Rgba(IntendedAverageChannel(img, g, R), IntendedAverageChannel(img, g, G),
         IntendedAverageChannel(img, g, B), IntendedAverageChannel(img, g, A))
  }

  function IntendedSquaredAverageChannel(img: Image, g: nat, k: Chan): (v: Byte)
    requires g > 0 && img.width > 0 && img.height > 0
  {
    var s := Samples(img, g);
    SamplesNonEmpty(img, g);
    SumBound(s, k, Square);
    ByteRootMean(SumOf(s, k, Square), |s|)
  }

  function IntendedSquaredAverage(img: Image, g: nat): Rgba
    requires g > 0 && img.width > 0 && img.height > 0
  {
    Rgba(IntendedSquaredAverageChannel(img, g, R), IntendedSquaredAverageChannel(img, g, G),
         IntendedSquaredAverageChannel(img, g, B), IntendedSquaredAverageChannel(img, g, A))
  }

  /** Divided by the visited count, a uniform image gives back its colour for
      every grid size. */
  lemma IntendedAveragesUniform(img: Image, g: nat, c: Rgba)
    requires g > 0 && img.width > 0 && img.height > 0 && Uniform(img, c)
    ensures IntendedAverage(img, g) == c && IntendedSquaredAverage(img, g) == c
  {
    var n := |Samples(img, g)|;
    SamplesNonEmpty(img, g);
    forall k | k in {R, G, B, A}
      ensures IntendedAverageChannel(img, g, k) == Component(c, k)
      ensures IntendedSquaredAverageChannel(img, g, k) == Component(c, k)
    {
      UniformSums(img, g, c, k);
      MeanUniform(n, Component(c, k));
      RootMeanUniform(n, Component(c, k));
    }
  }

  /** With grid size 1 the visited count is width * height, so the intended
      averages agree with the code as written. */
  lemma IntendedMatchesWithFullGrid(img: Image)
    requires img.width > 0 && img.height > 0
    ensures IntendedAverage(img, 1) == Average(img, 1)
    ensures IntendedSquaredAverage(img, 1) == SquaredAverage(img, 1)
  {
    SamplesCount(img, 1);
  }

  /** A 2 x 2 image of value 255 everywhere. */
  function Bright2x2(): Image
  {
    var p := Rgba(255, 255, 255, 255);
    Raster(2, 2, [[p, p], [p, p]])
  }

  /** As written, grid size 2 visits one pixel of the 2 x 2 image but divides
      by four: the averages come out at 63 and 127 instead of 255. */
  lemma GridTwoUndercounts()
    ensures Uniform(Bright2x2(), Rgba(255, 255, 255, 255))
    ensures Average(Bright2x2(), 2) == Rgba(63, 63, 63, 63)
    ensures SquaredAverage(Bright2x2(), 2) == Rgba(127, 127, 127, 127)
    ensures IntendedAverage(Bright2x2(), 2) == Rgba(255, 255, 255, 255)
  {
    var img := Bright2x2();
    var p := Rgba(255, 255, 255, 255);
    assert RowSamples(img.pix[0], 2, 2) == [];
    assert RowSamples(img.pix[0], 2, 0) == [p];
    assert GridFrom(img, 2, 2) == [];
    assert Samples(img, 2) == [p];
    assert [p][..0] == [];
    forall k | k in {R, G, B, A}
      ensures SquaredAverageChannel(img, 2, k) == 127
    {
      assert SumOf([p], k, Square) == 65025;
      IntSqrtUnique(16256, 127);
    }
    IntendedAveragesUniform(img, 2, p);
  }
}
