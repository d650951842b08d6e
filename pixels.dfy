/** The captured image, the grid sampling shared by every colour reducer, and
    the value-level facts the reducers are specified with: channel sums, a
    sort, the middle-value rule and colour counts. */
module Pixels {
  import opened Numeric

  /** An 8-bit RGBA pixel (Go's color.RGBA). */
  datatype Rgba = Rgba(red: Byte, green: Byte, blue: Byte, alpha: Byte)

  /** The zero colour: what a reducer returns when it has nothing to choose. */
  const Zero: Rgba := Rgba(0, 0, 0, 0)

  datatype Chan = R | G | B | A

  function Component(p: Rgba, k: Chan): Byte
  {
    match k
    case R => p.red
    case G => p.green
    case B => p.blue
    case A => p.alpha
  }

  /** A colour built channel by channel. */
  function FromChannels(r: Byte, g: Byte, b: Byte, a: Byte): (p: Rgba)
    ensures Component(p, R) == r && Component(p, G) == g && Component(p, B) == b && Component(p, A) == a
  {
    Rgba(r, g, b, a)
  }

  /** What RGBA() gives for an 8-bit channel of an opaque-or-not color.RGBA:
      the 16-bit value c * 0x101, from which a shift right by 8 recovers c. */
  function Expand16(c: Byte): (w: nat)
    ensures w / 256 == c && w <= 65535
    ensures w == 0 <==> c == 0
  {
    c * 257
  }

  /** A rectangular image whose bounds start at (0, 0): height rows of width
      pixels, addressed as pix[y][x]. */
  datatype Raster = Raster(width: nat, height: nat, pix: seq<seq<Rgba>>)

  predicate Rectangular(r: Raster)
  {
    |r.pix| == r.height && forall y | 0 <= y < |r.pix| :: |r.pix[y]| == r.width
  }

  type Image = r: Raster | Rectangular(r) witness Raster(0, 0, [])

  // ---------------------------------------------------------------------------
  // Grid sampling: every g-th column of every g-th row, in row-major order

  function RowSamples(row: seq<Rgba>, g: nat, x: nat): seq<Rgba>
    requires g > 0
    decreases |row| - x
  {
    if x >= |row| then [] else [row[x]] + RowSamples(row, g, x + g)
  }

  function GridFrom(img: Image, g: nat, y: nat): seq<Rgba>
    requires g > 0
    decreases img.height - y
  {
    if y >= img.height then [] else RowSamples(img.pix[y], g, 0) + GridFrom(img, g, y + g)
  }

  /** The pixels a reducer visits with grid size g. */
  function Samples(img: Image, g: nat): seq<Rgba>
    requires g > 0
  {
    GridFrom(img, g, 0)
  }

  /** The traversal, one step at a time: visited pixels followed by the rest
      of the current row and the rows below make up all the samples. */
  predicate InRow(img: Image, g: nat, y: nat, x: nat, seen: seq<Rgba>)
    requires g > 0 && y < img.height
  {
    seen + RowSamples(img.pix[y], g, x) + GridFrom(img, g, y + g) == Samples(img, g)
  }

  predicate AtRow(img: Image, g: nat, y: nat, seen: seq<Rgba>)
    requires g > 0
  {
    seen + GridFrom(img, g, y) == Samples(img, g)
  }

  lemma RowStart(img: Image, g: nat, y: nat, seen: seq<Rgba>)
    requires g > 0 && y < img.height && AtRow(img, g, y, seen)
    ensures InRow(img, g, y, 0, seen)
  {
  }

  lemma VisitPixel(img: Image, g: nat, y: nat, x: nat, seen: seq<Rgba>)
    requires g > 0 && y < img.height && x < img.width && InRow(img, g, y, x, seen)
    ensures InRow(img, g, y, x + g, seen + [img.pix[y][x]])
  {
    var row := img.pix[y];
    assert RowSamples(row, g, x) == [row[x]] + RowSamples(row, g, x + g);
  }

  lemma RowEnd(img: Image, g: nat, y: nat, x: nat, seen: seq<Rgba>)
    requires g > 0 && y < img.height && x >= img.width && InRow(img, g, y, x, seen)
    ensures AtRow(img, g, y + g, seen)
  {
    assert RowSamples(img.pix[y], g, x) == [];
  }

  lemma GridEnd(img: Image, g: nat, y: nat, seen: seq<Rgba>)
    requires g > 0 && y >= img.height && AtRow(img, g, y, seen)
    ensures seen == Samples(img, g)
  {
  }

  lemma {:induction false} RowSamplesCount(row: seq<Rgba>, g: nat, x: nat)
    requires g > 0
    ensures |RowSamples(row, g, x)| <= |row| - x || x >= |row|
    ensures g == 1 && x <= |row| ==> |RowSamples(row, g, x)| == |row| - x
    ensures |RowSamples(row, g, x)| > 0 <==> x < |row|
    decreases |row| - x
  {
    if x < |row| {
      RowSamplesCount(row, g, x + g);
    }
  }

  lemma {:induction false} GridFromCount(img: Image, g: nat, y: nat)
    requires g > 0 && y <= img.height
    ensures |GridFrom(img, g, y)| <= (img.height - y) * img.width
    ensures g == 1 ==> |GridFrom(img, g, y)| == (img.height - y) * img.width
    decreases img.height - y
  {
    if y < img.height {
      var a, w := img.height - y, img.width;
      var row := RowSamples(img.pix[y], g, 0);
      RowSamplesCount(img.pix[y], g, 0);
      assert |row| <= w && (g == 1 ==> |row| == w);
      assert GridFrom(img, g, y) == row + GridFrom(img, g, y + g);
      if y + g <= img.height {
        GridFromCount(img, g, y + g);
        assert img.height - (y + g) == a - g;
        RowsStep(a, g, w);
      } else {
        assert GridFrom(img, g, y + g) == [];
        assert g == 1 ==> a == 1;
        OneRow(a, w);
      }
    }
  }

  lemma RowsStep(a: nat, g: nat, w: nat)
    requires 1 <= g <= a
    ensures w + (a - g) * w <= a * w
    ensures g == 1 ==> w + (a - g) * w == a * w
  {
    assert a * w == w + (a - g) * w + (g - 1) * w;
  }

  lemma OneRow(a: nat, w: nat)
    requires a >= 1
    ensures w <= a * w
    ensures a == 1 ==> a * w == w
  {
    assert a * w == w + (a - 1) * w;
  }

  lemma {:induction false} GridFromNonEmpty(img: Image, g: nat, y: nat)
    requires g > 0
    ensures |GridFrom(img, g, y)| > 0 <==> y < img.height && img.width > 0
    decreases img.height - y
  {
    if y < img.height {
      RowSamplesCount(img.pix[y], g, 0);
      GridFromNonEmpty(img, g, y + g);
    }
  }

  /** At most width * height pixels are visited, all of them when g is 1, and
      some exactly when the image is not empty. */
  lemma SamplesCount(img: Image, g: nat)
    requires g > 0
    ensures |Samples(img, g)| <= img.width * img.height
    ensures g == 1 ==> |Samples(img, g)| == img.width * img.height
    ensures |Samples(img, g)| > 0 <==> img.width > 0 && img.height > 0
  {
    GridFromCount(img, g, 0);
    assert (img.height - 0) * img.width == img.width * img.height;
    GridFromNonEmpty(img, g, 0);
  }

  /** Some pixel is visited exactly when the image is not empty. */
  lemma SamplesNonEmpty(img: Image, g: nat)
    requires g > 0
    ensures |Samples(img, g)| > 0 <==> img.width > 0 && img.height > 0
  {
    GridFromNonEmpty(img, g, 0);
  }

  /** An image all of whose pixels are c. */
  predicate Uniform(img: Image, c: Rgba)
  {
    forall y, x | 0 <= y < img.height && 0 <= x < img.width :: img.pix[y][x] == c
  }

  lemma {:induction false} RowSamplesUniform(row: seq<Rgba>, g: nat, x: nat, c: Rgba)
    requires g > 0
    requires forall i | 0 <= i < |row| :: row[i] == c
    ensures forall i | 0 <= i < |RowSamples(row, g, x)| :: RowSamples(row, g, x)[i] == c
    decreases |row| - x
  {
    if x < |row| {
      RowSamplesUniform(row, g, x + g, c);
    }
  }

  lemma {:induction false} GridFromUniform(img: Image, g: nat, y: nat, c: Rgba)
    requires g > 0 && Uniform(img, c)
    ensures forall i | 0 <= i < |GridFrom(img, g, y)| :: GridFrom(img, g, y)[i] == c
    decreases img.height - y
  {
    if y < img.height {
      RowSamplesUniform(img.pix[y], g, 0, c);
      GridFromUniform(img, g, y + g, c);
    }
  }

  /** Every visited pixel of a uniform image is its colour. */
  lemma SamplesUniform(img: Image, g: nat, c: Rgba)
    requires g > 0 && Uniform(img, c)
    ensures forall i | 0 <= i < |Samples(img, g)| :: Samples(img, g)[i] == c
  {
    GridFromUniform(img, g, 0, c);
  }

  // ---------------------------------------------------------------------------
  // Channel sums

  /** How a channel value enters a sum: as is, as its 16-bit expansion, or the
      square of either. */
  datatype Weight = Plain | Wide | Square | WideSquare

  function Weigh(c: Byte, w: Weight): nat
  {
    match w
    case Plain => c
    case Wide => Expand16(c)
    case Square => c * c
    case WideSquare => Expand16(c) * Expand16(c)
  }

  /** The largest weight of a byte: 255, 65535 and their squares
      (65025 = 255 * 255, 4294836225 = 65535 * 65535). */
  function MaxWeight(w: Weight): nat
  {
    match w
    case Plain => 255
    case Wide => 65535
    case Square => 65025
    case WideSquare => 4294836225
  }

  lemma WeighBound(c: Byte, w: Weight)
    ensures Weigh(c, w) <= MaxWeight(w)
  {
    if w == Square {
      MulMonotone(c, 255);
    } else if w == WideSquare {
      MulMonotone(Expand16(c), 65535);
    }
  }

  /** The sum of one channel, weighted, over a sequence of pixels. */
  function SumOf(s: seq<Rgba>, k: Chan, w: Weight): nat
  {
    if s == [] then 0 else SumOf(s[..|s| - 1], k, w) + Weigh(Component(s[|s| - 1], k), w)
  }

  lemma {:induction false} SumBound(s: seq<Rgba>, k: Chan, w: Weight)
    ensures SumOf(s, k, w) <= |s| * MaxWeight(w)
  {
    if s != [] {
      SumBound(s[..|s| - 1], k, w);
      WeighBound(Component(s[|s| - 1], k), w);
    }
  }

  /** The sum over pixels that are all c is the count times c's weight. */
  lemma {:induction false} SumUniform(s: seq<Rgba>, k: Chan, w: Weight, c: Rgba)
    requires forall i | 0 <= i < |s| :: s[i] == c
    ensures SumOf(s, k, w) == |s| * Weigh(Component(c, k), w)
  {
    if s != [] {
      var front := s[..|s| - 1];
      assert forall i | 0 <= i < |front| :: front[i] == s[i];
      SumUniform(front, k, w, c);
      var x := Weigh(Component(c, k), w);
      assert s[|s| - 1] == c;
      assert SumOf(s, k, w) == SumOf(front, k, w) + x;
      MulSucc(|front|, x);
    }
  }

  lemma MulSucc(n: nat, x: nat)
    ensures (n + 1) * x == n * x + x
  {
  }

  lemma SumAppend(s: seq<Rgba>, p: Rgba, k: Chan, w: Weight)
    ensures SumOf(s + [p], k, w) == SumOf(s, k, w) + Weigh(Component(p, k), w)
  {
    assert (s + [p])[..|s|] == s;
  }

  /** The four running sums of an averaging reducer are the weighted channel
      sums of the pixels seen so far. */
  predicate Summed(seen: seq<Rgba>, w: Weight, sumR: int, sumG: int, sumB: int, sumA: int)
  {
    && sumR == SumOf(seen, R, w) && sumG == SumOf(seen, G, w)
    && sumB == SumOf(seen, B, w) && sumA == SumOf(seen, A, w)
  }

  lemma SumStep(seen: seq<Rgba>, p: Rgba, w: Weight, sumR: int, sumG: int, sumB: int, sumA: int)
    requires Summed(seen, w, sumR, sumG, sumB, sumA)
    ensures Summed(seen + [p], w, sumR + Weigh(p.red, w), sumG + Weigh(p.green, w),
                   sumB + Weigh(p.blue, w), sumA + Weigh(p.alpha, w))
  {
    SumAppend(seen, p, R, w);
    SumAppend(seen, p, G, w);
    SumAppend(seen, p, B, w);
    SumAppend(seen, p, A, w);
  }

  // ---------------------------------------------------------------------------
  // Channel values, the sort and the middle-value rule

  /** One channel of each pixel, in order. */
  function ChannelValues(s: seq<Rgba>, k: Chan): (v: seq<Byte>)
    ensures |v| == |s|
  {
    if s == [] then [] else ChannelValues(s[..|s| - 1], k) + [Component(s[|s| - 1], k)]
  }

  /** The i-th value is the i-th pixel's channel. */
  lemma {:induction false} ChannelValuesAt(s: seq<Rgba>, k: Chan)
    ensures forall i | 0 <= i < |s| :: ChannelValues(s, k)[i] == Component(s[i], k)
  {
    if s != [] {
      var front := s[..|s| - 1];
      ChannelValuesAt(front, k);
      assert ChannelValues(s, k) == ChannelValues(front, k) + [Component(s[|s| - 1], k)];
    }
  }

  lemma ChannelValuesAppend(s: seq<Rgba>, p: Rgba)
    ensures forall k :: ChannelValues(s + [p], k) == ChannelValues(s, k) + [Component(p, k)]
  {
    assert (s + [p])[..|s|] == s;
  }

  /** The four channel lists a median reducer builds hold the channels of
      the pixels seen so far, in order. */
  predicate Collected(seen: seq<Rgba>, reds: seq<Byte>, greens: seq<Byte>, blues: seq<Byte>, alphas: seq<Byte>)
  {
    && reds == ChannelValues(seen, R) && greens == ChannelValues(seen, G)
    && blues == ChannelValues(seen, B) && alphas == ChannelValues(seen, A)
  }

  lemma CollectStep(seen: seq<Rgba>, p: Rgba, reds: seq<Byte>, greens: seq<Byte>, blues: seq<Byte>, alphas: seq<Byte>)
    requires Collected(seen, reds, greens, blues, alphas)
    ensures Collected(seen + [p], reds + [p.red], greens + [p.green], blues + [p.blue], alphas + [p.alpha])
  {
    ChannelValuesAppend(seen, p);
  }

  predicate SortedBytes(v: seq<Byte>)
  {
    forall i, j | 0 <= i < j < |v| :: v[i] <= v[j]
  }

  function Insert(x: Byte, v: seq<Byte>): (t: seq<Byte>)
    requires SortedBytes(v)
    ensures SortedBytes(t) && multiset(t) == multiset(v) + multiset{x}
    ensures |t| == |v| + 1
  {
    if v == [] then [x]
    else if x <= v[0] then
      SortedCons(x, v);
      [x] + v
    else
      var rest := Insert(x, v[1..]);
      InsertBehind(x, v, rest);
      [v[0]] + rest
  }

  /** A value above the head goes behind it: the head leads the insertion
      into the tail. */
  lemma InsertBehind(x: Byte, v: seq<Byte>, rest: seq<Byte>)
    requires SortedBytes(v) && v != [] && v[0] < x
    requires SortedBytes(rest) && multiset(rest) == multiset(v[1..]) + multiset{x}
    ensures SortedBytes([v[0]] + rest) && multiset([v[0]] + rest) == multiset(v) + multiset{x}
  {
    assert v == [v[0]] + v[1..];
    forall i | 0 <= i < |rest|
      ensures v[0] <= rest[i]
    {
      assert rest[i] in multiset(v[1..]) + multiset{x};
      if rest[i] != x {
        assert rest[i] in v[1..];
      }
    }
    SortedCons(v[0], rest);
  }

  lemma SortedCons(h: Byte, v: seq<Byte>)
    requires SortedBytes(v) && forall i | 0 <= i < |v| :: h <= v[i]
    ensures SortedBytes([h] + v)
  {
    var t := [h] + v;
    forall i, j | 0 <= i < j < |t|
      ensures t[i] <= t[j]
    {
      if i > 0 {
        assert t[i] == v[i - 1] && t[j] == v[j - 1];
      }
    }
  }

  /** An ascending arrangement of the values (what sort.Slice leaves behind). */
  function Sort(v: seq<Byte>): (t: seq<Byte>)
    ensures SortedBytes(t) && multiset(t) == multiset(v) && |t| == |v|
  {
    if v == [] then []
    else
      assert v == v[..|v| - 1] + [v[|v| - 1]];
      Insert(v[|v| - 1], Sort(v[..|v| - 1]))
  }

  /** Two ascending sequences with the same values are equal. */
  lemma {:induction false} SortedUnique(a: seq<Byte>, b: seq<Byte>)
    requires SortedBytes(a) && SortedBytes(b) && multiset(a) == multiset(b)
    ensures a == b
    decreases |a|
  {
    assert |b| == |a| by { assert |multiset(a)| == |a| && |multiset(b)| == |b|; }
    if a != [] {
      HeadsEqual(a, b);
      TailMultiset(a);
      TailMultiset(b);
      SortedUnique(a[1..], b[1..]);
      assert a == [a[0]] + a[1..] && b == [b[0]] + b[1..];
    }
  }

  /** Two non-empty ascending sequences with the same values start alike:
      each head is at most the other. */
  lemma HeadsEqual(a: seq<Byte>, b: seq<Byte>)
    requires |a| > 0 && |b| > 0 && SortedBytes(a) && SortedBytes(b) && multiset(a) == multiset(b)
    ensures a[0] == b[0]
  {
    assert a[0] in multiset(b);
    var j :| 0 <= j < |b| && b[j] == a[0];
    assert b[0] <= b[j];
    assert b[0] in multiset(a);
    var i :| 0 <= i < |a| && a[i] == b[0];
    assert a[0] <= a[i];
  }

  /** Dropping the head of a sequence removes one occurrence of it. */
  lemma TailMultiset(a: seq<Byte>)
    requires |a| > 0
    ensures multiset(a[1..]) == multiset(a) - multiset{a[0]}
    ensures SortedBytes(a) ==> SortedBytes(a[1..])
  {
    assert a == [a[0]] + a[1..];
  }

  /** The median of ascending values: the middle one for an odd count, the
      floor of the mean of the two middle ones for an even count. */
  function MiddleValue(v: seq<Byte>): Byte
    requires |v| > 0
  {
    var n := |v|;
    if n % 2 == 0 then
      var sum := v[n / 2 - 1] as int + v[n / 2] as int;
      assert sum / 2 <= 255;
      sum / 2
    else v[n / 2]
  }

  /** The median lies between the smallest and the largest value. */
  lemma MiddleValueBounds(v: seq<Byte>)
    requires |v| > 0 && SortedBytes(v)
    ensures v[0] <= MiddleValue(v) <= v[|v| - 1]
    ensures |v| % 2 == 1 ==> MiddleValue(v) == v[|v| / 2]
    ensures |v| % 2 == 0 ==> MiddleValue(v) == (v[|v| / 2 - 1] as int + v[|v| / 2] as int) / 2
  {
  }

  /** The median of a collection of channel values, via the sort. */
  function Median(v: seq<Byte>): Byte
    requires |v| > 0
  {
    MiddleValue(Sort(v))
  }

  /** Values that are all x have median x. */
  lemma UniformMedian(v: seq<Byte>, x: Byte)
    requires |v| > 0 && forall i | 0 <= i < |v| :: v[i] == x
    ensures Median(v) == x
  {
    var t := Sort(v);
    assert forall i | 0 <= i < |t| :: t[i] == x by {
      forall i | 0 <= i < |t|
        ensures t[i] == x
      {
        assert t[i] in multiset(v);
      }
    }
    assert t[|t| / 2] == x;
    assert |t| >= 2 ==> t[|t| / 2 - 1] == x;
  }

  /** Any rearrangement of the values has the same median. */
  lemma MedianRearranged(v: seq<Byte>, u: seq<Byte>)
    requires |v| > 0 && multiset(u) == multiset(v)
    ensures |u| > 0 && Median(u) == Median(v)
  {
    assert |u| == |v| by { assert |multiset(u)| == |u| && |multiset(v)| == |v|; }
    SortedUnique(Sort(u), Sort(v));
  }

  /** The median lies between two of the values, and is one of them for an
      odd count. */
  lemma MedianWithin(v: seq<Byte>)
    requires |v| > 0
    ensures |v| % 2 == 1 ==> Median(v) in multiset(v)
    ensures exists i, j | 0 <= i < |v| && 0 <= j < |v| :: v[i] <= Median(v) <= v[j]
  {
    var t := Sort(v);
    MiddleValueBounds(t);
    assert t[|t| / 2] in multiset(t);
    assert t[0] in multiset(v) && t[|t| - 1] in multiset(v);
    var i :| 0 <= i < |v| && v[i] == t[0];
    var j :| 0 <= j < |v| && v[j] == t[|t| - 1];
    assert v[i] <= Median(v) <= v[j];
  }

  /** The median of a channel lies between two of the pixels' values of it. */
  lemma ChannelMedianBetween(s: seq<Rgba>, k: Chan)
    requires |s| > 0
    ensures exists i | 0 <= i < |s| :: Component(s[i], k) <= Median(ChannelValues(s, k))
    ensures exists j | 0 <= j < |s| :: Median(ChannelValues(s, k)) <= Component(s[j], k)
  {
    var v := ChannelValues(s, k);
    ChannelValuesAt(s, k);
    MedianWithin(v);
    var i, j :| 0 <= i < |v| && 0 <= j < |v| && v[i] <= Median(v) <= v[j];
    assert Component(s[i], k) <= Median(v) <= Component(s[j], k);
  }

  // ---------------------------------------------------------------------------
  // Colour counts

  /** How often a colour occurs among the pixels. */
  function Count(s: seq<Rgba>, c: Rgba): nat
  {
    multiset(s)[c]
  }

  /** A colour-count map holds exactly the colours seen, each with its count. */
  ghost predicate Tallied(seen: seq<Rgba>, counts: map<Rgba, nat>)
  {
    && (forall c :: c in counts <==> c in multiset(seen))
    && (forall c | c in counts :: counts[c] == Count(seen, c))
  }

  lemma TallyEmpty()
    ensures Tallied([], map[])
  {
  }

  lemma TallyPositive(s: seq<Rgba>, counts: map<Rgba, nat>)
    requires Tallied(s, counts)
    ensures forall c | c in counts :: counts[c] > 0
  {
    forall c | c in counts
      ensures counts[c] > 0
    {
      assert c in multiset(s);
    }
  }

  lemma TallyStep(seen: seq<Rgba>, p: Rgba, counts: map<Rgba, nat>)
    requires Tallied(seen, counts)
    ensures Tallied(seen + [p], counts[p := (if p in counts then counts[p] else 0) + 1])
  {
    assert multiset(seen + [p]) == multiset(seen) + multiset{p};
  }

  /** A colour of maximal count among the pixels, or the zero colour for none. */
  predicate IsMode(s: seq<Rgba>, m: Rgba)
  {
    if s == [] then m == Zero
    else m in s && forall c | c in s :: Count(s, c) <= Count(s, m)
  }
}
