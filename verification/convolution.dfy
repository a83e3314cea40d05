/** One axis pass of blur (main.cpp:162-178 horizontally, 183-199 vertically): for every pixel,
    rows ascending and columns ascending, sum `sample * pascalRow[k + r]` over the taps whose
    neighbour is inside the image, then overwrite the sample IN PLACE with `sum / pascalRowSum`.
    Because the write goes straight into the image, later pixels of the same pass read the
    already-blurred values of the pixels before them (left neighbours horizontally, upper
    neighbours vertically). */
module Convolution {
  import opened Machine
  import opened Arithmetic
  import opened Image
  import opened Kernels

  datatype Axis = Horizontal | Vertical

  /** The neighbour test `(0 > pos + k) || (pos + k >= limit)` as C++ evaluates it: pos is a
      `size_t` loop index, so `pos + k` is taken modulo 2^64 and `0 > pos + k` is always false;
      a negative `pos + k` wraps to a huge value that the second disjunct rejects instead. */
  function TapSkipped(pos: nat, k: int, limit: nat): (skip: bool)
    requires pos < limit <= INT32_MAX
    requires -INT32_MAX <= k <= INT32_MAX
    ensures skip <==> !(0 <= pos + k < limit)
  {
    var u := ToUnsigned64(pos + k);
    0 > u || u >= limit
  }

  /** Contribution of tap t (offset k = t - r) to the accumulator of pixel (x, y): the
      neighbour's sample times the weight, or nothing when the neighbour is outside. */
  function TapTerm(img: ImageVec, w: nat, h: nat, axis: Axis, c: nat, kern: Kernel, x: nat, y: nat, t: nat): int
    requires |img| == w * h && c < CHANNELS && x < w && y < h && t < |kern.weights|
  {
    var k := t - kern.radius;
    match axis
    case Horizontal =>
      if 0 <= x + k < w then IndexInBounds(w, h, x + k, y); img[Index(w, x + k, y)][c] * kern.weights[t] else 0
    case Vertical =>
      if 0 <= y + k < h then IndexInBounds(w, h, x, y + k); img[Index(w, x, y + k)][c] * kern.weights[t] else 0
  }

  /** A single tap adds between 0 and 255 times its weight. */
  lemma TapTermBounds(img: ImageVec, w: nat, h: nat, axis: Axis, c: nat, kern: Kernel, x: nat, y: nat, t: nat)
    requires |img| == w * h && c < CHANNELS && x < w && y < h && t < |kern.weights| && Valid(kern)
    ensures 0 <= TapTerm(img, w, h, axis, c, kern, x, y, t) <= 255 * kern.weights[t]
  {
    var weight := kern.weights[t];
    var k := t - kern.radius;
    TapTermAt(img, w, h, axis, c, kern, x, y, t);
    if axis == Horizontal && 0 <= x + k < w {
      SampleProduct(img[Index(w, x + k, y)][c], weight);
    } else if axis == Vertical && 0 <= y + k < h {
      SampleProduct(img[Index(w, x, y + k)][c], weight);
    }
  }

  lemma SampleProduct(sample: Byte, weight: int)
    requires 0 <= weight
    ensures 0 <= sample * weight <= 255 * weight
  {
    MulMonotone(sample, 255, weight, weight);
  }

  /** The accumulator after the first t taps. */
  function TapSum(img: ImageVec, w: nat, h: nat, axis: Axis, c: nat, kern: Kernel, x: nat, y: nat, t: nat): int
    requires |img| == w * h && c < CHANNELS && x < w && y < h && t <= |kern.weights|
  {
    if t == 0 then 0 else TapSum(img, w, h, axis, c, kern, x, y, t - 1) + TapTerm(img, w, h, axis, c, kern, x, y, t - 1)
  }

  /** After t taps the accumulator lies between 0 and 255 times the weights added so far. */
  lemma {:induction false} TapSumBounds(img: ImageVec, w: nat, h: nat, axis: Axis, c: nat, kern: Kernel, x: nat, y: nat, t: nat)
    requires |img| == w * h && c < CHANNELS && x < w && y < h && t <= |kern.weights| && Valid(kern)
    ensures 0 <= TapSum(img, w, h, axis, c, kern, x, y, t) <= 255 * Sum(kern.weights[..t])
  {
    if t > 0 {
      TapSumBounds(img, w, h, axis, c, kern, x, y, t - 1);
      PrefixSumNext(kern.weights, t - 1);
      TapTermBounds(img, w, h, axis, c, kern, x, y, t - 1);
    }
  }

  /** `buffer[y * w + x]` once all taps of pixel (x, y) are added. */
  function Accumulator(img: ImageVec, w: nat, h: nat, axis: Axis, c: nat, kern: Kernel, x: nat, y: nat): int
    requires |img| == w * h && c < CHANNELS && x < w && y < h
  {
    TapSum(img, w, h, axis, c, kern, x, y, |kern.weights|)
  }

  /** Every accumulator lies between 0 and 255 * pascalRowSum <= 255 * 65536: the `int`
      buffer cannot overflow. */
  lemma AccumulatorBounds(img: ImageVec, w: nat, h: nat, axis: Axis, c: nat, kern: Kernel, x: nat, y: nat)
    requires |img| == w * h && c < CHANNELS && x < w && y < h && Valid(kern)
    ensures 0 <= Accumulator(img, w, h, axis, c, kern, x, y) <= 255 * kern.sum <= 255 * MAX_KERNEL_SUM
  {
    TapSumBounds(img, w, h, axis, c, kern, x, y, |kern.weights|);
    assert kern.weights[..|kern.weights|] == kern.weights;
  }

  /** `image[...][color] = buffer[...] / pascalRowSum`: an `int` division (the operands are
      never negative, so truncation and Dafny's division agree) stored into an `unsigned char`. */
  function Store(acc: int, sum: int): Byte
    requires sum > 0
  {
    ToUnsignedChar(acc / sum)
  }

  /** The normalised accumulator never exceeds 255, so the store into an `unsigned char` never
      wraps: the written sample is exactly the quotient. */
  lemma StoreExact(acc: int, sum: int)
    requires 0 < sum && 0 <= acc <= 255 * sum
    ensures Store(acc, sum) == acc / sum <= 255
  {
    DivideBounds(acc, sum);
  }

  /** Processing pixel (x, y): its sample in channel c is replaced by the normalised accumulator,
      computed from the image as it is at that moment. */
  function Step(img: ImageVec, w: nat, h: nat, axis: Axis, c: nat, kern: Kernel, x: nat, y: nat): (r: ImageVec)
    requires |img| == w * h && c < CHANNELS && x < w && y < h && Valid(kern)
    ensures |r| == |img|
    ensures Index(w, x, y) < |img| && r == img[Index(w, x, y) := r[Index(w, x, y)]]
    ensures forall c' :: 0 <= c' < CHANNELS && c' != c ==> r[Index(w, x, y)][c'] == img[Index(w, x, y)][c']
    ensures r[Index(w, x, y)][c] == Store(Accumulator(img, w, h, axis, c, kern, x, y), kern.sum)
  {
    IndexInBounds(w, h, x, y);
    var p := Index(w, x, y);
    var v := Store(Accumulator(img, w, h, axis, c, kern, x, y), kern.sum);
    var px: Pixel := img[p][c := v];
    img[p := px]
  }

  /** The image once every pixel before (x, y) in row-major order has been processed. */
  function PassUpTo(img: ImageVec, w: nat, h: nat, axis: Axis, c: nat, kern: Kernel, x: nat, y: nat): (r: ImageVec)
    requires |img| == w * h && c < CHANNELS && Valid(kern)
    requires x <= w && y <= h && (y == h ==> x == 0)
    ensures |r| == |img|
    ensures forall p, c' :: 0 <= p < |r| && 0 <= c' < CHANNELS && c' != c ==> r[p][c'] == img[p][c']
    ensures forall p :: Index(w, x, y) <= p < |r| ==> r[p] == img[p]
    decreases y, x
  {
    if x == 0 then
      if y == 0 then img
      else IndexRowEnd(w, y - 1); PassUpTo(img, w, h, axis, c, kern, w, y - 1)
    else
      Step(PassUpTo(img, w, h, axis, c, kern, x - 1, y), w, h, axis, c, kern, x - 1, y)
  }

  lemma IndexRowEnd(w: nat, y: nat)
    ensures Index(w, w, y) == Index(w, 0, y + 1)
  {
    Distribute(w, y, 1);
  }

  /** Once pixel (px, py) has been processed, no later step of the pass touches it again. */
  lemma {:induction false} WrittenPixelStays(img: ImageVec, w: nat, h: nat, axis: Axis, c: nat, kern: Kernel,
                                             px: nat, py: nat, x: nat, y: nat)
    requires |img| == w * h && c < CHANNELS && Valid(kern) && px < w && py < h
    requires x <= w && y <= h && (y == h ==> x == 0)
    requires Index(w, px, py) < Index(w, x, y)
    ensures Index(w, px, py) < |img|
    ensures PassUpTo(img, w, h, axis, c, kern, x, y)[Index(w, px, py)]
         == PassUpTo(img, w, h, axis, c, kern, px + 1, py)[Index(w, px, py)]
    decreases y, x
  {
    IndexInBounds(w, h, px, py);
    var p := Index(w, px, py);
    if x == 0 {
      IndexRowEnd(w, y - 1);
      WrittenPixelStays(img, w, h, axis, c, kern, px, py, w, y - 1);
    } else if Index(w, x - 1, y) == p {
      IndexInjective(w, x - 1, y, px, py);
    } else {
      WrittenPixelStays(img, w, h, axis, c, kern, px, py, x - 1, y);
    }
  }

  /** What the in-place pass leaves at pixel (x, y): the normalised accumulator taken over the
      image as it stood when the pass reached (x, y), i.e. with every earlier pixel in row-major
      order already overwritten; the other channels keep their input values. */
  lemma PassFinalSample(img: ImageVec, w: nat, h: nat, axis: Axis, c: nat, kern: Kernel, x: nat, y: nat)
    requires |img| == w * h && c < CHANNELS && Valid(kern) && x < w && y < h
    ensures Index(w, x, y) < |img|
    ensures Pass(img, w, h, axis, c, kern)[Index(w, x, y)][c]
         == Store(Accumulator(PassUpTo(img, w, h, axis, c, kern, x, y), w, h, axis, c, kern, x, y), kern.sum)
  {
    IndexInBounds(w, h, x, y);
    assert Index(w, 0, h) == w * h;
    WrittenPixelStays(img, w, h, axis, c, kern, x, y, 0, h);
  }

  /** A whole pass over channel c along axis. It keeps the pixel count and changes no channel
      other than c. */
  function Pass(img: ImageVec, w: nat, h: nat, axis: Axis, c: nat, kern: Kernel): (r: ImageVec)
    requires |img| == w * h && c < CHANNELS && Valid(kern)
    ensures |r| == |img|
    ensures forall p, c' :: 0 <= p < |r| && 0 <= c' < CHANNELS && c' != c ==> r[p][c'] == img[p][c']
  {
    PassUpTo(img, w, h, axis, c, kern, 0, h)
  }

  /** Channel c of row y, left to right. */
  function Row(img: ImageVec, w: nat, h: nat, c: nat, y: nat): seq<int>
    requires |img| == w * h && c < CHANNELS && y < h
  {
    seq(w, i requires 0 <= i < w => IndexInBounds(w, h, i, y); img[Index(w, i, y)][c] as int)
  }

  /** Channel c of column x, top to bottom. */
  function Column(img: ImageVec, w: nat, h: nat, c: nat, x: nat): seq<int>
    requires |img| == w * h && c < CHANNELS && x < w
  {
    seq(h, j requires 0 <= j < h => IndexInBounds(w, h, x, j); img[Index(w, x, j)][c] as int)
  }

  /** The samples of channel c along the axis through pixel (x, y). */
  function Line(img: ImageVec, w: nat, h: nat, axis: Axis, c: nat, x: nat, y: nat): seq<int>
    requires |img| == w * h && c < CHANNELS && x < w && y < h
  {
    match axis
    case Horizontal => Row(img, w, h, c, y)
    case Vertical => Column(img, w, h, c, x)
  }

  /** A line with r zero samples added at both ends. */
  function Padded(line: seq<int>, r: nat): seq<int>
  {
    seq(r, _ => 0) + line + seq(r, _ => 0)
  }

  /** The first t taps of the unguarded weighted sum over s starting at offset from. */
  function Dot(s: seq<int>, from: nat, weights: seq<int>, t: nat): int
    requires from + t <= |s| && t <= |weights|
  {
    if t == 0 then 0 else Dot(s, from, weights, t - 1) + s[from + t - 1] * weights[t - 1]
  }

  /** Tap t of pixel (x, y) reads entry pos + t of the padded line, where pos is x
      horizontally and y vertically. */
  lemma TapTermPadded(img: ImageVec, w: nat, h: nat, axis: Axis, c: nat, kern: Kernel, x: nat, y: nat, t: nat)
    requires |img| == w * h && c < CHANNELS && x < w && y < h && Valid(kern) && t < |kern.weights|
    ensures var pos := if axis == Horizontal then x else y;
            var padded := Padded(Line(img, w, h, axis, c, x, y), kern.radius);
            && pos + t < |padded|
            && TapTerm(img, w, h, axis, c, kern, x, y, t) == padded[pos + t] * kern.weights[t]
  {
    var line := Line(img, w, h, axis, c, x, y);
    var r := kern.radius;
    var padded := Padded(line, r);
    var pos := if axis == Horizontal then x else y;
    var i := pos + t;
    assert |padded| == |line| + 2 * r;
    if i < r {
      assert padded[i] == 0;
    } else if i < r + |line| {
      assert padded[i] == line[i - r];
    } else {
      assert padded[i] == 0;
    }
  }

  lemma PaddedLineLength(img: ImageVec, w: nat, h: nat, axis: Axis, c: nat, x: nat, y: nat, r: nat)
    requires |img| == w * h && c < CHANNELS && x < w && y < h
    ensures var pos := if axis == Horizontal then x else y;
            pos + 2 * r + 1 <= |Padded(Line(img, w, h, axis, c, x, y), r)|
  {
  }

  /** Zero padding: skipping the out-of-range taps gives exactly the plain weighted sum over
      the line padded with r zeros at each end. */
  lemma {:induction false} ZeroPadding(img: ImageVec, w: nat, h: nat, axis: Axis, c: nat, kern: Kernel, x: nat, y: nat, t: nat)
    requires |img| == w * h && c < CHANNELS && x < w && y < h && Valid(kern) && t <= |kern.weights|
    ensures var pos := if axis == Horizontal then x else y;
            var padded := Padded(Line(img, w, h, axis, c, x, y), kern.radius);
            && pos + t <= |padded|
            && TapSum(img, w, h, axis, c, kern, x, y, t) == Dot(padded, pos, kern.weights, t)
  {
    PaddedLineLength(img, w, h, axis, c, x, y, kern.radius);
    var pos := if axis == Horizontal then x else y;
    PaddedDot(img, w, h, axis, c, kern, x, y, t, Padded(Line(img, w, h, axis, c, x, y), kern.radius), pos);
  }

  /** ZeroPadding by induction on t, with the padded line and the position along the axis
      named by the caller. */
  lemma {:induction false} PaddedDot(img: ImageVec, w: nat, h: nat, axis: Axis, c: nat, kern: Kernel, x: nat, y: nat, t: nat,
                                     padded: seq<int>, pos: nat)
    requires |img| == w * h && c < CHANNELS && x < w && y < h && Valid(kern) && t <= |kern.weights|
    requires pos == (if axis == Horizontal then x else y)
    requires padded == Padded(Line(img, w, h, axis, c, x, y), kern.radius)
    requires pos + |kern.weights| <= |padded|
    ensures TapSum(img, w, h, axis, c, kern, x, y, t) == Dot(padded, pos, kern.weights, t)
  {
    if t > 0 {
      PaddedDot(img, w, h, axis, c, kern, x, y, t - 1, padded, pos);
      TapTermPadded(img, w, h, axis, c, kern, x, y, t - 1);
    }
  }

  /** A horizontal accumulator reads nothing outside its own row. */
  lemma HorizontalAccumulatorInRow(a: ImageVec, b: ImageVec, w: nat, h: nat, c: nat, kern: Kernel, x: nat, y: nat)
    requires |a| == w * h && |b| == w * h && c < CHANNELS && x < w && y < h && Valid(kern)
    requires Row(a, w, h, c, y) == Row(b, w, h, c, y)
    ensures Accumulator(a, w, h, Horizontal, c, kern, x, y) == Accumulator(b, w, h, Horizontal, c, kern, x, y)
  {
    ZeroPadding(a, w, h, Horizontal, c, kern, x, y, |kern.weights|);
    ZeroPadding(b, w, h, Horizontal, c, kern, x, y, |kern.weights|);
  }

  /** Processing one pixel of a horizontal pass keeps two images agreeing on a row. */
  lemma StepRowLocality(a: ImageVec, b: ImageVec, w: nat, h: nat, c: nat, kern: Kernel, x: nat, y: nat, row: nat)
    requires |a| == w * h && |b| == w * h && c < CHANNELS && Valid(kern) && row < h && x < w && y < h
    requires Row(a, w, h, c, row) == Row(b, w, h, c, row)
    ensures Row(Step(a, w, h, Horizontal, c, kern, x, y), w, h, c, row) == Row(Step(b, w, h, Horizontal, c, kern, x, y), w, h, c, row)
  {
    var a' := Step(a, w, h, Horizontal, c, kern, x, y);
    var b' := Step(b, w, h, Horizontal, c, kern, x, y);
    var p := Index(w, x, y);
    forall i | 0 <= i < w
      ensures Row(a', w, h, c, row)[i] == Row(b', w, h, c, row)[i]
    {
      IndexInBounds(w, h, i, row);
      var q := Index(w, i, row);
      assert Row(a, w, h, c, row)[i] == a[q][c];
      assert Row(b, w, h, c, row)[i] == b[q][c];
      if q == p {
        IndexInjective(w, i, row, x, y);
        HorizontalAccumulatorInRow(a, b, w, h, c, kern, x, y);
      }
    }
  }

  lemma {:induction false} PassUpToRowLocality(a: ImageVec, b: ImageVec, w: nat, h: nat, c: nat, kern: Kernel, x: nat, y: nat, row: nat)
    requires |a| == w * h && |b| == w * h && c < CHANNELS && Valid(kern) && row < h
    requires x <= w && y <= h && (y == h ==> x == 0)
    requires Row(a, w, h, c, row) == Row(b, w, h, c, row)
    ensures Row(PassUpTo(a, w, h, Horizontal, c, kern, x, y), w, h, c, row)
         == Row(PassUpTo(b, w, h, Horizontal, c, kern, x, y), w, h, c, row)
    decreases y, x
  {
    if x == 0 {
      if y > 0 {
        PassUpToRowLocality(a, b, w, h, c, kern, w, y - 1, row);
      }
    } else {
      PassUpToRowLocality(a, b, w, h, c, kern, x - 1, y, row);
      var a' := PassUpTo(a, w, h, Horizontal, c, kern, x - 1, y);
      var b' := PassUpTo(b, w, h, Horizontal, c, kern, x - 1, y);
      assert PassUpTo(a, w, h, Horizontal, c, kern, x, y) == Step(a', w, h, Horizontal, c, kern, x - 1, y);
      assert PassUpTo(b, w, h, Horizontal, c, kern, x, y) == Step(b', w, h, Horizontal, c, kern, x - 1, y);
      StepRowLocality(a', b', w, h, c, kern, x - 1, y, row);
    }
  }

  /** Row locality of the horizontal pass: if two images agree on channel c of row y, they
      still agree there after the pass, whatever the other rows hold. */
  lemma HorizontalPassRowLocality(a: ImageVec, b: ImageVec, w: nat, h: nat, c: nat, kern: Kernel, row: nat)
    requires |a| == w * h && |b| == w * h && c < CHANNELS && Valid(kern) && row < h
    requires Row(a, w, h, c, row) == Row(b, w, h, c, row)
    ensures Row(Pass(a, w, h, Horizontal, c, kern), w, h, c, row) == Row(Pass(b, w, h, Horizontal, c, kern), w, h, c, row)
  {
    PassUpToRowLocality(a, b, w, h, c, kern, 0, h, row);
  }

  /** A vertical accumulator reads nothing outside its own column. */
  lemma VerticalAccumulatorInColumn(a: ImageVec, b: ImageVec, w: nat, h: nat, c: nat, kern: Kernel, x: nat, y: nat)
    requires |a| == w * h && |b| == w * h && c < CHANNELS && x < w && y < h && Valid(kern)
    requires Column(a, w, h, c, x) == Column(b, w, h, c, x)
    ensures Accumulator(a, w, h, Vertical, c, kern, x, y) == Accumulator(b, w, h, Vertical, c, kern, x, y)
  {
    ZeroPadding(a, w, h, Vertical, c, kern, x, y, |kern.weights|);
    ZeroPadding(b, w, h, Vertical, c, kern, x, y, |kern.weights|);
  }

  /** Processing one pixel of a vertical pass keeps two images agreeing on a column. */
  lemma StepColumnLocality(a: ImageVec, b: ImageVec, w: nat, h: nat, c: nat, kern: Kernel, x: nat, y: nat, col: nat)
    requires |a| == w * h && |b| == w * h && c < CHANNELS && Valid(kern) && col < w && x < w && y < h
    requires Column(a, w, h, c, col) == Column(b, w, h, c, col)
    ensures Column(Step(a, w, h, Vertical, c, kern, x, y), w, h, c, col) == Column(Step(b, w, h, Vertical, c, kern, x, y), w, h, c, col)
  {
    var a' := Step(a, w, h, Vertical, c, kern, x, y);
    var b' := Step(b, w, h, Vertical, c, kern, x, y);
    var p := Index(w, x, y);
    forall j | 0 <= j < h
      ensures Column(a', w, h, c, col)[j] == Column(b', w, h, c, col)[j]
    {
      IndexInBounds(w, h, col, j);
      var q := Index(w, col, j);
      assert Column(a, w, h, c, col)[j] == a[q][c];
      assert Column(b, w, h, c, col)[j] == b[q][c];
      if q == p {
        IndexInjective(w, col, j, x, y);
        VerticalAccumulatorInColumn(a, b, w, h, c, kern, x, y);
      }
    }
  }

  lemma {:induction false} PassUpToColumnLocality(a: ImageVec, b: ImageVec, w: nat, h: nat, c: nat, kern: Kernel, x: nat, y: nat, col: nat)
    requires |a| == w * h && |b| == w * h && c < CHANNELS && Valid(kern) && col < w
    requires x <= w && y <= h && (y == h ==> x == 0)
    requires Column(a, w, h, c, col) == Column(b, w, h, c, col)
    ensures Column(PassUpTo(a, w, h, Vertical, c, kern, x, y), w, h, c, col)
         == Column(PassUpTo(b, w, h, Vertical, c, kern, x, y), w, h, c, col)
    decreases y, x
  {
    if x == 0 {
      if y > 0 {
        PassUpToColumnLocality(a, b, w, h, c, kern, w, y - 1, col);
      }
    } else {
      PassUpToColumnLocality(a, b, w, h, c, kern, x - 1, y, col);
      var a' := PassUpTo(a, w, h, Vertical, c, kern, x - 1, y);
      var b' := PassUpTo(b, w, h, Vertical, c, kern, x - 1, y);
      assert PassUpTo(a, w, h, Vertical, c, kern, x, y) == Step(a', w, h, Vertical, c, kern, x - 1, y);
      assert PassUpTo(b, w, h, Vertical, c, kern, x, y) == Step(b', w, h, Vertical, c, kern, x - 1, y);
      StepColumnLocality(a', b', w, h, c, kern, x - 1, y, col);
    }
  }

  /** Column locality of the vertical pass: although the pass walks the image row by row, if
      two images agree on channel c of column x they still agree there after the pass. */
  lemma VerticalPassColumnLocality(a: ImageVec, b: ImageVec, w: nat, h: nat, c: nat, kern: Kernel, col: nat)
    requires |a| == w * h && |b| == w * h && c < CHANNELS && Valid(kern) && col < w
    requires Column(a, w, h, c, col) == Column(b, w, h, c, col)
    ensures Column(Pass(a, w, h, Vertical, c, kern), w, h, c, col) == Column(Pass(b, w, h, Vertical, c, kern), w, h, c, col)
  {
    PassUpToColumnLocality(a, b, w, h, c, kern, 0, h, col);
  }

  lemma StepIdentity(img: ImageVec, w: nat, h: nat, axis: Axis, c: nat, kern: Kernel, x: nat, y: nat)
    requires |img| == w * h && c < CHANNELS && Valid(kern) && kern.radius == 0 && x < w && y < h
    ensures Step(img, w, h, axis, c, kern, x, y) == img
  {
    IndexInBounds(w, h, x, y);
    var p := Index(w, x, y);
    var v := img[p][c];
    assert kern.weights[0] == kern.sum by {
      assert kern.weights[..0] == [];
      assert Sum(kern.weights) == Sum(kern.weights[..0]) + kern.weights[0];
    }
    assert Index(w, x + 0, y) == p && Index(w, x, y + 0) == p;
    assert TapTerm(img, w, h, axis, c, kern, x, y, 0) == v * kern.sum;
    assert |kern.weights| == 1;
    assert TapSum(img, w, h, axis, c, kern, x, y, 1) == TapSum(img, w, h, axis, c, kern, x, y, 0) + TapTerm(img, w, h, axis, c, kern, x, y, 0);
    assert Accumulator(img, w, h, axis, c, kern, x, y) == v * kern.sum;
    DivideProduct(kern.sum, v);
    assert img[p][c := v] == img[p];
  }

  lemma {:induction false} PassUpToIdentity(img: ImageVec, w: nat, h: nat, axis: Axis, c: nat, kern: Kernel, x: nat, y: nat)
    requires |img| == w * h && c < CHANNELS && Valid(kern) && kern.radius == 0
    requires x <= w && y <= h && (y == h ==> x == 0)
    ensures PassUpTo(img, w, h, axis, c, kern, x, y) == img
    decreases y, x
  {
    if x == 0 {
      if y > 0 {
        PassUpToIdentity(img, w, h, axis, c, kern, w, y - 1);
      }
    } else {
      PassUpToIdentity(img, w, h, axis, c, kern, x - 1, y);
      StepIdentity(img, w, h, axis, c, kern, x - 1, y);
    }
  }

  /** A radius-0 kernel (the single tap [1] over sum 1 in blur) makes a pass the identity. */
  lemma PassIdentity(img: ImageVec, w: nat, h: nat, axis: Axis, c: nat, kern: Kernel)
    requires |img| == w * h && c < CHANNELS && Valid(kern) && kern.radius == 0
    ensures Pass(img, w, h, axis, c, kern) == img
  {
    PassUpToIdentity(img, w, h, axis, c, kern, 0, h);
  }

  /** Where tap t of pixel (x, y) reads, and what it adds. */
  lemma TapTermAt(img: ImageVec, w: nat, h: nat, axis: Axis, c: nat, kern: Kernel, x: nat, y: nat, t: nat)
    requires |img| == w * h && c < CHANNELS && x < w && y < h && t < |kern.weights|
    ensures var k := t - kern.radius;
            axis == Horizontal && 0 <= x + k < w ==>
              Index(w, x + k, y) < |img|
              && TapTerm(img, w, h, axis, c, kern, x, y, t) == img[Index(w, x + k, y)][c] * kern.weights[t]
    ensures var k := t - kern.radius;
            axis == Vertical && 0 <= y + k < h ==>
              Index(w, x, y + k) < |img|
              && TapTerm(img, w, h, axis, c, kern, x, y, t) == img[Index(w, x, y + k)][c] * kern.weights[t]
    ensures var k := t - kern.radius;
            (axis == Horizontal && !(0 <= x + k < w)) || (axis == Vertical && !(0 <= y + k < h)) ==>
              TapTerm(img, w, h, axis, c, kern, x, y, t) == 0
  {
    var k := t - kern.radius;
    if 0 <= x + k < w {
      IndexInBounds(w, h, x + k, y);
    }
    if 0 <= y + k < h {
      IndexInBounds(w, h, x, y + k);
    }
  }

  /** The running accumulator of the tap loop stays inside `int`. */
  lemma TapSumFits(img: ImageVec, w: nat, h: nat, axis: Axis, c: nat, kern: Kernel, x: nat, y: nat, t: nat)
    requires |img| == w * h && c < CHANNELS && x < w && y < h && Valid(kern) && t < |kern.weights|
    ensures TapSum(img, w, h, axis, c, kern, x, y, t + 1)
         == TapSum(img, w, h, axis, c, kern, x, y, t) + TapTerm(img, w, h, axis, c, kern, x, y, t)
    ensures 0 <= TapSum(img, w, h, axis, c, kern, x, y, t)
    ensures 0 <= TapTerm(img, w, h, axis, c, kern, x, y, t)
    ensures TapSum(img, w, h, axis, c, kern, x, y, t + 1) <= 255 * MAX_KERNEL_SUM
    ensures 0 <= kern.weights[t] <= MAX_KERNEL_SUM
  {
    WeightBound(kern, t);
    TapSumBounds(img, w, h, axis, c, kern, x, y, t);
    TapSumBounds(img, w, h, axis, c, kern, x, y, t + 1);
    TapTermBounds(img, w, h, axis, c, kern, x, y, t);
    PrefixSumBound(kern.weights, t + 1);
  }

  /** The tap loop of one pixel (main.cpp:168-173 horizontally, 189-194 vertically): add
      `image[neighbour][color] * pascalRow[k + r]` into `buffer[y * w + x]` for k = -r..r,
      skipping the taps the size_t guard rejects. Every `+=` is checked not to overflow `int`. */
  method AccumulateTaps(image: ImageVec, buffer: seq<Int32>, width: nat, height: nat, axis: Axis, color: nat,
                        kern: Kernel, x: nat, y: nat)
    returns (buf: seq<Int32>)
    requires |image| == width * height && |buffer| == width * height
    requires width <= INT32_MAX && height <= INT32_MAX
    requires color < CHANNELS && Valid(kern) && x < width && y < height
    requires Index(width, x, y) < |buffer| && buffer[Index(width, x, y)] == 0
    ensures |buf| == |buffer|
    ensures buf[Index(width, x, y)] as int == Accumulator(image, width, height, axis, color, kern, x, y)
    ensures forall q :: 0 <= q < |buf| && q != Index(width, x, y) ==> buf[q] == buffer[q]
  {
    var p := Index(width, x, y);
    var r := kern.radius as int;
    buf := buffer;
    var k := -r;
    while k <= r
      invariant -r <= k <= r + 1
      invariant |buf| == |buffer|
      invariant forall q :: 0 <= q < |buf| && q != p ==> buf[q] == buffer[q]
      invariant buf[p] as int == TapSum(image, width, height, axis, color, kern, x, y, k + r)
    {
      var t := k + r;
      TapTermAt(image, width, height, axis, color, kern, x, y, t);
      TapSumFits(image, width, height, axis, color, kern, x, y, t);
      var skip := match axis
        case Horizontal => TapSkipped(x, k, width)
        case Vertical => TapSkipped(y, k, height);
      if !skip {
        var q := match axis
          case Horizontal => Index(width, x + k, y)
          case Vertical => Index(width, x, y + k);
        var term := (image[q][color] as Int32) * (kern.weights[t] as Int32);
        buf := buf[p := buf[p] + term];
      }
      k := k + 1;
    }
  }

  /** What a pass has established after processing every pixel before linear index n: each
      of them holds its accumulator in the buffer, bounded by 255 times the kernel sum, and its
      sample is that accumulator divided by the sum; the buffer is still zero from n on. */
  ghost predicate PassDone(out: ImageVec, buf: seq<Int32>, color: nat, kern: Kernel, n: nat)
    requires color < CHANNELS && |out| == |buf| && Valid(kern)
  {
    && (forall p :: 0 <= p < n && p < |buf| ==>
          0 <= buf[p] as int <= 255 * kern.sum && out[p][color] as int == buf[p] as int / kern.sum)
    && (forall p :: n <= p < |buf| ==> buf[p] == 0)
  }

  /** Processing pixel (x, y) of a pass: accumulate, normalise, store. */
  method ConvolvePixel(image: ImageVec, out: ImageVec, buf: seq<Int32>, width: nat, height: nat, axis: Axis, color: nat,
                       kern: Kernel, x: nat, y: nat)
    returns (out': ImageVec, buf': seq<Int32>)
    requires |image| == width * height && |out| == width * height && |buf| == width * height
    requires width <= INT32_MAX && height <= INT32_MAX
    requires color < CHANNELS && Valid(kern) && x < width && y < height
    requires out == PassUpTo(image, width, height, axis, color, kern, x, y)
    requires PassDone(out, buf, color, kern, Index(width, x, y))
    ensures out' == PassUpTo(image, width, height, axis, color, kern, x + 1, y)
    ensures |out'| == |buf'| == |buf|
    ensures PassDone(out', buf', color, kern, Index(width, x, y) + 1)
  {
    IndexInBounds(width, height, x, y);
    var p := Index(width, x, y);
    buf' := AccumulateTaps(out, buf, width, height, axis, color, kern, x, y);
    AccumulatorBounds(out, width, height, axis, color, kern, x, y);
    StoreExact(buf'[p] as int, kern.sum);
    out' := out[p := out[p][color := ToUnsignedChar(buf'[p] as int / kern.sum)]];
    assert out' == Step(out, width, height, axis, color, kern, x, y);
  }

  /** One row of a pass: pixels (0, y) .. (w - 1, y) left to right. */
  method ConvolveRow(image: ImageVec, out: ImageVec, buf: seq<Int32>, width: nat, height: nat, axis: Axis, color: nat,
                     kern: Kernel, y: nat)
    returns (out': ImageVec, buf': seq<Int32>)
    requires |image| == width * height && |out| == width * height && |buf| == width * height
    requires width <= INT32_MAX && height <= INT32_MAX
    requires color < CHANNELS && Valid(kern) && y < height
    requires out == PassUpTo(image, width, height, axis, color, kern, 0, y)
    requires PassDone(out, buf, color, kern, Index(width, 0, y))
    ensures out' == PassUpTo(image, width, height, axis, color, kern, 0, y + 1)
    ensures |out'| == |buf'| == |buf|
    ensures PassDone(out', buf', color, kern, Index(width, 0, y + 1))
  {
    out', buf' := out, buf;
    var x := 0;
    while x < width
      invariant 0 <= x <= width
      invariant out' == PassUpTo(image, width, height, axis, color, kern, x, y)
      invariant |out'| == |buf'| == |buf|
      invariant PassDone(out', buf', color, kern, Index(width, x, y))
    {
      out', buf' := ConvolvePixel(image, out', buf', width, height, axis, color, kern, x, y);
      x := x + 1;
    }
    IndexRowEnd(width, y);
  }

  /** One pass over channel `color` (main.cpp:162-178 for Horizontal, 183-199 for Vertical):
      rows ascending, columns ascending, each pixel's accumulator built from the image as it
      stands and then normalised and written back in place. The buffer holds each pixel's
      accumulator afterwards, at most 255 times the kernel sum, and the stored sample is exactly
      that accumulator divided by the sum: the `unsigned char` store never wraps. */
  method ConvolvePass(image: ImageVec, buffer: seq<Int32>, width: nat, height: nat, axis: Axis, color: nat, kern: Kernel)
    returns (out: ImageVec, buf: seq<Int32>)
    requires |image| == width * height && |buffer| == width * height
    requires width <= INT32_MAX && height <= INT32_MAX
    requires color < CHANNELS && Valid(kern)
    requires forall p :: 0 <= p < |buffer| ==> buffer[p] == 0
    ensures out == Pass(image, width, height, axis, color, kern)
    ensures |buf| == |buffer|
    ensures forall p :: 0 <= p < |buf| ==> 0 <= buf[p] as int <= 255 * kern.sum
    ensures forall p :: 0 <= p < |buf| ==> out[p][color] as int == buf[p] as int / kern.sum
  {
    out := image;
    buf := buffer;
    var y := 0;
    while y < height
      invariant 0 <= y <= height
      invariant out == PassUpTo(image, width, height, axis, color, kern, 0, y)
      invariant |out| == |buf| == |buffer|
      invariant PassDone(out, buf, color, kern, Index(width, 0, y))
    {
      out, buf := ConvolveRow(image, out, buf, width, height, axis, color, kern, y);
      y := y + 1;
    }
    assert Index(width, 0, height) == |buf|;
  }
}
