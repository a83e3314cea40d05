/** What the in-place write of the passes means for results, shown against a snapshot
    convolution that reads every neighbour from the image as it was before the pass. The
    comment at main.cpp:155 describes data moving into the buffer and back out, but the
    passes store into the image at once (lines 176 and 197), so the snapshot is NOT what the
    program computes; it is kept here only for comparison. */
module InPlace {
  import opened Image
  import opened Binomial
  import opened Kernels
  import opened Convolution

  /** The snapshot pass over the pixels before (x, y): accumulators read from img, results
      written into a copy. */
  function SnapshotUpTo(img: ImageVec, w: nat, h: nat, axis: Axis, c: nat, kern: Kernel, x: nat, y: nat): (r: ImageVec)
    requires |img| == w * h && c < CHANNELS && Valid(kern)
    requires x <= w && y <= h && (y == h ==> x == 0)
    ensures |r| == |img|
    decreases y, x
  {
    if x == 0 then
      if y == 0 then img
      else SnapshotUpTo(img, w, h, axis, c, kern, w, y - 1)
    else
      var prev := SnapshotUpTo(img, w, h, axis, c, kern, x - 1, y);
      IndexInBounds(w, h, x - 1, y);
      var p := Index(w, x - 1, y);
      prev[p := prev[p][c := Store(Accumulator(img, w, h, axis, c, kern, x - 1, y), kern.sum)]]
  }

  function SnapshotPass(img: ImageVec, w: nat, h: nat, axis: Axis, c: nat, kern: Kernel): ImageVec
    requires |img| == w * h && c < CHANNELS && Valid(kern)
  {
    SnapshotUpTo(img, w, h, axis, c, kern, 0, h)
  }

  /** The radius-1 kernel: [1, 2, 1] over 4. */
  const RADIUS_ONE: Kernel := Kernel(1, [1, 2, 1], 4)

  /** RADIUS_ONE is the kernel the program builds for kernelSize 1. */
  lemma RadiusOneKernel()
    ensures BinomialKernel(1) == RADIUS_ONE
    ensures Valid(RADIUS_ONE)
  {
    assert Choose(2, 1) == 2;
    assert PascalRow(2) == [1, 2, 1];
    BinomialKernelValid(1);
  }

  /** Validity of RADIUS_ONE on its own, checked from the three weights directly. The row
      lemmas below call this rather than RadiusOneKernel so that the Pascal-row facts behind
      BinomialKernel(1) stay out of their proof context. */
  lemma RadiusOneValid()
    ensures Valid(RADIUS_ONE)
  {
    assert [1, 2, 1][..2] == [1, 2] && [1, 2][..1] == [1] && [1][..0] == [];
  }

  /** Horizontal accumulator of the radius-1 kernel on a one-row image. */
  lemma RadiusOneAccumulator(a: ImageVec, w: nat, x: nat)
    requires |a| == w && x < w
    ensures Accumulator(a, w, 1, Horizontal, 0, RADIUS_ONE, x, 0)
            == (if x > 0 then a[x - 1][0] as int else 0) + 2 * (a[x][0] as int) + (if x + 1 < w then a[x + 1][0] as int else 0)
  {
    var k := RADIUS_ONE;
    assert Index(w, x, 0) == x;
    assert x > 0 ==> Index(w, x - 1, 0) == x - 1;
    assert x + 1 < w ==> Index(w, x + 1, 0) == x + 1;
    assert TapTerm(a, w, 1, Horizontal, 0, k, x, 0, 0) == (if x > 0 then a[x - 1][0] as int else 0);
    assert TapTerm(a, w, 1, Horizontal, 0, k, x, 0, 1) == 2 * (a[x][0] as int);
    assert TapTerm(a, w, 1, Horizontal, 0, k, x, 0, 2) == (if x + 1 < w then a[x + 1][0] as int else 0);
    assert TapSum(a, w, 1, Horizontal, 0, k, x, 0, 1) == TapTerm(a, w, 1, Horizontal, 0, k, x, 0, 0);
    assert TapSum(a, w, 1, Horizontal, 0, k, x, 0, 2)
        == TapSum(a, w, 1, Horizontal, 0, k, x, 0, 1) + TapTerm(a, w, 1, Horizontal, 0, k, x, 0, 1);
    assert TapSum(a, w, 1, Horizontal, 0, k, x, 0, 3)
        == TapSum(a, w, 1, Horizontal, 0, k, x, 0, 2) + TapTerm(a, w, 1, Horizontal, 0, k, x, 0, 2);
  }

  /** Channel 0 of every pixel of the five-pixel row img is 255. */
  ghost predicate WhiteRow(img: ImageVec)
  {
    |img| == 5 && forall i :: 0 <= i < 5 ==> img[i][0] == 255
  }

  /** One step of the radius-1 horizontal pass on a five-pixel row: sample x becomes the
      weighted sum of its left neighbour as it is now, itself and its right neighbour, over 4. */
  lemma RowStep(a: ImageVec, x: nat)
    requires |a| == 5 && x < 5 && Valid(RADIUS_ONE)
    ensures Step(a, 5, 1, Horizontal, 0, RADIUS_ONE, x, 0)[x][0] as int
            == ((if x > 0 then a[x - 1][0] as int else 0) + 2 * (a[x][0] as int)
                + (if x + 1 < 5 then a[x + 1][0] as int else 0)) / 4
  {
    var acc := Accumulator(a, 5, 1, Horizontal, 0, RADIUS_ONE, x, 0);
    assert Index(5, x, 0) == x;
    RadiusOneAccumulator(a, 5, x);
    StoreExact(acc, 4);
  }

  /** The same step leaves every other sample of channel 0 as it was. */
  lemma RowStepFrame(a: ImageVec, x: nat)
    requires |a| == 5 && x < 5 && Valid(RADIUS_ONE)
    ensures forall i :: 0 <= i < 5 && i != x ==> Step(a, 5, 1, Horizontal, 0, RADIUS_ONE, x, 0)[i][0] == a[i][0]
  {
    assert Index(5, x, 0) == x;
  }

  /** Channel 0 of the in-place pass over a white row, pixel by pixel. */
  const IN_PLACE_WHITE: seq<int> := [191, 239, 251, 254, 191]

  /** Channel 0 of the five-pixel row a: the first x samples are those of expected and the
      rest are still 255. */
  ghost predicate WrittenUpTo(a: ImageVec, expected: seq<int>, x: nat)
  {
    && |a| == 5 && |expected| == 5 && x <= 5
    && (forall i :: 0 <= i < x ==> a[i][0] as int == expected[i])
    && (forall i :: x <= i < 5 ==> a[i][0] == 255)
  }

  /** The arithmetic of one in-place step: the already-written left neighbour, twice 255 and the
      untouched right neighbour (0 past the edge), over 4, give the next entry of IN_PLACE_WHITE. */
  lemma Drift(x: nat)
    requires 0 < x <= 5
    ensures ((if x > 1 then IN_PLACE_WHITE[x - 2] else 0) + 510 + (if x < 5 then 255 else 0)) / 4 == IN_PLACE_WHITE[x - 1]
  {
    if x == 1 {} else if x == 2 {} else if x == 3 {} else if x == 4 {} else {}
  }

  /** Processing pixel x - 1 extends the written prefix by one. */
  lemma InPlaceAdvance(a: ImageVec, x: nat)
    requires 0 < x <= 5 && WrittenUpTo(a, IN_PLACE_WHITE, x - 1) && Valid(RADIUS_ONE)
    ensures WrittenUpTo(Step(a, 5, 1, Horizontal, 0, RADIUS_ONE, x - 1, 0), IN_PLACE_WHITE, x)
  {
    RowStep(a, x - 1);
    RowStepFrame(a, x - 1);
    var left := if x > 1 then a[x - 2][0] as int else 0;
    var right := if x < 5 then a[x][0] as int else 0;
    assert left == (if x > 1 then IN_PLACE_WHITE[x - 2] else 0);
    assert right == (if x < 5 then 255 else 0);
    Drift(x);
  }

  /** After the first x pixels of the in-place pass over a white row, those pixels hold
      IN_PLACE_WHITE and the rest still hold 255. */
  lemma {:induction false} InPlacePrefix(img: ImageVec, x: nat)
    requires WhiteRow(img) && x <= 5 && Valid(RADIUS_ONE)
    ensures WrittenUpTo(PassUpTo(img, 5, 1, Horizontal, 0, RADIUS_ONE, x, 0), IN_PLACE_WHITE, x)
  {
    if x > 0 {
      InPlacePrefix(img, x - 1);
      InPlaceAdvance(PassUpTo(img, 5, 1, Horizontal, 0, RADIUS_ONE, x - 1, 0), x);
    }
  }

  /** For a one-row image the whole pass is the pass up to the end of row 0. */
  lemma SingleRowPass(img: ImageVec, w: nat, axis: Axis, c: nat, kern: Kernel)
    requires |img| == w && c < CHANNELS && Valid(kern)
    ensures Pass(img, w, 1, axis, c, kern) == PassUpTo(img, w, 1, axis, c, kern, w, 0)
  {
    IndexRowEnd(w, 0);
  }

  /** A fully written row reads back as expected. */
  lemma WrittenRow(a: ImageVec, expected: seq<int>)
    requires WrittenUpTo(a, expected, 5)
    ensures Row(a, 5, 1, 0, 0) == expected
  {
    var row := Row(a, 5, 1, 0, 0);
    forall i | 0 <= i < 5
      ensures row[i] == expected[i]
    {
      assert Index(5, i, 0) == i;
    }
  }

  /** The in-place horizontal pass of a row of 255s with radius 1 drifts:
      191, 239, 251, 254, 191, because each pixel reads its already-blurred left neighbour. */
  lemma InPlaceWhiteRow(img: ImageVec)
    requires WhiteRow(img)
    ensures Valid(RADIUS_ONE)
    ensures Row(Pass(img, 5, 1, Horizontal, 0, RADIUS_ONE), 5, 1, 0, 0) == IN_PLACE_WHITE
  {
    RadiusOneValid();
    InPlacePrefix(img, 5);
    SingleRowPass(img, 5, Horizontal, 0, RADIUS_ONE);
    WrittenRow(PassUpTo(img, 5, 1, Horizontal, 0, RADIUS_ONE, 5, 0), IN_PLACE_WHITE);
  }

  /** Channel 0 of the snapshot pass over a white row. */
  const SNAPSHOT_WHITE: seq<int> := [191, 255, 255, 255, 191]

  /** The snapshot accumulator at pixel x of a white row. */
  lemma SnapshotValue(img: ImageVec, x: nat)
    requires WhiteRow(img) && x < 5 && Valid(RADIUS_ONE)
    ensures Store(Accumulator(img, 5, 1, Horizontal, 0, RADIUS_ONE, x, 0), 4) == SNAPSHOT_WHITE[x]
  {
    var acc := Accumulator(img, 5, 1, Horizontal, 0, RADIUS_ONE, x, 0);
    RadiusOneAccumulator(img, 5, x);
    assert acc == (if x > 0 then 255 else 0) + 510 + (if x + 1 < 5 then 255 else 0);
    StoreExact(acc, 4);
  }

  /** Processing pixel x - 1 of the snapshot pass extends the written prefix by one. */
  lemma {:induction false} SnapshotPrefix(img: ImageVec, x: nat)
    requires WhiteRow(img) && x <= 5 && Valid(RADIUS_ONE)
    ensures WrittenUpTo(SnapshotUpTo(img, 5, 1, Horizontal, 0, RADIUS_ONE, x, 0), SNAPSHOT_WHITE, x)
  {
    if x > 0 {
      SnapshotPrefix(img, x - 1);
      SnapshotValue(img, x - 1);
      assert Index(5, x - 1, 0) == x - 1;
    }
  }

  /** The snapshot pass of the same row keeps the interior at 255: the drift above comes
      from the in-place write, not from the kernel. */
  lemma SnapshotWhiteRow(img: ImageVec)
    requires WhiteRow(img)
    ensures Valid(RADIUS_ONE)
    ensures Row(SnapshotPass(img, 5, 1, Horizontal, 0, RADIUS_ONE), 5, 1, 0, 0) == SNAPSHOT_WHITE
  {
    RadiusOneValid();
    SnapshotPrefix(img, 5);
    var out := SnapshotUpTo(img, 5, 1, Horizontal, 0, RADIUS_ONE, 5, 0);
    assert SnapshotPass(img, 5, 1, Horizontal, 0, RADIUS_ONE) == out;
    WrittenRow(out, SNAPSHOT_WHITE);
  }

  /** So the in-place pass the program runs is not the snapshot convolution: on a white
      row the two disagree at pixel 1. */
  lemma InPlaceIsNotSnapshot(img: ImageVec)
    requires WhiteRow(img)
    ensures Valid(RADIUS_ONE)
    ensures Pass(img, 5, 1, Horizontal, 0, RADIUS_ONE)[1][0] == 239
    ensures SnapshotPass(img, 5, 1, Horizontal, 0, RADIUS_ONE)[1][0] == 255
  {
    InPlaceWhiteRow(img);
    SnapshotWhiteRow(img);
    assert Index(5, 1, 0) == 1;
    assert Row(Pass(img, 5, 1, Horizontal, 0, RADIUS_ONE), 5, 1, 0, 0)[1] == 239;
    assert Row(SnapshotPass(img, 5, 1, Horizontal, 0, RADIUS_ONE), 5, 1, 0, 0)[1] == 255;
  }
}
