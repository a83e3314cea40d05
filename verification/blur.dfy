/** blur (main.cpp:106-206): the radius guard, kernel synthesis, and for each of the three
    channels a horizontal pass followed by a vertical pass, each preceded by zeroing the
    shared `int` buffer. */
module Blur {
  import opened Machine
  import opened Wrappers
  import opened Image
  import opened Kernels
  import opened Convolution

  /** Both passes over channel c: horizontal first, then vertical. Only channel c changes. */
  function BlurChannel(img: ImageVec, w: nat, h: nat, c: nat, kern: Kernel): (r: ImageVec)
    requires |img| == w * h && c < CHANNELS && Valid(kern)
    ensures |r| == |img|
    ensures forall p, c' :: 0 <= p < |r| && 0 <= c' < CHANNELS && c' != c ==> r[p][c'] == img[p][c']
  {
    Pass(Pass(img, w, h, Horizontal, c, kern), w, h, Vertical, c, kern)
  }

  /** Channels 0 .. n-1 blurred in order; channels n and above untouched. */
  function BlurChannels(img: ImageVec, w: nat, h: nat, kern: Kernel, n: nat): (r: ImageVec)
    requires |img| == w * h && n <= CHANNELS && Valid(kern)
    ensures |r| == |img|
    ensures forall p, c' :: 0 <= p < |r| && n <= c' < CHANNELS ==> r[p][c'] == img[p][c']
  {
    if n == 0 then img else BlurChannel(BlurChannels(img, w, h, kern, n - 1), w, h, n - 1, kern)
  }

  /** What blur does to an image: nothing for a radius above 8, a length_error for a negative
      one, otherwise all three channels blurred with the binomial kernel of that radius. A
      negative radius is the only failure, and a blurred image keeps its pixel count. */
  function BlurResult(img: ImageVec, w: nat, h: nat, kernelSize: int): (r: Result<ImageVec, BlurError>)
    requires |img| == w * h
    ensures r.Failure? <==> kernelSize < 0
    ensures r.Failure? ==> r.error == KernelLengthError
    ensures kernelSize > MAX_RADIUS ==> r == Success(img)
    ensures r.Success? ==> |r.value| == |img|
  {
    if kernelSize > MAX_RADIUS then Success(img)
    else if kernelSize < 0 then Failure(KernelLengthError)
    else
      BinomialKernelValid(kernelSize);
      Success(BlurChannels(img, w, h, BinomialKernel(kernelSize), CHANNELS))
  }

  lemma {:induction false} BlurChannelsIdentity(img: ImageVec, w: nat, h: nat, kern: Kernel, n: nat)
    requires |img| == w * h && n <= CHANNELS && Valid(kern) && kern.radius == 0
    ensures BlurChannels(img, w, h, kern, n) == img
  {
    if n > 0 {
      BlurChannelsIdentity(img, w, h, kern, n - 1);
      PassIdentity(img, w, h, Horizontal, n - 1, kern);
      PassIdentity(img, w, h, Vertical, n - 1, kern);
    }
  }

  /** Radius 0 is the identity: kernel [1], sum 1, only the centre tap. */
  lemma BlurIdentityAtZero(img: ImageVec, w: nat, h: nat)
    requires |img| == w * h
    ensures BlurResult(img, w, h, 0) == Success(img)
  {
    BinomialKernelValid(0);
    BlurChannelsIdentity(img, w, h, BinomialKernel(0), CHANNELS);
  }

  /** blur (main.cpp:106-206). A radius above 8 returns before touching the image; otherwise
      the kernel is built once and each channel gets a zeroed buffer, a horizontal pass, a
      zeroed buffer again and a vertical pass, all in place. The buffer length
      `widthImage * heightImage` is an `int` product, so the image must have at most
      2147483647 pixels. */
  method Blur(image: ImageVec, width: nat, height: nat, kernelSize: int) returns (result: Result<ImageVec, BlurError>)
    requires |image| == width * height
    requires width <= INT32_MAX && height <= INT32_MAX && width * height <= INT32_MAX
    ensures result == BlurResult(image, width, height, kernelSize)
    ensures kernelSize > MAX_RADIUS ==> result == Success(image)
    ensures kernelSize == 0 ==> result == Success(image)
    ensures kernelSize < 0 ==> result == Failure(KernelLengthError)
    ensures result.Success? ==> |result.value| == |image|
  {
    if kernelSize > MAX_RADIUS {
      return Success(image);
    }
    var built := BuildKernel(kernelSize);
    if built.Failure? {
      return Failure(built.error);
    }
    var kern := built.value;
    var buffer: seq<Int32> := seq(width * height, _ => 0);
    var img := image;
    var color := 0;
    while color < CHANNELS
      invariant 0 <= color <= CHANNELS
      invariant |img| == |buffer| == width * height
      invariant img == BlurChannels(image, width, height, kern, color)
    {
      buffer := seq(|buffer|, _ => 0);
      img, buffer := ConvolvePass(img, buffer, width, height, Horizontal, color, kern);
      buffer := seq(|buffer|, _ => 0);
      img, buffer := ConvolvePass(img, buffer, width, height, Vertical, color, kern);
      color := color + 1;
    }
    result := Success(img);
    if kernelSize == 0 {
      BlurIdentityAtZero(image, width, height);
    }
  }
}
