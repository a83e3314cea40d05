/** The blur kernel: row 2r of Pascal's triangle and its sum (main.cpp:144-150). */
module Kernels {
  import opened Machine
  import opened Binomial
  import opened Wrappers

  /** Radius above which blur refuses to run (main.cpp:131). */
  const MAX_RADIUS: nat := 8

  /** Largest kernel sum a guarded radius yields: 2^(2 * MAX_RADIUS). */
  const MAX_KERNEL_SUM: nat := 0x1_0000

  /** Failures of blur: a negative kernelSize asks std::vector for a negative length. */
  datatype BlurError = KernelLengthError

  /** `pascalRow` with the radius it was built for and `pascalRowSum`. */
  datatype Kernel = Kernel(radius: nat, weights: seq<int>, sum: int)

  function Sum(s: seq<int>): int
  {
    if |s| == 0 then 0 else Sum(s[..|s| - 1]) + s[|s| - 1]
  }

  predicate Palindromic(s: seq<int>)
  {
    forall i :: 0 <= i < |s| ==> s[i] == s[|s| - 1 - i]
  }

  /** What the passes need of a kernel: a radius the guard admits, 2r+1 non-negative taps
      whose total is the divisor, and a divisor small enough for the `int` accumulator. */
  predicate Valid(k: Kernel)
  {
    && k.radius <= MAX_RADIUS
    && |k.weights| == 2 * k.radius + 1
    && (forall i :: 0 <= i < |k.weights| ==> 0 <= k.weights[i])
    && Sum(k.weights) == k.sum
    && 0 < k.sum <= MAX_KERNEL_SUM
  }

  /** Row n of Pascal's triangle. */
  function PascalRow(n: nat): seq<int>
  {
    seq(n + 1, i requires 0 <= i <= n => Choose(n, i))
  }

  /** The kernel blur builds for radius r: row 2r of Pascal's triangle, divisor 2^(2r). */
  function BinomialKernel(r: nat): Kernel
  {
    Kernel(r, PascalRow(2 * r), Pow(2, 2 * r))
  }

  lemma {:induction false} PascalPrefixSum(n: nat, m: nat)
    requires m <= n + 1
    ensures Sum(PascalRow(n)[..m]) == ChooseSum(n, m)
  {
    if m > 0 {
      PascalPrefixSum(n, m - 1);
      assert PascalRow(n)[..m][..m - 1] == PascalRow(n)[..m - 1];
    }
  }

  /** pascalRow sums to 2^n: the identity that lets one division normalise a pass. */
  lemma PascalRowSum(n: nat)
    ensures Sum(PascalRow(n)) == Pow(2, n)
  {
    PascalPrefixSum(n, n + 1);
    assert PascalRow(n)[..n + 1] == PascalRow(n);
    RowSum(n);
  }

  lemma PascalRowPalindromic(n: nat)
    ensures Palindromic(PascalRow(n))
  {
    forall i | 0 <= i < n + 1
      ensures PascalRow(n)[i] == PascalRow(n)[n - i]
    {
      ChooseSymmetric(n, i);
    }
  }

  /** The kernel of every admitted radius: 2r+1 entries C(2r, i), palindromic, adding up
      to exactly 2^(2r), which is at most 65536. */
  lemma BinomialKernelValid(r: nat)
    requires r <= MAX_RADIUS
    ensures Valid(BinomialKernel(r))
    ensures Palindromic(BinomialKernel(r).weights)
    ensures forall i :: 0 <= i <= 2 * r ==> BinomialKernel(r).weights[i] == Choose(2 * r, i)
    ensures BinomialKernel(r).sum == Pow(2, 2 * r)
  {
    PascalRowSum(2 * r);
    PascalRowPalindromic(2 * r);
    KernelSumBound(r);
  }

  /** A prefix of a non-negative sequence adds up to no more than the whole. */
  lemma {:induction false} PrefixSumBound(s: seq<int>, m: nat)
    requires m <= |s|
    requires forall i :: 0 <= i < |s| ==> 0 <= s[i]
    ensures 0 <= Sum(s[..m]) <= Sum(s)
  {
    if m < |s| {
      PrefixSumBound(s[..|s| - 1], m);
      assert s[..|s| - 1][..m] == s[..m];
    } else {
      assert s[..m] == s;
      if m > 0 {
        PrefixSumBound(s[..|s| - 1], m - 1);
        assert s[..|s| - 1][..m - 1] == s[..|s| - 1];
      }
    }
  }

  lemma PrefixSumNext(s: seq<int>, m: nat)
    requires m < |s|
    ensures Sum(s[..m + 1]) == Sum(s[..m]) + s[m]
  {
    assert s[..m + 1][..m] == s[..m];
  }

  /** No single tap of a valid kernel exceeds its sum. */
  lemma WeightBound(k: Kernel, t: nat)
    requires Valid(k) && t < |k.weights|
    ensures 0 <= k.weights[t] <= k.sum
  {
    PrefixSumBound(k.weights, t + 1);
    PrefixSumBound(k.weights, t);
    PrefixSumNext(k.weights, t);
  }

  /** Kernel synthesis of blur (main.cpp:144-150): `pascalRowSum = power(2, 2r)`, then
      `pascalRow[i] = binomialCoefficient(2r, i)` for i = 0..2r. The vector constructor at
      line 147 throws std::length_error when asked for the negative length 2r + 1. */
  method BuildKernel(kernelSize: int) returns (result: Result<Kernel, BlurError>)
    requires kernelSize <= MAX_RADIUS
    ensures kernelSize < 0 ==> result == Failure(KernelLengthError)
    ensures kernelSize >= 0 ==> result == Success(BinomialKernel(kernelSize))
    ensures result.Success? ==> Valid(result.value) && Palindromic(result.value.weights)
    ensures result.Success? ==> |result.value.weights| == 2 * kernelSize + 1
  {
    if kernelSize < 0 {
      // power(2, 2 * kernelSize) has no effect and returns 1; the vector constructor throws.
      return Failure(KernelLengthError);
    }
    KernelSumBound(kernelSize);
    var pascalRowSum := Power(2, (2 * kernelSize) as Int32);
    var n := 2 * kernelSize;
    var pascalRow: seq<int> := seq(n + 1, _ => 0);
    var i := 0;
    while i <= n
      invariant 0 <= i <= n + 1 && |pascalRow| == n + 1
      invariant forall j :: 0 <= j < i ==> pascalRow[j] == Choose(n, j)
    {
      var c := BinomialCoefficient(n as Int32, i as Int32);
      pascalRow := pascalRow[i := c];
      i := i + 1;
    }
    assert pascalRow == PascalRow(n);
    BinomialKernelValid(kernelSize);
    result := Success(Kernel(kernelSize, pascalRow, pascalRowSum as int));
  }
}
