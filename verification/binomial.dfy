/** Binomial coefficients and integer powers (main.cpp, binomialCoefficient and power). */
module Binomial {
  import opened Machine
  import opened Arithmetic

  /** Pascal's triangle, by Pascal's rule: the reference definition of C(n, k). */
  function Choose(n: nat, k: nat): nat
  {
    if k == 0 then 1
    else if n == 0 then 0
    else Choose(n - 1, k - 1) + Choose(n - 1, k)
  }

  /** a^b by repeated multiplication: the reference definition of a power. */
  function Pow(a: int, b: nat): int
  {
    if b == 0 then 1 else a * Pow(a, b - 1)
  }

  /** The first m entries of row n of Pascal's triangle, added up. */
  function ChooseSum(n: nat, m: nat): nat
  {
    if m == 0 then 0 else ChooseSum(n, m - 1) + Choose(n, m - 1)
  }

  lemma {:induction false} ChooseBeyondRow(n: nat, k: nat)
    requires k > n
    ensures Choose(n, k) == 0
  {
    if n > 0 {
      ChooseBeyondRow(n - 1, k - 1);
      ChooseBeyondRow(n - 1, k);
    }
  }

  lemma {:induction false} ChooseDiagonal(n: nat)
    ensures Choose(n, n) == 1
  {
    if n > 0 {
      ChooseDiagonal(n - 1);
      ChooseBeyondRow(n - 1, n);
    }
  }

  /** Rows of Pascal's triangle are palindromes: C(n, k) == C(n, n - k). */
  lemma {:induction false} ChooseSymmetric(n: nat, k: nat)
    requires k <= n
    ensures Choose(n, k) == Choose(n, n - k)
  {
    if k == 0 {
      ChooseDiagonal(n);
    } else if k == n {
      ChooseDiagonal(n);
    } else {
      ChooseSymmetric(n - 1, k - 1);
      ChooseSymmetric(n - 1, k);
      assert n - 1 - (k - 1) == n - k;
      assert Choose(n, n - k) == Choose(n - 1, n - k - 1) + Choose(n - 1, n - k);
    }
  }

  /** The step of the multiplicative formula: C(n, i+1) * (i+1) == C(n, i) * (n - i).
      It is what makes every division in binomialCoefficient exact. */
  lemma {:induction false} ChooseStep(n: nat, i: nat)
    ensures (i + 1) * Choose(n, i + 1) == (n - i) * Choose(n, i)
    decreases n, 2
  {
    if i >= n {
      ChooseBeyondRow(n, i + 1);
      if i > n {
        ChooseBeyondRow(n, i);
      }
    } else {
      ChooseStepLeft(n, i);
      ChooseStepRight(n, i);
    }
  }

  /** Both sides of ChooseStep equal n * C(n - 1, i); this is the left one. */
  lemma {:induction false} ChooseStepLeft(n: nat, i: nat)
    requires i < n
    ensures (i + 1) * Choose(n, i + 1) == n * Choose(n - 1, i)
    decreases n, 1
  {
    var a := Choose(n - 1, i);
    var b := Choose(n - 1, i + 1);
    ChooseStep(n - 1, i);
    assert (i + 1) * b == (n - 1 - i) * a;
    assert Choose(n, i + 1) == a + b;
    Distribute(i + 1, a, b);
    Distribute(a, i + 1, n - 1 - i);
  }

  /** The right side of ChooseStep equals n * C(n - 1, i). */
  lemma {:induction false} ChooseStepRight(n: nat, i: nat)
    requires i < n
    ensures (n - i) * Choose(n, i) == n * Choose(n - 1, i)
    decreases n, 1
  {
    var a := Choose(n - 1, i);
    if i == 0 {
      assert Choose(n, i) == 1 && a == 1;
    } else {
      var c := Choose(n - 1, i - 1);
      ChooseStep(n - 1, i - 1);
      assert i * a == (n - i) * c;
      assert Choose(n, i) == c + a;
      Distribute(n - i, c, a);
      Distribute(a, i, n - i);
    }
  }

  /** No entry of row n exceeds 2^n. */
  lemma {:induction false} ChooseBound(n: nat, k: nat)
    ensures Choose(n, k) <= Pow(2, n)
  {
    if k > 0 && n > 0 {
      ChooseBound(n - 1, k - 1);
      ChooseBound(n - 1, k);
    } else if k > 0 {
      assert Choose(n, k) == 0;
    } else {
      PowPositive(2, n);
    }
  }

  lemma {:induction false} PowPositive(a: int, b: nat)
    requires a > 0
    ensures Pow(a, b) > 0
  {
    if b > 0 {
      PowPositive(a, b - 1);
    }
  }

  lemma {:induction false} ChooseSumStep(n: nat, m: nat)
    ensures ChooseSum(n + 1, m + 1) == ChooseSum(n, m) + ChooseSum(n, m + 1)
  {
    if m > 0 {
      ChooseSumStep(n, m - 1);
    }
  }

  /** Row n of Pascal's triangle adds up to exactly 2^n. */
  lemma {:induction false} RowSum(n: nat)
    ensures ChooseSum(n, n + 1) == Pow(2, n)
  {
    if n > 0 {
      RowSum(n - 1);
      ChooseSumStep(n - 1, n);
      ChooseBeyondRow(n - 1, n);
    }
  }

  /** a^b grows (in absolute value) with b whenever a is not zero. */
  lemma {:induction false} PowAbsMonotone(a: int, i: nat, j: nat)
    requires a != 0 && i <= j
    ensures Abs(Pow(a, i)) <= Abs(Pow(a, j))
  {
    if i < j {
      PowAbsMonotone(a, i, j - 1);
      var p := Pow(a, j - 1);
      AbsProduct(a, p);
      assert Abs(Pow(a, j)) == Abs(a) * Abs(p);
      assert Abs(a) * Abs(p) >= Abs(p) by {
        Distribute(Abs(p), Abs(a) - 1, 1);
      }
    }
  }

  lemma AbsProduct(x: int, y: int)
    ensures Abs(x * y) == Abs(x) * Abs(y)
  {
    if x < 0 && y < 0 {
      assert x * y == (-x) * (-y);
    } else if x < 0 {
      assert x * y == -((-x) * y);
    } else if y < 0 {
      assert x * y == -(x * (-y));
    }
  }

  lemma {:induction false} PowTwoMonotone(i: nat, j: nat)
    requires i <= j
    ensures Pow(2, i) <= Pow(2, j)
  {
    PowAbsMonotone(2, i, j);
    PowPositive(2, i);
    PowPositive(2, j);
  }

  /** The largest row of Pascal's triangle for which binomialCoefficient is proved exact:
      every intermediate product then stays below 2^64. */
  const MAX_EXACT_ROW: nat := 59

  /** binomialCoefficient (main.cpp:82-93): pick the smaller of k and n - k, then run the
      multiply-then-divide recurrence in 64-bit unsigned arithmetic. Out-of-row k yields 1.
      n and k are C++ `int`s: `2 * k`, and `n - k` when it is taken, must not overflow, since
      signed overflow is undefined behaviour. */
  method BinomialCoefficient(n: Int32, k: Int32) returns (result: int)
    requires INT32_MIN <= 2 * (k as int) <= INT32_MAX
    requires 2 * (k as int) > n as int ==> INT32_MIN <= n as int - k as int <= INT32_MAX
    ensures 0 <= result < WORD_MODULUS
    ensures k < 0 || k > n ==> result == 1
    ensures 0 <= k <= n <= MAX_EXACT_ROW as Int32 ==> result == Choose(n as int, k as int)
    ensures 0 <= k <= n <= MAX_EXACT_ROW as Int32 ==> result == Choose(n as int, (n - k) as int)
  {
    var k' := k;
    if 2 * k' > n {
      k' := n - k';
    }
    ghost var exact := 0 <= k <= n <= MAX_EXACT_ROW as Int32;
    result := 1;
    var i: Int32 := 0;
    while i < k'
      invariant 0 <= i && (0 <= k' ==> i <= k') && (k' <= 0 ==> i == 0)
      invariant 0 <= result < WORD_MODULUS && (i == 0 ==> result == 1)
      invariant exact ==> result == Choose(n as int, i as int)
    {
      var product := ToUnsigned64(result * ToUnsigned64((n - i) as int));
      if exact {
        RecurrenceStep(n as int, i as int, k' as int, result);
      }
      DivideBounds(product, (i + 1) as int);
      result := product / (i + 1) as int;
      i := i + 1;
    }
    if exact {
      ChooseSymmetric(n as int, k as int);
    } else if k < 0 || k > n {
      assert k' <= 0;
    }
  }

  /** One iteration of binomialCoefficient's loop on row n, C(n, i) to C(n, i + 1), with the
      64-bit wrap of the multiplication shown not to happen. */
  lemma RecurrenceStep(n: nat, i: nat, k': int, result: int)
    requires n <= MAX_EXACT_ROW && i < k' && 2 * k' <= n
    requires result == Choose(n, i)
    ensures ToUnsigned64(result * ToUnsigned64(n - i)) / (i + 1) == Choose(n, i + 1)
  {
    ProductFits(n, i, k');
    var m := n - i;
    assert ToUnsigned64(m) == m;
    assert result * m == m * Choose(n, i);
    ExactDivision(n, i);
  }

  /** Before step i of the recurrence on row n (i < k' <= n/2), (n - i) * C(n, i) fits in 64 bits. */
  lemma ProductFits(n: nat, i: nat, k': int)
    requires n <= MAX_EXACT_ROW && i < k' && 2 * k' <= n
    ensures 0 < n - i < WORD_MODULUS
    ensures 0 <= (n - i) * Choose(n, i) < WORD_MODULUS
  {
    var c := Choose(n, i + 1);
    ChooseStep(n, i);
    RowBound(n, i + 1);
    MulMonotone(i + 1, 29, c, 0x800_0000_0000_0000);
    MulMonotone(0, n - i, 0, Choose(n, i));
  }

  /** Every entry of a row up to MAX_EXACT_ROW is at most 2^59. */
  lemma RowBound(n: nat, k: nat)
    requires n <= MAX_EXACT_ROW
    ensures Choose(n, k) <= 0x800_0000_0000_0000
  {
    ChooseBound(n, k);
    PowTwoMonotone(n, MAX_EXACT_ROW);
    PowTwoValue59();
  }

  /** Powers of two the bounds need, by repeated squaring. */
  lemma PowTwoValue59()
    ensures Pow(2, 16) == 0x1_0000
    ensures Pow(2, 59) == 0x800_0000_0000_0000
  {
    assert Pow(2, 1) == 2;
    PowTwoAdd(1, 1);
    PowTwoAdd(2, 2);
    PowTwoAdd(4, 4);
    PowTwoAdd(8, 8);
    PowTwoAdd(16, 16);
    PowTwoAdd(32, 16);
    PowTwoAdd(48, 8);
    PowTwoAdd(56, 2);
    PowTwoAdd(58, 1);
  }

  lemma {:induction false} PowTwoAdd(i: nat, j: nat)
    ensures Pow(2, i + j) == Pow(2, i) * Pow(2, j)
  {
    if j > 0 {
      PowTwoAdd(i, j - 1);
      assert Pow(2, i + j) == 2 * Pow(2, i + j - 1);
    }
  }

  /** Each division of the recurrence is exact: (n - i) * C(n, i) / (i + 1) == C(n, i + 1). */
  lemma ExactDivision(n: nat, i: nat)
    ensures ((n - i) * Choose(n, i)) / (i + 1) == Choose(n, i + 1)
  {
    ChooseStep(n, i);
    DivideProduct(i + 1, Choose(n, i + 1));
  }

  /** power (main.cpp:95-102): `res = res * a`, b times, in `int` arithmetic. The comment on
      line 95 warns against results beyond 2147483647; the requires states that demand, and
      the Int32 type checks that no intermediate product overflows. */
  method Power(a: Int32, b: Int32) returns (res: Int32)
    requires b <= 0 || Abs(Pow(a as int, b as nat)) <= INT32_MAX
    ensures b >= 0 ==> res as int == Pow(a as int, b as nat)
    ensures b < 0 ==> res == 1
  {
    res := 1;
    var i: Int32 := 0;
    while i < b
      invariant 0 <= i && (0 <= b ==> i <= b) && (b < 0 ==> i == 0)
      invariant res as int == Pow(a as int, i as nat)
    {
      PowerStep(a as int, i as nat, b as nat);
      res := res * a;
      i := i + 1;
    }
  }

  /** One multiplication of power's loop stays within int when the final power does. */
  lemma PowerStep(a: int, i: nat, b: nat)
    requires i < b && Abs(Pow(a, b)) <= INT32_MAX
    ensures Pow(a, i + 1) == Pow(a, i) * a
    ensures -INT32_MAX <= Pow(a, i) * a <= INT32_MAX
  {
    if a != 0 {
      PowAbsMonotone(a, i + 1, b);
    }
  }

  /** The kernel sum 2^(2r) of a radius the guard admits (r <= 8) is at most 65536. */
  lemma KernelSumBound(r: nat)
    requires r <= 8
    ensures 1 <= Pow(2, 2 * r) <= 65536
  {
    PowTwoMonotone(2 * r, 16);
    PowPositive(2, 2 * r);
    PowTwoValue59();
  }

  /** 255 * 2^(2r), the bound on an accumulator of a kernel summing to 2^(2r), fits in `int`
      exactly for r <= 11. Only the arithmetic is stated here: the pass lemmas are proved for
      the radii the guard at main.cpp:131 admits. */
  lemma AccumulatorHeadroom(r: nat)
    ensures r <= 11 ==> 255 * Pow(2, 2 * r) <= INT32_MAX
    ensures r >= 12 ==> 255 * Pow(2, 2 * r) > INT32_MAX
  {
    PowTwoValue59();
    PowTwoAdd(16, 6);
    PowTwoAdd(16, 8);
    assert Pow(2, 6) == 64;
    assert Pow(2, 8) == 256;
    if r <= 11 {
      PowTwoMonotone(2 * r, 22);
    } else {
      PowTwoMonotone(24, 2 * r);
    }
  }
}
