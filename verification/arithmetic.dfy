/** Small facts of non-linear integer arithmetic that the solver does not find on its own. */
module Arithmetic {

  lemma Distribute(x: int, y: int, z: int)
    ensures x * (y + z) == x * y + x * z
    ensures (y + z) * x == y * x + z * x
  {
  }

  lemma MulMonotone(a: nat, a': nat, b: nat, b': nat)
    requires a <= a' && b <= b'
    ensures a * b <= a' * b'
  {
    assert a * b <= a' * b by {
      Distribute(b, a, a' - a);
    }
    assert a' * b <= a' * b' by {
      Distribute(a', b, b' - b);
    }
  }

  lemma DivideBounds(x: int, d: int)
    requires 0 <= x && 1 <= d
    ensures 0 <= x / d <= x
  {
    if x / d > x {
      MulMonotone(1, d, x + 1, x / d);
    }
  }

  lemma DivideProduct(d: int, q: int)
    requires d > 0
    ensures (d * q) / d == q
  {
    var x := d * q;
    var q' := x / d;
    var r := x % d;
    assert x == d * q' + r && 0 <= r < d;
    assert d * (q - q') == r by {
      assert d * (q - q') == d * q - d * q';
    }
    MulSign(d, q - q');
  }

  /** A positive factor keeps a nonzero integer at least that far from zero. */
  lemma MulSign(d: int, m: int)
    requires d > 0
    ensures m >= 1 ==> d * m >= d
    ensures m <= -1 ==> d * m <= -d
  {
    if m >= 1 {
      MulMonotone(1, m, d, d);
    } else if m <= -1 {
      MulMonotone(1, -m, d, d);
      assert d * m == -(d * -m);
    }
  }
}
