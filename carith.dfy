/** C's integer remainder, which the reference generator relies on. */
module CArith {
  /** `a % n` as C computes it for `n > 0`: the quotient truncates toward zero,
      so a non-zero remainder has the sign of `a` (Dafny's `%` is never negative). */
  function CRem(a: int, n: int): (r: int)
    requires n > 0
    ensures -n < r < n
    ensures r != 0 ==> (r < 0 <==> a < 0)
  {
    if a >= 0 then a % n else -((-a) % n)
  }

  /** Adding `n` to a negative C remainder, as the generator does, yields the
      mathematical (Euclidean) remainder. */
  lemma FixedUpRem(a: int, n: int)
    requires n > 0
    ensures (if CRem(a, n) < 0 then CRem(a, n) + n else CRem(a, n)) == a % n
  {
    if a < 0 {
      var q := (-a) / n;
      var m := (-a) % n;
      assert -a == n * q + m;
      if m == 0 {
        assert a == n * (-q);
        MultipleRem(-q, 0, n);
      } else {
        assert a == n * (-q - 1) + (n - m);
        MultipleRem(-q - 1, n - m, n);
      }
    }
  }

  /** The Euclidean remainder of `n * k + m` is `m` when `0 <= m < n`. */
  lemma MultipleRem(k: int, m: int, n: int)
    requires n > 0 && 0 <= m < n
    ensures (n * k + m) % n == m
  {
    var x := n * k + m;
    var q, r := x / n, x % n;
    var d := q - k;
    assert n * d == m - r;
    if d > 0 {
      AtLeastOnce(n, d);
    } else if d < 0 {
      AtLeastOnce(n, -d);
    }
  }

  /** A positive multiple of `n` is at least `n`. */
  lemma {:induction false} AtLeastOnce(n: int, d: int)
    requires n > 0 && d >= 1
    ensures n * d >= n
  {
    if d > 1 {
      AtLeastOnce(n, d - 1);
      assert n * d == n * (d - 1) + n;
    }
  }

  /** Shifting the dividend by a multiple of `n` does not change the remainder. */
  lemma ShiftRem(x: int, k: int, n: int)
    requires n > 0
    ensures (x + n * k) % n == x % n
  {
    var q := x / n;
    assert x + n * k == n * (q + k) + x % n;
    MultipleRem(q + k, x % n, n);
  }
}
