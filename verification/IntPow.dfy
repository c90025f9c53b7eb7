/** `intpow` of util/sync/manager.go: powers of a 64-bit integer by repeated squaring, with wrap-around.

    Mathematical integers are wrapped after each operation of the source. The loop halves the exponent with an
    arithmetic shift, which takes negative exponents to -1 and never to 0. */
module IntPow {

  const MODULUS := 0x1_0000_0000_0000_0000
  const HALF := 0x8000_0000_0000_0000

  /** The int64 that a mathematical integer wraps to. */
  function Wrap(n: int): int
  {
    (n + HALF) % MODULUS - HALF
  }

  predicate IsInt64(n: int)
  {
    -HALF <= n < HALF
  }

  function Pow(x: int, y: nat): int
  {
    if y == 0 then 1 else x * Pow(x, y - 1)
  }

  lemma {:induction false} PowAdds(x: int, m: nat, n: nat)
    ensures Pow(x, m + n) == Pow(x, m) * Pow(x, n)
    ensures Pow(x, 0) == 1 && Pow(x, 1) == x
  {
    if m > 0 {
      PowAdds(x, m - 1, n);
      assert Pow(x, m + n) == x * (Pow(x, m - 1) * Pow(x, n)) == x * Pow(x, m - 1) * Pow(x, n);
    }
  }

  /** `a` and `b` differ by a multiple of the modulus. */
  ghost predicate Congruent(a: int, b: int)
  {
    exists k :: Apart(a, b, k)
  }

  predicate Apart(a: int, b: int, k: int)
  {
    a == b + k * MODULUS
  }

  lemma WrapCongruent(n: int)
    ensures Congruent(Wrap(n), n)
  {
    assert Apart(Wrap(n), n, -((n + HALF) / MODULUS));
  }

  lemma {:induction false} ShiftMod(n: int, k: int)
    ensures (n + k * MODULUS) % MODULUS == n % MODULUS
    decreases if k < 0 then -k else k
  {
    if k > 0 {
      ShiftMod(n, k - 1);
      assert n + k * MODULUS == n + (k - 1) * MODULUS + MODULUS;
    } else if k < 0 {
      ShiftMod(n, k + 1);
      assert n + k * MODULUS == n + (k + 1) * MODULUS - MODULUS;
    }
  }

  lemma CongruentMul(a: int, b: int, c: int, d: int)
    requires Congruent(a, b) && Congruent(c, d)
    ensures Congruent(a * c, b * d)
  {
    var k :| Apart(a, b, k);
    var l :| Apart(c, d, l);
    var m := b * l + k * d + k * l * MODULUS;
    calc {
      a * c;
      (b + k * MODULUS) * (d + l * MODULUS);
      b * d + b * (l * MODULUS) + (k * MODULUS) * d + (k * MODULUS) * (l * MODULUS);
      b * d + m * MODULUS;
    }
    assert Apart(a * c, b * d, m);
  }

  lemma CongruentTrans(a: int, b: int, c: int)
    requires Congruent(a, b) && Congruent(b, c)
    ensures Congruent(a, c)
  {
    var k :| Apart(a, b, k);
    var l :| Apart(b, c, l);
    assert Apart(a, c, k + l);
  }

  lemma CongruentSelf(a: int)
    ensures Congruent(a, a)
  {
    assert Apart(a, a, 0);
  }

  lemma {:induction false} CongruentPow(a: int, b: int, y: nat)
    requires Congruent(a, b)
    ensures Congruent(Pow(a, y), Pow(b, y))
  {
    if y == 0 {
      CongruentSelf(1);
    } else {
      CongruentPow(a, b, y - 1);
      CongruentMul(a, b, Pow(a, y - 1), Pow(b, y - 1));
    }
  }

  lemma {:induction false} PowSquare(x: int, n: nat)
    ensures Pow(x * x, n) == Pow(x, 2 * n)
  {
    if n > 0 {
      PowSquare(x, n - 1);
      assert Pow(x, 2 * n) == x * (x * Pow(x, 2 * n - 2));
      assert x * (x * Pow(x, 2 * n - 2)) == (x * x) * Pow(x, 2 * (n - 1));
    }
  }

  /** One iteration keeps `result * x^y` up to multiples of the modulus. */
  lemma Squaring(result: int, x: int, y: nat)
    requires y > 0
    ensures Congruent((if y % 2 == 1 then Wrap(result * x) else result) * Pow(Wrap(x * x), y / 2), result * Pow(x, y))
  {
    var p, q := Pow(Wrap(x * x), y / 2), Pow(x, 2 * (y / 2));
    SquaredPow(x, y / 2);
    if y % 2 == 1 {
      WrapCongruent(result * x);
      CongruentMul(Wrap(result * x), result * x, p, q);
      assert y == 2 * (y / 2) + 1;
      assert Pow(x, y) == x * q;
      assert (result * x) * q == result * (x * q);
    } else {
      CongruentSelf(result);
      CongruentMul(result, result, p, q);
      assert y == 2 * (y / 2);
    }
  }

  lemma SquaredPow(x: int, half: nat)
    ensures Congruent(Pow(Wrap(x * x), half), Pow(x, 2 * half))
  {
    WrapCongruent(x * x);
    CongruentPow(Wrap(x * x), x * x, half);
    PowSquare(x, half);
  }

  /** For every exponent that is not negative the loop ends with the wrapped power. */
  method Intpow(base: int, exponent: int) returns (result: int)
    requires IsInt64(base) && IsInt64(exponent) && exponent >= 0
    ensures result == Wrap(Pow(base, exponent))
    ensures -0x8000_0000_0000_0000 <= result < 0x8000_0000_0000_0000
    ensures exists k: int :: result == Pow(base, exponent) + k * 0x1_0000_0000_0000_0000
  {
    result := 1;
    var x, y := base, exponent;
    CongruentSelf(Pow(base, exponent));
    while y != 0
      invariant 0 <= y && IsInt64(result)
      invariant Congruent(result * Pow(x, y), Pow(base, exponent))
      decreases y
    {
      Squaring(result, x, y);
      ghost var before := result * Pow(x, y);
      if y % 2 != 0 {
        result := Wrap(result * x);
      }
      y := y / 2;
      x := Wrap(x * x);
      CongruentTrans(result * Pow(x, y), before, Pow(base, exponent));
    }
    assert result * Pow(x, 0) == result;
    ghost var k :| Apart(result, Pow(base, exponent), k);
    ShiftMod(Pow(base, exponent) + HALF, k);
  }

  /** The exponent after n iterations: `>>` rounds towards minus infinity, as does this division. */
  function Halved(y: int, n: nat): int
  {
    if n == 0 then y else Halved(y, n - 1) / 2
  }

  /** Non-negative is exactly when the loop ends: a negative exponent is never shifted to zero. */
  lemma {:induction false} EndsExactlyWhen(y: int)
    ensures (exists n: nat :: Halved(y, n) == 0) <==> y >= 0
  {
    if y >= 0 {
      HalvedReachesZero(y, y);
      assert Halved(y, y) == 0;
    } else {
      forall n: nat
        ensures Halved(y, n) != 0
      {
        HalvedStaysNegative(y, n);
      }
    }
  }

  lemma {:induction false} HalvedStaysNegative(y: int, n: nat)
    requires y < 0
    ensures Halved(y, n) < 0
  {
    if n > 0 {
      HalvedStaysNegative(y, n - 1);
    }
  }

  lemma {:induction false} HalvedReachesZero(y: nat, n: nat)
    ensures 0 <= Halved(y, n) <= if n <= y then y - n else 0
  {
    if n > 0 {
      HalvedReachesZero(y, n - 1);
    }
  }
}
