/** Trial-division primality (`IsPrime` of the provider) against the mathematical definition. */
module Primality {
  import opened ModArith

  /** Mathematical primality: at least 2, and no divisor strictly between 1 and itself. */
  predicate Prime(n: int) {
    n >= 2 && forall d :: 2 <= d < n ==> n % d != 0
  }

  /** No odd candidate `i, i+2, ...` whose square stays within `n` divides `n`:
      the passes of the source's loop that remain once it has reached `i`. */
  predicate NoOddDivisorFrom(n: int, i: int)
    requires i >= 3
    decreases n - i
  {
    i * i > n || (n % i != 0 && (BelowSquare(n, i); NoOddDivisorFrom(n, i + 2)))
  }

  lemma BelowSquare(n: int, i: int)
    requires i >= 1 && i * i <= n
    ensures i <= n
  {
    assert i <= i * i;
  }

  /** The provider's `IsPrime` as a pure function: small and even numbers are settled
      directly, odd ones by trial division with odd candidates up to the square root. */
  function IsPrime(n: int): (r: bool)
    ensures r <==> Prime(n)
  {
    if n <= 1 then
      false
    else if n == 2 then
      true
    else if n % 2 == 0 then
      (assert n % 2 == 0 && 2 < n; false)
    else
      (OddTrialDivision(n, 3); NoOddDivisorFrom(n, 3))
  }

  /** An odd number has no even divisor. */
  lemma OddHasNoEvenDivisor(n: int, d: int)
    requires n % 2 == 1 && d >= 2 && d % 2 == 0
    ensures n % d != 0
  {
    if n % d == 0 {
      var c := n / d;
      var half := d / 2;
      assert n == (c * half) * 2;
      ModOfMultiple(c * half, 2);
    }
  }

  /** Once every candidate below `i` has failed and `i*i` exceeds `n`, `n` is prime:
      a divisor at or above `i` would pair with a cofactor below `i`. */
  lemma NoSmallDivisorMeansPrime(n: int, i: int)
    requires n >= 2 && i >= 2 && i * i > n
    requires forall d :: 2 <= d < i ==> n % d != 0
    ensures Prime(n)
  {
    forall d | 2 <= d < n
      ensures n % d != 0
    {
      if d >= i && n % d == 0 {
        var e := n / d;
        CofactorBounds(n, d, e, i);
      }
    }
  }

  /** A divisor `d` at or above `i` of `n < i*i` leaves a cofactor in `[2, i)` that
      divides `n` too. */
  lemma CofactorBounds(n: int, d: int, e: int, i: int)
    requires 2 <= i <= d < n && n % d == 0 && e == n / d && i * i > n
    ensures 2 <= e < i && n % e == 0
  {
    assert n == e * d;
    CancelFactor(1, e, d);
    MulMonotone(i, d, i);
    CancelFactor(e, i, d);
    ModOfMultiple(d, e);
    assert n == d * e;
  }

  lemma MulMonotone(a: int, b: int, c: int)
    requires 0 <= a <= b && c >= 0
    ensures a * c <= b * c
  {
  }

  /** A positive common factor can be cancelled from a strict inequality. */
  lemma CancelFactor(a: int, b: int, c: int)
    requires c > 0 && a * c < b * c
    ensures a < b
  {
  }

  /** From an odd candidate `i` with every smaller candidate failed, the remaining passes
      succeed exactly when `n` is prime. */
  lemma {:induction false} OddTrialDivision(n: int, i: int)
    requires n >= 3 && n % 2 == 1 && i >= 3 && i % 2 == 1
    requires forall d :: 2 <= d < i ==> n % d != 0
    ensures NoOddDivisorFrom(n, i) <==> Prime(n)
    decreases n - i
  {
    if i * i > n {
      NoSmallDivisorMeansPrime(n, i);
    } else {
      BelowSquare(n, i);
      if n % i == 0 {
        assert i < n by { assert i < i * i; }
      } else {
        OddHasNoEvenDivisor(n, i + 1);
        OddTrialDivision(n, i + 2);
      }
    }
  }

  /** The provider's loop as written: odd candidates from 3 while their square stays
      within the number; the answer is mathematical primality. */
  method CheckPrime(number: int) returns (r: bool)
    ensures r <==> Prime(number)
  {
    if number <= 1 {
      return false;
    }
    if number == 2 {
      return true;
    }
    if number % 2 == 0 {
      assert 2 < number;
      return false;
    }
    var i := 3;
    while i * i <= number
      invariant i >= 3 && i % 2 == 1
      invariant forall d :: 2 <= d < i ==> number % d != 0
      decreases number - i
    {
      BelowSquare(number, i);
      if number % i == 0 {
        assert i < number by { assert i < i * i; }
        return false;
      }
      OddHasNoEvenDivisor(number, i + 1);
      i := i + 2;
    }
    NoSmallDivisorMeansPrime(number, i);
    return true;
  }
}
