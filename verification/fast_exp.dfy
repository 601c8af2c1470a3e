/** Square-and-multiply modular exponentiation (`FastModExp` of the provider). */
module FastExp {
  import opened ModArith

  /** The loop's state after one more pass: the accumulator absorbs the base when the low
      exponent bit is set, the base is squared and the exponent halved, all modulo `m`. */
  lemma SquareMultiplyStep(acc: int, base: int, e: nat, m: int)
    requires m > 0 && e > 0
    ensures var acc' := if e % 2 == 1 then (acc * base) % m else acc;
            (acc' * Pow((base * base) % m, e / 2)) % m == (acc * Pow(base, e)) % m
  {
    var half := Pow((base * base) % m, e / 2);
    var even := Pow(base, 2 * (e / 2));
    assert half % m == even % m by {
      PowMod(base * base, e / 2, m);
      PowSquare(base, e / 2);
    }
    if e % 2 == 1 {
      OddStep(acc, base, half, even, e, m);
    } else {
      assert 2 * (e / 2) == e;
      CongruentFactor(acc, half, even, m);
    }
  }

  lemma OddStep(acc: int, base: int, half: int, even: int, e: nat, m: int)
    requires m > 0 && e % 2 == 1 && half % m == even % m && even == Pow(base, 2 * (e / 2))
    ensures (((acc * base) % m) * half) % m == (acc * Pow(base, e)) % m
  {
    var ab := acc * base;
    MulModLeft(ab, half, m);
    CongruentFactor(ab, half, even, m);
    PowAdd(base, 2 * (e / 2), 1);
    assert Pow(base, 1) == base;
    assert 2 * (e / 2) + 1 == e;
    assert ab * even == acc * Pow(base, e);
  }

  /** The remaining passes of the loop, from accumulator `acc`, base `base` and exponent `e`:
      whatever the state, the loop finishes with `acc * base^e` reduced modulo `m`. */
  function SquareAndMultiply(acc: int, base: int, e: nat, m: int): (r: int)
    requires m > 1 && 0 <= acc < m
    ensures 0 <= r < m
    ensures r == (acc * Pow(base, e)) % m
    decreases e
  {
    if e == 0 then
      acc
    else
      var acc' := if e % 2 == 1 then (acc * base) % m else acc;
      SquareMultiplyStep(acc, base, e, m);
      SquareAndMultiply(acc', (base * base) % m, e / 2, m)
  }

  /** The provider's `FastModExp` as a pure function, for use by the other operations:
      the residue of `a^e` modulo `m`, which is `1` for the zero exponent. */
  function ModExp(a: int, e: nat, m: int): (r: int)
    requires a >= 0 && m > 1
    ensures 0 <= r < m
    ensures r == Pow(a, e) % m
    ensures e == 0 ==> r == 1
  {
    PowMod(a, e, m);
    SquareAndMultiply(1, a % m, e, m)
  }

  /** The provider's loop as written: the base is reduced once, then the exponent is
      consumed bit by bit from the low end.  A non-positive exponent skips the loop. */
  method FastModExp(a0: int, exponent: int, mod: int) returns (result: int)
    requires a0 >= 0 && mod > 1
    ensures 0 <= result < mod
    ensures exponent >= 0 ==> result == Pow(a0, exponent) % mod
    ensures exponent <= 0 ==> result == 1
  {
    result := 1;
    var a := a0 % mod;
    var e := exponent;
    ghost var e0: nat := if exponent >= 0 then exponent else 0;
    ghost var target := Pow(a0, e0) % mod;
    PowMod(a0, e0, mod);
    while e > 0
      invariant 0 <= result < mod
      invariant exponent <= 0 ==> e == exponent && result == 1
      invariant exponent >= 0 ==> e >= 0 && (result * Pow(a, e)) % mod == target
      decreases e
    {
      ghost var e1: nat := e;
      SquareMultiplyStep(result, a, e1, mod);
      if e % 2 == 1 {
        result := (result * a) % mod;
      }
      e := e / 2;
      a := (a * a) % mod;
    }
    ZeroExponent(result, a, mod);
  }

  lemma ZeroExponent(acc: int, base: int, m: int)
    requires m > 0 && 0 <= acc < m
    ensures (acc * Pow(base, 0)) % m == acc
  {
  }
}
