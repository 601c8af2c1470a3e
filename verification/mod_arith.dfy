/** Integer powers and the facts about `%` that the engine's proofs rest on.
    Every modulus here is positive, and Dafny's Euclidean `%` is the mathematical residue. */
module ModArith {

  /** `a` raised to the natural power `e`: the specification of every exponentiation. */
  function Pow(a: int, e: nat): int
    decreases e
  {
    if e == 0 then 1 else a * Pow(a, e - 1)
  }

  lemma {:induction false} PowOfOne(e: nat)
    ensures Pow(1, e) == 1
    decreases e
  {
    if e > 0 {
      PowOfOne(e - 1);
    }
  }

  /** Exponents add under multiplication of powers. */
  lemma {:induction false} PowAdd(a: int, m: nat, n: nat)
    ensures Pow(a, m + n) == Pow(a, m) * Pow(a, n)
    decreases m
  {
    if m > 0 {
      PowAdd(a, m - 1, n);
      calc {
        Pow(a, m + n);
        a * Pow(a, (m - 1) + n);
        a * (Pow(a, m - 1) * Pow(a, n));
        (a * Pow(a, m - 1)) * Pow(a, n);
      }
    }
  }

  /** A power of a power multiplies the exponents. */
  lemma {:induction false} PowMul(a: int, m: nat, n: nat)
    ensures Pow(a, m * n) == Pow(Pow(a, m), n)
    decreases n
  {
    if n > 0 {
      PowMul(a, m, n - 1);
      assert m * n == m + m * (n - 1);
      PowAdd(a, m, m * (n - 1));
    }
  }

  /** Squaring the base doubles the exponent: the identity square-and-multiply relies on. */
  lemma PowSquare(a: int, n: nat)
    ensures Pow(a * a, n) == Pow(a, 2 * n)
  {
    PowMul(a, 2, n);
    assert Pow(a, 2) == a * a;
  }

  /** Euclidean division is unique: a quotient and remainder in range are THE remainder. */
  lemma ModUnique(n: int, m: int, d: int, r: int)
    requires m > 0 && 0 <= r < m && n == d * m + r
    ensures n % m == r
  {
    var d0, r0 := n / m, n % m;
    assert (d - d0) * m == r0 - r;
    SmallMultipleIsZero(d - d0, m);
  }

  lemma SmallMultipleIsZero(t: int, m: int)
    requires m > 0 && -m < t * m < m
    ensures t == 0
  {
    if t >= 1 {
      MulAtLeast(t, m);
    } else if t <= -1 {
      MulAtLeast(-t, m);
    }
  }

  lemma MulAtLeast(t: int, m: int)
    requires t >= 1 && m > 0
    ensures t * m >= m
  {
  }

  lemma ModAddMultiple(c: int, k: int, m: int)
    requires m > 0
    ensures (k * m + c) % m == c % m
  {
    assert c == (c / m) * m + c % m;
    assert k * m + c == (k + c / m) * m + c % m;
    ModUnique(k * m + c, m, k + c / m, c % m);
  }

  lemma ModOfMultiple(k: int, m: int)
    requires m > 0
    ensures (k * m) % m == 0
  {
    ModAddMultiple(0, k, m);
  }

  /** Reducing one factor first does not change the residue of a product. */
  lemma MulModLeft(a: int, b: int, m: int)
    requires m > 0
    ensures (a * b) % m == ((a % m) * b) % m
  {
    var d := a / m;
    assert a == d * m + a % m;
    assert a * b == (d * b) * m + (a % m) * b;
    ModAddMultiple((a % m) * b, d * b, m);
  }

  lemma MulMod(a: int, b: int, m: int)
    requires m > 0
    ensures (a * b) % m == ((a % m) * (b % m)) % m
  {
    MulModLeft(a, b, m);
    MulModLeft(b, a % m, m);
    assert (a % m) * b == b * (a % m);
    assert (b % m) * (a % m) == (a % m) * (b % m);
  }

  lemma AddMod(a: int, b: int, m: int)
    requires m > 0
    ensures (a + b) % m == ((a % m) + (b % m)) % m
  {
    assert a + b == (a / m + b / m) * m + ((a % m) + (b % m));
    ModAddMultiple((a % m) + (b % m), a / m + b / m, m);
  }

  lemma MulAssociates(a: int, b: int, c: int)
    ensures (a * b) * c == a * (b * c)
  {
  }

  /** A value already in `[0, q)` is its own residue. */
  lemma SmallResidue(k: int, q: int)
    requires 0 <= k < q
    ensures k % q == k
  {
    ModUnique(k, q, 0, k);
  }

  /** Reducing the right factor first does not change the residue of a product. */
  lemma MulModRight(a: int, b: int, m: int)
    requires m > 0
    ensures (a * b) % m == (a * (b % m)) % m
  {
    MulModLeft(b, a, m);
    assert a * b == b * a;
    assert (b % m) * a == a * (b % m);
  }

  /** Replacing a factor by a congruent one keeps the residue of the product. */
  lemma CongruentFactor(a: int, b: int, c: int, m: int)
    requires m > 0 && b % m == c % m
    ensures (a * b) % m == (a * c) % m
  {
    MulModRight(a, b, m);
    MulModRight(a, c, m);
  }

  /** Reducing the left summand first does not change the residue of a sum. */
  lemma AddModLeft(a: int, b: int, q: int)
    requires q > 0
    ensures (a % q + b) % q == (a + b) % q
  {
    assert a + b == (a / q) * q + (a % q + b);
    ModAddMultiple(a % q + b, a / q, q);
  }

  /** Replacing a summand by a congruent one keeps the residue of the sum. */
  lemma AddModRight(a: int, b: int, c: int, q: int)
    requires q > 0 && b % q == c % q
    ensures (a + c) % q == (a + b) % q
  {
    AddMod(a, b, q);
    AddMod(a, c, q);
  }

  /** The residue of a power depends only on the residue of its base. */
  lemma {:induction false} PowMod(a: int, e: nat, m: int)
    requires m > 0
    ensures Pow(a % m, e) % m == Pow(a, e) % m
    decreases e
  {
    if e > 0 {
      PowMod(a, e - 1, m);
      calc {
        Pow(a % m, e) % m;
        ((a % m) * Pow(a % m, e - 1)) % m;
        { MulMod(a % m, Pow(a % m, e - 1), m); }
        (((a % m) % m) * (Pow(a % m, e - 1) % m)) % m;
        (((a % m) % m) * (Pow(a, e - 1) % m)) % m;
        { MulMod(a % m, Pow(a, e - 1), m); }
        ((a % m) * Pow(a, e - 1)) % m;
        { MulModLeft(a, Pow(a, e - 1), m); }
        (a * Pow(a, e - 1)) % m;
      }
    }
  }

  /** Equal residues differ by a multiple of the modulus. */
  lemma SameResidueDifference(a: int, b: int, m: int)
    requires m > 0 && a % m == b % m
    ensures (a - b) % m == 0
  {
    assert a - b == (a / m - b / m) * m;
    ModOfMultiple(a / m - b / m, m);
  }
}
