/** Correctness of the engine as a signature scheme: a signature that generation
    produces passes verification (section 4.7 of FIPS 186-4, with the engine's own digest
    and Fermat inverses). */
module DsaCorrectness {
  import opened ModArith
  import opened Primality
  import opened Dsa
  import Fermat

  /** The derived generator has order dividing `q`: `g^q mod p == 1`, because
      `g^q == h^(p-1)` and Fermat's little theorem holds for `h` modulo the prime `p`. */
  lemma GeneratorOrder(prm: Params)
    requires Valid(prm)
    ensures Pow(prm.g, prm.q) % prm.p == 1
  {
    var p, q, h := prm.p, prm.q, prm.h;
    var e := (p - 1) / q;
    PowMod(Pow(h, e), q, p);
    PowMul(h, e, q);
    assert e * q == p - 1;
    SmallResidue(h, p);
    Fermat.FermatLittle(p, h);
  }

  /** For a base of order dividing `q`, only the exponent's residue modulo `q` matters. */
  lemma ExponentModOrder(g: int, p: int, q: int, n: nat)
    requires p > 1 && q > 0 && Pow(g, q) % p == 1
    ensures Pow(g, n) % p == Pow(g, n % q) % p
  {
    var t, rem := n / q, n % q;
    var whole, part := Pow(g, q * t), Pow(g, rem);
    DivModSplit(n, q);
    calc {
      Pow(g, n) % p;
      Pow(g, q * t + rem) % p;
      { PowAdd(g, q * t, rem); }
      (whole * part) % p;
      { MulModLeft(whole, part, p); }
      ((whole % p) * part) % p;
      { FullPeriods(g, p, q, t); }
      (1 * part) % p;
    }
  }

  lemma DivModSplit(n: nat, q: int)
    requires q > 0
    ensures n == q * (n / q) + n % q && n / q >= 0
  {
  }

  /** A whole number of periods: `g^(q*t) mod p == 1`. */
  lemma FullPeriods(g: int, p: int, q: int, t: nat)
    requires p > 1 && q > 0 && Pow(g, q) % p == 1
    ensures Pow(g, q * t) % p == 1
  {
    PowMul(g, q, t);
    PowOfUnit(Pow(g, q), p, t);
  }

  /** Every power of a residue-1 base is residue 1. */
  lemma PowOfUnit(c: int, p: int, t: nat)
    requires p > 1 && c % p == 1
    ensures Pow(c, t) % p == 1
  {
    calc {
      Pow(c, t) % p;
      { PowMod(c, t, p); }
      Pow(c % p, t) % p;
      Pow(1, t) % p;
      { PowOfOne(t); }
      1 % p;
      { SmallResidue(1, p); }
      1;
    }
  }

  /** `g^u1 * y^u2 == g^(u1 + x*u2) (mod p)` for the public key `y = g^x mod p`. */
  lemma CombinePowers(g: int, x: nat, u1: nat, u2: nat, p: int)
    requires p > 1
    ensures ((Pow(g, u1) % p) * (Pow(Pow(g, x) % p, u2) % p)) % p == Pow(g, u1 + x * u2) % p
  {
    PowMod(Pow(g, x), u2, p);
    PowMul(g, x, u2);
    MulMod(Pow(g, u1), Pow(g, x * u2), p);
    PowAdd(g, u1, x * u2);
  }

  /** `u1 + x*u2 == (hash + x*r) * w (mod q)` for `u1 = hash*w mod q`, `u2 = r*w mod q`. */
  lemma ExponentCongruence(q: int, hash: int, x: int, r: int, w: int)
    requires q > 0
    ensures ((hash * w) % q + x * ((r * w) % q)) % q == ((hash + x * r) * w) % q
  {
    var a, b := hash * w, x * (r * w);
    MulModRight(x, r * w, q);
    AddModRight(a % q, b, x * ((r * w) % q), q);
    AddModLeft(a, b, q);
    assert a + b == (hash + x * r) * w;
  }

  /** What verification checks, with the public key eliminated: an in-range signature is
      accepted exactly when `r == (g^((hash + x*r) * w mod q) mod p) mod q` for the inverse
      `w = s^(q-2) mod q`. */
  lemma VerificationEquation(prm: Params, msg: seq<Byte>, r: int, s: int)
    requires Valid(prm) && 0 < r < prm.q && 0 < s < prm.q
    ensures var w := Pow(s, prm.q - 2) % prm.q;
            var e := ((ComputeHash(msg, prm.q) + prm.x * r) * w) % prm.q;
            VerifySignature(prm, msg, r, s).result <==> r == (Pow(prm.g, e) % prm.p) % prm.q
  {
    var res := VerifySignature(prm, msg, r, s);
    GeneratorOrder(prm);
    VerifierValue(prm.g, prm.x, prm.p, prm.q, res.hash, r, res.w, res.u1, res.u2);
  }

  /** The product verification reduces equals `g` raised to `(hash + x*r) * w mod q`. */
  lemma VerifierValue(g: int, x: nat, p: int, q: int, hash: int, r: int, w: int, u1: nat, u2: nat)
    requires p > 1 && q > 0 && Pow(g, q) % p == 1
    requires u1 == (hash * w) % q && u2 == (r * w) % q
    ensures ((Pow(g, u1) % p) * (Pow(Pow(g, x) % p, u2) % p)) % p
            == Pow(g, ((hash + x * r) * w) % q) % p
  {
    CombinePowers(g, x, u1, u2, p);
    ExponentModOrder(g, p, q, u1 + x * u2);
    ExponentCongruence(q, hash, x, r, w);
  }

  /** The exponent verification recovers from a generated signature is the nonce:
      `(hash + x*r) * s^(q-2) == k (mod q)`. */
  lemma RecoversNonce(q: int, k: int, s: int, m: int)
    requires Prime(q) && 0 < k < q && 0 < s < q && (k * s) % q == m % q
    ensures (m * (Pow(s, q - 2) % q)) % q == k
  {
    var w := Pow(s, q - 2) % q;
    Fermat.FermatInverse(q, s);
    calc {
      (m * w) % q;
      { MulModLeft(m, w, q); }
      ((m % q) * w) % q;
      ((k * s) % q * w) % q;
      { MulModLeft(k * s, w, q); }
      ((k * s) * w) % q;
      { MulAssociates(k, s, w); }
      (k * (s * w)) % q;
      { MulModRight(k, s * w, q); }
      (k * ((s * w) % q)) % q;
      { SmallResidue(k, q); }
      k;
    }
  }

  /** Sign-then-verify: whenever generation succeeds, verifying its signature against the
      same message and parameters is in bounds and accepted. */
  lemma SignThenVerify(prm: Params, msg: seq<Byte>)
    requires Valid(prm) && GenerateSignature(prm, msg).Success?
    ensures var sig := GenerateSignature(prm, msg).value;
            var res := VerifySignature(prm, msg, sig.r, sig.s);
            res.inBounds && res.result && res.hash == sig.hash
  {
    var sig := GenerateSignature(prm, msg).value;
    var q := prm.q;
    RecoversNonce(q, prm.k, sig.s, sig.hash + prm.x * sig.r);
    VerificationEquation(prm, msg, sig.r, sig.s);
  }
}
