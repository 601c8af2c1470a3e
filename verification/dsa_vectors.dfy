/** The worked example of the engine (p = 23, q = 11, h = 2, x = 3, k = 7, message `[65]`)
    and the validator's rejection cases, computed by the model. */
module DsaVectors {
  import opened Wrappers
  import opened Dsa

  const Example := Params(23, 11, 2, 3, 7, 4, 18)

  /** Derivation gives `g = 4` and `y = 18`. */
  lemma ExampleParameters()
    ensures SetParameters(23, 11, 2, 3, 7) == Success(Example)
  {
    ExamplePrimes();
    assert FastExp.ModExp(2, 2, 23) == 4 by { assert ModArith.Pow(2, 2) == 4; }
    assert FastExp.ModExp(4, 3, 23) == 18 by { assert ModArith.Pow(4, 3) == 64; }
  }

  /** The example parameter set is one `SetParameters` accepts. */
  lemma ExampleValid()
    ensures Valid(Example)
  {
    ExamplePrimes();
    assert ModArith.Pow(2, 2) == 4;
    assert ModArith.Pow(4, 3) == 64;
  }

  /** Both moduli of the example are prime. */
  lemma ExamplePrimes()
    ensures Primality.IsPrime(23) && Primality.IsPrime(11)
  {
    assert Primality.NoOddDivisorFrom(23, 3);
    assert Primality.NoOddDivisorFrom(11, 3);
  }

  /** Signing the one-byte message `[65]` gives digest 0 and signature `(8, 5)`. */
  lemma ExampleSignature()
    ensures Valid(Example)
    ensures ComputeHash([65], 11) == 0
    ensures GenerateSignature(Example, [65]) == Success(GenResult(8, 5, 0, 4, 18))
  {
    ExampleValid();
    ExampleDigest();
    PowerGK();
    PowerKInverse();
    ExampleResidues();
    SignerSteps(Example, [65], 0, 8, 8, 5);
  }

  lemma ExampleDigest()
    ensures ComputeHash([65], 11) == 0
  {
    assert [65][..0] == [];
    assert ComputeHash([65], 11) == FastExp.ModExp(165, 2, 11);
    assert ModArith.Pow(165, 2) == 27225;
  }

  /** `g^k mod p = 4^7 mod 23 = 8`, so `r = 8 mod 11 = 8`. */
  lemma PowerGK()
    ensures FastExp.ModExp(4, 7, 23) == 8
  {
    assert ModArith.Pow(4, 7) == 16384;
  }

  /** `k^(q-2) mod q = 7^9 mod 11 = 8`, the inverse of `k = 7`. */
  lemma PowerKInverse()
    ensures FastExp.ModExp(7, 9, 11) == 8
  {
    assert ModArith.Pow(7, 9) == 40353607;
  }

  /** `w = s^(q-2) mod q = 5^9 mod 11 = 9`, the inverse of `s = 5`. */
  lemma PowerW()
    ensures FastExp.ModExp(5, 9, 11) == 9
  {
    assert ModArith.Pow(5, 9) == 1953125;
  }

  /** `g^u1 mod p = 4^0 mod 23 = 1`. */
  lemma PowerU1()
    ensures FastExp.ModExp(4, 0, 23) == 1
  {
    assert ModArith.Pow(4, 0) == 1;
  }

  /** `y^u2 mod p = 18^6 mod 23 = 8`. */
  lemma PowerYU2()
    ensures FastExp.ModExp(18, 6, 23) == 8
  {
    assert ModArith.Pow(18, 6) == 34012224;
  }

  /** The small residues of the example: `s = 8 * (0 + 3*8) mod 11`, `u1 = 0 * 9 mod 11`,
      `u2 = 8 * 9 mod 11` and `v = 1 * 8 mod 23 mod 11`. */
  lemma ExampleResidues()
    ensures (8 * (0 + 3 * 8)) % 11 == 5
    ensures (0 * 9) % 11 == 0 && (8 * 9) % 11 == 6 && (1 * 8) % 23 % 11 == 8
  {
    assert 8 * (0 + 3 * 8) == 17 * 11 + 5;
    assert 8 * 9 == 6 * 11 + 6;
  }

  /** The signer's result from the values of its steps: the digest, `r`, the inverse of
      `k` and `s`. */
  lemma SignerSteps(prm: Params, msg: seq<Byte>, hash: int, r: int, kInv: int, s: int)
    requires Valid(prm)
    requires ComputeHash(msg, prm.q) == hash
    requires FastExp.ModExp(prm.g, prm.k, prm.p) % prm.q == r && r != 0
    requires FastExp.ModExp(prm.k, prm.q - 2, prm.q) == kInv
    requires (kInv * (hash + prm.x * r)) % prm.q == s && s != 0
    ensures GenerateSignature(prm, msg) == Success(GenResult(r, s, hash, prm.g, prm.y))
  {
  }

  /** Verifying `(8, 5)` gives `w = 9, u1 = 0, u2 = 6, v = 8`, so the signature holds. */
  lemma ExampleVerification()
    ensures Valid(Example)
    ensures VerifySignature(Example, [65], 8, 5) == VerResult(0, 9, 0, 6, 8, true, true)
  {
    ExampleValid();
    ExampleDigest();
    PowerW();
    PowerU1();
    PowerYU2();
    ExampleResidues();
    VerifierSteps(Example, [65], 8, 5, 0, 9, 0, 6, 8);
  }

  /** Each rule of the validator, broken on its own, is the one reported. */
  lemma RejectionCases()
    ensures SetParameters(4, 3, 2, 1, 1) == Failure(NotPrime)
    ensures SetParameters(23, 5, 2, 1, 1) == Failure(QDoesNotDivide)
    ensures SetParameters(23, 11, 30, 1, 1) == Failure(HOutOfRange)
    ensures SetParameters(23, 11, 2, 0, 1) == Failure(XOutOfRange)
    ensures SetParameters(23, 11, 2, 11, 1) == Failure(XOutOfRange)
    ensures SetParameters(23, 11, 2, 1, 0) == Failure(KOutOfRange)
    ensures SetParameters(23, 11, 2, 1, 11) == Failure(KOutOfRange)
  {
  }

  /** The verifier's result from the values of its steps: the digest, `w`, `u1`, `u2` and
      the two modular powers. */
  lemma VerifierSteps(prm: Params, msg: seq<Byte>, r: int, s: int,
                      hash: int, w: int, u1: int, u2: int, v: int)
    requires Valid(prm) && 0 < r < prm.q && 0 < s < prm.q
    requires ComputeHash(msg, prm.q) == hash && FastExp.ModExp(s, prm.q - 2, prm.q) == w
    requires u1 == (hash * w) % prm.q && u2 == (r * w) % prm.q
    requires (FastExp.ModExp(prm.g, u1, prm.p) * FastExp.ModExp(prm.y, u2, prm.p)) % prm.p % prm.q == v
    ensures VerifySignature(prm, msg, r, s) == VerResult(hash, w, u1, u2, v, v == r, true)
  {
  }
}
