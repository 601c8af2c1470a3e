/** The provider's DSA engine: parameter validation and key derivation, the byte-fold
    digest, signature generation and verification, over unbounded integers.
    The provider object's seven mutable fields become the immutable `Params` value. */
module Dsa {
  import opened Wrappers
  import opened ModArith
  import opened FastExp
  import opened Primality
  import Fermat

  /** A message byte, as produced by the front end's UTF-8 encoding. */
  type Byte = b: int | 0 <= b < 256

  /** The provider's fields: prime modulus `p`, prime order `q`, generator seed `h`,
      secret key `x`, nonce `k`, derived generator `g` and public key `y`. */
  datatype Params = Params(p: int, q: int, h: int, x: int, k: int, g: int, y: int)

  /** The rule `SetParameters` rejected its inputs for, in checking order. */
  datatype ParamError = NotPrime | QDoesNotDivide | HOutOfRange | XOutOfRange | KOutOfRange

  /** The two reasons `GenerateSignature` gives up and asks for another nonce. */
  datatype SigError = ZeroR | ZeroS

  /** What a successful signing returns: the signature, the digest and the derived values. */
  datatype GenResult = GenResult(r: int, s: int, hash: int, g: int, y: int)

  /** What verification returns: the intermediate values, whether `v == r`, and whether
      the signature was within `(0, q)` at all. */
  datatype VerResult = VerResult(hash: int, w: int, u1: int, u2: int, v: int, result: bool, inBounds: bool)

  /** The outcome of verifying a signature outside `(0, q)`: everything zero and false. */
  const OutOfBounds := VerResult(0, 0, 0, 0, 0, false, false)

  /** Caller-supplied values that pass every check of `SetParameters`. */
  predicate Acceptable(p: int, q: int, h: int, x: int, k: int) {
    && Prime(p) && Prime(q)
    && (p - 1) % q == 0
    && 1 < h < p
    && 0 < x < q
    && 0 < k < q
  }

  /** A parameter set as a successful `SetParameters` leaves it: acceptable inputs, the
      generator `g = h^((p-1)/q) mod p` and the public key `y = g^x mod p`. */
  predicate Valid(prm: Params) {
    && Acceptable(prm.p, prm.q, prm.h, prm.x, prm.k)
    && prm.g == Pow(prm.h, (prm.p - 1) / prm.q) % prm.p
    && prm.y == Pow(prm.g, prm.x) % prm.p
  }

  /** `SetParameters`: validate in the source's order, reporting the first rule broken;
      on success derive `g` and `y` and return the complete parameter set. */
  function SetParameters(p: int, q: int, h: int, x: int, k: int): (r: Result<Params, ParamError>)
    ensures r.Success? <==> Acceptable(p, q, h, x, k)
    ensures r.Success? ==> Valid(r.value)
    ensures r.Success? ==> r.value.p == p && r.value.q == q && r.value.h == h
                           && r.value.x == x && r.value.k == k
    ensures r.Success? ==> 0 <= r.value.g < p && 0 <= r.value.y < p
    ensures r == Failure(NotPrime) <==> !Prime(p) || !Prime(q)
    ensures r == Failure(QDoesNotDivide) <==> Prime(p) && Prime(q) && (p - 1) % q != 0
    ensures r == Failure(HOutOfRange) <==> Prime(p) && Prime(q) && (p - 1) % q == 0 && !(1 < h < p)
    ensures r == Failure(XOutOfRange) <==>
              Prime(p) && Prime(q) && (p - 1) % q == 0 && 1 < h < p && !(0 < x < q)
    ensures r == Failure(KOutOfRange) <==>
              Prime(p) && Prime(q) && (p - 1) % q == 0 && 1 < h < p && 0 < x < q && !(0 < k < q)
  {
    if !IsPrime(p) || !IsPrime(q) then
      Failure(NotPrime)
    else if (p - 1) % q != 0 then
      Failure(QDoesNotDivide)
    else if h <= 1 || h >= p then
      Failure(HOutOfRange)
    else if x <= 0 || x >= q then
      Failure(XOutOfRange)
    else if k <= 0 || k >= q then
      Failure(KOutOfRange)
    else
      var g := ModExp(h, (p - 1) / q, p);
      var y := ModExp(g, x, p);
      Success(Params(p, q, h, x, k, g, y))
  }

  /** The provider's fields after a `SetParameters` call: every check precedes the first
      assignment, so a rejected call leaves all seven fields as they were. */
  function ApplyParameters(current: Params, p: int, q: int, h: int, x: int, k: int): (next: Params)
    ensures !Acceptable(p, q, h, x, k) ==> next == current
    ensures Acceptable(p, q, h, x, k) ==> Valid(next) && next.p == p && next.q == q
                                          && next.h == h && next.x == x && next.k == k
  {
    match SetParameters(p, q, h, x, k)
    case Success(prm) => prm
    case Failure(_) => current
  }

  /** `ComputeHash`: start from 100 and replace the accumulator by `(H + b)^2 mod q` for each
      byte in order, so the digest of a message is the step applied to the digest of all
      but its last byte.  The empty message digests to 100 itself, unreduced. */
  function ComputeHash(bs: seq<Byte>, q: int): (r: int)
    requires q > 1
    ensures |bs| == 0 ==> r == 100
    ensures |bs| > 0 ==> 0 <= r < q
    ensures r >= 0
    decreases |bs|
  {
    if |bs| == 0 then 100 else ModExp(ComputeHash(bs[..|bs| - 1], q) + bs[|bs| - 1], 2, q)
  }

  /** The digest loop as written: `H` starts at 100 and each byte in order replaces it by
      `FastModExp(H + b, 2, q)`.  It computes exactly `ComputeHash`. */
  method HashLoop(bs: seq<Byte>, q: int) returns (h: int)
    requires q > 1
    ensures h == ComputeHash(bs, q)
  {
    h := 100;
    var i := 0;
    while i < |bs|
      invariant 0 <= i <= |bs|
      invariant h == ComputeHash(bs[..i], q)
    {
      var next := FastModExp(h + bs[i], 2, q);
      HashStep(bs, i, q, h, next);
      h := next;
      i := i + 1;
    }
    assert bs[..i] == bs;
  }

  /** One pass of the digest loop: squaring `H + b` modulo `q` turns the digest of the
      first `i` bytes into the digest of the first `i + 1`. */
  lemma HashStep(bs: seq<Byte>, i: nat, q: int, h: int, next: int)
    requires q > 1 && i < |bs|
    requires h == ComputeHash(bs[..i], q)
    requires next == Pow(h + bs[i], 2) % q
    ensures next == ComputeHash(bs[..i + 1], q)
  {
    assert bs[..i + 1][..i] == bs[..i];
  }

  /** `GenerateSignature`: `r = (g^k mod p) mod q`, rejected when zero; then
      `s = (k^(q-2) mod q) * (hash + x*r) mod q`, rejected when zero. */
  function GenerateSignature(prm: Params, msg: seq<Byte>): (res: Result<GenResult, SigError>)
    requires Valid(prm)
    ensures res == Failure(ZeroR) <==> (Pow(prm.g, prm.k) % prm.p) % prm.q == 0
    ensures res.Success? ==>
              var sig := res.value;
              && 0 < sig.r < prm.q && 0 < sig.s < prm.q
              && sig.r == (Pow(prm.g, prm.k) % prm.p) % prm.q
              && sig.hash == ComputeHash(msg, prm.q)
              && sig.g == prm.g && sig.y == prm.y
              // `s` solves the signing equation `k*s == hash + x*r (mod q)`
              && (prm.k * sig.s) % prm.q == (sig.hash + prm.x * sig.r) % prm.q
    ensures res == Failure(ZeroS) <==>
              var r := (Pow(prm.g, prm.k) % prm.p) % prm.q;
              r != 0 && (ComputeHash(msg, prm.q) + prm.x * r) % prm.q == 0
  {
    var p, q, g, y, x, k := prm.p, prm.q, prm.g, prm.y, prm.x, prm.k;
    var hash := ComputeHash(msg, q);
    var r := ModExp(g, k, p) % q;
    if r == 0 then
      Failure(ZeroR)
    else
      var kInv := ModExp(k, q - 2, q);
      var s := (kInv * (hash + x * r)) % q;
      SigningEquation(q, k, hash + x * r);
      if s == 0 then
        Failure(ZeroS)
      else
        Success(GenResult(r, s, hash, g, y))
  }

  /** With `kInv = k^(q-2) mod q`, `s = kInv * m mod q` satisfies `k*s == m (mod q)`, and is
      zero exactly when `m` is a multiple of `q`. */
  lemma SigningEquation(q: int, k: int, m: int)
    requires Prime(q) && 0 < k < q
    ensures var s := ((Pow(k, q - 2) % q) * m) % q;
            (k * s) % q == m % q && (s == 0 <==> m % q == 0)
  {
    var kInv := Pow(k, q - 2) % q;
    Fermat.FermatInverse(q, k);
    var s := (kInv * m) % q;
    InverseCancels(q, k, kInv, m);
    if m % q == 0 {
      ZeroProduct(q, kInv, m);
    }
    if s == 0 {
      ZeroProduct(q, k, s);
    }
  }

  /** Multiplying by `kInv` and then by `k` gives back the residue, when `k*kInv == 1`. */
  lemma InverseCancels(q: int, k: int, kInv: int, m: int)
    requires q > 1 && (k * kInv) % q == 1
    ensures (k * ((kInv * m) % q)) % q == m % q
  {
    MulModRight(k, kInv * m, q);
    assert k * (kInv * m) == (k * kInv) * m;
    MulModLeft(k * kInv, m, q);
  }

  lemma ZeroProduct(q: int, kInv: int, m: int)
    requires q > 0 && m % q == 0
    ensures (kInv * m) % q == 0
  {
    MulModRight(kInv, m, q);
  }

  /** `VerifySignature`: a signature outside `(0, q)` is reported without hashing;
      otherwise `w = s^(q-2) mod q`, `u1 = hash*w mod q`, `u2 = r*w mod q`,
      `v = (g^u1 mod p * y^u2 mod p) mod p mod q`, and the signature holds when `v == r`. */
  function VerifySignature(prm: Params, msg: seq<Byte>, r: int, s: int): (res: VerResult)
    requires Valid(prm)
    ensures !(0 < r < prm.q && 0 < s < prm.q) ==> res == OutOfBounds
    ensures 0 < r < prm.q && 0 < s < prm.q ==>
              && res.inBounds
              && res.hash == ComputeHash(msg, prm.q)
              && res.w == Pow(s, prm.q - 2) % prm.q
              // `w` is the inverse of `s` modulo `q`
              && (s * res.w) % prm.q == 1
              && res.u1 == (res.hash * res.w) % prm.q
              && res.u2 == (r * res.w) % prm.q
              && res.v == ((Pow(prm.g, res.u1) % prm.p) * (Pow(prm.y, res.u2) % prm.p)) % prm.p % prm.q
              && 0 <= res.v < prm.q
              && (res.result <==> res.v == r)
  {
    var p, q, g, y := prm.p, prm.q, prm.g, prm.y;
    if r <= 0 || r >= q || s <= 0 || s >= q then
      OutOfBounds
    else
      var hash := ComputeHash(msg, q);
      var w := ModExp(s, q - 2, q);
      var u1 := (hash * w) % q;
      var u2 := (r * w) % q;
      var v := (ModExp(g, u1, p) * ModExp(y, u2, p)) % p % q;
      Fermat.FermatInverse(q, s);
      VerResult(hash, w, u1, u2, v, v == r, true)
  }
}
