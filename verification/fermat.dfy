/** Euclid's lemma and Fermat's little theorem: the number theory that makes the provider's
    Fermat inverses `a^(q-2) mod q` real inverses, and its generator `g` an element of order
    dividing `q` modulo `p`. */
module Fermat {
  import opened ModArith
  import opened Primality

  /** Euclid's lemma for a first factor in `(0, p)`, by descent on that factor: if `p`
      divides `a*b`, it also divides `(p mod a)*b`, and `p mod a` is smaller and non-zero. */
  lemma {:induction false} EuclidBelow(p: int, a: int, b: int)
    requires Prime(p) && 0 < a < p && (a * b) % p == 0
    ensures b % p == 0
    decreases a
  {
    if a > 1 {
      var t, r := p / a, p % a;
      var c := (a * b) / p;
      assert a * b == c * p;
      assert p == a * t + r;
      assert r * b == (b - t * c) * p by {
        assert r * b == p * b - t * (a * b);
      }
      ModOfMultiple(b - t * c, p);
      EuclidBelow(p, r, b);
    }
  }

  /** Euclid's lemma: a prime that divides a product and not its first factor divides the
      second. */
  lemma Euclid(p: int, a: int, b: int)
    requires Prime(p) && a % p != 0 && (a * b) % p == 0
    ensures b % p == 0
  {
    MulModLeft(a, b, p);
    EuclidBelow(p, a % p, b);
  }

  /** The product of a sequence of integers. */
  function Prod(s: seq<int>): int
    decreases |s|
  {
    if |s| == 0 then 1 else s[0] * Prod(s[1..])
  }

  lemma {:induction false} ProdAppend(s: seq<int>, t: seq<int>)
    ensures Prod(s + t) == Prod(s) * Prod(t)
    decreases |s|
  {
    if |s| > 0 {
      assert (s + t)[1..] == s[1..] + t;
      ProdAppend(s[1..], t);
    } else {
      assert s + t == t;
    }
  }

  function RemoveAt(t: seq<int>, j: int): seq<int>
    requires 0 <= j < |t|
  {
    t[..j] + t[j + 1..]
  }

  lemma ProdRemoveAt(t: seq<int>, j: int)
    requires 0 <= j < |t|
    ensures Prod(t) == t[j] * Prod(RemoveAt(t, j))
  {
    var a, x, b := t[..j], t[j], t[j + 1..];
    SplitAt(t, j);
    ProdAppend(a, [x] + b);
    ProdCons(x, b);
    ProdAppend(a, b);
    MulRearrange(Prod(a), x, Prod(b));
  }

  lemma SplitAt(t: seq<int>, j: int)
    requires 0 <= j < |t|
    ensures t == t[..j] + ([t[j]] + t[j + 1..])
  {
  }

  lemma ProdCons(x: int, b: seq<int>)
    ensures Prod([x] + b) == x * Prod(b)
  {
    assert ([x] + b)[1..] == b;
  }

  lemma MulRearrange(a: int, x: int, b: int)
    ensures a * (x * b) == x * (a * b)
  {
  }

  lemma MultisetRemoveAt(t: seq<int>, j: int)
    requires 0 <= j < |t|
    ensures multiset(t) == multiset(RemoveAt(t, j)) + multiset{t[j]}
  {
    assert t == t[..j] + [t[j]] + t[j + 1..];
  }

  lemma MultisetCancel(a: multiset<int>, b: multiset<int>, x: int)
    requires a + multiset{x} == b + multiset{x}
    ensures a == b
  {
    forall y
      ensures a[y] == b[y]
    {
      assert (a + multiset{x})[y] == (b + multiset{x})[y];
    }
  }

  /** Rearranging the factors does not change a product. */
  lemma {:induction false} ProdPermutation(s: seq<int>, t: seq<int>)
    requires multiset(s) == multiset(t)
    ensures Prod(s) == Prod(t)
    decreases |s|
  {
    if |s| > 0 {
      assert s[0] in multiset(t);
      var j :| 0 <= j < |t| && t[j] == s[0];
      MultisetRemoveAt(t, j);
      assert s == [s[0]] + s[1..];
      assert multiset(s) == multiset{s[0]} + multiset(s[1..]);
      MultisetCancel(multiset(s[1..]), multiset(RemoveAt(t, j)), s[0]);
      ProdPermutation(s[1..], RemoveAt(t, j));
      ProdRemoveAt(t, j);
    } else {
      assert |t| == |multiset(t)| == 0;
    }
  }

  predicate Distinct(s: seq<int>) {
    forall i, j :: 0 <= i < j < |s| ==> s[i] != s[j]
  }

  predicate AllWithin(s: seq<int>, lo: int, hi: int) {
    forall i :: 0 <= i < |s| ==> lo <= s[i] <= hi
  }

  lemma RemoveAtKeeps(s: seq<int>, j: int, lo: int, hi: int)
    requires 0 <= j < |s| && Distinct(s) && AllWithin(s, lo, hi)
    ensures Distinct(RemoveAt(s, j)) && AllWithin(RemoveAt(s, j), lo, hi)
    ensures forall i :: 0 <= i < |RemoveAt(s, j)| ==> RemoveAt(s, j)[i] != s[j]
  {
    var u := RemoveAt(s, j);
    assert forall i :: 0 <= i < |u| ==> u[i] == (if i < j then s[i] else s[i + 1]);
  }

  lemma FirstWithin(s: seq<int>, lo: int, hi: int)
    requires |s| > 0 && AllWithin(s, lo, hi)
    ensures lo <= s[0] <= hi
  {
  }

  /** Pigeonhole: distinct values drawn from `[1, m]` number at most `m`. */
  lemma {:induction false} DistinctBound(s: seq<int>, m: int)
    requires m >= 0 && Distinct(s) && AllWithin(s, 1, m)
    ensures |s| <= m
    decreases m
  {
    if m == 0 {
      if |s| > 0 {
        FirstWithin(s, 1, 0);
      }
    } else if m in s {
      var j :| 0 <= j < |s| && s[j] == m;
      RemoveAtKeeps(s, j, 1, m);
      DistinctBound(RemoveAt(s, j), m - 1);
    } else {
      DistinctBound(s, m - 1);
    }
  }

  /** `[1, 2, ..., n]`. */
  function Range(n: nat): seq<int> {
    seq(n, i => i + 1)
  }

  /** `n` distinct values from `[1, n]` include `n` itself. */
  lemma RangeContainsTop(s: seq<int>, n: nat)
    requires n > 0 && |s| == n && Distinct(s) && AllWithin(s, 1, n)
    ensures n in s
  {
    if n !in s {
      assert AllWithin(s, 1, n - 1);
      DistinctBound(s, n - 1);
    }
  }

  /** `n` distinct values drawn from `[1, n]` are a rearrangement of `[1, ..., n]`. */
  lemma {:induction false} DistinctFillsRange(s: seq<int>, n: nat)
    requires |s| == n && Distinct(s) && AllWithin(s, 1, n)
    ensures multiset(s) == multiset(Range(n))
    decreases n
  {
    if n > 0 {
      RangeContainsTop(s, n);
      var j :| 0 <= j < |s| && s[j] == n;
      RemoveAtKeeps(s, j, 1, n);
      var u := RemoveAt(s, j);
      BelowTop(u, n);
      DistinctFillsRange(u, n - 1);
      MultisetRemoveAt(s, j);
      AddTop(multiset(s), multiset(u), n);
    }
  }

  /** Values within `[lo, n]` that all differ from `n` are within `[lo, n - 1]`. */
  lemma BelowTop(u: seq<int>, n: int)
    requires AllWithin(u, 1, n) && forall i :: 0 <= i < |u| ==> u[i] != n
    ensures AllWithin(u, 1, n - 1)
  {
  }

  /** Adding `n` to a rearrangement of `[1, ..., n - 1]` gives one of `[1, ..., n]`. */
  lemma AddTop(ms: multiset<int>, mu: multiset<int>, n: nat)
    requires n > 0 && ms == mu + multiset{n} && mu == multiset(Range(n - 1))
    ensures ms == multiset(Range(n))
  {
    RangeSnoc(n);
  }

  lemma RangeSnoc(n: nat)
    requires n > 0
    ensures multiset(Range(n)) == multiset(Range(n - 1)) + multiset{n}
  {
    assert Range(n) == Range(n - 1) + [n];
  }

  /** `[a*1 mod p, a*2 mod p, ..., a*n mod p]`. */
  function Multiples(a: int, n: nat, p: int): seq<int>
    requires p > 0
  {
    seq(n, i => (a * (i + 1)) % p)
  }

  /** A unit modulo a prime times a non-multiple is a non-multiple. */
  lemma NonzeroResidue(p: int, a: int, u: int)
    requires Prime(p) && 0 < a < p && 0 < u < p
    ensures (a * u) % p != 0
  {
    if (a * u) % p == 0 {
      Euclid(p, a, u);
    }
  }

  /** Multiplication by a unit modulo a prime is injective on `[1, p)`. */
  lemma DistinctResidues(p: int, a: int, u: int, v: int)
    requires Prime(p) && 0 < a < p && 1 <= u < v < p
    ensures (a * u) % p != (a * v) % p
  {
    if (a * u) % p == (a * v) % p {
      EqualResiduesGiveMultiple(p, a, u, v);
      SmallResidue(v - u, p);
      EuclidBelow(p, a, v - u);
    }
  }

  lemma EqualResiduesGiveMultiple(p: int, a: int, u: int, v: int)
    requires p > 0 && (a * u) % p == (a * v) % p
    ensures (a * (v - u)) % p == 0
  {
    SameResidueDifference(a * v, a * u, p);
    assert a * v - a * u == a * (v - u);
  }

  /** Multiplying `1, ..., p-1` by a unit modulo `p` only rearranges them. */
  lemma MultiplesArePermutation(p: int, a: int)
    requires Prime(p) && 0 < a < p
    ensures multiset(Multiples(a, p - 1, p)) == multiset(Range(p - 1))
  {
    var s := Multiples(a, p - 1, p);
    forall i, j | 0 <= i < j < |s|
      ensures s[i] != s[j]
    {
      DistinctResidues(p, a, i + 1, j + 1);
    }
    forall i | 0 <= i < |s|
      ensures 1 <= s[i] <= p - 1
    {
      NonzeroResidue(p, a, i + 1);
    }
    DistinctFillsRange(s, p - 1);
  }

  /** The product of the multiples is `a^n * n!` modulo `p`. */
  lemma {:induction false} ProdMultiples(a: int, n: nat, p: int)
    requires p > 0
    ensures Prod(Multiples(a, n, p)) % p == (Pow(a, n) * Prod(Range(n))) % p
    decreases n
  {
    if n == 0 {
      assert Multiples(a, 0, p) == [] && Range(0) == [];
    } else {
      ProdMultiples(a, n - 1, p);
      var last := (a * n) % p;
      assert Multiples(a, n, p) == Multiples(a, n - 1, p) + [last];
      assert Range(n) == Range(n - 1) + [n];
      ProdAppend(Multiples(a, n - 1, p), [last]);
      ProdAppend(Range(n - 1), [n]);
      assert Prod([last]) == last && Prod([n]) == n;
      MultipleStep(Prod(Multiples(a, n - 1, p)), Pow(a, n - 1), Prod(Range(n - 1)), a, n, p);
    }
  }

  lemma MultipleStep(pm: int, pw: int, pr: int, a: int, n: int, p: int)
    requires p > 0 && pm % p == (pw * pr) % p
    ensures (pm * ((a * n) % p)) % p == ((a * pw) * (pr * n)) % p
  {
    calc {
      (pm * ((a * n) % p)) % p;
      { MulModRight(pm, a * n, p); }
      (pm * (a * n)) % p;
      { MulModLeft(pm, a * n, p); }
      ((pm % p) * (a * n)) % p;
      (((pw * pr) % p) * (a * n)) % p;
      { MulModLeft(pw * pr, a * n, p); }
      ((pw * pr) * (a * n)) % p;
      { assert (pw * pr) * (a * n) == (a * pw) * (pr * n); }
      ((a * pw) * (pr * n)) % p;
    }
  }

  /** `n!` is not a multiple of a prime above `n`. */
  lemma {:induction false} RangeProdNotDivisible(p: int, n: nat)
    requires Prime(p) && n < p
    ensures Prod(Range(n)) % p != 0
    decreases n
  {
    if n == 0 {
      assert Range(0) == [];
    } else {
      RangeProdNotDivisible(p, n - 1);
      RangeProdStep(n);
      var r := Prod(Range(n - 1));
      if (n * r) % p == 0 {
        EuclidBelow(p, n, r);
      }
    }
  }

  lemma RangeProdStep(n: nat)
    requires n > 0
    ensures Prod(Range(n)) == n * Prod(Range(n - 1))
  {
    assert Range(n) == Range(n - 1) + [n];
    ProdAppend(Range(n - 1), [n]);
    assert Prod([n]) == n;
  }

  /** Fermat's little theorem: for a prime `p` and `a` not a multiple of `p`,
      `a^(p-1) mod p == 1`. */
  lemma FermatLittle(p: int, a: int)
    requires Prime(p) && a % p != 0
    ensures Pow(a, p - 1) % p == 1
  {
    var b := a % p;
    var f := Prod(Range(p - 1));
    var e := Pow(b, p - 1);
    MultiplesArePermutation(p, b);
    ProdPermutation(Multiples(b, p - 1, p), Range(p - 1));
    ProdMultiples(b, p - 1, p);
    RangeProdNotDivisible(p, p - 1);
    CancelUnit(p, f, e);
    PowMod(a, p - 1, p);
  }

  /** Cancelling a factor that is not a multiple of the prime: `e*f == f (mod p)` forces
      `e == 1 (mod p)`. */
  lemma CancelUnit(p: int, f: int, e: int)
    requires Prime(p) && f % p != 0 && f % p == (e * f) % p
    ensures e % p == 1
  {
    CancelStep(p, f, e);
    Euclid(p, f, e - 1);
    PredecessorMultiple(p, e);
  }

  lemma CancelStep(p: int, f: int, e: int)
    requires p > 0 && f % p == (e * f) % p
    ensures (f * (e - 1)) % p == 0
  {
    SameResidueDifference(e * f, f, p);
    assert e * f - f == f * (e - 1);
  }

  lemma PredecessorMultiple(p: int, e: int)
    requires p > 1 && (e - 1) % p == 0
    ensures e % p == 1
  {
    assert e - 1 == ((e - 1) / p) * p;
    ModAddMultiple(1, (e - 1) / p, p);
  }

  /** Fermat inverse: for a prime `q` and `0 < k < q`, `k^(q-2) mod q` is the inverse of
      `k` modulo `q`. */
  lemma FermatInverse(q: int, k: int)
    requires Prime(q) && 0 < k < q
    ensures (k * (Pow(k, q - 2) % q)) % q == 1
  {
    MulModRight(k, Pow(k, q - 2), q);
    PowSucc(k, q - 2);
    SmallResidue(k, q);
    FermatLittle(q, k);
  }

  lemma PowSucc(k: int, n: nat)
    ensures k * Pow(k, n) == Pow(k, n + 1)
  {
  }
}
