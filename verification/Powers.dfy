/** Powers of two and the few facts of nonlinear arithmetic the proofs use. */
module Powers {

  // 2^31, 2^32, 2^63 and 2^64.
  const B31: int := 0x8000_0000
  const B32: int := 0x1_0000_0000
  const B63: int := 0x8000_0000_0000_0000
  const B64: int := 0x1_0000_0000_0000_0000

  function Pow2(n: nat): (p: nat)
    ensures p >= 1
  {
    if n == 0 then 1 else 2 * Pow2(n - 1)
  }

  lemma OneBit()
    ensures Pow2(0) == 1 && Pow2(1) == 2
  {
  }

  lemma {:induction false} Pow2Add(a: nat, b: nat)
    ensures Pow2(a + b) == Pow2(a) * Pow2(b)
    decreases a
  {
    if a > 0 {
      Pow2Add(a - 1, b);
      assert 2 * (Pow2(a - 1) * Pow2(b)) == (2 * Pow2(a - 1)) * Pow2(b);
    }
  }

  lemma {:induction false} Pow2Monotone(a: nat, b: nat)
    requires a <= b
    ensures Pow2(a) <= Pow2(b)
    decreases b
  {
    if a < b {
      Pow2Monotone(a, b - 1);
    }
  }

  lemma MulLess(a: nat, b: nat, c: nat)
    requires a <= b
    ensures a * c <= b * c
    ensures a < b && c > 0 ==> a * c < b * c
  {
  }

  lemma Regroup(a: nat, b: nat, c: nat)
    ensures (a * b) * c == a * (b * c)
  {
  }

  lemma Doubled(a: nat, b: nat)
    ensures a * (2 * b) == 2 * (a * b)
  {
  }

  /** a mod p does not see multiples of p. */
  lemma {:induction false} ModDrop(a: nat, k: nat, p: nat)
    requires p > 0
    ensures (a + k * p) % p == a % p
    decreases k
  {
    if k > 0 {
      ModDrop(a, k - 1, p);
      assert a + k * p == (a + (k - 1) * p) + p;
      ModStep(a + (k - 1) * p, p);
    }
  }

  lemma ModStep(a: nat, p: nat)
    requires p > 0
    ensures (a + p) % p == a % p
  {
    var q, r := a / p, a % p;
    assert a + p == (q + 1) * p + r;
    ModUnique(a + p, q + 1, r, p);
  }

  lemma ModUnique(a: nat, q: nat, r: nat, p: nat)
    requires p > 0 && r < p && a == q * p + r
    ensures a % p == r && a / p == q
  {
    var q', r' := a / p, a % p;
    assert (q' + 1) * p == q' * p + p && (q + 1) * p == q * p + p;
    if q' < q {
      MulLess(q' + 1, q, p);
    } else if q < q' {
      MulLess(q + 1, q', p);
    }
  }

  /** c * p, split at the multiple p * q. */
  lemma SplitProduct(c: nat, q: nat, p: nat) returns (t: nat, d: nat)
    requires q > 0 && p > 0
    ensures d < q && c == t * q + d
    ensures c * p == t * (p * q) + d * p && d * p + p <= p * q
  {
    t, d := c / q, c % q;
    Distribute(t, q, d, p);
    MulLess(d + 1, q, p);
    assert (d + 1) * p == d * p + p;
  }

  lemma Distribute(t: nat, q: nat, d: nat, p: nat)
    ensures (t * q + d) * p == t * (p * q) + d * p
  {
    Regroup(t, q, p);
  }
}
