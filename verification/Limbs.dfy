/** Big integers as sequences of 32-bit limbs, least significant first. */
module Limbs {
  import opened Powers

  const BASE: nat := 0x1_0000_0000

  predicate IsLimbs(s: seq<nat>) {
    forall i :: 0 <= i < |s| ==> s[i] < BASE
  }

  /** The weight of limb `i`. */
  function Weight(i: nat): nat {
    Pow2(32 * i)
  }

  /** The value of the lowest `n` limbs. */
  function Low(s: seq<nat>, n: nat): nat
    requires n <= |s|
  {
    if n == 0 then 0 else Low(s, n - 1) + s[n - 1] * Weight(n - 1)
  }

  function Value(s: seq<nat>): nat {
    Low(s, |s|)
  }

  lemma WeightNext(i: nat)
    ensures Weight(i + 1) == BASE * Weight(i) && Weight(i) > 0 && Weight(0) == 1
  {
    Pow2Words();
    assert 32 * (i + 1) == 32 + 32 * i;
    Pow2Add(32, 32 * i);
  }

  lemma WeightAdd(i: nat, j: nat)
    ensures Weight(i + j) == Weight(i) * Weight(j)
  {
    assert 32 * (i + j) == 32 * i + 32 * j;
    Pow2Add(32 * i, 32 * j);
  }

  lemma {:induction false} LowBound(s: seq<nat>, n: nat)
    requires n <= |s| && IsLimbs(s)
    ensures Low(s, n) < Weight(n)
  {
    WeightNext(0);
    if n > 0 {
      LowBound(s, n - 1);
      WeightNext(n - 1);
      MulMono(Weight(n - 1), s[n - 1], BASE - 1);
      MulDistributes(BASE, -1, Weight(n - 1));
    }
  }

  lemma {:induction false} LowSame(a: seq<nat>, b: seq<nat>, n: nat)
    requires n <= |a| && n <= |b| && forall i :: 0 <= i < n ==> a[i] == b[i]
    ensures Low(a, n) == Low(b, n)
  {
    if n > 0 {
      LowSame(a, b, n - 1);
    }
  }

  /** Changing one limb changes the value at its weight. */
  lemma {:induction false} LowUpdate(s: seq<nat>, i: nat, d: nat, n: nat)
    requires i < n <= |s|
    ensures Low(s[i := d], n) == Low(s, n) + (d - s[i]) * Weight(i)
  {
    var u := s[i := d];
    if i == n - 1 {
      LowSame(u, s, n - 1);
      var x: int := s[i];
      MulDistributes(d, -x, Weight(i));
    } else {
      LowUpdate(s, i, d, n - 1);
    }
  }

  lemma {:induction false} LowZero(s: seq<nat>, n: nat)
    requires n <= |s| && forall i :: 0 <= i < n ==> s[i] == 0
    ensures Low(s, n) == 0
  {
    if n > 0 {
      LowZero(s, n - 1);
    }
  }

  /** The value in two parts: the lowest `n` limbs, and what is above. */
  lemma {:induction false} SplitAt(s: seq<nat>, n: nat, m: nat) returns (high: nat)
    requires n <= m <= |s|
    ensures Low(s, m) == Low(s, n) + high * Weight(n)
  {
    if m == n {
      high := 0;
    } else {
      var h := SplitAt(s, n, m - 1);
      var d := Weight(m - 1 - n);
      WeightAdd(n, m - 1 - n);
      SplitStep(Low(s, n), h, s[m - 1], d, Weight(n), Weight(m - 1));
      high := h + s[m - 1] * d;
    }
  }

  lemma SplitStep(low: nat, h: nat, x: nat, d: nat, w: nat, w': nat)
    requires w' == w * d
    ensures low + h * w + x * w' == low + (h + x * d) * w
  {
    MulDistributes(h, x * d, w);
    MulAssociates(x, d, w);
    assert w * d == d * w;
  }

  // ---------- Shifting a limb ----------

  /** `x << s` in 32 bits */
  function Shl(x: nat, s: nat): (r: nat)
    ensures r < BASE
  {
    (x * Pow2(s)) % BASE
  }

  /** `x >> s` */
  function Shr(x: nat, s: nat): (r: nat)
    ensures r <= x
  {
    QuotientRange(x, Pow2(s));
    x / Pow2(s)
  }

  lemma QuotientRange(x: nat, p: nat)
    requires p > 0
    ensures 0 <= x / p <= x
  {
    assert x == p * (x / p) + x % p;
    if x / p < 0 {
      MulMono(p, x / p, -1);
    } else {
      MulMono(x / p, 1, p);
    }
  }

  // ---------- Bitwise or ----------

  /** Bitwise or of two numbers. */
  function Or(a: nat, b: nat): nat
    decreases a + b
  {
    if a == 0 && b == 0 then 0
    else 2 * Or(a / 2, b / 2) + if a % 2 == 1 || b % 2 == 1 then 1 else 0
  }

  /** Without common bits, it is the sum. */
  lemma {:induction false} OrDisjoint(a: nat, b: nat, k: nat)
    requires a % Pow2(k) == 0 && b < Pow2(k)
    ensures Or(a, b) == a + b == Or(b, a)
    decreases k, a
  {
    if k == 0 {
      OrZero(a);
    } else {
      HalfMultiple(a, Pow2(k - 1));
      OrDisjoint(a / 2, b / 2, k - 1);
    }
  }

  lemma {:induction false} OrZero(a: nat)
    ensures Or(a, 0) == a == Or(0, a)
  {
    if a > 0 {
      OrZero(a / 2);
    }
  }

  lemma HalfMultiple(a: nat, p: nat)
    requires p > 0 && a % (2 * p) == 0
    ensures a % 2 == 0 && (a / 2) % p == 0
  {
    var q := a / (2 * p);
    assert a == (2 * p) * q;
    MulAssociates(2, p, q);
    assert a / 2 == p * q;
    DivModUnique(a / 2, q, 0, p);
  }
}
