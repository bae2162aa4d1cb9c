/** Numbers as digit sequences in any base, most significant digit first, and converting between
    bases in a buffer. */
module Digits {
  import opened Powers

  function Pow(b: nat, k: nat): (p: nat)
    ensures b > 0 ==> p > 0
  {
    if k == 0 then 1
    else
      MulNonNegative(b, Pow(b, k - 1));
      b * Pow(b, k - 1)
  }

  predicate IsDigits(base: nat, d: seq<nat>) {
    forall i :: 0 <= i < |d| ==> d[i] < base
  }

  /** The number that digits stand for. */
  function Num(base: nat, d: seq<nat>): nat {
    if d == [] then 0
    else
      MulNonNegative(d[0], Pow(base, |d| - 1));
      d[0] * Pow(base, |d| - 1) + Num(base, d[1..])
  }

  /** The digits of a number, without leading zeroes. */
  function ToDigits(base: nat, v: nat): (d: seq<nat>)
    requires base > 1
    ensures IsDigits(base, d)
    decreases v
  {
    if v == 0 then []
    else
      QuotientLess(v, base);
      ToDigits(base, v / base) + [v % base]
  }

  lemma QuotientLess(v: nat, base: nat)
    requires v > 0 && base > 1
    ensures 0 <= v / base < v
  {
    assert v == base * (v / base) + v % base;
    if v / base < 0 {
      MulMono(base, v / base, -1);
    } else if v / base >= v {
      MulMono(v / base, 2, base);
    }
  }

  // ---------- Powers ----------

  lemma {:induction false} PowAdd(b: nat, j: nat, k: nat)
    ensures Pow(b, j + k) == Pow(b, j) * Pow(b, k)
  {
    if j > 0 {
      PowAdd(b, j - 1, k);
      assert j - 1 + k == j + k - 1;
      MulAssociates(b, Pow(b, j - 1), Pow(b, k));
    }
  }

  lemma {:induction false} PowMul(b: nat, j: nat, k: nat)
    ensures j * k >= 0 && Pow(b, j * k) == Pow(Pow(b, j), k)
    decreases k
  {
    MulNonNegative(j, k);
    if k > 0 {
      PowMul(b, j, k - 1);
      MulNonNegative(j, k - 1);
      assert j * k == j + j * (k - 1);
      PowAdd(b, j, j * (k - 1));
    }
  }

  lemma {:induction false} PowBaseMono(a: nat, b: nat, k: nat)
    requires a <= b
    ensures Pow(a, k) <= Pow(b, k)
  {
    if k > 0 {
      PowBaseMono(a, b, k - 1);
      MulMono(Pow(a, k - 1), a, b);
      MulMono(b, Pow(a, k - 1), Pow(b, k - 1));
    }
  }

  lemma PowExpMono(b: nat, j: nat, k: nat)
    requires b > 0 && j <= k
    ensures Pow(b, j) <= Pow(b, k)
  {
    PowAdd(b, j, k - j);
    MulMono(Pow(b, j), 1, Pow(b, k - j));
  }

  lemma {:induction false} PowLess(a: nat, b: nat, k: nat)
    requires a < b && k > 0
    ensures Pow(a, k) < Pow(b, k)
  {
    PowBaseMono(a, b, k - 1);
    MulMono(a, Pow(a, k - 1), Pow(b, k - 1));
    MulMono(Pow(b, k - 1), a + 1, b);
    MulDistributes(a, 1, Pow(b, k - 1));
  }

  // ---------- Digits and numbers ----------

  lemma {:induction false} NumConcat(base: nat, a: seq<nat>, b: seq<nat>)
    ensures Num(base, a + b) == Num(base, a) * Pow(base, |b|) + Num(base, b)
  {
    if a == [] {
      assert a + b == b;
    } else {
      assert (a + b)[1..] == a[1..] + b;
      NumConcat(base, a[1..], b);
      PowAdd(base, |a| - 1, |b|);
      ConcatStep(a[0], Pow(base, |a| - 1), Pow(base, |b|), Num(base, a[1..]));
    }
  }

  lemma ConcatStep(x: int, p: int, q: int, n: int)
    ensures x * (p * q) + n * q == (x * p + n) * q
  {
    MulDistributes(x * p, n, q);
    MulAssociates(x, p, q);
  }

  lemma NumOne(base: nat, x: nat)
    ensures Num(base, [x]) == x
  {
    assert [x][1..] == [];
    assert Pow(base, 0) == 1;
  }

  lemma NumSnoc(base: nat, d: seq<nat>, x: nat)
    ensures Num(base, d + [x]) == Num(base, d) * base + x
  {
    NumConcat(base, d, [x]);
    NumOne(base, x);
    assert Pow(base, 1) == base * Pow(base, 0);
  }

  lemma {:induction false} NumBound(base: nat, d: seq<nat>)
    requires IsDigits(base, d)
    ensures Num(base, d) < Pow(base, |d|)
  {
    if d != [] {
      NumBound(base, d[1..]);
      var p := Pow(base, |d| - 1);
      MulMono(p, d[0] + 1, base);
      MulDistributes(d[0], 1, p);
    }
  }

  lemma {:induction false} NumZeroes(base: nat, d: seq<nat>)
    requires forall i :: 0 <= i < |d| ==> d[i] == 0
    ensures Num(base, d) == 0
  {
    if d != [] {
      NumZeroes(base, d[1..]);
    }
  }

  /** A leading digit other than zero keeps the number from being shorter. */
  lemma NumAtLeast(base: nat, d: seq<nat>)
    requires d != [] && d[0] != 0
    ensures Num(base, d) >= Pow(base, |d| - 1)
  {
    MulMono(Pow(base, |d| - 1), 1, d[0]);
  }

  lemma {:induction false} ToDigitsNum(base: nat, v: nat)
    requires base > 1
    ensures Num(base, ToDigits(base, v)) == v && (v > 0 ==> ToDigits(base, v) != [] && ToDigits(base, v)[0] != 0)
    decreases v
  {
    if v > 0 {
      QuotientLess(v, base);
      QuotientNonNegative(v, base);
      var q: nat, x: nat := v / base, v % base;
      ToDigitsNum(base, q);
      var front := ToDigits(base, q);
      SnocOf(base, front, x, q, v);
      LeadingDigit(front, x, q, v, base);
    }
  }

  lemma SnocOf(base: nat, front: seq<nat>, x: nat, q: nat, v: nat)
    requires Num(base, front) == q && v == x + base * q
    ensures Num(base, front + [x]) == v
  {
    NumSnoc(base, front, x);
  }

  lemma LeadingDigit(front: seq<nat>, x: nat, q: nat, v: nat, base: nat)
    requires v > 0 && v == x + base * q && (q == 0 ==> front == []) && (q > 0 ==> front != [] && front[0] != 0)
    ensures (front + [x])[0] != 0
  {
  }

  /** Digits without leading zeroes are those of their number. */
  lemma {:induction false} NumToDigits(base: nat, d: seq<nat>)
    requires base > 1 && IsDigits(base, d) && (d != [] ==> d[0] != 0)
    ensures ToDigits(base, Num(base, d)) == d
    decreases |d|
  {
    if d != [] {
      var front, x := d[..|d| - 1], d[|d| - 1];
      assert d == front + [x];
      NumSnoc(base, front, x);
      DivModUnique(Num(base, d), Num(base, front), x, base);
      NumToDigits(base, front);
      NumAtLeast(base, d);
    }
  }

  // ---------- One step of a conversion in place ----------

  /** The last `i` digits of the buffer are those of `factor * old + c0`, up to `carry`. */
  ghost predicate Carrying(base: nat, factor: nat, now: seq<nat>, was: seq<nat>, i: nat, carry: nat, c0: nat) {
    && |now| == |was| && i <= |was| && IsDigits(base, now)
    && Num(base, now[|now| - i..]) + carry * Pow(base, i) == factor * Num(base, was[|was| - i..]) + c0
    && now[..|now| - i] == was[..|was| - i]
  }

  lemma CarryStep(low: int, carry: int, p: int, factor: int, lowWas: int, c0: int, x: int, d: int, carry': int,
                  base: int)
    requires low + carry * p == factor * lowWas + c0 && carry + factor * x == d + base * carry'
    ensures (d * p + low) + carry' * (base * p) == factor * (x * p + lowWas) + c0
  {
    MulDistributes(d, base * carry', p);
    MulDistributes(carry, factor * x, p);
    assert carry' * (base * p) == (base * carry') * p;
    MulDistributes(x * p, lowWas, factor);
    MulAssociates(factor, x, p);
  }

  lemma TailStep(s: seq<nat>, i: nat)
    requires i < |s|
    ensures s[|s| - (i + 1)..] == [s[|s| - 1 - i]] + s[|s| - i..]
    ensures s[..|s| - i] == s[..|s| - (i + 1)] + [s[|s| - 1 - i]]
  {
  }

  lemma CarryNext(base: nat, factor: nat, now: seq<nat>, was: seq<nat>, i: nat, carry: nat, c0: nat)
    requires base > 0 && Carrying(base, factor, now, was, i, carry, c0) && i < |now|
    ensures var at := |now| - 1 - i;
            var n := carry + factor * now[at];
            n >= 0 && n / base >= 0 && Carrying(base, factor, now[at := n % base], was, i + 1, n / base, c0)
  {
    var at := |now| - 1 - i;
    MulNonNegative(factor, now[at]);
    var n := carry + factor * now[at];
    QuotientNonNegative(n, base);
    var next := now[at := n % base];
    TailStep(was, i);
    TailStep(now, i);
    assert now[at] == was[at];
    assert next[|next| - (i + 1)..] == [n % base] + now[|now| - i..];
    assert ([n % base] + now[|now| - i..])[1..] == now[|now| - i..];
    assert ([was[at]] + was[|was| - i..])[1..] == was[|was| - i..];
    assert next[..|next| - (i + 1)] == now[..|now| - (i + 1)] == was[..|was| - (i + 1)];
    CarryStep(Num(base, now[|now| - i..]), carry, Pow(base, i), factor, Num(base, was[|was| - i..]), c0, was[at],
        n % base,
              n / base, base);
  }

  lemma QuotientNonNegative(n: nat, base: nat)
    requires base > 0
    ensures n / base >= 0 && n == n % base + base * (n / base) && 0 <= n % base < base
  {
    if n / base < 0 {
      MulMono(base, n / base, -1);
    }
  }
}
