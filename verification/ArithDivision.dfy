/** Division of big integers by shifting and subtracting. */
module ArithDivision {
  import opened Powers
  import opened Limbs
  import opened ArithUint
  import opened ArithShift

  // ---------- Setting one bit ----------

  /** The lowest `n` bits are zero. */
  ghost predicate LowBitsZero(q: seq<nat>, n: nat) {
    && (forall j :: 0 <= j < n / 32 && j < |q| ==> q[j] == 0)
    && (n / 32 < |q| ==> q[n / 32] % Pow2(n % 32) == 0)
  }

  /** `q |= 1 << n`, in the limb that holds bit `n` */
  function WithBit(q: seq<nat>, n: nat): (r: seq<nat>)
    requires n / 32 < |q|
    ensures |r| == |q|
  {
    q[n / 32 := Or(q[n / 32], Shl(1, n % 32))]
  }

  lemma LimbMultiple(q: seq<nat>, n: nat)
    requires LowBitsZero(q, n + 1) && n / 32 < |q|
    ensures q[n / 32] % Pow2(n % 32 + 1) == 0 && q[n / 32] % Pow2(n % 32) == 0
  {
    var k, s := n / 32, n % 32;
    if s == 31 {
      assert (n + 1) / 32 == k + 1;
      ZeroMod(Pow2(s + 1));
      ZeroMod(Pow2(s));
    } else {
      assert (n + 1) / 32 == k && (n + 1) % 32 == s + 1;
      EvenMultiple(q[k], Pow2(s));
    }
  }

  lemma ZeroMod(m: nat)
    requires m > 0
    ensures 0 % m == 0
  {
    DivModUnique(0, 0, 0, m);
  }

  lemma EvenMultiple(x: nat, p: nat)
    requires p > 0 && x % (2 * p) == 0
    ensures x % p == 0
  {
    var h := x / (2 * p);
    assert x == (2 * p) * h;
    assert x == (2 * h) * p;
    DivModUnique(x, 2 * h, 0, p);
  }

  /** A multiple of `2 * p` below `m`, itself a multiple of `2 * p`, has room for `p`. */
  lemma RoomFor(x: nat, p: nat, m: nat)
    requires p > 0 && x < m && x % (2 * p) == 0 && m % (2 * p) == 0
    ensures x + p < m
  {
    var a, b := x / (2 * p), m / (2 * p);
    assert x == (2 * p) * a && m == (2 * p) * b;
    if a >= b {
      MulMono(2 * p, b, a);
    } else {
      MulMono(2 * p, a + 1, b);
      MulDistributes(a, 1, 2 * p);
    }
  }

  lemma ProductMod(m: nat, p: nat, q: nat)
    requires p > 0 && m == p * q
    ensures m % p == 0
  {
    DivModUnique(m, q, 0, p);
  }

  /** The word is a multiple of every smaller power. */
  lemma WordMultiple(s: nat)
    requires s <= 32
    ensures BASE % Pow2(s) == 0
  {
    assert BASE == Pow2(s) * Pow2(32 - s) by {
      Pow2Words();
      Pow2Add(s, 32 - s);
    }
    ProductMod(BASE, Pow2(s), Pow2(32 - s));
  }

  lemma OneShifted(s: nat)
    requires s < 32
    ensures Shl(1, s) == Pow2(s)
  {
    Pow2Below(s);
    DivModUnique(Pow2(s), 0, Pow2(s), BASE);
  }

  lemma SetLimbBit(x: nat, s: nat)
    requires x < BASE && s < 32 && x % Pow2(s + 1) == 0
    ensures Or(x, Shl(1, s)) == x + Pow2(s) < BASE && (x + Pow2(s)) % Pow2(s) == 0
  {
    OneShifted(s);
    OrDisjoint(x, Pow2(s), s + 1);
    WordMultiple(s + 1);
    RoomFor(x, Pow2(s), BASE);
    EvenMultiple(x, Pow2(s));
    MultiplePlus(x, Pow2(s));
  }

  lemma BitWeight(n: nat)
    ensures Pow2(n % 32) * Weight(n / 32) == Pow2(n)
  {
    Pow2Add(n % 32, 32 * (n / 32));
    assert n % 32 + 32 * (n / 32) == n;
  }

  lemma AddToLimb(q: seq<nat>, k: nat, d: nat)
    requires IsLimbs(q) && k < |q| && q[k] + d < BASE
    ensures IsLimbs(q[k := q[k] + d]) && Value(q[k := q[k] + d]) == Value(q) + d * Weight(k)
  {
    LowUpdate(q, k, q[k] + d, |q|);
    assert q[k] + d - q[k] == d;
  }

  /** Setting a bit below which, and including which, all bits are zero. */
  lemma SetBit(q: seq<nat>, n: nat)
    requires IsLimbs(q) && n / 32 < |q| && LowBitsZero(q, n + 1)
    ensures IsLimbs(WithBit(q, n)) && Value(WithBit(q, n)) == Value(q) + Pow2(n)
    ensures LowBitsZero(WithBit(q, n), n) && LowBitsZero(q, n)
  {
    var k, s := n / 32, n % 32;
    LimbMultiple(q, n);
    SetLimbBit(q[k], s);
    AddToLimb(q, k, Pow2(s));
    BitWeight(n);
    var r := WithBit(q, n);
    assert r[k] % Pow2(s) == 0;
    assert k <= (n + 1) / 32;
  }

  lemma MultiplePlus(x: nat, p: nat)
    requires p > 0 && x % p == 0
    ensures (x + p) % p == 0
  {
    assert x == p * (x / p);
    MulDistributes(x / p, 1, p);
    DivModUnique(x + p, x / p + 1, 0, p);
  }

  // ---------- The division loop ----------

  /** Quotient so far, what is left, and the divisor shifted by `shift`. */
  ghost predicate Dividing(n: nat, b: nat, q: nat, num: nat, div: nat, shift: int) {
    && shift >= -1 && q * b + num == n && num < b * Pow2(shift + 1)
    && (shift >= 0 ==> div == b * Pow2(shift))
  }

  lemma DividingStart(n: nat, b: nat, nb: nat, db: nat)
    requires BitLength(n, nb) && BitLength(b, db) && 0 < db <= nb
    ensures b * Pow2(nb - db) < Pow2(nb) && Dividing(n, b, 0, n, b * Pow2(nb - db), nb - db)
  {
    var shift := nb - db;
    Pow2Add(db, shift);
    MulMono(Pow2(shift), b + 1, Pow2(db));
    MulDistributes(b, 1, Pow2(shift));
    MulNonNegative(b, Pow2(shift));
    Pow2Add(db - 1, shift + 1);
    assert db - 1 + (shift + 1) == nb;
    MulMono(Pow2(shift + 1), Pow2(db - 1), b);
  }

  /** Subtract where possible; the bit of the quotient tells. */
  lemma DividingSubtract(n: nat, b: nat, q: nat, num: nat, div: nat, shift: nat)
    requires Dividing(n, b, q, num, div, shift)
    ensures num >= div ==> (q + Pow2(shift)) * b + (num - div) == n && num - div < b * Pow2(shift)
    ensures num < div ==> num < b * Pow2(shift)
  {
    MulDistributes(q, Pow2(shift), b);
    DoubleProduct(b, Pow2(shift));
  }

  lemma DividingShift(n: nat, b: nat, q: nat, num: nat, div: nat, shift: nat)
    requires div == b * Pow2(shift) && q * b + num == n && num < b * Pow2(shift)
    ensures Dividing(n, b, q, num, div / Pow2(1), shift - 1)
  {
    if shift > 0 {
      DoubleProduct(b, Pow2(shift - 1));
      assert Pow2(1) == 2;
    }
  }

  lemma DividingDone(n: nat, b: nat, q: nat, num: nat, div: nat)
    requires Dividing(n, b, q, num, div, -1)
    ensures b > 0 && q == n / b && num == n % b
  {
    assert Pow2(0) == 1;
    DivModUnique(n, q, num, b);
  }

  lemma QuotientZero(n: nat, b: nat, nb: nat, db: nat)
    requires BitLength(n, nb) && BitLength(b, db) && db > nb
    ensures b > 0 && n / b == 0
  {
    Pow2Mono(nb, db - 1);
    DivModUnique(n, 0, n, b);
  }

  /** One turn of the loop: subtract the divisor if it fits, and shift it back. */
  method DivideStep(pn: array<nat>, num: array<nat>, div: array<nat>, shift: nat, ghost n: nat, ghost b: nat)
    requires pn != num && pn != div && num != div && pn.Length == num.Length == div.Length
    requires IsLimbs(pn[..]) && IsLimbs(num[..]) && IsLimbs(div[..]) && shift / 32 < pn.Length
    requires LowBitsZero(pn[..], shift + 1)
    requires Dividing(n, b, Value(pn[..]), Value(num[..]), Value(div[..]), shift)
    modifies pn, num, div
    ensures IsLimbs(pn[..]) && IsLimbs(num[..]) && IsLimbs(div[..]) && LowBitsZero(pn[..], shift)
    ensures Dividing(n, b, Value(pn[..]), Value(num[..]), Value(div[..]), shift - 1)
  {
    ghost var q, r, d := pn[..], num[..], div[..];
    SetBit(q, shift);
    DividingSubtract(n, b, Value(q), Value(r), Value(d), shift);
    var c := CompareTo(num[..], div[..]);
    if c >= 0 {
      LowBound(r, |r|);
      SubAssign(num, div[..]);
      DivModUnique(Value(r) - Value(d), 0, Value(r) - Value(d), Weight(|r|));
      assert pn[..] == q && div[..] == d;
      pn[shift / 32] := Or(pn[shift / 32], Shl(1, shift % 32));
      assert pn[..] == WithBit(q, shift);
    }
    ghost var q', r' := pn[..], num[..];
    assert div[..] == d;
    DividingShift(n, b, Value(q'), Value(r'), Value(d), shift);
    ShiftRight(div, 1);
    assert pn[..] == q' && num[..] == r';
  }

  /** `pn /= b`. Fails, as the original throws, on division by zero. */
  method DivAssign(pn: array<nat>, b: seq<nat>) returns (ok: bool)
    requires IsLimbs(pn[..]) && IsLimbs(b) && |b| == pn.Length
    modifies pn
    ensures IsLimbs(pn[..])
    ensures ok <==> Value(b) != 0
    ensures Value(pn[..]) == if Value(b) == 0 then 0 else old(Value(pn[..])) / Value(b)
  {
    var a := pn[..];
    Clear(pn);
    LowZero(pn[..], pn.Length);
    var numBits := Bits(a);
    var divBits := Bits(b);
    if divBits == 0 {
      assert Pow2(0) == 1;
      return false;
    }
    if divBits > numBits {
      // The result is certainly 0.
      QuotientZero(Value(a), Value(b), numBits, divBits);
      return true;
    }
    DivideLoop(pn, a, b, numBits, divBits);
    ok := true;
  }

  lemma StartShift(b: nat, shift: nat, nb: nat, n: nat)
    requires b * Pow2(shift) < Pow2(nb) && nb <= 32 * n
    ensures b * Pow2(shift) >= 0 && (b * Pow2(shift)) % Weight(n) == b * Pow2(shift)
  {
    MulNonNegative(b, Pow2(shift));
    Pow2Mono(nb, 32 * n);
    DivModUnique(b * Pow2(shift), 0, b * Pow2(shift), Weight(n));
  }

  method Copy(s: seq<nat>) returns (a: array<nat>)
    ensures fresh(a) && a[..] == s
  {
    a := new nat[|s|](i requires 0 <= i < |s| => s[i]);
  }

  method DivideLoop(pn: array<nat>, a: seq<nat>, b: seq<nat>, numBits: nat, divBits: nat)
    requires IsLimbs(a) && IsLimbs(b) && |a| == |b| == pn.Length && forall i :: 0 <= i < pn.Length ==> pn[i] == 0
    requires BitLength(Value(a), numBits) && BitLength(Value(b), divBits) && 0 < divBits <= numBits <= 32 * |a|
    modifies pn
    ensures IsLimbs(pn[..]) && Value(b) != 0 && Value(pn[..]) == Value(a) / Value(b)
  {
    var num := Copy(a);
    var div := Copy(b);
    var shift: int := numBits - divBits;
    // Shift so that div and num align.
    DividingStart(Value(a), Value(b), numBits, divBits);
    StartShift(Value(b), shift, numBits, |a|);
    ShiftLeft(div, shift);
    LowZero(pn[..], pn.Length);
    ZeroMod(Pow2((shift + 1) % 32));
    while shift >= 0
      invariant -1 <= shift < 32 * |a|
      invariant IsLimbs(pn[..]) && IsLimbs(num[..]) && IsLimbs(div[..]) && LowBitsZero(pn[..], shift + 1)
      invariant Dividing(Value(a), Value(b), Value(pn[..]), Value(num[..]), Value(div[..]), shift)
    {
      DivideStep(pn, num, div, shift, Value(a), Value(b));
      shift := shift - 1;
    }
    DividingDone(Value(a), Value(b), Value(pn[..]), Value(num[..]), Value(div[..]));
  }
}
