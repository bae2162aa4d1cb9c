/** In-place arithmetic on big integers of any fixed number of limbs. */
module ArithUint {
  import opened Powers
  import opened Limbs

  /** The largest value of the 64-bit accumulator. */
  const MAX_UINT64: nat := 0xffff_ffff_ffff_ffff

  lemma Carried(n: nat)
    ensures n == n % BASE + BASE * (n / BASE) && n % BASE < BASE
  {
  }

  /** The accumulator of a sum never exceeds 64 bits and leaves a carry of one bit. */
  lemma SumCarry(carry: nat, a: nat, b: nat)
    requires carry <= 1 && a < BASE && b < BASE
    ensures carry + a + b <= MAX_UINT64 && (carry + a + b) / BASE <= 1
  {
  }

  lemma AddStep(low: int, lowA: int, lowB: int, carry: int, a: int, b: int, w: int, d: int, carry': int)
    requires low + carry * w == lowA + lowB && d + BASE * carry' == carry + a + b
    ensures (low + d * w) + carry' * (BASE * w) == (lowA + a * w) + (lowB + b * w)
  {
    MulDistributes(d, BASE * carry', w);
    MulDistributes(carry + a, b, w);
    MulDistributes(carry, a, w);
    assert carry' * (BASE * w) == (BASE * carry') * w;
  }

  /** What a carry chain keeps: the limbs done so far and the carry hold the sum. */
  ghost predicate Adding(now: seq<nat>, a: seq<nat>, b: seq<nat>, i: nat, carry: nat) {
    && |now| == |a| == |b| && i <= |a| && IsLimbs(now)
    && Low(now, i) + carry * Weight(i) == Low(a, i) + Low(b, i)
    && forall k :: i <= k < |a| ==> now[k] == a[k]
  }

  lemma AddingNext(now: seq<nat>, a: seq<nat>, b: seq<nat>, i: nat, carry: nat)
    requires Adding(now, a, b, i, carry) && i < |a| && IsLimbs(b)
    ensures var n := carry + now[i] + b[i];
            Adding(now[i := n % BASE], a, b, i + 1, n / BASE)
  {
    var n := carry + now[i] + b[i];
    Carried(n);
    LowSame(now[i := n % BASE], now, i);
    WeightNext(i);
    AddStep(Low(now, i), Low(a, i), Low(b, i), carry, a[i], b[i], Weight(i), n % BASE, n / BASE);
  }

  lemma AddingDone(now: seq<nat>, a: seq<nat>, b: seq<nat>, carry: nat)
    requires Adding(now, a, b, |a|, carry)
    ensures Value(now) == (Value(a) + Value(b)) % Weight(|a|)
  {
    LowBound(now, |now|);
    WeightNext(|a|);
    ModOfSum(Value(a) + Value(b), carry, Weight(|a|), Value(now));
  }

  /** `pn += b` */
  method AddAssign(pn: array<nat>, b: seq<nat>)
    requires IsLimbs(pn[..]) && IsLimbs(b) && |b| == pn.Length
    modifies pn
    ensures IsLimbs(pn[..]) && Value(pn[..]) == (old(Value(pn[..])) + Value(b)) % Weight(pn.Length)
  {
    ghost var a, now := pn[..], pn[..];
    WeightNext(0);
    var carry: nat := 0;
    for i := 0 to pn.Length
      invariant pn[..] == now && Adding(now, a, b, i, carry) && carry <= 1
    {
      AddingNext(now, a, b, i, carry);
      SumCarry(carry, now[i], b[i]);
      var n: nat := carry + pn[i] + b[i];
      pn[i] := n % BASE;
      carry := n / BASE;
      now := now[i := n % BASE];
    }
    AddingDone(now, a, b, carry);
  }

  // ---------- Complement and subtraction ----------

  function Complement(s: seq<nat>): (r: seq<nat>)
    requires IsLimbs(s)
    ensures |r| == |s| && IsLimbs(r)
    ensures forall i :: 0 <= i < |s| ==> r[i] == BASE - 1 - s[i]
  {
    seq(|s|, i requires 0 <= i < |s| => BASE - 1 - s[i])
  }

  lemma {:induction false} ComplementLow(s: seq<nat>, n: nat)
    requires IsLimbs(s) && n <= |s|
    ensures Low(Complement(s), n) == Weight(n) - 1 - Low(s, n)
  {
    WeightNext(0);
    if n > 0 {
      ComplementLow(s, n - 1);
      var c, w := Complement(s), Weight(n - 1);
      assert Low(c, n) == Low(c, n - 1) + (BASE - 1 - s[n - 1]) * w;
      assert Weight(n) == BASE * w by {
        WeightNext(n - 1);
      }
      ComplementStep(Low(s, n - 1), s[n - 1], w);
    }
  }

  lemma ComplementStep(low: int, x: int, w: int)
    ensures (w - 1 - low) + (BASE - 1 - x) * w == BASE * w - 1 - (low + x * w)
  {
    MulDistributes(BASE - 1, -x, w);
    MulDistributes(BASE, -1, w);
  }

  /** What an increment keeps: it is still to be done from limb `i` on. */
  ghost predicate Incrementing(now: seq<nat>, a: seq<nat>, i: nat) {
    && |now| == |a| && i <= |a| && IsLimbs(now)
    && Low(now, i) + Weight(i) == Low(a, i) + 1
    && forall k :: i <= k < |a| ==> now[k] == a[k]
  }

  /** A limb that wraps to zero passes the increment on. */
  lemma IncrementWraps(now: seq<nat>, a: seq<nat>, i: nat)
    requires Incrementing(now, a, i) && i < |a| && now[i] == BASE - 1
    ensures Incrementing(now[i := 0], a, i + 1)
  {
    LowSame(now[i := 0], now, i);
    WeightNext(i);
    MulDistributes(BASE, -1, Weight(i));
  }

  lemma {:induction false} IncrementStops(now: seq<nat>, a: seq<nat>, i: nat, n: nat)
    requires Incrementing(now, a, i) && i < n <= |a| && now[i] < BASE - 1
    ensures IsLimbs(now[i := now[i] + 1]) && Low(now[i := now[i] + 1], n) == Low(a, n) + 1
  {
    var r := now[i := now[i] + 1];
    if n == i + 1 {
      LowSame(r, now, i);
      MulDistributes(now[i], 1, Weight(i));
    } else {
      IncrementStops(now, a, i, n - 1);
    }
  }

  /** `++pn` */
  method Increment(pn: array<nat>)
    requires IsLimbs(pn[..])
    modifies pn
    ensures IsLimbs(pn[..]) && Value(pn[..]) == (old(Value(pn[..])) + 1) % Weight(pn.Length)
  {
    ghost var a, now := pn[..], pn[..];
    WeightNext(0);
    WeightNext(pn.Length);
    LowBound(a, |a|);
    var i: nat := 0;
    while i < pn.Length && pn[i] == BASE - 1
      invariant i <= pn.Length && pn[..] == now && Incrementing(now, a, i)
    {
      IncrementWraps(now, a, i);
      pn[i] := 0;
      now := now[i := 0];
      i := i + 1;
    }
    if i < pn.Length {
      IncrementStops(now, a, i, |a|);
      now := now[i := now[i] + 1];
      pn[i] := pn[i] + 1;
      assert pn[..] == now;
      LowBound(now, |now|);
      ModOfSum(Value(a) + 1, 0, Weight(|a|), Value(now));
    } else {
      ModOfSum(Value(a) + 1, 1, Weight(|a|), Value(now));
    }
  }

  /** `pn -= b` */
  method SubAssign(pn: array<nat>, b: seq<nat>)
    requires IsLimbs(pn[..]) && IsLimbs(b) && |b| == pn.Length
    modifies pn
    ensures IsLimbs(pn[..]) && Value(pn[..]) == (old(Value(pn[..])) - Value(b)) % Weight(pn.Length)
  {
    var neg := new nat[pn.Length];
    var c := Complement(b);
    ghost var was := pn[..];
    for i := 0 to neg.Length
      invariant pn[..] == was && forall k :: 0 <= k < i ==> neg[k] == c[k]
    {
      neg[i] := c[i];
    }
    assert neg[..] == c;
    Increment(neg);
    assert pn[..] == was;
    ghost var a := Value(was);
    WeightNext(pn.Length);
    ComplementLow(b, |b|);
    LowBound(b, |b|);
    NegateThenAdd(a, Value(b), Weight(pn.Length));
    AddAssign(pn, neg[..]);
  }

  lemma NegateThenAdd(a: int, b: int, m: int)
    requires m > 0 && 0 <= b < m
    ensures (a + (m - 1 - b + 1) % m) % m == (a - b) % m
  {
    if b == 0 {
      DivModUnique(m, 1, 0, m);
    } else {
      DivModUnique(m - b, 0, m - b, m);
      var q, r := (a - b) / m, (a - b) % m;
      assert a - b == m * q + r;
      MulDistributes(q, 1, m);
      DivModUnique(a + m - b, q + 1, r, m);
    }
  }

  // ---------- Multiplication ----------

  lemma ProductBound(x: nat, y: nat)
    requires x <= 0xffff_ffff && y <= 0xffff_ffff
    ensures x * y <= 0xffff_fffe_0000_0001
  {
    MulMono(x, y, 0xffff_ffff);
    MulMono(0xffff_ffff, x, 0xffff_ffff);
  }

  /** The accumulator of a product never exceeds 64 bits and leaves a carry of one limb. */
  lemma ProductCarry(carry: nat, a: nat, x: nat, y: nat)
    requires carry < BASE && a < BASE && x < BASE && y < BASE
    ensures 0 <= carry + a + x * y <= MAX_UINT64 && (carry + a + x * y) / BASE < BASE
  {
    ProductBound(x, y);
    MulNonNegative(x, y);
    TopHalf(carry + a + x * y);
  }

  lemma TopHalf(n: nat)
    requires n <= 0xffff_ffff_ffff_ffff
    ensures n / BASE < BASE
  {
    assert n / 0x1_0000_0000 <= 0xffff_ffff;
  }

  ghost predicate Scaling(now: seq<nat>, a: seq<nat>, b: nat, i: nat, carry: nat) {
    && |now| == |a| && i <= |a| && IsLimbs(now)
    && Low(now, i) + carry * Weight(i) == b * Low(a, i)
    && forall k :: i <= k < |a| ==> now[k] == a[k]
  }

  lemma ScaleStep(low: int, lowA: int, carry: int, b: int, x: int, w: int, d: int, carry': int)
    requires low + carry * w == b * lowA && d + BASE * carry' == carry + b * x
    ensures (low + d * w) + carry' * (BASE * w) == b * (lowA + x * w)
  {
    MulDistributes(d, BASE * carry', w);
    MulDistributes(carry, b * x, w);
    assert carry' * (BASE * w) == (BASE * carry') * w;
    MulDistributes(lowA, x * w, b);
    MulAssociates(b, x, w);
  }

  lemma ScalingNext(now: seq<nat>, a: seq<nat>, b: nat, i: nat, carry: nat)
    requires Scaling(now, a, b, i, carry) && i < |a|
    ensures var n := carry + b * now[i];
            Scaling(now[i := n % BASE], a, b, i + 1, n / BASE)
  {
    MulNonNegative(b, now[i]);
    var n := carry + b * now[i];
    var r := now[i := n % BASE];
    Carried(n);
    LowSame(r, now, i);
    assert Low(r, i + 1) == Low(now, i) + (n % BASE) * Weight(i);
    assert Low(a, i + 1) == Low(a, i) + a[i] * Weight(i);
    WeightNext(i);
    ScaleStep(Low(now, i), Low(a, i), carry, b, a[i], Weight(i), n % BASE, n / BASE);
  }

  /** `pn *= b32` for a 32-bit factor */
  method MulAssignSmall(pn: array<nat>, b: nat)
    requires IsLimbs(pn[..]) && b < BASE
    modifies pn
    ensures IsLimbs(pn[..]) && Value(pn[..]) == (b * old(Value(pn[..]))) % Weight(pn.Length)
  {
    ghost var a, now := pn[..], pn[..];
    WeightNext(0);
    var carry: nat := 0;
    for i := 0 to pn.Length
      invariant pn[..] == now && Scaling(now, a, b, i, carry) && carry < BASE
    {
      ScalingNext(now, a, b, i, carry);
      ProductCarry(carry, 0, b, now[i]);
      MulNonNegative(b, pn[i]);
      var n: nat := carry + b * pn[i];
      pn[i] := n % BASE;
      carry := n / BASE;
      now := now[i := n % BASE];
    }
    LowBound(now, |now|);
    WeightNext(pn.Length);
    MulNonNegative(b, Value(a));
    ModOfSum(b * Value(a), carry, Weight(|a|), Value(now));
  }

  /** Row `j` of a long multiplication after `i` limbs: `base` is what was there before the row, and
      `over` counts what was dropped above the top. */
  ghost predicate Multiplying(acc: seq<nat>, b: seq<nat>, x: nat, j: nat, i: nat, carry: nat, base: nat, over: nat) {
    && |acc| == |b| && i + j <= |b| && IsLimbs(acc) && carry < BASE
    && Value(acc) + carry * Weight(i + j) + over * Weight(|b|) == base + x * Low(b, i) * Weight(j)
  }

  lemma MultiplyStep(v: int, carry: int, wij: int, rest: int, base: int, x: int, low: int, wj: int, wi: int,
                     was: int, y: int, d: int, carry': int)
    requires v + carry * wij + rest == base + x * low * wj && wij == wi * wj
    requires d + BASE * carry' == carry + was + x * y
    ensures (v + (d - was) * wij) + carry' * (BASE * wij) + rest == base + x * (low + y * wi) * wj
  {
    MulDistributes(d - was, BASE * carry', wij);
    MulDistributes(carry, x * y, wij);
    assert carry' * (BASE * wij) == (BASE * carry') * wij;
    MulDistributes(low, y * wi, x);
    MulDistributes(x * low, x * (y * wi), wj);
    MulAssociates(x * y, wi, wj);
    MulAssociates(x, y, wi);
  }

  lemma MultiplyingNext(acc: seq<nat>, b: seq<nat>, x: nat, j: nat, i: nat, carry: nat, base: nat, over: nat)
    requires Multiplying(acc, b, x, j, i, carry, base, over) && i + j < |b| && x < BASE && IsLimbs(b)
    ensures x * b[i] >= 0 && carry + acc[i + j] + x * b[i] <= MAX_UINT64
    ensures var n := carry + acc[i + j] + x * b[i];
            Multiplying(acc[i + j := n % BASE], b, x, j, i + 1, n / BASE, base, over)
  {
    MulNonNegative(x, b[i]);
    ProductCarry(carry, acc[i + j], x, b[i]);
    var n := carry + acc[i + j] + x * b[i];
    Carried(n);
    LowUpdate(acc, i + j, n % BASE, |acc|);
    WeightAdd(i, j);
    WeightNext(i + j);
    assert Low(b, i + 1) == Low(b, i) + b[i] * Weight(i);
    MultiplyStep(Value(acc), carry, Weight(i + j), over * Weight(|b|), base, x, Low(b, i), Weight(j), Weight(i),
                 acc[i + j], b[i], n % BASE, n / BASE);
  }

  lemma RowStep(v: int, carry: int, over: int, wn: int, base: int, x: int, low: int, wj: int, high: int, wr: int)
    requires v + carry * wn + over * wn == base + x * low * wj && wr * wj == wn
    ensures v + (over + carry + x * high) * wn == base + x * (low + high * wr) * wj
  {
    MulDistributes(over + carry, x * high, wn);
    MulDistributes(over, carry, wn);
    MulDistributes(low, high * wr, x);
    MulDistributes(x * low, x * (high * wr), wj);
    MulAssociates(x, high, wr);
    MulAssociates(x * high, wr, wj);
  }

  /** At the end of a row, what has been dropped is a multiple of the modulus. */
  lemma RowDone(acc: seq<nat>, a: seq<nat>, b: seq<nat>, j: nat, carry: nat, over: nat) returns (over': nat)
    requires j < |a| == |b|
    requires Multiplying(acc, b, a[j], j, |b| - j, carry, Low(a, j) * Value(b), over)
    ensures Value(acc) + over' * Weight(|b|) == Low(a, j + 1) * Value(b)
  {
    var high := SplitAt(b, |b| - j, |b|);
    WeightAdd(|b| - j, j);
    MulNonNegative(a[j], high);
    over' := over + carry + a[j] * high;
    RowStep(Value(acc), carry, over, Weight(|b|), Low(a, j) * Value(b), a[j], Low(b, |b| - j), Weight(j), high,
            Weight(|b| - j));
    RowTotal(Value(acc) + over' * Weight(|b|), Low(a, j), Value(b), a[j], Weight(j));
  }

  lemma RowTotal(v: int, lowA: int, val: int, x: int, wj: int)
    requires v == lowA * val + x * val * wj
    ensures v == (lowA + x * wj) * val
  {
    MulDistributes(lowA, x * wj, val);
    assert x * val * wj == (x * wj) * val;
  }

  /** Add `a[j] * b`, shifted by `j` limbs, to the accumulator. */
  method AddRow(acc: array<nat>, a: seq<nat>, b: seq<nat>, j: nat, ghost over: nat) returns (ghost over': nat)
    requires |a| == |b| == acc.Length && j < |a| && IsLimbs(a) && IsLimbs(b) && IsLimbs(acc[..])
    requires Value(acc[..]) + over * Weight(|b|) == Low(a, j) * Value(b)
    modifies acc
    ensures IsLimbs(acc[..]) && Value(acc[..]) + over' * Weight(|b|) == Low(a, j + 1) * Value(b)
  {
    ghost var now, base := acc[..], Low(a, j) * Value(b);
    var carry: nat := 0;
    var i: nat := 0;
    while i + j < acc.Length
      invariant i + j <= acc.Length && acc[..] == now && Multiplying(now, b, a[j], j, i, carry, base, over)
    {
      MultiplyingNext(now, b, a[j], j, i, carry, base, over);
      var n: nat := carry + acc[i + j] + a[j] * b[i];
      acc[i + j] := n % BASE;
      carry := n / BASE;
      now := now[i + j := n % BASE];
      i := i + 1;
    }
    over' := RowDone(now, a, b, j, carry, over);
  }

  /** Copy a value into the limbs. */
  method Assign(pn: array<nat>, s: seq<nat>)
    requires |s| == pn.Length
    modifies pn
    ensures pn[..] == s
  {
    for i := 0 to pn.Length
      invariant forall k :: 0 <= k < i ==> pn[k] == s[k]
    {
      pn[i] := s[i];
    }
  }

  /** Long multiplication, row by row. */
  method Multiply(a: seq<nat>, b: seq<nat>) returns (product: seq<nat>)
    requires IsLimbs(a) && IsLimbs(b) && |b| == |a|
    ensures |product| == |a| && IsLimbs(product) && Value(product) == (Value(a) * Value(b)) % Weight(|a|)
  {
    var acc := new nat[|a|](_ => 0);
    LowZero(acc[..], |a|);
    ghost var over: nat := 0;
    for j := 0 to |a|
      invariant IsLimbs(acc[..]) && Value(acc[..]) + over * Weight(|b|) == Low(a, j) * Value(b)
    {
      over := AddRow(acc, a, b, j, over);
    }
    product := acc[..];
    LowBound(product, |a|);
    WeightNext(|b|);
    MulNonNegative(Value(a), Value(b));
    ModOfSum(Value(a) * Value(b), over, Weight(|b|), Value(product));
  }

  /** `pn *= b` */
  method MulAssign(pn: array<nat>, b: seq<nat>)
    requires IsLimbs(pn[..]) && IsLimbs(b) && |b| == pn.Length
    modifies pn
    ensures IsLimbs(pn[..]) && Value(pn[..]) == (old(Value(pn[..])) * Value(b)) % Weight(pn.Length)
  {
    var product := Multiply(pn[..], b);
    Assign(pn, product);
  }
}
