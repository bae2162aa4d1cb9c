/** Comparison, bit length and shifts of big integers. */
module ArithShift {
  import opened Powers
  import opened Limbs

  // ---------- Comparison ----------

  lemma {:induction false} SameAbove(a: seq<nat>, b: seq<nat>, m: nat, n: nat)
    requires m <= n <= |a| == |b| && forall k :: m <= k < n ==> a[k] == b[k]
    ensures Low(a, n) - Low(a, m) == Low(b, n) - Low(b, m)
    decreases n
  {
    if n > m {
      SameAbove(a, b, m, n - 1);
    }
  }

  /** The highest limb in which two numbers differ decides. */
  lemma TopDecides(a: seq<nat>, b: seq<nat>, i: nat)
    requires i < |a| == |b| && IsLimbs(a) && a[i] < b[i] && forall k :: i < k < |a| ==> a[k] == b[k]
    ensures Value(a) < Value(b)
  {
    LowBound(a, i);
    SameAbove(a, b, i + 1, |a|);
    LessByTop(Low(a, i), Low(b, i), a[i], b[i], Weight(i));
  }

  lemma LessByTop(la: int, lb: int, x: int, y: int, w: int)
    requires la < w && 0 <= lb && x < y && w > 0
    ensures la + x * w < lb + y * w
  {
    MulMono(w, x + 1, y);
    MulDistributes(x, 1, w);
  }

  /** Negative, zero or positive as the first number is less, equal or greater. */
  method CompareTo(a: seq<nat>, b: seq<nat>) returns (r: int)
    requires |a| == |b| && IsLimbs(a) && IsLimbs(b)
    ensures r == if Value(a) < Value(b) then -1 else if Value(a) > Value(b) then 1 else 0
  {
    var i := |a|;
    while i > 0
      invariant 0 <= i <= |a| && forall k :: i <= k < |a| ==> a[k] == b[k]
    {
      i := i - 1;
      if a[i] < b[i] {
        TopDecides(a, b, i);
        return -1;
      }
      if a[i] > b[i] {
        TopDecides(b, a, i);
        return 1;
      }
    }
    assert a == b;
    r := 0;
  }

  // ---------- Bit length ----------

  /** `n` is the position of the highest bit of `v`, plus one. */
  ghost predicate BitLength(v: nat, n: nat) {
    v < Pow2(n) && (n > 0 ==> Pow2(n - 1) <= v)
  }

  lemma TestBit(x: nat, k: nat)
    requires x < Pow2(k + 1)
    ensures Shr(x, k) % 2 == 1 <==> x >= Pow2(k)
  {
    if x >= Pow2(k) {
      DivModUnique(x, 1, x - Pow2(k), Pow2(k));
    } else {
      DivModUnique(x, 0, x, Pow2(k));
    }
  }

  /** The bit length of a number is that of its highest limb, shifted. */
  lemma BitLengthOf(s: seq<nat>, pos: nat, n: nat)
    requires IsLimbs(s) && pos < |s| && n > 0 && BitLength(s[pos], n) && forall k :: pos < k < |s| ==> s[k] == 0
    ensures BitLength(Value(s), 32 * pos + n)
  {
    var zeros := seq(|s|, i => 0);
    LowZero(zeros, |s|);
    LowZero(zeros, pos + 1);
    SameAbove(s, zeros, pos + 1, |s|);
    var x, w := s[pos], Weight(pos);
    assert Value(s) == Low(s, pos) + x * w;
    LowBound(s, pos);
    Pow2Add(n, 32 * pos);
    Pow2Add(n - 1, 32 * pos);
    MulMono(w, Pow2(n - 1), x);
    MulMono(w, x + 1, Pow2(n));
    MulDistributes(x, 1, w);
    assert n - 1 + 32 * pos == 32 * pos + n - 1;
  }

  method Bits(s: seq<nat>) returns (n: nat)
    requires IsLimbs(s)
    ensures BitLength(Value(s), n) && n <= 32 * |s|
  {
    var pos := |s|;
    while pos > 0
      invariant 0 <= pos <= |s| && forall k :: pos <= k < |s| ==> s[k] == 0
    {
      pos := pos - 1;
      if s[pos] != 0 {
        var nbits := 31;
        Pow2Words();
        while nbits > 0
          invariant 0 <= nbits <= 31 && s[pos] < Pow2(nbits + 1)
        {
          TestBit(s[pos], nbits);
          if Shr(s[pos], nbits) % 2 == 1 {
            BitLengthOf(s, pos, nbits + 1);
            return 32 * pos + nbits + 1;
          }
          nbits := nbits - 1;
        }
        BitLengthOf(s, pos, 1);
        return 32 * pos + 1;
      }
    }
    LowZero(s, |s|);
    n := 0;
  }

  // ---------- Splitting a limb ----------

  /** Scaling `x` below `p * q` by `p`: the part below `p * q` and the part above. */
  lemma SplitProduct(x: int, p: int, q: int)
    requires p > 0 && q > 0 && 0 <= x < p * q
    ensures x == (x / q) * q + x % q && 0 <= x % q < q && 0 <= x / q < p
    ensures x * p == (x / q) * (p * q) + (x % q) * p
    ensures 0 <= (x % q) * p && (x % q) * p + p <= p * q
  {
    var hi, r := x / q, x % q;
    assert x == q * hi + r;
    MulDistributes(q * hi, r, p);
    assert (q * hi) * p == hi * (p * q);
    MulMono(p, r + 1, q);
    MulDistributes(r, 1, p);
    MulNonNegative(r, p);
    QuotientBound(x, p, q);
  }

  lemma QuotientBound(x: int, p: int, q: int)
    requires q > 0 && 0 <= x < p * q
    ensures 0 <= x / q < p
  {
    assert x == q * (x / q) + x % q;
    if x / q >= p {
      MulMono(q, p, x / q);
    }
  }

  /** Shifting a limb left by `s` bits: what stays and what goes to the next limb. */
  lemma LeftParts(x: nat, s: nat)
    requires x < BASE && s < 32
    ensures var lo, hi := Shl(x, s), Shr(x, 32 - s);
            && x * Pow2(s) == lo + hi * BASE && hi < Pow2(s) && (s == 0 ==> hi == 0)
            && lo % Pow2(s) == 0 && lo + Pow2(s) <= BASE
  {
    var p, q := Pow2(s), Pow2(32 - s);
    WordParts(s);
    SplitProduct(x, p, q);
    DivModUnique(x * p, x / q, (x % q) * p, BASE);
    DivModUnique((x % q) * p, x % q, 0, p);
  }

  lemma WordParts(s: nat)
    requires s < 32
    ensures Pow2(s) * Pow2(32 - s) == BASE && Pow2(32 - s) * Pow2(s) == BASE
  {
    Pow2Words();
    Pow2Add(s, 32 - s);
  }

  /** Shifting a limb right by `s` bits: what stays and what goes to the limb below. */
  lemma RightParts(x: nat, s: nat)
    requires x < BASE && s < 32
    ensures var lo, hi, q := x % Pow2(s), Shr(x, s), Pow2(32 - s);
            && x == lo + hi * Pow2(s) && lo < Pow2(s) && hi < q && (s == 0 ==> lo == 0)
            && Shl(x, 32 - s) == lo * q && (lo * q) % q == 0 && lo * q + q <= BASE
  {
    var p, q := Pow2(s), Pow2(32 - s);
    WordParts(s);
    SplitProduct(x, q, p);
    DivModUnique(x * q, x / p, (x % p) * q, BASE);
    DivModUnique((x % p) * q, x % p, 0, q);
  }

  // ---------- Left shift ----------

  /** The limbs of `a` below `i` are shifted; `over` counts what was dropped above the top. */
  ghost predicate LeftShifting(now: seq<nat>, a: seq<nat>, i: nat, k: nat, s: nat, over: nat) {
    && |now| == |a| && i <= |a| && IsLimbs(now)
    && Value(now) + over * Weight(|a|) == Low(a, i) * Pow2(32 * k + s)
    && (forall j :: i + k < j < |a| ==> now[j] == 0) && (i + k < |a| ==> now[i + k] < Pow2(s))
  }

  /** The two writes for limb `i`. */
  function LeftWrites(now: seq<nat>, x: nat, at: nat, s: nat): (r: seq<nat>)
    requires s < 32
    ensures |r| == |now|
  {
    var now1 := if at + 1 < |now| && s != 0 then now[at + 1 := Or(now[at + 1], Shr(x, 32 - s))] else now;
    if at < |now| then now1[at := Or(now1[at], Shl(x, s))] else now1
  }

  lemma ShiftWeights(i: nat, k: nat, s: nat, x: nat)
    ensures x * Weight(i) * Pow2(32 * k + s) == (x * Pow2(s)) * Weight(i + k)
  {
    Pow2Add(32 * k, s);
    WeightAdd(i, k);
    Regroup(x, Weight(i), Weight(k), Pow2(s));
  }

  lemma Regroup(x: int, a: int, b: int, c: int)
    ensures x * a * (b * c) == (x * c) * (a * b)
  {
    MulAssociates(x, a, b * c);
    MulAssociates(x, c, a * b);
    assert a * (b * c) == c * (a * b);
  }

  lemma LeftLow(now: seq<nat>, x: nat, at: nat, s: nat)
    requires IsLimbs(now) && x < BASE && s < 32 && at < |now| && now[at] < Pow2(s)
    ensures Or(now[at], Shl(x, s)) == now[at] + Shl(x, s) < BASE
    ensures (x * Pow2(s)) * Weight(at) == Shl(x, s) * Weight(at) + Shr(x, 32 - s) * Weight(at + 1)
  {
    LeftParts(x, s);
    OrDisjoint(Shl(x, s), now[at], s);
    WeightNext(at);
    Halves(x * Pow2(s), Shl(x, s), Shr(x, 32 - s), Weight(at));
  }

  lemma LeftInside(now: seq<nat>, x: nat, at: nat, s: nat)
    requires IsLimbs(now) && x < BASE && s < 32 && at + 1 < |now|
    requires (forall j :: at < j < |now| ==> now[j] == 0) && now[at] < Pow2(s)
    ensures var r := LeftWrites(now, x, at, s);
            && IsLimbs(r) && Value(r) == Value(now) + (x * Pow2(s)) * Weight(at)
            && (forall j :: at + 1 < j < |now| ==> r[j] == 0) && r[at + 1] < Pow2(s)
  {
    LeftParts(x, s);
    LeftLow(now, x, at, s);
    Pow2Below(s);
    var lo, hi := Shl(x, s), Shr(x, 32 - s);
    OrZero(hi);
    var now1 := now[at + 1 := hi];
    LowUpdate(now, at + 1, hi, |now|);
    LowUpdate(now1, at, now[at] + lo, |now|);
    assert LeftWrites(now, x, at, s) == now1[at := now[at] + lo];
  }

  /** What the writes do to the value. */
  lemma LeftWritten(now: seq<nat>, x: nat, at: nat, s: nat) returns (over: nat)
    requires IsLimbs(now) && x < BASE && s < 32
    requires (forall j :: at < j < |now| ==> now[j] == 0) && (at < |now| ==> now[at] < Pow2(s))
    ensures var r := LeftWrites(now, x, at, s);
            && IsLimbs(r) && Value(r) + over * Weight(|now|) == Value(now) + (x * Pow2(s)) * Weight(at)
            && (forall j :: at + 1 < j < |now| ==> r[j] == 0) && (at + 1 < |now| ==> r[at + 1] < Pow2(s))
  {
    if at >= |now| {
      MulNonNegative(x, Pow2(s));
      over := x * Pow2(s) * Weight(at - |now|);
      WeightAdd(at - |now|, |now|);
      MulAssociates(x * Pow2(s), Weight(at - |now|), Weight(|now|));
    } else if at + 1 < |now| {
      LeftInside(now, x, at, s);
      over := 0;
    } else {
      LeftLow(now, x, at, s);
      LowUpdate(now, at, now[at] + Shl(x, s), |now|);
      over := Shr(x, 32 - s);
    }
  }

  lemma Pow2Below(s: nat)
    requires s < 32
    ensures Pow2(s) < BASE
  {
    Pow2Words();
    Pow2Mono(s, 31);
    assert Pow2(32) == 2 * Pow2(31);
  }

  lemma Halves(t: int, lo: int, hi: int, w: int)
    requires t == lo + hi * BASE
    ensures t * w == lo * w + hi * (BASE * w)
  {
    MulDistributes(lo, hi * BASE, w);
    MulAssociates(hi, BASE, w);
  }

  lemma LeftNext(now: seq<nat>, a: seq<nat>, i: nat, k: nat, s: nat, over: nat) returns (over': nat)
    requires LeftShifting(now, a, i, k, s, over) && i < |a| && IsLimbs(a) && s < 32
    ensures LeftShifting(LeftWrites(now, a[i], i + k, s), a, i + 1, k, s, over')
  {
    var more := LeftWritten(now, a[i], i + k, s);
    over' := over + more;
    MulDistributes(over, more, Weight(|a|));
    ShiftWeights(i, k, s, a[i]);
    MulDistributes(Low(a, i), a[i] * Weight(i), Pow2(32 * k + s));
  }

  /** `pn <<= shift` */
  method ShiftLeft(pn: array<nat>, shift: nat)
    requires IsLimbs(pn[..])
    modifies pn
    ensures IsLimbs(pn[..]) && Value(pn[..]) == (old(Value(pn[..])) * Pow2(shift)) % Weight(pn.Length)
  {
    var a := pn[..];
    var k, s := shift / 32, shift % 32;
    Clear(pn);
    ghost var now, over: nat := pn[..], 0;
    LowZero(now, |now|);
    for i := 0 to pn.Length
      invariant pn[..] == now && LeftShifting(now, a, i, k, s, over)
    {
      over := LeftNext(now, a, i, k, s, over);
      now := LeftWrites(now, a[i], i + k, s);
      if i + k + 1 < pn.Length && s != 0 {
        pn[i + k + 1] := Or(pn[i + k + 1], Shr(a[i], 32 - s));
      }
      if i + k < pn.Length {
        pn[i + k] := Or(pn[i + k], Shl(a[i], s));
      }
    }
    LowBound(now, |now|);
    WeightNext(|a|);
    MulNonNegative(Value(a), Pow2(shift));
    ModOfSum(Value(a) * Pow2(shift), over, Weight(|a|), Value(now));
  }

  method Clear(pn: array<nat>)
    modifies pn
    ensures forall i :: 0 <= i < pn.Length ==> pn[i] == 0
  {
    for i := 0 to pn.Length
      invariant forall k :: 0 <= k < i ==> pn[k] == 0
    {
      pn[i] := 0;
    }
  }

  // ---------- Right shift ----------

  /** The limbs of `a` below `i` are shifted; `rem` is what was dropped below the bottom. */
  ghost predicate RightShifting(now: seq<nat>, a: seq<nat>, i: nat, k: nat, s: nat, rem: nat) {
    && s < 32 && |now| == |a| && i <= |a| && IsLimbs(now)
    && Value(now) * Pow2(32 * k + s) + rem == Low(a, i) && rem < Pow2(32 * k + s)
    && (i <= k ==> rem == Low(a, i))
    && (forall j :: 0 <= j < |a| && j + k >= i ==> now[j] == 0) && (i > k ==> now[i - k - 1] < Pow2(32 - s))
  }

  /** The two writes for limb `i`. */
  function RightWrites(now: seq<nat>, x: nat, i: nat, k: nat, s: nat): (r: seq<nat>)
    requires s < 32 && i < |now|
    ensures |r| == |now|
  {
    var now1 := if i >= k + 1 && s != 0 then now[i - k - 1 := Or(now[i - k - 1], Shl(x, 32 - s))] else now;
    if i >= k then now1[i - k := Or(now1[i - k], Shr(x, s))] else now1
  }

  /** What the writes for a limb above the lowest kept one do to the value. */
  lemma RightInside(now: seq<nat>, x: nat, i: nat, k: nat, s: nat)
    requires IsLimbs(now) && x < BASE && s < 32 && k < i < |now|
    requires now[i - k] == 0 && now[i - k - 1] < Pow2(32 - s)
    ensures var r := RightWrites(now, x, i, k, s);
            && IsLimbs(r) && r[i - k] == Shr(x, s) < Pow2(32 - s)
            && Value(r) == Value(now) + ((x % Pow2(s)) * Pow2(32 - s)) * Weight(i - k - 1) + Shr(x, s) * Weight(i - k)
            && forall j :: 0 <= j < |now| && j != i - k && j != i - k - 1 ==> r[j] == now[j]
  {
    RightParts(x, s);
    var lo, hi, at := Shl(x, 32 - s), Shr(x, s), i - k - 1;
    OrDisjoint(lo, now[at], 32 - s);
    OrZero(hi);
    var now1 := now[at := now[at] + lo];
    LowUpdate(now, at, now[at] + lo, |now|);
    LowUpdate(now1, at + 1, hi, |now|);
    assert RightWrites(now, x, i, k, s) == now1[at + 1 := hi];
  }

  lemma RightValue(v: int, low: int, p32: int, ps: int, pq: int, wk: int, w1: int, wi: int, x: int, lo: int, hi: int,
                   rem: int)
    requires v * (wk * ps) + rem == low && x == lo + hi * ps && ps * pq == BASE && p32 == wk * ps
    requires (BASE * w1) * wk == wi
    ensures (v + (lo * pq) * w1 + hi * (BASE * w1)) * p32 + rem == low + x * wi
  {
    var a, b := (lo * pq) * w1, hi * (BASE * w1);
    MulDistributes(v + a, b, p32);
    MulDistributes(v, a, p32);
    assert a * p32 == lo * wi by {
      calc {
        a * p32;
        ((lo * pq) * w1) * (wk * ps);
        { RightGroup(lo, pq, w1, wk, ps); }
        lo * (((ps * pq) * w1) * wk);
      }
    }
    assert b * p32 == (hi * ps) * wi by {
      RightGroup2(hi, BASE * w1, wk, ps);
    }
    MulDistributes(lo, hi * ps, wi);
  }

  lemma RightGroup(lo: int, pq: int, w1: int, wk: int, ps: int)
    ensures ((lo * pq) * w1) * (wk * ps) == lo * (((ps * pq) * w1) * wk)
  {
    calc {
      ((lo * pq) * w1) * (wk * ps);
      lo * ((pq * w1) * (wk * ps));
      lo * (((ps * pq) * w1) * wk);
    }
  }

  lemma RightGroup2(hi: int, bw: int, wk: int, ps: int)
    ensures (hi * bw) * (wk * ps) == (hi * ps) * (bw * wk)
  {
  }

  lemma RightAbove(now: seq<nat>, a: seq<nat>, i: nat, k: nat, s: nat, rem: nat)
    requires RightShifting(now, a, i, k, s, rem) && k < i < |a| && IsLimbs(a)
    ensures RightShifting(RightWrites(now, a[i], i, k, s), a, i + 1, k, s, rem)
  {
    var x := a[i];
    RightParts(x, s);
    RightInside(now, x, i, k, s);
    WordParts(s);
    Pow2Add(32 * k, s);
    WeightNext(i - k - 1);
    WeightAdd(i - k, k);
    RightValue(Value(now), Low(a, i), Pow2(32 * k + s), Pow2(s), Pow2(32 - s), Weight(k), Weight(i - k - 1),
        Weight(i), x,
               x % Pow2(s), Shr(x, s), rem);
  }

  /** The lowest limb of which something is kept. */
  lemma RightLowest(now: seq<nat>, a: seq<nat>, k: nat, s: nat, rem: nat, rem': nat)
    requires RightShifting(now, a, k, k, s, rem) && k < |a| && IsLimbs(a)
    requires rem' == rem + (a[k] % Pow2(s)) * Weight(k)
    ensures RightShifting(RightWrites(now, a[k], k, k, s), a, k + 1, k, s, rem')
  {
    var x := a[k];
    RightParts(x, s);
    LowestWrite(now, x, k, s);
    Pow2Add(32 * k, s);
    LowBound(a, k);
    LowestValue(Shr(x, s), x % Pow2(s), Pow2(s), Weight(k), x, rem);
  }

  lemma LowestWrite(now: seq<nat>, x: nat, k: nat, s: nat)
    requires s < 32 && k < |now| && forall j :: 0 <= j < |now| ==> now[j] == 0
    ensures var r := RightWrites(now, x, k, k, s);
            r == now[0 := Shr(x, s)] && Value(r) == Shr(x, s)
  {
    OrZero(Shr(x, s));
    LowZero(now, |now|);
    LowUpdate(now, 0, Shr(x, s), |now|);
    WeightNext(0);
  }

  lemma LowestValue(hi: int, lo: int, p: int, w: int, x: int, low: int)
    requires x == lo + hi * p && 0 <= lo < p && low < w && w > 0
    ensures hi * (w * p) + (low + lo * w) == low + x * w && low + lo * w < w * p
  {
    MulDistributes(lo, hi * p, w);
    assert hi * (w * p) == (hi * p) * w;
    MulMono(w, lo + 1, p);
    MulDistributes(lo, 1, w);
  }

  lemma RightBelow(now: seq<nat>, a: seq<nat>, i: nat, k: nat, s: nat, rem: nat)
    requires RightShifting(now, a, i, k, s, rem) && i < |a| && i < k && IsLimbs(a)
    ensures RightShifting(RightWrites(now, a[i], i, k, s), a, i + 1, k, s, Low(a, i + 1))
  {
    LowZero(now, |now|);
    LowBelow(a, i + 1, 32 * k + s);
    NothingYet(Value(now), Pow2(32 * k + s), Low(a, i + 1));
    assert RightWrites(now, a[i], i, k, s) == now;
  }

  lemma LowBelow(a: seq<nat>, n: nat, e: nat)
    requires n <= |a| && IsLimbs(a) && 32 * n <= e
    ensures Low(a, n) < Pow2(e)
  {
    LowBound(a, n);
    Pow2Mono(32 * n, e);
  }

  lemma NothingYet(v: nat, p: nat, rem: nat)
    requires v == 0
    ensures v * p + rem == rem
  {
  }

  lemma RightNext(now: seq<nat>, a: seq<nat>, i: nat, k: nat, s: nat, rem: nat) returns (rem': nat)
    requires RightShifting(now, a, i, k, s, rem) && i < |a| && IsLimbs(a)
    ensures RightShifting(RightWrites(now, a[i], i, k, s), a, i + 1, k, s, rem')
  {
    if i < k {
      rem' := Low(a, i + 1);
      RightBelow(now, a, i, k, s, rem);
    } else if i == k {
      MulNonNegative(a[k] % Pow2(s), Weight(k));
      rem' := rem + (a[k] % Pow2(s)) * Weight(k);
      RightLowest(now, a, k, s, rem, rem');
    } else {
      rem' := rem;
      RightAbove(now, a, i, k, s, rem);
    }
  }

  /** `pn >>= shift` */
  method ShiftRight(pn: array<nat>, shift: nat)
    requires IsLimbs(pn[..])
    modifies pn
    ensures IsLimbs(pn[..]) && Value(pn[..]) == old(Value(pn[..])) / Pow2(shift)
  {
    var a := pn[..];
    var k, s := shift / 32, shift % 32;
    Clear(pn);
    ghost var now, rem: nat := pn[..], 0;
    LowZero(now, |now|);
    for i := 0 to pn.Length
      invariant pn[..] == now && RightShifting(now, a, i, k, s, rem)
    {
      rem := RightNext(now, a, i, k, s, rem);
      now := RightWrites(now, a[i], i, k, s);
      if i - k - 1 >= 0 && s != 0 {
        pn[i - k - 1] := Or(pn[i - k - 1], Shl(a[i], 32 - s));
      }
      if i - k >= 0 {
        pn[i - k] := Or(pn[i - k], Shr(a[i], s));
      }
    }
    DivModUnique(Value(a), Value(now), rem, Pow2(shift));
  }
}
