/** Fee/size pairs and their two orders (util/feefrac.h).

  All comparisons go through `Excess(x, r)`, the cross-multiplied difference between the
  feerates of `x` and `r`. It is additive in `x`, so for a fixed reference `r` it acts as a
  weight on transactions. */
module FeeFracs {

  /** A fee and a size. Both are unbounded here; the source keeps them in an int64 and an int32
      and leaves it to callers that no sum overflows. */
  datatype FeeFrac = FeeFrac(fee: int, size: int) {

    predicate IsEmpty() {
      size == 0
    }

    function Plus(other: FeeFrac): FeeFrac {
      FeeFrac(fee + other.fee, size + other.size)
    }

    function Minus(other: FeeFrac): FeeFrac {
      FeeFrac(fee - other.fee, size - other.size)
    }
  }

  /** The cross-multiplied feerate difference of `x` over `r`. */
  function Excess(x: FeeFrac, r: FeeFrac): int {
    x.fee * r.size - r.fee * x.size
  }

  /** `a >> b`: strictly higher feerate. Never true when either side is empty. */
  predicate Higher(a: FeeFrac, b: FeeFrac) {
    a.fee * b.size > b.fee * a.size
  }

  /** `a << b`: strictly lower feerate. */
  predicate Lower(a: FeeFrac, b: FeeFrac) {
    a.fee * b.size < b.fee * a.size
  }

  /** `a > b`: higher feerate, or the same feerate and a smaller size. */
  predicate Better(a: FeeFrac, b: FeeFrac) {
    Higher(a, b) || (!Lower(a, b) && a.size < b.size)
  }

  /** `a >= b` in the same order. */
  predicate AtLeast(a: FeeFrac, b: FeeFrac) {
    Higher(a, b) || (!Lower(a, b) && a.size <= b.size)
  }

  lemma ExcessPlus(a: FeeFrac, b: FeeFrac, r: FeeFrac)
    ensures Excess(a.Plus(b), r) == Excess(a, r) + Excess(b, r)
  {
    assert (a.fee + b.fee) * r.size == a.fee * r.size + b.fee * r.size;
    assert r.fee * (a.size + b.size) == r.fee * a.size + r.fee * b.size;
  }

  lemma ExcessMinus(a: FeeFrac, b: FeeFrac, r: FeeFrac)
    ensures Excess(a.Minus(b), r) == Excess(a, r) - Excess(b, r)
  {
    assert (a.fee - b.fee) * r.size == a.fee * r.size - b.fee * r.size;
    assert r.fee * (a.size - b.size) == r.fee * a.size - r.fee * b.size;
  }

  /** The identity behind transitivity of the feerate order. */
  lemma ExcessChain(a: FeeFrac, b: FeeFrac, c: FeeFrac)
    ensures b.size * Excess(a, c) == c.size * Excess(a, b) + a.size * Excess(b, c)
  {
    calc {
      c.size * Excess(a, b) + a.size * Excess(b, c);
      c.size * (a.fee * b.size) - c.size * (b.fee * a.size) + a.size * (b.fee * c.size) - a.size * (c.fee * b.size);
      b.size * (a.fee * c.size) - b.size * (c.fee * a.size);
      b.size * Excess(a, c);
    }
  }

  lemma SignOfProduct(x: int, y: int)
    requires x > 0
    ensures x * y > 0 <==> y > 0
    ensures x * y < 0 <==> y < 0
  {
  }

  lemma NonNegProduct(x: int, y: int)
    requires x >= 0 && y >= 0
    ensures x * y >= 0
  {
  }

  /** `a` not above `b` and `b` not above `c` gives `a` not above `c`. */
  lemma NotHigherTrans(a: FeeFrac, b: FeeFrac, c: FeeFrac)
    requires a.size >= 0 && b.size > 0 && c.size >= 0
    requires Excess(a, b) <= 0 && Excess(b, c) <= 0
    ensures Excess(a, c) <= 0
    ensures Excess(a, b) < 0 && c.size > 0 ==> Excess(a, c) < 0
    ensures Excess(b, c) < 0 && a.size > 0 ==> Excess(a, c) < 0
  {
    ExcessChain(a, b, c);
    NonNegProduct(c.size, -Excess(a, b));
    NonNegProduct(a.size, -Excess(b, c));
    if Excess(a, b) < 0 && c.size > 0 { SignOfProduct(c.size, Excess(a, b)); }
    if Excess(b, c) < 0 && a.size > 0 { SignOfProduct(a.size, Excess(b, c)); }
    SignOfProduct(b.size, Excess(a, c));
  }

  /** A smaller set of no higher feerate weighs no more, against any reference the larger set
      reaches. */
  lemma ExcessOfPart(a: FeeFrac, b: FeeFrac, r: FeeFrac)
    requires 0 <= a.size <= b.size && b.size > 0 && r.size > 0
    requires Excess(a, b) <= 0
    requires Excess(b, r) >= 0
    ensures Excess(a, r) <= Excess(b, r)
  {
    ExcessChain(a, b, r);
    NonNegProduct(r.size, -Excess(a, b));
    // b.size * Excess(a, r) <= a.size * Excess(b, r) <= b.size * Excess(b, r)
    NonNegProduct(b.size - a.size, Excess(b, r));
    assert (b.size - a.size) * Excess(b, r) == b.size * Excess(b, r) - a.size * Excess(b, r);
    assert b.size * (Excess(b, r) - Excess(a, r)) == b.size * Excess(b, r) - b.size * Excess(a, r);
    SignOfProduct(b.size, Excess(b, r) - Excess(a, r));
  }

  /** `>` is a strict total order on non-empty fee fractions, as the source's `<=>` promises. */
  lemma BetterTrans(a: FeeFrac, b: FeeFrac, c: FeeFrac)
    requires a.size > 0 && b.size > 0 && c.size > 0
    requires AtLeast(a, b) && AtLeast(b, c)
    ensures AtLeast(a, c)
    ensures Better(a, b) || Better(b, c) ==> Better(a, c)
  {
    NotHigherTrans(c, b, a);
  }

  lemma BetterTotal(a: FeeFrac, b: FeeFrac)
    requires a.size > 0 && b.size > 0
    ensures Better(a, b) <==> !AtLeast(b, a)
    ensures AtLeast(a, b) && AtLeast(b, a) ==> a == b
  {
    if AtLeast(a, b) && AtLeast(b, a) {
      assert a.fee * a.size == b.fee * a.size;
      assert (a.fee - b.fee) * a.size == 0;
      SignOfProduct(a.size, a.fee - b.fee);
    }
  }
}
