/** Feerate diagrams, and the height of an order above lines of a given feerate.

  The diagram of a linearization starts at (0, 0), goes through the cumulative size and fee of
  each chunk in turn, and stays level after the last one. Two linearizations of one graph are
  compared point by point. `DiagramByPeaks` turns that into a statement about prefixes: for
  every reference feerate r, how far some prefix rises above the line through the origin with
  slope r. */
module Diagrams {
  import opened FeeFracs
  import opened Graphs

  function Max(a: int, b: int): int {
    if a < b then b else a
  }

  /** How far the best prefix of `s` rises above the line of feerate `r`. */
  ghost function Peak(g: Graph, r: FeeFrac, s: seq<nat>): int {
    if s == [] then 0 else Max(0, Excess(g.FeeRate(s[0]), r) + Peak(g, r, s[1..]))
  }

  /** The same for a sequence of fee fractions, such as the chunks of a linearization. */
  ghost function PeakOf(r: FeeFrac, rates: seq<FeeFrac>): int {
    if rates == [] then 0 else Max(0, Excess(rates[0], r) + PeakOf(r, rates[1..]))
  }

  /** Fee at size `x` on the segment from the origin to chunk `c`. */
  ghost function Chord(c: FeeFrac, x: real): real
    requires c.size != 0
  {
    c.fee as real * x / c.size as real
  }

  /** Fee at size `x` of the diagram through the cumulative points of `rates`. */
  ghost function HeightAt(rates: seq<FeeFrac>, x: real): real
    requires PositiveSizes(rates)
  {
    if rates == [] then 0.0
    else if x < rates[0].size as real then Chord(rates[0], x)
    else rates[0].fee as real + HeightAt(rates[1..], x - rates[0].size as real)
  }

  ghost predicate PositiveSizes(rates: seq<FeeFrac>) {
    forall i :: 0 <= i < |rates| ==> rates[i].size > 0
  }

  /** Feerates never go up from one chunk to the next. */
  ghost predicate Concave(rates: seq<FeeFrac>) {
    forall i, j :: 0 <= i < j < |rates| ==> Excess(rates[j], rates[i]) <= 0
  }

  function Total(rates: seq<FeeFrac>): FeeFrac {
    if rates == [] then FeeFrac(0, 0) else rates[0].Plus(Total(rates[1..]))
  }

  lemma PeakNonNeg(g: Graph, r: FeeFrac, s: seq<nat>)
    ensures Peak(g, r, s) >= 0
  {
  }

  lemma {:induction false} PeakConcat(g: Graph, r: FeeFrac, a: seq<nat>, b: seq<nat>)
    ensures Peak(g, r, a + b) == Max(Peak(g, r, a), Excess(g.SeqRate(a), r) + Peak(g, r, b))
  {
    if a == [] {
      assert a + b == b;
      PeakNonNeg(g, r, b);
    } else {
      assert (a + b)[1..] == a[1..] + b;
      PeakConcat(g, r, a[1..], b);
      ExcessPlus(g.FeeRate(a[0]), g.SeqRate(a[1..]), r);
    }
  }

  /** Every prefix stays below the peak, and some prefix reaches it. */
  lemma PeakBounds(g: Graph, r: FeeFrac, s: seq<nat>, k: nat)
    requires k <= |s|
    ensures Excess(g.SeqRate(s[..k]), r) <= Peak(g, r, s)
  {
    assert s == s[..k] + s[k..];
    PeakConcat(g, r, s[..k], s[k..]);
    PeakNonNeg(g, r, s[k..]);
  }

  lemma {:induction false} PeakReached(g: Graph, r: FeeFrac, s: seq<nat>) returns (k: nat)
    ensures k <= |s| && Excess(g.SeqRate(s[..k]), r) == Peak(g, r, s)
  {
    k := 0;
    if s != [] && Peak(g, r, s) > 0 {
      var k' := PeakReached(g, r, s[1..]);
      k := k' + 1;
      assert s[..k] == [s[0]] + s[1..][..k'];
      assert s[..k][1..] == s[1..][..k'];
      ExcessPlus(g.FeeRate(s[0]), g.SeqRate(s[1..][..k']), r);
    }
  }

  lemma PeakOfNonNeg(r: FeeFrac, rates: seq<FeeFrac>)
    ensures PeakOf(r, rates) >= 0
  {
  }

  /** When no chunk is above `r`, no cumulative point is. */
  lemma {:induction false} PeakOfLow(r: FeeFrac, rates: seq<FeeFrac>)
    requires forall i :: 0 <= i < |rates| ==> Excess(rates[i], r) <= 0
    ensures PeakOf(r, rates) == 0
  {
    if rates != [] {
      assert forall i :: 0 <= i < |rates| - 1 ==> rates[1..][i] == rates[i + 1];
      PeakOfLow(r, rates[1..]);
    }
  }

  // ---------- From peaks to diagrams ----------

  /** The segment of the diagram that covers size `x`. */
  lemma {:induction false} Locate(rates: seq<FeeFrac>, x: real) returns (i: nat)
    requires PositiveSizes(rates) && 0.0 <= x < Total(rates).size as real
    ensures i < |rates|
    ensures var p := Total(rates[..i]);
            && 0.0 <= x - p.size as real < rates[i].size as real
            && HeightAt(rates, x) == p.fee as real + Chord(rates[i], x - p.size as real)
  {
    var c := rates[0];
    if x < c.size as real {
      i := 0;
    } else {
      var k := Locate(rates[1..], x - c.size as real);
      i := k + 1;
      assert rates[..i][1..] == rates[1..][..k];
      assert rates[1..][k] == rates[i];
      assert (x - c.size as real) - Total(rates[1..][..k]).size as real == x - Total(rates[..i]).size as real;
    }
  }

  lemma {:induction false} HeightAfterEnd(rates: seq<FeeFrac>, x: real)
    requires PositiveSizes(rates)
    requires x >= Total(rates).size as real
    ensures HeightAt(rates, x) == Total(rates).fee as real
  {
    if rates != [] {
      TotalSize(rates[1..]);
      HeightAfterEnd(rates[1..], x - rates[0].size as real);
    }
  }

  lemma TotalSize(rates: seq<FeeFrac>)
    requires PositiveSizes(rates)
    ensures Total(rates).size >= 0
  {
  }

  lemma {:induction false} TotalConcat(a: seq<FeeFrac>, b: seq<FeeFrac>)
    ensures Total(a + b) == Total(a).Plus(Total(b))
  {
    if a == [] {
      assert a + b == b;
    } else {
      assert (a + b)[1..] == a[1..] + b;
      TotalConcat(a[1..], b);
    }
  }

  lemma TotalPrefix(rates: seq<FeeFrac>, i: nat)
    requires i < |rates|
    ensures Total(rates[..i + 1]) == Total(rates[..i]).Plus(rates[i])
  {
    assert rates[..i + 1] == rates[..i] + [rates[i]];
    TotalConcat(rates[..i], [rates[i]]);
    assert Total([rates[i]]) == rates[i];
  }

  /** No cumulative point is above the peak. */
  lemma {:induction false} PeakOfBounds(r: FeeFrac, rates: seq<FeeFrac>, i: nat)
    requires i <= |rates|
    ensures Excess(Total(rates[..i]), r) <= PeakOf(r, rates)
  {
    if i == 0 {
      PeakOfNonNeg(r, rates);
    } else {
      PeakOfBounds(r, rates[1..], i - 1);
      assert rates[..i][1..] == rates[1..][..i - 1];
      ExcessPlus(rates[0], Total(rates[1..][..i - 1]), r);
    }
  }

  /** In a concave diagram, chunk `i` starts at the peak over its own feerate. */
  lemma {:induction false} PeakOfChunk(rates: seq<FeeFrac>, i: nat)
    requires i < |rates| && Concave(rates)
    ensures PeakOf(rates[i], rates) == Excess(Total(rates[..i]), rates[i])
  {
    if i == 0 {
      PeakOfLow(rates[0], rates);
    } else {
      var rest := rates[1..];
      forall j, k | 0 <= j < k < |rest| ensures Excess(rest[k], rest[j]) <= 0 {
        assert Excess(rates[k + 1], rates[j + 1]) <= 0;
      }
      PeakOfChunk(rest, i - 1);
      PeakOfNonNeg(rates[i], rest);
      assert Excess(rates[i], rates[0]) <= 0;
      assert rates[..i][1..] == rest[..i - 1];
      ExcessPlus(rates[0], Total(rest[..i - 1]), rates[i]);
    }
  }

  /** A point of segment `c` from `p` is above a point of segment `d` from `q` at the same size,
      when both ends of the latter are below the line along the former. */
  lemma SegmentsCompare(p: FeeFrac, c: FeeFrac, q: FeeFrac, d: FeeFrac, x: real)
    requires c.size > 0 && d.size > 0
    requires 0.0 <= x - q.size as real < d.size as real
    requires Excess(q, c) <= Excess(p, c) && Excess(q.Plus(d), c) <= Excess(p, c)
    ensures p.fee as real + Chord(c, x - p.size as real) >= q.fee as real + Chord(d, x - q.size as real)
  {
    AlongOwnLine(p, c, x);
    var t := AlongOtherLine(q, d, c, x);
    ExcessPlus(q, d, c);
    LineCompare(c.size as real, t, Excess(p, c) as real, Excess(q, c) as real, Excess(d, c) as real,
                c.fee as real * x,
                p.fee as real + Chord(c, x - p.size as real), q.fee as real + Chord(d, x - q.size as real));
  }

  lemma LineCompare(k: real, t: real, ep: real, eq: real, ed: real, line: real, y: real, z: real)
    requires k > 0.0 && 0.0 <= t < 1.0
    requires eq <= ep && eq + ed <= ep
    requires k * y == ep + line && k * z == eq + t * ed + line
    ensures y >= z
  {
    Mixed(t, eq, ed, ep);
    CancelFactor(k, y, z);
  }

  lemma AlongOwnLine(p: FeeFrac, c: FeeFrac, x: real)
    requires c.size > 0
    ensures c.size as real * (p.fee as real + Chord(c, x - p.size as real)) ==
            Excess(p, c) as real + c.fee as real * x
  {
    var u := x - p.size as real;
    assert c.size as real * Chord(c, u) == c.fee as real * u;
    assert c.fee as real * u == c.fee as real * x - c.fee as real * p.size as real;
    assert Excess(p, c) as real == p.fee as real * c.size as real - c.fee as real * p.size as real;
  }

  lemma AlongOtherLine(q: FeeFrac, d: FeeFrac, c: FeeFrac, x: real) returns (t: real)
    requires d.size > 0 && 0.0 <= x - q.size as real < d.size as real
    ensures 0.0 <= t < 1.0
    ensures c.size as real * (q.fee as real + Chord(d, x - q.size as real)) ==
            Excess(q, c) as real + t * Excess(d, c) as real + c.fee as real * x
  {
    t := Fraction(d, x - q.size as real);
    assert Excess(q, c) as real == q.fee as real * c.size as real - c.fee as real * q.size as real;
    assert Excess(d, c) as real == d.fee as real * c.size as real - c.fee as real * d.size as real;
    Expand(c.size as real, c.fee as real, d.size as real, d.fee as real, q.size as real, q.fee as real, t);
  }

  lemma Fraction(d: FeeFrac, u: real) returns (t: real)
    requires d.size > 0 && 0.0 <= u < d.size as real
    ensures 0.0 <= t < 1.0 && u == t * d.size as real && Chord(d, u) == d.fee as real * t
  {
    t := u / d.size as real;
  }

  lemma Expand(cs: real, cf: real, ds: real, df: real, qs: real, qf: real, t: real)
    ensures cs * (qf + df * t) == (qf * cs - cf * qs) + t * (df * cs - cf * ds) + cf * (qs + t * ds)
  {
  }

  lemma Mixed(t: real, a: real, b: real, top: real)
    requires 0.0 <= t < 1.0 && a <= top && a + b <= top
    ensures a + t * b <= top
  {
    if b <= 0.0 {
      NonNegativeProduct(t, -b);
    } else {
      NonNegativeProduct(1.0 - t, b);
    }
  }

  lemma NonNegativeProduct(x: real, y: real)
    requires x >= 0.0 && y >= 0.0
    ensures x * y >= 0.0
  {
  }

  lemma PositiveProduct(x: real, y: real)
    requires x > 0.0 && y > 0.0
    ensures x * y > 0.0
  {
  }

  lemma CancelFactor(k: real, a: real, b: real)
    requires k > 0.0 && k * a >= k * b
    ensures a >= b
  {
    if a < b {
      PositiveProduct(k, b - a);
    }
  }

  ghost predicate PeaksAtLeast(a: seq<FeeFrac>, b: seq<FeeFrac>) {
    forall r: FeeFrac :: r.size > 0 ==> PeakOf(r, a) >= PeakOf(r, b)
  }

  ghost predicate HeightsAtLeast(a: seq<FeeFrac>, b: seq<FeeFrac>)
    requires PositiveSizes(a) && PositiveSizes(b)
  {
    forall x: real :: x >= 0.0 ==> HeightAt(a, x) >= HeightAt(b, x)
  }

  /** Both ends of any chunk of `b` are below the line along any chunk of `a`. */
  lemma ChunkEndsBelow(a: seq<FeeFrac>, b: seq<FeeFrac>, i: nat, j: nat)
    requires PositiveSizes(a) && Concave(a) && PeaksAtLeast(a, b)
    requires i < |a| && j < |b|
    ensures Excess(Total(b[..j]), a[i]) <= Excess(Total(a[..i]), a[i])
    ensures Excess(Total(b[..j]).Plus(b[j]), a[i]) <= Excess(Total(a[..i]), a[i])
  {
    PeakOfChunk(a, i);
    PeakOfBounds(a[i], b, j);
    PeakOfBounds(a[i], b, j + 1);
    TotalPrefix(b, j);
  }

  lemma SegmentPointsCompare(a: seq<FeeFrac>, b: seq<FeeFrac>, i: nat, j: nat, x: real, y: real, z: real)
    requires PositiveSizes(a) && PositiveSizes(b) && Concave(a) && PeaksAtLeast(a, b)
    requires i < |a| && j < |b|
    requires 0.0 <= x - Total(b[..j]).size as real < b[j].size as real
    requires y == Total(a[..i]).fee as real + Chord(a[i], x - Total(a[..i]).size as real)
    requires z == Total(b[..j]).fee as real + Chord(b[j], x - Total(b[..j]).size as real)
    ensures y >= z
  {
    ChunkEndsBelow(a, b, i, j);
    SegmentsCompare(Total(a[..i]), a[i], Total(b[..j]), b[j], x);
  }

  lemma PointsCompare(a: seq<FeeFrac>, b: seq<FeeFrac>, x: real)
    requires PositiveSizes(a) && PositiveSizes(b) && Concave(a)
    requires Total(a).size == Total(b).size && PeaksAtLeast(a, b)
    requires 0.0 <= x < Total(a).size as real
    ensures HeightAt(a, x) >= HeightAt(b, x)
  {
    var i := Locate(a, x);
    var j := Locate(b, x);
    SegmentPointsCompare(a, b, i, j, x, HeightAt(a, x), HeightAt(b, x));
  }

  /** Between diagrams that end at the same size, the first no lower, higher peaks mean a diagram
      that is nowhere lower. */
  lemma PeaksGiveHeights(a: seq<FeeFrac>, b: seq<FeeFrac>)
    requires PositiveSizes(a) && PositiveSizes(b) && Concave(a)
    requires Total(a).size == Total(b).size && Total(a).fee >= Total(b).fee
    requires PeaksAtLeast(a, b)
    ensures HeightsAtLeast(a, b)
  {
    forall x: real | x >= 0.0 ensures HeightAt(a, x) >= HeightAt(b, x) {
      if x >= Total(a).size as real {
        HeightAfterEnd(a, x);
        HeightAfterEnd(b, x);
      } else {
        PointsCompare(a, b, x);
      }
    }
  }

  // ---------- Diagrams are concave ----------

  /** A point under the line along chunk `c` from `p`. */
  lemma PointUnderLine(p: FeeFrac, c: FeeFrac, q: FeeFrac)
    requires c.size > 0 && Excess(q, c) <= Excess(p, c)
    ensures p.fee as real + Chord(c, q.size as real - p.size as real) >= q.fee as real
  {
    var y := p.fee as real + Chord(c, q.size as real - p.size as real);
    AlongOwnLine(p, c, q.size as real);
    assert Excess(q, c) as real == q.fee as real * c.size as real - c.fee as real * q.size as real;
    CancelFactor(c.size as real, y, q.fee as real);
  }

  /** The line along chunk `i`. */
  ghost function LineAt(rates: seq<FeeFrac>, i: nat, x: real): real
    requires i < |rates| && rates[i].size != 0
  {
    Total(rates[..i]).fee as real + Chord(rates[i], x - Total(rates[..i]).size as real)
  }

  lemma EndUnderLine(rates: seq<FeeFrac>, i: nat)
    requires PositiveSizes(rates) && Concave(rates) && i < |rates|
    ensures Total(rates).fee as real <= LineAt(rates, i, Total(rates).size as real)
  {
    PeakOfBounds(rates[i], rates, |rates|);
    assert rates[..|rates|] == rates;
    PeakOfChunk(rates, i);
    PointUnderLine(Total(rates[..i]), rates[i], Total(rates));
  }

  /** Up to its end a diagram is under the line along each of its chunks. */
  lemma UnderLine(rates: seq<FeeFrac>, i: nat, x: real)
    requires PositiveSizes(rates) && Concave(rates) && i < |rates| && 0.0 <= x <= Total(rates).size as real
    ensures HeightAt(rates, x) <= LineAt(rates, i, x)
  {
    if x == Total(rates).size as real {
      HeightAfterEnd(rates, x);
      EndUnderLine(rates, i);
    } else {
      var j := Locate(rates, x);
      SegmentPointsCompare(rates, rates, i, j, x, LineAt(rates, i, x), HeightAt(rates, x));
    }
  }

  /** A point on a line is not below the chord between points under the line. */
  lemma OnLine(k: real, e: real, f: real, x: real, y: real, z: real, lx: real, ly: real, lz: real, fx: real, fz: real)
    requires k > 0.0 && x < y < z && fx <= lx && fz <= lz
    requires k * lx == e + f * x && k * ly == e + f * y && k * lz == e + f * z
    ensures ly * (z - x) >= fx * (z - y) + fz * (y - x)
  {
    NonNegativeProduct(lx - fx, z - y);
    NonNegativeProduct(lz - fz, y - x);
    var a, b := ly * (z - x), lx * (z - y) + lz * (y - x);
    assert k * a == (k * ly) * (z - x) == (e + f * y) * (z - x);
    assert k * b == (k * lx) * (z - y) + (k * lz) * (y - x);
    assert (e + f * x) * (z - y) + (e + f * z) * (y - x) == (e + f * y) * (z - x);
    CancelFactor(k, a, b);
  }

  /** A diagram through chunks of non-increasing feerate is a concave function of size. */
  lemma HeightsConcave(rates: seq<FeeFrac>, x: real, y: real, z: real)
    requires PositiveSizes(rates) && Concave(rates) && 0.0 <= x < y < z <= Total(rates).size as real
    ensures OverChord(x, y, z, HeightAt(rates, x), HeightAt(rates, y), HeightAt(rates, z))
  {
    var i := Locate(rates, y);
    UnderLine(rates, i, x);
    UnderLine(rates, i, z);
    var fx, fy, fz := HeightAt(rates, x), HeightAt(rates, y), HeightAt(rates, z);
    assert fy == LineAt(rates, i, y);
    LineThrough(rates, i, x, y, z, fx, fy, fz);
  }

  /** At `y` the value `fy` is not below the chord from `fx` at `x` to `fz` at `z`. */
  ghost predicate OverChord(x: real, y: real, z: real, fx: real, fy: real, fz: real) {
    fy * (z - x) >= fx * (z - y) + fz * (y - x)
  }

  lemma LineThrough(rates: seq<FeeFrac>, i: nat, x: real, y: real, z: real, fx: real, fy: real, fz: real)
    requires i < |rates| && rates[i].size > 0 && x < y < z
    requires fx <= LineAt(rates, i, x) && fy == LineAt(rates, i, y) && fz <= LineAt(rates, i, z)
    ensures OverChord(x, y, z, fx, fy, fz)
  {
    var p, c := Total(rates[..i]), rates[i];
    AlongOwnLine(p, c, x);
    AlongOwnLine(p, c, y);
    AlongOwnLine(p, c, z);
    OnLine(c.size as real, Excess(p, c) as real, c.fee as real, x, y, z,
           LineAt(rates, i, x), LineAt(rates, i, y), LineAt(rates, i, z), fx, fz);
  }
}
