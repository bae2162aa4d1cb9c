/** ChunkLinearization, and what the chunks mean: the diagram through them is the least concave
    function that is nowhere below the cumulative fees and sizes of the linearization. */
module ChunkLinearizations {
  import opened FeeFracs
  import opened Graphs
  import opened Diagrams
  import opened Chunking
  import opened Improvement

  lemma ChunksStep(g: Graph, lin: seq<nat>, n: nat)
    requires n < |lin|
    ensures Chunks(g, lin[..n + 1]) == Absorb(g, Chunks(g, lin[..n]), [lin[n]])
  {
    assert lin[..n + 1][..n] == lin[..n];
  }

  /** `rates` are the feerates of the segments. */
  ghost predicate Measures(g: Graph, rates: seq<FeeFrac>, segs: seq<seq<nat>>) {
    |rates| == |segs| && forall i :: 0 <= i < |segs| ==> rates[i] == g.SeqRate(segs[i])
  }

  /** Midway through the inner loop: absorbing `c` into `stack` still gives `target`. */
  ghost predicate Absorbing(g: Graph, target: seq<seq<nat>>, rates: seq<FeeFrac>, newChunk: FeeFrac,
                            stack: seq<seq<nat>>, c: seq<nat>)
  {
    Measures(g, rates, stack) && newChunk == g.SeqRate(c) && Absorb(g, stack, c) == target
  }

  lemma AbsorbingStep(g: Graph, target: seq<seq<nat>>, rates: seq<FeeFrac>, newChunk: FeeFrac,
                      stack: seq<seq<nat>>, c: seq<nat>)
    requires Absorbing(g, target, rates, newChunk, stack, c)
    requires rates != [] && Higher(newChunk, rates[|rates| - 1])
    ensures Absorbing(g, target, rates[..|rates| - 1], newChunk.Plus(rates[|rates| - 1]),
                      stack[..|stack| - 1], stack[|stack| - 1] + c)
  {
    SeqRateConcat(g, stack[|stack| - 1], c);
  }

  lemma AbsorbingDone(g: Graph, target: seq<seq<nat>>, rates: seq<FeeFrac>, newChunk: FeeFrac,
                      stack: seq<seq<nat>>, c: seq<nat>)
    requires Absorbing(g, target, rates, newChunk, stack, c)
    requires rates == [] || !Higher(newChunk, rates[|rates| - 1])
    ensures Measures(g, rates + [newChunk], target)
  {
  }

  lemma SingletonRate(g: Graph, i: nat)
    ensures g.SeqRate([i]) == g.FeeRate(i)
  {
    assert [i][1..] == [];
  }

  /** Compute the feerates of the chunks of a linearization. */
  method ChunkLinearization(g: Graph, linearization: seq<nat>) returns (ret: seq<FeeFrac>)
    ensures ret == ChunkRates(g, linearization)
  {
    ret := [];
    for n := 0 to |linearization|
      invariant Measures(g, ret, Chunks(g, linearization[..n]))
    {
      // A chunk for this transaction alone, which may grow.
      var newChunk := g.FeeRate(linearization[n]);
      ghost var target := Chunks(g, linearization[..n + 1]);
      ghost var stack, c := Chunks(g, linearization[..n]), [linearization[n]];
      SingletonRate(g, linearization[n]);
      ChunksStep(g, linearization, n);
      // It swallows the chunks before it that it beats.
      while ret != [] && Higher(newChunk, ret[|ret| - 1])
        invariant Absorbing(g, target, ret, newChunk, stack, c)
        decreases |ret|
      {
        AbsorbingStep(g, target, ret, newChunk, stack, c);
        newChunk := newChunk.Plus(ret[|ret| - 1]);
        ret := ret[..|ret| - 1];
        stack, c := stack[..|stack| - 1], stack[|stack| - 1] + c;
      }
      AbsorbingDone(g, target, ret, newChunk, stack, c);
      ret := ret + [newChunk];
    }
    assert linearization[..|linearization|] == linearization;
  }

  /** At `y`, `f` is not below the chord between its values at `x` and `z`. */
  ghost predicate AboveChord(f: real -> real, x: real, y: real, z: real) {
    OverChord(x, y, z, f(x), f(y), f(z))
  }

  /** `f` is concave between 0 and `end`. */
  ghost predicate ConcaveUpTo(f: real -> real, end: real) {
    forall x, y, z :: 0.0 <= x < y < z <= end ==> AboveChord(f, x, y, z)
  }

  ghost predicate AbovePoint(f: real -> real, p: FeeFrac) {
    f(p.size as real) >= p.fee as real
  }

  /** `f` is nowhere below a cumulative size and fee of the linearization. */
  ghost predicate Majorizes(g: Graph, f: real -> real, lin: seq<nat>) {
    forall k :: 0 <= k <= |lin| ==> AbovePoint(f, g.SeqRate(lin[..k]))
  }

  lemma RatesPrefix(g: Graph, segs: seq<seq<nat>>, i: nat)
    requires i <= |segs|
    ensures Total(Rates(g, segs)[..i]) == g.SeqRate(Flatten(segs[..i]))
  {
    assert Rates(g, segs)[..i] == Rates(g, segs[..i]);
    TotalOfRates(g, segs[..i]);
  }

  /** The start of chunk `i` is a cumulative point of the linearization. */
  lemma ChunkStart(g: Graph, lin: seq<nat>, i: nat) returns (k: nat)
    requires Known(g, lin) && i <= |ChunkRates(g, lin)|
    ensures k <= |lin| && Total(ChunkRates(g, lin)[..i]) == g.SeqRate(lin[..k])
  {
    var segs := Chunks(g, lin);
    ChunksIsChunking(g, lin);
    RatesPrefix(g, segs, i);
    PrefixOfFlatten(segs, i);
    k := |Flatten(segs[..i])|;
    assert lin[..k] == Flatten(segs[..i]);
  }

  /** No cumulative point of the linearization is above the diagram through its chunks. */
  lemma DiagramMajorizes(g: Graph, lin: seq<nat>, k: nat)
    requires g.WellFormed() && Known(g, lin) && k <= |lin|
    ensures Diagram(g, lin, g.SeqRate(lin[..k]).size as real) >= g.SeqRate(lin[..k]).fee as real
  {
    var rates, q := ChunkRates(g, lin), g.SeqRate(lin[..k]);
    ChunkRatesShape(g, lin);
    assert lin == lin[..k] + lin[k..];
    KnownSplit(g, lin[..k], lin[k..]);
    SeqRateConcat(g, lin[..k], lin[k..]);
    SeqRateSize(g, lin[..k]);
    SeqRateSize(g, lin[k..]);
    if k == |lin| {
      assert lin[..k] == lin;
      HeightAfterEnd(rates, q.size as real);
    } else {
      var i := Locate(rates, q.size as real);
      PointUnderChunk(g, lin, k, i);
    }
  }

  lemma PointUnderChunk(g: Graph, lin: seq<nat>, k: nat, i: nat)
    requires Known(g, lin) && k <= |lin| && i < |ChunkRates(g, lin)|
    requires ChunkRates(g, lin)[i].size > 0
    ensures var p, c, q := Total(ChunkRates(g, lin)[..i]), ChunkRates(g, lin)[i], g.SeqRate(lin[..k]);
            p.fee as real + Chord(c, q.size as real - p.size as real) >= q.fee as real
  {
    var rates := ChunkRates(g, lin);
    ChunkRatesShape(g, lin);
    PeakBounds(g, rates[i], lin, k);
    PeakOfChunkRates(g, rates[i], lin);
    PeakOfChunk(rates, i);
    PointUnderLine(Total(rates[..i]), rates[i], g.SeqRate(lin[..k]));
  }

  /** On one chunk, a concave function that is high enough at both ends is high enough in between. */
  lemma ChordUnderConcave(f: real -> real, end: real, p: FeeFrac, c: FeeFrac, x: real)
    requires ConcaveUpTo(f, end)
    requires c.size > 0 && 0 <= p.size && p.size as real + c.size as real <= end
    requires AbovePoint(f, p) && AbovePoint(f, p.Plus(c))
    requires 0.0 <= x - p.size as real < c.size as real
    ensures f(x) >= p.fee as real + Chord(c, x - p.size as real)
  {
    var x0, x1 := p.size as real, p.size as real + c.size as real;
    if x > x0 {
      assert AboveChord(f, x0, x, x1);
      assert p.Plus(c).size as real == x1 && p.Plus(c).fee as real == p.fee as real + c.fee as real;
      assert x1 - x0 == c.size as real && x1 - x == c.size as real - (x - x0);
      assert f(x) * c.size as real >= f(x0) * (c.size as real - (x - x0)) + f(x1) * (x - x0);
      BetweenEnds(f(x), f(x0), f(x1), x - x0, c.size as real, p.fee as real, c.fee as real);
    }
  }

  lemma BetweenEnds(fx: real, f0: real, f1: real, u: real, s: real, pf: real, cf: real)
    requires 0.0 <= u <= s && s > 0.0
    requires f0 >= pf && f1 >= pf + cf
    requires fx * s >= f0 * (s - u) + f1 * u
    ensures fx >= pf + cf * u / s
  {
    NonNegativeProduct(f0 - pf, s - u);
    NonNegativeProduct(f1 - (pf + cf), u);
    var h := pf + cf * u / s;
    assert s * h == s * pf + cf * u;
    CancelFactor(s, fx, h);
  }

  /** The diagram through the chunks as a function of size. */
  ghost function DiagramOf(g: Graph, lin: seq<nat>): real -> real
    requires Known(g, lin)
  {
    x => Diagram(g, lin, x)
  }

  lemma DiagramAboveChord(g: Graph, lin: seq<nat>, x: real, y: real, z: real)
    requires Known(g, lin) && 0.0 <= x < y < z <= g.SeqRate(lin).size as real
    ensures AboveChord(DiagramOf(g, lin), x, y, z)
  {
    ChunkRatesShape(g, lin);
    HeightsConcave(ChunkRates(g, lin), x, y, z);
    var f := DiagramOf(g, lin);
    assert f(x) == Diagram(g, lin, x) && f(y) == Diagram(g, lin, y) && f(z) == Diagram(g, lin, z);
  }

  /** The diagram through the chunks is a concave function, and no cumulative point is above it. */
  lemma ConcaveMajorant(g: Graph, lin: seq<nat>)
    requires g.WellFormed() && Known(g, lin)
    ensures ConcaveUpTo(DiagramOf(g, lin), g.SeqRate(lin).size as real)
    ensures Majorizes(g, DiagramOf(g, lin), lin)
  {
    var f := DiagramOf(g, lin);
    forall x, y, z | 0.0 <= x < y < z <= g.SeqRate(lin).size as real ensures AboveChord(f, x, y, z) {
      DiagramAboveChord(g, lin, x, y, z);
    }
    forall k | 0 <= k <= |lin| ensures AbovePoint(DiagramOf(g, lin), g.SeqRate(lin[..k])) {
      DiagramMajorizes(g, lin, k);
    }
  }

  /** Chunking computes the least concave majorant: the diagram through the chunks is concave, no
      cumulative point is above it, and every concave function with that property is at no size
      below it. */
  lemma LeastConcaveMajorant(g: Graph, lin: seq<nat>, f: real -> real, x: real)
    requires g.WellFormed() && Known(g, lin)
    requires 0.0 <= x <= g.SeqRate(lin).size as real
    requires ConcaveUpTo(f, g.SeqRate(lin).size as real) && Majorizes(g, f, lin)
    ensures ConcaveUpTo(DiagramOf(g, lin), g.SeqRate(lin).size as real) && Majorizes(g, DiagramOf(g, lin), lin)
    ensures f(x) >= Diagram(g, lin, x)
  {
    ConcaveMajorant(g, lin);
    NothingLower(g, lin, f, x);
  }

  lemma NothingLower(g: Graph, lin: seq<nat>, f: real -> real, x: real)
    requires g.WellFormed() && Known(g, lin)
    requires 0.0 <= x <= g.SeqRate(lin).size as real
    requires ConcaveUpTo(f, g.SeqRate(lin).size as real) && Majorizes(g, f, lin)
    ensures f(x) >= Diagram(g, lin, x)
  {
    var rates := ChunkRates(g, lin);
    ChunkRatesShape(g, lin);
    if x == g.SeqRate(lin).size as real {
      HeightAfterEnd(rates, x);
      EndMajorized(g, lin, f);
    } else {
      var i := Locate(rates, x);
      InsideChunk(g, lin, f, i, Total(rates[..i]), rates[i], x);
    }
  }

  lemma EndMajorized(g: Graph, lin: seq<nat>, f: real -> real)
    requires Majorizes(g, f, lin)
    ensures AbovePoint(f, g.SeqRate(lin))
  {
    assert lin[..|lin|] == lin;
  }

  lemma InsideChunk(g: Graph, lin: seq<nat>, f: real -> real, i: nat, p: FeeFrac, c: FeeFrac, x: real)
    requires Known(g, lin) && i < |ChunkRates(g, lin)|
    requires p == Total(ChunkRates(g, lin)[..i]) && c == ChunkRates(g, lin)[i] && c.size > 0
    requires ConcaveUpTo(f, g.SeqRate(lin).size as real) && Majorizes(g, f, lin)
    requires 0.0 <= x - p.size as real < c.size as real
    ensures f(x) >= p.fee as real + Chord(c, x - p.size as real)
  {
    ChunkEnds(g, lin, f, i, p, c);
    ChordUnderConcave(f, g.SeqRate(lin).size as real, p, c, x);
  }

  /** A majorizing function is high enough at both ends of every chunk. */
  lemma ChunkEnds(g: Graph, lin: seq<nat>, f: real -> real, i: nat, p: FeeFrac, c: FeeFrac)
    requires Known(g, lin) && Majorizes(g, f, lin) && i < |ChunkRates(g, lin)|
    requires p == Total(ChunkRates(g, lin)[..i]) && c == ChunkRates(g, lin)[i]
    ensures 0 <= p.size && p.size + c.size <= g.SeqRate(lin).size
    ensures AbovePoint(f, p) && AbovePoint(f, p.Plus(c))
  {
    TotalPrefix(ChunkRates(g, lin), i);
    ChunkStartMajorized(g, lin, f, i);
    ChunkStartMajorized(g, lin, f, i + 1);
  }

  lemma ChunkStartMajorized(g: Graph, lin: seq<nat>, f: real -> real, i: nat)
    requires Known(g, lin) && Majorizes(g, f, lin) && i <= |ChunkRates(g, lin)|
    ensures var p := Total(ChunkRates(g, lin)[..i]);
            && 0 <= p.size <= g.SeqRate(lin).size
            && AbovePoint(f, p)
  {
    var k := ChunkStart(g, lin, i);
    PrefixSize(g, lin, k);
  }

  lemma PrefixSize(g: Graph, lin: seq<nat>, k: nat)
    requires Known(g, lin) && k <= |lin|
    ensures 0 <= g.SeqRate(lin[..k]).size <= g.SeqRate(lin).size
  {
    assert lin == lin[..k] + lin[k..];
    KnownSplit(g, lin[..k], lin[k..]);
    SeqRateConcat(g, lin[..k], lin[k..]);
    SeqRateSize(g, lin[..k]);
    SeqRateSize(g, lin[k..]);
  }
}
