/** When is one linearization at least as good as another, and which rearrangements never make
    one worse. */
module Improvement {
  import opened FeeFracs
  import opened Positions
  import opened Graphs
  import opened Diagrams
  import opened Chunking

  /** The fees and sizes of the chunks of a linearization: what ChunkLinearization returns. */
  function ChunkRates(g: Graph, lin: seq<nat>): seq<FeeFrac> {
    Rates(g, Chunks(g, lin))
  }

  /** The feerate diagram of a linearization: the fee it reaches at size `x`. */
  ghost function Diagram(g: Graph, lin: seq<nat>, x: real): real
    requires Known(g, lin)
  {
    ChunkRatesShape(g, lin);
    HeightAt(ChunkRates(g, lin), x)
  }

  /** The feerate diagram of `a` is at no size below that of `b`. */
  ghost predicate NowhereBelow(g: Graph, a: seq<nat>, b: seq<nat>)
    requires Known(g, a) && Known(g, b)
  {
    forall x: real :: x >= 0.0 ==> Diagram(g, a, x) >= Diagram(g, b, x)
  }

  /** Over every feerate, some prefix of `a` rises as high as any prefix of `b`. */
  ghost predicate PeaksOver(g: Graph, a: seq<nat>, b: seq<nat>) {
    forall r: FeeFrac :: r.size > 0 ==> Peak(g, r, a) >= Peak(g, r, b)
  }

  lemma {:induction false} TotalOfRates(g: Graph, segs: seq<seq<nat>>)
    ensures Total(Rates(g, segs)) == g.SeqRate(Flatten(segs))
  {
    if segs != [] {
      assert Rates(g, segs)[1..] == Rates(g, segs[1..]);
      TotalOfRates(g, segs[1..]);
      SeqRateConcat(g, segs[0], Flatten(segs[1..]));
    }
  }

  lemma ChunkRatesShape(g: Graph, lin: seq<nat>)
    requires Known(g, lin)
    ensures PositiveSizes(ChunkRates(g, lin)) && Concave(ChunkRates(g, lin))
    ensures Total(ChunkRates(g, lin)) == g.SeqRate(lin)
  {
    ChunksIsChunking(g, lin);
    PositiveRates(g, Chunks(g, lin));
    TotalOfRates(g, Chunks(g, lin));
  }

  lemma PeakOfChunkRates(g: Graph, r: FeeFrac, lin: seq<nat>)
    requires Known(g, lin) && r.size > 0
    ensures Peak(g, r, lin) == PeakOf(r, ChunkRates(g, lin))
  {
    ChunksIsChunking(g, lin);
    PeakOfChunking(g, r, Chunks(g, lin));
  }

  /** The same of two orders of transactions with different fees. */
  lemma PeaksGiveDiagrams(g: Graph, a: seq<nat>, g': Graph, b: seq<nat>)
    requires Known(g, a) && Known(g', b)
    requires g.SeqRate(a).size == g'.SeqRate(b).size && g.SeqRate(a).fee >= g'.SeqRate(b).fee
    requires forall r: FeeFrac :: r.size > 0 ==> Peak(g, r, a) >= Peak(g', r, b)
    ensures forall x: real :: x >= 0.0 ==> Diagram(g, a, x) >= Diagram(g', b, x)
  {
    ChunkRatesShape(g, a);
    ChunkRatesShape(g', b);
    forall r: FeeFrac | r.size > 0 ensures PeakOf(r, ChunkRates(g, a)) >= PeakOf(r, ChunkRates(g', b)) {
      PeakOfChunkRates(g, r, a);
      PeakOfChunkRates(g', r, b);
      assert Peak(g, r, a) >= Peak(g', r, b);
    }
    PeaksGiveHeights(ChunkRates(g, a), ChunkRates(g', b));
    forall x: real | x >= 0.0 ensures Diagram(g, a, x) >= Diagram(g', b, x) {
      assert HeightAt(ChunkRates(g, a), x) >= HeightAt(ChunkRates(g', b), x);
    }
  }

  /** Higher peaks mean a diagram that is nowhere lower. */
  lemma PeaksGiveDiagram(g: Graph, a: seq<nat>, b: seq<nat>)
    requires Known(g, a) && Known(g, b) && g.SeqRate(a) == g.SeqRate(b)
    requires PeaksOver(g, a, b)
    ensures NowhereBelow(g, a, b)
  {
    PeaksGiveDiagrams(g, a, g, b);
  }

  // ---------- Moving a set to the front ----------

  /** The peak of a linearization is reached at the end of one of its chunks. */
  lemma {:induction false} PeakAtChunkEnd(g: Graph, r: FeeFrac, segs: seq<seq<nat>>) returns (i: nat)
    requires IsChunking(g, segs) && Known(g, Flatten(segs)) && r.size > 0
    ensures i <= |segs| && Peak(g, r, Flatten(segs)) == Excess(g.SeqRate(Flatten(segs[..i])), r)
  {
    i := 0;
    if segs != [] && Peak(g, r, Flatten(segs)) > 0 {
      var rest := segs[1..];
      KnownSplit(g, segs[0], Flatten(rest));
      ChunkingSuffix(g, segs, 1);
      PeakConcat(g, r, segs[0], Flatten(rest));
      RisingPeak(g, r, segs[0]);
      PeakNonNeg(g, r, Flatten(rest));
      var k := PeakAtChunkEnd(g, r, rest);
      i := k + 1;
      assert segs[..i] == [segs[0]] + rest[..k];
      assert segs[..i][1..] == rest[..k];
      SeqRateConcat(g, segs[0], Flatten(rest[..k]));
      ExcessPlus(g.SeqRate(segs[0]), g.SeqRate(Flatten(rest[..k])), r);
    }
  }

  /** The transactions of the first `i` chunks. */
  ghost function ChunkPrefix(segs: seq<seq<nat>>, i: nat): set<nat>
    requires i <= |segs|
  {
    Elements(Flatten(segs[..i]))
  }

  /** `s` is at least as good as the first chunk, and no part of it that lies in the first
      chunks is better than `s` itself. */
  ghost predicate Movable(g: Graph, lin: seq<nat>, s: set<nat>) {
    var segs := Chunks(g, lin);
    && (segs != [] ==> Excess(g.SeqRate(segs[0]), g.SetRate(s)) <= 0)
    && forall i :: 0 <= i <= |segs| ==> Excess(g.SetRate(s * ChunkPrefix(segs, i)), g.SetRate(s)) <= 0
  }

  lemma PrefixOfFlatten(segs: seq<seq<nat>>, i: nat)
    requires i <= |segs|
    ensures Flatten(segs) == Flatten(segs[..i]) + Flatten(segs[i..])
  {
    assert segs == segs[..i] + segs[i..];
    FlattenConcat(segs[..i], segs[i..]);
  }

  /** If the moved set does not reach feerate `r`, nothing of the old order did. */
  lemma LowPeak(g: Graph, r: FeeFrac, lin: seq<nat>, s: FeeFrac)
    requires Known(g, lin) && r.size > 0 && s.size > 0 && Excess(s, r) <= 0
    requires Chunks(g, lin) != [] ==> Excess(g.SeqRate(Chunks(g, lin)[0]), s) <= 0
    ensures Peak(g, r, lin) == 0
  {
    var rates := ChunkRates(g, lin);
    ChunkRatesShape(g, lin);
    PeakOfChunkRates(g, r, lin);
    forall i | 0 <= i < |rates| ensures Excess(rates[i], r) <= 0 {
      NotHigherTrans(rates[0], s, r);
      if i > 0 {
        assert Excess(rates[i], rates[0]) <= 0;
        NotHigherTrans(rates[i], rates[0], r);
      }
    }
    PeakOfLow(r, rates);
  }

  /** Taking `s` first and then what a prefix has beyond it. */
  lemma FrontedPrefix(g: Graph, order: seq<nat>, prefix: seq<nat>)
    requires Distinct(order) && Distinct(prefix)
    ensures var s, p := Elements(order), Elements(prefix);
      g.SeqRate(order + Restrict(prefix, p - s)) == g.SetRate(s).Plus(g.SetRate(p)).Minus(g.SetRate(p * s))
  {
    var s, p := Elements(order), Elements(prefix);
    var tail := Restrict(prefix, p - s);
    RestrictDistinct(prefix, p - s);
    assert p * (p - s) == p - s;
    SeqRateConcat(g, order, tail);
    SeqRateElements(g, order);
    SeqRateElements(g, tail);
    SetRateSplit(g, p, s);
  }

  /** The prefix of the new order made of `s` and a chunk prefix of the old order. */
  lemma FrontedPeak(g: Graph, r: FeeFrac, lin: seq<nat>, order: seq<nat>, k: nat)
    requires Distinct(lin) && Distinct(order) && k <= |lin|
    ensures Peak(g, r, order + Restrict(lin, Elements(lin) - Elements(order))) >=
            Excess(g.SetRate(Elements(order)), r) + Excess(g.SeqRate(lin[..k]), r)
            - Excess(g.SetRate(Elements(lin[..k]) * Elements(order)), r)
  {
    var s := Elements(order);
    var prefix, suffix := lin[..k], lin[k..];
    assert lin == prefix + suffix;
    DistinctSplit(prefix, suffix);
    ElementsConcat(prefix, suffix);
    var keep := Elements(lin) - s;
    RestrictConcat(prefix, suffix, keep);
    RestrictSame(prefix, keep, Elements(prefix) - s);
    var front := order + Restrict(prefix, keep);
    var whole := order + Restrict(lin, keep);
    assert whole[..|front|] == front;
    PeakBounds(g, r, whole, |front|);
    FrontedPrefix(g, order, prefix);
    SeqRateElements(g, prefix);
    var a, b, c := g.SetRate(s), g.SetRate(Elements(prefix)), g.SetRate(Elements(prefix) * s);
    ExcessPlus(a, b, r);
    ExcessMinus(a.Plus(b), c, r);
  }

  lemma HighPeak(g: Graph, r: FeeFrac, lin: seq<nat>, order: seq<nat>, i: nat)
    requires g.WellFormed() && Known(g, lin) && Distinct(lin) && Distinct(order)
    requires order != [] && Elements(order) <= Elements(lin) && Movable(g, lin, Elements(order))
    requires r.size > 0 && Excess(g.SetRate(Elements(order)), r) >= 0 && i <= |Chunks(g, lin)|
    ensures Peak(g, r, order + Restrict(lin, Elements(lin) - Elements(order))) >=
            Excess(g.SeqRate(Flatten(Chunks(g, lin)[..i])), r)
  {
    var segs := Chunks(g, lin);
    ChunksIsChunking(g, lin);
    PrefixOfFlatten(segs, i);
    var prefix := Flatten(segs[..i]);
    assert Elements(order) * ChunkPrefix(segs, i) == Elements(prefix) * Elements(order);
    HighPrefix(g, r, lin, order, prefix);
  }

  lemma HighPrefix(g: Graph, r: FeeFrac, lin: seq<nat>, order: seq<nat>, prefix: seq<nat>)
    requires g.WellFormed() && Known(g, lin) && Distinct(lin) && Distinct(order)
    requires order != [] && Elements(order) <= Elements(lin) && prefix <= lin
    requires Excess(g.SetRate(Elements(prefix) * Elements(order)), g.SetRate(Elements(order))) <= 0
    requires r.size > 0 && Excess(g.SetRate(Elements(order)), r) >= 0
    ensures Peak(g, r, order + Restrict(lin, Elements(lin) - Elements(order))) >= Excess(g.SeqRate(prefix), r)
  {
    assert lin[..|prefix|] == prefix;
    FrontedPeak(g, r, lin, order, |prefix|);
    assert order[0] in Elements(order);
    PartOfSet(g, r, Elements(order), Elements(prefix) * Elements(order));
  }

  lemma PartOfSet(g: Graph, r: FeeFrac, s: set<nat>, part: set<nat>)
    requires g.WellFormed() && g.Sized() && s <= g.used && s != {} && part <= s
    requires Excess(g.SetRate(part), g.SetRate(s)) <= 0
    requires r.size > 0 && Excess(g.SetRate(s), r) >= 0
    ensures Excess(g.SetRate(part), r) <= Excess(g.SetRate(s), r)
  {
    SetRateSize(g, s);
    SetRateMono(g, part, s);
    ExcessOfPart(g.SetRate(part), g.SetRate(s), r);
  }

  /** Moving a movable set to the front, in any order, lowers no point of the diagram. */
  lemma MoveToFrontPeak(g: Graph, r: FeeFrac, lin: seq<nat>, order: seq<nat>)
    requires g.WellFormed() && Known(g, lin) && Distinct(lin) && Distinct(order)
    requires order != [] && Elements(order) <= Elements(lin) && Movable(g, lin, Elements(order))
    requires r.size > 0
    ensures Peak(g, r, order + Restrict(lin, Elements(lin) - Elements(order))) >= Peak(g, r, lin)
  {
    var s := Elements(order);
    var whole := order + Restrict(lin, Elements(lin) - s);
    assert order[0] in s;
    SetRateSize(g, s);
    if Excess(g.SetRate(s), r) <= 0 {
      LowPeak(g, r, lin, g.SetRate(s));
      PeakNonNeg(g, r, whole);
    } else {
      ChunksIsChunking(g, lin);
      var i := PeakAtChunkEnd(g, r, Chunks(g, lin));
      HighPeak(g, r, lin, order, i);
    }
  }

  lemma MoveToFront(g: Graph, lin: seq<nat>, order: seq<nat>)
    requires g.WellFormed() && Known(g, lin) && Distinct(lin) && Distinct(order)
    requires order != [] && Elements(order) <= Elements(lin) && Movable(g, lin, Elements(order))
    ensures PeaksOver(g, order + Restrict(lin, Elements(lin) - Elements(order)), lin)
  {
    forall r: FeeFrac | r.size > 0
      ensures Peak(g, r, order + Restrict(lin, Elements(lin) - Elements(order))) >= Peak(g, r, lin)
    {
      MoveToFrontPeak(g, r, lin, order);
    }
  }

  /** Improving what follows a common start improves the whole. */
  lemma PeaksOverAfter(g: Graph, done: seq<nat>, a: seq<nat>, b: seq<nat>)
    requires PeaksOver(g, a, b)
    ensures PeaksOver(g, done + a, done + b)
  {
    forall r: FeeFrac | r.size > 0 ensures Peak(g, r, done + a) >= Peak(g, r, done + b) {
      PeakConcat(g, r, done, a);
      PeakConcat(g, r, done, b);
      assert Peak(g, r, a) >= Peak(g, r, b);
    }
  }

  lemma PeaksOverTrans(g: Graph, a: seq<nat>, b: seq<nat>, c: seq<nat>)
    requires PeaksOver(g, a, b) && PeaksOver(g, b, c)
    ensures PeaksOver(g, a, c)
  {
    forall r: FeeFrac | r.size > 0 ensures Peak(g, r, a) >= Peak(g, r, c) {
      assert Peak(g, r, a) >= Peak(g, r, b);
      assert Peak(g, r, b) >= Peak(g, r, c);
    }
  }
}
