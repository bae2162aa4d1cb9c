/** Splitting a linearization into chunks (ChunkLinearization and the chunking kept by
    LinearizationChunking). */
module Chunking {
  import opened FeeFracs
  import opened Positions
  import opened Graphs
  import opened Diagrams

  function Flatten(segs: seq<seq<nat>>): seq<nat> {
    if segs == [] then [] else segs[0] + Flatten(segs[1..])
  }

  function Rates(g: Graph, segs: seq<seq<nat>>): seq<FeeFrac> {
    seq(|segs|, i requires 0 <= i < |segs| => g.SeqRate(segs[i]))
  }

  /** Push `c` on a stack of chunks, absorbing the chunks on top that have a lower feerate. */
  function Absorb(g: Graph, stack: seq<seq<nat>>, c: seq<nat>): seq<seq<nat>> {
    if stack != [] && Higher(g.SeqRate(c), g.SeqRate(stack[|stack| - 1])) then
      Absorb(g, stack[..|stack| - 1], stack[|stack| - 1] + c)
    else
      stack + [c]
  }

  /** The chunks of a linearization, each with its transactions in order. */
  function Chunks(g: Graph, lin: seq<nat>): seq<seq<nat>> {
    if lin == [] then [] else Absorb(g, Chunks(g, lin[..|lin| - 1]), [lin[|lin| - 1]])
  }

  /** Every proper prefix has a strictly lower feerate than the whole. */
  ghost predicate Rising(g: Graph, c: seq<nat>) {
    && c != []
    && forall k :: 0 < k < |c| ==> Excess(g.SeqRate(c[..k]), g.SeqRate(c)) < 0
  }

  /** What makes a division of an order into segments its chunking. */
  ghost predicate IsChunking(g: Graph, segs: seq<seq<nat>>) {
    && (forall i :: 0 <= i < |segs| ==> Rising(g, segs[i]))
    && Concave(Rates(g, segs))
  }

  ghost predicate Known(g: Graph, s: seq<nat>) {
    g.Sized() && Elements(s) <= g.used
  }

  // ---------- Segments ----------

  lemma {:induction false} FlattenConcat(a: seq<seq<nat>>, b: seq<seq<nat>>)
    ensures Flatten(a + b) == Flatten(a) + Flatten(b)
  {
    if a == [] {
      assert a + b == b;
    } else {
      assert (a + b)[1..] == a[1..] + b;
      FlattenConcat(a[1..], b);
    }
  }

  lemma FlattenOne(c: seq<nat>)
    ensures Flatten([c]) == c
  {
    assert Flatten([c]) == c + Flatten([]);
  }

  lemma FlattenLast(segs: seq<seq<nat>>)
    requires segs != []
    ensures Flatten(segs) == Flatten(segs[..|segs| - 1]) + segs[|segs| - 1]
  {
    assert segs == segs[..|segs| - 1] + [segs[|segs| - 1]];
    FlattenConcat(segs[..|segs| - 1], [segs[|segs| - 1]]);
    FlattenOne(segs[|segs| - 1]);
  }

  lemma KnownSplit(g: Graph, a: seq<nat>, b: seq<nat>)
    ensures Known(g, a + b) <==> Known(g, a) && Known(g, b)
  {
    ElementsConcat(a, b);
  }

  lemma {:induction false} KnownSegment(g: Graph, segs: seq<seq<nat>>, i: nat)
    requires i < |segs| && Known(g, Flatten(segs))
    ensures Known(g, segs[i])
  {
    KnownSplit(g, segs[0], Flatten(segs[1..]));
    if i > 0 {
      KnownSegment(g, segs[1..], i - 1);
    }
  }

  // ---------- The algorithm yields a chunking ----------

  /** The parts of two joined pieces, the second with the higher feerate, measured against the
      whole: the first and all it contains is below it, and what is missing from a prefix that
      reaches into the second is above it. */
  lemma JoinedPrefix(a: FeeFrac, b: FeeFrac, q: FeeFrac)
    requires a.size > 0 && b.size > 0 && 0 < q.size < b.size
    requires Excess(b, a) > 0 && Excess(q, b) < 0
    ensures Excess(a.Plus(q), a.Plus(b)) < 0
  {
    var whole := a.Plus(b);
    var rest := b.Minus(q);
    assert a.Plus(q) == whole.Minus(rest);
    ExcessMinus(whole, rest, whole);
    ExcessMinus(b, q, b);
    JoinedWhole(a, b);
    NotHigherTrans(whole, b, rest);
  }

  lemma JoinedWhole(a: FeeFrac, b: FeeFrac)
    requires a.size > 0 && b.size > 0 && Excess(b, a) > 0
    ensures Excess(a, a.Plus(b)) < 0 && Excess(b, a.Plus(b)) > 0
  {
    ExcessPlus(a, b, a);
    ExcessPlus(a, b, b);
  }

  lemma RisingJoin(g: Graph, a: seq<nat>, b: seq<nat>)
    requires Known(g, a) && Known(g, b) && Rising(g, a) && Rising(g, b)
    requires Higher(g.SeqRate(b), g.SeqRate(a))
    ensures Rising(g, a + b)
  {
    var c := a + b;
    SeqRateConcat(g, a, b);
    SeqRateSize(g, a);
    SeqRateSize(g, b);
    JoinedWhole(g.SeqRate(a), g.SeqRate(b));
    forall k | 0 < k < |c| ensures Excess(g.SeqRate(c[..k]), g.SeqRate(c)) < 0 {
      RisingJoinAt(g, a, b, k);
    }
  }

  lemma RisingJoinAt(g: Graph, a: seq<nat>, b: seq<nat>, k: nat)
    requires Known(g, a) && Known(g, b) && Rising(g, a) && Rising(g, b)
    requires Higher(g.SeqRate(b), g.SeqRate(a))
    requires 0 < k < |a + b|
    ensures Excess(g.SeqRate((a + b)[..k]), g.SeqRate(a + b)) < 0
  {
    SeqRateConcat(g, a, b);
    SeqRateSize(g, a);
    SeqRateSize(g, b);
    JoinedWhole(g.SeqRate(a), g.SeqRate(b));
    if k <= |a| {
      assert (a + b)[..k] == a[..k];
      if k == |a| {
        assert a[..k] == a;
      } else {
        SizeOfPrefix(g, a, k);
        NotHigherTrans(g.SeqRate(a[..k]), g.SeqRate(a), g.SeqRate(a + b));
      }
    } else {
      var q := b[..k - |a|];
      assert (a + b)[..k] == a + q;
      SeqRateConcat(g, a, q);
      SizeOfPrefix(g, b, k - |a|);
      JoinedPrefix(g.SeqRate(a), g.SeqRate(b), g.SeqRate(q));
    }
  }

  lemma SizeOfPrefix(g: Graph, s: seq<nat>, k: nat)
    requires Known(g, s) && 0 < k < |s|
    ensures 0 < g.SeqRate(s[..k]).size < g.SeqRate(s).size
  {
    assert s == s[..k] + s[k..];
    KnownSplit(g, s[..k], s[k..]);
    SeqRateConcat(g, s[..k], s[k..]);
    SeqRateSize(g, s[..k]);
    SeqRateSize(g, s[k..]);
  }

  lemma {:induction false} AbsorbIsChunking(g: Graph, stack: seq<seq<nat>>, c: seq<nat>)
    requires IsChunking(g, stack) && Rising(g, c)
    requires Known(g, Flatten(stack)) && Known(g, c)
    ensures IsChunking(g, Absorb(g, stack, c))
    ensures Flatten(Absorb(g, stack, c)) == Flatten(stack) + c
  {
    if stack != [] && Higher(g.SeqRate(c), g.SeqRate(stack[|stack| - 1])) {
      var rest, top := stack[..|stack| - 1], stack[|stack| - 1];
      FlattenLast(stack);
      KnownSplit(g, Flatten(rest), top);
      RisingJoin(g, top, c);
      KnownSplit(g, top, c);
      ChunkingPrefix(g, stack, |stack| - 1);
      AbsorbIsChunking(g, rest, top + c);
      assert (Flatten(rest) + top) + c == Flatten(rest) + (top + c);
    } else {
      FlattenConcat(stack, [c]);
      FlattenOne(c);
      ChunkingPush(g, stack, c);
    }
  }

  lemma ChunkingPrefix(g: Graph, segs: seq<seq<nat>>, i: nat)
    requires IsChunking(g, segs) && i <= |segs|
    ensures IsChunking(g, segs[..i])
  {
    var r, r' := Rates(g, segs), Rates(g, segs[..i]);
    assert forall j :: 0 <= j < i ==> r'[j] == r[j];
  }

  lemma ChunkingSuffix(g: Graph, segs: seq<seq<nat>>, i: nat)
    requires IsChunking(g, segs) && i <= |segs|
    ensures IsChunking(g, segs[i..])
    ensures Rates(g, segs[i..]) == Rates(g, segs)[i..]
  {
    var r, r' := Rates(g, segs), Rates(g, segs[i..]);
    assert forall j :: 0 <= j < |segs| - i ==> r'[j] == r[i + j];
  }

  lemma ChunkingPush(g: Graph, segs: seq<seq<nat>>, c: seq<nat>)
    requires IsChunking(g, segs) && Rising(g, c)
    requires Known(g, Flatten(segs)) && Known(g, c)
    requires segs != [] ==> Excess(g.SeqRate(c), g.SeqRate(segs[|segs| - 1])) <= 0
    ensures IsChunking(g, segs + [c])
  {
    PositiveRates(g, segs);
    SeqRateSize(g, c);
    ConcavePush(Rates(g, segs), g.SeqRate(c));
    assert Rates(g, segs + [c]) == Rates(g, segs) + [g.SeqRate(c)];
  }

  lemma ConcavePush(rates: seq<FeeFrac>, c: FeeFrac)
    requires PositiveSizes(rates) && Concave(rates) && c.size > 0
    requires rates != [] ==> Excess(c, rates[|rates| - 1]) <= 0
    ensures Concave(rates + [c])
  {
    var n := |rates|;
    forall i | 0 <= i < n ensures Excess(c, rates[i]) <= 0 {
      if i < n - 1 {
        NotHigherTrans(c, rates[n - 1], rates[i]);
      }
    }
  }

  lemma PositiveRates(g: Graph, segs: seq<seq<nat>>)
    requires Known(g, Flatten(segs)) && forall i :: 0 <= i < |segs| ==> segs[i] != []
    ensures PositiveSizes(Rates(g, segs))
  {
    forall i | 0 <= i < |segs| ensures g.SeqRate(segs[i]).size > 0 {
      KnownSegment(g, segs, i);
      SeqRateSize(g, segs[i]);
    }
  }

  /** ChunkLinearization's result is a chunking of the linearization it was given. */
  lemma {:induction false} ChunksIsChunking(g: Graph, lin: seq<nat>)
    requires Known(g, lin)
    ensures IsChunking(g, Chunks(g, lin))
    ensures Flatten(Chunks(g, lin)) == lin
  {
    if lin != [] {
      var front, last := lin[..|lin| - 1], [lin[|lin| - 1]];
      assert lin == front + last;
      KnownSplit(g, front, last);
      ChunksIsChunking(g, front);
      AbsorbIsChunking(g, Chunks(g, front), last);
    }
  }

  // ---------- Chunks carry the peaks ----------

  /** Inside a chunk nothing rises above both of its ends. */
  lemma RisingPeak(g: Graph, r: FeeFrac, c: seq<nat>)
    requires Known(g, c) && Rising(g, c) && r.size > 0
    ensures Peak(g, r, c) == Max(0, Excess(g.SeqRate(c), r))
  {
    PeakNonNeg(g, r, c);
    PeakBounds(g, r, c, |c|);
    assert c[..|c|] == c;
    var k := PeakReached(g, r, c);
    if k == 0 {
      assert c[..k] == [];
    } else if k < |c| {
      SizeOfPrefix(g, c, k);
      PartPeak(g.SeqRate(c[..k]), g.SeqRate(c), r);
    }
  }

  lemma PartPeak(q: FeeFrac, c: FeeFrac, r: FeeFrac)
    requires 0 < q.size <= c.size && r.size > 0 && Excess(q, c) <= 0
    ensures Excess(q, r) <= Max(0, Excess(c, r))
  {
    if Excess(c, r) >= 0 {
      ExcessOfPart(q, c, r);
    } else {
      NotHigherTrans(q, c, r);
    }
  }

  lemma {:induction false} PeakOfChunking(g: Graph, r: FeeFrac, segs: seq<seq<nat>>)
    requires IsChunking(g, segs) && Known(g, Flatten(segs)) && r.size > 0
    ensures Peak(g, r, Flatten(segs)) == PeakOf(r, Rates(g, segs))
  {
    if segs != [] {
      var rest := segs[1..];
      KnownSplit(g, segs[0], Flatten(rest));
      ChunkingSuffix(g, segs, 1);
      PeakOfChunking(g, r, rest);
      PeakConcat(g, r, segs[0], Flatten(rest));
      RisingPeak(g, r, segs[0]);
      PeakNonNeg(g, r, Flatten(rest));
    }
  }

  /** No prefix of a linearization beats its first chunk. */
  lemma PrefixBelowFirst(g: Graph, segs: seq<seq<nat>>, k: nat)
    requires IsChunking(g, segs) && Known(g, Flatten(segs)) && segs != []
    requires k <= |Flatten(segs)|
    ensures Excess(g.SeqRate(Flatten(segs)[..k]), g.SeqRate(segs[0])) <= 0
  {
    var r := g.SeqRate(segs[0]);
    PositiveRates(g, segs);
    assert Rates(g, segs)[0] == r;
    PeakOfChunking(g, r, segs);
    PeakOfLow(r, Rates(g, segs));
    PeakBounds(g, r, Flatten(segs), k);
  }

  lemma FirstChunkNotShorter(g: Graph, a: seq<seq<nat>>, b: seq<seq<nat>>)
    requires IsChunking(g, a) && IsChunking(g, b)
    requires Flatten(a) == Flatten(b) && Known(g, Flatten(a)) && a != [] && b != []
    ensures |a[0]| >= |b[0]|
  {
    var k := |b[0]|;
    assert Flatten(b)[..k] == b[0];
    PrefixBelowFirst(g, a, k);
    assert |a[0]| <= k ==> b[0][..|a[0]|] == a[0];
  }

  lemma FlattenEmpty(g: Graph, segs: seq<seq<nat>>)
    requires IsChunking(g, segs)
    ensures Flatten(segs) == [] <==> segs == []
  {
    if segs != [] {
      assert Rising(g, segs[0]);
    }
  }

  /** An order has one chunking. */
  lemma {:induction false} ChunkingUnique(g: Graph, a: seq<seq<nat>>, b: seq<seq<nat>>)
    requires IsChunking(g, a) && IsChunking(g, b)
    requires Flatten(a) == Flatten(b) && Known(g, Flatten(a))
    ensures a == b
  {
    FlattenEmpty(g, a);
    FlattenEmpty(g, b);
    if a != [] {
      FirstChunkNotShorter(g, a, b);
      FirstChunkNotShorter(g, b, a);
      var k := |a[0]|;
      assert a[0] == Flatten(a)[..k] && b[0] == Flatten(b)[..k];
      assert Flatten(a[1..]) == Flatten(a)[k..] && Flatten(b[1..]) == Flatten(b)[k..];
      KnownSplit(g, a[0], Flatten(a[1..]));
      ChunkingSuffix(g, a, 1);
      ChunkingSuffix(g, b, 1);
      ChunkingUnique(g, a[1..], b[1..]);
      assert a == [a[0]] + a[1..] && b == [b[0]] + b[1..];
    }
  }

  /** Dropping the first chunk of a linearization leaves the chunking of the rest: the shortcut
      MarkDone takes. */
  lemma ChunksAfterFirst(g: Graph, lin: seq<nat>)
    requires Known(g, lin) && lin != []
    ensures Chunks(g, lin) != []
    ensures Chunks(g, lin)[0] <= lin
    ensures Chunks(g, lin[|Chunks(g, lin)[0]|..]) == Chunks(g, lin)[1..]
  {
    var segs := Chunks(g, lin);
    ChunksIsChunking(g, lin);
    var rest := lin[|segs[0]|..];
    assert Flatten(segs[1..]) == rest;
    KnownSplit(g, segs[0], rest);
    ChunkingSuffix(g, segs, 1);
    ChunksIsChunking(g, rest);
    ChunkingUnique(g, segs[1..], Chunks(g, rest));
  }
}
