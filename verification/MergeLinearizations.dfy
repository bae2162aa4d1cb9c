/** Two orders of a cluster, merged to an order no worse than either. */
module MergeLinearization {
  import opened FeeFracs
  import opened Positions
  import opened Graphs
  import opened Chunking
  import opened Improvement
  import opened LinearizationChunkings
  import opened Topology

  /** Having output `out`, continuing with what is left of `lin` is at least as good as `lin`. */
  ghost predicate Keeps(g: Graph, out: seq<nat>, todo: set<nat>, lin: seq<nat>) {
    PeaksOver(g, out + Restrict(lin, todo), lin)
  }

  lemma StartKeeps(g: Graph, lin: seq<nat>)
    ensures Keeps(g, [], Elements(lin), lin)
  {
    RestrictAll(lin, Elements(lin));
    assert [] + lin == lin;
  }

  /** Outputting a movable set next keeps the promise. */
  lemma MoveStep(g: Graph, out: seq<nat>, todo: set<nat>, lin: seq<nat>, t: seq<nat>)
    requires g.WellFormed() && Known(g, lin) && Distinct(lin) && todo <= Elements(lin)
    requires Keeps(g, out, todo, lin)
    requires t != [] && Distinct(t) && Elements(t) <= todo && Movable(g, Restrict(lin, todo), Elements(t))
    ensures Keeps(g, out + t, todo - Elements(t), lin)
  {
    var rem, left := Restrict(lin, todo), todo - Elements(t);
    ChunksLeft(g, lin, todo);
    RestrictDistinct(lin, todo);
    MoveToFront(g, rem, t);
    RestrictTwice(lin, todo, left);
    assert todo * left == left;
    var next := t + Restrict(lin, left);
    PeaksOverAfter(g, out, next, rem);
    assert out + next == (out + t) + Restrict(lin, left);
    PeaksOverTrans(g, out + next, out + rem, lin);
  }

  /** A linearization that kept the promise to the end is nowhere below. */
  lemma KeepsGivesDiagram(g: Graph, out: seq<nat>, lin: seq<nat>)
    requires g.Cluster() && g.Linearization(out) && g.Linearization(lin)
    requires Keeps(g, out, {}, lin)
    ensures NowhereBelow(g, out, lin)
  {
    RestrictNone(lin, {});
    assert out + [] == out;
    SeqRateElements(g, out);
    SeqRateElements(g, lin);
    PeaksGiveDiagram(g, out, lin);
  }

  lemma FirstChunk(g: Graph, lin: seq<nat>)
    requires Known(g, lin) && Distinct(lin) && Chunks(g, lin) != []
    ensures var c := Chunks(g, lin)[0];
            && c != [] && Distinct(c) && Elements(c) == ChunkPrefix(Chunks(g, lin), 1) <= Elements(lin)
            && Elements(c) != {} && g.SeqRate(c) == g.SetRate(Elements(c)) && g.SeqRate(c).size > 0
  {
    var segs := Chunks(g, lin);
    ChunksIsChunking(g, lin);
    assert Rising(g, segs[0]);
    assert segs[..1] == [segs[0]];
    FlattenOne(segs[0]);
    PrefixOfFlatten(segs, 1);
    DistinctSplit(segs[0], Flatten(segs[1..]));
    ElementsConcat(segs[0], Flatten(segs[1..]));
    SeqRateElements(g, segs[0]);
    KnownSegment(g, segs, 0);
    SeqRateSize(g, segs[0]);
    assert segs[0][0] in Elements(segs[0]);
  }

  /** A part of the first chunk that is at least as good as the chunk can be moved to the front. */
  lemma PartOfFirstMovable(g: Graph, lin: seq<nat>, s: set<nat>)
    requires Known(g, lin) && Distinct(lin) && Chunks(g, lin) != []
    requires s <= Elements(Chunks(g, lin)[0])
    requires Excess(g.SeqRate(Chunks(g, lin)[0]), g.SetRate(s)) <= 0
    ensures Movable(g, lin, s)
  {
    var segs := Chunks(g, lin);
    FirstChunk(g, lin);
    forall i | 0 <= i <= |segs| ensures Excess(g.SetRate(s * ChunkPrefix(segs, i)), g.SetRate(s)) <= 0 {
      if i == 0 {
        ChunkPrefixEnds(segs);
        assert s * ChunkPrefix(segs, i) == {};
        SetRateEmpty(g);
      } else {
        ChunkPrefixMono(segs, 1, i);
        assert s * ChunkPrefix(segs, i) == s;
      }
    }
  }

  /** If `a` starts with at least as good a chunk as `b`, the part of that chunk found by
      intersecting it with the prefixes of `b` can be moved to the front of both. */
  lemma MergeStep(g: Graph, a: seq<nat>, b: seq<nat>, s: set<nat>)
    requires g.WellFormed() && Known(g, a) && Known(g, b) && Distinct(a) && Distinct(b)
    requires Elements(a) == Elements(b) && g.Topological(a) && g.Topological(b)
    requires Chunks(g, a) != [] && Chunks(g, b) != []
    requires Excess(g.SeqRate(Chunks(g, b)[0]), g.SeqRate(Chunks(g, a)[0])) <= 0
    requires FrontPart(g, Chunks(g, b), Elements(Chunks(g, a)[0]), s)
    ensures s != {} && s <= Elements(a) && g.ClosedIn(s, Elements(a))
    ensures Movable(g, a, s) && Movable(g, b, s)
  {
    FirstChunk(g, a);
    FirstChunk(g, b);
    PartOfFirstMovable(g, a, s);
    SetRateSize(g, s);
    NotHigherTrans(g.SeqRate(Chunks(g, b)[0]), g.SeqRate(Chunks(g, a)[0]), g.SetRate(s));
    var k :| 0 <= k <= |Chunks(g, b)| && s == Elements(Chunks(g, a)[0]) * ChunkPrefix(Chunks(g, b), k);
    ChunkPrefixClosed(g, a, 1);
    ChunkPrefixClosed(g, b, k);
    ClosedIntersection(g, Elements(Chunks(g, a)[0]), ChunkPrefix(Chunks(g, b), k), Elements(a));
  }

  /** What both chunkings and the output agree on between steps. */
  ghost predicate Merging(g: Graph, lin1: seq<nat>, lin2: seq<nat>, out: seq<nat>, todo: set<nat>) {
    && PartialLinearization(g, out, todo)
    && Keeps(g, out, todo, lin1) && Keeps(g, out, todo, lin2)
  }

  lemma MergingStep(g: Graph, lin1: seq<nat>, lin2: seq<nat>, out: seq<nat>, todo: set<nat>, t: seq<nat>)
    requires g.Cluster() && g.Linearization(lin1) && g.Linearization(lin2)
    requires Merging(g, lin1, lin2, out, todo)
    requires t != [] && SortedBefore(g, t) && Elements(t) <= todo && g.ClosedIn(Elements(t), todo)
    requires Movable(g, Restrict(lin1, todo), Elements(t)) && Movable(g, Restrict(lin2, todo), Elements(t))
    ensures Merging(g, lin1, lin2, out + t, todo - Elements(t))
  {
    SortedDistinct(g, t);
    ExtendPartial(g, out, todo, t);
    MoveStep(g, out, todo, lin1, t);
    MoveStep(g, out, todo, lin2, t);
  }

  /** `c` chunks what the removal of all but `todo` leaves of `lin`. */
  ghost predicate Follows(c: LinearizationChunking, g: Graph, lin: seq<nat>, todo: set<nat>)
    reads c
  {
    c.Valid() && c.g == g && c.todo == todo && c.Remaining() == Restrict(lin, todo)
  }

  lemma RemainingShape(g: Graph, lin: seq<nat>, todo: set<nat>)
    requires g.Cluster() && g.Linearization(lin) && todo <= g.used
    ensures var r := Restrict(lin, todo);
            && Known(g, r) && Distinct(r) && Elements(r) == todo && g.Topological(r)
            && (todo != {} <==> Chunks(g, r) != [])
  {
    ChunksLeft(g, lin, todo);
    RestrictDistinct(lin, todo);
    RestrictTopological(g, lin, todo);
  }

  /** Take the better of the two first chunks, intersected with the prefixes of the other. */
  method PickFront(g: Graph, ghost lin1: seq<nat>, ghost lin2: seq<nat>,
                   chunking1: LinearizationChunking, chunking2: LinearizationChunking) returns (best: set<nat>)
    requires g.Cluster() && g.Linearization(lin1) && g.Linearization(lin2)
    requires Follows(chunking1, g, lin1, chunking1.todo) && Follows(chunking2, g, lin2, chunking1.todo)
    requires chunking1.todo != {} && chunking1.todo <= g.used
    ensures best != {} && best <= chunking1.todo && g.ClosedIn(best, chunking1.todo)
    ensures Movable(g, Restrict(lin1, chunking1.todo), best) && Movable(g, Restrict(lin2, chunking1.todo), best)
  {
    RemainingShape(g, lin1, chunking1.todo);
    RemainingShape(g, lin2, chunking1.todo);
    FirstChunk(g, chunking1.Remaining());
    FirstChunk(g, chunking2.Remaining());
    var lin1Firstchunk := chunking1.GetChunk(0);
    var lin2Firstchunk := chunking2.GetChunk(0);
    assert lin1Firstchunk == chunking1.chunks[chunking1.chunksSkip..][0];
    assert lin2Firstchunk == chunking2.chunks[chunking2.chunksSkip..][0];
    var info: SetInfo;
    if Higher(lin2Firstchunk.feerate, lin1Firstchunk.feerate) {
      info := chunking1.IntersectPrefixes(lin2Firstchunk);
      MergeStep(g, chunking2.Remaining(), chunking1.Remaining(), info.transactions);
    } else {
      info := chunking2.IntersectPrefixes(lin1Firstchunk);
      MergeStep(g, chunking1.Remaining(), chunking2.Remaining(), info.transactions);
    }
    best := info.transactions;
  }

  /** Remove `done` from a chunking that follows `lin`. */
  method MarkDone(c: LinearizationChunking, g: Graph, ghost lin: seq<nat>, done: set<nat>)
    requires Follows(c, g, lin, c.todo) && done != {} && done <= c.todo
    modifies c
    ensures Follows(c, g, lin, old(c.todo) - done)
  {
    RestrictTwice(lin, c.todo, c.todo - done);
    assert c.todo * (c.todo - done) == c.todo - done;
    c.MarkDone(done);
  }

  /** Output the next set, in topological order. */
  method Output(g: Graph, ghost lin1: seq<nat>, ghost lin2: seq<nat>, out: seq<nat>, ghost todo: set<nat>,
                best: set<nat>) returns (next: seq<nat>)
    requires g.Cluster() && g.Linearization(lin1) && g.Linearization(lin2)
    requires Merging(g, lin1, lin2, out, todo)
    requires best != {} && best <= todo && g.ClosedIn(best, todo)
    requires Movable(g, Restrict(lin1, todo), best) && Movable(g, Restrict(lin2, todo), best)
    ensures Merging(g, lin1, lin2, next, todo - best)
  {
    next := AppendTopo(g, out, best);
    ghost var t := next[|out|..];
    assert next == out + t;
    assert t == [] ==> Elements(t) == {};
    MergingStep(g, lin1, lin2, out, todo, t);
  }

  lemma FinishMerging(g: Graph, lin1: seq<nat>, lin2: seq<nat>, out: seq<nat>)
    requires g.Cluster() && g.Linearization(lin1) && g.Linearization(lin2)
    requires Merging(g, lin1, lin2, out, {})
    ensures g.Linearization(out)
    ensures NowhereBelow(g, out, lin1) && NowhereBelow(g, out, lin2)
  {
    FinishPartial(g, out);
    KeepsGivesDiagram(g, out, lin1);
    KeepsGivesDiagram(g, out, lin2);
  }

  lemma StartMerging(g: Graph, lin1: seq<nat>, lin2: seq<nat>)
    requires g.Linearization(lin1) && g.Linearization(lin2)
    ensures Merging(g, lin1, lin2, [], g.used)
  {
    StartPartial(g);
    StartKeeps(g, lin1);
    StartKeeps(g, lin2);
  }

  lemma NoneLeft(c: LinearizationChunking, g: Graph, lin: seq<nat>, todo: set<nat>)
    requires g.Cluster() && g.Linearization(lin) && todo <= g.used && Follows(c, g, lin, todo)
    ensures c.NumChunksLeft() == 0 <==> todo == {}
  {
    RemainingShape(g, lin, todo);
  }

  /** An order of the cluster whose diagram lies nowhere below those of the two given ones. */
  method MergeLinearizations(g: Graph, lin1: seq<nat>, lin2: seq<nat>) returns (ret: seq<nat>)
    requires g.Cluster() && g.Linearization(lin1) && g.Linearization(lin2)
    ensures g.Linearization(ret)
    ensures NowhereBelow(g, ret, lin1) && NowhereBelow(g, ret, lin2)
  {
    RestrictAll(lin1, g.used);
    RestrictAll(lin2, g.used);
    var chunking1 := new LinearizationChunking(g, lin1);
    var chunking2 := new LinearizationChunking(g, lin2);
    ret := [];
    StartMerging(g, lin1, lin2);
    if g.used == {} {
      FinishMerging(g, lin1, lin2, ret);
      return;
    }
    ghost var todo := g.used;
    while true
      invariant fresh(chunking1) && fresh(chunking2) && chunking1 != chunking2
      invariant Follows(chunking1, g, lin1, todo) && Follows(chunking2, g, lin2, todo)
      invariant todo != {} && todo <= g.used && Merging(g, lin1, lin2, ret, todo)
      decreases todo
    {
      // The better first chunk, cut to what begins the other order.
      var best := PickFront(g, lin1, lin2, chunking1, chunking2);
      ret := Output(g, lin1, lin2, ret, todo, best);
      MarkDone(chunking1, g, lin1, best);
      todo := todo - best;
      NoneLeft(chunking1, g, lin1, todo);
      if chunking1.NumChunksLeft() == 0 {
        break;
      }
      MarkDone(chunking2, g, lin2, best);
    }
    FinishMerging(g, lin1, lin2, ret);
  }
}
