/** The chunking of what remains of a linearization while parts of it are removed (class
    LinearizationChunking). */
module LinearizationChunkings {
  import opened FeeFracs
  import opened Positions
  import opened Graphs
  import opened Chunking
  import opened Improvement

  /** `infos` are the transactions and feerates of the segments. */
  ghost predicate Describes(g: Graph, infos: seq<SetInfo>, segs: seq<seq<nat>>) {
    && |infos| == |segs|
    && forall i :: 0 <= i < |segs| ==> infos[i] == SetInfo(Elements(segs[i]), g.SeqRate(segs[i]))
  }

  /** Midway through absorbing chunks: putting `c` on `stack` still gives `target`. */
  ghost predicate Absorbing(g: Graph, target: seq<seq<nat>>, infos: seq<SetInfo>, add: SetInfo,
                            stack: seq<seq<nat>>, c: seq<nat>)
  {
    && Describes(g, infos, stack)
    && add == SetInfo(Elements(c), g.SeqRate(c))
    && Absorb(g, stack, c) == target
  }

  lemma AbsorbingStep(g: Graph, target: seq<seq<nat>>, infos: seq<SetInfo>, add: SetInfo,
                      stack: seq<seq<nat>>, c: seq<nat>)
    requires Absorbing(g, target, infos, add, stack, c)
    requires infos != [] && Higher(add.feerate, infos[|infos| - 1].feerate)
    ensures var top := infos[|infos| - 1];
            Absorbing(g, target, infos[..|infos| - 1],
                      SetInfo(add.transactions + top.transactions, add.feerate.Plus(top.feerate)),
                      stack[..|stack| - 1], stack[|stack| - 1] + c)
  {
    var top, rest := stack[|stack| - 1], stack[..|stack| - 1];
    assert infos[|infos| - 1] == SetInfo(Elements(top), g.SeqRate(top));
    SeqRateConcat(g, top, c);
    ElementsConcat(top, c);
    AbsorbMore(g, stack, c);
    assert Describes(g, infos[..|infos| - 1], rest);
  }

  lemma AbsorbMore(g: Graph, stack: seq<seq<nat>>, c: seq<nat>)
    requires stack != [] && Higher(g.SeqRate(c), g.SeqRate(stack[|stack| - 1]))
    ensures Absorb(g, stack, c) == Absorb(g, stack[..|stack| - 1], stack[|stack| - 1] + c)
  {
  }

  lemma AbsorbingDone(g: Graph, target: seq<seq<nat>>, infos: seq<SetInfo>, add: SetInfo,
                      stack: seq<seq<nat>>, c: seq<nat>)
    requires Absorbing(g, target, infos, add, stack, c)
    requires infos == [] || !Higher(add.feerate, infos[|infos| - 1].feerate)
    ensures Describes(g, infos + [add], target)
  {
  }

  lemma ChunksSnoc(g: Graph, lin: seq<nat>, i: nat)
    ensures Chunks(g, lin + [i]) == Absorb(g, Chunks(g, lin), [i])
    ensures SetInfo(Elements([i]), g.SeqRate([i])) == SetInfo({i}, g.FeeRate(i))
  {
    assert (lin + [i])[..|lin|] == lin;
    assert [i][1..] == [];
    assert Elements([i]) == {i};
  }

  lemma RestrictStep(lin: seq<nat>, keep: set<nat>, n: nat)
    requires n < |lin|
    ensures Restrict(lin[..n + 1], keep) == Restrict(lin[..n], keep) + (if lin[n] in keep then [lin[n]] else [])
  {
    assert lin[..n + 1] == lin[..n] + [lin[n]];
    RestrictConcat(lin[..n], [lin[n]], keep);
    assert [lin[n]][1..] == [];
  }

  /** Dropping leading positions that are not kept changes nothing. */
  lemma RestrictDropFront(lin: seq<nat>, keep: set<nat>, n: nat)
    requires n <= |lin| && forall i :: 0 <= i < n ==> lin[i] !in keep
    ensures Restrict(lin[n..], keep) == Restrict(lin, keep)
  {
    assert lin == lin[..n] + lin[n..];
    RestrictConcat(lin[..n], lin[n..], keep);
    RestrictNone(lin[..n], keep);
  }

  lemma RestrictPrefixShort(a: seq<nat>, keep: set<nat>)
    ensures |Restrict(a, keep)| <= |a|
  {
  }

  /** Once the first `|c|` of the kept positions are gone, nothing kept is left among the first
      `|c|` positions. */
  lemma FrontGone(lin: seq<nat>, keep: set<nat>, c: seq<nat>)
    requires Distinct(lin) && c <= Restrict(lin, keep)
    ensures |c| <= |lin|
    ensures forall i :: 0 <= i < |c| ==> lin[i] !in keep - Elements(c)
  {
    RestrictPrefixShort(lin, keep);
    var n := |c|;
    assert lin == lin[..n] + lin[n..];
    RestrictConcat(lin[..n], lin[n..], keep);
    RestrictPrefixShort(lin[..n], keep);
    var front := Restrict(lin[..n], keep);
    assert front <= c;
    forall i | 0 <= i < n ensures lin[i] !in keep - Elements(c) {
      assert lin[i] in lin[..n];
      if lin[i] in keep {
        assert lin[i] in Elements(front);
        assert lin[i] in Elements(c);
      }
    }
  }

  /** Something remains exactly when there are chunks left. */
  lemma ChunksLeft(g: Graph, lin: seq<nat>, todo: set<nat>)
    requires Known(g, lin) && todo <= Elements(lin)
    ensures Known(g, Restrict(lin, todo))
    ensures Elements(Restrict(lin, todo)) == todo
    ensures todo != {} <==> Chunks(g, Restrict(lin, todo)) != []
  {
    var r := Restrict(lin, todo);
    ChunksIsChunking(g, r);
    FlattenEmpty(g, Chunks(g, r));
    assert r == [] ==> Elements(r) == {};
    assert r != [] ==> r[0] in Elements(r);
  }

  /** Removing the first `|c|` remaining positions, by dropping as many from the order. */
  lemma DropFront(lin: seq<nat>, todo: set<nat>, c: seq<nat>)
    requires Distinct(lin) && c <= Restrict(lin, todo)
    ensures |Elements(c)| == |c| <= |lin|
    ensures Restrict(lin[|c|..], todo - Elements(c)) == Restrict(lin, todo - Elements(c))
    ensures Restrict(lin, todo - Elements(c)) == Restrict(lin, todo)[|c|..]
  {
    var r := Restrict(lin, todo);
    var rest, left := r[|c|..], todo - Elements(c);
    RestrictDistinct(lin, todo);
    assert r == c + rest;
    DistinctSplit(c, rest);
    ElementsConcat(c, rest);
    DistinctLength(c);
    FrontGone(lin, todo, c);
    RestrictDropFront(lin, left, |c|);
    RestrictTwice(lin, todo, left);
    assert todo * left == left;
    RestrictConcat(c, rest, left);
    RestrictNone(c, left);
    RestrictAll(rest, left);
  }

  lemma SuffixSound(g: Graph, lin: seq<nat>, n: nat)
    requires Known(g, lin) && Distinct(lin) && n <= |lin|
    ensures Known(g, lin[n..]) && Distinct(lin[n..])
  {
    assert lin == lin[..n] + lin[n..];
    KnownSplit(g, lin[..n], lin[n..]);
    DistinctSplit(lin[..n], lin[n..]);
  }

  /** When exactly the first chunk is removed, the rest of the chunking stands. */
  lemma SkipFirst(g: Graph, lin: seq<nat>, todo: set<nat>, subset: set<nat>)
    requires Known(g, lin) && Distinct(lin) && todo <= Elements(lin)
    requires Chunks(g, Restrict(lin, todo)) != [] && Elements(Chunks(g, Restrict(lin, todo))[0]) == subset
    ensures |subset| <= |lin|
    ensures Restrict(lin[|subset|..], todo - subset) == Restrict(lin, todo - subset)
    ensures todo - subset <= Elements(lin[|subset|..])
    ensures Chunks(g, Restrict(lin, todo - subset)) == Chunks(g, Restrict(lin, todo))[1..]
  {
    var r := Restrict(lin, todo);
    ChunksLeft(g, lin, todo);
    ChunksAfterFirst(g, r);
    DropFront(lin, todo, Chunks(g, r)[0]);
    assert Elements(lin[|subset|..]) * (todo - subset) == todo - subset;
  }

  // ---------- Intersections with prefixes ----------

  /** `r` is a non-empty part of `subset`, cut off at the end of a chunk, that is at least as good
      as `subset` and has no better part in the first chunks; no shorter one would do. */
  ghost predicate FrontPart(g: Graph, segs: seq<seq<nat>>, subset: set<nat>, r: set<nat>) {
    && r <= subset && (subset != {} ==> r != {})
    && (exists k :: 0 <= k <= |segs| && r == subset * ChunkPrefix(segs, k))
    && Excess(g.SetRate(subset), g.SetRate(r)) <= 0
    && NoBetterStart(g, segs, r)
    && NoneShorter(g, segs, subset, r)
  }

  /** What is cut off before `r` ends is empty or of a lower feerate than `subset`. */
  ghost predicate NoneShorter(g: Graph, segs: seq<seq<nat>>, subset: set<nat>, r: set<nat>) {
    forall j :: 0 <= j <= |segs| ==>
      r <= subset * ChunkPrefix(segs, j) || Falls(g, subset, subset * ChunkPrefix(segs, j))
  }

  predicate Falls(g: Graph, subset: set<nat>, part: set<nat>) {
    part == {} || Lower(g.SetRate(part), g.SetRate(subset))
  }

  ghost predicate NoBetterStart(g: Graph, segs: seq<seq<nat>>, s: set<nat>) {
    forall i :: 0 <= i <= |segs| ==> Excess(g.SetRate(s * ChunkPrefix(segs, i)), g.SetRate(s)) <= 0
  }

  /** No intersection of `subset` with the first `i` chunks or fewer is as good as `subset`. */
  ghost predicate Intersecting(g: Graph, segs: seq<seq<nat>>, subset: set<nat>, i: nat, acc: set<nat>) {
    && i <= |segs|
    && acc == subset * ChunkPrefix(segs, i)
    && (acc == subset ==> subset == {})
    && (forall j :: 0 <= j <= i ==> Excess(g.SetRate(subset * ChunkPrefix(segs, j)), g.SetRate(subset)) <= 0)
    && (forall j :: 0 <= j <= i ==> Falls(g, subset, subset * ChunkPrefix(segs, j)))
  }

  lemma ChunkPrefixStep(segs: seq<seq<nat>>, i: nat)
    requires i < |segs|
    ensures ChunkPrefix(segs, i + 1) == ChunkPrefix(segs, i) + Elements(segs[i])
  {
    assert segs[..i + 1] == segs[..i] + [segs[i]];
    FlattenConcat(segs[..i], [segs[i]]);
    FlattenOne(segs[i]);
    ElementsConcat(Flatten(segs[..i]), segs[i]);
  }

  lemma {:induction false} ChunkPrefixMono(segs: seq<seq<nat>>, i: nat, j: nat)
    requires i <= j <= |segs|
    ensures ChunkPrefix(segs, i) <= ChunkPrefix(segs, j)
    decreases j
  {
    if i < j {
      ChunkPrefixMono(segs, i, j - 1);
      ChunkPrefixStep(segs, j - 1);
    }
  }

  lemma ChunkPrefixEnds(segs: seq<seq<nat>>)
    ensures ChunkPrefix(segs, 0) == {} && ChunkPrefix(segs, |segs|) == Elements(Flatten(segs))
  {
    assert segs[..|segs|] == segs;
    assert Elements(Flatten(segs[..0])) == {};
  }

  lemma ChunkDisjoint(segs: seq<seq<nat>>, i: nat)
    requires Distinct(Flatten(segs)) && i < |segs|
    ensures ChunkPrefix(segs, i) !! Elements(segs[i])
  {
    PrefixDistinct(segs, i + 1);
    PrefixLast(segs, i);
    DistinctSplit(Flatten(segs[..i]), segs[i]);
  }

  lemma PrefixDistinct(segs: seq<seq<nat>>, i: nat)
    requires Distinct(Flatten(segs)) && i <= |segs|
    ensures Distinct(Flatten(segs[..i]))
  {
    PrefixOfFlatten(segs, i);
    DistinctSplit(Flatten(segs[..i]), Flatten(segs[i..]));
  }

  lemma PrefixLast(segs: seq<seq<nat>>, i: nat)
    requires i < |segs|
    ensures Flatten(segs[..i + 1]) == Flatten(segs[..i]) + segs[i]
  {
    var front := segs[..i + 1];
    FlattenLast(front);
    assert front[..i] == segs[..i] && front[i] == segs[i];
  }

  lemma NextIntersection(g: Graph, segs: seq<seq<nat>>, subset: set<nat>, i: nat, before: set<nat>, toAdd: set<nat>)
    requires Distinct(Flatten(segs)) && i < |segs|
    requires before == subset * ChunkPrefix(segs, i) && toAdd == Elements(segs[i]) * subset
    ensures before + toAdd == subset * ChunkPrefix(segs, i + 1)
    ensures g.SetRate(before + toAdd) == g.SetRate(before).Plus(g.SetRate(toAdd))
  {
    ChunkPrefixStep(segs, i);
    ChunkDisjoint(segs, i);
    SetRateUnion(g, before, toAdd);
  }

  lemma KeepIntersecting(g: Graph, segs: seq<seq<nat>>, subset: set<nat>, i: nat, before: set<nat>, acc: set<nat>)
    requires Intersecting(g, segs, subset, i, before) && i < |segs|
    requires acc == subset * ChunkPrefix(segs, i + 1)
    requires acc == before || (acc != subset && Lower(g.SetRate(acc), g.SetRate(subset)))
    ensures Intersecting(g, segs, subset, i + 1, acc)
  {
  }

  lemma StartIntersecting(g: Graph, segs: seq<seq<nat>>, subset: set<nat>)
    ensures Intersecting(g, segs, subset, 0, {})
  {
    ChunkPrefixEnds(segs);
    SetRateEmpty(g);
    assert subset * ChunkPrefix(segs, 0) == {};
  }

  lemma WholeIsFront(g: Graph, segs: seq<seq<nat>>, subset: set<nat>, i: nat, acc: set<nat>)
    requires Intersecting(g, segs, subset, i, acc) && i < |segs|
    requires subset * ChunkPrefix(segs, i + 1) == subset
    ensures FrontPart(g, segs, subset, subset)
  {
    forall j | 0 <= j <= |segs| ensures Excess(g.SetRate(subset * ChunkPrefix(segs, j)), g.SetRate(subset)) <= 0 {
      if j > i {
        ChunkPrefixMono(segs, i + 1, j);
        assert subset * ChunkPrefix(segs, j) == subset;
      }
    }
    forall j | 0 <= j <= |segs|
      ensures subset <= subset * ChunkPrefix(segs, j) || Falls(g, subset, subset * ChunkPrefix(segs, j))
    {
      if j > i {
        ChunkPrefixMono(segs, i + 1, j);
      }
    }
  }

  lemma PartIsFront(g: Graph, segs: seq<seq<nat>>, subset: set<nat>, i: nat, before: set<nat>, acc: set<nat>)
    requires g.WellFormed() && g.Sized() && subset <= g.used && subset != {} && acc != {}
    requires Intersecting(g, segs, subset, i, before) && i < |segs|
    requires acc == subset * ChunkPrefix(segs, i + 1)
    requires Excess(g.SetRate(subset), g.SetRate(acc)) <= 0
    ensures FrontPart(g, segs, subset, acc)
  {
    SetRateSize(g, subset);
    SetRateSize(g, acc);
    forall j | 0 <= j <= |segs| ensures Excess(g.SetRate(acc * ChunkPrefix(segs, j)), g.SetRate(acc)) <= 0 {
      if j > i {
        ChunkPrefixMono(segs, i + 1, j);
        assert acc * ChunkPrefix(segs, j) == acc;
      } else {
        ChunkPrefixMono(segs, j, i + 1);
        var part := subset * ChunkPrefix(segs, j);
        assert acc * ChunkPrefix(segs, j) == part;
        SetRateSize(g, part);
        NotHigherTrans(g.SetRate(part), g.SetRate(subset), g.SetRate(acc));
      }
    }
    forall j | 0 <= j <= |segs|
      ensures acc <= subset * ChunkPrefix(segs, j) || Falls(g, subset, subset * ChunkPrefix(segs, j))
    {
      if j > i {
        ChunkPrefixMono(segs, i + 1, j);
      }
    }
  }

  lemma NothingLeft(g: Graph, segs: seq<seq<nat>>, subset: set<nat>, acc: set<nat>)
    requires Intersecting(g, segs, subset, |segs|, acc) && subset <= Elements(Flatten(segs))
    ensures FrontPart(g, segs, subset, subset)
  {
    ChunkPrefixEnds(segs);
    assert subset * ChunkPrefix(segs, |segs|) == subset;
    forall j | 0 <= j <= |segs| ensures subset * ChunkPrefix(segs, j) == {} {
    }
    SetRateEmpty(g);
  }

  class LinearizationChunking {
    /** The graph this linearization is for. */
    const g: Graph
    /** The linearization we started from, possibly with a removed prefix stripped. */
    var linearization: seq<nat>
    /** Chunk sets and feerates of what remains of the linearization. */
    var chunks: seq<SetInfo>
    /** How large a prefix of chunks corresponds to removed transactions. */
    var chunksSkip: nat
    /** Which transactions remain. */
    var todo: set<nat>

    /** What remains of the linearization. */
    ghost function Remaining(): seq<nat>
      reads this
    {
      Restrict(linearization, todo)
    }

    ghost predicate Sound()
      reads this
    {
      && g.WellFormed() && Known(g, linearization) && Distinct(linearization)
      && todo <= Elements(linearization)
    }

    /** The chunks past the skipped ones are the chunking, from scratch, of what remains. */
    ghost predicate Valid()
      reads this
    {
      && Sound()
      && chunksSkip <= |chunks|
      && Describes(g, chunks[chunksSkip..], Chunks(g, Remaining()))
    }

    constructor (g: Graph, lin: seq<nat>)
      requires g.WellFormed() && Known(g, lin) && Distinct(lin)
      ensures Valid() && this.g == g && todo == Elements(lin) && Remaining() == lin
    {
      this.g := g;
      linearization, chunks, chunksSkip, todo := lin, [], 0, Elements(lin);
      new;
      RestrictAll(lin, Elements(lin));
      BuildChunks();
    }

    /** Fill chunks, and strip the done prefix of the linearization. */
    method BuildChunks()
      requires Sound() && chunks == [] && chunksSkip == 0
      modifies this`linearization, this`chunks
      ensures Valid() && Remaining() == old(Remaining()) && chunksSkip == 0
    {
      StripDone();
      var lin := linearization;
      for n := 0 to |lin|
        invariant linearization == lin
        invariant Describes(g, chunks, Chunks(g, Restrict(lin[..n], todo)))
      {
        RestrictStep(lin, todo, n);
        if lin[n] in todo {
          AbsorbNext(lin[n], Restrict(lin[..n], todo));
        } else {
          assert Restrict(lin[..n], todo) + [] == Restrict(lin[..n], todo);
        }
      }
      assert lin[..|lin|] == lin;
      assert chunks[0..] == chunks;
    }

    /** Chop off the initial part of the linearization that is already done. */
    method StripDone()
      requires Sound()
      modifies this`linearization
      ensures Sound() && Remaining() == old(Remaining())
    {
      while linearization != [] && linearization[0] !in todo
        invariant Sound() && Remaining() == old(Remaining())
        decreases |linearization|
      {
        RestrictDropFront(linearization, todo, 1);
        assert linearization == [linearization[0]] + linearization[1..];
        DistinctSplit([linearization[0]], linearization[1..]);
        ElementsConcat([linearization[0]], linearization[1..]);
        linearization := linearization[1..];
      }
    }

    /** Add transaction `idx` behind the chunks of `before`. */
    method AbsorbNext(idx: nat, ghost before: seq<nat>)
      requires Describes(g, chunks, Chunks(g, before))
      modifies this`chunks
      ensures Describes(g, chunks, Chunks(g, before + [idx]))
    {
      var add := SetInfo({idx}, g.FeeRate(idx));
      ghost var target := Chunks(g, before + [idx]);
      ghost var stack, c := Chunks(g, before), [idx];
      ChunksSnoc(g, before, idx);
      while chunks != [] && Higher(add.feerate, chunks[|chunks| - 1].feerate)
        invariant Absorbing(g, target, chunks, add, stack, c)
        decreases |chunks|
      {
        AbsorbingStep(g, target, chunks, add, stack, c);
        var top := chunks[|chunks| - 1];
        add := SetInfo(add.transactions + top.transactions, add.feerate.Plus(top.feerate));
        chunks := chunks[..|chunks| - 1];
        stack, c := stack[..|stack| - 1], stack[|stack| - 1] + c;
      }
      AbsorbingDone(g, target, chunks, add, stack, c);
      chunks := chunks + [add];
    }

    /** Determine how many chunks remain. */
    function NumChunksLeft(): (n: nat)
      requires chunksSkip <= |chunks|
      reads this
    {
      |chunks| - chunksSkip
    }

    /** The chunks that remain, counted from the first. */
    function GetChunk(n: nat): SetInfo
      requires n + chunksSkip < |chunks|
      reads this
    {
      chunks[n + chunksSkip]
    }

    /** Remove some transactions from the linearization. */
    method MarkDone(subset: set<nat>)
      requires Valid()
      requires subset != {} && subset <= todo
      modifies this
      ensures Valid()
      ensures todo == old(todo) - subset
      ensures Remaining() == Restrict(old(Remaining()), todo)
    {
      ghost var lin, was := linearization, todo;
      ChunksLeft(g, lin, was);
      RestrictTwice(lin, was, was - subset);
      assert was * (was - subset) == was - subset;
      if GetChunk(0).transactions == subset {
        SkipChunk(subset);
      } else {
        todo := todo - subset;
        chunks := [];
        chunksSkip := 0;
        BuildChunks();
      }
    }

    /** The first remaining chunk is done: no need to rechunk, just skip it. */
    method SkipChunk(subset: set<nat>)
      requires Valid() && Chunks(g, Remaining()) != []
      requires Elements(Chunks(g, Remaining())[0]) == subset
      modifies this`todo, this`chunksSkip, this`linearization
      ensures Valid() && todo == old(todo) - subset
      ensures Remaining() == Restrict(old(linearization), todo)
    {
      SkipFirst(g, linearization, todo, subset);
      SuffixSound(g, linearization, |subset|);
      assert chunks[chunksSkip + 1..] == chunks[chunksSkip..][1..];
      todo := todo - subset;
      chunksSkip := chunksSkip + 1;
      linearization := linearization[|subset|..];
    }

    /** Take chunk `i` into account; `found` says that the intersection is what is looked for. */
    method IntersectNext(subset: SetInfo, i: nat, accumulator: SetInfo) returns (found: bool, r: SetInfo)
      requires Valid() && i + chunksSkip < |chunks|
      requires subset.transactions <= todo && subset.Of(g) && accumulator.Of(g)
      requires Intersecting(g, Chunks(g, Remaining()), subset.transactions, i, accumulator.transactions)
      ensures r.Of(g)
      ensures found ==> FrontPart(g, Chunks(g, Remaining()), subset.transactions, r.transactions)
      ensures !found ==> Intersecting(g, Chunks(g, Remaining()), subset.transactions, i + 1, r.transactions)
    {
      ghost var segs := Chunks(g, Remaining());
      RestrictDistinct(linearization, todo);
      ChunksIsChunking(g, Remaining());
      var chunk := GetChunk(i);
      assert chunk == chunks[chunksSkip..][i];
      // The part of the chunk that is asked for.
      var toAdd := chunk.transactions * subset.transactions;
      var before := accumulator.transactions;
      NextIntersection(g, segs, subset.transactions, i, before, toAdd);
      r := accumulator;
      if toAdd != {} {
        if before + toAdd == subset.transactions {
          WholeIsFront(g, segs, subset.transactions, i, before);
          return true, subset;
        }
        r := SetInfo(before + toAdd, accumulator.feerate.Plus(g.SetRate(toAdd)));
        if !Lower(r.feerate, subset.feerate) {
          PartIsFront(g, segs, subset.transactions, i, before, r.transactions);
          return true, r;
        }
      } else {
        assert before + toAdd == before;
      }
      KeepIntersecting(g, segs, subset.transactions, i, before, r.transactions);
      found := false;
    }

    /** Find the shortest intersection of `subset` with a prefix of the remaining chunks whose
        feerate is not below that of `subset`. */
    method IntersectPrefixes(subset: SetInfo) returns (r: SetInfo)
      requires Valid()
      requires subset.transactions <= todo && subset.Of(g)
      ensures r.Of(g)
      ensures FrontPart(g, Chunks(g, Remaining()), subset.transactions, r.transactions)
    {
      ghost var segs := Chunks(g, Remaining());
      ChunksLeft(g, linearization, todo);
      RestrictDistinct(linearization, todo);
      ChunksIsChunking(g, Remaining());
      var accumulator := SetInfo({}, FeeFrac(0, 0));
      SetRateEmpty(g);
      StartIntersecting(g, segs, subset.transactions);
      for i := 0 to NumChunksLeft()
        invariant accumulator.Of(g)
        invariant Intersecting(g, segs, subset.transactions, i, accumulator.transactions)
      {
        var found;
        found, accumulator := IntersectNext(subset, i, accumulator);
        if found {
          return accumulator;
        }
      }
      NothingLeft(g, segs, subset.transactions, accumulator.transactions);
      r := subset;
    }
  }
}
