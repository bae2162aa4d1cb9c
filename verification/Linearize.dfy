/** Finding or improving a linearization for a cluster. */
module Linearizing {
  import opened FeeFracs
  import opened Sets
  import opened Positions
  import opened Graphs
  import opened Chunking
  import opened Improvement
  import opened LinearizationChunkings
  import opened Topology
  import opened MergeLinearization
  import opened AncestorCandidateFinders
  import opened SearchTheory
  import opened SearchQueues
  import opened SearchCandidateFinders

  /** No closed subset of what remains is better than `s`. */
  ghost predicate Optimal(g: Graph, todo: set<nat>, s: set<nat>) {
    forall c :: Candidate(g, todo, c) ==> AtLeast(g.SetRate(s), g.SetRate(c))
  }

  /** Having output `out`, continuing with what is left of any linearization is at least as good as
      that linearization. */
  ghost predicate KeepsAll(g: Graph, out: seq<nat>, todo: set<nat>) {
    forall lin :: g.Linearization(lin) ==> Keeps(g, out, todo, lin)
  }

  // ---------- How many iterations are enough ----------

  /** What setting up the search is charged with. */
  function SetupIterations(n: nat): nat {
    (n * n + 63) / 64
  }

  function Max(a: int, b: int): int {
    if a < b then b else a
  }

  /** With this many iterations left and `n` transactions to go, no search runs out of its half of them, and as many
      are left afterwards as the rest needs. */
  function EnoughIterations(n: nat): (m: nat)
    ensures n > 0 ==> m > 0
  {
    if n == 0 then 0
    else (n + 3) / 4 + Fib(n + 2) - 1 + Max(Fib(n + 2), EnoughIterations(n - 1))
  }

  lemma {:induction false} EnoughMono(m: nat, n: nat)
    requires m <= n
    ensures EnoughIterations(m) <= EnoughIterations(n)
  {
    if m < n {
      EnoughMono(m, n - 1);
    }
  }

  // ---------- What is output next ----------

  /** `s` is closed in what remains, and no remaining ancestor set has a higher feerate. */
  ghost predicate GoodPiece(g: Graph, todo: set<nat>, s: set<nat>) {
    && Candidate(g, todo, s)
    && forall x :: x in todo ==> !Higher(g.SetRate(g.Ancestors(x) * todo), g.SetRate(s))
  }

  /** The output is made of such pieces, one after the other. */
  ghost predicate BuiltOf(g: Graph, out: seq<nat>, pieces: seq<seq<nat>>)
    decreases |pieces|
  {
    if pieces == [] then out == []
    else
      var rest, last := pieces[..|pieces| - 1], pieces[|pieces| - 1];
      && |last| <= |out|
      && var before := out[..|out| - |last|];
         out == before + last && GoodPiece(g, g.used - Elements(before), Elements(last)) && BuiltOf(g, before, rest)
  }

  lemma BuiltNext(g: Graph, out: seq<nat>, pieces: seq<seq<nat>>, t: seq<nat>)
    requires BuiltOf(g, out, pieces) && GoodPiece(g, g.used - Elements(out), Elements(t))
    ensures BuiltOf(g, out + t, pieces + [t])
  {
    var pieces', out' := pieces + [t], out + t;
    assert pieces'[..|pieces'| - 1] == pieces && out'[..|out'| - |t|] == out;
  }

  lemma FirstChunkCandidate(g: Graph, lin: seq<nat>, todo: set<nat>)
    requires g.Cluster() && g.Linearization(lin) && todo <= g.used && todo != {}
    ensures var c := Chunks(g, Restrict(lin, todo));
            c != [] && Candidate(g, todo, Elements(c[0])) && g.SeqRate(c[0]) == g.SetRate(Elements(c[0]))
  {
    var r := Restrict(lin, todo);
    RemainingShape(g, lin, todo);
    FirstChunk(g, r);
    ChunkPrefixClosed(g, r, 1);
  }

  /** The best closed subset can be moved to the front of what is left of any linearization. */
  lemma OptimalMovable(g: Graph, lin: seq<nat>, todo: set<nat>, s: set<nat>)
    requires g.Cluster() && g.Linearization(lin) && todo <= g.used
    requires Candidate(g, todo, s) && Optimal(g, todo, s)
    ensures Movable(g, Restrict(lin, todo), s)
  {
    var r := Restrict(lin, todo);
    var segs := Chunks(g, r);
    RemainingShape(g, lin, todo);
    FirstChunkCandidate(g, lin, todo);
    forall i | 0 <= i <= |segs| ensures Excess(g.SetRate(s * ChunkPrefix(segs, i)), g.SetRate(s)) <= 0 {
      ChunkPrefixClosed(g, r, i);
      ClosedIntersection(g, s, ChunkPrefix(segs, i), todo);
      if s * ChunkPrefix(segs, i) == {} {
        SetRateEmpty(g);
      } else {
        assert Candidate(g, todo, s * ChunkPrefix(segs, i));
      }
    }
  }

  /** The front part of a set that is at least as good as the first chunk can be moved. */
  lemma FrontPartMovable(g: Graph, lin: seq<nat>, todo: set<nat>, best: set<nat>, s: set<nat>)
    requires g.Cluster() && g.Linearization(lin) && todo <= g.used && Candidate(g, todo, best)
    requires FrontPart(g, Chunks(g, Restrict(lin, todo)), best, s)
    requires Chunks(g, Restrict(lin, todo)) != []
    requires Excess(g.SeqRate(Chunks(g, Restrict(lin, todo))[0]), g.SetRate(best)) <= 0
    ensures Candidate(g, todo, s) && Movable(g, Restrict(lin, todo), s)
  {
    var r := Restrict(lin, todo);
    var segs := Chunks(g, r);
    RemainingShape(g, lin, todo);
    FirstChunk(g, r);
    var k :| 0 <= k <= |segs| && s == best * ChunkPrefix(segs, k);
    ChunkPrefixClosed(g, r, k);
    ClosedIntersection(g, best, ChunkPrefix(segs, k), todo);
    SetRateSize(g, best);
    SetRateSize(g, s);
    NotHigherTrans(g.SeqRate(segs[0]), g.SetRate(best), g.SetRate(s));
  }

  /** Outputting the best closed subset next keeps the promise to all linearizations. */
  lemma KeepsAllStep(g: Graph, out: seq<nat>, todo: set<nat>, t: seq<nat>)
    requires g.Cluster() && todo <= g.used && KeepsAll(g, out, todo)
    requires t != [] && SortedBefore(g, t) && Candidate(g, todo, Elements(t)) && Optimal(g, todo, Elements(t))
    ensures KeepsAll(g, out + t, todo - Elements(t))
  {
    SortedDistinct(g, t);
    forall lin | g.Linearization(lin) ensures Keeps(g, out + t, todo - Elements(t), lin) {
      OptimalMovable(g, lin, todo, Elements(t));
      MoveStep(g, out, todo, lin, t);
    }
  }

  /** What the output promises so far. */
  ghost predicate Promises(g: Graph, given: seq<nat>, out: seq<nat>, todo: set<nat>, optimal: bool) {
    && PartialLinearization(g, out, todo)
    && (given != [] ==> Keeps(g, out, todo, given))
    && (optimal ==> KeepsAll(g, out, todo))
  }

  lemma PromisesStart(g: Graph, given: seq<nat>)
    requires given == [] || g.Linearization(given)
    ensures Promises(g, given, [], g.used, true)
  {
    StartPartial(g);
    StartKeeps(g, given);
    forall lin | g.Linearization(lin) ensures Keeps(g, [], g.used, lin) {
      StartKeeps(g, lin);
    }
  }

  lemma PromisesStep(g: Graph, given: seq<nat>, out: seq<nat>, todo: set<nat>, optimal: bool, t: seq<nat>, exact: bool)
    requires g.Cluster() && (given == [] || g.Linearization(given)) && Promises(g, given, out, todo, optimal)
    requires t != [] && SortedBefore(g, t) && Candidate(g, todo, Elements(t))
    requires given != [] ==> Movable(g, Restrict(given, todo), Elements(t))
    requires exact ==> Optimal(g, todo, Elements(t))
    ensures Promises(g, given, out + t, todo - Elements(t), optimal && exact)
  {
    SortedDistinct(g, t);
    ExtendPartial(g, out, todo, t);
    if given != [] {
      MoveStep(g, out, todo, given, t);
    }
    if optimal && exact {
      KeepsAllStep(g, out, todo, t);
    }
  }

  lemma PromisesKept(g: Graph, given: seq<nat>, out: seq<nat>, optimal: bool)
    requires g.Cluster() && (given == [] || g.Linearization(given)) && Promises(g, given, out, {}, optimal)
    ensures g.Linearization(out)
    ensures given != [] ==> NowhereBelow(g, out, given)
    ensures optimal ==> forall lin :: g.Linearization(lin) ==> NowhereBelow(g, out, lin)
  {
    FinishPartial(g, out);
    if given != [] {
      KeepsGivesDiagram(g, out, given);
    }
    if optimal {
      forall lin | g.Linearization(lin) ensures NowhereBelow(g, out, lin) {
        KeepsGivesDiagram(g, out, lin);
      }
    }
  }

  /** The finders and the old chunking all look at the same remaining transactions. */
  ghost predicate InSync(g: Graph, given: seq<nat>, todo: set<nat>, anc: AncestorCandidateFinder,
                         src: SearchCandidateFinder?, chunking: LinearizationChunking)
    reads anc, src, chunking
  {
    && todo <= g.used
    && anc.Valid() && anc.g == g && anc.todo == todo
    && (src != null ==> src.Valid() && src.original == g && src.Todo() == todo)
    && Follows(chunking, g, given, if given == [] then {} else todo)
  }

  lemma OldChunksLeft(g: Graph, given: seq<nat>, todo: set<nat>, chunking: LinearizationChunking)
    requires g.Cluster() && (given == [] || g.Linearization(given)) && todo <= g.used
    requires Follows(chunking, g, given, if given == [] then {} else todo)
    ensures chunking.NumChunksLeft() > 0 <==> given != [] && todo != {}
    ensures given != [] && todo != {} ==>
              Chunks(g, Restrict(given, todo)) != [] && chunking.GetChunk(0) ==
              SetInfo(Elements(Chunks(g, Restrict(given, todo))[0]), g.SeqRate(Chunks(g, Restrict(given, todo))[0]))
  {
    if given != [] {
      RemainingShape(g, given, todo);
      if todo != {} {
        assert chunking.chunks[chunking.chunksSkip..][0] == chunking.GetChunk(0);
      }
    } else {
      assert Restrict(given, {}) == [];
    }
  }

  /** `best` is a closed subset of what remains, no worse than any ancestor set and the first old chunk. */
  ghost predicate GoodStart(g: Graph, given: seq<nat>, todo: set<nat>, best: SetInfo) {
    && best.Of(g) && GoodPiece(g, todo, best.transactions)
    && (given != [] ==>
          Chunks(g, Restrict(given, todo)) != [] &&
          Excess(g.SeqRate(Chunks(g, Restrict(given, todo))[0]), best.feerate) <= 0)
  }

  lemma NoLower(g: Graph, todo: set<nat>, s: set<nat>, s': set<nat>)
    requires g.Cluster() && todo <= g.used && GoodPiece(g, todo, s) && Candidate(g, todo, s')
    requires Excess(g.SetRate(s), g.SetRate(s')) <= 0
    ensures GoodPiece(g, todo, s')
  {
    SetRateSize(g, s);
    SetRateSize(g, s');
    forall x | x in todo ensures !Higher(g.SetRate(g.Ancestors(x) * todo), g.SetRate(s')) {
      SetRateSize(g, g.Ancestors(x) * todo);
      NotHigherTrans(g.SetRate(g.Ancestors(x) * todo), g.SetRate(s), g.SetRate(s'));
    }
  }

  /** A set at least as good as a good start is one. */
  lemma BetterStart(g: Graph, given: seq<nat>, todo: set<nat>, best: SetInfo, best': SetInfo)
    requires g.Cluster() && (given == [] || g.Linearization(given)) && todo <= g.used
    requires GoodStart(g, given, todo, best)
    requires best'.Of(g) && Candidate(g, todo, best'.transactions) && AtLeast(best'.feerate, best.feerate)
    ensures GoodStart(g, given, todo, best')
  {
    SetRateSize(g, best.transactions);
    SetRateSize(g, best'.transactions);
    NoLower(g, todo, best.transactions, best'.transactions);
    if given != [] {
      RemainingShape(g, given, todo);
      FirstChunk(g, Restrict(given, todo));
      NotHigherTrans(g.SeqRate(Chunks(g, Restrict(given, todo))[0]), best.feerate, best'.feerate);
    }
  }

  lemma BestAncestors(g: Graph, todo: set<nat>, best: SetInfo)
    requires best.Of(g) && Candidate(g, todo, best.transactions)
    requires forall i :: i in todo ==> AtLeast(best.feerate, g.SetRate(AncestorSet(g, i, todo)))
    ensures GoodPiece(g, todo, best.transactions)
  {
    forall x | x in todo ensures !Higher(g.SetRate(g.Ancestors(x) * todo), g.SetRate(best.transactions)) {
      assert AncestorSet(g, x, todo) == g.Ancestors(x) * todo;
    }
  }

  /** Where the search starts from: an ancestor set, or the first chunk of the old order if no worse. */
  method StartingSet(g: Graph, ghost given: seq<nat>, ghost todo: set<nat>, anc: AncestorCandidateFinder,
                     ghost src: SearchCandidateFinder?, chunking: LinearizationChunking) returns (best: SetInfo)
    requires g.Cluster() && (given == [] || g.Linearization(given)) && todo != {}
    requires InSync(g, given, todo, anc, src, chunking)
    ensures GoodStart(g, given, todo, best)
  {
    OldChunksLeft(g, given, todo, chunking);
    // What the old order has to offer.
    var bestPrefix := SetInfo({}, FeeFrac(0, 0));
    if chunking.NumChunksLeft() > 0 {
      bestPrefix := chunking.GetChunk(0);
      FirstChunkCandidate(g, given, todo);
      SetRateSize(g, bestPrefix.transactions);
    }
    // What the ancestor sets have to offer.
    best := anc.FindCandidateSet();
    BestAncestors(g, todo, best);
    SetRateSize(g, best.transactions);
    if !bestPrefix.feerate.IsEmpty() && AtLeast(bestPrefix.feerate, best.feerate) {
      NoLower(g, todo, best.transactions, bestPrefix.transactions);
      best := bestPrefix;
    }
  }

  /** Search on from `best` if there are iterations enough to begin with. */
  method SearchOn(g: Graph, ghost given: seq<nat>, ghost todo: set<nat>, remaining: nat, src: SearchCandidateFinder?,
                  start: SetInfo, iterationsLeft: nat)
    returns (best: SetInfo, exact: bool, iterationsLeft': nat)
    requires g.Cluster() && (given == [] || g.Linearization(given)) && todo != {} && todo <= g.used
    requires src != null ==> src.Valid() && src.original == g && src.Todo() == todo
    requires remaining == |todo| && GoodStart(g, given, todo, start)
    ensures GoodStart(g, given, todo, best) && (exact ==> Optimal(g, todo, best.transactions))
    ensures src == null ==> !exact && iterationsLeft' == iterationsLeft
    ensures Spends(remaining, src != null, iterationsLeft, exact, iterationsLeft')
  {
    best := start;
    var iterationsDoneNow, maxIterationsNow := 0, 0;
    iterationsLeft' := iterationsLeft;
    if src != null {
      var baseIterations := (remaining + 3) / 4;
      if iterationsLeft' > baseIterations {
        // Search on, but leave half of the budget to the sets after this one.
        iterationsLeft' := iterationsLeft' - baseIterations;
        maxIterationsNow := (iterationsLeft' + 1) / 2;
        TodoNotDone(src);
        ghost var items;
        best, iterationsDoneNow, items := src.FindCandidateSet(maxIterationsNow, best);
        BetterStart(g, given, todo, start, best);
        iterationsLeft' := iterationsLeft' - iterationsDoneNow;
      }
    }
    exact := iterationsDoneNow != maxIterationsNow;
    EnoughLeft(remaining, src != null, iterationsLeft, iterationsDoneNow, maxIterationsNow, iterationsLeft');
  }

  /** What the choice of a set costs, and that with iterations enough it is exact and leaves enough. */
  ghost predicate Spends(n: nat, searching: bool, left: nat, exact: bool, left': nat) {
    && left' <= left
    && (n > 0 && searching && left >= EnoughIterations(n) ==> exact && left' >= EnoughIterations(n - 1))
    && (searching && !exact ==> left' <= Max(left / 2, (n + 3) / 4))
  }

  lemma EnoughLeft(n: nat, searching: bool, left: nat, done: nat, most: nat, left': nat)
    requires done < Fib(n + 2) && done <= most
    requires if searching && left > (n + 3) / 4
             then most == (left - (n + 3) / 4 + 1) / 2 && left' == left - (n + 3) / 4 - done
             else left' == left
    ensures Spends(n, searching, left, done != most, left')
  {
    if n > 0 && searching && left >= EnoughIterations(n) {
      assert EnoughIterations(n) == (n + 3) / 4 + Fib(n + 2) - 1 + Max(Fib(n + 2), EnoughIterations(n - 1));
    }
  }

  /** Choose the set to output next. `exact` tells whether it is known to be the best there is. */
  method PickNext(g: Graph, ghost given: seq<nat>, ghost todo: set<nat>, anc: AncestorCandidateFinder,
                  src: SearchCandidateFinder?, chunking: LinearizationChunking, iterationsLeft: nat)
    returns (next: set<nat>, exact: bool, iterationsLeft': nat)
    requires g.Cluster() && (given == [] || g.Linearization(given)) && todo != {}
    requires InSync(g, given, todo, anc, src, chunking)
    ensures GoodPiece(g, todo, next)
    ensures given != [] ==> Movable(g, Restrict(given, todo), next)
    ensures exact ==> Optimal(g, todo, next)
    ensures src == null ==> !exact && iterationsLeft' == iterationsLeft
    ensures Spends(|todo|, src != null, iterationsLeft, exact, iterationsLeft')
  {
    var best := StartingSet(g, given, todo, anc, src, chunking);
    best, exact, iterationsLeft' := SearchOn(g, given, todo, |anc.todo|, src, best, iterationsLeft);
    next := CutToOld(g, given, todo, chunking, best, exact);
  }

  lemma TodoNotDone(src: SearchCandidateFinder)
    requires src.Valid() && src.Todo() != {}
    ensures !src.AllDone()
  {
  }

  /** A set that may not be the best is cut to a part that begins the old order, so that what the
      old diagram reaches later stays within reach. */
  method CutToOld(g: Graph, ghost given: seq<nat>, ghost todo: set<nat>, chunking: LinearizationChunking,
                  best: SetInfo, exact: bool) returns (next: set<nat>)
    requires g.Cluster() && (given == [] || g.Linearization(given)) && todo != {} && todo <= g.used
    requires Follows(chunking, g, given, if given == [] then {} else todo)
    requires GoodStart(g, given, todo, best) && (exact ==> Optimal(g, todo, best.transactions))
    ensures GoodPiece(g, todo, next)
    ensures given != [] ==> Movable(g, Restrict(given, todo), next)
    ensures exact ==> next == best.transactions
  {
    OldChunksLeft(g, given, todo, chunking);
    next := best.transactions;
    if !exact && chunking.NumChunksLeft() > 0 {
      var part := chunking.IntersectPrefixes(best);
      FrontPartMovable(g, given, todo, best.transactions, part.transactions);
      NoLower(g, todo, best.transactions, part.transactions);
      next := part.transactions;
    } else if exact && given != [] {
      OptimalMovable(g, given, todo, best.transactions);
    }
  }

  ghost predicate Apart(anc: AncestorCandidateFinder, src: SearchCandidateFinder?, chunking: LinearizationChunking) {
    && anc as object != chunking as object
    && (src == null || (src as object != anc as object && src as object != chunking as object))
  }

  /** Update the finders and the old chunking to reflect that `done` is no longer to be linearized. */
  method MarkAllDone(g: Graph, ghost given: seq<nat>, ghost todo: set<nat>, anc: AncestorCandidateFinder,
                     src: SearchCandidateFinder?, chunking: LinearizationChunking, done: set<nat>)
    requires g.Cluster() && (given == [] || g.Linearization(given))
    requires InSync(g, given, todo, anc, src, chunking) && done <= todo && done != {}
    requires Apart(anc, src, chunking)
    modifies anc, src, chunking
    ensures InSync(g, given, todo - done, anc, src, chunking)
  {
    anc.MarkDone(done);
    if src != null {
      src.MarkDone(done);
    }
    OldChunksLeft(g, given, todo, chunking);
    if chunking.NumChunksLeft() > 0 {
      MarkDone(chunking, g, given, done);
    }
  }

  method Emit(g: Graph, ghost given: seq<nat>, out: seq<nat>, ghost todo: set<nat>, ghost optimal: bool,
              next: set<nat>, ghost exact: bool, ghost pieces: seq<seq<nat>>)
    returns (out': seq<nat>, ghost pieces': seq<seq<nat>>)
    requires g.Cluster() && (given == [] || g.Linearization(given)) && Promises(g, given, out, todo, optimal)
    requires GoodPiece(g, todo, next) && BuiltOf(g, out, pieces)
    requires given != [] ==> Movable(g, Restrict(given, todo), next)
    requires exact ==> Optimal(g, todo, next)
    ensures Promises(g, given, out', todo - next, optimal && exact) && BuiltOf(g, out', pieces')
  {
    out' := AppendTopo(g, out, next);
    ghost var t := out'[|out|..];
    assert out' == out + t;
    assert t == [] ==> Elements(t) == {};
    PromisesStep(g, given, out, todo, optimal, t, exact);
    assert g.used - Elements(out) == todo;
    BuiltNext(g, out, pieces, t);
    pieces' := pieces + [t];
  }

  /** The budget: whether there is a search, what it was begun with and charged at the start, and what would be
      enough for it. */
  datatype Terms = Terms(searching: bool, n: nat, max: nat, setup: nat, enough: nat)

  /** The iterations left when some sets were output already, or not, and `m` transactions are to go. */
  ghost predicate Budget(b: Terms, begun: bool, m: nat, left: int, optimal: bool) {
    && 0 <= left <= b.max - (if b.searching then b.setup else 0)
    && (!b.searching ==> left == b.max && (begun ==> !optimal))
    && (b.searching && b.max >= b.setup + b.enough ==> optimal && left >= EnoughIterations(m))
    && (b.searching && !optimal ==> left <= Max((b.max - b.setup) / 2, (b.n + 3) / 4))
  }

  lemma BudgetNext(b: Terms, begun: bool, todo: set<nat>, next: set<nat>, left: nat, optimal: bool, exact: bool,
                   left': nat)
    requires Budget(b, begun, |todo|, left, optimal) && next <= todo && next != {} && |todo| <= b.n
    requires Spends(|todo|, b.searching, left, exact, left') && (!b.searching ==> !exact && left' == left)
    ensures Budget(b, true, |todo - next|, left', optimal && exact)
  {
    FewerLeft(todo, next);
  }

  lemma FewerLeft(todo: set<nat>, next: set<nat>)
    requires next <= todo && next != {}
    ensures |todo - next| < |todo| && EnoughIterations(|todo - next|) <= EnoughIterations(|todo| - 1)
  {
    SubsetSize(todo - next, todo);
    EnoughMono(|todo - next|, |todo| - 1);
  }

  /** Set up the finders, the search only if there are iterations enough for it. */
  method Begin(g: Graph, maxIterations: nat, given: seq<nat>)
    returns (anc: AncestorCandidateFinder, src: SearchCandidateFinder?, chunking: LinearizationChunking,
             iterationsLeft: nat)
    requires g.Cluster() && (given == [] || g.Linearization(given))
    ensures fresh(anc) && fresh(chunking) && (src != null ==> fresh(src)) && Apart(anc, src, chunking)
    ensures InSync(g, given, g.used, anc, src, chunking)
    ensures src == null <==> maxIterations <= SetupIterations(|g.used|)
    ensures iterationsLeft == if src == null then maxIterations else maxIterations - SetupIterations(|g.used|)
  {
    iterationsLeft := maxIterations;
    anc := new AncestorCandidateFinder(g);
    // Setting up the search is charged to the budget too.
    src := null;
    var startIterations := SetupIterations(|g.used|);
    if iterationsLeft > startIterations {
      iterationsLeft := iterationsLeft - startIterations;
      src := new SearchCandidateFinder(g);
    }
    // The chunks of the old order.
    chunking := new LinearizationChunking(g, given);
    RestrictAll(given, if given == [] then {} else g.used);
  }

  ghost function TermsOf(n: nat, max: nat): Terms {
    Terms(max > SetupIterations(n), n, max, SetupIterations(n), EnoughIterations(n))
  }

  lemma BudgetDone(n: nat, max: nat, left: nat, optimal: bool)
    requires n > 0 && Budget(TermsOf(n, max), true, 0, left, optimal)
    ensures Affords(n, max, optimal, max - left)
  {
  }

  /** What the answer is for a budget: the search is only begun with more than setting it up is charged with; with
      enough the result is optimal, and if it is not, half of the rest was used, or almost all of it. */
  ghost predicate Affords(n: nat, max: nat, optimal: bool, cost: int) {
    && 0 <= cost <= max
    && (max >= SetupIterations(n) + EnoughIterations(n) ==> optimal)
    && (n > 0 && max <= SetupIterations(n) ==> !optimal && cost == 0)
    && (n > 0 && max > SetupIterations(n) ==> cost >= SetupIterations(n))
    && (n > 0 && max > SetupIterations(n) && !optimal ==>
          max - cost <= Max((max - SetupIterations(n)) / 2, (n + 3) / 4))
  }

  /** Output the next set. */
  method Round(g: Graph, ghost given: seq<nat>, ghost todo: set<nat>, anc: AncestorCandidateFinder,
               src: SearchCandidateFinder?, chunking: LinearizationChunking, ghost terms: Terms,
               ghost begun: bool, out: seq<nat>, optimal: bool, iterationsLeft: nat, ghost pieces: seq<seq<nat>>)
    returns (out': seq<nat>, optimal': bool, iterationsLeft': nat, ghost todo': set<nat>, ghost pieces': seq<seq<nat>>)
    requires g.Cluster() && (given == [] || g.Linearization(given)) && todo != {}
    requires Apart(anc, src, chunking) && InSync(g, given, todo, anc, src, chunking)
    requires Promises(g, given, out, todo, optimal) && BuiltOf(g, out, pieces)
    requires terms.searching == (src != null) && terms.n == |g.used|
    requires Budget(terms, begun, |todo|, iterationsLeft, optimal)
    modifies anc, src, chunking
    ensures todo' < todo && InSync(g, given, todo', anc, src, chunking)
    ensures Promises(g, given, out', todo', optimal') && BuiltOf(g, out', pieces')
    ensures Budget(terms, true, |todo'|, iterationsLeft', optimal')
  {
    var next, exact;
    next, exact, iterationsLeft' := PickNext(g, given, todo, anc, src, chunking, iterationsLeft);
    // Add to output in topological order.
    out', pieces' := Emit(g, given, out, todo, optimal, next, exact, pieces);
    optimal' := optimal && exact;
    todo' := todo - next;
    SubsetSize(todo, g.used);
    BudgetNext(terms, begun, todo, next, iterationsLeft, optimal, exact, iterationsLeft');
    MarkAllDone(g, given, todo, anc, src, chunking, next);
  }

  /** An order for a cluster, given another one or none. The result is at no size below the diagram of
      the old linearization, and when `optimal` is set, not below that of any linearization. It is set when
      there are iterations enough, and it is made of pieces none of which an ancestor set beats in any case. */
  method Linearize(g: Graph, maxIterations: nat, given: seq<nat>)
    returns (linearization: seq<nat>, optimal: bool, cost: nat, ghost pieces: seq<seq<nat>>)
    requires g.Cluster() && (given == [] || g.Linearization(given))
    ensures g.Linearization(linearization)
    ensures given != [] ==> NowhereBelow(g, linearization, given)
    ensures optimal ==> forall lin :: g.Linearization(lin) ==> NowhereBelow(g, linearization, lin)
    ensures BuiltOf(g, linearization, pieces)
    ensures Affords(|g.used|, maxIterations, optimal, cost)
  {
    PromisesStart(g, given);
    linearization, optimal, pieces := [], true, [];
    if g.used == {} {
      PromisesKept(g, given, linearization, optimal);
      return [], true, 0, [];
    }
    var anc, src, chunking, iterationsLeft := Begin(g, maxIterations, given);
    ghost var todo := g.used;
    ghost var terms, begun := TermsOf(|g.used|, maxIterations), false;
    while anc.todo != {}
      invariant fresh(anc) && fresh(chunking) && (src != null ==> fresh(src)) && Apart(anc, src, chunking)
      invariant InSync(g, given, todo, anc, src, chunking)
      invariant Promises(g, given, linearization, todo, optimal) && BuiltOf(g, linearization, pieces)
      invariant terms.searching == (src != null) && terms.n == |g.used|
      invariant Budget(terms, begun, |todo|, iterationsLeft, optimal)
      invariant !begun ==> todo == g.used
      decreases todo
    {
      linearization, optimal, iterationsLeft, todo, pieces :=
        Round(g, given, todo, anc, src, chunking, terms, begun, linearization, optimal, iterationsLeft, pieces);
      begun := true;
    }
    BudgetDone(|g.used|, maxIterations, iterationsLeft, optimal);
    PromisesKept(g, given, linearization, optimal);
    cost := maxIterations - iterationsLeft;
  }
}
