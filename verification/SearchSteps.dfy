/** The steps of the branch-and-bound search: adding a work item, and splitting one. */
module SearchSteps {
  import opened FeeFracs
  import opened Sets
  import opened Positions
  import opened Graphs
  import opened DepGraphs
  import opened SearchTheory
  import opened SearchQueues

  /** What the search is run on: a cluster sorted by feerate, and what remains of it. */
  ghost predicate Searchable(g: Graph, todo: set<nat>) {
    g.Cluster() && SortedByFeerate(g) && todo <= g.used
  }

  /** The best closed set found so far, and the transactions above its feerate. */
  ghost predicate Incumbent(g: Graph, todo: set<nat>, best: SetInfo, imp: set<nat>) {
    best.Of(g) && Candidate(g, todo, best.transactions) && Improving(g, todo, best.feerate, imp)
  }

  lemma IncumbentSize(g: Graph, todo: set<nat>, best: SetInfo, imp: set<nat>)
    requires Searchable(g, todo) && Incumbent(g, todo, best, imp)
    ensures best.feerate.size > 0
  {
    SetRateSize(g, best.transactions);
  }

  /** Remove the entries of `imp` that are not above `best`, from the last one down. */
  method ShrinkImproving(g: Graph, ghost todo: set<nat>, imp: set<nat>, best: FeeFrac) returns (imp': set<nat>)
    requires Searchable(g, todo) && imp <= todo && best.size > 0
    requires forall t :: t in todo && Higher(g.FeeRate(t), best) ==> t in imp
    ensures Improving(g, todo, best, imp')
  {
    imp' := imp;
    while imp' != {}
      invariant imp' <= imp
      invariant forall t :: t in todo && Higher(g.FeeRate(t), best) ==> t in imp'
      decreases imp'
    {
      var check := Last(imp');
      if Higher(g.FeeRate(check), best) {
        forall t | t in imp' ensures Higher(g.FeeRate(t), best) {
          assert AtLeast(g.FeeRate(t), g.FeeRate(check));
          NotHigherTrans(best, g.FeeRate(check), g.FeeRate(t));
        }
        break;
      }
      imp' := imp' - {check};
    }
  }

  /** Midway through building the potential: the improving undecided transactions outside `rest`
      have been added, and each is above the result. */
  ghost predicate Growing(g: Graph, imp: set<nat>, inc: set<nat>, und: set<nat>, pot: SetInfo, rest: set<nat>) {
    && pot.Of(g)
    && rest <= imp * und
    && pot.transactions == inc + (imp * und - rest)
    && (forall t :: t in imp * und - rest ==> Higher(g.FeeRate(t), pot.feerate))
    && (forall t, u :: t in imp * und - rest && u in rest ==> t < u)
  }

  lemma GrowStep(g: Graph, imp: set<nat>, inc: set<nat>, und: set<nat>, pot: SetInfo, rest: set<nat>, pos: nat)
    requires g.WellFormed() && g.Sized() && SortedByFeerate(g) && inc + und <= g.used && inc !! und && inc != {}
    requires Growing(g, imp, inc, und, pot, rest) && rest != {} && pos == First(rest)
    requires Higher(g.FeeRate(pos), pot.feerate)
    ensures Growing(g, imp, inc, und, SetInfo(pot.transactions + {pos}, pot.feerate.Plus(g.FeeRate(pos))), rest - {pos})
  {
    var pot' := SetInfo(pot.transactions + {pos}, pot.feerate.Plus(g.FeeRate(pos)));
    SetRateAdd(g, pot.transactions, pos);
    AddHigher(pot.feerate, g.FeeRate(pos));
    SetRateSize(g, pot'.transactions);
    forall t | t in imp * und - (rest - {pos}) ensures Higher(g.FeeRate(t), pot'.feerate) {
      if t != pos {
        assert AtLeast(g.FeeRate(t), g.FeeRate(pos));
        NotHigherTrans(pot'.feerate, g.FeeRate(pos), g.FeeRate(t));
      }
    }
  }

  lemma GrowDone(g: Graph, todo: set<nat>, best: FeeFrac, imp: set<nat>, inc: set<nat>, und: set<nat>, pot: SetInfo,
                 rest: set<nat>)
    requires Searchable(g, todo) && inc + und <= todo && inc !! und && inc != {}
    requires Improving(g, todo, best, imp)
    requires Growing(g, imp, inc, und, pot, rest)
    requires rest != {} ==> !Higher(g.FeeRate(First(rest)), pot.feerate)
    ensures PotentialOf(g, best, inc, und, pot.transactions)
    ensures forall t :: t in pot.transactions - inc ==> Higher(g.FeeRate(t), best)
  {
    SetRateSize(g, pot.transactions);
    forall t | t in und - pot.transactions
      ensures !Higher(g.FeeRate(t), pot.feerate) || !Higher(g.FeeRate(t), best)
    {
      if t in imp {
        assert t in rest;
        assert AtLeast(g.FeeRate(First(rest)), g.FeeRate(t));
        NotHigherTrans(g.FeeRate(t), g.FeeRate(First(rest)), pot.feerate);
      }
    }
  }

  /** Extend `inc` by the undecided transactions that raise its feerate, in decreasing order of
      their own. */
  method FindPotential(g: Graph, ghost todo: set<nat>, ghost best: FeeFrac, imp: set<nat>, inc: SetInfo, und: set<nat>)
    returns (pot: SetInfo)
    requires Searchable(g, todo) && ItemShape(g, todo, inc, und) && inc.transactions != {}
    requires Improving(g, todo, best, imp)
    ensures pot.Of(g) && PotentialOf(g, best, inc.transactions, und, pot.transactions)
    ensures forall t :: t in pot.transactions - inc.transactions ==> Higher(g.FeeRate(t), best)
  {
    pot := inc;
    var rest := imp * und;
    assert inc.transactions + (imp * und - rest) == inc.transactions;
    while rest != {}
      invariant Growing(g, imp, inc.transactions, und, pot, rest)
      decreases rest
    {
      var pos := First(rest);
      // If adding pos would not improve pot, nothing after it would: feerates decrease.
      if !Higher(g.FeeRate(pos), pot.feerate) {
        break;
      }
      GrowStep(g, imp, inc.transactions, und, pot, rest, pos);
      pot := SetInfo(pot.transactions + {pos}, pot.feerate.Plus(g.FeeRate(pos)));
      rest := rest - {pos};
    }
    GrowDone(g, todo, best, imp, inc.transactions, und, pot, rest);
  }

  lemma ClosedUnion(g: Graph, a: set<nat>, b: set<nat>, todo: set<nat>)
    requires g.ClosedIn(a, todo) && g.ClosedIn(b, todo)
    ensures g.ClosedIn(a + b, todo)
  {
  }

  lemma AncestorsClosed(g: Graph, todo: set<nat>, t: nat)
    requires g.WellFormed() && t in g.used
    ensures g.ClosedIn(g.Ancestors(t) * todo, todo)
  {
    forall i | i in g.Ancestors(t) * todo ensures g.Ancestors(i) * todo <= g.Ancestors(t) * todo {
      Inherit(g, t, i);
    }
  }

  /** Add to `inc` every transaction of the potential whose remaining ancestors are all in it. */
  method Jump(g: Graph, todo: set<nat>, inc: set<nat>, pot: set<nat>) returns (inc': set<nat>)
    requires g.WellFormed() && todo <= g.used && inc <= pot <= todo && g.ClosedIn(inc, todo)
    ensures inc <= inc' <= pot && g.ClosedIn(inc', todo)
    ensures forall t :: t in pot && g.Ancestors(t) * todo <= pot ==> t in inc'
  {
    inc' := inc;
    var rest := pot - inc;
    while rest != {}
      invariant rest <= pot && inc <= inc' <= pot && g.ClosedIn(inc', todo)
      invariant forall t :: t in pot - inc - rest && g.Ancestors(t) * todo <= pot ==> t in inc'
      decreases rest
    {
      var pos := First(rest);
      var ancTodo := g.Ancestors(pos) * todo;
      if ancTodo <= pot {
        AncestorsClosed(g, todo, pos);
        ClosedUnion(g, inc', ancTodo, todo);
        inc' := inc' + ancTodo;
      }
      rest := rest - {pos};
    }
  }

  // ---------- Adding a work item ----------

  /** What the addition of an item leaves: a best set that is at least as good, and items that
      take over what the new one stands for. */
  ghost predicate Added(g: Graph, todo: set<nat>, best: FeeFrac, inc: SetInfo, und: set<nat>,
                        added: seq<WorkItem>, best': SetInfo, imp': set<nat>)
  {
    && Incumbent(g, todo, best', imp') && AtLeast(best'.feerate, best)
    && |added| <= 1 && AllValid(g, todo, best'.feerate, added)
    && (forall k :: 0 <= k < |added| ==> added[k].und <= und)
    && Work(added) <= MostSplits(inc.transactions == {}, |und|)
    && Handled(g, todo, WorkItem(inc, und, inc.feerate), added, best'.feerate)
  }

  /** Once the potential is all included, the item holds nothing better than `best`. */
  lemma NothingBeyond(g: Graph, todo: set<nat>, best: FeeFrac, best': FeeFrac, inc: SetInfo, und: set<nat>,
                      pot: set<nat>)
    requires Searchable(g, todo) && ItemShape(g, todo, inc, und) && inc.transactions != {}
    requires best.size > 0 && best'.size > 0 && AtLeast(best', best)
    requires PotentialOf(g, best, inc.transactions, und, pot) && AtLeast(best', g.SetRate(pot))
    ensures Handled(g, todo, WorkItem(inc, und, inc.feerate), [], best')
  {
    PotentialKept(g, best, best', inc.transactions, und, pot);
    var item := WorkItem(inc, und, inc.feerate);
    forall y | Candidate(g, todo, y) && Covers(item, y) ensures AtLeast(best', g.SetRate(y)) {
      PruneByPotential(g, best', inc.transactions, und, pot, y);
    }
    NoneBetter(g, todo, item, best');
  }

  lemma NoneBetter(g: Graph, todo: set<nat>, item: WorkItem, best: FeeFrac)
    requires g.WellFormed() && g.Sized() && todo <= g.used && best.size > 0
    requires forall y :: Candidate(g, todo, y) && Covers(item, y) ==> AtLeast(best, g.SetRate(y))
    ensures Handled(g, todo, item, [], best)
  {
    forall y | Candidate(g, todo, y) && Covers(item, y) ensures !Better(g.SetRate(y), best) {
      SetRateSize(g, y);
      BetterTotal(g.SetRate(y), best);
    }
  }

  /** The item after jumping ahead takes over from the one before. */
  lemma JumpHandled(g: Graph, todo: set<nat>, best: FeeFrac, best': FeeFrac, inc: SetInfo, und: set<nat>,
                    pot: SetInfo, inc': SetInfo)
    requires Searchable(g, todo) && ItemShape(g, todo, inc, und) && inc.transactions != {} && best.size > 0
    requires PotentialOf(g, best, inc.transactions, und, pot.transactions)
    requires forall t :: t in pot.transactions - inc.transactions ==> Higher(g.FeeRate(t), best)
    requires inc.transactions <= inc'.transactions <= pot.transactions && g.ClosedIn(inc'.transactions, todo)
    ensures Handled(g, todo, WorkItem(inc, und, inc.feerate),
                    [WorkItem(inc', und - inc'.transactions, pot.feerate)], best')
  {
    var next := WorkItem(inc', und - inc'.transactions, pot.feerate);
    var item := WorkItem(inc, und, inc.feerate);
    forall y | Candidate(g, todo, y) && Covers(item, y) ensures Reached(g, todo, [next], y) {
      JumpAhead(g, best, inc.transactions, und, pot.transactions, inc'.transactions, y);
      ClosedUnion(g, y, inc'.transactions, todo);
      assert Covers([next][0], y + inc'.transactions);
    }
  }

  /** A transaction that is no worse than one beyond what is included belongs to the potential too. */
  lemma InPotential(g: Graph, best: FeeFrac, inc: set<nat>, und: set<nat>, pot: set<nat>, p: nat, q: nat)
    requires g.WellFormed() && g.Sized() && inc + und <= g.used && inc != {} && best.size > 0
    requires PotentialOf(g, best, inc, und, pot)
    requires p in pot - inc && Higher(g.FeeRate(p), best) && q in und && AtLeast(g.FeeRate(q), g.FeeRate(p))
    ensures q in pot
  {
    SetRateSize(g, pot);
    NotHigherTrans(best, g.FeeRate(p), g.FeeRate(q));
    NotHigherTrans(g.SetRate(pot), g.FeeRate(p), g.FeeRate(q));
  }

  /** What is left after jumping ahead begins with a transaction that could not be included: one of its ancestors
      is left too. */
  lemma JumpEntangled(g: Graph, todo: set<nat>, best: FeeFrac, inc: SetInfo, und: set<nat>, pot: set<nat>,
                      inc': set<nat>)
    requires Searchable(g, todo) && ItemShape(g, todo, inc, und) && inc.transactions != {} && best.size > 0
    requires PotentialOf(g, best, inc.transactions, und, pot)
    requires forall t :: t in pot - inc.transactions ==> Higher(g.FeeRate(t), best)
    requires inc.transactions <= inc' <= pot && inc' != pot
    requires forall t :: t in pot && g.Ancestors(t) * todo <= pot ==> t in inc'
    ensures Entangled(g, und - inc')
  {
    var left := und - inc';
    var p := Beyond(inc', pot);
    assert p in left && p in pot - inc.transactions;
    var first := First(left);
    InPotential(g, best, inc.transactions, und, pot, p, first);
    AncestorLeft(g, todo, inc, und, pot, first);
  }

  lemma Beyond(a: set<nat>, b: set<nat>) returns (p: nat)
    requires a <= b && a != b
    ensures p in b && p !in a
  {
    SubsetSize(a, b);
    assert b == a + (b - a);
    p := Witness(b - a);
  }

  lemma AncestorLeft(g: Graph, todo: set<nat>, inc: SetInfo, und: set<nat>, pot: set<nat>, first: nat)
    requires ItemShape(g, todo, inc, und) && inc.transactions <= pot && first in und && first in pot
    requires !(g.Ancestors(first) * todo <= pot)
    ensures exists a :: a in und - pot && a in g.Ancestors(first) && a != first
  {
    var a :| a in g.Ancestors(first) * todo && a !in pot;
    assert first in inc.transactions + und;
    assert a in inc.transactions + und;
  }

  lemma JumpWork(item: WorkItem, und: set<nat>)
    requires item.inc.transactions != {} && item.und <= und
    ensures Work([item]) <= MostSplits(false, |und|)
  {
    WorkSingle(item);
    SubsetSize(item.und, und);
    MostSplitsMono(false, |item.und|, |und|);
  }

  lemma JumpValid(g: Graph, todo: set<nat>, best: FeeFrac, best': FeeFrac, inc: SetInfo, und: set<nat>,
                  pot: SetInfo, inc': SetInfo)
    requires Searchable(g, todo) && ItemShape(g, todo, inc, und) && inc.transactions != {}
    requires best.size > 0 && best'.size > 0 && AtLeast(best', best) && AtLeast(best', inc'.feerate)
    requires pot.Of(g) && PotentialOf(g, best, inc.transactions, und, pot.transactions)
    requires inc.transactions <= inc'.transactions <= pot.transactions && g.ClosedIn(inc'.transactions, todo)
    requires inc'.Of(g) && inc'.transactions != pot.transactions && Entangled(g, und - inc'.transactions)
    ensures WorkValid(g, todo, best', WorkItem(inc', und - inc'.transactions, pot.feerate))
  {
    PotentialKept(g, best, best', inc.transactions, und, pot.transactions);
    PotentialAfterJump(g, best', inc.transactions, und, pot.transactions, inc'.transactions);
    assert inc'.transactions + (und - inc'.transactions) == inc.transactions + und;
    assert pot.transactions == inc'.transactions + (pot.transactions - inc'.transactions);
    assert pot.transactions - inc'.transactions <= und - inc'.transactions;
  }

  lemma JumpAdded(g: Graph, todo: set<nat>, best: FeeFrac, best': SetInfo, imp': set<nat>, inc: SetInfo, und: set<nat>,
                  pot: SetInfo, inc': SetInfo)
    requires Searchable(g, todo) && ItemShape(g, todo, inc, und) && inc.transactions != {}
    requires best.size > 0 && Incumbent(g, todo, best', imp')
    requires AtLeast(best'.feerate, best) && AtLeast(best'.feerate, inc'.feerate)
    requires pot.Of(g) && PotentialOf(g, best, inc.transactions, und, pot.transactions)
    requires forall t :: t in pot.transactions - inc.transactions ==> Higher(g.FeeRate(t), best)
    requires inc.transactions <= inc'.transactions <= pot.transactions && g.ClosedIn(inc'.transactions, todo)
    requires forall t :: t in pot.transactions && g.Ancestors(t) * todo <= pot.transactions ==> t in inc'.transactions
    requires inc'.Of(g) && inc'.transactions != pot.transactions
    ensures Added(g, todo, best, inc, und, [WorkItem(inc', und - inc'.transactions, pot.feerate)], best', imp')
  {
    var item := WorkItem(inc', und - inc'.transactions, pot.feerate);
    IncumbentSize(g, todo, best', imp');
    JumpHandled(g, todo, best, best'.feerate, inc, und, pot, inc');
    JumpWork(item, und);
    JumpEntangled(g, todo, best, inc, und, pot.transactions, inc'.transactions);
    JumpValid(g, todo, best, best'.feerate, inc, und, pot, inc');
    AddedOne(g, todo, best, inc, und, item, best', imp');
  }

  lemma AddedOne(g: Graph, todo: set<nat>, best: FeeFrac, inc: SetInfo, und: set<nat>, item: WorkItem,
                 best': SetInfo, imp': set<nat>)
    requires Incumbent(g, todo, best', imp') && AtLeast(best'.feerate, best)
    requires WorkValid(g, todo, best'.feerate, item) && item.und <= und
    requires Work([item]) <= MostSplits(inc.transactions == {}, |und|)
    requires Handled(g, todo, WorkItem(inc, und, inc.feerate), [item], best'.feerate)
    ensures Added(g, todo, best, inc, und, [item], best', imp')
  {
  }

  /** Queue an item with something left to decide, after moving to its included part what is sure to
      belong there; the best set found so far may become a better one. */
  method AddItem(g: Graph, todo: set<nat>, best: SetInfo, imp: set<nat>, inc: SetInfo, und: set<nat>)
    returns (added: seq<WorkItem>, best': SetInfo, imp': set<nat>)
    requires Searchable(g, todo) && Incumbent(g, todo, best, imp) && ItemShape(g, todo, inc, und)
    ensures Added(g, todo, best.feerate, inc, und, added, best', imp')
  {
    IncumbentSize(g, todo, best, imp);
    SetRateSize(g, inc.transactions);
    if inc.feerate.IsEmpty() {
      best', imp' := best, imp;
      // Nothing included yet: the item counts if something is undecided.
      if und == {} {
        NoneLeft(g, todo, inc, best.feerate);
        added := [];
      } else {
        added := [WorkItem(inc, und, FeeFrac(0, 0))];
        SameHandled(g, todo, inc, und, best.feerate);
        WorkSingle(added[0]);
      }
    } else {
      added, best', imp' := AddImproved(g, todo, best, imp, inc, und);
    }
  }

  lemma NoneLeft(g: Graph, todo: set<nat>, inc: SetInfo, best: FeeFrac)
    requires g.WellFormed() && g.Sized() && todo <= g.used && best.size > 0 && inc.transactions == {}
    ensures Handled(g, todo, WorkItem(inc, {}, inc.feerate), [], best)
  {
  }

  lemma SameHandled(g: Graph, todo: set<nat>, inc: SetInfo, und: set<nat>, best: FeeFrac)
    ensures Handled(g, todo, WorkItem(inc, und, inc.feerate), [WorkItem(inc, und, FeeFrac(0, 0))], best)
  {
    var item, next := WorkItem(inc, und, inc.feerate), WorkItem(inc, und, FeeFrac(0, 0));
    forall y | Candidate(g, todo, y) && Covers(item, y) ensures Reached(g, todo, [next], y) {
      assert Covers([next][0], y);
    }
  }

  method AddImproved(g: Graph, todo: set<nat>, best: SetInfo, imp: set<nat>, inc: SetInfo, und: set<nat>)
    returns (added: seq<WorkItem>, best': SetInfo, imp': set<nat>)
    requires Searchable(g, todo) && Incumbent(g, todo, best, imp) && ItemShape(g, todo, inc, und)
    requires inc.transactions != {}
    ensures Added(g, todo, best.feerate, inc, und, added, best', imp')
  {
    IncumbentSize(g, todo, best, imp);
    var pot := FindPotential(g, todo, best.feerate, imp, inc, und);
    // Jump ahead: whatever topologically valid subset the potential has can be included.
    var jumped := Jump(g, todo, inc.transactions, pot.transactions);
    var inc' := SetInfo(jumped, inc.feerate.Plus(g.SetRate(jumped - inc.transactions)));
    SetRateSplit(g, jumped, inc.transactions);
    assert jumped * inc.transactions == inc.transactions;
    // If the included set is better than the best, remember it.
    best', imp' := Improve(g, todo, best, imp, inc');
    IncumbentSize(g, todo, best', imp');
    // If no potential transactions exist beyond the included ones, no improvement is possible.
    SetRateMono(g, jumped, pot.transactions);
    if pot.feerate.size == inc'.feerate.size {
      NothingBeyond(g, todo, best.feerate, best'.feerate, inc, und, pot.transactions);
      added := [];
    } else {
      JumpAdded(g, todo, best.feerate, best', imp', inc, und, pot, inc');
      added := [WorkItem(inc', und - jumped, pot.feerate)];
    }
  }

  method Improve(g: Graph, ghost todo: set<nat>, best: SetInfo, imp: set<nat>, inc: SetInfo)
    returns (best': SetInfo, imp': set<nat>)
    requires Searchable(g, todo) && Incumbent(g, todo, best, imp)
    requires inc.Of(g) && Candidate(g, todo, inc.transactions)
    ensures Incumbent(g, todo, best', imp')
    ensures AtLeast(best'.feerate, best.feerate) && AtLeast(best'.feerate, inc.feerate)
  {
    IncumbentSize(g, todo, best, imp);
    SetRateSize(g, inc.transactions);
    BetterTotal(inc.feerate, best.feerate);
    best', imp' := best, imp;
    if Better(inc.feerate, best.feerate) {
      best' := inc;
      forall t | t in todo && Higher(g.FeeRate(t), inc.feerate) ensures t in imp {
        NotHigherTrans(best.feerate, inc.feerate, g.FeeRate(t));
      }
      imp' := ShrinkImproving(g, todo, imp, inc.feerate);
    }
  }

  // ---------- Splitting a work item ----------

  /** How many transactions stay undecided when `t` is included or excluded, larger count first. */
  function SplitCounts(g: Graph, und: set<nat>): nat -> (int, int) {
    (t: nat) =>
      var a, d := |und - g.Ancestors(t)|, |und - g.Descendants(t)|;
      if a < d then (d, a) else (a, d)
  }

  predicate LexLess(a: (int, int), b: (int, int)) {
    a.0 < b.0 || (a.0 == b.0 && a.1 < b.1)
  }

  /** `split` is the lowest of those with the least key. */
  ghost predicate FirstLeast(key: nat -> (int, int), seen: set<nat>, split: nat) {
    && split in seen
    && (forall t :: t in seen ==> !LexLess(key(t), key(split)))
    && (forall t :: t in seen && t < split ==> LexLess(key(split), key(t)))
  }

  /** The lowest position of `select` with the least key. */
  method LowestKey(key: nat -> (int, int), select: set<nat>) returns (split: nat)
    requires select != {}
    ensures FirstLeast(key, select, split)
  {
    split := First(select);
    var splitCounts := key(split);
    var rest := select - {split};
    ghost var seen := {split};
    while rest != {}
      invariant seen + rest == select && FirstLeast(key, seen, split)
      invariant splitCounts == key(split)
      invariant forall t, u :: t in seen && u in rest ==> t < u
      decreases rest
    {
      var t := First(rest);
      var counts := key(t);
      // Remember the t with the lowest counts.
      if LexLess(counts, splitCounts) {
        split := t;
        splitCounts := counts;
      }
      rest := rest - {t};
      seen := seen + {t};
    }
    assert seen == select;
  }

  /** Pick, among the undecided ancestors of `first`, the transaction that reduces the search
      space most, and the lowest of those. */
  method ChooseSplit(g: Graph, und: set<nat>, first: nat) returns (split: nat)
    requires und * g.Ancestors(first) != {}
    ensures FirstLeast(SplitCounts(g, und), und * g.Ancestors(first), split)
  {
    split := LowestKey(SplitCounts(g, und), und * g.Ancestors(first));
  }

  /** Without `t` and its descendants. */
  lemma ExcludeShape(g: Graph, todo: set<nat>, inc: SetInfo, und: set<nat>, t: nat)
    requires g.WellFormed() && todo <= g.used && ItemShape(g, todo, inc, und) && t in und
    ensures ItemShape(g, todo, inc, und - g.Descendants(t))
  {
    var s := inc.transactions + (und - g.Descendants(t));
    forall x, a | x in s && a in g.Ancestors(x) * todo ensures a in s {
      if x !in inc.transactions && a in und && a in g.Descendants(t) {
        Inherit(g, x, a);
      }
    }
  }

  /** With `t` and its remaining ancestors. */
  lemma IncludeShape(g: Graph, todo: set<nat>, inc: SetInfo, und: set<nat>, t: nat, inc': SetInfo)
    requires g.WellFormed() && todo <= g.used && ItemShape(g, todo, inc, und) && t in und
    requires inc' == SetInfo(inc.transactions + g.Ancestors(t) * todo,
                             inc.feerate.Plus(g.SetRate(g.Ancestors(t) * todo - inc.transactions)))
    ensures ItemShape(g, todo, inc', und - g.Ancestors(t) * todo)
  {
    var anc := g.Ancestors(t) * todo;
    assert anc <= inc.transactions + und by {
      assert t in inc.transactions + und;
    }
    AncestorsClosed(g, todo, t);
    ClosedUnion(g, inc.transactions, anc, todo);
    assert inc.transactions + anc == inc.transactions + (anc - inc.transactions);
    SetRateUnion(g, inc.transactions, anc - inc.transactions);
    assert inc'.transactions + (und - anc) == inc.transactions + und;
  }

  /** What processing an item leaves: a best set that is at least as good, and at most two items
      with fewer undecided transactions that take over what the item stands for. */
  ghost predicate Processed(g: Graph, todo: set<nat>, best: FeeFrac, elem: WorkItem,
                            added: seq<WorkItem>, best': SetInfo, imp': set<nat>)
  {
    && Incumbent(g, todo, best', imp') && AtLeast(best'.feerate, best)
    && |added| <= 2 && AllValid(g, todo, best'.feerate, added)
    && (forall k :: 0 <= k < |added| ==> |added[k].und| < |elem.und|)
    && Work(added) < Splits(elem)
    && Handled(g, todo, elem, added, best'.feerate)
  }

  /** An item that is pruned holds nothing better than the best set. */
  lemma PrunedProcessed(g: Graph, todo: set<nat>, best: SetInfo, imp: set<nat>, elem: WorkItem)
    requires Searchable(g, todo) && Incumbent(g, todo, best, imp) && WorkValid(g, todo, best.feerate, elem)
    requires if elem.inc.transactions != {}
             then elem.und * imp == {} || AtLeast(best.feerate, elem.potFeerate)
             else AtLeast(best.feerate, g.FeeRate(First(elem.und)))
    ensures Processed(g, todo, best.feerate, elem, [], best, imp)
  {
    IncumbentSize(g, todo, best, imp);
    forall y | Candidate(g, todo, y) && Covers(elem, y) ensures AtLeast(best.feerate, g.SetRate(y)) {
      PrunedAt(g, todo, best, imp, elem, y);
    }
    NoneBetter(g, todo, elem, best.feerate);
    SplitsPositive(g, todo, best.feerate, elem);
  }

  /** An item that is on the queue may be split. */
  lemma SplitsPositive(g: Graph, todo: set<nat>, best: FeeFrac, elem: WorkItem)
    requires WorkValid(g, todo, best, elem)
    ensures Splits(elem) > 0
  {
    var first := First(elem.und);
    if elem.inc.transactions != {} {
      var a :| a in elem.und && a in g.Ancestors(first) && a != first;
      AtLeastTwo(elem.und, first, a);
    } else {
      SubsetSize({first}, elem.und);
    }
    FibMono(3, |elem.und| + if elem.inc.transactions == {} then 2 else 1);
    assert Fib(3) == 2;
  }

  lemma AtLeastTwo(s: set<nat>, a: nat, b: nat)
    requires a in s && b in s && a != b
    ensures |s| >= 2
  {
    SubsetSize({a, b}, s);
  }

  lemma PrunedAt(g: Graph, todo: set<nat>, best: SetInfo, imp: set<nat>, elem: WorkItem, y: set<nat>)
    requires Searchable(g, todo) && Incumbent(g, todo, best, imp) && WorkValid(g, todo, best.feerate, elem)
    requires if elem.inc.transactions != {}
             then elem.und * imp == {} || AtLeast(best.feerate, elem.potFeerate)
             else AtLeast(best.feerate, g.FeeRate(First(elem.und)))
    requires Candidate(g, todo, y) && Covers(elem, y)
    ensures AtLeast(best.feerate, g.SetRate(y))
  {
    IncumbentSize(g, todo, best, imp);
    if elem.inc.transactions == {} {
      PruneByFirst(g, best.feerate, elem.und, y);
    } else if elem.und * imp == {} {
      forall t | t in elem.und ensures !Higher(g.FeeRate(t), best.feerate) {
        assert t !in elem.und * imp;
      }
      PruneByImproving(g, best.feerate, elem.inc.transactions, elem.und, y);
    } else {
      var pot :| PotentialOf(g, best.feerate, elem.inc.transactions, elem.und, pot) &&
          elem.potFeerate == g.SetRate(pot);
      PruneByPotential(g, best.feerate, elem.inc.transactions, elem.und, pot, y);
    }
  }

  /** Items whose undecided transactions are among fewer have fewer. */
  lemma ItemsShrink(added: seq<WorkItem>, und: set<nat>, und': set<nat>, t: nat)
    requires und' <= und && t in und && t !in und' && forall k :: 0 <= k < |added| ==> added[k].und <= und'
    ensures forall k :: 0 <= k < |added| ==> |added[k].und| < |und|
  {
    forall k | 0 <= k < |added| ensures |added[k].und| < |und| {
      assert t !in added[k].und;
      SubsetSize(added[k].und, und);
    }
  }

  lemma BothShrink(a: seq<WorkItem>, b: seq<WorkItem>, und: set<nat>)
    requires forall k :: 0 <= k < |a| ==> |a[k].und| < |und|
    requires forall k :: 0 <= k < |b| ==> |b[k].und| < |und|
    ensures forall k :: 0 <= k < |a + b| ==> |(a + b)[k].und| < |und|
  {
  }

  lemma BothValid(g: Graph, todo: set<nat>, best: FeeFrac, a: seq<WorkItem>, b: seq<WorkItem>)
    requires AllValid(g, todo, best, a) && AllValid(g, todo, best, b)
    ensures AllValid(g, todo, best, a + b)
  {
  }

  lemma Shorter(a: set<nat>, b: set<nat>, c: set<nat>)
    requires c <= a && c <= b
    ensures |a - b| + |c| <= |a|
  {
    SubsetSize(a - b, a - c);
    assert a == (a - c) + c;
  }

  lemma SelfRelated(g: Graph, t: nat)
    requires g.WellFormed() && t in g.used
    ensures t in g.Ancestors(t) && t in g.Descendants(t)
  {
  }

  ghost predicate ShorterBy(und: set<nat>, anc: set<nat>, desc: set<nat>, both: bool) {
    && |und - anc| < |und| && |und - desc| < |und|
    && (both ==> |und - anc| + 1 < |und| || |und - desc| + 1 < |und|)
  }

  /** Including a transaction that waits for another one leaves two transactions less. */
  lemma WaitingShrinks(und: set<nat>, anc: set<nat>, desc: set<nat>, t: nat, a: nat)
    requires t in und && t in anc && t in desc && a in und && a in anc && a != t
    ensures |und - anc| + 1 < |und| && |und - desc| < |und|
  {
    assert |{t, a}| == 2;
    Shorter(und, anc, {t, a});
    Shorter(und, desc, {t});
  }

  lemma OneShrinks(und: set<nat>, anc: set<nat>, desc: set<nat>, t: nat)
    requires t in und && t in anc && t in desc
    ensures |und - anc| < |und| && |und - desc| < |und|
  {
    Shorter(und, anc, {t});
    Shorter(und, desc, {t});
  }

  /** What is split on is no worse than the first transaction. */
  lemma NoWorse(g: Graph, und: set<nat>, first: nat, t: nat)
    requires first in und * g.Ancestors(first)
    requires FirstLeast(SplitCounts(g, und), und * g.Ancestors(first), t)
    requires |und - g.Ancestors(first)| + 1 < |und| && |und - g.Descendants(first)| < |und|
    ensures |und - g.Ancestors(t)| + 1 < |und| || |und - g.Descendants(t)| + 1 < |und|
  {
    assert !LexLess(SplitCounts(g, und)(first), SplitCounts(g, und)(t));
  }

  lemma SplitShrinks(g: Graph, und: set<nat>, t: nat, both: bool)
    requires g.WellFormed() && und <= g.used && und != {} && t in und
    requires FirstLeast(SplitCounts(g, und), und * g.Ancestors(First(und)), t) && (both ==> Entangled(g, und))
    ensures ShorterBy(und, g.Ancestors(t), g.Descendants(t), both)
  {
    SelfRelated(g, t);
    OneShrinks(und, g.Ancestors(t), g.Descendants(t), t);
    if both {
      var first := First(und);
      var a :| a in und && a in g.Ancestors(first) && a != first;
      SelfRelated(g, first);
      WaitingShrinks(und, g.Ancestors(first), g.Descendants(first), first, a);
      NoWorse(g, und, first, t);
    }
  }

  lemma WithinTodo(und: set<nat>, anc: set<nat>, todo: set<nat>)
    requires und <= todo
    ensures und - anc * todo == und - anc
  {
  }

  lemma ShorterWork(und: set<nat>, anc: set<nat>, desc: set<nat>, nothing: bool)
    requires ShorterBy(und, anc, desc, !nothing)
    ensures MostSplits(nothing, |und - desc|) + MostSplits(false, |und - anc|) < MostSplits(nothing, |und|)
  {
    if nothing {
      SplitNothing(|und|, |und - desc|, |und - anc|);
    } else {
      SplitSomething(|und|, |und - desc|, |und - anc|);
    }
  }

  /** The two parts of a split together give rise to fewer splits. */
  lemma SplitWork(g: Graph, todo: set<nat>, elem: WorkItem, t: nat)
    requires g.WellFormed() && elem.und <= todo <= g.used && t in elem.und
    requires elem.inc.transactions != {} ==> Entangled(g, elem.und)
    requires FirstLeast(SplitCounts(g, elem.und), elem.und * g.Ancestors(First(elem.und)), t)
    ensures MostSplits(elem.inc.transactions == {}, |elem.und - g.Descendants(t)|)
          + MostSplits(false, |elem.und - g.Ancestors(t) * todo|) < Splits(elem)
  {
    var und := elem.und;
    WithinTodo(und, g.Ancestors(t), todo);
    SplitShrinks(g, und, t, elem.inc.transactions != {});
    ShorterWork(und, g.Ancestors(t), g.Descendants(t), elem.inc.transactions == {});
  }

  /** The two items of a split together take over from the one that was split. */
  lemma SplitProcessed(g: Graph, todo: set<nat>, best: FeeFrac, elem: WorkItem, t: nat, inc': SetInfo,
                       added1: seq<WorkItem>, best1: SetInfo, imp1: set<nat>,
                       added2: seq<WorkItem>, best2: SetInfo, imp2: set<nat>)
    requires Searchable(g, todo) && best.size > 0 && WorkValid(g, todo, best, elem) && t in elem.und
    requires inc'.transactions == elem.inc.transactions + g.Ancestors(t) * todo
    requires FirstLeast(SplitCounts(g, elem.und), elem.und * g.Ancestors(First(elem.und)), t)
    requires Added(g, todo, best, elem.inc, elem.und - g.Descendants(t), added1, best1, imp1)
    requires Added(g, todo, best1.feerate, inc', elem.und - g.Ancestors(t) * todo, added2, best2, imp2)
    ensures Processed(g, todo, best, elem, added1 + added2, best2, imp2)
  {
    var added := added1 + added2;
    IncumbentSize(g, todo, best1, imp1);
    IncumbentSize(g, todo, best2, imp2);
    BetterTrans(best2.feerate, best1.feerate, best);
    AllValidKept(g, todo, best1.feerate, best2.feerate, added1);
    ItemsShrink(added1, elem.und, elem.und - g.Descendants(t), t);
    ItemsShrink(added2, elem.und, elem.und - g.Ancestors(t) * todo, t);
    BothShrink(added1, added2, elem.und);
    BothValid(g, todo, best2.feerate, added1, added2);
    SplitHandled(g, todo, elem, t, inc', added1, best1.feerate, added2, best2.feerate);
    assert t in inc'.transactions;
    WorkConcat(added1, added2);
    SplitWork(g, todo, elem, t);
  }

  lemma SplitHandled(g: Graph, todo: set<nat>, elem: WorkItem, t: nat, inc': SetInfo,
                     added1: seq<WorkItem>, best1: FeeFrac, added2: seq<WorkItem>, best2: FeeFrac)
    requires Searchable(g, todo) && elem.inc.transactions + elem.und <= todo && t in elem.und
    requires inc'.transactions == elem.inc.transactions + g.Ancestors(t) * todo
    requires best1.size > 0 && best2.size > 0 && AtLeast(best2, best1)
    requires Handled(g, todo, WorkItem(elem.inc, elem.und - g.Descendants(t), elem.inc.feerate), added1, best1)
    requires Handled(g, todo, WorkItem(inc', elem.und - g.Ancestors(t) * todo, inc'.feerate), added2, best2)
    ensures Handled(g, todo, elem, added1 + added2, best2)
  {
    forall y | Candidate(g, todo, y) && Covers(elem, y) && Better(g.SetRate(y), best2)
      ensures Reached(g, todo, added1 + added2, y)
    {
      SplitCovers(g, todo, elem.inc.transactions, elem.und, t, y);
      SetRateSize(g, y);
      BetterTrans(g.SetRate(y), best2, best1);
      if t in y {
        assert Covers(WorkItem(inc', elem.und - g.Ancestors(t) * todo, inc'.feerate), y);
        ReachedLarger(g, todo, added2, added1 + added2, y);
      } else {
        assert Covers(WorkItem(elem.inc, elem.und - g.Descendants(t), elem.inc.feerate), y);
        ReachedLarger(g, todo, added1, added1 + added2, y);
      }
    }
  }

  /** Deal with an item: it is dropped when it holds nothing better than the best set, and otherwise
      gives way to two, for the sets with and without a transaction it has not decided on. */
  method SplitItem(g: Graph, todo: set<nat>, best: SetInfo, imp: set<nat>, elem: WorkItem)
    returns (added: seq<WorkItem>, best': SetInfo, imp': set<nat>, performed: bool)
    requires Searchable(g, todo) && Incumbent(g, todo, best, imp) && WorkValid(g, todo, best.feerate, elem)
    ensures Processed(g, todo, best.feerate, elem, added, best', imp')
    ensures !performed ==> added == [] && best' == best && imp' == imp
  {
    IncumbentSize(g, todo, best, imp);
    SetRateSize(g, elem.inc.transactions);
    var first := First(elem.und);
    if (if !elem.inc.feerate.IsEmpty()
        then elem.und * imp == {} || AtLeast(best.feerate, elem.potFeerate)
        else AtLeast(best.feerate, g.FeeRate(first)))
    {
      PrunedProcessed(g, todo, best, imp, elem);
      return [], best, imp, false;
    }
    assert first in g.Ancestors(first);
    var split := ChooseSplit(g, elem.und, first);
    // Exclusion of the split transaction.
    ExcludeShape(g, todo, elem.inc, elem.und, split);
    var added1, best1, imp1 := AddItem(g, todo, best, imp, elem.inc, elem.und - g.Descendants(split));
    // Inclusion of the split transaction.
    var anc := g.Ancestors(split) * todo;
    var inc' := SetInfo(elem.inc.transactions + anc, elem.inc.feerate.Plus(g.SetRate(anc - elem.inc.transactions)));
    IncludeShape(g, todo, elem.inc, elem.und, split, inc');
    var added2, best2, imp2 := AddItem(g, todo, best1, imp1, inc', elem.und - anc);
    SplitProcessed(g, todo, best.feerate, elem, split, inc', added1, best1, imp1, added2, best2, imp2);
    return added1 + added2, best2, imp2, true;
  }
}
