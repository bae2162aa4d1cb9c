/** Why the branch-and-bound search may skip what it skips.

  A work item stands for all topologically closed sets between `inc` and `inc + und`. The lemmas
  here show that a pruned item contains nothing better than the best set found, that jumping
  ahead never loses the best set of an item, and that splitting covers every set again. */
module SearchTheory {
  import opened FeeFracs
  import opened Positions
  import opened Graphs

  datatype WorkItem = WorkItem(inc: SetInfo, und: set<nat>, potFeerate: FeeFrac)

  /** Positions are in decreasing order of individual feerate. */
  ghost predicate SortedByFeerate(g: Graph) {
    forall i, j :: i in g.used && j in g.used && i <= j ==> AtLeast(g.FeeRate(i), g.FeeRate(j))
  }

  /** A non-empty topologically closed subset of what remains. */
  ghost predicate Candidate(g: Graph, todo: set<nat>, s: set<nat>) {
    s != {} && s <= todo && g.ClosedIn(s, todo)
  }

  /** The remaining transactions whose own feerate is above `best`. */
  ghost predicate Improving(g: Graph, todo: set<nat>, best: FeeFrac, imp: set<nat>) {
    imp <= todo && forall t :: t in todo ==> (t in imp <==> Higher(g.FeeRate(t), best))
  }

  // ---------- Sums ----------

  lemma {:induction false} SumLow(g: Graph, s: set<nat>, r: FeeFrac)
    requires forall t :: t in s ==> Excess(g.FeeRate(t), r) <= 0
    ensures Excess(g.SetRate(s), r) <= 0
    decreases |s|
  {
    if s == {} {
      SetRateEmpty(g);
    } else {
      var t :| t in s;
      SetRateRemove(g, s, t);
      SumLow(g, s - {t}, r);
      ExcessPlus(g.SetRate(s - {t}), g.FeeRate(t), r);
    }
  }

  lemma {:induction false} SumHigh(g: Graph, s: set<nat>, r: FeeFrac)
    requires forall t :: t in s ==> Excess(g.FeeRate(t), r) > 0
    ensures Excess(g.SetRate(s), r) >= 0
    ensures s != {} ==> Excess(g.SetRate(s), r) > 0
    decreases |s|
  {
    if s == {} {
      SetRateEmpty(g);
    } else {
      var t :| t in s;
      SetRateRemove(g, s, t);
      SumHigh(g, s - {t}, r);
      ExcessPlus(g.SetRate(s - {t}), g.FeeRate(t), r);
    }
  }

  /** A set whose members are all no better than `b` is no better than `b`. */
  lemma {:induction false} SumAtMost(g: Graph, s: set<nat>, b: FeeFrac)
    requires g.WellFormed() && g.Sized() && s != {} && s <= g.used && b.size > 0
    requires forall t :: t in s ==> AtLeast(b, g.FeeRate(t))
    ensures AtLeast(b, g.SetRate(s))
    decreases |s|
  {
    var t :| t in s;
    SetRateRemove(g, s, t);
    var rest := s - {t};
    if rest == {} {
      SetRateEmpty(g);
    } else {
      SumAtMost(g, rest, b);
      SetRateSize(g, rest);
      PairAtMost(g.SetRate(rest), g.FeeRate(t), b);
    }
  }

  lemma PairAtMost(x: FeeFrac, y: FeeFrac, b: FeeFrac)
    requires x.size >= 0 && y.size >= 0
    requires AtLeast(b, x) && AtLeast(b, y)
    ensures AtLeast(b, x.Plus(y))
  {
    ExcessPlus(x, y, b);
  }

  /** Of two parts of a set, one is at least as good as the whole. */
  lemma OnePartAtLeast(a: FeeFrac, b: FeeFrac)
    requires a.size > 0 && b.size > 0
    ensures AtLeast(a, a.Plus(b)) || AtLeast(b, a.Plus(b))
  {
    ExcessPlus(a, b, a);
    ExcessPlus(a, b, b);
  }

  lemma AddHigher(p: FeeFrac, x: FeeFrac)
    requires Higher(x, p)
    ensures Higher(x, p.Plus(x)) && Higher(p.Plus(x), p)
  {
    ExcessPlus(p, x, p);
    ExcessPlus(p, x, x);
  }

  // ---------- The potential of a work item ----------

  /** `pot` extends `inc` by exactly those undecided transactions that raise its feerate, leaving
      out only ones that are not above `best` either. */
  ghost predicate PotentialOf(g: Graph, best: FeeFrac, inc: set<nat>, und: set<nat>, pot: set<nat>) {
    && inc <= pot <= inc + und
    && (forall t :: t in pot - inc ==> Higher(g.FeeRate(t), g.SetRate(pot)))
    && (forall t :: t in und - pot ==> !Higher(g.FeeRate(t), g.SetRate(pot)) || !Higher(g.FeeRate(t), best))
  }

  /** The members of a set that are in `inc` or above `r` are all in the potential. */
  lemma TopPart(g: Graph, best: FeeFrac, inc: set<nat>, und: set<nat>, pot: set<nat>, y: set<nat>, r: FeeFrac)
    returns (z: set<nat>)
    requires g.WellFormed() && g.Sized() && inc + und <= g.used && inc != {}
    requires PotentialOf(g, best, inc, und, pot)
    requires best.size > 0 && r.size > 0 && !Higher(g.SetRate(pot), r) && !Higher(best, r)
    requires inc <= y <= inc + und
    ensures inc <= z <= y && z <= pot
    ensures forall t :: t in y - z ==> Excess(g.FeeRate(t), r) <= 0
  {
    z := set t | t in y && (t in inc || Higher(g.FeeRate(t), r));
    SetRateSize(g, pot);
    forall t | t in z ensures t in pot {
      if t !in pot {
        assert t in und - pot && g.FeeRate(t).size > 0;
        if !Higher(g.FeeRate(t), g.SetRate(pot)) {
          NotHigherTrans(g.FeeRate(t), g.SetRate(pot), r);
        } else {
          NotHigherTrans(g.FeeRate(t), best, r);
        }
      }
    }
  }

  /** No part of the potential that contains `inc` beats the potential, and one that ties with it
      is all of it. */
  lemma PotentialIsMaximal(g: Graph, best: FeeFrac, inc: set<nat>, und: set<nat>, pot: set<nat>, z: set<nat>)
    requires PotentialOf(g, best, inc, und, pot) && inc <= z <= pot
    ensures Excess(g.SetRate(z), g.SetRate(pot)) <= 0
    ensures Excess(g.SetRate(z), g.SetRate(pot)) == 0 ==> z == pot
  {
    var rest := pot - z;
    SplitExcess(g, pot, z, g.SetRate(pot));
    forall t | t in rest ensures Excess(g.FeeRate(t), g.SetRate(pot)) > 0 {
      assert t in pot - inc;
    }
    SumHigh(g, rest, g.SetRate(pot));
    assert pot == z + rest;
    assert rest == {} ==> z == pot;
  }

  /** No set of the item is above every feerate that neither the potential nor `best` exceeds. */
  lemma PotentialBound(g: Graph, best: FeeFrac, inc: set<nat>, und: set<nat>, pot: set<nat>, y: set<nat>, r: FeeFrac)
    requires g.WellFormed() && g.Sized() && inc + und <= g.used && inc != {}
    requires PotentialOf(g, best, inc, und, pot)
    requires best.size > 0 && r.size > 0 && !Higher(g.SetRate(pot), r) && !Higher(best, r)
    requires inc <= y <= inc + und
    ensures Excess(g.SetRate(y), r) <= 0
  {
    var z := TopPart(g, best, inc, und, pot, y, r);
    SplitExcess(g, y, z, r);
    SumLow(g, y - z, r);
    PotentialIsMaximal(g, best, inc, und, pot, z);
    SetRateSize(g, z);
    SetRateSize(g, pot);
    NotHigherTrans(g.SetRate(z), g.SetRate(pot), r);
  }

  lemma SplitExcess(g: Graph, y: set<nat>, z: set<nat>, r: FeeFrac)
    requires z <= y
    ensures Excess(g.SetRate(y), r) == Excess(g.SetRate(z), r) + Excess(g.SetRate(y - z), r)
  {
    SetRateSplit(g, y, z);
    forall x | x in z ensures x in y * z {
    }
    assert y * z == z;
    ExcessPlus(g.SetRate(z), g.SetRate(y - z), r);
  }

  // ---------- Pruning ----------

  /** The reason for the check of `pot_feerate` against `best`. */
  lemma PruneByPotential(g: Graph, best: FeeFrac, inc: set<nat>, und: set<nat>, pot: set<nat>, y: set<nat>)
    requires g.WellFormed() && g.Sized() && inc + und <= g.used && inc != {}
    requires PotentialOf(g, best, inc, und, pot) && best.size > 0
    requires AtLeast(best, g.SetRate(pot))
    requires inc <= y <= inc + und
    ensures AtLeast(best, g.SetRate(y))
  {
    var z := TopPart(g, best, inc, und, pot, y, best);
    SplitExcess(g, y, z, best);
    SumLow(g, y - z, best);
    PotentialIsMaximal(g, best, inc, und, pot, z);
    SetRateSize(g, z);
    SetRateSize(g, pot);
    NotHigherTrans(g.SetRate(z), g.SetRate(pot), best);
    if Excess(g.SetRate(z), best) == 0 {
      // Then z ties with the potential, and so contains all of it.
      assert z == pot;
      SetRateMono(g, pot, y);
    }
  }

  /** The reason for the check that an improving transaction is left undecided. */
  lemma PruneByImproving(g: Graph, best: FeeFrac, inc: set<nat>, und: set<nat>, y: set<nat>)
    requires g.WellFormed() && g.Sized() && inc + und <= g.used && inc != {}
    requires best.size > 0 && AtLeast(best, g.SetRate(inc))
    requires forall t :: t in und ==> !Higher(g.FeeRate(t), best)
    requires inc <= y <= inc + und
    ensures AtLeast(best, g.SetRate(y))
  {
    SplitExcess(g, y, inc, best);
    SumLow(g, y - inc, best);
    SetRateMono(g, inc, y);
  }

  /** The reason for the simpler check while nothing is included yet. */
  lemma PruneByFirst(g: Graph, best: FeeFrac, und: set<nat>, y: set<nat>)
    requires g.WellFormed() && g.Sized() && SortedByFeerate(g) && und <= g.used && und != {}
    requires best.size > 0 && AtLeast(best, g.FeeRate(First(und)))
    requires y != {} && y <= und
    ensures AtLeast(best, g.SetRate(y))
  {
    forall t | t in y ensures AtLeast(best, g.FeeRate(t)) {
      BetterTrans(best, g.FeeRate(First(und)), g.FeeRate(t));
    }
    SumAtMost(g, y, best);
  }

  // ---------- Jumping ahead ----------

  /** Adding transactions above a feerate that a set does not exceed does not make it worse. */
  lemma AddAbove(g: Graph, y: set<nat>, extra: set<nat>, r: FeeFrac)
    requires g.WellFormed() && g.Sized() && y != {} && y <= g.used && extra <= g.used && y !! extra
    requires r.size > 0 && Excess(g.SetRate(y), r) <= 0
    requires forall t :: t in extra ==> Excess(g.FeeRate(t), r) > 0
    ensures AtLeast(g.SetRate(y + extra), g.SetRate(y))
  {
    SetRateUnion(g, y, extra);
    SetRateSize(g, y);
    if extra == {} {
      SetRateEmpty(g);
    } else {
      SetRateSize(g, extra);
      SumHigh(g, extra, r);
      NotHigherTrans(g.SetRate(y), r, g.SetRate(extra));
      AddHigher(g.SetRate(y), g.SetRate(extra));
    }
  }

  /** Any part of the potential may be added to a set of the item: the result is at least as
      good. */
  lemma JumpAhead(g: Graph, best: FeeFrac, inc: set<nat>, und: set<nat>, pot: set<nat>, inc': set<nat>, y: set<nat>)
    requires g.WellFormed() && g.Sized() && inc + und <= g.used && inc != {}
    requires PotentialOf(g, best, inc, und, pot) && best.size > 0
    requires forall t :: t in pot - inc ==> Higher(g.FeeRate(t), best)
    requires inc <= inc' <= pot
    requires inc <= y <= inc + und
    ensures AtLeast(g.SetRate(y + inc'), g.SetRate(y))
  {
    var top := if Higher(g.SetRate(pot), best) then g.SetRate(pot) else best;
    SetRateSize(g, pot);
    PotentialBound(g, best, inc, und, pot, y, top);
    assert y + inc' == y + (inc' - y);
    AddAbove(g, y, inc' - y, top);
  }

  /** A better best only weakens what the potential has to exclude. */
  lemma PotentialKept(g: Graph, best: FeeFrac, best': FeeFrac, inc: set<nat>, und: set<nat>, pot: set<nat>)
    requires g.Sized() && und <= g.used && best.size > 0 && best'.size > 0 && AtLeast(best', best)
    requires PotentialOf(g, best, inc, und, pot)
    ensures PotentialOf(g, best', inc, und, pot)
  {
    forall t | t in und - pot ensures !Higher(g.FeeRate(t), g.SetRate(pot)) || !Higher(g.FeeRate(t), best') {
      assert g.FeeRate(t).size > 0;
      if !Higher(g.FeeRate(t), best) {
        NotHigherTrans(g.FeeRate(t), best, best');
      }
    }
  }

  /** The same potential serves after part of it has been moved to `inc`. */
  lemma PotentialAfterJump(g: Graph, best: FeeFrac, inc: set<nat>, und: set<nat>, pot: set<nat>, inc': set<nat>)
    requires PotentialOf(g, best, inc, und, pot) && inc <= inc' <= pot
    ensures PotentialOf(g, best, inc', und - inc', pot)
  {
  }

  // ---------- Splitting ----------

  /** A closed set either avoids `t` and its descendants, or contains `t` and its ancestors. */
  lemma SplitCovers(g: Graph, todo: set<nat>, inc: set<nat>, und: set<nat>, t: nat, y: set<nat>)
    requires g.WellFormed() && todo <= g.used && inc + und <= todo && t in und
    requires g.ClosedIn(y, todo) && inc <= y <= inc + und
    ensures t in y ==>
      inc + g.Ancestors(t) * todo <= y <= (inc + g.Ancestors(t) * todo) + (und - g.Ancestors(t) * todo)
    ensures t !in y ==> y <= inc + (und - g.Descendants(t))
  {
    if t !in y {
      forall x | x in y ensures x in inc + (und - g.Descendants(t)) {
        if x in und {
          assert g.Ancestors(x) * todo <= y;
        }
      }
    }
  }
}
