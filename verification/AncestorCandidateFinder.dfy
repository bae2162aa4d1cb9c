/** The best remaining ancestor set (class AncestorCandidateFinder). */
module AncestorCandidateFinders {
  import opened FeeFracs
  import opened Positions
  import opened Graphs
  import opened DepGraphs

  /** The transaction `i` together with its ancestors that are in `todo`. */
  ghost function AncestorSet(g: Graph, i: nat, todo: set<nat>): set<nat> {
    g.Ancestors(i) * todo
  }

  lemma AncestorSetClosed(g: Graph, i: nat, todo: set<nat>)
    requires g.WellFormed() && todo <= g.used && i in todo
    ensures i in AncestorSet(g, i, todo) && g.ClosedIn(AncestorSet(g, i, todo), todo)
  {
    forall j | j in AncestorSet(g, i, todo) ensures g.Ancestors(j) * todo <= AncestorSet(g, i, todo) {
      Inherit(g, i, j);
    }
  }

  /** The sum over ancestors, reusing that of one ancestor. */
  lemma ReuseAncestor(g: Graph, i: nat, first: nat)
    requires g.WellFormed() && i in g.used && first in g.Ancestors(i)
    ensures g.SetRate(g.Ancestors(i)) ==
            g.SetRate(g.Ancestors(first)).Plus(g.SetRate(g.Ancestors(i) - g.Ancestors(first)))
  {
    Inherit(g, i, first);
    SetRateSplit(g, g.Ancestors(i), g.Ancestors(first));
    assert g.Ancestors(i) * g.Ancestors(first) == g.Ancestors(first);
  }

  lemma DropOne(g: Graph, s: set<nat>, left: set<nat>, x: nat)
    requires x in s && x !in left
    ensures g.SetRate(s * (left + {x})).Minus(g.FeeRate(x)) == g.SetRate(s * left)
  {
    assert s * (left + {x}) == (s * left) + {x};
    SetRateAdd(g, s * left, x);
  }

  class AncestorCandidateFinder {
    const g: Graph
    /** Which transactions are left to include. */
    var todo: set<nat>
    /** Ancestor-set feerates, kept up-to-date for the positions in todo. */
    var rates: seq<FeeFrac>

    /** Every remaining position's feerate is that of its remaining ancestors. */
    ghost predicate Valid()
      reads this
    {
      && g.WellFormed() && todo <= g.used && |rates| == |g.entries|
      && forall i :: i in todo ==> rates[i] == g.SetRate(AncestorSet(g, i, todo))
    }

    constructor (g: Graph)
      requires g.WellFormed()
      ensures Valid() && this.g == g && todo == g.used
    {
      var rates := seq(|g.entries|, _ => FeeFrac(0, 0));
      var rest := g.used;
      while rest != {}
        invariant rest <= g.used && |rates| == |g.entries|
        invariant forall i, j :: i in rest && j in g.used && j !in rest ==> j < i
        invariant forall i :: i in g.used && i !in rest ==> rates[i] == g.SetRate(g.Ancestors(i))
        decreases rest
      {
        var i := First(rest);
        // The remaining ancestors for transaction i.
        var ancToAdd := g.Ancestors(i);
        var ancFeerate := FeeFrac(0, 0);
        // An earlier position that is an ancestor has its sum already; start from that.
        var first := First(ancToAdd);
        if first < i {
          ReuseAncestor(g, i, first);
          ancFeerate := rates[first];
          ancToAdd := ancToAdd - g.Ancestors(first);
        }
        // The others, `i` among them, are still to be summed.
        ancFeerate := ancFeerate.Plus(g.SetRate(ancToAdd));
        rates := rates[i := ancFeerate];
        rest := rest - {i};
      }
      this.g := g;
      this.todo := g.used;
      this.rates := rates;
      new;
      forall i | i in todo ensures AncestorSet(g, i, todo) == g.Ancestors(i) {
      }
    }

    /** Remove transactions from the ones to be linearized. */
    method MarkDone(select: set<nat>)
      requires Valid() && select <= todo
      modifies this
      ensures Valid() && todo == old(todo) - select
    {
      todo := todo - select;
      var rest := select;
      assert todo + rest == old(todo);
      while rest != {}
        invariant rest <= select && todo == old(todo) - select && |rates| == |g.entries|
        invariant forall j :: j in todo ==> rates[j] == g.SetRate(AncestorSet(g, j, todo + rest))
        decreases rest
      {
        var i := First(rest);
        var left := rest - {i};
        assert rest == left + {i} && todo + rest == (todo + left) + {i};
        RemoveOne(i, left);
        rest := left;
      }
      assert todo + rest == todo;
    }

    /** Take transaction `i` out of the feerates of its remaining descendants. */
    method RemoveOne(i: nat, ghost left: set<nat>)
      requires g.WellFormed() && todo <= g.used && i in g.used && |rates| == |g.entries|
      requires i !in todo + left
      requires forall j :: j in todo ==> rates[j] == g.SetRate(AncestorSet(g, j, (todo + left) + {i}))
      modifies this`rates
      ensures |rates| == |g.entries|
      ensures forall j :: j in todo ==> rates[j] == g.SetRate(AncestorSet(g, j, todo + left))
    {
      var feerate := g.FeeRate(i);
      var rest := g.Descendants(i) * todo;
      forall j | j in todo && j !in rest
        ensures AncestorSet(g, j, (todo + left) + {i}) == AncestorSet(g, j, todo + left)
      {
        assert i !in g.Ancestors(j);
      }
      while rest != {}
        invariant rest <= g.Descendants(i) * todo && |rates| == |g.entries|
        invariant forall j :: j in rest ==> rates[j] == g.SetRate(AncestorSet(g, j, (todo + left) + {i}))
        invariant forall j :: j in todo && j !in rest ==> rates[j] == g.SetRate(AncestorSet(g, j, todo + left))
        decreases rest
      {
        var j := First(rest);
        assert i in g.Ancestors(j);
        DropOne(g, g.Ancestors(j), todo + left, i);
        rates := rates[j := rates[j].Minus(feerate)];
        rest := rest - {j};
      }
    }

    /** The best of the ancestor sets: of those with the highest feerate, one of least size. */
    method FindCandidateSet() returns (r: SetInfo)
      requires Valid() && g.Sized() && todo != {}
      ensures r.Of(g)
      ensures exists b :: b in todo && r.transactions == AncestorSet(g, b, todo)
      ensures r.transactions != {} && r.transactions <= todo && g.ClosedIn(r.transactions, todo)
      ensures forall i :: i in todo ==> AtLeast(r.feerate, g.SetRate(AncestorSet(g, i, todo)))
    {
      var best := First(todo);
      var rest := todo - {best};
      SizesPositive();
      while rest != {}
        invariant rest <= todo && best in todo
        invariant forall i :: i in todo && i !in rest ==> AtLeast(rates[best], rates[i])
        decreases rest
      {
        var i := First(rest);
        if Better(rates[i], rates[best]) {
          forall j | j in todo && j !in rest ensures AtLeast(rates[i], rates[j]) {
            BetterTrans(rates[i], rates[best], rates[j]);
          }
          best := i;
        } else {
          BetterTotal(rates[i], rates[best]);
        }
        rest := rest - {i};
      }
      AncestorSetClosed(g, best, todo);
      r := SetInfo(g.Ancestors(best) * todo, rates[best]);
    }

    lemma SizesPositive()
      requires Valid() && g.Sized()
      ensures forall i :: i in todo ==> rates[i].size > 0
    {
      forall i | i in todo ensures rates[i].size > 0 {
        AncestorSetClosed(g, i, todo);
        SetRateSize(g, AncestorSet(g, i, todo));
      }
    }
  }
}
