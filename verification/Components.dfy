/** Connected components of what remains of a graph (GetConnectedComponent). */
module Components {
  import opened FeeFracs
  import opened Sets
  import opened Positions
  import opened Graphs
  import opened SearchTheory

  /** The transactions related to some member of `s`: its ancestors and descendants. */
  ghost function Related(g: Graph, s: set<nat>): set<nat> {
    set x, y | x in s && y in g.Ancestors(x) + g.Descendants(x) :: y
  }

  /** No remaining transaction outside `c` is related to one inside. */
  ghost predicate Separate(g: Graph, todo: set<nat>, c: set<nat>) {
    Related(g, c) * todo <= c
  }

  lemma RelatedAdd(g: Graph, s: set<nat>, x: nat)
    ensures Related(g, s + {x}) == Related(g, s) + (g.Ancestors(x) + g.Descendants(x))
  {
  }

  lemma RelatedUnion(g: Graph, a: set<nat>, b: set<nat>)
    ensures Related(g, a + b) == Related(g, a) + Related(g, b)
  {
  }

  lemma IsRelated(g: Graph, s: set<nat>, x: nat, y: nat)
    requires x in s && (y in g.Ancestors(x) || y in g.Descendants(x))
    ensures y in Related(g, s)
  {
    assert y in g.Ancestors(x) + g.Descendants(x);
  }

  lemma SelfRelated(g: Graph, s: set<nat>)
    requires g.WellFormed() && s <= g.used
    ensures s <= Related(g, s)
  {
    forall x | x in s ensures x in Related(g, s) {
      IsRelated(g, s, x, x);
    }
  }

  lemma RelatedMono(g: Graph, a: set<nat>, b: set<nat>)
    requires a <= b
    ensures Related(g, a) <= Related(g, b)
  {
  }

  method AddRelated(g: Graph, ret: set<nat>, toAdd: set<nat>) returns (ret': set<nat>)
    ensures ret' == ret + Related(g, toAdd)
  {
    ret' := ret;
    var rest := toAdd;
    while rest != {}
      invariant rest <= toAdd && ret' == ret + Related(g, toAdd - rest)
      decreases rest
    {
      var add := First(rest);
      RelatedAdd(g, toAdd - rest, add);
      assert (toAdd - rest) + {add} == toAdd - (rest - {add});
      ret' := (ret' + g.Descendants(add)) + g.Ancestors(add);
      rest := rest - {add};
    }
    assert toAdd - rest == toAdd;
  }

  /** Everything found is forced into any separate set containing `tx`, and everything related to
      what is no longer to be added has been found. */
  ghost predicate Spreading(g: Graph, todo: set<nat>, tx: nat, ret: set<nat>, toAdd: set<nat>) {
    && ret <= todo && tx in ret + toAdd && toAdd <= todo
    && Related(g, ret - toAdd) * todo <= ret
    && forall c :: tx in c && Separate(g, todo, c) ==> ret + toAdd <= c
  }

  lemma SpreadStep(g: Graph, todo: set<nat>, tx: nat, ret: set<nat>, toAdd: set<nat>, ret': set<nat>)
    requires g.WellFormed() && todo <= g.used && Spreading(g, todo, tx, ret, toAdd)
    requires toAdd <= ret || ret == {}
    requires ret' == (ret + Related(g, toAdd)) * todo
    ensures Spreading(g, todo, tx, ret', ret' - ret)
    ensures ret <= ret' && toAdd <= ret'
  {
    SelfRelated(g, toAdd);
    assert ret' - (ret' - ret) == ret;
    SpreadFound(g, todo, ret, toAdd);
    forall c | tx in c && Separate(g, todo, c) ensures ret' <= c {
      RelatedMono(g, toAdd, c);
    }
  }

  lemma SpreadFound(g: Graph, todo: set<nat>, ret: set<nat>, toAdd: set<nat>)
    requires Related(g, ret - toAdd) * todo <= ret
    ensures Related(g, ret) * todo <= ret + Related(g, toAdd)
  {
    assert ret <= (ret - toAdd) + toAdd;
    RelatedMono(g, ret, (ret - toAdd) + toAdd);
    RelatedUnion(g, ret - toAdd, toAdd);
  }

  /** Get the connected component within `todo` that contains `tx`: the least set with `tx` that is
      separate from the rest. */
  method GetConnectedComponent(g: Graph, todo: set<nat>, tx: nat) returns (ret: set<nat>)
    requires g.WellFormed() && todo <= g.used && tx in todo
    ensures tx in ret && ret <= todo && Separate(g, todo, ret)
    ensures forall c :: tx in c && Separate(g, todo, c) ==> ret <= c
  {
    var toAdd := {tx};
    ret := {};
    SpreadStart(g, todo, tx);
    while toAdd != {}
      invariant Spreading(g, todo, tx, ret, toAdd) && (toAdd <= ret || ret == {})
      decreases |todo - ret|, |toAdd|
    {
      var before := ret;
      var all := AddRelated(g, before, toAdd);
      ret := all * todo;
      SpreadStep(g, todo, tx, before, toAdd, ret);
      SpreadProgress(todo, before, toAdd, ret);
      toAdd := ret - before;
    }
    SpreadDone(g, todo, tx, ret);
  }

  lemma SpreadDone(g: Graph, todo: set<nat>, tx: nat, ret: set<nat>)
    requires Spreading(g, todo, tx, ret, {})
    ensures tx in ret && ret <= todo && Separate(g, todo, ret)
    ensures forall c :: tx in c && Separate(g, todo, c) ==> ret <= c
  {
    assert ret - {} == ret && ret + {} == ret;
  }

  lemma SpreadStart(g: Graph, todo: set<nat>, tx: nat)
    requires tx in todo
    ensures Spreading(g, todo, tx, {}, {tx})
  {
    assert Related(g, {} - {tx}) == {};
  }

  lemma SpreadProgress(todo: set<nat>, ret: set<nat>, toAdd: set<nat>, ret': set<nat>)
    requires ret <= ret' <= todo && toAdd != {} && toAdd <= ret'
    ensures |todo - ret'| < |todo - ret| || (ret' == ret && |ret' - ret| < |toAdd|)
  {
    if ret' == ret {
      assert ret' - ret == {};
    } else {
      SubsetSize(todo - ret', todo - ret);
      assert exists x :: x in ret' && x !in ret;
      var x :| x in ret' && x !in ret;
      assert x in todo - ret && x !in todo - ret';
    }
  }

  // ---------- Candidates and components ----------

  /** Both parts into which a component cuts a closed set are closed. */
  lemma CutClosed(g: Graph, todo: set<nat>, cover: set<nat>, c: set<nat>, y: set<nat>)
    requires g.WellFormed() && todo <= g.used && c <= cover <= todo && Separate(g, cover, c)
    requires g.ClosedIn(y, todo) && y <= cover
    ensures g.ClosedIn(y * c, todo) && g.ClosedIn(y - c, todo)
  {
    forall x, a | x in y && a in g.Ancestors(x) * todo ensures a in y && (a in c <==> x in c) {
      assert a in y;
      if x in c {
        IsRelated(g, c, x, a);
      }
      if a in c {
        IsRelated(g, c, a, x);
      }
    }
  }

  lemma CutNothing(y: set<nat>, c: set<nat>)
    requires y * c == {}
    ensures y - c == y
  {
    forall x | x in y ensures x in y - c {
      assert x !in y * c;
    }
  }

  lemma CutAll(y: set<nat>, c: set<nat>)
    requires y - c == {}
    ensures y * c == y
  {
    forall x | x in y ensures x in y * c {
      assert x !in y - c;
    }
  }

  /** One of the two parts is at least as good as the whole. */
  lemma CutKeeps(g: Graph, todo: set<nat>, cover: set<nat>, c: set<nat>, y: set<nat>)
    requires g.WellFormed() && g.Sized() && todo <= g.used && c <= cover <= todo && Separate(g, cover, c)
    requires Candidate(g, todo, y) && y <= cover
    ensures (Candidate(g, todo, y * c) && AtLeast(g.SetRate(y * c), g.SetRate(y)))
         || (Candidate(g, todo, y - c) && AtLeast(g.SetRate(y - c), g.SetRate(y)))
  {
    CutClosed(g, todo, cover, c, y);
    SetRateSplit(g, y, c);
    if y * c == {} {
      CutNothing(y, c);
    } else if y - c == {} {
      CutAll(y, c);
    } else {
      SetRateSize(g, y * c);
      SetRateSize(g, y - c);
      OnePartAtLeast(g.SetRate(y * c), g.SetRate(y - c));
    }
  }
}
