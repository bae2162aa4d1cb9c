/** Recovering direct parents from ancestor sets (GetReducedParents). */
module ReducedParents {
  import opened Sets
  import opened Positions
  import opened Graphs
  import opened DepGraphs

  /** The proper ancestors of `i` that are not ancestors of another proper ancestor. */
  ghost function DirectParents(g: Graph, i: nat): set<nat> {
    set p | p in g.Ancestors(i) && IsDirectParent(g, i, p)
  }

  ghost predicate IsDirectParent(g: Graph, i: nat, p: nat) {
    && p in g.Ancestors(i) && p != i
    && forall q :: q in g.Ancestors(i) && q != i && q != p ==> p !in g.Ancestors(q)
  }

  /** A proper ancestor has strictly fewer ancestors. */
  lemma FewerAncestors(g: Graph, i: nat, a: nat)
    requires g.WellFormed() && g.Acyclic() && i in g.used && a in g.Ancestors(i) && a != i
    ensures |g.Ancestors(a)| < |g.Ancestors(i)|
  {
    Inherit(g, i, a);
    assert i !in g.Ancestors(a);
    SubsetSize(g.Ancestors(a), g.Ancestors(i));
  }

  /** Above every proper ancestor lies a direct parent. */
  lemma {:induction false} DirectParentAbove(g: Graph, i: nat, a: nat) returns (p: nat)
    requires g.WellFormed() && g.Acyclic() && i in g.used && a in g.Ancestors(i) && a != i
    ensures p in DirectParents(g, i) && a in g.Ancestors(p)
    decreases |g.Ancestors(i)| - |g.Ancestors(a)|
  {
    if IsDirectParent(g, i, a) {
      p := a;
    } else {
      var q :| q in g.Ancestors(i) && q != i && q != a && a in g.Ancestors(q);
      FewerAncestors(g, q, a);
      FewerAncestors(g, i, q);
      p := DirectParentAbove(g, i, q);
      Inherit(g, p, q);
    }
  }

  /** The direct parents regenerate all ancestors. */
  lemma DirectParentsGenerate(g: Graph, i: nat)
    requires g.WellFormed() && g.Acyclic() && i in g.used
    ensures AncestorsOf(g, DirectParents(g, i)) + {i} == g.Ancestors(i)
  {
    forall a | a in g.Ancestors(i) && a != i ensures a in AncestorsOf(g, DirectParents(g, i)) {
      var p := DirectParentAbove(g, i, a);
    }
    forall a | a in AncestorsOf(g, DirectParents(g, i)) ensures a in g.Ancestors(i) {
      var p :| p in DirectParents(g, i) && a in g.Ancestors(p);
      Inherit(g, i, p);
    }
  }

  /** No set of proper ancestors that regenerates all ancestors misses a direct parent: the
      direct parents are the unique smallest such set. */
  lemma DirectParentsMinimal(g: Graph, i: nat, parents: set<nat>)
    requires g.WellFormed() && g.Acyclic() && i in g.used
    requires i !in parents && parents <= g.used && AncestorsOf(g, parents) + {i} == g.Ancestors(i)
    ensures DirectParents(g, i) <= parents
  {
    forall r | r in DirectParents(g, i) ensures r in parents {
      assert r in AncestorsOf(g, parents);
      var p :| p in parents && r in g.Ancestors(p);
      assert p in g.Ancestors(p);
      assert p in AncestorsOf(g, parents);
    }
  }

  /** Compute the (reduced) set of parents of `i`. */
  method GetReducedParents(g: Graph, i: nat) returns (parents: set<nat>)
    requires g.WellFormed() && i in g.used
    ensures parents <= g.Ancestors(i) - {i}
    ensures g.Acyclic() ==> parents == DirectParents(g, i)
  {
    parents := g.Ancestors(i) - {i};
    var rest := parents;
    while rest != {}
      invariant rest <= g.Ancestors(i) - {i}
      invariant parents <= g.Ancestors(i) - {i}
      invariant DirectParents(g, i) <= parents
      invariant g.Acyclic() ==> forall p :: p in DirectParents(g, i) && p !in rest ==> parents * g.Ancestors(p) == {p}
      decreases rest
    {
      var parent := First(rest);
      if parent in parents {
        parents := (parents - g.Ancestors(parent)) + {parent};
      }
      rest := rest - {parent};
    }
    if g.Acyclic() {
      forall x | x in parents ensures x in DirectParents(g, i) {
        var p := DirectParentAbove(g, i, x);
        assert x in parents * g.Ancestors(p);
      }
    }
  }
}
