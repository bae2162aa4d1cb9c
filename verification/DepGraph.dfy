/** The dependency graph of a cluster and the operations that build it (class DepGraph). */
module DepGraphs {
  import opened FeeFracs
  import opened Positions
  import opened Graphs

  /** The graph with `del` gone and the ancestor relation of what stays unchanged. */
  ghost predicate Removed(g: Graph, g': Graph, del: set<nat>) {
    && g'.used == g.used - del
    && forall i :: i in g'.used ==>
         && g'.FeeRate(i) == g.FeeRate(i)
         && g'.Ancestors(i) == g.Ancestors(i) * g'.used
         && g'.Descendants(i) == g.Descendants(i) * g'.used
  }

  /** Ancestors of some member of `parents`. */
  ghost function AncestorsOf(g: Graph, parents: set<nat>): set<nat> {
    set p, a | p in parents && a in g.Ancestors(p) :: a
  }

  /** Every descendant of `child` gains the ancestors of `parents`, and nothing else changes. */
  ghost predicate Linked(g: Graph, g': Graph, parents: set<nat>, child: nat) {
    && g'.used == g.used
    && forall i :: i in g.used ==>
         && g'.FeeRate(i) == g.FeeRate(i)
         && g'.Ancestors(i) == g.Ancestors(i) + (if child in g.Ancestors(i) then AncestorsOf(g, parents) else {})
         && g'.Descendants(i) == g.Descendants(i) + (if i in AncestorsOf(g, parents) then g.Descendants(child) else {})
  }

  /** `g'` has exactly the transitive closure of the ancestors of `g` and the new edges. */
  ghost predicate ClosureOf(g: Graph, g': Graph, parents: set<nat>, child: nat) {
    && g'.used == g.used
    && g'.WellFormed()
    && parents <= g'.Ancestors(child)
    && (forall i :: i in g.used ==> g.Ancestors(i) <= g'.Ancestors(i))
    && forall anc: map<nat, set<nat>> :: Admits(g, anc, parents, child) ==>
         forall i :: i in g.used ==> g'.Ancestors(i) <= anc[i]
  }

  /** `anc` is a transitive relation that contains the ancestors of `g` and the new edges. */
  ghost predicate Admits(g: Graph, anc: map<nat, set<nat>>, parents: set<nat>, child: nat) {
    && anc.Keys == g.used && child in g.used
    && parents <= anc[child]
    && (forall i :: i in g.used ==> g.Ancestors(i) <= anc[i])
    && forall i, j :: i in g.used && j in g.used && j in anc[i] ==> anc[j] <= anc[i]
  }

  lemma RemovedWellFormed(g: Graph, g': Graph, del: set<nat>)
    requires g.WellFormed() && Removed(g, g', del)
    requires forall i :: i in g'.used ==> i < |g'.entries|
    ensures g'.WellFormed()
  {
  }

  lemma LinkedWellFormed(g: Graph, g': Graph, parents: set<nat>, child: nat)
    requires g.WellFormed() && child in g.used && parents <= g.used && Linked(g, g', parents, child)
    requires forall i :: i in g'.used ==> i < |g'.entries|
    ensures g'.WellFormed()
  {
    LinkedRange(g, parents);
    forall i, j | i in g.used && j in g'.Ancestors(i) ensures g'.Ancestors(j) <= g'.Ancestors(i) {
      LinkedTransitive(g, g', parents, child, i, j);
    }
    forall i, j | i in g.used && j in g.used ensures j in g'.Ancestors(i) <==> i in g'.Descendants(j) {
      assert j in g.Ancestors(i) <==> i in g.Descendants(j);
      assert child in g.Ancestors(i) <==> i in g.Descendants(child);
    }
  }

  lemma LinkedRange(g: Graph, parents: set<nat>)
    requires g.WellFormed() && parents <= g.used
    ensures AncestorsOf(g, parents) <= g.used
  {
  }

  lemma LinkedTransitive(g: Graph, g': Graph, parents: set<nat>, child: nat, i: nat, j: nat)
    requires g.WellFormed() && child in g.used && parents <= g.used && Linked(g, g', parents, child)
    requires i in g.used && j in g'.Ancestors(i)
    ensures g'.Ancestors(j) <= g'.Ancestors(i)
  {
    var added := AncestorsOf(g, parents);
    LinkedRange(g, parents);
    assert g'.Ancestors(j) <= g.Ancestors(j) + added;
    if j in g.Ancestors(i) {
      Inherit(g, i, j);
      if child in g.Ancestors(j) {
        assert child in g.Ancestors(i);
      }
    } else {
      assert child in g.Ancestors(i) && j in added;
      AddedClosed(g, parents, j);
    }
  }

  lemma Inherit(g: Graph, i: nat, j: nat)
    requires g.WellFormed() && i in g.used && j in g.Ancestors(i)
    ensures g.Ancestors(j) <= g.Ancestors(i)
  {
  }

  lemma AddedClosed(g: Graph, parents: set<nat>, j: nat)
    requires g.WellFormed() && parents <= g.used && j in AncestorsOf(g, parents)
    ensures g.Ancestors(j) <= AncestorsOf(g, parents)
  {
    var p :| p in parents && j in g.Ancestors(p);
    Inherit(g, p, j);
  }

  /** Linking is transitive closure: it adds the edges, and any transitive relation that has the
      old ancestors and the new edges has all of the new ancestors. */
  lemma LinkedIsClosure(g: Graph, g': Graph, parents: set<nat>, child: nat)
    requires g.WellFormed() && child in g.used && parents <= g.used && Linked(g, g', parents, child)
    requires forall i :: i in g'.used ==> i < |g'.entries|
    ensures ClosureOf(g, g', parents, child)
  {
    LinkedWellFormed(g, g', parents, child);
    forall anc: map<nat, set<nat>>, i | Admits(g, anc, parents, child) && i in g.used
      ensures g'.Ancestors(i) <= anc[i]
    {
      forall a | a in g'.Ancestors(i) ensures a in anc[i] {
        if a !in g.Ancestors(i) {
          assert child in anc[i];
          var p :| p in parents && a in g.Ancestors(p);
          assert a in anc[p] && p in anc[child];
        }
      }
    }
  }

  lemma AncestorsOfAdd(g: Graph, parents: set<nat>, p: nat)
    ensures AncestorsOf(g, parents + {p}) == AncestorsOf(g, parents) + g.Ancestors(p)
  {
  }

  /** Parents that are ancestors already bring nothing new. */
  lemma NewAncestors(g: Graph, parents: set<nat>, child: nat)
    requires g.WellFormed() && child in g.used && parents <= g.used
    ensures AncestorsOf(g, parents - g.Ancestors(child)) - g.Ancestors(child) ==
            AncestorsOf(g, parents) - g.Ancestors(child)
    ensures AncestorsOf(g, parents) <= g.used
  {
    forall a | a in AncestorsOf(g, parents) && a !in g.Ancestors(child)
      ensures a in AncestorsOf(g, parents - g.Ancestors(child))
    {
      var p :| p in parents && a in g.Ancestors(p);
      assert p !in g.Ancestors(child);
    }
  }

  /** The descendants of `child` gain `added` as ancestors, and `added` the descendants of `child`. */
  ghost predicate Patched(g: Graph, g': Graph, child: nat, added: set<nat>) {
    && g'.used == g.used
    && |g'.entries| == |g.entries|
    && (forall i :: i in g.used ==> g'.FeeRate(i) == g.FeeRate(i))
    && (forall i :: i in g.used ==>
          g'.Ancestors(i) == g.Ancestors(i) + (if i in g.Descendants(child) then added else {}))
    && (forall i :: i in g.used ==>
          g'.Descendants(i) == g.Descendants(i) + (if i in added then g.Descendants(child) else {}))
  }

  lemma PatchedEntries(g: Graph, mid: seq<Entry>, end: seq<Entry>, child: nat, added: set<nat>)
    requires forall i :: i in g.used ==> i < |g.entries|
    requires |g.entries| == |mid| == |end|
    requires forall i :: 0 <= i < |mid| ==>
               mid[i] == (if i in added
                          then g.entries[i].(descendants := g.entries[i].descendants + g.Descendants(child))
                          else g.entries[i])
    requires forall i :: 0 <= i < |end| ==>
               end[i] == (if i in g.Descendants(child)
                          then mid[i].(ancestors := mid[i].ancestors + added)
                          else mid[i])
    ensures Patched(g, Graph(end, g.used), child, added)
  {
  }

  lemma PatchedNone(g: Graph, child: nat)
    ensures Patched(g, g, child, {})
  {
  }

  /** It is enough to add the new ancestors, as the source does. */
  lemma PatchedLinks(g: Graph, g': Graph, parents: set<nat>, child: nat, added: set<nat>)
    requires g.WellFormed() && child in g.used && parents <= g.used
    requires added == AncestorsOf(g, parents) - g.Ancestors(child)
    requires Patched(g, g', child, added)
    ensures Linked(g, g', parents, child)
  {
    forall i | i in g.used
      ensures g'.Descendants(i) ==
              g.Descendants(i) + (if i in AncestorsOf(g, parents) then g.Descendants(child) else {})
    {
      if i in g.Ancestors(child) {
        InheritDescendants(g, child, i);
      }
    }
    forall i | i in g.used
      ensures g'.Ancestors(i) ==
              g.Ancestors(i) + (if child in g.Ancestors(i) then AncestorsOf(g, parents) else {})
    {
      if child in g.Ancestors(i) {
        Inherit(g, i, child);
      }
    }
  }

  lemma InheritDescendants(g: Graph, i: nat, j: nat)
    requires g.WellFormed() && i in g.used && j in g.Ancestors(i)
    ensures g.Descendants(i) <= g.Descendants(j)
  {
    forall d | d in g.Descendants(i) ensures d in g.Descendants(j) {
      Inherit(g, d, i);
    }
  }

  lemma PatchedResult(g: Graph, g': Graph, parents: set<nat>, child: nat, added: set<nat>)
    requires g.WellFormed() && child in g.used && parents <= g.used
    requires added == AncestorsOf(g, parents) - g.Ancestors(child)
    requires Patched(g, g', child, added)
    ensures Linked(g, g', parents, child) && g'.WellFormed() && ClosureOf(g, g', parents, child)
  {
    PatchedLinks(g, g', parents, child, added);
    LinkedWellFormed(g, g', parents, child);
    LinkedIsClosure(g, g', parents, child);
  }

  class DepGraph {
    /** Data for each transaction. */
    var entries: seq<Entry>
    /** Which positions are used. */
    var used: set<nat>
    /** How many positions a set can hold. */
    const capacity: nat

    /** The graph held by this object. */
    function Value(): Graph
      reads this
    {
      Graph(entries, used)
    }

    /** Ancestors and descendants are consistent, and no unused position trails. */
    ghost predicate Valid()
      reads this
    {
      && Value().WellFormed()
      && (|entries| > 0 ==> |entries| - 1 in used)
      && |entries| <= capacity
    }

    constructor (capacity: nat)
      ensures Valid() && used == {} && this.capacity == capacity
    {
      entries, used, this.capacity := [], {}, capacity;
    }

    /** Add an unconnected transaction in the first available position. */
    method AddTransaction(feerate: FeeFrac) returns (newIdx: nat)
      requires Valid()
      requires exists i: nat :: i < capacity && i !in used
      modifies this
      ensures Valid()
      ensures newIdx !in old(used) && newIdx < capacity && forall i: nat :: i < newIdx ==> i in old(used)
      ensures used == old(used) + {newIdx}
      ensures Value().FeeRate(newIdx) == feerate
      ensures Value().Ancestors(newIdx) == {newIdx} && Value().Descendants(newIdx) == {newIdx}
      ensures Removed(Value(), old(Value()), {newIdx})
    {
      var available := set i: nat | 0 <= i < capacity && i !in used;
      ghost var free: nat :| free < capacity && free !in used;
      assert free in available;
      newIdx := First(available);
      assert |entries| < capacity ==> |entries| in available;
      forall i: nat | i < newIdx ensures i in used {
        assert i !in available;
      }
      var entry := Entry(feerate, {newIdx}, {newIdx});
      if newIdx == |entries| {
        entries := entries + [entry];
      } else {
        entries := entries[newIdx := entry];
      }
      used := used + {newIdx};
    }

    /** Remove positions, and every dependency with them. */
    method RemoveTransactions(del: set<nat>)
      requires Valid()
      modifies this
      ensures Valid()
      ensures Removed(old(Value()), Value(), del)
    {
      ghost var g := Value();
      used := used - del;
      while |entries| > 0 && |entries| - 1 !in used
        invariant entries <= g.entries && used == g.used - del
        invariant forall i :: i in used ==> i < |entries|
        decreases |entries|
      {
        entries := entries[..|entries| - 1];
      }
      ghost var kept := entries;
      for n := 0 to |entries|
        invariant |entries| == |kept| && used == g.used - del
        invariant forall i :: n <= i < |entries| ==> entries[i] == kept[i]
        invariant forall i :: 0 <= i < n ==>
                    entries[i] == Entry(kept[i].feerate, kept[i].ancestors * used, kept[i].descendants * used)
      {
        var e := entries[n];
        entries := entries[n := Entry(e.feerate, e.ancestors * used, e.descendants * used)];
      }
      RemovedWellFormed(g, Value(), del);
    }

    /** The ancestors of all of `parents` together. */
    method CollectAncestors(parents: set<nat>) returns (anc: set<nat>)
      requires Value().WellFormed() && parents <= used
      ensures anc == AncestorsOf(Value(), parents)
    {
      ghost var g := Value();
      anc := {};
      var rest := parents;
      while rest != {}
        invariant rest <= parents && anc == AncestorsOf(g, parents - rest)
        decreases rest
      {
        var par := First(rest);
        AncestorsOfAdd(g, parents - rest, par);
        assert (parents - rest) + {par} == parents - (rest - {par});
        anc := anc + entries[par].ancestors;
        rest := rest - {par};
      }
      assert parents - rest == parents;
    }

    /** Give every one of `positions` more descendants. */
    method AddDescendants(positions: set<nat>, des: set<nat>)
      requires forall i :: i in positions ==> i < |entries|
      modifies this`entries
      ensures |entries| == old(|entries|)
      ensures forall i :: 0 <= i < |entries| ==>
                entries[i] == (if i in positions
                               then old(entries[i]).(descendants := old(entries[i]).descendants + des)
                               else old(entries[i]))
    {
      var todo := positions;
      while todo != {}
        invariant todo <= positions && |entries| == old(|entries|)
        invariant forall i :: 0 <= i < |entries| ==>
                    entries[i] == (if i in positions - todo
                                   then old(entries[i]).(descendants := old(entries[i]).descendants + des)
                                   else old(entries[i]))
        decreases todo
      {
        var i := First(todo);
        entries := entries[i := entries[i].(descendants := entries[i].descendants + des)];
        todo := todo - {i};
      }
    }

    /** Give every one of `positions` more ancestors. */
    method AddAncestors(positions: set<nat>, anc: set<nat>)
      requires forall i :: i in positions ==> i < |entries|
      modifies this`entries
      ensures |entries| == old(|entries|)
      ensures forall i :: 0 <= i < |entries| ==>
                entries[i] == (if i in positions
                               then old(entries[i]).(ancestors := old(entries[i]).ancestors + anc)
                               else old(entries[i]))
    {
      var todo := positions;
      while todo != {}
        invariant todo <= positions && |entries| == old(|entries|)
        invariant forall i :: 0 <= i < |entries| ==>
                    entries[i] == (if i in positions - todo
                                   then old(entries[i]).(ancestors := old(entries[i]).ancestors + anc)
                                   else old(entries[i]))
        decreases todo
      {
        var i := First(todo);
        entries := entries[i := entries[i].(ancestors := entries[i].ancestors + anc)];
        todo := todo - {i};
      }
    }

    /** Make `added` ancestors of `child` and all its descendants. */
    method Patch(child: nat, added: set<nat>)
      requires forall i :: i in used ==> i < |entries|
      requires child in used && added <= used && entries[child].descendants <= used
      modifies this`entries
      ensures Patched(old(Value()), Value(), child, added)
    {
      ghost var g := Value();
      // Nothing new: nothing to patch.
      if added == {} {
        PatchedNone(g, child);
        return;
      }
      // Downwards, for every new ancestor.
      var des := entries[child].descendants;
      AddDescendants(added, des);
      // Upwards, for the child and all below it.
      ghost var mid := entries;
      AddAncestors(des, added);
      PatchedEntries(g, mid, entries, child, added);
    }

    /** Patch in those ancestors of `parents` that are not ancestors of `child` already. */
    method Link(parents: set<nat>, child: nat)
      requires Value().WellFormed() && child in used && parents <= used
      modifies this`entries
      ensures Patched(old(Value()), Value(), child,
                      AncestorsOf(old(Value()), parents) - old(Value()).Ancestors(child))
    {
      var parAnc := CollectAncestors(parents - entries[child].ancestors);
      parAnc := parAnc - entries[child].ancestors;
      NewAncestors(Value(), parents, child);
      Patch(child, parAnc);
    }

    /** Add parents to a transaction. */
    method AddDependencies(parents: set<nat>, child: nat)
      requires Valid()
      requires child in used && parents <= used
      modifies this`entries
      ensures Valid()
      ensures Linked(old(Value()), Value(), parents, child)
      ensures ClosureOf(old(Value()), Value(), parents, child)
    {
      ghost var g := Value();
      Link(parents, child);
      ghost var g' := Value();
      PatchedResult(g, g', parents, child, AncestorsOf(g, parents) - g.Ancestors(child));
    }
  }
}
