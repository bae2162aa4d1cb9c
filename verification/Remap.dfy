/** Renumbering the transactions of a graph (the mapping constructor of DepGraph). */
module Remapping {
  import opened FeeFracs
  import opened Positions
  import opened Graphs
  import opened DepGraphs
  import opened ReducedParents

  /** `m` gives every used position of `g` its own new position. */
  ghost predicate Renumbers(g: Graph, m: seq<nat>) {
    && |m| == |g.entries|
    && (forall i :: i in g.used ==> i < |m|)
    && forall i, j :: i in g.used && j in g.used && m[i] == m[j] ==> i == j
  }

  function Image(m: seq<nat>, s: set<nat>): set<nat> {
    set i | i in s && i < |m| :: m[i]
  }

  /** `h` is `g` with its positions renumbered by `m`. */
  ghost predicate Isomorphic(g: Graph, h: Graph, m: seq<nat>) {
    && Renumbers(g, m)
    && h.used == Image(m, g.used)
    && (forall i :: i in g.used ==> h.FeeRate(m[i]) == g.FeeRate(i))
    && (forall i, j :: i in g.used && j in g.used ==> (j in g.Ancestors(i) <==> m[j] in h.Ancestors(m[i])))
  }

  /** The renumbered positions, with no dependencies yet. */
  ghost predicate Unconnected(g: Graph, h: Graph, m: seq<nat>) {
    && h.used == Image(m, g.used)
    && (forall x :: x in h.used ==> x < |h.entries|)
    && (forall i :: i in g.used && i < |m| ==> h.FeeRate(m[i]) == g.FeeRate(i))
    && (forall x :: x in h.used ==> h.Ancestors(x) == {x} && h.Descendants(x) == {x})
  }

  /** While the dependencies of the positions outside `rest` have been copied. */
  ghost predicate Copying(g: Graph, h: Graph, m: seq<nat>, rest: set<nat>) {
    && h.WellFormed()
    && h.used == Image(m, g.used)
    && (forall i :: i in g.used && i < |m| ==> h.FeeRate(m[i]) == g.FeeRate(i))
    && (forall i, j :: i in g.used && j in g.used && i < |m| && j < |m| && m[j] in h.Ancestors(m[i]) ==>
        j in g.Ancestors(i))
    && (forall i, p :: i in g.used && i !in rest && i < |m| && p < |m| && p in DirectParents(g, i) ==>
          m[p] in h.Ancestors(m[i]))
  }

  lemma ImageOf(m: seq<nat>, s: set<nat>, i: nat)
    requires i in s && i < |m|
    ensures m[i] in Image(m, s)
  {
  }

  lemma StartCopying(g: Graph, h: Graph, m: seq<nat>)
    requires g.WellFormed() && Renumbers(g, m) && Unconnected(g, h, m)
    ensures Copying(g, h, m, g.used)
  {
  }

  /** One transaction's dependencies are copied from its direct parents. */
  lemma CopyStep(g: Graph, h: Graph, h': Graph, m: seq<nat>, rest: set<nat>, c: nat)
    requires g.WellFormed() && g.Acyclic() && Renumbers(g, m) && Copying(g, h, m, rest)
    requires c in rest && c in g.used
    requires h'.WellFormed() && Linked(h, h', Image(m, DirectParents(g, c)), m[c])
    ensures Copying(g, h', m, rest - {c})
  {
    var ps := Image(m, DirectParents(g, c));
    forall i, j | i in g.used && j in g.used && m[j] in h'.Ancestors(m[i]) ensures j in g.Ancestors(i) {
      ImageOf(m, g.used, i);
      if m[j] !in h.Ancestors(m[i]) {
        var q :| q in ps && m[j] in h.Ancestors(q);
        var p :| p in DirectParents(g, c) && p < |m| && m[p] == q;
        Inherit(g, i, c);
        Inherit(g, i, p);
      }
    }
    forall i, p | i in g.used && i !in rest - {c} && p < |m| && p in DirectParents(g, i)
      ensures m[p] in h'.Ancestors(m[i])
    {
      ImageOf(m, g.used, i);
      if i == c {
        ImageOf(m, DirectParents(g, c), p);
        ImageOf(m, g.used, p);
        assert m[p] in h.Ancestors(m[p]);
        assert m[c] in h.Ancestors(m[c]);
      }
    }
  }

  /** Once all are copied, every ancestor has been. */
  lemma {:induction false} CopyComplete(g: Graph, h: Graph, m: seq<nat>, i: nat, j: nat)
    requires g.WellFormed() && g.Acyclic() && Renumbers(g, m) && Copying(g, h, m, {})
    requires i in g.used && j in g.Ancestors(i)
    ensures m[j] in h.Ancestors(m[i])
    decreases |g.Ancestors(i)|
  {
    ImageOf(m, g.used, i);
    if i != j {
      var p := DirectParentAbove(g, i, j);
      FewerAncestors(g, i, p);
      CopyComplete(g, h, m, p, j);
      ImageOf(m, g.used, p);
      Inherit(h, m[i], m[p]);
    }
  }

  lemma CopiedIsomorphic(g: Graph, h: Graph, m: seq<nat>)
    requires g.WellFormed() && g.Acyclic() && Renumbers(g, m) && Copying(g, h, m, {})
    ensures Isomorphic(g, h, m)
  {
    forall i, j | i in g.used && j in g.used && j in g.Ancestors(i) ensures m[j] in h.Ancestors(m[i]) {
      CopyComplete(g, h, m, i, j);
    }
  }

  /** Construct a graph from another and a mapping from old to new positions. `posRange` is one
      more than the highest new position. In an acyclic graph this renumbers it faithfully. */
  method Remap(g: Graph, mapping: seq<nat>, posRange: nat) returns (h: Graph)
    requires g.WellFormed() && g.Acyclic() && Renumbers(g, mapping)
    requires forall i :: i in g.used ==> mapping[i] < posRange
    requires posRange > 0 ==> posRange - 1 in Image(mapping, g.used)
    ensures h.WellFormed() && |h.entries| == posRange && Isomorphic(g, h, mapping)
  {
    var graph := new DepGraph(posRange);
    var entries := seq(posRange, _ => Entry(FeeFrac(0, 0), {}, {}));
    var rest := g.used;
    var used: set<nat> := {};
    while rest != {}
      invariant rest <= g.used && |entries| == posRange
      invariant used == Image(mapping, g.used - rest)
      invariant Unconnected(Graph(g.entries, g.used - rest), Graph(entries, used), mapping)
      decreases rest
    {
      var i := First(rest);
      var x := mapping[i];
      ImageAdd(mapping, g.used - rest, i);
      assert (g.used - rest) + {i} == g.used - (rest - {i});
      AddUnconnected(g, entries, mapping, g.used - rest, i);
      entries := entries[x := Entry(g.FeeRate(i), {x}, {x})];
      used := used + {x};
      rest := rest - {i};
    }
    assert g.used - rest == g.used;
    StartCopying(g, Graph(entries, used), mapping);
    graph.entries, graph.used := entries, used;
    rest := g.used;
    while rest != {}
      invariant rest <= g.used && graph.Valid() && fresh(graph) && |graph.entries| == posRange
      invariant Copying(g, graph.Value(), mapping, rest)
      decreases rest
    {
      var i := First(rest);
      var parents := GetReducedParents(g, i);
      ghost var before := graph.Value();
      ImageOf(mapping, g.used, i);
      ImageMono(mapping, parents, g.used);
      graph.AddDependencies(Image(mapping, parents), mapping[i]);
      CopyStep(g, before, graph.Value(), mapping, rest, i);
      rest := rest - {i};
    }
    h := graph.Value();
    CopiedIsomorphic(g, h, mapping);
  }

  lemma ImageMono(m: seq<nat>, a: set<nat>, b: set<nat>)
    requires a <= b
    ensures Image(m, a) <= Image(m, b)
  {
  }

  lemma ImageAdd(m: seq<nat>, s: set<nat>, i: nat)
    requires i < |m|
    ensures Image(m, s + {i}) == Image(m, s) + {m[i]}
  {
  }

  lemma AddUnconnected(g: Graph, entries: seq<Entry>, m: seq<nat>, done: set<nat>, i: nat)
    requires Renumbers(g, m) && done <= g.used && i in g.used - done && m[i] < |entries|
    requires Unconnected(Graph(g.entries, done), Graph(entries, Image(m, done)), m)
    ensures Unconnected(Graph(g.entries, done + {i}),
                        Graph(entries[m[i] := Entry(g.FeeRate(i), {m[i]}, {m[i]})], Image(m, done + {i})), m)
  {
    var x := m[i];
    ImageAdd(m, done, i);
    forall j | j in done ensures m[j] != x {
    }
  }
}
