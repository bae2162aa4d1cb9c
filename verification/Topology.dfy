/** Topologically closed sets and orders (AppendTopo and what the linearization passes output). */
module Topology {
  import opened Sets
  import opened Positions
  import opened Graphs
  import opened ReducedParents
  import opened Chunking
  import opened Improvement
  import opened LinearizationChunkings

  /** The order AppendTopo sorts by: fewer ancestors first, then lower position. */
  predicate Before(g: Graph, a: nat, b: nat) {
    || |g.Ancestors(a)| < |g.Ancestors(b)|
    || (|g.Ancestors(a)| == |g.Ancestors(b)| && a < b)
  }

  lemma {:induction false} EarliestExists(g: Graph, s: set<nat>) returns (m: nat)
    requires s != {}
    ensures m in s && forall x :: x in s ==> x == m || Before(g, m, x)
    decreases |s|
  {
    m := Witness(s);
    var rest := s - {m};
    if rest == {} {
      forall x | x in s ensures x == m {
        assert x !in rest;
      }
    } else {
      var a := m;
      var m' := EarliestExists(g, rest);
      m := if Before(g, a, m') then a else m';
      forall x | x in s ensures x == m || Before(g, m, x) {
        if x != a && x != m' {
          assert x in rest && Before(g, m', x);
          if m == a {
            BeforeTrans(g, a, m', x);
          }
        }
      }
    }
  }

  lemma BeforeTrans(g: Graph, a: nat, b: nat, c: nat)
    requires Before(g, a, b) && Before(g, b, c)
    ensures Before(g, a, c)
  {
  }

  function Earliest(g: Graph, s: set<nat>): (m: nat)
    requires s != {}
    ensures m in s && forall x :: x in s ==> x == m || Before(g, m, x)
  {
    assert exists m :: m in s && forall x :: x in s ==> x == m || Before(g, m, x) by {
      var _ := EarliestExists(g, s);
    }
    var m :| m in s && forall x :: x in s ==> x == m || Before(g, m, x);
    m
  }

  ghost predicate SortedBefore(g: Graph, t: seq<nat>) {
    forall i, j :: 0 <= i < j < |t| ==> Before(g, t[i], t[j])
  }

  /** Extend `list` by `select`, ancestors first. */
  method AppendTopo(g: Graph, list: seq<nat>, select: set<nat>) returns (ret: seq<nat>)
    ensures |ret| >= |list| && ret[..|list|] == list
    ensures Elements(ret[|list|..]) == select && SortedBefore(g, ret[|list|..])
  {
    var tail: seq<nat> := [];
    var rest := select;
    while rest != {}
      invariant rest <= select && Elements(tail) == select - rest && SortedBefore(g, tail)
      invariant forall i, x :: 0 <= i < |tail| && x in rest ==> Before(g, tail[i], x)
      decreases rest
    {
      var m := Earliest(g, rest);
      ElementsConcat(tail, [m]);
      assert Elements([m]) == {m};
      tail := tail + [m];
      rest := rest - {m};
    }
    ret := list + tail;
    assert ret[|list|..] == tail;
  }

  lemma SortedDistinct(g: Graph, t: seq<nat>)
    requires SortedBefore(g, t)
    ensures Distinct(t)
  {
  }

  lemma SortedTopological(g: Graph, t: seq<nat>)
    requires g.WellFormed() && g.Acyclic() && Elements(t) <= g.used && SortedBefore(g, t)
    ensures g.Topological(t)
  {
    forall i, j | 0 <= i < j < |t| ensures t[j] !in g.Ancestors(t[i]) {
      assert t[i] in Elements(t) && Before(g, t[i], t[j]);
      if t[j] in g.Ancestors(t[i]) && t[j] != t[i] {
        FewerAncestors(g, t[i], t[j]);
      }
    }
  }

  lemma {:induction false} RestrictTopological(g: Graph, s: seq<nat>, keep: set<nat>)
    requires g.Topological(s)
    ensures g.Topological(Restrict(s, keep))
  {
    if s != [] {
      var rest := s[1..];
      forall i, j | 0 <= i < j < |rest| ensures rest[j] !in g.Ancestors(rest[i]) {
        assert s[j + 1] !in g.Ancestors(s[i + 1]);
      }
      RestrictTopological(g, rest, keep);
      if s[0] in keep {
        var r := Restrict(rest, keep);
        forall j | 0 <= j < |r| ensures r[j] !in g.Ancestors(s[0]) {
          assert r[j] in Elements(r);
          var k :| 0 <= k < |rest| && rest[k] == r[j];
          assert s[k + 1] !in g.Ancestors(s[0]);
        }
      }
    }
  }

  /** A prefix of a topological order contains the ancestors, within the order, of its members. */
  lemma PrefixClosed(g: Graph, s: seq<nat>, prefix: seq<nat>)
    requires g.Topological(s) && prefix <= s
    ensures g.ClosedIn(Elements(prefix), Elements(s))
  {
    forall i, a | i in Elements(prefix) && a in g.Ancestors(i) * Elements(s) ensures a in Elements(prefix) {
      var k :| 0 <= k < |prefix| && prefix[k] == i;
      var j :| 0 <= j < |s| && s[j] == a;
      assert s[k] == i;
      assert j < |prefix|;
      assert prefix[j] == a;
    }
  }

  lemma ClosedIntersection(g: Graph, a: set<nat>, b: set<nat>, todo: set<nat>)
    requires g.ClosedIn(a, todo) && g.ClosedIn(b, todo)
    ensures g.ClosedIn(a * b, todo)
  {
  }

  /** The first chunks of what remains of a linearization are closed in what remains. */
  lemma ChunkPrefixClosed(g: Graph, lin: seq<nat>, i: nat)
    requires Known(g, lin) && g.Topological(lin) && i <= |Chunks(g, lin)|
    ensures g.ClosedIn(ChunkPrefix(Chunks(g, lin), i), Elements(lin))
  {
    var segs := Chunks(g, lin);
    ChunksIsChunking(g, lin);
    PrefixOfFlatten(segs, i);
    PrefixClosed(g, lin, Flatten(segs[..i]));
  }

  /** `out` is a valid start of a linearization, with `todo` still to come. */
  ghost predicate PartialLinearization(g: Graph, out: seq<nat>, todo: set<nat>) {
    && Distinct(out) && todo <= g.used && Elements(out) == g.used - todo
    && g.Topological(out) && g.ClosedIn(Elements(out), g.used)
  }

  lemma StartPartial(g: Graph)
    ensures PartialLinearization(g, [], g.used)
  {
    assert Elements([]) == {};
  }

  lemma FinishPartial(g: Graph, out: seq<nat>)
    requires PartialLinearization(g, out, {})
    ensures g.Linearization(out)
  {
  }

  lemma ExtendPartial(g: Graph, out: seq<nat>, todo: set<nat>, t: seq<nat>)
    requires g.WellFormed() && g.Acyclic() && PartialLinearization(g, out, todo)
    requires Elements(t) <= todo && g.ClosedIn(Elements(t), todo) && SortedBefore(g, t)
    ensures PartialLinearization(g, out + t, todo - Elements(t))
  {
    var s, done, all := Elements(t), Elements(out), out + t;
    ElementsConcat(out, t);
    SortedDistinct(g, t);
    DistinctSplit(out, t);
    SortedTopological(g, t);
    forall i, j | 0 <= i < j < |all| ensures all[j] !in g.Ancestors(all[i]) {
      if i < |out| <= j {
        assert out[i] in done && g.Ancestors(out[i]) * g.used <= done;
        assert t[j - |out|] in s;
      }
    }
    forall i, a | i in Elements(all) && a in g.Ancestors(i) * g.used ensures a in Elements(all) {
      if i in s && a !in done {
        assert a in todo;
      }
    }
  }
}
