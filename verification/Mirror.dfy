/** The graph as a backward pass sees it: parents and children trade places, and so do high and
    low feerates. */
module Mirrors {
  import opened FeeFracs
  import opened Positions
  import opened Graphs
  import opened DepGraphs
  import opened Diagrams
  import opened Improvement

  function Flip(e: Entry): Entry {
    Entry(FeeFrac(-e.feerate.fee, e.feerate.size), e.descendants, e.ancestors)
  }

  function Mirror(g: Graph): Graph {
    Graph(seq(|g.entries|, i requires 0 <= i < |g.entries| => Flip(g.entries[i])), g.used)
  }

  function Reverse(s: seq<nat>): seq<nat> {
    if s == [] then [] else Reverse(s[1..]) + [s[0]]
  }

  lemma {:induction false} ReverseAt(s: seq<nat>)
    ensures |Reverse(s)| == |s| && forall i :: 0 <= i < |s| ==> Reverse(s)[i] == s[|s| - 1 - i]
  {
    if s != [] {
      ReverseAt(s[1..]);
    }
  }

  lemma ReverseTwice(s: seq<nat>)
    ensures Reverse(Reverse(s)) == s
  {
    ReverseAt(s);
    ReverseAt(Reverse(s));
  }

  lemma ReverseShape(s: seq<nat>)
    ensures Elements(Reverse(s)) == Elements(s)
    ensures Distinct(s) ==> Distinct(Reverse(s))
  {
    ReverseAt(s);
    var r := Reverse(s);
    forall x | x in s ensures x in r {
      var i :| 0 <= i < |s| && s[i] == x;
      assert r[|s| - 1 - i] == x;
    }
    forall x | x in r ensures x in s {
      var i :| 0 <= i < |r| && r[i] == x;
      assert s[|s| - 1 - i] == x;
    }
  }

  lemma {:induction false} ReverseSnoc(s: seq<nat>, x: nat)
    ensures Reverse(s + [x]) == [x] + Reverse(s)
  {
    ReverseAt(s + [x]);
    ReverseAt(s);
  }

  lemma ReverseConcat(a: seq<nat>, b: seq<nat>)
    ensures Reverse(a + b) == Reverse(b) + Reverse(a)
  {
    ReverseAt(a);
    ReverseAt(b);
    ReverseAt(a + b);
  }

  lemma MirrorFields(g: Graph, i: nat)
    ensures Mirror(g).FeeRate(i) == FeeFrac(-g.FeeRate(i).fee, g.FeeRate(i).size)
    ensures Mirror(g).Ancestors(i) == g.Descendants(i)
    ensures Mirror(g).Descendants(i) == g.Ancestors(i)
  {
  }

  lemma MirrorCluster(g: Graph)
    requires g.Cluster()
    ensures Mirror(g).Cluster()
  {
    var m := Mirror(g);
    forall i, j | i in g.used && j in m.Ancestors(i) ensures m.Ancestors(j) <= m.Ancestors(i) {
      InheritDescendants(g, j, i);
    }
  }

  lemma MirrorTopological(g: Graph, s: seq<nat>)
    requires g.WellFormed() && Elements(s) <= g.used
    ensures Mirror(g).Topological(Reverse(s)) <==> g.Topological(s)
  {
    var m, r := Mirror(g), Reverse(s);
    ReverseAt(s);
    forall i | 0 <= i < |s| ensures s[i] in g.used {
      assert s[i] in Elements(s);
    }
    if g.Topological(s) {
      forall i, j | 0 <= i < j < |r| ensures r[j] !in m.Ancestors(r[i]) {
        assert s[|s| - 1 - i] !in g.Ancestors(s[|s| - 1 - j]);
      }
    }
    if m.Topological(r) {
      forall i, j | 0 <= i < j < |s| ensures s[j] !in g.Ancestors(s[i]) {
        assert r[|s| - 1 - i] !in m.Ancestors(r[|s| - 1 - j]);
      }
    }
  }

  lemma MirrorExcess(x: FeeFrac, r: FeeFrac)
    ensures Excess(FeeFrac(-x.fee, x.size), FeeFrac(-r.fee, r.size)) == -Excess(x, r)
  {
    assert (-x.fee) * r.size == -(x.fee * r.size);
    assert (-r.fee) * x.size == -(r.fee * x.size);
  }

  lemma PeakSnoc(g: Graph, r: FeeFrac, s: seq<nat>, x: nat)
    ensures Peak(g, r, s + [x]) == Max(Peak(g, r, s), Excess(g.SeqRate(s), r) + Excess(g.FeeRate(x), r))
    ensures Excess(g.SeqRate(s + [x]), r) == Excess(g.SeqRate(s), r) + Excess(g.FeeRate(x), r)
  {
    PeakConcat(g, r, s, [x]);
    PeakBounds(g, r, s, |s|);
    assert s[..|s|] == s;
    assert [x][1..] == [];
    SeqRateConcat(g, s, [x]);
    ExcessPlus(g.SeqRate(s), g.FeeRate(x), r);
  }

  lemma PeakCons(g: Graph, r: FeeFrac, s: seq<nat>, x: nat)
    ensures Peak(g, r, [x] + s) == Max(0, Excess(g.FeeRate(x), r) + Peak(g, r, s))
  {
    assert ([x] + s)[1..] == s;
  }

  /** Seen backwards, a prefix falls short of the line by what its complement exceeds it. */
  lemma {:induction false} MirrorPeak(g: Graph, r: FeeFrac, s: seq<nat>)
    ensures Peak(Mirror(g), FeeFrac(-r.fee, r.size), Reverse(s)) == Peak(g, r, s) - Excess(g.SeqRate(s), r)
  {
    if s != [] {
      var front, x := s[..|s| - 1], s[|s| - 1];
      assert s == front + [x];
      MirrorPeak(g, r, front);
      ReverseSnoc(front, x);
      PeakCons(Mirror(g), FeeFrac(-r.fee, r.size), Reverse(front), x);
      MirrorFields(g, x);
      MirrorExcess(g.FeeRate(x), r);
      PeakSnoc(g, r, front, x);
    }
  }

  /** An improvement seen backwards is an improvement. */
  lemma MirrorPeaksOver(g: Graph, a: seq<nat>, b: seq<nat>)
    requires g.SeqRate(a) == g.SeqRate(b)
    requires PeaksOver(Mirror(g), Reverse(a), Reverse(b))
    ensures PeaksOver(g, a, b)
  {
    forall r: FeeFrac | r.size > 0 ensures Peak(g, r, a) >= Peak(g, r, b) {
      MirrorPeak(g, r, a);
      MirrorPeak(g, r, b);
      var r' := FeeFrac(-r.fee, r.size);
      assert Peak(Mirror(g), r', Reverse(a)) >= Peak(Mirror(g), r', Reverse(b));
    }
  }
}
