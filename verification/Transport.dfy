/** Carrying candidate sets over to a renumbered graph and back. */
module Transport {
  import opened Graphs
  import opened Remapping
  import opened SearchTheory

  /** The positions that `m` takes into `s`. */
  ghost function Preimage(g: Graph, m: seq<nat>, s: set<nat>): set<nat> {
    set i | i in g.used && i < |m| && m[i] in s
  }

  lemma {:induction false} ImageRate(g: Graph, h: Graph, m: seq<nat>, s: set<nat>)
    requires Isomorphic(g, h, m) && s <= g.used
    ensures h.SetRate(Image(m, s)) == g.SetRate(s)
    decreases |s|
  {
    if s == {} {
      assert Image(m, s) == {};
      SetRateEmpty(g);
      SetRateEmpty(h);
    } else {
      var i :| i in s;
      var rest := s - {i};
      assert rest + {i} == s;
      ImageAdd(m, rest, i);
      assert m[i] !in Image(m, rest);
      ImageRate(g, h, m, rest);
      SetRateAdd(g, rest, i);
      SetRateAdd(h, Image(m, rest), m[i]);
    }
  }

  lemma {:induction false} ImageSize(g: Graph, m: seq<nat>, s: set<nat>)
    requires Renumbers(g, m) && s <= g.used
    ensures |Image(m, s)| == |s|
    decreases |s|
  {
    if s == {} {
      assert Image(m, s) == {};
    } else {
      var i :| i in s;
      var rest := s - {i};
      assert rest + {i} == s;
      ImageAdd(m, rest, i);
      assert m[i] !in Image(m, rest);
      ImageSize(g, m, rest);
    }
  }

  lemma PreimageOf(g: Graph, h: Graph, m: seq<nat>, s: set<nat>)
    requires Isomorphic(g, h, m)
    ensures s <= h.used ==> Image(m, Preimage(g, m, s)) == s
    ensures s <= g.used ==> Preimage(g, m, Image(m, s)) == s
  {
  }

  lemma IsomorphicCluster(g: Graph, h: Graph, m: seq<nat>)
    requires g.Cluster() && h.WellFormed() && Isomorphic(g, h, m)
    ensures h.Cluster()
  {
    forall x | x in h.used ensures h.FeeRate(x).size > 0 {
      var i :| i in g.used && i < |m| && m[i] == x;
      assert h.FeeRate(m[i]) == g.FeeRate(i);
    }
    forall x, y | x in h.used && y in h.used && x in h.Ancestors(y) && y in h.Ancestors(x) ensures x == y {
      var i :| i in g.used && i < |m| && m[i] == x;
      var j :| j in g.used && j < |m| && m[j] == y;
    }
  }

  /** Candidates are carried to candidates. */
  lemma ImageCandidate(g: Graph, h: Graph, m: seq<nat>, todo: set<nat>, s: set<nat>)
    requires h.WellFormed() && Isomorphic(g, h, m) && todo <= g.used && Candidate(g, todo, s)
    ensures Candidate(h, Image(m, todo), Image(m, s))
  {
    ImageMono(m, s, todo);
    var i0 :| i0 in s;
    ImageOf(m, s, i0);
    forall x, a | x in Image(m, s) && a in h.Ancestors(x) * Image(m, todo) ensures a in Image(m, s) {
      var i :| i in s && i < |m| && m[i] == x;
      var j :| j in todo && j < |m| && m[j] == a;
      assert j in g.Ancestors(i);
      ImageOf(m, s, j);
    }
  }

  /** And back. */
  lemma PreimageCandidate(g: Graph, h: Graph, m: seq<nat>, todo: set<nat>, s: set<nat>)
    requires h.WellFormed() && Isomorphic(g, h, m) && todo <= g.used && Candidate(h, Image(m, todo), s)
    ensures Candidate(g, todo, Preimage(g, m, s))
    ensures g.SetRate(Preimage(g, m, s)) == h.SetRate(s)
  {
    var p := Preimage(g, m, s);
    ImageMono(m, todo, g.used);
    PreimageOf(g, h, m, s);
    ImageRate(g, h, m, p);
    assert p != {} by {
      var x :| x in s;
      var i :| i in todo && i < |m| && m[i] == x;
      assert i in p;
    }
    forall i | i in p ensures i in todo {
      var j :| j in todo && j < |m| && m[j] == m[i];
    }
    forall i, a | i in p && a in g.Ancestors(i) * todo ensures a in p {
      ImageOf(m, todo, a);
      assert m[a] in h.Ancestors(m[i]);
    }
  }
}
