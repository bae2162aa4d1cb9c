/** Appending a transaction on which nothing depends and post-linearizing is never worse than having
    it anywhere else, even at a lower fee. */
module MovedLeaf {
  import opened FeeFracs
  import opened Positions
  import opened Graphs
  import opened Diagrams
  import opened Chunking
  import opened Improvement
  import opened Mirrors
  import opened GroupLists
  import opened GroupEntries
  import opened GroupPasses

  /** The list without the group that is just `t`. */
  ghost function Without(groups: seq<seq<nat>>, t: nat): seq<seq<nat>> {
    if groups == [] then [] else Kept(groups[0], t) + Without(groups[1..], t)
  }

  ghost function Kept(c: seq<nat>, t: nat): seq<seq<nat>> {
    if c == [t] then [] else [c]
  }

  lemma {:induction false} WithoutConcat(a: seq<seq<nat>>, b: seq<seq<nat>>, t: nat)
    ensures Without(a + b, t) == Without(a, t) + Without(b, t)
  {
    if a == [] {
      assert a + b == b;
    } else {
      assert (a + b)[1..] == a[1..] + b;
      WithoutConcat(a[1..], b, t);
    }
  }

  lemma WithoutCons(c: seq<nat>, rest: seq<seq<nat>>, t: nat)
    ensures Without([c] + rest, t) == Kept(c, t) + Without(rest, t)
  {
    assert ([c] + rest)[1..] == rest;
  }

  lemma WithoutPair(a: seq<seq<nat>>, p: seq<nat>, c: seq<nat>, b: seq<seq<nat>>, t: nat)
    ensures Without(a + ([p] + ([c] + b)), t) == Without(a, t) + (Kept(p, t) + (Kept(c, t) + Without(b, t)))
  {
    WithoutConcat(a, [p] + ([c] + b), t);
    WithoutCons(p, [c] + b, t);
    WithoutCons(c, b, t);
  }

  lemma {:induction false} WithoutAbsent(groups: seq<seq<nat>>, t: nat)
    requires forall k :: 0 <= k < |groups| ==> groups[k] != [t]
    ensures Without(groups, t) == groups
  {
    if groups != [] {
      WithoutAbsent(groups[1..], t);
    }
  }

  /** `t` is in no group with others, and nothing else among `lin` depends on it. */
  ghost predicate Lone(g: Graph, groups: seq<seq<nat>>, lin: seq<nat>, t: nat) {
    && (forall k :: 0 <= k < |groups| && t in groups[k] ==> groups[k] == [t])
    && forall a :: a in Elements(lin) && a != t ==> t !in g.Ancestors(a)
  }

  lemma SwapLone(g: Graph, groups: seq<seq<nat>>, lin: seq<nat>, c: nat, t: nat)
    requires 0 < c < |groups| && Lone(g, groups, lin, t)
    ensures Lone(g, SwapAt(groups, c), lin, t)
  {
    var s := SwapAt(groups, c);
    forall k | 0 <= k < |s| && t in s[k] ensures s[k] == [t] {
      SwappedAt(groups, c, k);
    }
  }

  lemma MergeLone(g: Graph, groups: seq<seq<nat>>, lin: seq<nat>, c: nat, t: nat)
    requires 0 < c < |groups| && Lone(g, groups, lin, t) && t !in groups[c - 1] && t !in groups[c]
    ensures Lone(g, MergeAt(groups, c), lin, t)
  {
    var m := MergeAt(groups, c);
    forall k | 0 <= k < |m| && t in m[k] ensures m[k] == [t] {
      MergedAt(groups, c, k);
    }
  }

  /** Where the moving group is in the list without `t`. */
  ghost function Index(groups: seq<seq<nat>>, c: nat, t: nat): nat
    requires c <= |groups|
  {
    |Without(groups[..c], t)|
  }

  lemma WithoutAround(groups: seq<seq<nat>>, c: nat, t: nat)
    requires 0 < c < |groups| && groups[c] != [t]
    ensures Without(groups, t) ==
            Without(groups[..c - 1], t) + (Kept(groups[c - 1], t) + ([groups[c]] + Without(groups[c + 1..], t)))
    ensures Index(groups, c, t) == Index(groups, c - 1, t) + |Kept(groups[c - 1], t)|
  {
    PiecesOf(groups, c);
    WithoutPair(groups[..c - 1], groups[c - 1], groups[c], groups[c + 1..], t);
    assert groups[..c] == groups[..c - 1] + [groups[c - 1]];
    WithoutConcat(groups[..c - 1], [groups[c - 1]], t);
    WithoutCons(groups[c - 1], [], t);
    assert [groups[c - 1]] + [] == [groups[c - 1]];
  }

  lemma IndexStart(groups: seq<seq<nat>>, t: nat)
    requires |groups| > 0 && groups[0] != [t]
    ensures Index(groups, 0, t) == 0 < |Without(groups, t)| && Without(groups, t)[0] == groups[0]
  {
  }

  /** Passing `t` changes nothing in the list without it. */
  lemma SwapWithLeaf(groups: seq<seq<nat>>, c: nat, t: nat)
    requires 0 < c < |groups| && groups[c] != [t] && groups[c - 1] == [t]
    ensures Without(SwapAt(groups, c), t) == Without(groups, t)
    ensures Index(SwapAt(groups, c), c - 1, t) == Index(groups, c, t) < |Without(groups, t)|
    ensures Without(groups, t)[Index(groups, c, t)] == groups[c]
  {
    WithoutAround(groups, c, t);
    WithoutPair(groups[..c - 1], groups[c], groups[c - 1], groups[c + 1..], t);
    assert SwapAt(groups, c)[..c - 1] == groups[..c - 1];
  }

  /** The two groups involved are neighbours in the list without `t` too. */
  lemma SameNeighbours(groups: seq<seq<nat>>, c: nat, t: nat)
    requires 0 < c < |groups| && groups[c] != [t] && groups[c - 1] != [t]
    ensures var i, w := Index(groups, c, t), Without(groups, t);
            0 < i < |w| && w[i] == groups[c] && w[i - 1] == groups[c - 1] && i == Index(groups, c - 1, t) + 1 &&
            w[..i - 1] == Without(groups[..c - 1], t) && w[i + 1..] == Without(groups[c + 1..], t)
  {
    WithoutAround(groups, c, t);
  }

  lemma SwapBesideLeaf(groups: seq<seq<nat>>, c: nat, t: nat)
    requires 0 < c < |groups| && groups[c] != [t] && groups[c - 1] != [t]
    ensures 0 < Index(groups, c, t) < |Without(groups, t)|
    ensures Without(SwapAt(groups, c), t) == SwapAt(Without(groups, t), Index(groups, c, t))
    ensures Index(SwapAt(groups, c), c - 1, t) == Index(groups, c, t) - 1
  {
    SameNeighbours(groups, c, t);
    WithoutPair(groups[..c - 1], groups[c], groups[c - 1], groups[c + 1..], t);
    assert SwapAt(groups, c)[..c - 1] == groups[..c - 1];
  }

  lemma MergeBesideLeaf(groups: seq<seq<nat>>, c: nat, t: nat)
    requires 0 < c < |groups| && groups[c] != [t] && groups[c - 1] != [t] && groups[c - 1] + groups[c] != [t]
    ensures 0 < Index(groups, c, t) < |Without(groups, t)|
    ensures Without(MergeAt(groups, c), t) == MergeAt(Without(groups, t), Index(groups, c, t))
    ensures Index(MergeAt(groups, c), c - 1, t) == Index(groups, c, t) - 1
  {
    SameNeighbours(groups, c, t);
    var m := groups[c - 1] + groups[c];
    WithoutConcat(groups[..c - 1], [m] + groups[c + 1..], t);
    WithoutCons(m, groups[c + 1..], t);
    assert MergeAt(groups, c)[..c - 1] == groups[..c - 1];
  }

  /** What a group that moves leaves behind is the same without `t` as if `t` had not been there. */
  ghost predicate Shadowed(g: Graph, groups: seq<seq<nat>>, c: nat, t: nat)
    requires c < |groups|
  {
    && Index(groups, c, t) < |Without(groups, t)|
    && Without(Moved(g, groups, c), t) == Moved(g, Without(groups, t), Index(groups, c, t))
  }

  /** A group that does not pass `t` would not pass the group before `t` either. */
  lemma StopAtLeaf(g: Graph, groups: seq<seq<nat>>, lin: seq<nat>, c: nat, t: nat)
    requires Known(g, lin) && Grouping(g, groups, lin) && 0 < c < |groups| && DescendingBut(g, groups, c)
    requires groups[c] != [t] && groups[c - 1] == [t] && !Higher(g.SeqRate(groups[c]), g.SeqRate(groups[c - 1]))
    ensures Shadowed(g, groups, c, t)
  {
    BehindLeaf(groups, c, t);
    if c > 1 {
      GroupSizes(g, groups, lin);
      NotHigherTrans(g.SeqRate(groups[c]), g.SeqRate(groups[c - 1]), g.SeqRate(groups[c - 2]));
    }
    assert Moved(g, groups, c) == groups;
    assert Moved(g, Without(groups, t), c - 1) == Without(groups, t);
  }

  /** Without the group `[t]` those around it are next to each other. */
  lemma BehindLeaf(groups: seq<seq<nat>>, c: nat, t: nat)
    requires 0 < c < |groups| && groups[c] != [t] && groups[c - 1] == [t] && Distinct(Flatten(groups))
    ensures Index(groups, c, t) == c - 1 < |Without(groups, t)| && Without(groups, t)[c - 1] == groups[c]
    ensures c > 1 ==> Without(groups, t)[c - 2] == groups[c - 2]
  {
    DistinctApart(groups);
    var front := groups[..c - 1];
    forall k | 0 <= k < |front| ensures front[k] != [t] {
      assert t in groups[c - 1];
    }
    WithoutAbsent(front, t);
    WithoutAround(groups, c, t);
  }

  lemma {:induction false} MovedWithout(g: Graph, groups: seq<seq<nat>>, lin: seq<nat>, c: nat, t: nat)
    requires g.WellFormed() && Known(g, lin) && Grouping(g, groups, lin)
    requires c < |groups| && DescendingBut(g, groups, c) && Lone(g, groups, lin, t) && groups[c] != [t]
    ensures Shadowed(g, groups, c, t) && Lone(g, Moved(g, groups, c), lin, t)
    decreases c
  {
    if c == 0 {
      IndexStart(groups, t);
    } else if !Higher(g.SeqRate(groups[c]), g.SeqRate(groups[c - 1])) {
      if groups[c - 1] == [t] {
        StopAtLeaf(g, groups, lin, c, t);
      } else {
        SameNeighbours(groups, c, t);
      }
    } else if NoBack(g, groups[c], groups[c - 1]) {
      SwapGroups(g, groups, lin, c);
      SwapDescending(g, groups, c);
      SwapLone(g, groups, lin, c, t);
      SwappedAt(groups, c, c - 1);
      MovedWithout(g, SwapAt(groups, c), lin, c - 1, t);
      PassOther(g, groups, c, t);
    } else {
      NotOnLeaf(g, groups, lin, c, t);
      var a, b := BackWitness(g, groups[c], groups[c - 1]);
      MergeGroups(g, groups, lin, c, a, b);
      MergeDescending(g, groups, lin, c);
      MergeLone(g, groups, lin, c, t);
      MergedAt(groups, c, c - 1);
      MovedWithout(g, MergeAt(groups, c), lin, c - 1, t);
      JoinOther(g, groups, c, t);
    }
  }

  lemma PassOther(g: Graph, groups: seq<seq<nat>>, c: nat, t: nat)
    requires 0 < c < |groups| && groups[c] != [t]
    requires Higher(g.SeqRate(groups[c]), g.SeqRate(groups[c - 1])) && NoBack(g, groups[c], groups[c - 1])
    requires Shadowed(g, SwapAt(groups, c), c - 1, t)
    ensures Shadowed(g, groups, c, t)
  {
    if groups[c - 1] == [t] {
      SwapWithLeaf(groups, c, t);
    } else {
      SameNeighbours(groups, c, t);
      SwapBesideLeaf(groups, c, t);
    }
  }

  lemma JoinOther(g: Graph, groups: seq<seq<nat>>, c: nat, t: nat)
    requires 0 < c < |groups| && groups[c] != [t] && groups[c - 1] != [t] && groups[c - 1] + groups[c] != [t]
    requires Higher(g.SeqRate(groups[c]), g.SeqRate(groups[c - 1])) && !NoBack(g, groups[c], groups[c - 1])
    requires Shadowed(g, MergeAt(groups, c), c - 1, t)
    ensures Shadowed(g, groups, c, t)
  {
    SameNeighbours(groups, c, t);
    MergeBesideLeaf(groups, c, t);
  }

  lemma NotOnLeaf(g: Graph, groups: seq<seq<nat>>, lin: seq<nat>, c: nat, t: nat)
    requires Grouping(g, groups, lin) && 0 < c < |groups| && Lone(g, groups, lin, t) && groups[c] != [t]
    requires !NoBack(g, groups[c], groups[c - 1])
    ensures t !in groups[c] && t !in groups[c - 1] && groups[c - 1] != [t] && groups[c - 1] + groups[c] != [t]
  {
    var a, b := BackWitness(g, groups[c], groups[c - 1]);
    OneDistinct(groups, c);
    assert t !in groups[c] && b in Elements(lin) && b != t;
    assert t !in groups[c - 1] + groups[c];
  }

  /** Starting with `t`, on which none of `rest` depends, a pass does with `rest` what it does
      without `t`. */
  lemma {:induction false} GroupsOfWithout(g: Graph, t: nat, rest: seq<nat>)
    requires g.WellFormed() && Known(g, [t] + rest) && Distinct([t] + rest) && g.Topological([t] + rest)
    requires forall a :: a in rest ==> t !in g.Ancestors(a)
    ensures Without(GroupsOf(g, [t] + rest), t) == GroupsOf(g, rest)
    ensures Lone(g, GroupsOf(g, [t] + rest), [t] + rest, t)
    decreases |rest|
  {
    if rest == [] {
      assert [t] + rest == [t] && [t][..0] == [];
      assert GroupsOf(g, [t]) == [[t]];
      assert [[t]][1..] == [];
    } else {
      var n := |rest| - 1;
      var front, x := rest[..n], rest[n];
      var order, lin := [t] + front, [t] + rest;
      PrefixFacts(g, lin, n + 1);
      assert lin[..n + 1] == order && lin[..n + 2] == lin && lin[n + 1] == x;
      GroupsOfWithout(g, t, front);
      GroupsOfGood(g, order);
      var before := GroupsOf(g, order);
      AppendGroup(g, before, order, x);
      AppendDescending(g, before, [x]);
      AppendLone(g, before, order, t, x);
      MovedWithout(g, before + [[x]], lin, |before|, t);
    }
  }

  lemma AppendLone(g: Graph, before: seq<seq<nat>>, order: seq<nat>, t: nat, x: nat)
    requires Lone(g, before, order, t) && x != t && t !in g.Ancestors(x)
    ensures Lone(g, before + [[x]], order + [x], t)
    ensures Without(before + [[x]], t) == Without(before, t) + [[x]]
    ensures Index(before + [[x]], |before|, t) == |Without(before, t)|
  {
    ElementsConcat(order, [x]);
    WithoutConcat(before, [[x]], t);
    WithoutCons([x], [], t);
    assert [[x]] + [] == [[x]];
    assert (before + [[x]])[..|before|] == before;
  }

  // ---------- What that is worth ----------

  lemma {:induction false} FlatNoPeak(g: Graph, r: FeeFrac, groups: seq<seq<nat>>)
    requires Known(g, Flatten(groups)) && r.size > 0
    requires forall k :: 0 <= k < |groups| ==> Rising(g, groups[k]) && Excess(g.SeqRate(groups[k]), r) <= 0
    ensures Peak(g, r, Flatten(groups)) == 0
  {
    if groups != [] {
      KnownSplit(g, groups[0], Flatten(groups[1..]));
      FlatNoPeak(g, r, groups[1..]);
      PeakConcat(g, r, groups[0], Flatten(groups[1..]));
      RisingPeak(g, r, groups[0]);
    }
  }

  /** Where the group of `t` is. */
  lemma {:induction false} FindLeaf(groups: seq<seq<nat>>, t: nat) returns (k: nat)
    requires t in Elements(Flatten(groups))
    ensures k < |groups| && t in groups[k]
  {
    ElementsConcat(groups[0], Flatten(groups[1..]));
    if t in groups[0] {
      k := 0;
    } else {
      var k' := FindLeaf(groups[1..], t);
      k := k' + 1;
    }
  }

  lemma PieceAt(groups: seq<seq<nat>>, k: nat)
    requires k < |groups|
    ensures groups == groups[..k] + ([groups[k]] + groups[k + 1..])
  {
  }

  lemma AbsentElsewhere(groups: seq<seq<nat>>, k: nat, t: nat)
    requires k < |groups| && groups[k] == [t] && Apart(groups)
    ensures Without(groups[..k], t) == groups[..k] && Without(groups[k + 1..], t) == groups[k + 1..]
  {
    assert t in groups[k];
    forall i | 0 <= i < |groups| && i != k ensures groups[i] != [t] {
      assert t !in groups[i];
    }
    WithoutAbsent(groups[..k], t);
    WithoutAbsent(groups[k + 1..], t);
  }

  lemma FlattenLeaf(a: seq<seq<nat>>, t: nat, b: seq<seq<nat>>)
    ensures Flatten(a + ([[t]] + b)) == Flatten(a) + ([t] + Flatten(b))
    ensures Flatten(a + b) == Flatten(a) + Flatten(b)
  {
    FlattenConcat(a, [[t]] + b);
    FlattenConcat(a, b);
    FlattenCons([t], b);
  }

  lemma WithoutLeaf(a: seq<seq<nat>>, t: nat, b: seq<seq<nat>>)
    ensures Without(a + ([[t]] + b), t) == Without(a, t) + Without(b, t)
  {
    WithoutConcat(a, [[t]] + b, t);
    WithoutCons([t], b, t);
  }

  lemma SplitAtLeaf(groups: seq<seq<nat>>, k: nat, t: nat)
    requires k < |groups| && groups[k] == [t] && Apart(groups)
    ensures Flatten(groups) == Flatten(groups[..k]) + ([t] + Flatten(groups[k + 1..]))
    ensures Flatten(Without(groups, t)) == Flatten(groups[..k]) + Flatten(groups[k + 1..])
  {
    PieceAt(groups, k);
    AbsentElsewhere(groups, k, t);
    FlattenLeaf(groups[..k], t, groups[k + 1..]);
    WithoutLeaf(groups[..k], t, groups[k + 1..]);
  }

  lemma WholePeak(g: Graph, r: FeeFrac, s: seq<nat>)
    ensures Excess(g.SeqRate(s), r) <= Peak(g, r, s)
  {
    PeakBounds(g, r, s, |s|);
    assert s[..|s|] == s;
  }

  /** Having `t` in its place among the groups is no worse than having them only. */
  lemma LeafPeak(g: Graph, r: FeeFrac, a: seq<nat>, t: nat, b: seq<nat>)
    requires Excess(g.FeeRate(t), r) < 0 ==> Peak(g, r, b) == 0
    ensures Peak(g, r, a + ([t] + b)) >= Peak(g, r, a + b)
  {
    PeakConcat(g, r, a, [t] + b);
    PeakConcat(g, r, a, b);
    PeakCons(g, r, b, t);
    WholePeak(g, r, a);
  }

  lemma LeafTotal(g: Graph, r: FeeFrac, a: seq<nat>, t: nat, b: seq<nat>)
    ensures Peak(g, r, a + ([t] + b)) >= Excess(g.SeqRate(a + b), r) + Excess(g.FeeRate(t), r)
  {
    WholePeak(g, r, a + ([t] + b));
    RateAround(g, a, t, b, r);
  }

  lemma RateAround(g: Graph, a: seq<nat>, t: nat, b: seq<nat>, r: FeeFrac)
    ensures Excess(g.SeqRate(a + ([t] + b)), r) == Excess(g.SeqRate(a + b), r) + Excess(g.FeeRate(t), r)
  {
    SeqRateConcat(g, a, [t] + b);
    SeqRateConcat(g, a, b);
    assert ([t] + b)[1..] == b;
    ExcessPlus(g.SeqRate(a), g.SeqRate([t] + b), r);
    ExcessPlus(g.SeqRate(a), g.SeqRate(b), r);
    ExcessPlus(g.FeeRate(t), g.SeqRate(b), r);
  }

  lemma LeafFirstAt(g: Graph, r: FeeFrac, a: seq<nat>, t: nat, b: seq<nat>, rest: seq<nat>)
    requires Excess(g.FeeRate(t), r) < 0 ==> Peak(g, r, b) == 0
    requires Peak(g, r, a + b) >= Peak(g, r, rest) && g.SeqRate(a + b) == g.SeqRate(rest)
    ensures Peak(g, r, a + ([t] + b)) >= Peak(g, r, rest + [t])
  {
    LeafPeak(g, r, a, t, b);
    LeafTotal(g, r, a, t, b);
    PeakSnoc(g, r, rest, t);
  }

  /** Taking up `t` first, with none of `rest` depending on it, is as good as having it last. */
  lemma LeafFirst(g: Graph, t: nat, rest: seq<nat>)
    requires g.WellFormed() && Known(g, [t] + rest) && Distinct([t] + rest) && g.Topological([t] + rest)
    requires forall a :: a in rest ==> t !in g.Ancestors(a)
    ensures PeaksOver(g, Flatten(GroupsOf(g, [t] + rest)), rest + [t])
  {
    var lin := [t] + rest;
    var groups := GroupsOf(g, lin);
    GroupsOfGood(g, lin);
    var k := LeafGroup(g, t, rest);
    var a, b := Flatten(groups[..k]), Flatten(groups[k + 1..]);
    RestGood(g, t, rest);
    forall r: FeeFrac | r.size > 0 ensures Peak(g, r, Flatten(groups)) >= Peak(g, r, rest + [t]) {
      if Excess(g.FeeRate(t), r) < 0 {
        AfterLeaf(g, groups, lin, k, t, r);
      }
      LeafFirstAt(g, r, a, t, b, rest);
    }
  }

  lemma LeafGroup(g: Graph, t: nat, rest: seq<nat>) returns (k: nat)
    requires g.WellFormed() && Known(g, [t] + rest) && Distinct([t] + rest) && g.Topological([t] + rest)
    requires forall a :: a in rest ==> t !in g.Ancestors(a)
    ensures var groups := GroupsOf(g, [t] + rest);
            && k < |groups| && groups[k] == [t]
            && Flatten(groups) == Flatten(groups[..k]) + ([t] + Flatten(groups[k + 1..]))
            && Flatten(GroupsOf(g, rest)) == Flatten(groups[..k]) + Flatten(groups[k + 1..])
  {
    var lin := [t] + rest;
    var groups := GroupsOf(g, lin);
    GroupsOfWithout(g, t, rest);
    GroupsOfGood(g, lin);
    DistinctApart(groups);
    assert lin[0] in Elements(lin);
    k := FindLeaf(groups, t);
    SplitAtLeaf(groups, k, t);
  }

  lemma RestGood(g: Graph, t: nat, rest: seq<nat>)
    requires g.WellFormed() && Known(g, [t] + rest) && Distinct([t] + rest) && g.Topological([t] + rest)
    ensures Grouping(g, GroupsOf(g, rest), rest)
  {
    KnownSplit(g, [t], rest);
    DistinctSplit([t], rest);
    TopologicalConcat(g, [t], rest);
    GroupsOfGood(g, rest);
  }

  lemma AfterLeaf(g: Graph, groups: seq<seq<nat>>, lin: seq<nat>, k: nat, t: nat, r: FeeFrac)
    requires Known(g, lin) && Grouping(g, groups, lin) && DescendingBut(g, groups, -1) && k < |groups|
    requires groups[k] == [t] && r.size > 0 && Excess(g.FeeRate(t), r) < 0
    ensures Peak(g, r, Flatten(groups[k + 1..])) == 0
  {
    var b := groups[k + 1..];
    assert groups == groups[..k + 1] + b;
    FlattenConcat(groups[..k + 1], b);
    KnownSplit(g, Flatten(groups[..k + 1]), Flatten(b));
    GroupSizes(g, groups, lin);
    assert [t][1..] == [];
    assert g.SeqRate([t]) == g.FeeRate(t);
    forall i | 0 <= i < |b| ensures Rising(g, b[i]) && Excess(g.SeqRate(b[i]), r) <= 0 {
      assert b[i] == groups[k + 1 + i];
      assert GoodGroup(g, groups[k + 1 + i]);
      NotHigherTrans(g.SeqRate(groups[k + 1 + i]), g.SeqRate(groups[k]), r);
    }
    FlatNoPeak(g, r, b);
  }

  lemma LastOf(x: seq<nat>, y: seq<nat>)
    requires |y| > 0
    ensures var n := |y| - 1; x + y == (x + y[..n]) + [y[n]]
  {
  }

  /** What a pass makes of the first transactions only gets better when it goes on. */
  lemma {:induction false} GoOn(g: Graph, x: seq<nat>, y: seq<nat>, other: seq<nat>)
    requires g.WellFormed() && Known(g, x + y) && Distinct(x + y) && g.Topological(x + y)
    requires PeaksOver(g, Flatten(GroupsOf(g, x)), other) && g.SeqRate(other) == g.SeqRate(x)
    ensures PeaksOver(g, Flatten(GroupsOf(g, x + y)), other + y)
    decreases |y|
  {
    if y == [] {
      assert x + y == x && other + y == other;
    } else {
      var n := |y| - 1;
      LastOf(x, y);
      LastOf(other, y);
      KnownSplit(g, x + y[..n], [y[n]]);
      DistinctSplit(x + y[..n], [y[n]]);
      TopologicalConcat(g, x + y[..n], [y[n]]);
      GoOn(g, x, y[..n], other);
      GoOnOne(g, x + y[..n], y[n], other + y[..n], x, y[..n], other);
    }
  }

  lemma GoOnOne(g: Graph, order: seq<nat>, z: nat, other: seq<nat>, x: seq<nat>, y: seq<nat>, o: seq<nat>)
    requires g.WellFormed() && Known(g, order + [z]) && Distinct(order + [z]) && g.Topological(order + [z])
    requires PeaksOver(g, Flatten(GroupsOf(g, order)), other)
    requires order == x + y && other == o + y && g.SeqRate(o) == g.SeqRate(x)
    ensures PeaksOver(g, Flatten(GroupsOf(g, order + [z])), other + [z])
  {
    var groups := GroupsOf(g, order);
    var flat := Flatten(groups);
    KnownSplit(g, order, [z]);
    DistinctSplit(order, [z]);
    TopologicalConcat(g, order, [z]);
    GroupsOfGood(g, order);
    // The same list, seen as a grouping of its own order.
    NextFromFlat(g, groups, order, z);
    SeqRateConcat(g, x, y);
    SeqRateConcat(g, o, y);
    PeaksOverBefore(g, flat, other, [z]);
    PeaksOverTrans(g, Flatten(GroupsOf(g, order + [z])), flat + [z], other + [z]);
  }

  lemma NextFromFlat(g: Graph, groups: seq<seq<nat>>, order: seq<nat>, z: nat)
    requires g.WellFormed() && Known(g, order + [z]) && Distinct(order + [z]) && g.Topological(order + [z])
    requires groups == GroupsOf(g, order) && Grouping(g, groups, order) && DescendingBut(g, groups, -1)
    ensures PeaksOver(g, Flatten(GroupsOf(g, order + [z])), Flatten(groups) + [z])
  {
    var flat := Flatten(groups);
    var next := groups + [[z]];
    assert Grouping(g, groups, flat);
    AppendGroup(g, groups, order, z);
    FlattenConcat(groups, [[z]]);
    FlattenOne([z]);
    ElementsConcat(order, [z]);
    ElementsConcat(flat, [z]);
    AppendGroup(g, groups, flat, z);
    AppendDescending(g, groups, [z]);
    MovedGood(g, next, flat + [z], |groups|);
    assert (order + [z])[..|order|] == order;
  }

  // ---------- The promise ----------

  /** `g'` has the transactions and dependencies of `g`, at the same sizes and no lower fees. */
  ghost predicate FeesRaised(g: Graph, g': Graph) {
    && g'.used == g.used && |g'.entries| == |g.entries|
    && forall i :: 0 <= i < |g.entries| ==>
         && g'.entries[i].ancestors == g.entries[i].ancestors && g'.entries[i].descendants == g.entries[i].descendants
         && g'.entries[i].feerate.size == g.entries[i].feerate.size
         && g'.entries[i].feerate.fee >= g.entries[i].feerate.fee
  }

  lemma {:induction false} RaisedPeak(g: Graph, g': Graph, r: FeeFrac, s: seq<nat>)
    requires FeesRaised(g, g') && r.size > 0
    ensures Peak(g', r, s) >= Peak(g, r, s)
    ensures g'.SeqRate(s).size == g.SeqRate(s).size && g'.SeqRate(s).fee >= g.SeqRate(s).fee
  {
    if s != [] {
      RaisedPeak(g, g', r, s[1..]);
      RaisedExcess(g.FeeRate(s[0]), g'.FeeRate(s[0]), r);
    }
  }

  lemma RaisedExcess(a: FeeFrac, b: FeeFrac, r: FeeFrac)
    requires a.size == b.size && a.fee <= b.fee && r.size > 0
    ensures Excess(a, r) <= Excess(b, r)
  {
    assert a.fee * r.size <= b.fee * r.size;
  }

  lemma RaisedLinearization(g: Graph, g': Graph, lin: seq<nat>)
    requires FeesRaised(g, g') && g.Cluster() && g.Linearization(lin)
    ensures g'.Cluster() && g'.Linearization(lin)
  {
    forall i ensures g'.Ancestors(i) == g.Ancestors(i) && g'.Descendants(i) == g.Descendants(i) {
    }
    forall i | i in g.used ensures g'.FeeRate(i).size == g.FeeRate(i).size {
    }
  }

  /** With a transaction without children moved to the end, the backward pass gives an order that is
      at least as good. */
  lemma BackwardLeaf(g: Graph, a: seq<nat>, t: nat, b: seq<nat>)
    requires g.Cluster() && g.Linearization(a + ([t] + b)) && g.Descendants(t) == {t}
    ensures g.Linearization((a + b) + [t]) && PeaksOver(g, PassOf(g, (a + b) + [t], true), a + ([t] + b))
  {
    var l1, l2 := a + ([t] + b), (a + b) + [t];
    MoveToEnd(g, a, t, b);
    ViewFacts(g, true, l1);
    ViewFacts(g, true, l2);
    var m, ra, rb := Mirror(g), Reverse(a), Reverse(b);
    ReversedOrders(a, t, b);
    // In the mirror, `t` is taken up first and nothing in `rb` depends on it.
    TopologicalConcat(m, (rb + [t]), ra);
    TopologicalConcat(m, rb, [t]);
    SplitFirst(m, [t] + rb, ra);
    LeafFirst(m, t, rb);
    SwapRate(m, t, rb);
    GoOn(m, [t] + rb, ra, rb + [t]);
    PassGood(g, true, l2);
    var flat := Flatten(GroupsOf(m, Reverse(l2)));
    ReverseTwice(flat);
    SameRate(g, Reverse(flat), l1);
    MirrorPeaksOver(g, Reverse(flat), l1);
  }

  lemma SplitFirst(g: Graph, x: seq<nat>, y: seq<nat>)
    requires Known(g, x + y) && Distinct(x + y) && g.Topological(x + y)
    ensures Known(g, x) && Distinct(x) && g.Topological(x)
  {
    KnownSplit(g, x, y);
    DistinctSplit(x, y);
    TopologicalConcat(g, x, y);
  }

  lemma SwapRate(g: Graph, t: nat, s: seq<nat>)
    ensures g.SeqRate(s + [t]) == g.SeqRate([t] + s)
  {
    SeqRateConcat(g, s, [t]);
    SeqRateConcat(g, [t], s);
  }

  lemma ReverseOne(t: nat)
    ensures Reverse([t]) == [t]
  {
    assert [t][1..] == [];
  }

  lemma ReversedOrders(a: seq<nat>, t: nat, b: seq<nat>)
    ensures Reverse(a + ([t] + b)) == (Reverse(b) + [t]) + Reverse(a)
    ensures Reverse((a + b) + [t]) == ([t] + Reverse(b)) + Reverse(a)
  {
    ReverseOne(t);
    ReverseConcat(a, [t] + b);
    ReverseConcat([t], b);
    ReverseConcat(a + b, [t]);
    ReverseConcat(a, b);
  }

  lemma MoveToEnd(g: Graph, a: seq<nat>, t: nat, b: seq<nat>)
    requires g.WellFormed() && g.Linearization(a + ([t] + b)) && g.Descendants(t) == {t}
    ensures g.Linearization((a + b) + [t])
  {
    assert b + [] == b && [t] + [] == [t];
    var l1 := a + ([t] + (b + []));
    assert l1 == a + ([t] + b);
    TopologicalConcat(g, a, [t] + b);
    TopologicalConcat(g, [t], b);
    DistinctSplit([t], b);
    assert t in [t] && Elements([t]) == {t};
    assert Elements(l1) == g.used;
    ElementsConcat(a, [t] + b);
    ElementsConcat([t], b);
    forall x, y | x in b && y in [t] ensures y !in g.Ancestors(x) {
      assert x in Elements(b);
    }
    DistinctSplit(a, [t] + b);
    TopologicalSwap(g, a, [t], b, []);
    DistinctSwap(a, [t], b, []);
    assert a + (b + ([t] + [])) == (a + b) + [t];
  }

  /** Take a linearization and a transaction in it that has no children; move that transaction to the
      end, with its fee perhaps increased, and post-linearize. The result is at least as good as the
      linearization one started from. */
  lemma PostLinearizedMovedLeaf(g: Graph, g': Graph, a: seq<nat>, t: nat, b: seq<nat>)
    requires g.Cluster() && g.Linearization(a + ([t] + b)) && g.Descendants(t) == {t} && FeesRaised(g, g')
    ensures Known(g', PostLinearized(g', (a + b) + [t]))
    ensures forall x: real :: x >= 0.0 ==>
              Diagram(g', PostLinearized(g', (a + b) + [t]), x) >= Diagram(g, a + ([t] + b), x)
  {
    var l1, l2 := a + ([t] + b), (a + b) + [t];
    RaisedLinearization(g, g', l1);
    assert l1[|a|] == t && l1[|a|] in Elements(l1);
    BackwardLeaf(g', a, t, b);
    var first := PassOf(g', l2, true);
    var res := PostLinearized(g', l2);
    PassGood(g', true, l2);
    PassGood(g', false, first);
    PeaksOverTrans(g', res, first, l1);
    SameRate(g', res, l1);
    forall r: FeeFrac | r.size > 0 ensures Peak(g', r, res) >= Peak(g, r, l1) {
      RaisedPeak(g, g', r, l1);
      assert Peak(g', r, res) >= Peak(g', r, l1);
    }
    RaisedPeak(g, g', FeeFrac(0, 1), l1);
    PeaksGiveDiagrams(g', res, g, l1);
  }
}
