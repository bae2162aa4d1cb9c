/** Post-linearization of tree-shaped clusters is optimal. */
module TreeOptimality {
  import opened FeeFracs
  import opened Sets
  import opened Positions
  import opened Graphs
  import opened DepGraphs
  import opened ReducedParents
  import opened Diagrams
  import opened Chunking
  import opened Improvement
  import opened Topology
  import opened Mirrors
  import opened GroupLists
  import opened GroupEntries
  import opened GroupPasses

  // ---------- Trees ----------

  /** No transaction is a direct parent of two others. */
  ghost predicate OneChildEach(g: Graph) {
    forall p, a, b :: a in g.used && b in g.used && p in DirectParents(g, a) && p in DirectParents(g, b) ==> a == b
  }

  ghost predicate OneParentEach(g: Graph) {
    forall c, a, b :: c in g.used && a in DirectParents(g, c) && b in DirectParents(g, c) ==> a == b
  }

  /** Of two descendants of one transaction, one depends on the other. */
  ghost predicate ChildChains(g: Graph) {
    forall p, a, b :: p in g.used && a in g.Descendants(p) && b in g.Descendants(p) ==>
                        a in g.Ancestors(b) || b in g.Ancestors(a)
  }

  lemma MirrorDirectParents(g: Graph, a: nat, p: nat)
    requires g.WellFormed() && a in g.used && p in g.used
    ensures p in DirectParents(Mirror(g), a) <==> a in DirectParents(g, p)
  {
    var m := Mirror(g);
    MirrorFields(g, a);
    MirrorFields(g, p);
    forall q ensures m.Ancestors(q) == g.Descendants(q) {
      MirrorFields(g, q);
    }
    if p in DirectParents(m, a) {
      assert IsDirectParent(m, a, p);
      forall q | q in g.Ancestors(p) && q != p && q != a ensures a !in g.Ancestors(q) {
        assert q in m.Ancestors(a) ==> p !in m.Ancestors(q);
      }
      assert IsDirectParent(g, p, a);
    }
    if a in DirectParents(g, p) {
      assert IsDirectParent(g, p, a);
      forall q | q in m.Ancestors(a) && q != a && q != p ensures p !in m.Ancestors(q) {
        assert q in g.Ancestors(p) ==> a !in g.Ancestors(q);
      }
      assert IsDirectParent(m, a, p);
    }
  }

  /** Seen backwards, parents are children. */
  lemma MirrorTree(g: Graph)
    requires g.Cluster() && OneParentEach(g)
    ensures OneChildEach(Mirror(g))
  {
    var m := Mirror(g);
    MirrorCluster(g);
    forall p, a, b | a in m.used && b in m.used && p in DirectParents(m, a) && p in DirectParents(m, b)
      ensures a == b
    {
      assert p in m.Ancestors(a);
      MirrorDirectParents(g, a, p);
      MirrorDirectParents(g, b, p);
    }
  }

  /** Between a transaction and one of its proper descendants lies a direct child. */
  lemma DirectChildBelow(g: Graph, p: nat, d: nat) returns (c: nat)
    requires g.Cluster() && p in g.used && d in g.Descendants(p) && d != p
    ensures c in g.used && p in DirectParents(g, c) && d in g.Descendants(c) && c != p
  {
    var m := Mirror(g);
    MirrorCluster(g);
    MirrorFields(g, p);
    c := DirectParentAbove(m, p, d);
    assert c in m.Ancestors(p);
    MirrorFields(g, c);
    MirrorDirectParents(g, p, c);
  }

  lemma {:induction false} ChainsFrom(g: Graph, p: nat, a: nat, b: nat)
    requires g.Cluster() && OneChildEach(g) && p in g.used && a in g.Descendants(p) && b in g.Descendants(p)
    ensures a in g.Ancestors(b) || b in g.Ancestors(a)
    decreases |g.Descendants(p)|
  {
    if a != p && b != p {
      var c := DirectChildBelow(g, p, a);
      var d := DirectChildBelow(g, p, b);
      assert c == d;
      assert p in g.Ancestors(c);
      InheritDescendants(g, c, p);
      assert p !in g.Descendants(c);
      SubsetSize(g.Descendants(c), g.Descendants(p));
      ChainsFrom(g, c, a, b);
    }
  }

  lemma TreeChains(g: Graph)
    requires g.Cluster() && OneChildEach(g)
    ensures ChildChains(g)
  {
    forall p, a, b | p in g.used && a in g.Descendants(p) && b in g.Descendants(p)
      ensures a in g.Ancestors(b) || b in g.Ancestors(a)
    {
      ChainsFrom(g, p, a, b);
    }
  }

  // ---------- Groups that no part of which is better ----------

  /** No closed part of `c` has a higher feerate than `r`. */
  ghost predicate PartsBelow(g: Graph, c: set<nat>, parts: set<nat>, r: FeeFrac) {
    forall t :: t <= parts && g.ClosedIn(t, c) ==> Excess(g.SetRate(t), r) <= 0
  }

  /** No closed part of the group is better than the group, and one of its transactions depends on
      all others. */
  ghost predicate Solid(g: Graph, c: set<nat>) {
    PartsBelow(g, c, c, g.SetRate(c)) && exists s :: s in c && c <= g.Ancestors(s)
  }

  ghost predicate AllSolidBut(g: Graph, groups: seq<seq<nat>>, c: int) {
    forall k :: 0 <= k < |groups| && k != c ==> Solid(g, Elements(groups[k]))
  }

  /** The moving group: its latest transaction depends on all others, and no closed part without it
      is better than the group or than the group before it. */
  ghost predicate Climbing(g: Graph, groups: seq<seq<nat>>, c: nat, idx: nat)
    requires c < |groups|
  {
    var m := Elements(groups[c]);
    && idx in m && m <= g.Ancestors(idx)
    && PartsBelow(g, m, m - {idx}, g.SetRate(m))
    && (c > 0 ==> PartsBelow(g, m, m - {idx}, g.SetRate(Elements(groups[c - 1]))))
  }

  lemma ExcessSelf(r: FeeFrac)
    ensures Excess(r, r) == 0 && Excess(FeeFrac(0, 0), r) == 0
  {
  }

  lemma StopSolid(g: Graph, m: set<nat>, idx: nat)
    requires idx in m && m <= g.Ancestors(idx) && PartsBelow(g, m, m - {idx}, g.SetRate(m))
    ensures Solid(g, m)
  {
    forall t | t <= m && g.ClosedIn(t, m) ensures Excess(g.SetRate(t), g.SetRate(m)) <= 0 {
      if idx in t {
        assert g.Ancestors(idx) * m <= t;
        assert t == m;
        ExcessSelf(g.SetRate(m));
      } else {
        assert t <= m - {idx};
      }
    }
  }

  /** Parts below one feerate are below every higher one. */
  lemma PartsBelowHigher(g: Graph, c: set<nat>, parts: set<nat>, r: FeeFrac, r': FeeFrac)
    requires g.WellFormed() && g.Sized() && parts <= g.used && PartsBelow(g, c, parts, r)
    requires r.size > 0 && r'.size > 0 && Excess(r, r') <= 0
    ensures PartsBelow(g, c, parts, r')
  {
    forall t | t <= parts && g.ClosedIn(t, c) ensures Excess(g.SetRate(t), r') <= 0 {
      SetRateSize(g, t);
      NotHigherTrans(g.SetRate(t), r, r');
    }
  }

  /** Parts of two groups together, the second of which contains `idx`. */
  lemma PartsOfUnion(g: Graph, p: set<nat>, m: set<nat>, idx: nat, r: FeeFrac)
    requires p !! m && idx in m && PartsBelow(g, p, p, r) && PartsBelow(g, m, m - {idx}, r)
    ensures PartsBelow(g, p + m, (p + m) - {idx}, r)
  {
    forall t | t <= (p + m) - {idx} && g.ClosedIn(t, p + m) ensures Excess(g.SetRate(t), r) <= 0 {
      var tp, tm := t * p, t * m;
      forall i | i in tp ensures g.Ancestors(i) * p <= tp {
        assert g.Ancestors(i) * (p + m) <= t;
      }
      forall i | i in tm ensures g.Ancestors(i) * m <= tm {
        assert g.Ancestors(i) * (p + m) <= t;
      }
      assert g.ClosedIn(tp, p) && g.ClosedIn(tm, m);
      assert t == tp + tm;
      SetRateUnion(g, tp, tm);
      ExcessPlus(g.SetRate(tp), g.SetRate(tm), r);
    }
  }

  /** In a tree, a group on which the moving one depends lies wholly above its latest transaction. */
  lemma DependsOnAll(g: Graph, p: set<nat>, m: set<nat>, idx: nat, a: nat, b: nat)
    requires g.WellFormed() && ChildChains(g) && p <= g.used && m <= g.used && p !! m && Solid(g, p)
    requires idx in m && m <= g.Ancestors(idx) && a in p && b in m && a in g.Ancestors(b)
    requires forall x :: x in p ==> idx !in g.Ancestors(x)
    ensures p + m <= g.Ancestors(idx)
  {
    var s :| s in p && p <= g.Ancestors(s);
    Inherit(g, idx, b);
    assert s in g.Descendants(a) && idx in g.Descendants(a);
    assert s in g.Ancestors(idx);
    Inherit(g, idx, s);
  }

  // ---------- Passes over trees ----------

  /** The groups are disjoint sets of the transactions taken up. */
  lemma GroupSets(g: Graph, groups: seq<seq<nat>>, lin: seq<nat>)
    requires Known(g, lin) && Grouping(g, groups, lin)
    ensures Apart(groups)
    ensures forall k :: 0 <= k < |groups| ==>
              Elements(groups[k]) <= Elements(lin) && g.SeqRate(groups[k]) == g.SetRate(Elements(groups[k])) &&
              g.SetRate(Elements(groups[k])).size > 0
  {
    DistinctApart(groups);
    GroupSizes(g, groups, lin);
    forall k | 0 <= k < |groups|
      ensures Elements(groups[k]) <= Elements(lin) && g.SeqRate(groups[k]) == g.SetRate(Elements(groups[k]))
    {
      OneDistinct(groups, k);
      SeqRateElements(g, groups[k]);
      forall a | a in Elements(groups[k]) ensures a in Elements(lin) {
        assert a in Elements(Flatten(groups));
      }
    }
  }

  lemma ApartSets(groups: seq<seq<nat>>, j: nat, k: nat)
    requires Apart(groups) && j < |groups| && k < |groups| && j != k
    ensures Elements(groups[j]) !! Elements(groups[k])
  {
    forall a | a in Elements(groups[j]) ensures a !in Elements(groups[k]) {
      assert a in groups[j];
    }
  }

  /** `idx` was taken up last: nothing else depends on it. */
  ghost predicate Latest(g: Graph, lin: seq<nat>, idx: nat) {
    forall a :: a in Elements(lin) && a != idx ==> idx !in g.Ancestors(a)
  }

  lemma SwapSolid(g: Graph, groups: seq<seq<nat>>, c: nat)
    requires 0 < c < |groups| && AllSolidBut(g, groups, c)
    ensures AllSolidBut(g, SwapAt(groups, c), c - 1)
  {
    var s := SwapAt(groups, c);
    forall k | 0 <= k < |s| && k != c - 1 ensures Solid(g, Elements(s[k])) {
      SwappedAt(groups, c, k);
    }
  }

  lemma SwapClimbing(g: Graph, groups: seq<seq<nat>>, lin: seq<nat>, c: nat, idx: nat)
    requires g.Cluster() && Known(g, lin) && Grouping(g, groups, lin) && DescendingBut(g, groups, c)
    requires 0 < c < |groups| && Climbing(g, groups, c, idx)
    ensures Climbing(g, SwapAt(groups, c), c - 1, idx)
  {
    GroupSets(g, groups, lin);
    SwappedAt(groups, c, c - 1);
    if c > 1 {
      SwappedAt(groups, c, c - 2);
      var m := Elements(groups[c]);
      PartsBelowHigher(g, m, m - {idx}, g.SetRate(Elements(groups[c - 1])), g.SetRate(Elements(groups[c - 2])));
    }
  }

  lemma MergeClimbing(g: Graph, groups: seq<seq<nat>>, lin: seq<nat>, c: nat, idx: nat)
    requires g.Cluster() && Known(g, lin) && Grouping(g, groups, lin) && DescendingBut(g, groups, c)
    requires 0 < c < |groups| && Climbing(g, groups, c, idx) && AllSolidBut(g, groups, c)
    requires ChildChains(g) && Latest(g, lin, idx)
    requires Higher(g.SeqRate(groups[c]), g.SeqRate(groups[c - 1])) && !NoBack(g, groups[c], groups[c - 1])
    ensures Climbing(g, MergeAt(groups, c), c - 1, idx) && AllSolidBut(g, MergeAt(groups, c), c - 1)
  {
    var m' := MergeAt(groups, c);
    var p, m := Elements(groups[c - 1]), Elements(groups[c]);
    GroupSets(g, groups, lin);
    ApartSets(groups, c - 1, c);
    forall k | 0 <= k < |m'| && k != c - 1 ensures Solid(g, Elements(m'[k])) {
      MergedAt(groups, c, k);
    }
    MergedAt(groups, c, c - 1);
    ElementsConcat(groups[c - 1], groups[c]);
    var a, b := BackWitness(g, groups[c], groups[c - 1]);
    DependsOnAll(g, p, m, idx, a, b);
    MergedParts(g, p, m, idx);
    if c > 1 {
      MergedAt(groups, c, c - 2);
      PartsBelowHigher(g, p + m, (p + m) - {idx}, g.SetRate(p), g.SetRate(Elements(groups[c - 2])));
    }
  }

  lemma MergedParts(g: Graph, p: set<nat>, m: set<nat>, idx: nat)
    requires g.WellFormed() && g.Sized() && p <= g.used && m <= g.used && p !! m && idx in m
    requires Solid(g, p) && PartsBelow(g, m, m - {idx}, g.SetRate(p))
    requires g.SetRate(p).size > 0 && g.SetRate(m).size > 0 && Higher(g.SetRate(m), g.SetRate(p))
    ensures PartsBelow(g, p + m, (p + m) - {idx}, g.SetRate(p))
    ensures PartsBelow(g, p + m, (p + m) - {idx}, g.SetRate(p + m))
  {
    PartsOfUnion(g, p, m, idx, g.SetRate(p));
    SetRateUnion(g, p, m);
    JoinedWhole(g.SetRate(p), g.SetRate(m));
    PartsBelowHigher(g, p + m, (p + m) - {idx}, g.SetRate(p), g.SetRate(p + m));
  }

  /** The list while its group `c`, with the latest transaction, moves forward. */
  ghost predicate TreeMoving(g: Graph, groups: seq<seq<nat>>, lin: seq<nat>, c: nat, idx: nat) {
    && Grouping(g, groups, lin) && c < |groups| && DescendingBut(g, groups, c)
    && Climbing(g, groups, c, idx) && AllSolidBut(g, groups, c)
  }

  lemma TreeSwap(g: Graph, groups: seq<seq<nat>>, lin: seq<nat>, c: nat, idx: nat)
    requires g.Cluster() && Known(g, lin) && TreeMoving(g, groups, lin, c, idx) && c > 0
    requires Higher(g.SeqRate(groups[c]), g.SeqRate(groups[c - 1])) && NoBack(g, groups[c], groups[c - 1])
    ensures TreeMoving(g, SwapAt(groups, c), lin, c - 1, idx)
  {
    SwapSolid(g, groups, c);
    SwapClimbing(g, groups, lin, c, idx);
    SwapGroups(g, groups, lin, c);
    SwapDescending(g, groups, c);
  }

  lemma TreeMerge(g: Graph, groups: seq<seq<nat>>, lin: seq<nat>, c: nat, idx: nat)
    requires g.Cluster() && Known(g, lin) && TreeMoving(g, groups, lin, c, idx) && c > 0
    requires ChildChains(g) && Latest(g, lin, idx)
    requires Higher(g.SeqRate(groups[c]), g.SeqRate(groups[c - 1])) && !NoBack(g, groups[c], groups[c - 1])
    ensures TreeMoving(g, MergeAt(groups, c), lin, c - 1, idx)
  {
    MergeClimbing(g, groups, lin, c, idx);
    var a, b := BackWitness(g, groups[c], groups[c - 1]);
    MergeGroups(g, groups, lin, c, a, b);
    MergeDescending(g, groups, lin, c);
  }

  lemma {:induction false} MovedSolid(g: Graph, groups: seq<seq<nat>>, lin: seq<nat>, c: nat, idx: nat)
    requires g.Cluster() && Known(g, lin) && TreeMoving(g, groups, lin, c, idx)
    requires ChildChains(g) && Latest(g, lin, idx)
    ensures AllSolidBut(g, Moved(g, groups, c), -1)
    decreases c
  {
    if c == 0 || !Higher(g.SeqRate(groups[c]), g.SeqRate(groups[c - 1])) {
      StopSolid(g, Elements(groups[c]), idx);
    } else if NoBack(g, groups[c], groups[c - 1]) {
      TreeSwap(g, groups, lin, c, idx);
      MovedSolid(g, SwapAt(groups, c), lin, c - 1, idx);
    } else {
      TreeMerge(g, groups, lin, c, idx);
      MovedSolid(g, MergeAt(groups, c), lin, c - 1, idx);
    }
  }

  lemma NewClimbing(g: Graph, groups: seq<seq<nat>>, x: nat)
    requires g.WellFormed() && x in g.used && AllSolidBut(g, groups, -1)
    ensures Climbing(g, groups + [[x]], |groups|, x) && AllSolidBut(g, groups + [[x]], |groups|)
  {
    var all := groups + [[x]];
    assert Elements(all[|groups|]) == {x};
    forall t, r | t <= {x} - {x} ensures Excess(g.SetRate(t), r) <= 0 {
      assert t == {};
      SetRateEmpty(g);
      ExcessSelf(r);
    }
  }

  /** In a tree every group a pass leaves is solid. */
  lemma {:induction false} GroupsOfSolid(g: Graph, order: seq<nat>)
    requires g.Cluster() && ChildChains(g) && Known(g, order) && Distinct(order) && g.Topological(order)
    ensures AllSolidBut(g, GroupsOf(g, order), -1)
    decreases |order|
  {
    if order != [] {
      var n := |order| - 1;
      var front, x := order[..n], order[n];
      PrefixFacts(g, order, n);
      assert order[..n + 1] == order;
      GroupsOfSolid(g, front);
      GroupsOfGood(g, front);
      var before := GroupsOf(g, front);
      AppendGroup(g, before, front, x);
      AppendDescending(g, before, [x]);
      assert x in Elements(order);
      NewClimbing(g, before, x);
      assert Latest(g, order, x);
      MovedSolid(g, before + [[x]], order, |before|, x);
    }
  }

  // ---------- Solid groups are optimal ----------

  /** A closed set takes from every group no more than the group has to give. */
  lemma PartExcess(g: Graph, c: set<nat>, s: set<nat>, todo: set<nat>, r: FeeFrac)
    requires g.WellFormed() && g.Sized() && c <= g.used && Solid(g, c) && g.SetRate(c).size > 0 && r.size > 0
    requires c <= todo && g.ClosedIn(s, todo)
    ensures Excess(g.SetRate(s * c), r) <= Max(0, Excess(g.SetRate(c), r))
  {
    var t := s * c;
    forall i | i in t ensures g.Ancestors(i) * c <= t {
      assert g.Ancestors(i) * todo <= s;
    }
    assert g.ClosedIn(t, c);
    SetRateMono(g, t, c);
    if Excess(g.SetRate(c), r) >= 0 {
      ExcessOfPart(g.SetRate(t), g.SetRate(c), r);
    } else {
      NotHigherTrans(g.SetRate(t), g.SetRate(c), r);
    }
  }

  /** Disjoint solid groups among `todo`, of non-increasing feerate. */
  ghost predicate SolidList(g: Graph, groups: seq<seq<nat>>, todo: set<nat>) {
    && AllSolidBut(g, groups, -1) && Distinct(Flatten(groups)) && Elements(Flatten(groups)) <= todo
    && (forall k :: 0 <= k < |groups| ==>
          g.SeqRate(groups[k]) == g.SetRate(Elements(groups[k])) && g.SeqRate(groups[k]).size > 0)
    && Concave(Rates(g, groups))
  }

  lemma SolidRest(g: Graph, groups: seq<seq<nat>>, todo: set<nat>)
    requires |groups| > 0 && SolidList(g, groups, todo)
    ensures SolidList(g, groups[1..], todo) && Rates(g, groups[1..]) == Rates(g, groups)[1..]
    ensures Elements(Flatten(groups)) == Elements(groups[0]) + Elements(Flatten(groups[1..]))
    ensures Elements(groups[0]) !! Elements(Flatten(groups[1..]))
  {
    var rest := groups[1..];
    DistinctSplit(groups[0], Flatten(rest));
    ElementsConcat(groups[0], Flatten(rest));
    SolidTail(g, groups);
    RatesRest(g, groups);
    ConcaveRest(Rates(g, groups));
    forall k | 0 <= k < |rest|
      ensures g.SeqRate(rest[k]) == g.SetRate(Elements(rest[k])) && g.SeqRate(rest[k]).size > 0
    {
      assert rest[k] == groups[k + 1];
    }
  }

  lemma RatesRest(g: Graph, groups: seq<seq<nat>>)
    requires |groups| > 0
    ensures Rates(g, groups[1..]) == Rates(g, groups)[1..]
  {
    var a, b := Rates(g, groups[1..]), Rates(g, groups)[1..];
    assert |a| == |b|;
    forall k | 0 <= k < |a| ensures a[k] == b[k] {
      assert groups[1..][k] == groups[k + 1];
    }
  }

  lemma ConcaveRest(rates: seq<FeeFrac>)
    requires |rates| > 0 && Concave(rates)
    ensures Concave(rates[1..])
  {
    var rest := rates[1..];
    forall i, j | 0 <= i < j < |rest| ensures Excess(rest[j], rest[i]) <= 0 {
      assert Excess(rates[j + 1], rates[i + 1]) <= 0;
    }
  }

  lemma SolidTail(g: Graph, groups: seq<seq<nat>>)
    requires |groups| > 0 && AllSolidBut(g, groups, -1)
    ensures AllSolidBut(g, groups[1..], -1)
  {
    forall k | 0 <= k < |groups| - 1 ensures Solid(g, Elements(groups[1..][k])) {
      assert Solid(g, Elements(groups[k + 1]));
    }
  }

  lemma {:induction false} SolidBound(g: Graph, groups: seq<seq<nat>>, s: set<nat>, todo: set<nat>, r: FeeFrac)
    requires g.WellFormed() && g.Sized() && todo <= g.used && g.ClosedIn(s, todo) && r.size > 0
    requires SolidList(g, groups, todo)
    ensures Excess(g.SetRate(s * Elements(Flatten(groups))), r) <= PeakOf(r, Rates(g, groups))
  {
    if groups == [] {
      assert s * Elements(Flatten(groups)) == {};
      SetRateEmpty(g);
      ExcessSelf(r);
    } else {
      var c, rest := Elements(groups[0]), groups[1..];
      SolidRest(g, groups, todo);
      SolidBound(g, rest, s, todo, r);
      PartExcess(g, c, s, todo, r);
      ExcessOfParts(g, c, Elements(Flatten(rest)), s, r);
      if Excess(g.SetRate(c), r) < 0 {
        LaterBelow(g, groups, r);
        PeakOfLow(r, Rates(g, rest));
      }
    }
  }

  lemma ExcessOfParts(g: Graph, c: set<nat>, others: set<nat>, s: set<nat>, r: FeeFrac)
    requires c !! others
    ensures Excess(g.SetRate(s * (c + others)), r) == Excess(g.SetRate(s * c), r) + Excess(g.SetRate(s * others), r)
  {
    assert s * (c + others) == s * c + s * others;
    SetRateUnion(g, s * c, s * others);
    ExcessPlus(g.SetRate(s * c), g.SetRate(s * others), r);
  }

  lemma LaterBelow(g: Graph, groups: seq<seq<nat>>, r: FeeFrac)
    requires |groups| > 0 && Concave(Rates(g, groups)) && r.size > 0
    requires forall k :: 0 <= k < |groups| ==> g.SeqRate(groups[k]).size > 0
    requires Excess(g.SeqRate(groups[0]), r) < 0
    ensures forall i :: 0 <= i < |groups| - 1 ==> Excess(Rates(g, groups[1..])[i], r) <= 0
  {
    var rates := Rates(g, groups);
    forall i | 0 <= i < |groups| - 1 ensures Excess(Rates(g, groups[1..])[i], r) <= 0 {
      assert Excess(rates[i + 1], rates[0]) <= 0;
      NotHigherTrans(rates[i + 1], rates[0], r);
    }
  }

  /** A pass over a graph whose transactions have at most one child each is as good as any order. */
  lemma TreePass(g: Graph, order: seq<nat>, other: seq<nat>)
    requires g.Cluster() && OneChildEach(g) && g.Linearization(order) && g.Linearization(other)
    ensures PeaksOver(g, Flatten(GroupsOf(g, order)), other)
  {
    var groups := GroupsOf(g, order);
    TreeChains(g);
    GroupsOfSolid(g, order);
    GroupsOfGood(g, order);
    GroupSets(g, groups, order);
    GroupsAreChunks(g, groups, order);
    ChunksIsChunking(g, Flatten(groups));
    forall r: FeeFrac | r.size > 0 ensures Peak(g, r, Flatten(groups)) >= Peak(g, r, other) {
      PeakOfChunking(g, r, groups);
      var k := PeakReached(g, r, other);
      BestPrefix(g, groups, other, k, r);
    }
  }

  lemma BestPrefix(g: Graph, groups: seq<seq<nat>>, other: seq<nat>, k: nat, r: FeeFrac)
    requires g.Cluster() && g.Linearization(other) && k <= |other| && r.size > 0
    requires SolidList(g, groups, g.used) && Elements(Flatten(groups)) == g.used
    ensures Excess(g.SeqRate(other[..k]), r) <= PeakOf(r, Rates(g, groups))
  {
    var s := Elements(other[..k]);
    PrefixClosed(g, other, other[..k]);
    assert other == other[..k] + other[k..];
    DistinctSplit(other[..k], other[k..]);
    ElementsConcat(other[..k], other[k..]);
    SeqRateElements(g, other[..k]);
    SolidBound(g, groups, s, g.used, r);
    assert s * g.used == s;
  }

  /** If every transaction has at most one child, or every transaction at most one parent, the
      result of post-linearization is optimal. */
  lemma PostLinearizedTree(g: Graph, lin: seq<nat>, other: seq<nat>)
    requires g.Cluster() && (OneChildEach(g) || OneParentEach(g))
    requires g.Linearization(lin) && g.Linearization(other)
    ensures Known(g, PostLinearized(g, lin)) && NowhereBelow(g, PostLinearized(g, lin), other)
  {
    var first := PassOf(g, lin, true);
    var res := PassOf(g, first, false);
    PassGood(g, true, lin);
    PassGood(g, false, first);
    if OneChildEach(g) {
      TreePass(g, first, other);
    } else {
      BackwardTree(g, lin, other);
      PeaksOverTrans(g, res, first, other);
    }
    SameRate(g, res, other);
    PeaksGiveDiagram(g, res, other);
  }

  lemma BackwardTree(g: Graph, lin: seq<nat>, other: seq<nat>)
    requires g.Cluster() && OneParentEach(g) && g.Linearization(lin) && g.Linearization(other)
    ensures PeaksOver(g, PassOf(g, lin, true), other)
  {
    var m, flat := Mirror(g), Flatten(GroupsOf(Mirror(g), Reverse(lin)));
    MirrorTree(g);
    ViewFacts(g, true, lin);
    ViewFacts(g, true, other);
    TreePass(m, Reverse(lin), Reverse(other));
    PassGood(g, true, lin);
    ReverseTwice(flat);
    SameRate(g, Reverse(flat), other);
    MirrorPeaksOver(g, Reverse(flat), other);
  }
}
