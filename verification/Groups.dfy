/** The list of groups that a post-linearization pass maintains, and why merging and swapping
    them is safe. */
module GroupLists {
  import opened FeeFracs
  import opened Positions
  import opened Graphs
  import opened Diagrams
  import opened Chunking
  import opened Improvement
  import opened Components

  /** No proper part of `s` is unrelated to the rest of it. */
  ghost predicate ConnectedSet(g: Graph, s: set<nat>) {
    s != {} && forall c :: c != {} && c <= s && Separate(g, s, c) ==> c == s
  }

  /** The groups hold the transactions of `lin`, in a valid order that is at least as good, and each
      is connected with a feerate above that of its proper prefixes. */
  ghost predicate Grouping(g: Graph, groups: seq<seq<nat>>, lin: seq<nat>) {
    && Distinct(Flatten(groups)) && Elements(Flatten(groups)) == Elements(lin)
    && g.Topological(Flatten(groups))
    && PeaksOver(g, Flatten(groups), lin)
    && g.SeqRate(Flatten(groups)) == g.SeqRate(lin)
    && forall k :: 0 <= k < |groups| ==> GoodGroup(g, groups[k])
  }

  ghost predicate GoodGroup(g: Graph, c: seq<nat>) {
    Rising(g, c) && ConnectedSet(g, Elements(c))
  }

  /** Feerates do not increase along the list, except perhaps towards group `c`. */
  ghost predicate DescendingBut(g: Graph, groups: seq<seq<nat>>, c: int) {
    forall i, j :: 0 <= i < j < |groups| && j != c ==> Excess(g.SeqRate(groups[j]), g.SeqRate(groups[i])) <= 0
  }

  function MergeAt(groups: seq<seq<nat>>, c: nat): seq<seq<nat>>
    requires 0 < c < |groups|
  {
    groups[..c - 1] + ([groups[c - 1] + groups[c]] + groups[c + 1..])
  }

  function SwapAt(groups: seq<seq<nat>>, c: nat): seq<seq<nat>>
    requires 0 < c < |groups|
  {
    groups[..c - 1] + ([groups[c]] + ([groups[c - 1]] + groups[c + 1..]))
  }

  // ---------- Orders in pieces ----------

  /** No member of `y` has to come before a member of `x`. */
  ghost predicate NoBack(g: Graph, x: seq<nat>, y: seq<nat>) {
    forall a, b :: a in x && b in y ==> b !in g.Ancestors(a)
  }

  lemma TopologicalConcat(g: Graph, x: seq<nat>, y: seq<nat>)
    ensures g.Topological(x + y) <==> g.Topological(x) && g.Topological(y) && NoBack(g, x, y)
  {
    var s := x + y;
    if g.Topological(s) {
      forall i, j | 0 <= i < j < |x| ensures x[j] !in g.Ancestors(x[i]) {
        assert s[j] !in g.Ancestors(s[i]);
      }
      forall i, j | 0 <= i < j < |y| ensures y[j] !in g.Ancestors(y[i]) {
        assert s[|x| + j] !in g.Ancestors(s[|x| + i]);
      }
      forall a, b | a in x && b in y ensures b !in g.Ancestors(a) {
        var i :| 0 <= i < |x| && x[i] == a;
        var j :| 0 <= j < |y| && y[j] == b;
        assert s[|x| + j] !in g.Ancestors(s[i]);
      }
    }
    if g.Topological(x) && g.Topological(y) && NoBack(g, x, y) {
      forall i, j | 0 <= i < j < |s| ensures s[j] !in g.Ancestors(s[i]) {
        if j < |x| {
          assert x[j] !in g.Ancestors(x[i]);
        } else if i < |x| {
          assert s[i] in x && s[j] in y;
        } else {
          assert y[j - |x|] !in g.Ancestors(y[i - |x|]);
        }
      }
    }
  }

  /** Two neighbouring pieces may change places when the second does not depend on the first. */
  lemma TopologicalSwap(g: Graph, a: seq<nat>, p: seq<nat>, c: seq<nat>, b: seq<nat>)
    requires g.Topological(a + (p + (c + b))) && NoBack(g, c, p)
    ensures g.Topological(a + (c + (p + b)))
  {
    TopologicalConcat(g, a, p + (c + b));
    TopologicalConcat(g, p, c + b);
    TopologicalConcat(g, c, b);
    TopologicalConcat(g, p, b);
    TopologicalConcat(g, c, p + b);
    TopologicalConcat(g, a, c + (p + b));
    forall x, y | x in a && y in c + (p + b) ensures y !in g.Ancestors(x) {
      assert y in p + (c + b);
    }
    forall x, y | x in p && y in b ensures y !in g.Ancestors(x) {
      assert y in c + b;
    }
    forall x, y | x in c && y in p + b ensures y !in g.Ancestors(x) {
    }
  }

  lemma DistinctSwap(a: seq<nat>, p: seq<nat>, c: seq<nat>, b: seq<nat>)
    requires Distinct(a + (p + (c + b)))
    ensures Distinct(a + (c + (p + b)))
    ensures Elements(a + (c + (p + b))) == Elements(a + (p + (c + b)))
  {
    DistinctSplit(a, p + (c + b));
    DistinctSplit(p, c + b);
    DistinctSplit(c, b);
    DistinctSplit(p, b);
    DistinctSplit(c, p + b);
    DistinctSplit(a, c + (p + b));
    ElementsConcat(c, b);
    ElementsConcat(p, c + b);
    ElementsConcat(p, b);
    ElementsConcat(c, p + b);
    ElementsConcat(a, p + (c + b));
    ElementsConcat(a, c + (p + b));
  }

  /** Improving the start of an order, without changing its total, improves the order. */
  lemma PeaksOverBefore(g: Graph, a: seq<nat>, b: seq<nat>, tail: seq<nat>)
    requires PeaksOver(g, a, b) && g.SeqRate(a) == g.SeqRate(b)
    ensures PeaksOver(g, a + tail, b + tail)
  {
    forall r: FeeFrac | r.size > 0 ensures Peak(g, r, a + tail) >= Peak(g, r, b + tail) {
      PeakConcat(g, r, a, tail);
      PeakConcat(g, r, b, tail);
      assert Peak(g, r, a) >= Peak(g, r, b);
    }
  }

  /** Putting the group with the higher feerate first. */
  lemma PeaksOverPair(g: Graph, p: seq<nat>, c: seq<nat>)
    requires Known(g, p) && Known(g, c) && Rising(g, p) && Rising(g, c)
    requires Higher(g.SeqRate(c), g.SeqRate(p))
    ensures PeaksOver(g, c + p, p + c)
    ensures g.SeqRate(c + p) == g.SeqRate(p + c)
  {
    SeqRateConcat(g, p, c);
    SeqRateConcat(g, c, p);
    SeqRateSize(g, p);
    SeqRateSize(g, c);
    forall r: FeeFrac | r.size > 0 ensures Peak(g, r, c + p) >= Peak(g, r, p + c) {
      PeakConcat(g, r, p, c);
      PeakConcat(g, r, c, p);
      RisingPeak(g, r, p);
      RisingPeak(g, r, c);
      if Excess(g.SeqRate(c), r) <= 0 {
        NotHigherTrans(g.SeqRate(p), g.SeqRate(c), r);
      }
    }
  }

  lemma PeaksOverSwap(g: Graph, a: seq<nat>, p: seq<nat>, c: seq<nat>, b: seq<nat>)
    requires Known(g, p) && Known(g, c) && Rising(g, p) && Rising(g, c)
    requires Higher(g.SeqRate(c), g.SeqRate(p))
    ensures PeaksOver(g, a + (c + (p + b)), a + (p + (c + b)))
    ensures g.SeqRate(a + (c + (p + b))) == g.SeqRate(a + (p + (c + b)))
  {
    PeaksOverPair(g, p, c);
    PeaksOverBefore(g, c + p, p + c, b);
    Associate(c, p, b);
    Associate(p, c, b);
    PeaksOverAfter(g, a, c + (p + b), p + (c + b));
    SeqRateConcat(g, c + p, b);
    SeqRateConcat(g, p + c, b);
    SeqRateConcat(g, a, c + (p + b));
    SeqRateConcat(g, a, p + (c + b));
  }

  // ---------- The list in pieces ----------

  lemma FlattenCons(x: seq<nat>, rest: seq<seq<nat>>)
    ensures Flatten([x] + rest) == x + Flatten(rest)
  {
    assert ([x] + rest)[1..] == rest;
  }

  lemma PiecesOf(groups: seq<seq<nat>>, c: nat)
    requires 0 < c < |groups|
    ensures groups == groups[..c - 1] + ([groups[c - 1]] + ([groups[c]] + groups[c + 1..]))
  {
  }

  lemma FlattenAround(groups: seq<seq<nat>>, c: nat)
    requires 0 < c < |groups|
    ensures Flatten(groups) == Flatten(groups[..c - 1]) + (groups[c - 1] + (groups[c] + Flatten(groups[c + 1..])))
  {
    var a, p, x, b := groups[..c - 1], groups[c - 1], groups[c], groups[c + 1..];
    PiecesOf(groups, c);
    FlattenConcat(a, [p] + ([x] + b));
    FlattenCons(p, [x] + b);
    FlattenCons(x, b);
  }

  lemma FlattenSwapAt(groups: seq<seq<nat>>, c: nat)
    requires 0 < c < |groups|
    ensures Flatten(SwapAt(groups, c)) ==
            Flatten(groups[..c - 1]) + (groups[c] + (groups[c - 1] + Flatten(groups[c + 1..])))
  {
    var a, p, x, b := groups[..c - 1], groups[c - 1], groups[c], groups[c + 1..];
    FlattenConcat(a, [x] + ([p] + b));
    FlattenCons(x, [p] + b);
    FlattenCons(p, b);
  }

  lemma FlattenMergeAt(groups: seq<seq<nat>>, c: nat)
    requires 0 < c < |groups|
    ensures Flatten(MergeAt(groups, c)) == Flatten(groups)
  {
    var a, p, x, b := groups[..c - 1], groups[c - 1], groups[c], groups[c + 1..];
    FlattenAround(groups, c);
    FlattenConcat(a, [p + x] + b);
    FlattenCons(p + x, b);
    Associate(p, x, Flatten(b));
  }

  lemma Associate(p: seq<nat>, x: seq<nat>, b: seq<nat>)
    ensures (p + x) + b == p + (x + b)
  {
  }

  // ---------- The steps of a pass ----------

  /** A new group of one transaction at the end. */
  lemma AppendGroup(g: Graph, groups: seq<seq<nat>>, lin: seq<nat>, x: nat)
    requires g.WellFormed() && Grouping(g, groups, lin) && Distinct(lin + [x]) && g.Topological(lin + [x])
    requires Known(g, lin + [x])
    ensures Grouping(g, groups + [[x]], lin + [x])
  {
    var all := groups + [[x]];
    var order := Flatten(groups);
    FlattenConcat(groups, [[x]]);
    FlattenOne([x]);
    DistinctSplit(lin, [x]);
    DistinctSplit(order, [x]);
    ElementsConcat(lin, [x]);
    ElementsConcat(order, [x]);
    TopologicalConcat(g, lin, [x]);
    forall a, b | a in order && b in [x] ensures b !in g.Ancestors(a) {
      assert a in Elements(lin);
    }
    TopologicalConcat(g, order, [x]);
    PeaksOverBefore(g, order, lin, [x]);
    SeqRateConcat(g, order, [x]);
    SeqRateConcat(g, lin, [x]);
    SingletonGood(g, x);
  }

  lemma SingletonGood(g: Graph, x: nat)
    ensures GoodGroup(g, [x])
  {
    var s := Elements([x]);
    assert s == {x};
    forall c | c != {} && c <= s ensures c == s {
      var y :| y in c;
      assert y == x;
    }
  }

  lemma AppendDescending(g: Graph, groups: seq<seq<nat>>, x: seq<nat>)
    requires DescendingBut(g, groups, -1)
    ensures DescendingBut(g, groups + [x], |groups|)
  {
    var all := groups + [x];
    forall i, j | 0 <= i < j < |all| && j != |groups|
      ensures Excess(g.SeqRate(all[j]), g.SeqRate(all[i])) <= 0
    {
      assert all[i] == groups[i] && all[j] == groups[j];
    }
  }

  /** Two connected groups of which one depends on the other are connected together. */
  lemma ConnectedUnion(g: Graph, p: set<nat>, c: set<nat>, a: nat, b: nat)
    requires ConnectedSet(g, p) && ConnectedSet(g, c)
    requires a in p && b in c && a in g.Ancestors(b) && b in g.Descendants(a)
    ensures ConnectedSet(g, p + c)
  {
    forall d | d != {} && d <= p + c && Separate(g, p + c, d) ensures d == p + c {
      PartSeparate(g, p, c, d);
      PartSeparate(g, c, p, d);
      assert c + p == p + c;
      if a in d {
        IsRelated(g, d, a, b);
      }
      if b in d {
        IsRelated(g, d, b, a);
      }
      WholeOrNothing(g, p, d * p);
      WholeOrNothing(g, c, d * c);
      assert d == d * p + d * c;
    }
  }

  lemma PartSeparate(g: Graph, p: set<nat>, c: set<nat>, d: set<nat>)
    requires d <= p + c && Separate(g, p + c, d)
    ensures Separate(g, p, d * p)
  {
    RelatedMono(g, d * p, d);
  }

  lemma WholeOrNothing(g: Graph, s: set<nat>, d: set<nat>)
    requires ConnectedSet(g, s) && d <= s && Separate(g, s, d)
    ensures d == {} || d == s
  {
  }

  /** Merging a group into the one after it, which depends on it and has a higher feerate. */
  lemma MergeGroups(g: Graph, groups: seq<seq<nat>>, lin: seq<nat>, c: nat, a: nat, b: nat)
    requires g.WellFormed() && Known(g, lin) && Grouping(g, groups, lin) && 0 < c < |groups|
    requires Higher(g.SeqRate(groups[c]), g.SeqRate(groups[c - 1]))
    requires a in groups[c - 1] && b in groups[c] && a in g.Ancestors(b)
    ensures Grouping(g, MergeAt(groups, c), lin)
  {
    var p, x := groups[c - 1], groups[c];
    FlattenMergeAt(groups, c);
    KnownSegment(g, groups, c - 1);
    KnownSegment(g, groups, c);
    RisingJoin(g, p, x);
    assert b in Elements(x) && a in Elements(p);
    ConnectedUnion(g, Elements(p), Elements(x), a, b);
    ElementsConcat(p, x);
    var m := MergeAt(groups, c);
    forall k | 0 <= k < |m| ensures GoodGroup(g, m[k]) {
      MergedAt(groups, c, k);
    }
  }

  lemma MergedAt(groups: seq<seq<nat>>, c: nat, k: nat)
    requires 0 < c < |groups| && k < |groups| - 1
    ensures MergeAt(groups, c)[k] ==
            if k < c - 1 then groups[k] else if k == c - 1 then groups[c - 1] + groups[c] else groups[k + 1]
  {
  }

  lemma SwappedAt(groups: seq<seq<nat>>, c: nat, k: nat)
    requires 0 < c < |groups| && k < |groups|
    ensures SwapAt(groups, c)[k] == groups[if k == c - 1 then c else if k == c then c - 1 else k]
  {
  }

  /** Swapping a group with the one after it, which does not depend on it and has a higher feerate. */
  lemma SwapGroups(g: Graph, groups: seq<seq<nat>>, lin: seq<nat>, c: nat)
    requires g.WellFormed() && Known(g, lin) && Grouping(g, groups, lin) && 0 < c < |groups|
    requires Higher(g.SeqRate(groups[c]), g.SeqRate(groups[c - 1]))
    requires NoBack(g, groups[c], groups[c - 1])
    ensures Grouping(g, SwapAt(groups, c), lin)
  {
    var a, p, x, b := Flatten(groups[..c - 1]), groups[c - 1], groups[c], Flatten(groups[c + 1..]);
    FlattenAround(groups, c);
    FlattenSwapAt(groups, c);
    KnownSegment(g, groups, c - 1);
    KnownSegment(g, groups, c);
    TopologicalSwap(g, a, p, x, b);
    DistinctSwap(a, p, x, b);
    PeaksOverSwap(g, a, p, x, b);
    PeaksOverTrans(g, a + (x + (p + b)), a + (p + (x + b)), lin);
    var s := SwapAt(groups, c);
    forall k | 0 <= k < |s| ensures GoodGroup(g, s[k]) {
      SwappedAt(groups, c, k);
    }
  }

  lemma GroupSizes(g: Graph, groups: seq<seq<nat>>, lin: seq<nat>)
    requires Known(g, lin) && Grouping(g, groups, lin)
    ensures forall k :: 0 <= k < |groups| ==> g.SeqRate(groups[k]).size > 0
  {
    forall k | 0 <= k < |groups| ensures g.SeqRate(groups[k]).size > 0 {
      KnownSegment(g, groups, k);
      assert GoodGroup(g, groups[k]);
      SeqRateSize(g, groups[k]);
    }
  }

  lemma MergeDescending(g: Graph, groups: seq<seq<nat>>, lin: seq<nat>, c: nat)
    requires Known(g, lin) && Grouping(g, groups, lin) && 0 < c < |groups|
    requires DescendingBut(g, groups, c) && Higher(g.SeqRate(groups[c]), g.SeqRate(groups[c - 1]))
    ensures DescendingBut(g, MergeAt(groups, c), c - 1)
  {
    var m := MergeAt(groups, c);
    var p, x := groups[c - 1], groups[c];
    GroupSizes(g, groups, lin);
    SeqRateConcat(g, p, x);
    JoinedWhole(g.SeqRate(p), g.SeqRate(x));
    forall i, j | 0 <= i < j < |m| && j != c - 1 ensures Excess(g.SeqRate(m[j]), g.SeqRate(m[i])) <= 0 {
      MergedAt(groups, c, i);
      MergedAt(groups, c, j);
      if i == c - 1 {
        NotHigherTrans(g.SeqRate(groups[j + 1]), g.SeqRate(p), g.SeqRate(p + x));
      }
    }
  }

  lemma SwapDescending(g: Graph, groups: seq<seq<nat>>, c: nat)
    requires 0 < c < |groups|
    requires DescendingBut(g, groups, c) && Higher(g.SeqRate(groups[c]), g.SeqRate(groups[c - 1]))
    ensures DescendingBut(g, SwapAt(groups, c), c - 1)
  {
    var s := SwapAt(groups, c);
    forall i, j | 0 <= i < j < |s| && j != c - 1 ensures Excess(g.SeqRate(s[j]), g.SeqRate(s[i])) <= 0 {
      SwappedAt(groups, c, i);
      SwappedAt(groups, c, j);
    }
  }

  /** Once the moving group is no better than the one before it, the list is in order. */
  lemma Settled(g: Graph, groups: seq<seq<nat>>, lin: seq<nat>, c: nat)
    requires Known(g, lin) && Grouping(g, groups, lin) && c < |groups| && DescendingBut(g, groups, c)
    requires c == 0 || !Higher(g.SeqRate(groups[c]), g.SeqRate(groups[c - 1]))
    ensures DescendingBut(g, groups, -1)
  {
    GroupSizes(g, groups, lin);
    forall i | 0 <= i < c ensures Excess(g.SeqRate(groups[c]), g.SeqRate(groups[i])) <= 0 {
      if i < c - 1 {
        NotHigherTrans(g.SeqRate(groups[c]), g.SeqRate(groups[c - 1]), g.SeqRate(groups[i]));
      }
    }
  }

  /** At the end of a pass the groups are the chunks of the new order, so its chunks are
      connected. */
  lemma GroupsAreChunks(g: Graph, groups: seq<seq<nat>>, lin: seq<nat>)
    requires Known(g, lin) && Grouping(g, groups, lin) && DescendingBut(g, groups, -1)
    ensures Chunks(g, Flatten(groups)) == groups
  {
    var rates := Rates(g, groups);
    forall i, j | 0 <= i < j < |rates| ensures Excess(rates[j], rates[i]) <= 0 {
    }
    forall k | 0 <= k < |groups| ensures Rising(g, groups[k]) {
      assert GoodGroup(g, groups[k]);
    }
    ChunksIsChunking(g, Flatten(groups));
    ChunkingUnique(g, Chunks(g, Flatten(groups)), groups);
  }
}
