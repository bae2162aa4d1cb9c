/** What post-linearization does to a list of groups, one pass after the other, without saying how
    the groups are stored. */
module GroupPasses {
  import opened FeeFracs
  import opened Positions
  import opened Graphs
  import opened Chunking
  import opened Improvement
  import opened Mirrors
  import opened GroupLists

  /** Let group `c` move forward as long as the group before it has a lower feerate: past it when
      `c` does not depend on it, together with it when it does. */
  ghost function Moved(g: Graph, groups: seq<seq<nat>>, c: nat): seq<seq<nat>>
    requires c < |groups|
    decreases c
  {
    if c == 0 || !Higher(g.SeqRate(groups[c]), g.SeqRate(groups[c - 1])) then groups
    else if NoBack(g, groups[c], groups[c - 1]) then Moved(g, SwapAt(groups, c), c - 1)
    else Moved(g, MergeAt(groups, c), c - 1)
  }

  /** Take up the transactions in order, each as a new group at the back that then moves. */
  ghost function GroupsOf(g: Graph, order: seq<nat>): seq<seq<nat>> {
    if order == [] then []
    else
      var before := GroupsOf(g, order[..|order| - 1]);
      Moved(g, before + [[order[|order| - 1]]], |before|)
  }

  /** The graph and the order as a pass sees them: reversed in even passes. */
  ghost function View(g: Graph, rev: bool): Graph {
    if rev then Mirror(g) else g
  }

  ghost function Order(lin: seq<nat>, rev: bool): seq<nat> {
    if rev then Reverse(lin) else lin
  }

  ghost function PassOf(g: Graph, lin: seq<nat>, rev: bool): seq<nat> {
    Order(Flatten(GroupsOf(View(g, rev), Order(lin, rev))), rev)
  }

  /** A pass from back to front, then one from front to back. */
  ghost function PostLinearized(g: Graph, lin: seq<nat>): seq<nat> {
    PassOf(g, PassOf(g, lin, true), false)
  }

  // ---------- What moving a group keeps ----------

  lemma BackWitness(g: Graph, x: seq<nat>, p: seq<nat>) returns (a: nat, b: nat)
    requires !NoBack(g, x, p)
    ensures a in p && b in x && a in g.Ancestors(b)
  {
    b, a :| b in x && a in p && a in g.Ancestors(b);
  }

  lemma {:induction false} MovedGood(g: Graph, groups: seq<seq<nat>>, lin: seq<nat>, c: nat)
    requires g.WellFormed() && Known(g, lin) && Grouping(g, groups, lin)
    requires c < |groups| && DescendingBut(g, groups, c)
    ensures Grouping(g, Moved(g, groups, c), lin) && DescendingBut(g, Moved(g, groups, c), -1)
    decreases c
  {
    if c == 0 || !Higher(g.SeqRate(groups[c]), g.SeqRate(groups[c - 1])) {
      Settled(g, groups, lin, c);
    } else if NoBack(g, groups[c], groups[c - 1]) {
      SwapGroups(g, groups, lin, c);
      SwapDescending(g, groups, c);
      MovedGood(g, SwapAt(groups, c), lin, c - 1);
    } else {
      var a, b := BackWitness(g, groups[c], groups[c - 1]);
      MergeGroups(g, groups, lin, c, a, b);
      MergeDescending(g, groups, lin, c);
      MovedGood(g, MergeAt(groups, c), lin, c - 1);
    }
  }

  lemma PrefixFacts(g: Graph, lin: seq<nat>, i: nat)
    requires Known(g, lin) && Distinct(lin) && g.Topological(lin) && i < |lin|
    ensures lin[..i + 1] == lin[..i] + [lin[i]]
    ensures Known(g, lin[..i + 1]) && Distinct(lin[..i + 1]) && g.Topological(lin[..i + 1])
    ensures Known(g, lin[..i]) && Distinct(lin[..i]) && g.Topological(lin[..i])
  {
    assert lin == lin[..i + 1] + lin[i + 1..];
    assert lin[..i + 1] == lin[..i] + [lin[i]];
    KnownSplit(g, lin[..i + 1], lin[i + 1..]);
    KnownSplit(g, lin[..i], [lin[i]]);
    DistinctSplit(lin[..i + 1], lin[i + 1..]);
    DistinctSplit(lin[..i], [lin[i]]);
    TopologicalConcat(g, lin[..i + 1], lin[i + 1..]);
    TopologicalConcat(g, lin[..i], [lin[i]]);
  }

  /** Every list a pass goes through holds the transactions taken up so far, in connected groups of
      non-increasing feerate, in an order that is valid and at least as good. */
  lemma {:induction false} GroupsOfGood(g: Graph, order: seq<nat>)
    requires g.WellFormed() && Known(g, order) && Distinct(order) && g.Topological(order)
    ensures Grouping(g, GroupsOf(g, order), order) && DescendingBut(g, GroupsOf(g, order), -1)
    decreases |order|
  {
    if order == [] {
      assert Flatten(GroupsOf(g, order)) == [];
    } else {
      var n := |order| - 1;
      var front, x := order[..n], order[n];
      PrefixFacts(g, order, n);
      assert order[..n + 1] == order;
      GroupsOfGood(g, front);
      var before := GroupsOf(g, front);
      AppendGroup(g, before, front, x);
      AppendDescending(g, before, [x]);
      MovedGood(g, before + [[x]], order, |before|);
    }
  }

  lemma ViewFacts(g: Graph, rev: bool, lin: seq<nat>)
    requires g.Cluster() && g.Linearization(lin)
    ensures View(g, rev).Cluster() && View(g, rev).Linearization(Order(lin, rev))
    ensures Known(View(g, rev), Order(lin, rev)) && |Order(lin, rev)| == |lin|
  {
    MirrorCluster(g);
    MirrorTopological(g, lin);
    ReverseShape(lin);
    ReverseAt(lin);
  }

  // ---------- What passes keep ----------

  lemma SameRate(g: Graph, a: seq<nat>, b: seq<nat>)
    requires Distinct(a) && Distinct(b) && Elements(a) == Elements(b)
    ensures g.SeqRate(a) == g.SeqRate(b)
  {
    SeqRateElements(g, a);
    SeqRateElements(g, b);
  }

  /** Each pass turns a linearization into one that is at least as good. */
  lemma PassGood(g: Graph, rev: bool, lin: seq<nat>)
    requires g.Cluster() && g.Linearization(lin)
    ensures g.Linearization(PassOf(g, lin, rev)) && PeaksOver(g, PassOf(g, lin, rev), lin)
  {
    var v, order := View(g, rev), Order(lin, rev);
    ViewFacts(g, rev, lin);
    GroupsOfGood(v, order);
    var flat := Flatten(GroupsOf(v, order));
    if rev {
      var res := Reverse(flat);
      ReverseShape(flat);
      ReverseShape(lin);
      ReverseTwice(flat);
      MirrorTopological(g, res);
      SameRate(g, res, lin);
      MirrorPeaksOver(g, res, lin);
    }
  }

  /** Post-linearization gives a linearization whose diagram is nowhere below the given one, and
      whose chunks are connected. */
  lemma PostLinearizedGood(g: Graph, lin: seq<nat>)
    requires g.Cluster() && g.Linearization(lin)
    ensures g.Linearization(PostLinearized(g, lin)) && NowhereBelow(g, PostLinearized(g, lin), lin)
    ensures forall k :: 0 <= k < |Chunks(g, PostLinearized(g, lin))| ==>
              ConnectedSet(g, Elements(Chunks(g, PostLinearized(g, lin))[k]))
  {
    var first, res := PassOf(g, lin, true), PostLinearized(g, lin);
    PassGood(g, true, lin);
    PassGood(g, false, first);
    PeaksOverTrans(g, res, first, lin);
    SameRate(g, res, lin);
    PeaksGiveDiagram(g, res, lin);
    var groups := GroupsOf(g, first);
    GroupsOfGood(g, first);
    GroupsAreChunks(g, groups, first);
    forall k | 0 <= k < |groups| ensures ConnectedSet(g, Elements(groups[k])) {
      assert GoodGroup(g, groups[k]);
    }
  }
}
