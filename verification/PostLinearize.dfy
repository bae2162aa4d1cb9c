/** Improving a given linearization in place: the passes over the linked lists of entries. */
module PostLinearization {
  import opened FeeFracs
  import opened Positions
  import opened Graphs
  import opened DepGraphs
  import opened Chunking
  import opened Mirrors
  import opened GroupLists
  import opened GroupEntries
  import opened GroupPasses

  // ---------- The merge/swap cycle ----------

  /** Whether the current group depends on the previous one, as the entries tell. */
  lemma OverlapIsDependency(g: Graph, entries: seq<TxEntry>, groups: seq<seq<nat>>, c: nat)
    requires Represents(g, entries, groups) && 0 < c < |groups|
    ensures Node(groups, c) < |entries| && Node(groups, c - 1) < |entries|
    ensures entries[Node(groups, c)].deps * entries[Node(groups, c - 1)].group == {} <==>
            NoBack(g, groups[c], groups[c - 1])
  {
    var x, p := groups[c], groups[c - 1];
    assert Held(g, entries, x) && Held(g, entries, p);
    var deps, grp := AncestorsOf(g, Elements(x)), Elements(p);
    assert Describes(g, entries[Tail(x)], x) && Describes(g, entries[Tail(p)], p);
    assert entries[Node(groups, c)].deps == deps && entries[Node(groups, c - 1)].group == grp;
    if deps * grp == {} {
      forall a, b | a in x && b in p ensures b !in g.Ancestors(a) {
        assert a in Elements(x);
        assert b in grp;
        assert b !in deps * grp;
      }
    } else {
      var b :| b in deps * grp;
      var a :| a in Elements(x) && b in g.Ancestors(a);
      assert a in x && b in p;
    }
  }

  /** Where group `c`, the one before it and the one after it are linked. */
  ghost predicate Positioned(groups: seq<seq<nat>>, c: nat, next: nat, cur: nat, prev: nat) {
    && NonEmpty(groups) && c < |groups|
    && next == Node(groups, c + 1) && cur == Node(groups, c) && prev == (if c == 0 then 0 else Node(groups, c - 1))
  }

  /** The state of the cycle: `cur` is the tail of the moving group `c` of the list, between `prev`
      and `next`. */
  ghost predicate Cycling(g: Graph, e: seq<TxEntry>, list: seq<seq<nat>>, c: nat, next: nat, cur: nat, prev: nat) {
    && Represents(g, e, list) && Positioned(list, c, next, cur, prev)
    && next < |e| && cur < |e| && prev < |e|
  }

  lemma CycleStart(g: Graph, e: seq<TxEntry>, list: seq<seq<nat>>, cur: nat)
    requires |list| > 0 && Represents(g, e, list) && cur == Node(list, |list| - 1)
    ensures cur < |e| && e[cur].prevGroup < |e| && Cycling(g, e, list, |list| - 1, 0, cur, e[cur].prevGroup)
  {
    LinkFacts(e, list, |list| - 1);
  }

  /** The loop condition and the dependency test decide as the description of the pass does. */
  lemma CycleTests(g: Graph, e: seq<TxEntry>, list: seq<seq<nat>>, c: nat, next: nat, cur: nat, prev: nat)
    requires Cycling(g, e, list, c, next, cur, prev)
    ensures Higher(e[cur].feerate, e[prev].feerate) <==>
            c > 0 && Higher(g.SeqRate(list[c]), g.SeqRate(list[c - 1]))
    ensures c > 0 ==> (e[cur].deps * e[prev].group == {} <==> NoBack(g, list[c], list[c - 1]))
  {
    RateFacts(g, e, list, c);
    if c > 0 {
      OverlapIsDependency(g, e, list, c);
    }
  }

  lemma CycleMerge(g: Graph, e: seq<TxEntry>, list: seq<seq<nat>>, c: nat, next: nat, cur: nat, prev: nat)
    requires Cycling(g, e, list, c, next, cur, prev) && c > 0
    ensures e[cur].firstTx < |e| && |Merged(e, cur, prev)| == |e|
    ensures var e' := Merged(e, cur, prev);
            Cycling(g, e', MergeAt(list, c), c - 1, next, cur, e'[cur].prevGroup)
  {
    Neighbours(g, e, list, c);
    MergedIsMergedFrom(e, cur, prev);
    var e' := Merged(e, cur, prev);
    MergeRepresents(g, e, e', list, c);
    MergePositioned(e', list, c, next, cur);
  }

  lemma MergePositioned(e': seq<TxEntry>, list: seq<seq<nat>>, c: nat, next: nat, cur: nat)
    requires NonEmpty(list) && 0 < c < |list| && AllLinked(e', MergeAt(list, c))
    requires next == Node(list, c + 1) && cur == Node(list, c)
    ensures next < |e'| && cur < |e'| && e'[cur].prevGroup < |e'|
    ensures Positioned(MergeAt(list, c), c - 1, next, cur, e'[cur].prevGroup)
  {
    MergedNonEmpty(list, c);
    MergedNode(list, c, c - 1);
    MergedNode(list, c, c);
    LinkFacts(e', MergeAt(list, c), c - 1);
  }

  /** If PP, P, C, N were the preceding, previous, current and next groups, the order becomes
      PP, C, P, N. */
  function SwapLinks(entries: seq<TxEntry>, next: nat, cur: nat, prev: nat): seq<TxEntry>
    requires next < |entries| && cur < |entries| && prev < |entries|
  {
    var preprev := entries[prev].prevGroup;
    var e1 := entries[next := entries[next].(prevGroup := prev)];
    var e2 := e1[prev := e1[prev].(prevGroup := cur)];
    e2[cur := e2[cur].(prevGroup := preprev)]
  }

  lemma SwapUpdates(entries: seq<TxEntry>, next: nat, cur: nat, prev: nat)
    requires next < |entries| && cur < |entries| && prev < |entries| && next != cur && cur != prev && prev != next
    ensures SwappedFrom(entries, SwapLinks(entries, next, cur, prev), next, cur, prev)
  {
  }

  lemma CycleSwap(g: Graph, e: seq<TxEntry>, list: seq<seq<nat>>, c: nat, next: nat, cur: nat, prev: nat)
    requires Cycling(g, e, list, c, next, cur, prev) && c > 0
    ensures |SwapLinks(e, next, cur, prev)| == |e|
    ensures var e' := SwapLinks(e, next, cur, prev);
            Cycling(g, e', SwapAt(list, c), c - 1, prev, cur, e'[cur].prevGroup)
  {
    NodesDiffer(list, c - 1, c);
    NodesDiffer(list, c - 1, c + 1);
    NodesDiffer(list, c, c + 1);
    SwapUpdates(e, next, cur, prev);
    var e' := SwapLinks(e, next, cur, prev);
    SwapRepresents(g, e, e', list, c);
    SwapPositioned(e', list, c, cur, prev);
  }

  lemma SwapPositioned(e': seq<TxEntry>, list: seq<seq<nat>>, c: nat, cur: nat, prev: nat)
    requires NonEmpty(list) && 0 < c < |list| && AllLinked(e', SwapAt(list, c))
    requires cur == Node(list, c) && prev == Node(list, c - 1)
    ensures prev < |e'| && cur < |e'| && e'[cur].prevGroup < |e'|
    ensures Positioned(SwapAt(list, c), c - 1, prev, cur, e'[cur].prevGroup)
  {
    SwappedNonEmpty(list, c);
    SwappedNode(list, c, c - 1);
    SwappedNode(list, c, c);
    LinkFacts(e', SwapAt(list, c), c - 1);
  }

  ghost predicate MovesTo(g: Graph, list: seq<seq<nat>>, c: nat, goal: seq<seq<nat>>) {
    c < |list| && Moved(g, list, c) == goal
  }

  /** One turn of the cycle. The current group has a higher feerate than the previous one. */
  method MergeOrSwap(ghost g: Graph, entries: seq<TxEntry>, next: nat, cur: nat, prev: nat,
                     ghost list: seq<seq<nat>>, ghost c: nat)
    returns (e: seq<TxEntry>, next': nat, prev': nat, ghost list': seq<seq<nat>>)
    requires Cycling(g, entries, list, c, next, cur, prev) && Higher(entries[cur].feerate, entries[prev].feerate)
    ensures |e| == |entries| && c > 0 && Cycling(g, e, list', c - 1, next', cur, prev')
    ensures forall goal :: MovesTo(g, list, c, goal) ==> MovesTo(g, list', c - 1, goal)
  {
    CycleTests(g, entries, list, c, next, cur, prev);
    if entries[cur].deps * entries[prev].group != {} {
      CycleMerge(g, entries, list, c, next, cur, prev);
      e, next' := Merged(entries, cur, prev), next;
      list' := MergeAt(list, c);
    } else {
      CycleSwap(g, entries, list, c, next, cur, prev);
      e, next' := SwapLinks(entries, next, cur, prev), prev;
      list' := SwapAt(list, c);
    }
    prev' := e[cur].prevGroup;
  }

  lemma CycleEnd(g: Graph, e: seq<TxEntry>, list: seq<seq<nat>>, c: nat, next: nat, cur: nat, prev: nat)
    requires Cycling(g, e, list, c, next, cur, prev) && !Higher(e[cur].feerate, e[prev].feerate)
    ensures forall goal :: MovesTo(g, list, c, goal) ==> Represents(g, e, goal)
  {
    CycleTests(g, e, list, c, next, cur, prev);
  }

  /** The merge/swap cycle: move the last group forward as long as it has a higher feerate than
      the one before it, merging with it when it depends on it, changing places otherwise. */
  method MergeSwap(ghost g: Graph, entries: seq<TxEntry>, cur: nat, ghost groups: seq<seq<nat>>)
    returns (e: seq<TxEntry>)
    requires |groups| > 0 && Represents(g, entries, groups) && cur == Node(groups, |groups| - 1)
    ensures |e| == |entries| && Represents(g, e, Moved(g, groups, |groups| - 1))
  {
    e := entries;
    CycleStart(g, e, groups, cur);
    ghost var list, c: nat := groups, |groups| - 1;
    ghost var goal := Moved(g, groups, |groups| - 1);
    var nextGroup: nat, prevGroup: nat := 0, e[cur].prevGroup;
    // Forward, while what lies ahead has a lower feerate.
    while Higher(e[cur].feerate, e[prevGroup].feerate)
      invariant |e| == |entries| && cur < |e| && prevGroup < |e|
      invariant Cycling(g, e, list, c, nextGroup, cur, prevGroup)
      invariant MovesTo(g, list, c, goal)
      decreases c
    {
      e, nextGroup, prevGroup, list := MergeOrSwap(g, e, nextGroup, cur, prevGroup, list, c);
      c := c - 1;
    }
    CycleEnd(g, e, list, c, nextGroup, cur, prevGroup);
  }

  lemma LinkFacts(entries: seq<TxEntry>, groups: seq<seq<nat>>, c: nat)
    requires AllLinked(entries, groups) && c < |groups|
    ensures Node(groups, c) < |entries| && Node(groups, c + 1) < |entries|
    ensures entries[Node(groups, c)].prevGroup == if c == 0 then 0 else Node(groups, c - 1)
    ensures entries[Node(groups, c)].prevGroup < |entries|
  {
    assert LinksBack(entries, groups, c) && LinksBack(entries, groups, c + 1);
    if c > 0 {
      assert LinksBack(entries, groups, c - 1);
    }
  }

  lemma NeverAboveEmpty(x: FeeFrac)
    ensures !Higher(x, FeeFrac(0, 0))
  {
  }

  /** The feerates that the loop compares. */
  lemma RateFacts(g: Graph, entries: seq<TxEntry>, groups: seq<seq<nat>>, c: nat)
    requires Represents(g, entries, groups) && c < |groups|
    ensures Node(groups, c) < |entries| && entries[Node(groups, c)].feerate == g.SeqRate(groups[c])
    ensures c > 0 ==>
        Node(groups, c - 1) < |entries| && entries[Node(groups, c - 1)].feerate == g.SeqRate(groups[c - 1])
    ensures c == 0 ==> !Higher(entries[Node(groups, c)].feerate, entries[0].feerate)
  {
    assert Held(g, entries, groups[c]);
    TailIn(groups[c]);
    if c > 0 {
      assert Held(g, entries, groups[c - 1]);
      TailIn(groups[c - 1]);
    } else {
      NeverAboveEmpty(entries[Node(groups, c)].feerate);
    }
  }

  // ---------- One pass ----------

  lemma StartPass(g: Graph, entries: seq<TxEntry>)
    requires |entries| > 0 && entries[0].feerate == FeeFrac(0, 0) && entries[0].prevGroup == 0
    ensures Represents(g, entries, GroupsOf(g, []))
  {
    var none: seq<seq<nat>> := [];
    assert LinksBack(entries, none, 0);
    assert Apart(none);
  }

  /** The next transaction becomes the last group, and moves. */
  method GroupNext(ghost v: Graph, entries: seq<TxEntry>, idx: nat, deps: set<nat>, feerate: FeeFrac,
                   ghost order: seq<nat>, ghost i: nat)
    returns (e: seq<TxEntry>)
    requires v.WellFormed() && Known(v, order) && Distinct(order) && v.Topological(order)
    requires i < |order| && idx == order[i] && idx + 1 < |entries|
    requires deps == v.Ancestors(idx) && feerate == v.FeeRate(idx)
    requires Represents(v, entries, GroupsOf(v, order[..i]))
    ensures |e| == |entries| && Represents(v, e, GroupsOf(v, order[..i + 1]))
  {
    ghost var groups := GroupsOf(v, order[..i]);
    NewApart(v, order, i);
    InsertRepresents(v, entries, groups, idx);
    assert (groups + [[idx]])[|groups|] == [idx];
    var cur := idx + 1;
    e := Inserted(entries, idx, deps, feerate);
    e := MergeSwap(v, e, cur, groups + [[idx]]);
    assert order[..i + 1][..i] == order[..i];
  }

  lemma NewApart(g: Graph, order: seq<nat>, i: nat)
    requires g.WellFormed() && Known(g, order) && Distinct(order) && g.Topological(order) && i < |order|
    ensures Apart(GroupsOf(g, order[..i]) + [[order[i]]])
  {
    var groups := GroupsOf(g, order[..i]);
    PrefixFacts(g, order, i);
    GroupsOfGood(g, order[..i]);
    AppendGroup(g, groups, order[..i], order[i]);
    DistinctApart(groups + [[order[i]]]);
  }

  /** Group all transactions, from front to back in odd passes, from back to front in even ones. */
  method GroupAll(g: Graph, rev: bool, linearization: array<nat>, entries: seq<TxEntry>)
    returns (e: seq<TxEntry>)
    requires g.Cluster() && g.Linearization(linearization[..])
    requires |entries| == |g.entries| + 1 && entries[0].feerate == FeeFrac(0, 0)
    ensures |e| == |entries|
    ensures Represents(View(g, rev), e, GroupsOf(View(g, rev), Order(linearization[..], rev)))
  {
    ghost var v, order := View(g, rev), Order(linearization[..], rev);
    ViewFacts(g, rev, linearization[..]);
    // The list is empty: entry 0 closes it.
    e := entries[0 := entries[0].(prevGroup := 0)];
    StartPass(v, e);
    assert order[..0] == [];
    for i := 0 to linearization.Length
      invariant |e| == |entries| && Represents(v, e, GroupsOf(v, order[..i]))
    {
      // The pass from the end reads everything upside down.
      var idx := linearization[if rev then linearization.Length - 1 - i else i];
      OrderAt(g, linearization[..], rev, i);
      var deps := if rev then g.Descendants(idx) else g.Ancestors(idx);
      var feerate := if rev then FeeFrac(-g.FeeRate(idx).fee, g.FeeRate(idx).size) else g.FeeRate(idx);
      e := GroupNext(v, e, idx, deps, feerate, order, i);
    }
    assert order[..linearization.Length] == order;
  }

  /** What a pass reads for its next transaction. */
  lemma OrderAt(g: Graph, lin: seq<nat>, rev: bool, i: nat)
    requires g.Cluster() && g.Linearization(lin) && i < |lin|
    ensures var idx := lin[if rev then |lin| - 1 - i else i];
            |Order(lin, rev)| == |lin| && Order(lin, rev)[i] == idx && idx < |g.entries| &&
            View(g, rev).Ancestors(idx) == (if rev then g.Descendants(idx) else g.Ancestors(idx)) &&
            View(g, rev).FeeRate(idx) ==
            if rev then FeeFrac(-g.FeeRate(idx).fee, g.FeeRate(idx).size) else g.FeeRate(idx)
  {
    ReverseAt(lin);
    var idx := lin[if rev then |lin| - 1 - i else i];
    assert idx in Elements(lin);
    MirrorFields(g, idx);
  }

  // ---------- Writing the order back ----------

  /** Write the transactions of a group, from its last to its first, before what is written. */
  method WriteBefore(ghost g: Graph, entries: seq<TxEntry>, linearization: array<nat>, cur: nat, done: nat,
                     ghost c: seq<nat>) returns (done': nat)
    requires Held(g, entries, c) && cur == Tail(c) && done + |c| <= linearization.Length
    modifies linearization
    ensures done' == done + |c|
    ensures linearization[linearization.Length - done'..] == c + old(linearization[linearization.Length - done..])
  {
    var n := linearization.Length;
    var curTx := cur;
    done' := done;
    ghost var p := |c|;
    while curTx != 0
      invariant 0 <= p <= |c| && done' == done + |c| - p
      invariant curTx == (if p == 0 then 0 else c[p - 1] + 1) && curTx < |entries|
      invariant linearization[n - done'..] == c[p..] + old(linearization[n - done..])
      decreases p
    {
      done' := done' + 1;
      linearization[n - done'] := curTx - 1;
      WroteBefore(linearization[..], n - done', c, p, old(linearization[n - done..]));
      StepBack(g, entries, c, p);
      curTx := entries[curTx].prevTx;
      p := p - 1;
    }
    assert c[0..] == c;
  }

  lemma StepBack(g: Graph, entries: seq<TxEntry>, c: seq<nat>, p: nat)
    requires Held(g, entries, c) && 0 < p <= |c|
    ensures c[p - 1] + 1 < |entries|
    ensures var back := entries[c[p - 1] + 1].prevTx;
      back == (if p == 1 then 0 else c[p - 2] + 1) && back < |entries|
  {
    var k := p - 1;
    assert entries[c[k] + 1].prevTx == (if k == 0 then 0 else c[k - 1] + 1);
    if k > 0 {
      var j := k - 1;
      assert c[j] + 1 < |entries|;
    }
  }

  lemma WroteBefore(a: seq<nat>, i: nat, c: seq<nat>, p: nat, tail: seq<nat>)
    requires i < |a| && 0 < p <= |c| && a[i] == c[p - 1] && a[i + 1..] == c[p..] + tail
    ensures a[i..] == c[p - 1..] + tail
  {
    assert a[i..] == [a[i]] + a[i + 1..];
    assert c[p - 1..] == [c[p - 1]] + c[p..];
  }

  lemma WroteAfter(a: seq<nat>, i: nat, before: seq<nat>, c: seq<nat>, p: nat, head: seq<nat>)
    requires 0 < i <= |a| && 0 < p <= |c| && a[i - 1] == c[p - 1] && a[..i - 1] == before
    requires before == head + Reverse(c[p..])
    ensures a[..i] == head + Reverse(c[p - 1..])
  {
    assert a[..i] == before + [a[i - 1]];
    assert c[p - 1..][1..] == c[p..];
    assert (head + Reverse(c[p..])) + [c[p - 1]] == head + (Reverse(c[p..]) + [c[p - 1]]);
  }

  /** Write the transactions of a group, from its last to its first, after what is written. */
  method WriteAfter(ghost g: Graph, entries: seq<TxEntry>, linearization: array<nat>, cur: nat, done: nat,
                    ghost c: seq<nat>) returns (done': nat)
    requires Held(g, entries, c) && cur == Tail(c) && done + |c| <= linearization.Length
    modifies linearization
    ensures done' == done + |c|
    ensures linearization[..done'] == old(linearization[..done]) + Reverse(c)
  {
    var curTx := cur;
    done' := done;
    ghost var p := |c|;
    assert Reverse(c[|c|..]) == [];
    while curTx != 0
      invariant 0 <= p <= |c| && done' == done + |c| - p
      invariant curTx == (if p == 0 then 0 else c[p - 1] + 1) && curTx < |entries|
      invariant linearization[..done'] == old(linearization[..done]) + Reverse(c[p..])
      decreases p
    {
      ghost var before := linearization[..done'];
      linearization[done'] := curTx - 1;
      done' := done' + 1;
      assert linearization[..][..done' - 1] == before;
      WroteAfter(linearization[..], done', before, c, p, old(linearization[..done]));
      assert linearization[..done'] == linearization[..][..done'];
      StepBack(g, entries, c, p);
      curTx := entries[curTx].prevTx;
      p := p - 1;
    }
    assert c[0..] == c;
  }

  lemma FromGroup(groups: seq<seq<nat>>, k: nat)
    requires 0 < k <= |groups|
    ensures Flatten(groups[k - 1..]) == groups[k - 1] + Flatten(groups[k..])
    ensures |Flatten(groups[k - 1..])| <= |Flatten(groups)|
  {
    assert groups[k - 1..][1..] == groups[k..];
    assert groups == groups[..k - 1] + groups[k - 1..];
    FlattenConcat(groups[..k - 1], groups[k - 1..]);
  }

  /** What is written once the groups from `k` on are. */
  ghost predicate Written(lin: seq<nat>, done: nat, groups: seq<seq<nat>>, k: nat, rev: bool) {
    && k <= |groups| && done == |Flatten(groups[k..])| && done <= |lin|
    && (if rev then lin[..done] == Reverse(Flatten(groups[k..])) else lin[|lin| - done..] == Flatten(groups[k..]))
  }

  /** Write one group, after what is written in even passes and before it in odd ones. */
  method WriteGroup(ghost g: Graph, entries: seq<TxEntry>, linearization: array<nat>, rev: bool, cur: nat, done: nat,
                    ghost groups: seq<seq<nat>>, ghost k: nat) returns (done': nat)
    requires 0 < k <= |groups| && Held(g, entries, groups[k - 1]) && cur == Tail(groups[k - 1])
    requires |Flatten(groups)| == linearization.Length && Written(linearization[..], done, groups, k, rev)
    modifies linearization
    ensures Written(linearization[..], done', groups, k - 1, rev)
  {
    ghost var c := groups[k - 1];
    FromGroup(groups, k);
    if rev {
      assert linearization[..][..done] == linearization[..done];
      done' := WriteAfter(g, entries, linearization, cur, done, c);
      ReverseConcat(c, Flatten(groups[k..]));
      assert linearization[..][..done'] == linearization[..done'];
    } else {
      assert linearization[..][linearization.Length - done..] == linearization[linearization.Length - done..];
      done' := WriteBefore(g, entries, linearization, cur, done, c);
      assert linearization[..][linearization.Length - done'..] == linearization[linearization.Length - done'..];
    }
  }

  /** Convert the entries back to a linearization, overwriting the existing one. */
  method WriteBack(ghost g: Graph, entries: seq<TxEntry>, linearization: array<nat>, rev: bool,
                   ghost groups: seq<seq<nat>>)
    requires Represents(g, entries, groups) && |Flatten(groups)| == linearization.Length
    modifies linearization
    ensures linearization[..] == Order(Flatten(groups), rev)
  {
    ghost var k := |groups|;
    assert LinksBack(entries, groups, k);
    var cur, done := entries[0].prevGroup, 0;
    assert groups[k..] == [];
    while cur != 0
      invariant 0 <= k <= |groups| && cur == (if k == 0 then 0 else Node(groups, k - 1))
      invariant Written(linearization[..], done, groups, k, rev)
      decreases k
    {
      assert Held(g, entries, groups[k - 1]);
      done := WriteGroup(g, entries, linearization, rev, cur, done, groups, k);
      LinkFacts(entries, groups, k - 1);
      cur := entries[cur].prevGroup;
      k := k - 1;
    }
    assert groups[0..] == groups;
    AllWritten(linearization[..], done, Flatten(groups), rev);
  }

  lemma AllWritten(lin: seq<nat>, done: nat, order: seq<nat>, rev: bool)
    requires done == |order| == |lin|
    requires if rev then lin[..done] == Reverse(order) else lin[|lin| - done..] == order
    ensures lin == Order(order, rev)
  {
    assert lin[..done] == lin && lin[0..] == lin;
  }

  // ---------- All passes ----------

  lemma PassSize(g: Graph, rev: bool, lin: seq<nat>)
    requires g.Cluster() && g.Linearization(lin)
    ensures |Flatten(GroupsOf(View(g, rev), Order(lin, rev)))| == |lin|
  {
    var v, order := View(g, rev), Order(lin, rev);
    ViewFacts(g, rev, lin);
    GroupsOfGood(v, order);
    DistinctLength(order);
    DistinctLength(Flatten(GroupsOf(v, order)));
  }

  method Pass(g: Graph, rev: bool, linearization: array<nat>, entries: seq<TxEntry>) returns (e: seq<TxEntry>)
    requires g.Cluster() && g.Linearization(linearization[..])
    requires |entries| == |g.entries| + 1 && entries[0].feerate == FeeFrac(0, 0)
    modifies linearization
    ensures |e| == |entries| && e[0].feerate == FeeFrac(0, 0)
    ensures linearization[..] == PassOf(g, old(linearization[..]), rev)
  {
    ghost var v, order := View(g, rev), Order(linearization[..], rev);
    e := GroupAll(g, rev, linearization, entries);
    PassSize(g, rev, linearization[..]);
    WriteBack(v, e, linearization, rev, GroupsOf(v, order));
  }

  /** Improve a given linearization: an even pass from back to front, then an odd one from front to
      back. */
  method PostLinearize(g: Graph, linearization: array<nat>)
    requires g.Cluster() && g.Linearization(linearization[..])
    modifies linearization
    ensures linearization[..] == PostLinearized(g, old(linearization[..]))
  {
    var entries := seq(|g.entries| + 1, _ => TxEntry(0, 0, 0, {}, {}, FeeFrac(0, 0)));
    entries := Pass(g, true, linearization, entries);
    PassGood(g, true, old(linearization[..]));
    entries := Pass(g, false, linearization, entries);
  }
}
