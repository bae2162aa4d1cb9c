/** How a post-linearization pass stores its groups: singly-linked lists of transactions, pointing
    from back to front, themselves in a circular singly-linked list through a sentinel. */
module GroupEntries {
  import opened FeeFracs
  import opened Positions
  import opened Graphs
  import opened DepGraphs
  import opened Chunking
  import opened GroupLists

  /** Information about transaction t is in entry t + 1; entry 0 is the sentinel. */
  datatype TxEntry = TxEntry(prevTx: nat, firstTx: nat, prevGroup: nat, group: set<nat>, deps: set<nat>,
                             feerate: FeeFrac)

  /** The entry of the last transaction of a group. */
  function Tail(c: seq<nat>): nat
    requires |c| > 0
  {
    c[|c| - 1] + 1
  }

  /** The entries hold group `c`, apart from its place in the list of groups. */
  ghost predicate Held(g: Graph, entries: seq<TxEntry>, c: seq<nat>) {
    && |c| > 0
    && (forall p :: 0 <= p < |c| ==> c[p] + 1 < |entries|)
    && (forall p :: 0 <= p < |c| ==> entries[c[p] + 1].prevTx == (if p == 0 then 0 else c[p - 1] + 1))
    && Describes(g, entries[Tail(c)], c)
  }

  /** The entry of a tail transaction describes its group. */
  ghost predicate Describes(g: Graph, e: TxEntry, c: seq<nat>) {
    && |c| > 0 && e.firstTx == c[0] + 1
    && e.group == Elements(c) && e.deps == AncestorsOf(g, Elements(c)) && e.feerate == g.SeqRate(c)
  }

  ghost predicate NonEmpty(groups: seq<seq<nat>>) {
    forall k :: 0 <= k < |groups| ==> |groups[k]| > 0
  }

  /** The entry through which group `k` is linked; the sentinel stands past the last group. */
  ghost function Node(groups: seq<seq<nat>>, k: nat): nat
    requires NonEmpty(groups) && k <= |groups|
  {
    if k < |groups| then Tail(groups[k]) else 0
  }

  /** Each group points to the one before it, the sentinel to the last, the first to the sentinel. */
  ghost predicate LinksBack(entries: seq<TxEntry>, groups: seq<seq<nat>>, k: nat)
    requires NonEmpty(groups) && k <= |groups|
  {
    && Node(groups, k) < |entries|
    && entries[Node(groups, k)].prevGroup == (if k == 0 then 0 else Node(groups, k - 1))
  }

  ghost predicate AllHeld(g: Graph, entries: seq<TxEntry>, groups: seq<seq<nat>>) {
    forall k :: 0 <= k < |groups| ==> Held(g, entries, groups[k])
  }

  ghost predicate AllLinked(entries: seq<TxEntry>, groups: seq<seq<nat>>) {
    && NonEmpty(groups) && Apart(groups)
    && forall k :: 0 <= k <= |groups| ==> LinksBack(entries, groups, k)
  }

  /** The entries represent the list of groups. */
  ghost predicate Represents(g: Graph, entries: seq<TxEntry>, groups: seq<seq<nat>>) {
    && |entries| > 0 && entries[0].feerate == FeeFrac(0, 0)
    && AllHeld(g, entries, groups) && AllLinked(entries, groups)
  }

  /** No transaction is in two places. */
  ghost predicate Apart(groups: seq<seq<nat>>) {
    && (forall k :: 0 <= k < |groups| ==> Distinct(groups[k]))
    && forall j, k, a :: 0 <= j < |groups| && 0 <= k < |groups| && j != k && a in groups[j] ==> a !in groups[k]
  }

  lemma {:induction false} DistinctApart(groups: seq<seq<nat>>)
    requires Distinct(Flatten(groups))
    ensures Apart(groups)
  {
    forall k | 0 <= k < |groups| ensures Distinct(groups[k]) {
      OneDistinct(groups, k);
    }
    forall j, k, a | 0 <= j < |groups| && 0 <= k < |groups| && j != k && a in groups[j] ensures a !in groups[k] {
      if j < k {
        TwoApart(groups, j, k);
      } else {
        TwoApart(groups, k, j);
      }
    }
  }

  lemma {:induction false} OneDistinct(groups: seq<seq<nat>>, k: nat)
    requires Distinct(Flatten(groups)) && k < |groups|
    ensures Distinct(groups[k]) && forall a :: a in groups[k] ==> a in Elements(Flatten(groups))
  {
    DistinctSplit(groups[0], Flatten(groups[1..]));
    ElementsConcat(groups[0], Flatten(groups[1..]));
    if k > 0 {
      OneDistinct(groups[1..], k - 1);
    } else {
      assert forall a :: a in groups[0] ==> a in Elements(groups[0]);
    }
  }

  lemma {:induction false} TwoApart(groups: seq<seq<nat>>, j: nat, k: nat)
    requires Distinct(Flatten(groups)) && j < k < |groups|
    ensures forall a :: a in groups[j] ==> a !in groups[k]
  {
    DistinctSplit(groups[0], Flatten(groups[1..]));
    if j > 0 {
      TwoApart(groups[1..], j - 1, k - 1);
    } else {
      OneDistinct(groups[1..], k - 1);
      assert forall a :: a in groups[0] ==> a in Elements(groups[0]);
    }
  }

  lemma TailIn(c: seq<nat>)
    requires |c| > 0
    ensures c[|c| - 1] in c && Tail(c) == c[|c| - 1] + 1
  {
  }

  /** Links of different groups go through different entries. */
  lemma NodesDiffer(groups: seq<seq<nat>>, j: nat, k: nat)
    requires NonEmpty(groups) && Apart(groups) && j <= |groups| && k <= |groups| && j != k
    ensures Node(groups, j) != Node(groups, k)
  {
    if j < |groups| {
      TailIn(groups[j]);
    }
    if k < |groups| {
      TailIn(groups[k]);
    }
  }

  /** A group is held as long as the entries of its own transactions keep their contents. */
  lemma HeldFrame(g: Graph, entries: seq<TxEntry>, entries': seq<TxEntry>, c: seq<nat>)
    requires Held(g, entries, c) && |entries'| == |entries|
    requires forall a :: a in c ==> entries'[a + 1].(prevGroup := 0) == entries[a + 1].(prevGroup := 0)
    ensures Held(g, entries', c)
  {
    forall p | 0 <= p < |c| ensures entries'[c[p] + 1].prevTx == (if p == 0 then 0 else c[p - 1] + 1) {
      assert c[p] in c;
    }
    TailIn(c);
    assert entries'[Tail(c)].(prevGroup := 0) == entries[Tail(c)].(prevGroup := 0);
  }

  // ---------- Inserting ----------

  /** A new group with just `idx`, at the back of the list. */
  function Inserted(entries: seq<TxEntry>, idx: nat, deps: set<nat>, feerate: FeeFrac): seq<TxEntry>
    requires 0 < |entries| && idx + 1 < |entries|
  {
    var cur := idx + 1;
    var e := entries[cur := TxEntry(0, cur, entries[0].prevGroup, {idx}, deps, feerate)];
    e[0 := e[0].(prevGroup := cur)]
  }

  lemma InsertedHeld(g: Graph, entries: seq<TxEntry>, idx: nat)
    requires 0 < |entries| && idx + 1 < |entries|
    ensures Held(g, Inserted(entries, idx, g.Ancestors(idx), g.FeeRate(idx)), [idx])
  {
    var c := [idx];
    assert Elements(c) == {idx};
    assert AncestorsOf(g, {idx}) == g.Ancestors(idx);
    assert c[1..] == [];
  }

  lemma InsertRepresents(g: Graph, entries: seq<TxEntry>, groups: seq<seq<nat>>, idx: nat)
    requires Represents(g, entries, groups) && idx + 1 < |entries| && Apart(groups + [[idx]])
    ensures Represents(g, Inserted(entries, idx, g.Ancestors(idx), g.FeeRate(idx)), groups + [[idx]])
  {
    var e' := Inserted(entries, idx, g.Ancestors(idx), g.FeeRate(idx));
    var all := groups + [[idx]];
    var n := |groups|;
    assert all[n] == [idx];
    InsertedHeld(g, entries, idx);
    forall k | 0 <= k < |all| ensures Held(g, e', all[k]) {
      if k < n {
        forall a | a in all[k] ensures e'[a + 1] == entries[a + 1] {
          assert a !in all[n];
        }
        HeldFrame(g, entries, e', all[k]);
      }
    }
    forall k | 0 <= k <= |all| ensures LinksBack(e', all, k) {
      InsertLinksBack(g, entries, groups, idx, k);
    }
  }

  lemma InsertLinksBack(g: Graph, entries: seq<TxEntry>, groups: seq<seq<nat>>, idx: nat, k: nat)
    requires AllLinked(entries, groups) && 0 < |entries| && idx + 1 < |entries| && Apart(groups + [[idx]])
    requires NonEmpty(groups + [[idx]]) && k <= |groups| + 1
    ensures LinksBack(Inserted(entries, idx, g.Ancestors(idx), g.FeeRate(idx)), groups + [[idx]], k)
  {
    var all := groups + [[idx]];
    var n := |groups|;
    assert all[n] == [idx];
    assert LinksBack(entries, groups, n);
    if k < n {
      assert all[k] == groups[k] && LinksBack(entries, groups, k);
      NodesDiffer(all, k, n);
      if k > 0 {
        assert all[k - 1] == groups[k - 1];
      }
    } else if k == n && n > 0 {
      assert all[n - 1] == groups[n - 1];
    }
  }

  // ---------- Merging ----------

  /** Merge the previous group into the current one. */
  function Merged(entries: seq<TxEntry>, cur: nat, prev: nat): seq<TxEntry>
    requires cur < |entries| && prev < |entries| && entries[cur].firstTx < |entries|
  {
    var c, p := entries[cur], entries[prev];
    var e1 := entries[cur := c.(group := c.group + p.group, deps := c.deps + p.deps,
        feerate := c.feerate.Plus(p.feerate))];
    // Join the transactions: those of `prev` end where those of `cur` begin.
    var e2 := e1[e1[cur].firstTx := e1[e1[cur].firstTx].(prevTx := prev)];
    // The joined group begins where `prev` did.
    var e3 := e2[cur := e2[cur].(firstTx := e2[prev].firstTx)];
    // It follows what `prev` followed.
    e3[cur := e3[cur].(prevGroup := e3[prev].prevGroup)]
  }

  /** What merging changes, entry by entry. */
  ghost predicate MergedFrom(entries: seq<TxEntry>, e': seq<TxEntry>, cur: nat, prev: nat) {
    && |e'| == |entries| && cur < |entries| && prev < |entries|
    && forall a :: 0 <= a < |entries| ==>
         e'[a] == (if a == cur then
                     TxEntry(if entries[cur].firstTx == cur then prev else entries[cur].prevTx,
                             entries[prev].firstTx, entries[prev].prevGroup,
                             entries[cur].group + entries[prev].group, entries[cur].deps + entries[prev].deps,
                             entries[cur].feerate.Plus(entries[prev].feerate))
                   else if a == entries[cur].firstTx then entries[a].(prevTx := prev)
                   else entries[a])
  }

  lemma MergedIsMergedFrom(entries: seq<TxEntry>, cur: nat, prev: nat)
    requires cur < |entries| && prev < |entries| && entries[cur].firstTx < |entries|
    requires prev != cur && prev != entries[cur].firstTx
    ensures MergedFrom(entries, Merged(entries, cur, prev), cur, prev)
  {
  }

  lemma AncestorsOfUnion(g: Graph, a: set<nat>, b: set<nat>)
    ensures AncestorsOf(g, a + b) == AncestorsOf(g, a) + AncestorsOf(g, b)
  {
  }

  /** Where the pieces of two neighbouring groups are. */
  lemma Neighbours(g: Graph, entries: seq<TxEntry>, groups: seq<seq<nat>>, c: nat)
    requires Represents(g, entries, groups) && 0 < c < |groups|
    ensures var p, x := groups[c - 1], groups[c];
            && Tail(x) == Node(groups, c) < |entries| && Tail(p) == Node(groups, c - 1) < |entries|
            && entries[Tail(x)].firstTx == x[0] + 1 < |entries|
            && Tail(p) != Tail(x) && Tail(p) != x[0] + 1
            && entries[Tail(x)].prevGroup == Tail(p)
  {
    var p, x := groups[c - 1], groups[c];
    assert Held(g, entries, x) && Held(g, entries, p);
    assert LinksBack(entries, groups, c) && LinksBack(entries, groups, c - 1);
    NodesDiffer(groups, c - 1, c);
    TailIn(p);
    assert x[0] in x && p[|p| - 1] !in x;
    assert x[0] + 1 < |entries|;
    assert Describes(g, entries[Tail(x)], x);
  }

  lemma MergedHeld(g: Graph, entries: seq<TxEntry>, e': seq<TxEntry>, groups: seq<seq<nat>>, c: nat)
    requires Represents(g, entries, groups) && 0 < c < |groups|
    requires MergedFrom(entries, e', Tail(groups[c]), Tail(groups[c - 1]))
    ensures Held(g, e', groups[c - 1] + groups[c])
  {
    var p, x := groups[c - 1], groups[c];
    Neighbours(g, entries, groups, c);
    JoinHeld(g, entries, e', p, x);
  }

  /** Two held groups, joined. */
  lemma JoinHeld(g: Graph, entries: seq<TxEntry>, e': seq<TxEntry>, p: seq<nat>, x: seq<nat>)
    requires Held(g, entries, p) && Held(g, entries, x) && MergedFrom(entries, e', Tail(x), Tail(p))
    requires Distinct(x) && forall a :: a in p ==> a !in x
    ensures Held(g, e', p + x)
  {
    var q := p + x;
    assert Tail(q) == Tail(x);
    JoinDescribes(g, entries[Tail(p)], entries[Tail(x)], e'[Tail(x)], p, x);
    forall i | 0 <= i < |q|
      ensures q[i] + 1 < |entries| && e'[q[i] + 1].prevTx == (if i == 0 then 0 else q[i - 1] + 1)
    {
      JoinChainAt(g, entries, e', p, x, i);
    }
  }

  lemma JoinDescribes(g: Graph, ep: TxEntry, ex: TxEntry, e': TxEntry, p: seq<nat>, x: seq<nat>)
    requires Describes(g, ep, p) && Describes(g, ex, x)
    requires e'.firstTx == ep.firstTx && e'.group == ex.group + ep.group && e'.deps == ex.deps + ep.deps
    requires e'.feerate == ex.feerate.Plus(ep.feerate)
    ensures Describes(g, e', p + x)
  {
    JoinSets(g, p, x);
    JoinRate(g, p, x);
  }

  lemma JoinSets(g: Graph, p: seq<nat>, x: seq<nat>)
    ensures Elements(p + x) == Elements(x) + Elements(p)
    ensures AncestorsOf(g, Elements(p + x)) == AncestorsOf(g, Elements(x)) + AncestorsOf(g, Elements(p))
  {
    AncestorsOfUnion(g, Elements(x), Elements(p));
    assert Elements(p + x) == Elements(x) + Elements(p);
  }

  lemma JoinRate(g: Graph, p: seq<nat>, x: seq<nat>)
    ensures g.SeqRate(p + x) == g.SeqRate(x).Plus(g.SeqRate(p))
  {
    SeqRateConcat(g, p, x);
  }

  lemma JoinChainAt(g: Graph, entries: seq<TxEntry>, e': seq<TxEntry>, p: seq<nat>, x: seq<nat>, i: nat)
    requires Held(g, entries, p) && Held(g, entries, x) && MergedFrom(entries, e', Tail(x), Tail(p))
    requires Distinct(x) && (forall a :: a in p ==> a !in x) && i < |p + x|
    ensures (p + x)[i] + 1 < |entries|
    ensures e'[(p + x)[i] + 1].prevTx == (if i == 0 then 0 else (p + x)[i - 1] + 1)
  {
    if i < |p| {
      assert p[i] in p;
      TailIn(x);
      assert x[0] in x;
    } else {
      var j := i - |p|;
      assert (p + x)[i] == x[j];
      assert j > 0 ==> x[j] != x[0];
    }
  }

  lemma MergedNonEmpty(groups: seq<seq<nat>>, c: nat)
    requires NonEmpty(groups) && 0 < c < |groups|
    ensures NonEmpty(MergeAt(groups, c)) && |MergeAt(groups, c)| == |groups| - 1
  {
    var m := MergeAt(groups, c);
    forall k | 0 <= k < |m| ensures |m[k]| > 0 {
      MergedAt(groups, c, k);
    }
  }

  lemma MergedApart(groups: seq<seq<nat>>, c: nat)
    requires Apart(groups) && 0 < c < |groups|
    ensures Apart(MergeAt(groups, c))
  {
    var m := MergeAt(groups, c);
    var p, x := groups[c - 1], groups[c];
    assert Elements(p) !! Elements(x) by {
      assert forall a :: a in p ==> a !in x;
    }
    DistinctSplit(p, x);
    forall k | 0 <= k < |m| ensures Distinct(m[k]) {
      MergedAt(groups, c, k);
    }
    forall j, k, a | 0 <= j < |m| && 0 <= k < |m| && j != k && a in m[j] ensures a !in m[k] {
      MergedAt(groups, c, j);
      MergedAt(groups, c, k);
    }
  }

  lemma MergeRepresents(g: Graph, entries: seq<TxEntry>, e': seq<TxEntry>, groups: seq<seq<nat>>, c: nat)
    requires Represents(g, entries, groups) && 0 < c < |groups|
    requires MergedFrom(entries, e', Tail(groups[c]), Tail(groups[c - 1]))
    ensures Represents(g, e', MergeAt(groups, c))
  {
    var m := MergeAt(groups, c);
    MergedNonEmpty(groups, c);
    MergedApart(groups, c);
    Neighbours(g, entries, groups, c);
    forall k | 0 <= k < |m| ensures Held(g, e', m[k]) {
      MergedHeldAt(g, entries, e', groups, c, k);
    }
    forall k | 0 <= k <= |m| ensures LinksBack(e', m, k) {
      MergedLinksAt(entries, e', groups, c, k);
    }
  }

  lemma MergedHeldAt(g: Graph, entries: seq<TxEntry>, e': seq<TxEntry>, groups: seq<seq<nat>>, c: nat, k: nat)
    requires Represents(g, entries, groups) && 0 < c < |groups| && k < |groups| - 1
    requires MergedFrom(entries, e', Tail(groups[c]), Tail(groups[c - 1]))
    ensures Held(g, e', MergeAt(groups, c)[k])
  {
    MergedAt(groups, c, k);
    if k == c - 1 {
      MergedHeld(g, entries, e', groups, c);
    } else {
      var o := if k < c - 1 then k else k + 1;
      OtherHeld(g, entries, e', groups, c, o);
    }
  }

  lemma OtherHeld(g: Graph, entries: seq<TxEntry>, e': seq<TxEntry>, groups: seq<seq<nat>>, c: nat, o: nat)
    requires Represents(g, entries, groups) && 0 < c < |groups| && o < |groups| && o != c
    requires MergedFrom(entries, e', Tail(groups[c]), Tail(groups[c - 1]))
    ensures Held(g, e', groups[o])
  {
    assert Held(g, entries, groups[o]) && Held(g, entries, groups[c]);
    TailIn(groups[c]);
    assert groups[c][0] in groups[c];
    forall a | a in groups[o] ensures e'[a + 1] == entries[a + 1] {
      var i :| 0 <= i < |groups[o]| && groups[o][i] == a;
      assert a !in groups[c];
    }
    HeldFrame(g, entries, e', groups[o]);
  }

  lemma MergedLinksAt(entries: seq<TxEntry>, e': seq<TxEntry>, groups: seq<seq<nat>>, c: nat, k: nat)
    requires AllLinked(entries, groups) && 0 < c < |groups| && k <= |groups| - 1 && NonEmpty(MergeAt(groups, c))
    requires MergedFrom(entries, e', Tail(groups[c]), Tail(groups[c - 1]))
    ensures LinksBack(e', MergeAt(groups, c), k)
  {
    var o := if k < c - 1 then k else k + 1;
    MergedNode(groups, c, k);
    MergedPrevGroup(entries, e', groups, c, o);
    if k > 0 {
      MergedNode(groups, c, k - 1);
      assert e'[Node(groups, o)].prevGroup == Node(groups, if k - 1 < c - 1 then k - 1 else k);
    }
  }

  /** The links after a merge: only the merged group's own link changes. */
  lemma MergedPrevGroup(entries: seq<TxEntry>, e': seq<TxEntry>, groups: seq<seq<nat>>, c: nat, o: nat)
    requires AllLinked(entries, groups) && 0 < c < |groups| && o <= |groups|
    requires MergedFrom(entries, e', Tail(groups[c]), Tail(groups[c - 1]))
    ensures Node(groups, o) < |entries|
    ensures e'[Node(groups, o)].prevGroup ==
            if o == c then (if c == 1 then 0 else Node(groups, c - 2))
            else if o == 0 then 0 else Node(groups, o - 1)
  {
    assert LinksBack(entries, groups, o) && LinksBack(entries, groups, c - 1);
    if o != c {
      NodesDiffer(groups, o, c);
    }
  }

  lemma MergedNode(groups: seq<seq<nat>>, c: nat, k: nat)
    requires NonEmpty(groups) && 0 < c < |groups| && NonEmpty(MergeAt(groups, c)) && k <= |groups| - 1
    ensures |MergeAt(groups, c)| == |groups| - 1
    ensures Node(MergeAt(groups, c), k) == Node(groups, if k < c - 1 then k else k + 1)
  {
    if k < |groups| - 1 {
      MergedAt(groups, c, k);
    }
  }

  // ---------- Swapping ----------

  /** What swapping changes: the links of three neighbouring groups. */
  ghost predicate SwappedFrom(entries: seq<TxEntry>, e': seq<TxEntry>, next: nat, cur: nat, prev: nat) {
    && |e'| == |entries| && cur < |entries| && prev < |entries| && next < |entries|
    && forall a :: 0 <= a < |entries| ==>
         e'[a] == (if a == cur then entries[a].(prevGroup := entries[prev].prevGroup)
                   else if a == prev then entries[a].(prevGroup := cur)
                   else if a == next then entries[a].(prevGroup := prev)
                   else entries[a])
  }

  lemma SwappedNonEmpty(groups: seq<seq<nat>>, c: nat)
    requires NonEmpty(groups) && 0 < c < |groups|
    ensures NonEmpty(SwapAt(groups, c)) && |SwapAt(groups, c)| == |groups|
  {
    var s := SwapAt(groups, c);
    forall k | 0 <= k < |s| ensures |s[k]| > 0 {
      SwappedAt(groups, c, k);
    }
  }

  lemma SwappedNode(groups: seq<seq<nat>>, c: nat, k: nat)
    requires NonEmpty(groups) && 0 < c < |groups| && NonEmpty(SwapAt(groups, c)) && k <= |groups|
    ensures |SwapAt(groups, c)| == |groups|
    ensures Node(SwapAt(groups, c), k) == Node(groups, if k == c - 1 then c else if k == c then c - 1 else k)
  {
    if k < |groups| {
      SwappedAt(groups, c, k);
    }
  }

  lemma SwappedApart(groups: seq<seq<nat>>, c: nat)
    requires Apart(groups) && 0 < c < |groups|
    ensures Apart(SwapAt(groups, c))
  {
    var s := SwapAt(groups, c);
    forall k | 0 <= k < |s| ensures Distinct(s[k]) {
      SwappedAt(groups, c, k);
    }
    forall j, k, a | 0 <= j < |s| && 0 <= k < |s| && j != k && a in s[j] ensures a !in s[k] {
      SwappedAt(groups, c, j);
      SwappedAt(groups, c, k);
    }
  }

  lemma SwapRepresents(g: Graph, entries: seq<TxEntry>, e': seq<TxEntry>, groups: seq<seq<nat>>, c: nat)
    requires Represents(g, entries, groups) && 0 < c < |groups|
    requires SwappedFrom(entries, e', Node(groups, c + 1), Node(groups, c), Node(groups, c - 1))
    ensures Represents(g, e', SwapAt(groups, c))
  {
    var s := SwapAt(groups, c);
    SwappedNonEmpty(groups, c);
    SwappedApart(groups, c);
    forall k | 0 <= k < |s| ensures Held(g, e', s[k]) {
      SwappedAt(groups, c, k);
      var o := if k == c - 1 then c else if k == c then c - 1 else k;
      assert Held(g, entries, groups[o]);
      forall a | a in groups[o] ensures e'[a + 1].(prevGroup := 0) == entries[a + 1].(prevGroup := 0) {
        var i :| 0 <= i < |groups[o]| && groups[o][i] == a;
      }
      HeldFrame(g, entries, e', groups[o]);
    }
    forall k | 0 <= k <= |s| ensures LinksBack(e', s, k) {
      SwappedLinksAt(entries, e', groups, c, k);
    }
  }

  /** The links after a swap. */
  lemma SwappedPrevGroup(entries: seq<TxEntry>, e': seq<TxEntry>, groups: seq<seq<nat>>, c: nat, o: nat)
    requires AllLinked(entries, groups) && 0 < c < |groups| && o <= |groups|
    requires SwappedFrom(entries, e', Node(groups, c + 1), Node(groups, c), Node(groups, c - 1))
    ensures Node(groups, o) < |entries|
    ensures e'[Node(groups, o)].prevGroup ==
            if o == c then (if c == 1 then 0 else Node(groups, c - 2))
            else if o == c - 1 then Node(groups, c)
            else if o == c + 1 then Node(groups, c - 1)
            else if o == 0 then 0 else Node(groups, o - 1)
  {
    assert LinksBack(entries, groups, o) && LinksBack(entries, groups, c - 1);
    NodesDiffer(groups, c, c - 1);
    NodesDiffer(groups, c, c + 1);
    NodesDiffer(groups, c - 1, c + 1);
    if o == c || o == c - 1 || o == c + 1 {
    } else {
      NodesDiffer(groups, o, c);
      NodesDiffer(groups, o, c - 1);
      NodesDiffer(groups, o, c + 1);
    }
  }

  lemma SwappedLinksAt(entries: seq<TxEntry>, e': seq<TxEntry>, groups: seq<seq<nat>>, c: nat, k: nat)
    requires AllLinked(entries, groups) && 0 < c < |groups| && k <= |groups| && NonEmpty(SwapAt(groups, c))
    requires SwappedFrom(entries, e', Node(groups, c + 1), Node(groups, c), Node(groups, c - 1))
    ensures LinksBack(e', SwapAt(groups, c), k)
  {
    var o := if k == c - 1 then c else if k == c then c - 1 else k;
    SwappedNode(groups, c, k);
    SwappedPrevGroup(entries, e', groups, c, o);
    if k > 0 {
      SwappedNode(groups, c, k - 1);
    }
  }
}
