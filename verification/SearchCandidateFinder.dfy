/** Searching for high-feerate topologically valid subsets (class SearchCandidateFinder). */
module SearchCandidateFinders {
  import opened FeeFracs
  import opened Sets
  import opened Positions
  import opened Graphs
  import opened DepGraphs
  import opened Remapping
  import opened Transport
  import opened SearchTheory
  import opened SearchQueues
  import opened SearchSteps
  import opened SearchLoops
  import opened Components

  // ---------- One work item per component ----------

  /** For every candidate there is one at least as good that an item stands for or that lies in
      what is still to be covered. */
  ghost predicate Covering(g: Graph, todo: set<nat>, items: seq<WorkItem>, cover: set<nat>) {
    forall s :: Candidate(g, todo, s) ==> Reached(g, todo, items, s) || Uncovered(g, todo, cover, s)
  }

  ghost predicate Uncovered(g: Graph, todo: set<nat>, cover: set<nat>, s: set<nat>) {
    exists y :: Candidate(g, todo, y) && y <= cover && AtLeast(g.SetRate(y), g.SetRate(s))
  }

  lemma CoveringStep(g: Graph, todo: set<nat>, items: seq<WorkItem>, cover: set<nat>, item: WorkItem)
    requires g.WellFormed() && g.Sized() && todo <= g.used
    requires Covering(g, todo, items, cover) && cover <= todo
    requires item.inc.transactions == {} && item.und <= cover && Separate(g, cover, item.und)
    ensures Covering(g, todo, items + [item], cover - item.und)
  {
    forall s | Candidate(g, todo, s)
      ensures Reached(g, todo, items + [item], s) || Uncovered(g, todo, cover - item.und, s)
    {
      if Reached(g, todo, items, s) {
        ReachedLarger(g, todo, items, items + [item], s);
      } else {
        var y :| Candidate(g, todo, y) && y <= cover && AtLeast(g.SetRate(y), g.SetRate(s));
        CutCovered(g, todo, items, cover, item, s, y);
      }
    }
  }

  lemma CutCovered(g: Graph, todo: set<nat>, items: seq<WorkItem>, cover: set<nat>, item: WorkItem, s: set<nat>,
                   y: set<nat>)
    requires g.WellFormed() && g.Sized() && todo <= g.used && cover <= todo
    requires item.inc.transactions == {} && item.und <= cover && Separate(g, cover, item.und)
    requires Candidate(g, todo, s) && Candidate(g, todo, y) && y <= cover && AtLeast(g.SetRate(y), g.SetRate(s))
    ensures Reached(g, todo, items + [item], s) || Uncovered(g, todo, cover - item.und, s)
  {
    var c := item.und;
    CutKeeps(g, todo, cover, c, y);
    SetRateSize(g, y);
    SetRateSize(g, s);
    if Candidate(g, todo, y * c) && AtLeast(g.SetRate(y * c), g.SetRate(y)) {
      SetRateSize(g, y * c);
      BetterTrans(g.SetRate(y * c), g.SetRate(y), g.SetRate(s));
      assert Covers((items + [item])[|items|], y * c);
    } else {
      SetRateSize(g, y - c);
      BetterTrans(g.SetRate(y - c), g.SetRate(y), g.SetRate(s));
    }
  }

  /** A component of what is to be covered is closed, and leaves something separate behind. */
  lemma ComponentShape(g: Graph, todo: set<nat>, cover: set<nat>, c: set<nat>)
    requires g.WellFormed() && todo <= g.used && cover <= todo && Separate(g, todo, cover)
    requires c <= cover && Separate(g, cover, c)
    ensures g.ClosedIn(c, todo) && Separate(g, todo, cover - c)
  {
    forall x, a | x in c && a in g.Ancestors(x) * todo ensures a in c {
      IsRelated(g, cover, x, a);
      IsRelated(g, c, x, a);
    }
    forall a | a in Related(g, cover - c) && a in todo ensures a in cover - c {
      var x :| x in cover - c && a in g.Ancestors(x) + g.Descendants(x);
      IsRelated(g, cover, x, a);
      if a in c {
        IsRelated(g, c, a, x);
      }
    }
  }

  /** An item that stands for all candidates within a component. */
  ghost predicate WholeComponent(g: Graph, todo: set<nat>, item: WorkItem) {
    && item.inc == SetInfo({}, FeeFrac(0, 0))
    && item.und != {} && item.und <= todo && g.ClosedIn(item.und, todo)
  }

  ghost predicate RoomLeft(items: seq<WorkItem>, cover: set<nat>, capacity: nat) {
    && |items| + |cover| <= capacity && Fits(items, capacity)
    && Work(items) + MostSplits(true, |cover|) <= MostSplits(true, capacity)
  }

  /** What holds while the initial items are created. */
  ghost predicate Starting(g: Graph, todo: set<nat>, items: seq<WorkItem>, cover: set<nat>) {
    && cover <= todo && Separate(g, todo, cover)
    && Covering(g, todo, items, cover)
    && RoomLeft(items, cover, |todo|)
    && forall k :: 0 <= k < |items| ==> WholeComponent(g, todo, items[k])
  }

  lemma StartStarting(g: Graph, todo: set<nat>)
    requires g.WellFormed() && g.Sized() && todo <= g.used
    ensures Starting(g, todo, [], todo)
  {
    forall s | Candidate(g, todo, s) ensures Uncovered(g, todo, todo, s) {
    }
  }

  lemma RoomLeftStep(items: seq<WorkItem>, cover: set<nat>, capacity: nat, item: WorkItem)
    requires RoomLeft(items, cover, capacity) && item.inc.transactions == {} && item.und != {} && item.und <= cover
    ensures RoomLeft(items + [item], cover - item.und, capacity)
  {
    SubsetSize({}, item.und);
    assert cover == item.und + (cover - item.und);
    assert |cover| == |item.und| + |cover - item.und|;
    var all := items + [item];
    WorkConcat(items, [item]);
    WorkSingle(item);
    MostSplitsSum(|item.und|, |cover - item.und|);
    forall k | 0 <= k < |all| ensures k + |all[k].und| <= capacity {
      if k < |items| {
        assert all[k] == items[k];
      }
    }
  }

  lemma StartingStep(g: Graph, todo: set<nat>, items: seq<WorkItem>, cover: set<nat>, item: WorkItem)
    requires g.WellFormed() && g.Sized() && todo <= g.used && Starting(g, todo, items, cover)
    requires item.inc == SetInfo({}, FeeFrac(0, 0)) && item.und != {}
    requires item.und <= cover && Separate(g, cover, item.und)
    ensures Starting(g, todo, items + [item], cover - item.und)
    ensures g.ClosedIn(item.und, todo)
  {
    ComponentShape(g, todo, cover, item.und);
    CoveringStep(g, todo, items, cover, item);
    RoomLeftStep(items, cover, |todo|, item);
    assert WholeComponent(g, todo, item);
  }

  /** Create initial entries per connected component of todo. An empty best becomes the first
      component. */
  method InitialItems(g: Graph, todo: set<nat>, best: SetInfo) returns (queue: seq<WorkItem>, best': SetInfo)
    requires Searchable(g, todo) && todo != {} && best.Of(g)
    requires best.transactions == {} || Candidate(g, todo, best.transactions)
    ensures Starting(g, todo, queue, {})
    ensures best'.Of(g) && Candidate(g, todo, best'.transactions)
    ensures best.transactions != {} ==> best' == best
  {
    queue, best' := [], best;
    var toCover := todo;
    StartStarting(g, todo);
    while toCover != {}
      invariant Starting(g, todo, queue, toCover) && best'.Of(g)
      invariant best'.transactions == {} || Candidate(g, todo, best'.transactions)
      invariant best'.transactions == {} ==> toCover == todo
      invariant best.transactions != {} ==> best' == best
      decreases toCover
    {
      var component := GetConnectedComponent(g, toCover, First(toCover));
      var item := WorkItem(SetInfo({}, FeeFrac(0, 0)), component, FeeFrac(0, 0));
      StartingStep(g, todo, queue, toCover, item);
      toCover := toCover - component;
      SetRateSize(g, best'.transactions);
      if best'.feerate.IsEmpty() {
        best' := SetInfo(component, g.SetRate(component));
      }
      queue := queue + [item];
    }
  }

  lemma StartSearching(g: Graph, todo: set<nat>, queue: seq<WorkItem>, best: SetInfo, imp: set<nat>)
    requires Starting(g, todo, queue, {}) && Incumbent(g, todo, best, imp)
    ensures Searching(g, todo, queue, best, imp)
  {
    StartValid(g, todo, best.feerate, queue);
    StartExact(g, todo, best.feerate, queue);
  }

  lemma StartValid(g: Graph, todo: set<nat>, best: FeeFrac, queue: seq<WorkItem>)
    requires forall k :: 0 <= k < |queue| ==> WholeComponent(g, todo, queue[k])
    ensures AllValid(g, todo, best, queue)
  {
    forall k | 0 <= k < |queue| ensures WorkValid(g, todo, best, queue[k]) {
      WholeComponentValid(g, todo, best, queue[k]);
    }
  }

  lemma StartExact(g: Graph, todo: set<nat>, best: FeeFrac, queue: seq<WorkItem>)
    requires Covering(g, todo, queue, {})
    ensures Exact(g, todo, queue, best)
  {
    forall s | Candidate(g, todo, s) ensures Reached(g, todo, queue, s) {
      NoneUncovered(g, todo, s);
    }
  }

  lemma WholeComponentValid(g: Graph, todo: set<nat>, best: FeeFrac, item: WorkItem)
    requires WholeComponent(g, todo, item)
    ensures WorkValid(g, todo, best, item)
  {
    SetRateEmpty(g);
    assert {} + item.und == item.und;
  }

  lemma NoneUncovered(g: Graph, todo: set<nat>, s: set<nat>)
    ensures !Uncovered(g, todo, {}, s)
  {
  }

  /** The search on sorted positions: a closed part of `todo` with a high feerate. */
  method Search(g: Graph, todo: set<nat>, maxIterations: nat, best: SetInfo)
    returns (best': SetInfo, iterations: nat, ghost left: seq<WorkItem>)
    requires Searchable(g, todo) && todo != {} && best.Of(g)
    requires best.transactions == {} || Candidate(g, todo, best.transactions)
    ensures best'.Of(g) && Candidate(g, todo, best'.transactions)
    ensures best.transactions != {} ==> AtLeast(best'.feerate, best.feerate)
    ensures iterations <= maxIterations && iterations + Work(left) < Fib(|todo| + 2)
    ensures Exact(g, todo, left, best'.feerate) && (iterations < maxIterations ==> left == [])
    ensures iterations < maxIterations ==> forall s :: Candidate(g, todo, s) ==> AtLeast(best'.feerate, g.SetRate(s))
  {
    var capacity := if 256 < 2 * |todo| then 2 * |todo| else 256;
    var queue, first := InitialItems(g, todo, best);
    SetRateSize(g, first.transactions);
    // The transactions in todo which have feerate > best's.
    var imp := ShrinkImproving(g, todo, todo, first.feerate);
    StartSearching(g, todo, queue, first, imp);
    var iterationsLeft;
    best', iterationsLeft, left := Explore(g, todo, queue, first, imp, maxIterations, capacity);
    iterations := maxIterations - iterationsLeft;
  }

  // ---------- The class ----------

  /** The order the constructor sorts by: higher feerate, then lower position. */
  predicate SortsBefore(g: Graph, a: nat, b: nat) {
    Better(g.FeeRate(a), g.FeeRate(b)) || (!Better(g.FeeRate(b), g.FeeRate(a)) && a < b)
  }

  lemma SortsTotal(g: Graph, a: nat, b: nat)
    requires g.FeeRate(a).size > 0 && g.FeeRate(b).size > 0
    ensures a == b || SortsBefore(g, a, b) || SortsBefore(g, b, a)
    ensures !(SortsBefore(g, a, b) && SortsBefore(g, b, a))
  {
    BetterTotal(g.FeeRate(a), g.FeeRate(b));
    BetterTotal(g.FeeRate(b), g.FeeRate(a));
  }

  lemma SortsTrans(g: Graph, a: nat, b: nat, c: nat)
    requires g.FeeRate(a).size > 0 && g.FeeRate(b).size > 0 && g.FeeRate(c).size > 0
    requires SortsBefore(g, a, b) && SortsBefore(g, b, c)
    ensures SortsBefore(g, a, c)
  {
    BetterTotal(g.FeeRate(a), g.FeeRate(b));
    BetterTotal(g.FeeRate(b), g.FeeRate(a));
    BetterTotal(g.FeeRate(b), g.FeeRate(c));
    BetterTotal(g.FeeRate(c), g.FeeRate(b));
    BetterTotal(g.FeeRate(a), g.FeeRate(c));
    BetterTotal(g.FeeRate(c), g.FeeRate(a));
    BetterTrans(g.FeeRate(a), g.FeeRate(b), g.FeeRate(c));
  }

  /** The transaction of `s` that sorts first. */
  method Next(g: Graph, s: set<nat>) returns (m: nat)
    requires g.Sized() && s <= g.used && s != {}
    ensures m in s && forall x :: x in s ==> x == m || SortsBefore(g, m, x)
  {
    m := First(s);
    var rest := s - {m};
    while rest != {}
      invariant rest <= s && m in s - rest
      invariant forall x :: x in s - rest ==> x == m || SortsBefore(g, m, x)
      decreases rest
    {
      var x := First(rest);
      SortsTotal(g, x, m);
      if SortsBefore(g, x, m) {
        forall y | y in s - rest && y != m ensures SortsBefore(g, x, y) {
          SortsTrans(g, x, m, y);
        }
        m := x;
      }
      rest := rest - {x};
    }
  }

  /** The used positions in decreasing feerate order. */
  method SortByFeerate(g: Graph) returns (order: seq<nat>)
    requires g.Sized()
    ensures Distinct(order) && Elements(order) == g.used
    ensures forall i, j :: 0 <= i < j < |order| ==> SortsBefore(g, order[i], order[j])
  {
    order := [];
    var rest := g.used;
    while rest != {}
      invariant rest <= g.used && Elements(order) == g.used - rest && Distinct(order)
      invariant forall i, j :: 0 <= i < j < |order| ==> SortsBefore(g, order[i], order[j])
      invariant forall i, x :: 0 <= i < |order| && x in rest ==> SortsBefore(g, order[i], x)
      decreases rest
    {
      var m := Next(g, rest);
      ElementsConcat(order, [m]);
      assert Elements([m]) == {m};
      DistinctSplit(order, [m]);
      order := order + [m];
      rest := rest - {m};
    }
  }

  /** The inverse of a list of distinct positions. */
  method Invert(order: seq<nat>, range: nat) returns (inverse: seq<nat>)
    requires Distinct(order) && forall i :: 0 <= i < |order| ==> order[i] < range
    ensures |inverse| == range
    ensures forall i :: 0 <= i < |order| ==> inverse[order[i]] == i
  {
    inverse := seq(range, _ => 0);
    for n := 0 to |order|
      invariant |inverse| == range
      invariant forall i :: 0 <= i < n ==> inverse[order[i]] == i
    {
      inverse := inverse[order[n] := n];
    }
  }

  /** `order` lists the used positions of `g`, `m` is its inverse. */
  ghost predicate Listing(g: Graph, order: seq<nat>, m: seq<nat>) {
    && Distinct(order) && Elements(order) == g.used
    && |m| == |g.entries| && (forall i :: i in g.used ==> i < |m|)
    && forall i :: 0 <= i < |order| ==> order[i] < |m| && m[order[i]] == i
  }

  lemma ListingIndex(g: Graph, order: seq<nat>, m: seq<nat>, i: nat)
    requires Listing(g, order, m) && i in g.used
    ensures m[i] < |order| && order[m[i]] == i
  {
    assert i in Elements(order);
    var k :| 0 <= k < |order| && order[k] == i;
    assert m[order[k]] == k;
  }

  lemma ListingRenumbers(g: Graph, order: seq<nat>, m: seq<nat>)
    requires Listing(g, order, m)
    ensures Renumbers(g, m)
    ensures forall i :: i in g.used ==> m[i] < |order|
    ensures |order| > 0 ==> |order| - 1 in Image(m, g.used)
    ensures forall x :: x in Image(m, g.used) <==> 0 <= x < |order|
  {
    forall i, j | i in g.used && j in g.used && m[i] == m[j] ensures i == j {
      ListingIndex(g, order, m, i);
      ListingIndex(g, order, m, j);
    }
    forall i | i in g.used ensures m[i] < |order| {
      ListingIndex(g, order, m, i);
    }
    forall x | 0 <= x < |order| ensures x in Image(m, g.used) {
      assert order[x] in Elements(order);
      ImageOf(m, g.used, order[x]);
    }
  }

  lemma ListingSorted(g: Graph, h: Graph, order: seq<nat>, m: seq<nat>)
    requires g.Sized() && Listing(g, order, m) && Isomorphic(g, h, m)
    requires forall i, j :: 0 <= i < j < |order| ==> SortsBefore(g, order[i], order[j])
    ensures SortedByFeerate(h)
  {
    ListingRenumbers(g, order, m);
    forall x, y | x in h.used && y in h.used && x <= y ensures AtLeast(h.FeeRate(x), h.FeeRate(y)) {
      assert order[x] in Elements(order) && order[y] in Elements(order);
      assert m[order[x]] == x && m[order[y]] == y;
      if x < y {
        BetterTotal(g.FeeRate(order[y]), g.FeeRate(order[x]));
      }
    }
  }

  class SearchCandidateFinder {
    /** The graph that was given. */
    ghost const original: Graph
    /** The original position that each sorted position had. */
    const sortedToOriginal: seq<nat>
    /** The sorted position that each original position has. */
    const originalToSorted: seq<nat>
    /** The graph with transactions in decreasing individual feerate order. */
    const sorted: Graph
    /** Which transactions are left to do, in sorted positions. */
    var todo: set<nat>

    ghost predicate Valid()
      reads this
    {
      && original.Cluster() && Searchable(sorted, todo)
      && Listing(original, sortedToOriginal, originalToSorted)
      && Isomorphic(original, sorted, originalToSorted)
    }

    /** Which transactions are left to do, in original positions. */
    ghost function Todo(): set<nat>
      reads this
    {
      Preimage(original, originalToSorted, todo)
    }

    constructor (g: Graph)
      requires g.Cluster()
      ensures Valid() && original == g && Todo() == g.used
    {
      var order := SortByFeerate(g);
      assert forall i :: 0 <= i < |order| ==> order[i] in Elements(order);
      var inverse := Invert(order, |g.entries|);
      ListingRenumbers(g, order, inverse);
      var h := Remap(g, inverse, |order|);
      IsomorphicCluster(g, h, inverse);
      ListingSorted(g, h, order, inverse);
      PreimageOf(g, h, inverse, g.used);
      original, sortedToOriginal, originalToSorted, sorted, todo := g, order, inverse, h, h.used;
    }

    /** Given transactions with sorted positions, get their original positions. */
    method SortedToOriginal(arg: set<nat>) returns (ret: set<nat>)
      requires Valid() && arg <= sorted.used
      ensures ret == Preimage(original, originalToSorted, arg)
    {
      ret := {};
      var rest := arg;
      while rest != {}
        invariant rest <= arg && ret == Preimage(original, originalToSorted, arg - rest)
        decreases rest
      {
        var pos := First(rest);
        PreimageStep(pos, arg - rest);
        assert (arg - rest) + {pos} == arg - (rest - {pos});
        ret := ret + {sortedToOriginal[pos]};
        rest := rest - {pos};
      }
      assert arg - rest == arg;
    }

    lemma PreimageStep(pos: nat, done: set<nat>)
      requires Valid() && pos in sorted.used
      ensures pos < |sortedToOriginal|
      ensures Preimage(original, originalToSorted, done + {pos}) ==
              Preimage(original, originalToSorted, done) + {sortedToOriginal[pos]}
    {
      ListingRenumbers(original, sortedToOriginal, originalToSorted);
      assert sortedToOriginal[pos] in Elements(sortedToOriginal);
      forall i | i in original.used && originalToSorted[i] == pos ensures i == sortedToOriginal[pos] {
        ListingIndex(original, sortedToOriginal, originalToSorted, i);
      }
    }

    /** Given transactions with original positions, get their sorted positions. */
    method OriginalToSorted(arg: set<nat>) returns (ret: set<nat>)
      requires Valid() && arg <= original.used
      ensures ret == Image(originalToSorted, arg)
    {
      ret := {};
      var rest := arg;
      while rest != {}
        invariant rest <= arg && ret == Image(originalToSorted, arg - rest)
        decreases rest
      {
        var pos := First(rest);
        ImageAdd(originalToSorted, arg - rest, pos);
        assert (arg - rest) + {pos} == arg - (rest - {pos});
        ret := ret + {originalToSorted[pos]};
        rest := rest - {pos};
      }
      assert arg - rest == arg;
    }

    /** Check whether any unlinearized transactions remain. */
    predicate AllDone()
      reads this
    {
      todo == {}
    }

    /** A closed part of what remains with a high feerate: at least as good as `best`
        unless that is empty, and the best there is if fewer than `maxIterations` were used. However
        large the budget, fewer are used than a Fibonacci number that depends on how much remains; however
        small it is, what might still be better is among items that are less work by what was used. */
    method FindCandidateSet(maxIterations: nat, best: SetInfo)
      returns (best': SetInfo, iterations: nat, ghost left: seq<WorkItem>)
      requires Valid() && !AllDone() && best.Of(original)
      requires best.transactions == {} || Candidate(original, Todo(), best.transactions)
      ensures best'.Of(original) && Candidate(original, Todo(), best'.transactions)
      ensures best.transactions != {} ==> AtLeast(best'.feerate, best.feerate)
      ensures iterations <= maxIterations && iterations + Work(left) < Fib(|Todo()| + 2)
      ensures Exact(sorted, todo, left, best'.feerate) && (iterations < maxIterations ==> left == [])
      ensures iterations < maxIterations ==>
                forall s :: Candidate(original, Todo(), s) ==> AtLeast(best'.feerate, original.SetRate(s))
    {
      var inner := OriginalToSorted(best.transactions);
      TodoImage();
      ImageSize(original, originalToSorted, Todo());
      BestImage(best);
      var found;
      found, iterations, left := Search(sorted, todo, maxIterations, SetInfo(inner, best.feerate));
      PreimageCandidate(original, sorted, originalToSorted, Todo(), found.transactions);
      if iterations < maxIterations {
        forall s | Candidate(original, Todo(), s) ensures AtLeast(found.feerate, original.SetRate(s)) {
          ImageCandidate(original, sorted, originalToSorted, Todo(), s);
          ImageRate(original, sorted, originalToSorted, s);
        }
      }
      var outer := SortedToOriginal(found.transactions);
      best' := SetInfo(outer, found.feerate);
    }

    lemma TodoImage()
      requires Valid()
      ensures Todo() <= original.used && Image(originalToSorted, Todo()) == todo
    {
      PreimageOf(original, sorted, originalToSorted, todo);
    }

    lemma BestImage(best: SetInfo)
      requires Valid() && best.Of(original)
      requires best.transactions == {} || Candidate(original, Todo(), best.transactions)
      ensures SetInfo(Image(originalToSorted, best.transactions), best.feerate).Of(sorted)
      ensures if best.transactions == {} then Image(originalToSorted, best.transactions) == {}
              else Candidate(sorted, todo, Image(originalToSorted, best.transactions))
    {
      TodoImage();
      ImageRate(original, sorted, originalToSorted, best.transactions);
      if best.transactions != {} {
        ImageCandidate(original, sorted, originalToSorted, Todo(), best.transactions);
      }
    }

    /** These have been placed; the search goes on without them. */
    method MarkDone(done: set<nat>)
      requires Valid() && done <= Todo()
      modifies this
      ensures Valid() && Todo() == old(Todo()) - done
    {
      var doneSorted := OriginalToSorted(done);
      ghost var before := Todo();
      forall i | i in original.used ensures originalToSorted[i] in doneSorted <==> i in done {
        if originalToSorted[i] in doneSorted {
          var j :| j in done && originalToSorted[j] == originalToSorted[i];
        }
      }
      todo := todo - doneSorted;
    }
  }
}
