/** The search loop: a mix of breadth-first and depth-first exploration that never outgrows the
    space reserved for its queue. */
module SearchLoops {
  import opened FeeFracs
  import opened Sets
  import opened Graphs
  import opened SearchTheory
  import opened SearchQueues
  import opened SearchSteps

  /** The invariant of the search. */
  ghost predicate Searching(g: Graph, todo: set<nat>, queue: seq<WorkItem>, best: SetInfo, imp: set<nat>) {
    && Incumbent(g, todo, best, imp)
    && AllValid(g, todo, best.feerate, queue)
    && Exact(g, todo, queue, best.feerate)
  }

  /** Replacing the item `elem` by what processing it gave. */
  lemma Advance(g: Graph, todo: set<nat>, rest: seq<WorkItem>, elem: WorkItem, best: SetInfo, imp: set<nat>,
                added: seq<WorkItem>, best': SetInfo, imp': set<nat>)
    requires Searchable(g, todo) && Searching(g, todo, [elem] + rest, best, imp)
    requires Processed(g, todo, best.feerate, elem, added, best', imp')
    ensures Searching(g, todo, rest + added, best', imp')
  {
    IncumbentSize(g, todo, best, imp);
    IncumbentSize(g, todo, best', imp');
    ValidRest(g, todo, best.feerate, elem, rest);
    AllValidKept(g, todo, best.feerate, best'.feerate, rest);
    ExactReplaced(g, todo, elem, rest, added, best.feerate, best'.feerate);
    BothValid(g, todo, best'.feerate, rest, added);
  }

  lemma ValidRest(g: Graph, todo: set<nat>, best: FeeFrac, elem: WorkItem, rest: seq<WorkItem>)
    requires AllValid(g, todo, best, [elem] + rest)
    ensures AllValid(g, todo, best, rest) && WorkValid(g, todo, best, elem)
  {
    var all := [elem] + rest;
    assert WorkValid(g, todo, best, all[0]);
    forall k | 0 <= k < |rest| ensures WorkValid(g, todo, best, rest[k]) {
      assert WorkValid(g, todo, best, all[k + 1]);
    }
  }

  lemma AdvanceWork(rest: seq<WorkItem>, elem: WorkItem, added: seq<WorkItem>)
    requires Work(added) < Splits(elem)
    ensures Work(rest + added) < Work([elem] + rest)
  {
    WorkConcat(rest, added);
    assert ([elem] + rest)[1..] == rest;
  }

  /** Any reordering of the queue keeps the invariant. */
  lemma Reordered(g: Graph, todo: set<nat>, a: seq<WorkItem>, b: seq<WorkItem>, best: SetInfo, imp: set<nat>)
    requires Searching(g, todo, a, best, imp)
    requires forall k :: 0 <= k < |a| ==> a[k] in b
    requires forall k :: 0 <= k < |b| ==> b[k] in a
    ensures Searching(g, todo, b, best, imp)
  {
    ExactReordered(g, todo, a, b, best.feerate);
  }

  lemma SameMembers(rest: seq<WorkItem>, elem: WorkItem)
    ensures forall k :: 0 <= k < |rest| + 1 ==> (rest + [elem])[k] in [elem] + rest
    ensures forall k :: 0 <= k < |rest| + 1 ==> ([elem] + rest)[k] in rest + [elem]
  {
    var a, b := rest + [elem], [elem] + rest;
    forall k | 0 <= k < |a| ensures a[k] in b {
      assert a[k] == if k < |rest| then b[k + 1] else b[0];
    }
    forall k | 0 <= k < |b| ensures b[k] in a {
      assert b[k] == if k > 0 then a[k - 1] else a[|rest|];
    }
  }

  lemma BackToFront(g: Graph, todo: set<nat>, rest: seq<WorkItem>, elem: WorkItem, best: SetInfo, imp: set<nat>)
    requires Searching(g, todo, rest + [elem], best, imp)
    ensures Searching(g, todo, [elem] + rest, best, imp)
  {
    SameMembers(rest, elem);
    Reordered(g, todo, rest + [elem], [elem] + rest, best, imp);
  }

  lemma BackWork(rest: seq<WorkItem>, elem: WorkItem)
    ensures Work([elem] + rest) == Work(rest + [elem])
  {
    WorkConcat(rest, [elem]);
    WorkConcat([elem], rest);
  }

  function Swapped(queue: seq<WorkItem>): seq<WorkItem>
    requires |queue| > 1
  {
    [queue[1], queue[0]] + queue[2..]
  }

  lemma SwapMembers(queue: seq<WorkItem>)
    requires |queue| > 1
    ensures forall k :: 0 <= k < |queue| ==> queue[k] in Swapped(queue)
    ensures forall k :: 0 <= k < |queue| ==> Swapped(queue)[k] in queue
    ensures Work(Swapped(queue)) == Work(queue)
  {
    var swapped := Swapped(queue);
    forall k | 0 <= k < |queue| ensures queue[k] in swapped {
      assert queue[k] == if k >= 2 then swapped[k] else swapped[1 - k];
    }
    assert queue[1..][1..] == queue[2..];
    assert swapped[1..][1..] == queue[2..];
  }

  lemma SwapKeeps(g: Graph, todo: set<nat>, queue: seq<WorkItem>, best: SetInfo, imp: set<nat>)
    requires Searching(g, todo, queue, best, imp) && |queue| > 1
    ensures Searching(g, todo, Swapped(queue), best, imp)
  {
    SwapMembers(queue);
    Reordered(g, todo, queue, Swapped(queue), best, imp);
  }

  lemma SwapFits(g: Graph, todo: set<nat>, best: FeeFrac, queue: seq<WorkItem>, capacity: nat)
    requires AllValid(g, todo, best, queue) && |queue| > 1
    requires Fits(queue, capacity) && 2 * |todo| <= capacity
    ensures Fits(Swapped(queue), capacity)
  {
    UndecidedBound(g, todo, best, queue[0]);
    UndecidedBound(g, todo, best, queue[1]);
  }

  lemma UndecidedBound(g: Graph, todo: set<nat>, best: FeeFrac, item: WorkItem)
    requires WorkValid(g, todo, best, item)
    ensures 1 <= |item.und| <= |todo|
  {
    SubsetSize(item.und, todo);
  }

  /** The queue never holds more items than were reserved. */
  lemma WithinCapacity(g: Graph, todo: set<nat>, best: FeeFrac, queue: seq<WorkItem>, capacity: nat)
    requires AllValid(g, todo, best, queue) && Fits(queue, capacity)
    ensures |queue| <= capacity
  {
    if queue != [] {
      UndecidedBound(g, todo, best, queue[|queue| - 1]);
    }
  }

  /** Items that replace the last one fit where it did. */
  lemma FitsBack(rest: seq<WorkItem>, elem: WorkItem, added: seq<WorkItem>, capacity: nat)
    requires Fits(rest + [elem], capacity) && |added| <= 2
    requires forall k :: 0 <= k < |added| ==> |added[k].und| < |elem.und|
    ensures Fits(rest + added, capacity)
  {
    var q, q' := rest + [elem], rest + added;
    assert |rest| + |q[|rest|].und| <= capacity;
    forall k | 0 <= k < |q'| ensures k + |q'[k].und| <= capacity {
      if k < |rest| {
        assert q[k] == q'[k];
      } else {
        assert q'[k] == added[k - |rest|];
      }
    }
  }

  /** Items that replace the first one fit at the end, when the queue was short enough. */
  lemma FitsFront(rest: seq<WorkItem>, elem: WorkItem, added: seq<WorkItem>, capacity: nat)
    requires Fits([elem] + rest, capacity) && |added| <= 2 && |rest| + |elem.und| <= capacity
    requires forall k :: 0 <= k < |added| ==> |added[k].und| < |elem.und|
    ensures Fits(rest + added, capacity)
  {
    var q, q' := [elem] + rest, rest + added;
    forall k | 0 <= k < |q'| ensures k + |q'[k].und| <= capacity {
      if k < |rest| {
        assert q[k + 1] == q'[k];
      } else {
        assert q'[k] == added[k - |rest|];
      }
    }
  }

  /** Replacing the last item by what processing it gave. */
  lemma AdvanceBack(g: Graph, todo: set<nat>, rest: seq<WorkItem>, elem: WorkItem, best: SetInfo, imp: set<nat>,
                    added: seq<WorkItem>, best': SetInfo, imp': set<nat>, capacity: nat)
    requires Searchable(g, todo) && Searching(g, todo, rest + [elem], best, imp) && Fits(rest + [elem], capacity)
    requires Processed(g, todo, best.feerate, elem, added, best', imp')
    ensures Searching(g, todo, rest + added, best', imp') && Fits(rest + added, capacity)
    ensures Work(rest + added) < Work(rest + [elem])
  {
    BackToFront(g, todo, rest, elem, best, imp);
    Advance(g, todo, rest, elem, best, imp, added, best', imp');
    AdvanceWork(rest, elem, added);
    BackWork(rest, elem);
    FitsBack(rest, elem, added, capacity);
  }

  /** Replacing the first item by what processing it gave, at the end of the queue. */
  lemma AdvanceFront(g: Graph, todo: set<nat>, rest: seq<WorkItem>, elem: WorkItem, best: SetInfo, imp: set<nat>,
                     added: seq<WorkItem>, best': SetInfo, imp': set<nat>, capacity: nat)
    requires Searchable(g, todo) && Searching(g, todo, [elem] + rest, best, imp) && Fits([elem] + rest, capacity)
    requires |rest| + |elem.und| <= capacity
    requires Processed(g, todo, best.feerate, elem, added, best', imp')
    ensures Searching(g, todo, rest + added, best', imp') && Fits(rest + added, capacity)
    ensures Work(rest + added) < Work([elem] + rest)
  {
    Advance(g, todo, rest, elem, best, imp, added, best', imp');
    AdvanceWork(rest, elem, added);
    FitsFront(rest, elem, added, capacity);
  }

  lemma EndsOf(queue: seq<WorkItem>)
    requires queue != []
    ensures queue == queue[..|queue| - 1] + [queue[|queue| - 1]]
    ensures queue == [queue[0]] + queue[1..]
  {
  }

  /** Process the last item of the queue. */
  method ProcessBack(g: Graph, todo: set<nat>, queue: seq<WorkItem>, best: SetInfo, imp: set<nat>, ghost capacity: nat)
    returns (queue': seq<WorkItem>, best': SetInfo, imp': set<nat>, performed: bool)
    requires Searchable(g, todo) && Searching(g, todo, queue, best, imp) && queue != [] && Fits(queue, capacity)
    ensures Searching(g, todo, queue', best', imp') && Fits(queue', capacity)
    ensures AtLeast(best'.feerate, best.feerate)
    ensures Work(queue') < Work(queue) && queue[..|queue| - 1] <= queue' && |queue'| <= capacity
  {
    var elem, rest := queue[|queue| - 1], queue[..|queue| - 1];
    var added;
    added, best', imp', performed := SplitItem(g, todo, best, imp, elem);
    EndsOf(queue);
    AdvanceBack(g, todo, rest, elem, best, imp, added, best', imp', capacity);
    queue' := rest + added;
    WithinCapacity(g, todo, best'.feerate, queue', capacity);
  }

  /** Process the first item of the queue. */
  method ProcessFront(g: Graph, todo: set<nat>, queue: seq<WorkItem>, best: SetInfo, imp: set<nat>, ghost capacity: nat)
    returns (queue': seq<WorkItem>, best': SetInfo, imp': set<nat>, performed: bool)
    requires Searchable(g, todo) && Searching(g, todo, queue, best, imp) && queue != [] && Fits(queue, capacity)
    requires |queue| - 1 + |queue[0].und| <= capacity
    ensures Searching(g, todo, queue', best', imp') && Fits(queue', capacity)
    ensures AtLeast(best'.feerate, best.feerate)
    ensures Work(queue') < Work(queue) && |queue'| <= capacity
  {
    var elem, rest := queue[0], queue[1..];
    var added;
    added, best', imp', performed := SplitItem(g, todo, best, imp, elem);
    EndsOf(queue);
    AdvanceFront(g, todo, rest, elem, best, imp, added, best', imp', capacity);
    queue' := rest + added;
    WithinCapacity(g, todo, best'.feerate, queue', capacity);
  }

  /** While processing the front of the queue could outgrow the capacity, process its back. */
  method DepthFirst(g: Graph, todo: set<nat>, queue: seq<WorkItem>, best: SetInfo, imp: set<nat>,
                    iterationsLeft: nat, capacity: nat)
    returns (queue': seq<WorkItem>, best': SetInfo, imp': set<nat>, iterationsLeft': nat)
    requires Searchable(g, todo) && Searching(g, todo, queue, best, imp) && queue != []
    requires Fits(queue, capacity) && 2 * |todo| <= capacity
    ensures Searching(g, todo, queue', best', imp') && Fits(queue', capacity) && queue' != []
    ensures AtLeast(best'.feerate, best.feerate) && iterationsLeft' <= iterationsLeft
    ensures iterationsLeft' == 0 || |queue'| - 1 + |queue'[0].und| <= capacity
    ensures Work(queue') <= Work(queue) && iterationsLeft - iterationsLeft' <= Work(queue) - Work(queue')
  {
    queue', best', imp', iterationsLeft' := queue, best, imp, iterationsLeft;
    while |queue'| - 1 + |queue'[0].und| > capacity
      invariant Searching(g, todo, queue', best', imp') && Fits(queue', capacity) && queue' != []
      invariant AtLeast(best'.feerate, best.feerate) && iterationsLeft' <= iterationsLeft
      invariant Work(queue') <= Work(queue) && iterationsLeft - iterationsLeft' <= Work(queue) - Work(queue')
      decreases Work(queue')
    {
      if iterationsLeft' == 0 {
        break;
      }
      FrontSmall(g, todo, best'.feerate, queue');
      IncumbentSize(g, todo, best, imp);
      IncumbentSize(g, todo, best', imp');
      ghost var before := best';
      var performed;
      queue', best', imp', performed := ProcessBack(g, todo, queue', best', imp', capacity);
      IncumbentSize(g, todo, best', imp');
      BetterTrans(best'.feerate, before.feerate, best.feerate);
      if performed {
        iterationsLeft' := iterationsLeft' - 1;
      }
    }
  }

  lemma FrontSmall(g: Graph, todo: set<nat>, best: FeeFrac, queue: seq<WorkItem>)
    requires AllValid(g, todo, best, queue) && queue != []
    ensures |queue[0].und| <= |todo|
  {
    UndecidedBound(g, todo, best, queue[0]);
  }

  /** The loop proper: explore until nothing can beat the best set or the iterations run out. What might
      still beat it then is among the items that are left, and every iteration made them less work. The
      swap of the first two items stands for the source's random choice of order. */
  method Explore(g: Graph, todo: set<nat>, start: seq<WorkItem>, best: SetInfo, imp: set<nat>,
                 maxIterations: nat, capacity: nat)
    returns (best': SetInfo, iterationsLeft: nat, ghost left: seq<WorkItem>)
    requires Searchable(g, todo) && Searching(g, todo, start, best, imp)
    requires Fits(start, capacity) && 2 * |todo| <= capacity
    ensures best'.Of(g) && Candidate(g, todo, best'.transactions)
    ensures AtLeast(best'.feerate, best.feerate) && iterationsLeft <= maxIterations
    ensures Exact(g, todo, left, best'.feerate) && (iterationsLeft > 0 ==> left == [])
    ensures maxIterations - iterationsLeft + Work(left) <= Work(start)
    ensures iterationsLeft > 0 ==> forall s :: Candidate(g, todo, s) ==> AtLeast(best'.feerate, g.SetRate(s))
  {
    var queue, imp' := start, imp;
    best', iterationsLeft := best, maxIterations;
    while queue != []
      invariant Searching(g, todo, queue, best', imp') && Fits(queue, capacity)
      invariant AtLeast(best'.feerate, best.feerate) && iterationsLeft <= maxIterations
      invariant maxIterations - iterationsLeft <= Work(start) - Work(queue)
      decreases Work(queue)
    {
      ghost var work := Work(queue);
      // Which of the first two goes first is left to chance.
      var randbool: bool := *;
      if |queue| > 1 && randbool {
        SwapKeeps(g, todo, queue, best', imp');
        SwapFits(g, todo, best'.feerate, queue, capacity);
        SwapMembers(queue);
        queue := Swapped(queue);
      }
      ghost var before := best';
      queue, best', imp', iterationsLeft := DepthFirst(g, todo, queue, best', imp', iterationsLeft, capacity);
      BestTrans(g, todo, best', before, best);
      // The budget is checked before an item is taken.
      if iterationsLeft == 0 {
        break;
      }
      before := best';
      var performed;
      queue, best', imp', performed := ProcessFront(g, todo, queue, best', imp', capacity);
      BestTrans(g, todo, best', before, best);
      if performed {
        iterationsLeft := iterationsLeft - 1;
      }
    }
    left := queue;
    if queue == [] {
      NothingBetter(g, todo, best', imp');
    }
  }

  lemma BestTrans(g: Graph, todo: set<nat>, a: SetInfo, b: SetInfo, c: SetInfo)
    requires g.WellFormed() && g.Sized() && todo <= g.used
    requires a.Of(g) && b.Of(g) && c.Of(g)
    requires Candidate(g, todo, a.transactions) && Candidate(g, todo, b.transactions) &&
        Candidate(g, todo, c.transactions)
    requires AtLeast(a.feerate, b.feerate) && AtLeast(b.feerate, c.feerate)
    ensures AtLeast(a.feerate, c.feerate)
  {
    SetRateSize(g, a.transactions);
    SetRateSize(g, b.transactions);
    SetRateSize(g, c.transactions);
    BetterTrans(a.feerate, b.feerate, c.feerate);
  }

  /** With an empty queue, the best set found is the best there is. */
  lemma NothingBetter(g: Graph, todo: set<nat>, best: SetInfo, imp: set<nat>)
    requires Searchable(g, todo) && Searching(g, todo, [], best, imp)
    ensures forall s :: Candidate(g, todo, s) ==> AtLeast(best.feerate, g.SetRate(s))
  {
    IncumbentSize(g, todo, best, imp);
    forall s | Candidate(g, todo, s) ensures AtLeast(best.feerate, g.SetRate(s)) {
      SetRateSize(g, s);
      BetterTotal(g.SetRate(s), best.feerate);
      assert !Reached(g, todo, [], s);
    }
  }
}
