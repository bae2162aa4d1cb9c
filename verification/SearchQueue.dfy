/** The work queue of the search: what its items promise together. */
module SearchQueues {
  import opened FeeFracs
  import opened Positions
  import opened Graphs
  import opened SearchTheory

  /** `y` is one of the sets the item stands for. */
  ghost predicate Covers(item: WorkItem, y: set<nat>) {
    item.inc.transactions <= y <= item.inc.transactions + item.und
  }

  /** Some item stands for a closed set that is at least as good as `s`. */
  ghost predicate Reached(g: Graph, todo: set<nat>, items: seq<WorkItem>, s: set<nat>) {
    exists k, y :: 0 <= k < |items| && Covers(items[k], y) && Candidate(g, todo, y) &&
        AtLeast(g.SetRate(y), g.SetRate(s))
  }

  /** Whatever closed set beats `best`, an item stands for one that is at least as good. */
  ghost predicate Exact(g: Graph, todo: set<nat>, items: seq<WorkItem>, best: FeeFrac) {
    forall s :: Candidate(g, todo, s) && Better(g.SetRate(s), best) ==> Reached(g, todo, items, s)
  }

  /** The sets of `item` that beat `best` are taken over by `items`. */
  ghost predicate Handled(g: Graph, todo: set<nat>, item: WorkItem, items: seq<WorkItem>, best: FeeFrac) {
    forall y :: Candidate(g, todo, y) && Covers(item, y) && Better(g.SetRate(y), best) ==> Reached(g, todo, items, y)
  }

  ghost predicate ItemShape(g: Graph, todo: set<nat>, inc: SetInfo, und: set<nat>) {
    && inc.Of(g)
    && inc.transactions + und <= todo && inc.transactions !! und
    && g.ClosedIn(inc.transactions, todo) && g.ClosedIn(inc.transactions + und, todo)
  }

  ghost predicate HasPotential(g: Graph, best: FeeFrac, item: WorkItem) {
    exists pot :: PotentialOf(g, best, item.inc.transactions, item.und, pot) && item.potFeerate == g.SetRate(pot)
  }

  /** The first transaction waits for another one. */
  ghost predicate Entangled(g: Graph, und: set<nat>) {
    und != {} && exists a :: a in und && a in g.Ancestors(First(und)) && a != First(und)
  }

  /** What holds of every item on the queue. */
  ghost predicate WorkValid(g: Graph, todo: set<nat>, best: FeeFrac, item: WorkItem) {
    && ItemShape(g, todo, item.inc, item.und)
    && item.und != {}
    && (item.inc.transactions != {} ==> AtLeast(best, item.inc.feerate) && HasPotential(g, best, item))
    && (item.inc.transactions != {} ==> Entangled(g, item.und))
  }

  ghost predicate AllValid(g: Graph, todo: set<nat>, best: FeeFrac, items: seq<WorkItem>) {
    forall k :: 0 <= k < |items| ==> WorkValid(g, todo, best, items[k])
  }

  lemma ReachedLarger(g: Graph, todo: set<nat>, a: seq<WorkItem>, b: seq<WorkItem>, s: set<nat>)
    requires Reached(g, todo, a, s) && forall k :: 0 <= k < |a| ==> a[k] in b
    ensures Reached(g, todo, b, s)
  {
    var k, y :| 0 <= k < |a| && Covers(a[k], y) && Candidate(g, todo, y) && AtLeast(g.SetRate(y), g.SetRate(s));
    var j :| 0 <= j < |b| && b[j] == a[k];
    assert Covers(b[j], y);
  }

  lemma ReachedTrans(g: Graph, todo: set<nat>, items: seq<WorkItem>, y: set<nat>, s: set<nat>)
    requires g.WellFormed() && g.Sized() && todo <= g.used
    requires Reached(g, todo, items, y) && y != {} && y <= todo && s != {} && s <= todo
    requires AtLeast(g.SetRate(y), g.SetRate(s))
    ensures Reached(g, todo, items, s)
  {
    var k, z :| 0 <= k < |items| && Covers(items[k], z) && Candidate(g, todo, z) && AtLeast(g.SetRate(z), g.SetRate(y));
    SetRateSize(g, z);
    SetRateSize(g, y);
    SetRateSize(g, s);
    BetterTrans(g.SetRate(z), g.SetRate(y), g.SetRate(s));
  }

  /** Reordering the queue loses nothing. */
  lemma ExactReordered(g: Graph, todo: set<nat>, a: seq<WorkItem>, b: seq<WorkItem>, best: FeeFrac)
    requires Exact(g, todo, a, best) && forall k :: 0 <= k < |a| ==> a[k] in b
    ensures Exact(g, todo, b, best)
  {
    forall s | Candidate(g, todo, s) && Better(g.SetRate(s), best) ensures Reached(g, todo, b, s) {
      ReachedLarger(g, todo, a, b, s);
    }
  }

  /** Replacing an item by others that take over what it stands for loses nothing. */
  lemma ExactReplaced(g: Graph, todo: set<nat>, item: WorkItem, others: seq<WorkItem>, added: seq<WorkItem>,
                      best: FeeFrac, best': FeeFrac)
    requires g.WellFormed() && g.Sized() && todo <= g.used && best.size > 0 && best'.size > 0
    requires Exact(g, todo, [item] + others, best) && AtLeast(best', best)
    requires Handled(g, todo, item, added, best')
    ensures Exact(g, todo, others + added, best')
  {
    forall s | Candidate(g, todo, s) && Better(g.SetRate(s), best') ensures Reached(g, todo, others + added, s) {
      SetRateSize(g, s);
      BetterTrans(g.SetRate(s), best', best);
      ReplacedAt(g, todo, item, others, added, best', s);
    }
  }

  lemma ReplacedAt(g: Graph, todo: set<nat>, item: WorkItem, others: seq<WorkItem>, added: seq<WorkItem>,
                   best': FeeFrac, s: set<nat>)
    requires g.WellFormed() && g.Sized() && todo <= g.used && best'.size > 0
    requires Candidate(g, todo, s) && Better(g.SetRate(s), best')
    requires Reached(g, todo, [item] + others, s)
    requires Handled(g, todo, item, added, best')
    ensures Reached(g, todo, others + added, s)
  {
    var all := [item] + others;
    var k, y :| 0 <= k < |all| && Covers(all[k], y) && Candidate(g, todo, y) && AtLeast(g.SetRate(y), g.SetRate(s));
    if k == 0 {
      SetRateSize(g, y);
      SetRateSize(g, s);
      BetterTrans(g.SetRate(y), g.SetRate(s), best');
      ReachedLarger(g, todo, added, others + added, y);
      ReachedTrans(g, todo, others + added, y, s);
    } else {
      assert (others + added)[k - 1] == all[k];
    }
  }

  /** An item stays valid when the best set found improves. */
  lemma ValidKept(g: Graph, todo: set<nat>, best: FeeFrac, best': FeeFrac, item: WorkItem)
    requires g.WellFormed() && g.Sized() && todo <= g.used && best.size > 0 && best'.size > 0
    requires AtLeast(best', best) && WorkValid(g, todo, best, item)
    ensures WorkValid(g, todo, best', item)
  {
    if item.inc.transactions != {} {
      SetRateSize(g, item.inc.transactions);
      BetterTrans(best', best, item.inc.feerate);
      var pot :| PotentialOf(g, best, item.inc.transactions, item.und, pot) && item.potFeerate == g.SetRate(pot);
      PotentialKept(g, best, best', item.inc.transactions, item.und, pot);
    }
  }

  lemma AllValidKept(g: Graph, todo: set<nat>, best: FeeFrac, best': FeeFrac, items: seq<WorkItem>)
    requires g.WellFormed() && g.Sized() && todo <= g.used && best.size > 0 && best'.size > 0
    requires AtLeast(best', best) && AllValid(g, todo, best, items)
    ensures AllValid(g, todo, best', items)
  {
    forall k | 0 <= k < |items| ensures WorkValid(g, todo, best', items[k]) {
      ValidKept(g, todo, best, best', items[k]);
    }
  }

  // ---------- How much work an item can give rise to ----------

  function Fib(n: nat): (f: nat)
    ensures n > 0 ==> f > 0
  {
    if n < 2 then n else Fib(n - 1) + Fib(n - 2)
  }

  lemma {:induction false} FibMono(m: nat, n: nat)
    requires m <= n
    ensures Fib(m) <= Fib(n)
  {
    if m < n {
      FibMono(m, n - 1);
    }
  }

  /** The most splits that can come of an item with `n` undecided transactions, whether or not it is one with
      nothing included. */
  function MostSplits(nothing: bool, n: nat): nat {
    (if nothing then Fib(n + 2) else Fib(n + 1)) - 1
  }

  function Splits(item: WorkItem): nat {
    MostSplits(item.inc.transactions == {}, |item.und|)
  }

  function Work(items: seq<WorkItem>): nat {
    if items == [] then 0 else Splits(items[0]) + Work(items[1..])
  }

  lemma {:induction false} WorkConcat(a: seq<WorkItem>, b: seq<WorkItem>)
    ensures Work(a + b) == Work(a) + Work(b)
  {
    if a == [] {
      assert a + b == b;
    } else {
      assert (a + b)[1..] == a[1..] + b;
      WorkConcat(a[1..], b);
    }
  }

  lemma WorkSingle(item: WorkItem)
    ensures Work([item]) == Splits(item)
  {
    assert [item][1..] == [];
  }

  lemma MostSplitsMono(nothing: bool, m: nat, n: nat)
    requires m <= n
    ensures MostSplits(nothing, m) <= MostSplits(nothing, n)
  {
    FibMono(m + 1, n + 1);
    FibMono(m + 2, n + 2);
  }

  /** With nothing included, either part of a split has one transaction less. */
  lemma SplitNothing(n: nat, x: nat, y: nat)
    requires x < n && y < n
    ensures MostSplits(true, x) + MostSplits(false, y) < MostSplits(true, n)
  {
    MostSplitsMono(true, x, n - 1);
    MostSplitsMono(false, y, n - 1);
    assert Fib(n + 2) == Fib(n + 1) + Fib(n);
  }

  /** With something included, one of the parts has two less. */
  lemma SplitSomething(n: nat, x: nat, y: nat)
    requires x < n && y < n && (x + 1 < n || y + 1 < n)
    ensures MostSplits(false, x) + MostSplits(false, y) < MostSplits(false, n)
  {
    var low, high := if x < y then x else y, if x < y then y else x;
    MostSplitsMono(false, high, n - 1);
    MostSplitsMono(false, low, n - 2);
    assert Fib(n + 1) == Fib(n) + Fib(n - 1);
  }

  lemma {:induction false} MostSplitsSum(m: nat, n: nat)
    ensures MostSplits(true, m) + MostSplits(true, n) <= MostSplits(true, m + n)
    decreases n
  {
    if n > 0 {
      MostSplitsSum(m, n - 1);
      FibMono(n, m + n);
      assert Fib(n + 2) == Fib(n + 1) + Fib(n) && Fib(m + n + 2) == Fib(m + n + 1) + Fib(m + n);
    } else {
      assert Fib(2) == 1;
    }
  }

  /** No item can, by depth-first splitting from its place, push the queue past `capacity`. */
  ghost predicate Fits(items: seq<WorkItem>, capacity: nat) {
    forall k :: 0 <= k < |items| ==> k + |items[k].und| <= capacity
  }
}
