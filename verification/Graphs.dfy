/** The value of a dependency graph: transactions with a fee, a size and their (transitive)
    ancestor and descendant sets. The class that builds such values is in DepGraph.dfy. */
module Graphs {
  import opened FeeFracs
  import opened Positions

  datatype Entry = Entry(feerate: FeeFrac, ancestors: set<nat>, descendants: set<nat>)

  datatype Graph = Graph(entries: seq<Entry>, used: set<nat>) {

    function FeeRate(i: nat): FeeFrac {
      if i < |entries| then entries[i].feerate else FeeFrac(0, 0)
    }

    function Ancestors(i: nat): set<nat> {
      if i < |entries| then entries[i].ancestors else {}
    }

    function Descendants(i: nat): set<nat> {
      if i < |entries| then entries[i].descendants else {}
    }

    /** Aggregate fee and size of a set of positions. */
    function SetRate(s: set<nat>): FeeFrac {
      RateBelow(s, |entries|)
    }

    /** Aggregate over the positions of `s` below `n`. */
    function RateBelow(s: set<nat>, n: nat): FeeFrac {
      if n == 0 then FeeFrac(0, 0)
      else if n - 1 in s then RateBelow(s, n - 1).Plus(FeeRate(n - 1))
      else RateBelow(s, n - 1)
    }

    /** Aggregate fee and size of an order. */
    function SeqRate(s: seq<nat>): FeeFrac {
      if s == [] then FeeFrac(0, 0) else FeeRate(s[0]).Plus(SeqRate(s[1..]))
    }

    /** The used positions index entries, and on them the ancestor sets are reflexive and
        transitive and the descendant sets are their converse. */
    ghost predicate WellFormed() {
      && (forall i :: i in used ==> i < |entries|)
      && (forall i :: i in used ==> i in Ancestors(i) && Ancestors(i) <= used && Descendants(i) <= used)
      && (forall i, j :: i in used && j in used ==> (j in Ancestors(i) <==> i in Descendants(j)))
      && (forall i, j :: i in used && j in Ancestors(i) ==> Ancestors(j) <= Ancestors(i))
    }

    /** No two transactions are ancestors of each other. */
    ghost predicate Acyclic() {
      forall i, j :: i in used && j in used && i in Ancestors(j) && j in Ancestors(i) ==> i == j
    }

    /** Every transaction has a positive size, so no non-empty set has an empty feerate. */
    ghost predicate Sized() {
      forall i :: i in used ==> FeeRate(i).size > 0
    }

    /** What the linearization algorithms are given. */
    ghost predicate Cluster() {
      WellFormed() && Acyclic() && Sized()
    }

    /** `s` contains, with every transaction, those of its ancestors that are in `todo`. */
    ghost predicate ClosedIn(s: set<nat>, todo: set<nat>) {
      forall i :: i in s ==> Ancestors(i) * todo <= s
    }

    /** A topologically valid order of all transactions of the graph. */
    ghost predicate Linearization(lin: seq<nat>) {
      && Distinct(lin)
      && Elements(lin) == used
      && Topological(lin)
    }

    /** No transaction comes before one of its ancestors. */
    ghost predicate Topological(lin: seq<nat>) {
      forall i, j :: 0 <= i < j < |lin| ==> lin[j] !in Ancestors(lin[i])
    }
  }

  /** A set of transactions with its aggregate feerate. */
  datatype SetInfo = SetInfo(transactions: set<nat>, feerate: FeeFrac) {
    ghost predicate Of(g: Graph) {
      feerate == g.SetRate(transactions)
    }
  }

  lemma {:induction false} RateBelowUnion(g: Graph, a: set<nat>, b: set<nat>, n: nat)
    requires a !! b
    ensures g.RateBelow(a + b, n) == g.RateBelow(a, n).Plus(g.RateBelow(b, n))
  {
    if n > 0 {
      RateBelowUnion(g, a, b, n - 1);
    }
  }

  lemma SetRateUnion(g: Graph, a: set<nat>, b: set<nat>)
    requires a !! b
    ensures g.SetRate(a + b) == g.SetRate(a).Plus(g.SetRate(b))
  {
    RateBelowUnion(g, a, b, |g.entries|);
  }

  lemma {:induction false} RateBelowSingleton(g: Graph, x: nat, n: nat)
    ensures g.RateBelow({x}, n) == if x < n then g.FeeRate(x) else FeeFrac(0, 0)
  {
    if n > 0 {
      RateBelowSingleton(g, x, n - 1);
    }
  }

  lemma SetRateSingleton(g: Graph, x: nat)
    ensures g.SetRate({x}) == g.FeeRate(x)
  {
    RateBelowSingleton(g, x, |g.entries|);
  }

  lemma SetRateAdd(g: Graph, s: set<nat>, x: nat)
    requires x !in s
    ensures g.SetRate(s + {x}) == g.SetRate(s).Plus(g.FeeRate(x))
  {
    SetRateUnion(g, s, {x});
    SetRateSingleton(g, x);
  }

  lemma SetRateRemove(g: Graph, s: set<nat>, x: nat)
    requires x in s
    ensures g.SetRate(s) == g.SetRate(s - {x}).Plus(g.FeeRate(x))
  {
    assert (s - {x}) + {x} == s;
    SetRateAdd(g, s - {x}, x);
  }

  lemma {:induction false} RateBelowEmpty(g: Graph, n: nat)
    ensures g.RateBelow({}, n) == FeeFrac(0, 0)
  {
    if n > 0 {
      RateBelowEmpty(g, n - 1);
    }
  }

  lemma SetRateEmpty(g: Graph)
    ensures g.SetRate({}) == FeeFrac(0, 0)
  {
    RateBelowEmpty(g, |g.entries|);
  }

  /** Inclusion and exclusion. */
  lemma SetRateSplit(g: Graph, a: set<nat>, b: set<nat>)
    ensures g.SetRate(a) == g.SetRate(a * b).Plus(g.SetRate(a - b))
  {
    assert a == (a * b) + (a - b);
    SetRateUnion(g, a * b, a - b);
  }

  lemma {:induction false} RateBelowSize(g: Graph, s: set<nat>, n: nat)
    requires g.Sized() && s <= g.used
    ensures g.RateBelow(s, n).size >= 0
    ensures (exists x :: x in s && x < n) ==> g.RateBelow(s, n).size > 0
  {
    if n > 0 {
      RateBelowSize(g, s, n - 1);
    }
  }

  lemma SetRateSize(g: Graph, s: set<nat>)
    requires g.WellFormed() && g.Sized() && s <= g.used
    ensures g.SetRate(s).size >= 0
    ensures s != {} <==> g.SetRate(s).size > 0
  {
    RateBelowSize(g, s, |g.entries|);
    SetRateEmpty(g);
  }

  lemma SetRateMono(g: Graph, a: set<nat>, b: set<nat>)
    requires g.WellFormed() && g.Sized() && b <= g.used && a <= b
    ensures 0 <= g.SetRate(a).size <= g.SetRate(b).size
    ensures a != b <==> g.SetRate(a).size < g.SetRate(b).size
  {
    SetRateSplit(g, b, a);
    assert b * a == a;
    if b - a == {} {
      assert forall x :: x in b ==> x !in a ==> x in b - a;
      assert b == a;
    }
    SetRateSize(g, b - a);
    SetRateSize(g, a);
  }

  lemma {:induction false} SeqRateConcat(g: Graph, a: seq<nat>, b: seq<nat>)
    ensures g.SeqRate(a + b) == g.SeqRate(a).Plus(g.SeqRate(b))
  {
    if a == [] {
      assert a + b == b;
    } else {
      assert (a + b)[1..] == a[1..] + b;
      SeqRateConcat(g, a[1..], b);
    }
  }

  lemma {:induction false} SeqRateElements(g: Graph, s: seq<nat>)
    requires Distinct(s)
    ensures g.SeqRate(s) == g.SetRate(Elements(s))
  {
    if s != [] {
      assert Elements(s) == {s[0]} + Elements(s[1..]);
      assert s[0] !in Elements(s[1..]);
      SeqRateElements(g, s[1..]);
      SetRateUnion(g, {s[0]}, Elements(s[1..]));
      SetRateSingleton(g, s[0]);
    } else {
      assert Elements(s) == {};
      SetRateEmpty(g);
    }
  }

  lemma {:induction false} SeqRateSize(g: Graph, s: seq<nat>)
    requires g.Sized() && Elements(s) <= g.used
    ensures g.SeqRate(s).size >= 0
    ensures s != [] ==> g.SeqRate(s).size > 0
  {
    if s != [] {
      assert Elements(s) == {s[0]} + Elements(s[1..]);
      assert s[0] in g.used;
      SeqRateSize(g, s[1..]);
    }
  }
}
