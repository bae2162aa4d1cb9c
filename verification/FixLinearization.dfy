/** Making an order topologically valid (FixLinearization). */
module FixLinearizations {
  import opened Positions
  import opened Graphs
  import opened GroupLists

  /** Put `x` before `s`, then move it back until it is after all its ancestors. */
  ghost function Placed(g: Graph, x: nat, s: seq<nat>): seq<nat> {
    if g.Ancestors(x) * Elements(s) == {} then [x] + s else [s[0]] + Placed(g, x, s[1..])
  }

  ghost function Fixed(g: Graph, lin: seq<nat>): seq<nat> {
    if lin == [] then [] else Placed(g, lin[0], Fixed(g, lin[1..]))
  }

  // ---------- What is promised ----------

  lemma {:induction false} PlacedShape(g: Graph, x: nat, s: seq<nat>)
    requires Distinct([x] + s)
    ensures Distinct(Placed(g, x, s)) && Elements(Placed(g, x, s)) == {x} + Elements(s)
    ensures |Placed(g, x, s)| == |s| + 1
  {
    ElementsConcat([x], s);
    assert Elements([x]) == {x};
    if g.Ancestors(x) * Elements(s) != {} {
      var rest := s[1..];
      assert s == [s[0]] + rest;
      DistinctSplit([x], s);
      DistinctSplit([s[0]], rest);
      ElementsConcat([s[0]], rest);
      DistinctSplit([x], rest);
      assert Elements([s[0]]) == {s[0]};
      PlacedShape(g, x, rest);
      DistinctSplit([s[0]], Placed(g, x, rest));
      ElementsConcat([s[0]], Placed(g, x, rest));
    }
  }

  lemma {:induction false} PlacedTopological(g: Graph, x: nat, s: seq<nat>)
    requires g.WellFormed() && g.Acyclic() && Distinct([x] + s) && Elements([x] + s) <= g.used && g.Topological(s)
    ensures g.Topological(Placed(g, x, s))
  {
    var anc := g.Ancestors(x);
    ElementsConcat([x], s);
    assert Elements([x]) == {x} && x in g.used;
    if anc * Elements(s) == {} {
      forall a, b | a in [x] && b in s ensures b !in g.Ancestors(a) {
        assert b in Elements(s);
      }
      assert g.Topological([x]);
      TopologicalConcat(g, [x], s);
    } else {
      var f, rest := s[0], s[1..];
      assert s == [f] + rest;
      ElementsConcat([f], rest);
      assert Elements([f]) == {f};
      DistinctSplit([x], s);
      DistinctSplit([f], rest);
      DistinctSplit([x], rest);
      ElementsConcat([x], rest);
      TopologicalConcat(g, [f], rest);
      PlacedShape(g, x, rest);
      PlacedTopological(g, x, rest);
      AncestorAfter(g, x, f, rest);
      forall a, b | a in [f] && b in Placed(g, x, rest) ensures b !in g.Ancestors(a) {
        assert b in Elements(Placed(g, x, rest));
      }
      assert g.Topological([f]);
      TopologicalConcat(g, [f], Placed(g, x, rest));
    }
  }

  /** What is before an ancestor of `x` does not depend on `x`. */
  lemma AncestorAfter(g: Graph, x: nat, f: nat, rest: seq<nat>)
    requires g.WellFormed() && g.Acyclic() && x in g.used && f in g.used && f != x
    requires NoBack(g, [f], rest) && g.Ancestors(x) * ({f} + Elements(rest)) != {}
    ensures x !in g.Ancestors(f)
  {
    var a :| a in g.Ancestors(x) * ({f} + Elements(rest));
    assert f in [f];
    assert a in g.Ancestors(f) ==> a == f;
    assert x in g.Ancestors(f) ==> g.Ancestors(x) <= g.Ancestors(f);
  }

  /** The result is a topologically valid order of the same transactions. */
  lemma {:induction false} FixedTopological(g: Graph, lin: seq<nat>)
    requires g.WellFormed() && g.Acyclic() && Distinct(lin) && Elements(lin) <= g.used
    ensures Distinct(Fixed(g, lin)) && Elements(Fixed(g, lin)) == Elements(lin) && |Fixed(g, lin)| == |lin|
    ensures g.Topological(Fixed(g, lin))
  {
    if lin != [] {
      var x, rest := lin[0], lin[1..];
      assert lin == [x] + rest;
      ElementsConcat([x], rest);
      DistinctSplit([x], rest);
      FixedTopological(g, rest);
      DistinctSplit([x], Fixed(g, rest));
      ElementsConcat([x], Fixed(g, rest));
      PlacedShape(g, x, Fixed(g, rest));
      PlacedTopological(g, x, Fixed(g, rest));
      assert Elements([x]) == {x};
    }
  }

  /** An order that is valid already is kept. */
  lemma {:induction false} FixedKeepsValid(g: Graph, lin: seq<nat>)
    requires g.Topological(lin)
    ensures Fixed(g, lin) == lin
  {
    if lin != [] {
      var x, rest := lin[0], lin[1..];
      assert lin == [x] + rest;
      TopologicalConcat(g, [x], rest);
      FixedKeepsValid(g, rest);
      forall b | b in Elements(rest) ensures b !in g.Ancestors(x) {
        assert x in [x];
      }
      assert g.Ancestors(x) * Elements(rest) == {};
    }
  }

  /** A transaction moves no further than it has to, right after the last of its ancestors, and the
      others keep their order. */
  lemma {:induction false} PlacedNoFurther(g: Graph, x: nat, s: seq<nat>) returns (k: nat)
    ensures k <= |s| && Placed(g, x, s) == s[..k] + [x] + s[k..]
    ensures k > 0 ==> s[k - 1] in g.Ancestors(x)
    ensures g.Ancestors(x) * Elements(s[k..]) == {}
  {
    if g.Ancestors(x) * Elements(s) == {} {
      k := 0;
      assert s[..0] + [x] + s[0..] == [x] + s;
      assert s[0..] == s;
    } else {
      var rest := s[1..];
      var k' := PlacedNoFurther(g, x, rest);
      k := k' + 1;
      assert s[..k] == [s[0]] + rest[..k'] && s[k..] == rest[k'..];
      if k' == 0 {
        assert rest[0..] == rest;
        assert s == [s[0]] + rest;
        ElementsConcat([s[0]], rest);
        assert Elements([s[0]]) == {s[0]};
      }
    }
  }

  // ---------- In place ----------

  /** The elements between `i` and the hole at `j` have moved one place to the front. */
  ghost predicate Shifted(a: seq<nat>, i: nat, j: nat, front: seq<nat>, s: seq<nat>) {
    && |front| == i <= j < |a| && |a| == i + 1 + |s|
    && a[..i] == front && a[i..j] == s[..j - i] && a[j + 1..] == s[j - i..]
  }

  lemma ShiftStart(a: seq<nat>, i: nat)
    requires i < |a|
    ensures Shifted(a, i, i, a[..i], a[i + 1..])
  {
  }

  lemma ShiftNext(a: seq<nat>, i: nat, j: nat, front: seq<nat>, s: seq<nat>)
    requires Shifted(a, i, j, front, s) && j - i < |s|
    ensures a[j + 1] == s[j - i] && Shifted(a[j := a[j + 1]], i, j + 1, front, s)
  {
    var h, b := j - i, a[j := a[j + 1]];
    assert a[j + 1] == a[j + 1..][0] == s[h];
    assert b[i..j] == a[i..j];
    assert b[i..j + 1] == b[i..j] + [s[h]];
    assert b[j + 2..] == a[j + 1..][1..];
  }

  lemma ShiftEnd(a: seq<nat>, i: nat, j: nat, front: seq<nat>, s: seq<nat>, x: nat)
    requires Shifted(a, i, j, front, s)
    ensures a[j := x][..i] == front && a[j := x][i..] == s[..j - i] + ([x] + s[j - i..])
  {
    var b := a[j := x];
    assert b[i..] == b[i..j] + ([x] + b[j + 1..]);
    assert b[i..j] == a[i..j] && b[j + 1..] == a[j + 1..];
  }

  /** `x` has passed the first `h` elements of `s`; these of its ancestors are still ahead. */
  ghost predicate Placing(g: Graph, x: nat, s: seq<nat>, h: nat, ahead: set<nat>) {
    && h <= |s| && ahead == Elements(s[h..]) * g.Ancestors(x)
    && Placed(g, x, s) == s[..h] + Placed(g, x, s[h..])
  }

  lemma PlacingStart(g: Graph, x: nat, s: seq<nat>)
    ensures Placing(g, x, s, 0, Elements(s) * g.Ancestors(x))
  {
    assert s[..0] == [] && s[0..] == s;
  }

  lemma PlacingNext(g: Graph, x: nat, s: seq<nat>, h: nat, ahead: set<nat>)
    requires Distinct(s) && Placing(g, x, s, h, ahead) && ahead != {}
    ensures h < |s| && Placing(g, x, s, h + 1, ahead - {s[h]})
  {
    SomethingLeft(s[h..], ahead);
    DropFirst(s, h, g.Ancestors(x));
    PlacedNext(g, x, s, h);
  }

  lemma PlacingEnd(g: Graph, x: nat, s: seq<nat>, h: nat)
    requires Placing(g, x, s, h, {})
    ensures Placed(g, x, s) == s[..h] + ([x] + s[h..])
  {
    assert g.Ancestors(x) * Elements(s[h..]) == {};
  }

  /** Move the element at `i` back until it is after all its ancestors. `done` are the elements
      after it. */
  method Place(g: Graph, linearization: array<nat>, i: nat, done: set<nat>)
    requires i < linearization.Length && done == Elements(linearization[i + 1..])
    requires Distinct(linearization[i + 1..])
    modifies linearization
    ensures linearization[..i] == old(linearization[..i])
    ensures linearization[i..] == Placed(g, old(linearization[i]), old(linearization[i + 1..]))
  {
    ghost var a := linearization[..];
    ghost var s, front := a[i + 1..], a[..i];
    assert s == linearization[i + 1..] && front == linearization[..i];
    ShiftStart(a, i);
    var elem, j := linearization[i], i;
    ghost var h := 0;
    PlacingStart(g, elem, s);
    // Ancestors that come too late go in front of it.
    var placeBefore := done * g.Ancestors(elem);
    while placeBefore != {}
      invariant i <= j < linearization.Length && linearization[..] == a && Shifted(a, i, j, front, s)
      invariant h == j - i && Placing(g, elem, s, h, placeBefore)
      decreases linearization.Length - j
    {
      PlacingNext(g, elem, s, h, placeBefore);
      ShiftNext(a, i, j, front, s);
      var toSwap := linearization[j + 1];
      placeBefore := placeBefore - {toSwap};
      linearization[j] := toSwap;
      a, h := a[j := toSwap], h + 1;
      j := j + 1;
    }
    // Put elem in its final position.
    PlacingEnd(g, elem, s, h);
    ShiftEnd(a, i, j, front, s, elem);
    linearization[j] := elem;
    ghost var b := a[j := elem];
    assert linearization[..] == b;
    assert linearization[..i] == b[..i] && linearization[i..] == b[i..];
  }

  lemma SomethingLeft(left: seq<nat>, placeBefore: set<nat>)
    requires placeBefore <= Elements(left) && placeBefore != {}
    ensures |left| > 0
  {
    var a :| a in placeBefore;
    assert a in Elements(left);
  }

  lemma DropFirst(s: seq<nat>, h: nat, anc: set<nat>)
    requires h < |s| && Distinct(s)
    ensures s[h..][1..] == s[h + 1..]
    ensures Elements(s[h + 1..]) * anc == Elements(s[h..]) * anc - {s[h]}
  {
    assert s[h..] == [s[h]] + s[h + 1..];
    assert s == s[..h] + s[h..];
    DistinctSplit(s[..h], s[h..]);
    DistinctSplit([s[h]], s[h + 1..]);
    ElementsConcat([s[h]], s[h + 1..]);
    assert Elements([s[h]]) == {s[h]};
  }

  lemma PlacedNext(g: Graph, x: nat, s: seq<nat>, h: nat)
    requires h < |s| && g.Ancestors(x) * Elements(s[h..]) != {}
    requires Placed(g, x, s) == s[..h] + Placed(g, x, s[h..])
    ensures Placed(g, x, s) == s[..h + 1] + Placed(g, x, s[h + 1..])
  {
    var rest := s[h..];
    assert rest[1..] == s[h + 1..] && rest[0] == s[h];
    assert Placed(g, x, rest) == [rest[0]] + Placed(g, x, rest[1..]);
    MoveOver(s, h, Placed(g, x, s[h + 1..]));
  }

  lemma MoveOver(s: seq<nat>, h: nat, after: seq<nat>)
    requires h < |s|
    ensures s[..h] + ([s[h]] + after) == s[..h + 1] + after
  {
  }

  /** Make a linearization topological, retaining its ordering where possible. */
  method FixLinearization(g: Graph, linearization: array<nat>)
    requires g.WellFormed() && g.Acyclic()
    requires Distinct(linearization[..]) && Elements(linearization[..]) <= g.used
    modifies linearization
    ensures linearization[..] == Fixed(g, old(linearization[..]))
  {
    ghost var lin := linearization[..];
    var len := linearization.Length;
    var done: set<nat> := {};
    var i := len;
    assert lin[len..] == [];
    // Iterate over the elements from back to front.
    while i > 0
      invariant 0 <= i <= len && linearization[..i] == lin[..i] && linearization[i..] == Fixed(g, lin[i..])
      invariant done == Elements(linearization[i..]) && Distinct(linearization[i..])
    {
      i := i - 1;
      NextFixed(g, lin, i);
      var elem := linearization[i];
      assert elem == linearization[..i + 1][i];
      Place(g, linearization, i, done);
      done := done + {elem};
    }
    assert lin[0..] == lin && linearization[0..] == linearization[..];
  }

  lemma NextFixed(g: Graph, lin: seq<nat>, i: nat)
    requires g.WellFormed() && g.Acyclic() && Distinct(lin) && Elements(lin) <= g.used && i < |lin|
    ensures Fixed(g, lin[i..]) == Placed(g, lin[i], Fixed(g, lin[i + 1..]))
    ensures Distinct(Fixed(g, lin[i..])) && Elements(Fixed(g, lin[i..])) == {lin[i]} + Elements(Fixed(g, lin[i + 1..]))
  {
    assert lin == lin[..i] + lin[i..];
    assert lin[i..] == [lin[i]] + lin[i + 1..];
    assert lin[i..][1..] == lin[i + 1..];
    DistinctSplit(lin[..i], lin[i..]);
    ElementsConcat(lin[..i], lin[i..]);
    DistinctSplit([lin[i]], lin[i + 1..]);
    ElementsConcat([lin[i]], lin[i + 1..]);
    assert Elements([lin[i]]) == {lin[i]};
    FixedTopological(g, lin[i..]);
    FixedTopological(g, lin[i + 1..]);
  }
}
