/** Sets of transaction positions and orders over them.

  `SetType` in the source is a bit set iterated from its lowest to its highest position. Here it
  is a finite set of naturals, with `First` and `Last` as the two ends of that order. */
module Positions {

  import opened Sets

  /** Some element of `s` is no higher than any other, and some no lower. */
  lemma {:induction false} Ends(s: set<nat>) returns (lo: nat, hi: nat)
    requires s != {}
    ensures lo in s && hi in s
    ensures forall x :: x in s ==> lo <= x <= hi
    decreases |s|
  {
    lo := Witness(s);
    hi := lo;
    var rest := s - {lo};
    if rest == {} {
      forall x | x in s ensures x == lo { assert x !in rest; }
    } else {
      var lo', hi' := Ends(rest);
      forall x | x in s ensures x == lo || lo' <= x <= hi' { assert x == lo || x in rest; }
      hi := if hi < hi' then hi' else hi;
      lo := if lo' < lo then lo' else lo;
    }
  }

  lemma FirstExists(s: set<nat>)
    requires s != {}
    ensures exists m :: m in s && forall x :: x in s ==> m <= x
  {
    var _, _ := Ends(s);
  }

  lemma LastExists(s: set<nat>)
    requires s != {}
    ensures exists m :: m in s && forall x :: x in s ==> x <= m
  {
    var _, _ := Ends(s);
  }

  /** The lowest position of a non-empty set. */
  function First(s: set<nat>): (m: nat)
    requires s != {}
    ensures m in s && forall x :: x in s ==> m <= x
  {
    FirstExists(s);
    var m :| m in s && forall x :: x in s ==> m <= x;
    m
  }

  /** The highest position of a non-empty set. */
  function Last(s: set<nat>): (m: nat)
    requires s != {}
    ensures m in s && forall x :: x in s ==> x <= m
  {
    LastExists(s);
    var m :| m in s && forall x :: x in s ==> x <= m;
    m
  }

  /** The positions occurring in an order. */
  function Elements(s: seq<nat>): set<nat> {
    set x | x in s
  }

  ghost predicate Distinct(s: seq<nat>) {
    forall i, j :: 0 <= i < j < |s| ==> s[i] != s[j]
  }

  /** What remains of an order once only the positions of `keep` are left. */
  function Restrict(s: seq<nat>, keep: set<nat>): (r: seq<nat>)
    ensures Elements(r) == Elements(s) * keep
  {
    if s == [] then [] else
      var rest := Restrict(s[1..], keep);
      assert Elements(s) == {s[0]} + Elements(s[1..]);
      assert Elements([s[0]] + rest) == {s[0]} + Elements(rest);
      if s[0] in keep then [s[0]] + rest else rest
  }

  lemma ElementsConcat(a: seq<nat>, b: seq<nat>)
    ensures Elements(a + b) == Elements(a) + Elements(b)
  {
  }

  lemma RestrictConcat(a: seq<nat>, b: seq<nat>, keep: set<nat>)
    ensures Restrict(a + b, keep) == Restrict(a, keep) + Restrict(b, keep)
  {
    if a == [] {
      assert a + b == b;
    } else {
      assert (a + b)[1..] == a[1..] + b;
      RestrictConcat(a[1..], b, keep);
    }
  }

  lemma RestrictDistinct(s: seq<nat>, keep: set<nat>)
    requires Distinct(s)
    ensures Distinct(Restrict(s, keep))
  {
    if s != [] {
      RestrictDistinct(s[1..], keep);
      assert s[0] !in Elements(s[1..]);
      assert s[0] !in Elements(Restrict(s[1..], keep));
    }
  }

  lemma RestrictTwice(s: seq<nat>, a: set<nat>, b: set<nat>)
    ensures Restrict(Restrict(s, a), b) == Restrict(s, a * b)
  {
    if s != [] {
      RestrictTwice(s[1..], a, b);
      if s[0] in a {
        assert ([s[0]] + Restrict(s[1..], a))[1..] == Restrict(s[1..], a);
      }
    }
  }

  lemma RestrictAll(s: seq<nat>, keep: set<nat>)
    requires Elements(s) <= keep
    ensures Restrict(s, keep) == s
  {
    if s != [] {
      assert s == [s[0]] + s[1..];
      assert forall x :: x in s[1..] ==> x in Elements(s);
      RestrictAll(s[1..], keep);
    }
  }

  lemma RestrictNone(s: seq<nat>, keep: set<nat>)
    requires Elements(s) !! keep
    ensures Restrict(s, keep) == []
  {
    if s != [] {
      assert Elements(s) == {s[0]} + Elements(s[1..]);
      RestrictNone(s[1..], keep);
    }
  }

  lemma RestrictSame(s: seq<nat>, a: set<nat>, b: set<nat>)
    requires Elements(s) * a == Elements(s) * b
    ensures Restrict(s, a) == Restrict(s, b)
  {
    if s != [] {
      assert Elements(s) == {s[0]} + Elements(s[1..]);
      forall x | x in Elements(s) ensures x in a <==> x in b {
        assert x in Elements(s) * a <==> x in Elements(s) * b;
      }
      assert s[0] in Elements(s);
      RestrictSame(s[1..], a, b);
    }
  }

  lemma DistinctSplit(a: seq<nat>, b: seq<nat>)
    ensures Distinct(a + b) <==> Distinct(a) && Distinct(b) && Elements(a) !! Elements(b)
  {
    var c := a + b;
    if Distinct(c) {
      forall i, j | 0 <= i < j < |a| ensures a[i] != a[j] { assert c[i] != c[j]; }
      forall i, j | 0 <= i < j < |b| ensures b[i] != b[j] { assert c[|a| + i] != c[|a| + j]; }
      forall i, j | 0 <= i < |a| && 0 <= j < |b| ensures a[i] != b[j] { assert c[i] != c[|a| + j]; }
    }
    if Distinct(a) && Distinct(b) && Elements(a) !! Elements(b) {
      forall i, j | 0 <= i < j < |c| ensures c[i] != c[j] {
        if i < |a| <= j {
          assert c[i] in Elements(a) && c[j] in Elements(b);
        }
      }
    }
  }

  lemma DistinctLength(s: seq<nat>)
    requires Distinct(s)
    ensures |Elements(s)| == |s|
  {
    if s != [] {
      assert s == [s[0]] + s[1..];
      DistinctLength(s[1..]);
      assert s[0] !in Elements(s[1..]);
      assert Elements(s) == {s[0]} + Elements(s[1..]);
    } else {
      assert Elements(s) == {};
    }
  }
}
