/** How many steps it takes to go back to an ancestor: the most it can be, up to a power of two blocks. */
module SkipSteps {
  import opened Powers
  import opened BlockIndexes

  // ---------- Relations, opened only where that is asked for ----------

  ghost predicate Asked(h: nat, l: nat, n: nat, k: nat) {
    k == 0
  }

  /** `l` is `h` without its lowest '1' bit. */
  ghost predicate Low(h: nat, l: nat) {
    l <= h && (h > 0 ==> l < h) &&
    forall k {:trigger Asked(h, l, 0, k)} :: Asked(h, l, 0, k) ==> InvertLowestOne(h) == l
  }

  /** The skip pointers at heights `h` and `h - 1` lead to `s` and `p`. */
  ghost predicate SkipsTo(h: nat, s: nat, p: nat) {
    h > 0 && forall k {:trigger Asked(h, s, p, k)} ::
      Asked(h, s, p, k) ==> GetSkipHeight(h) == s && GetSkipHeight(h - 1) == p
  }

  /** Going from `h` to `t` takes `n` steps. */
  ghost predicate Takes(h: nat, t: nat, n: nat) {
    forall k {:trigger Asked(h, t, n, k)} :: Asked(h, t, n, k) ==> Steps(h, t) == n
  }

  lemma LowIs(h: nat, l: nat)
    ensures Low(h, l) <==> InvertLowestOne(h) == l
  {
    assert Asked(h, l, 0, 0);
  }

  lemma SkipsToIs(h: nat, s: nat, p: nat)
    requires h > 0
    ensures SkipsTo(h, s, p) <==> GetSkipHeight(h) == s && GetSkipHeight(h - 1) == p
  {
    assert Asked(h, s, p, 0);
  }

  lemma TakesIs(h: nat, t: nat, n: nat)
    ensures Takes(h, t, n) <==> Steps(h, t) == n
  {
    assert Asked(h, t, n, 0);
  }

  // ---------- How a number ends in binary ----------

  datatype Tail = Odd | Even | Two | Four | Eight

  ghost predicate AskedTail(h: nat, e: Tail, k: nat) {
    k == 0
  }

  /** The number is odd, even, or a multiple of eight; or it ends in a one followed by one or two zeros. */
  ghost predicate Ends(h: nat, e: Tail) {
    (e == Odd ==> h >= 1) && (e == Two ==> h >= 2) && (e == Four ==> h >= 4) &&
    forall k {:trigger AskedTail(h, e, k)} :: AskedTail(h, e, k) ==> EndsIn(h, e)
  }

  ghost predicate EndsIn(h: nat, e: Tail) {
    match e
    case Odd => h % 2 == 1
    case Even => h % 2 == 0
    case Two => h % 4 == 2
    case Four => h % 8 == 4
    case Eight => h % 8 == 0
  }

  ghost function At(g: nat, e: Tail): nat {
    match e
    case Odd => 2 * g + 1
    case Even => 2 * g
    case Two => 4 * g + 2
    case Four => 8 * g + 4
    case Eight => 8 * g
  }

  lemma EndsIs(h: nat, e: Tail)
    ensures Ends(h, e) <==> EndsIn(h, e)
  {
    assert AskedTail(h, e, 0);
  }

  lemma TailOf(h: nat, e: Tail) returns (g: nat)
    requires Ends(h, e)
    ensures h == At(g, e)
  {
    EndsIs(h, e);
    g := h / (if e == Odd || e == Even then 2 else if e == Two then 4 else 8);
  }

  lemma TailAt(g: nat, e: Tail)
    ensures Ends(At(g, e), e)
  {
    match e {
      case Odd => Rest2(2 * g + 1, g, 1);
      case Even => Rest2(2 * g, g, 0);
      case Two => Rest4(4 * g + 2, g, 2);
      case Four => Rest8(8 * g + 4, g, 4);
      case Eight => Rest8(8 * g, g, 0);
    }
    EndsIs(At(g, e), e);
  }

  lemma Rest2(x: nat, q: nat, r: nat)
    requires x == 2 * q + r && r < 2
    ensures x % 2 == r
  {
  }

  lemma Rest4(x: nat, q: nat, r: nat)
    requires x == 4 * q + r && r < 4
    ensures x % 4 == r
  {
  }

  lemma Rest8(x: nat, q: nat, r: nat)
    requires x == 8 * q + r && r < 8
    ensures x % 8 == r
  {
  }

  lemma OddOrEven(h: nat)
    ensures Ends(h, Odd) || Ends(h, Even)
  {
    EndsIs(h, Odd);
    EndsIs(h, Even);
  }

  lemma EvenTails(h: nat)
    requires Ends(h, Even)
    ensures Ends(h, Two) || Ends(h, Four) || Ends(h, Eight)
  {
    var g := TailOf(h, Even);
    OddOrEven(g);
    if Ends(g, Odd) {
      var f := TailOf(g, Odd);
      TailAt(f, Two);
    } else {
      var f := TailOf(g, Even);
      OddOrEven(f);
      var d := TailOf(f, if Ends(f, Odd) then Odd else Even);
      TailAt(d, if Ends(f, Odd) then Four else Eight);
    }
  }

  lemma EvenThenOdd(h: nat)
    requires Ends(h, Even)
    ensures Ends(h + 1, Odd)
  {
    var g := TailOf(h, Even);
    TailAt(g, Odd);
  }

  lemma OddTails(h: nat)
    requires Ends(h, Odd)
    ensures Ends(h - 1, Even)
  {
    var g := TailOf(h, Odd);
    TailAt(g, Even);
  }

  lemma TwoTails(h: nat)
    requires Ends(h, Two)
    ensures Ends(h, Even) && Ends(h - 1, Odd) && Ends(h - 2, Even)
  {
    var g := TailOf(h, Two);
    TailAt(2 * g + 1, Even);
    TailAt(2 * g, Odd);
    TailAt(2 * g, Even);
  }

  lemma FourTails(h: nat)
    requires Ends(h, Four)
    ensures Ends(h, Even) && Ends(h - 1, Odd) && Ends(h - 2, Two) && Ends(h - 4, Eight)
  {
    var g := TailOf(h, Four);
    TailAt(4 * g + 2, Even);
    TailAt(4 * g + 1, Odd);
    TailAt(2 * g, Two);
    TailAt(g, Eight);
  }

  lemma EightTails(h: nat)
    requires Ends(h, Eight)
    ensures Ends(h, Even) && (h > 0 ==> h >= 8 && Ends(h - 2, Two) && Ends(h - 4, Four))
  {
    var g := TailOf(h, Eight);
    TailAt(4 * g, Even);
    if g > 0 {
      TailAt(2 * g - 1, Two);
      TailAt(g - 1, Four);
    }
  }

  // ---------- Lowest bits ----------

  lemma LowOf(h: nat) returns (l: nat)
    ensures Low(h, l)
  {
    l := InvertLowestOne(h);
    LowIs(h, l);
  }

  lemma LowOnly(h: nat, l: nat, m: nat)
    requires Low(h, l) && Low(h, m)
    ensures l == m
  {
    LowIs(h, l);
    LowIs(h, m);
  }

  lemma LowTwice(h: nat, l: nat)
    requires h > 0 && Low(h, l)
    ensures Low(2 * h, 2 * l)
  {
    LowIs(h, l);
    LowIs(2 * h, 2 * l);
    assert 2 * h / 2 == h;
  }

  lemma LowOdd(h: nat)
    requires Ends(h, Odd)
    ensures Low(h, h - 1)
  {
    EndsIs(h, Odd);
    LowIs(h, h - 1);
  }

  lemma LowEven(h: nat, l: nat)
    requires Ends(h, Even) && Low(h, l)
    ensures Ends(l, Even) && (h > 0 ==> l <= h - 2)
  {
    if h > 0 {
      var g := TailOf(h, Even);
      var m := LowOf(g);
      LowTwice(g, m);
      LowOnly(h, l, 2 * m);
      TailAt(m, Even);
    }
  }

  lemma LowTwo(h: nat)
    requires Ends(h, Two)
    ensures Low(h, h - 2)
  {
    var g := TailOf(h, Two);
    TailAt(g, Odd);
    LowOdd(2 * g + 1);
    LowTwice(2 * g + 1, 2 * g);
  }

  lemma LowFour(h: nat)
    requires Ends(h, Four)
    ensures Low(h, h - 4)
  {
    var g := TailOf(h, Four);
    TailAt(g, Two);
    LowTwo(4 * g + 2);
    LowTwice(4 * g + 2, 4 * g);
  }

  lemma LowEight(h: nat, l: nat)
    requires Ends(h, Eight) && h > 0 && Low(h, l)
    ensures Ends(l, Eight) && l <= h - 8
  {
    var g := TailOf(h, Eight);
    var m := LowOf(g);
    LowTwice(g, m);
    LowTwice(2 * g, 2 * m);
    LowTwice(4 * g, 4 * m);
    LowOnly(h, l, 8 * m);
    TailAt(m, Eight);
  }

  lemma BelowEight(h: nat)
    requires Ends(h, Eight) && h > 0
    ensures h >= 8 && Low(h - 2, h - 4) && Low(h - 4, h - 8)
  {
    EightTails(h);
    LowTwo(h - 2);
    LowFour(h - 4);
  }

  // ---------- Single steps ----------

  lemma Jump(h: nat, t: nat, s: nat, p: nat, n: nat)
    requires SkipsTo(h, s, p) && t <= s && t < h && Takes(s, t, n)
    requires s == t || p >= s - 2 || p < t
    ensures Takes(h, t, n + 1)
  {
    SkipsToIs(h, s, p);
    TakesIs(s, t, n);
    TakesIs(h, t, n + 1);
  }

  lemma Walk(h: nat, t: nat, s: nat, p: nat, n: nat)
    requires SkipsTo(h, s, p) && t < h && Takes(h - 1, t, n)
    requires s < t || (s > t && t <= p < s - 2)
    ensures Takes(h, t, n + 1)
  {
    SkipsToIs(h, s, p);
    TakesIs(h - 1, t, n);
    TakesIs(h, t, n + 1);
  }

  /** At most one block above where to go. */
  lemma Almost(h: nat, t: nat)
    requires t <= h <= t + 1
    ensures Takes(h, t, h - t)
  {
    TakesIs(h, t, h - t);
  }

  lemma SkipOfEven(h: nat, l: nat)
    requires Ends(h, Even) && h >= 2 && Low(h, l)
    ensures GetSkipHeight(h) == l
  {
    EndsIs(h, Even);
    LowIs(h, l);
  }

  lemma SkipOfOdd(h: nat, l: nat, m: nat)
    requires Ends(h, Odd) && h >= 3 && Low(h - 1, l) && Low(l, m)
    ensures GetSkipHeight(h) == m + 1
  {
    EndsIs(h, Odd);
    LowIs(h - 1, l);
    LowIs(l, m);
  }

  lemma OddSkip(h: nat, l: nat, m: nat)
    requires Ends(h, Odd) && h >= 3 && Low(h - 1, l) && Low(l, m)
    ensures SkipsTo(h, m + 1, l)
  {
    SkipOfOdd(h, l, m);
    OddTails(h);
    SkipOfEven(h - 1, l);
    SkipsToIs(h, m + 1, l);
  }

  lemma EvenSkip(h: nat, s: nat, l: nat, m: nat)
    requires Ends(h, Even) && h >= 4 && Low(h, s) && Low(h - 2, l) && Low(l, m)
    ensures SkipsTo(h, s, m + 1)
  {
    SkipOfEven(h, s);
    var g := TailOf(h, Even);
    TailAt(g - 1, Odd);
    SkipOfOdd(h - 1, l, m);
    SkipsToIs(h, s, m + 1);
  }

  // ---------- One or two bits above ----------

  /** `c` is even, and `t` is between it and `b`, which has one bit less. */
  ghost predicate Between(c: nat, b: nat, t: nat) {
    Ends(c, Even) && c >= 2 && Low(c, b) && b <= t < c
  }

  /** The lowest bit above `c`. */
  lemma FromNext(c: nat, b: nat, t: nat, m: nat) returns (n: nat)
    requires Between(c, b, t) && Takes(c, t, m)
    ensures Takes(c + 1, t, n) && (n == m + 1 || (t <= b + 1 && n <= 2))
    ensures b == 0 && t <= 1 ==> n <= 2
  {
    var a := LowOf(b);
    EvenThenOdd(c);
    OddSkip(c + 1, b, a);
    LowEven(c, b);
    LowEven(b, a);
    if a + 1 < t {
      Walk(c + 1, t, a + 1, b, m);
      n := m + 1;
    } else {
      Almost(1, t);
      Jump(c + 1, t, 1, b, 1 - t);
      n := 2 - t;
    }
  }

  /** Two bits above `c`, the lowest one of them, and `t` one of the first two below `c`. */
  lemma FromOddDirect(h: nat, c: nat, b: nat, t: nat)
    requires Ends(h, Odd) && h >= 3 && Low(h - 1, c) && Between(c, b, t) && t <= b + 1
    ensures Takes(h, t, b + 2 - t)
  {
    OddSkip(h, c, b);
    Almost(b + 1, t);
    Jump(h, t, b + 1, c, b + 1 - t);
  }

  /** One bit above `c`, which is not the lowest one. */
  lemma FromEvenOne(h: nat, c: nat, b: nat, t: nat, m: nat) returns (n: nat)
    requires Ends(h, Even) && Low(h, c) && Between(c, b, t) && Takes(c, t, m)
    ensures Takes(h, t, n) && (n == m + 1 || (t <= b + 1 && n <= 3))
  {
    EvenTails(h);
    if Ends(h, Eight) {
      FromEight(h, c, t, m);
      n := m + 1;
    } else if Ends(h, Four) {
      LowFour(h);
      LowOnly(h, c, h - 4);
      n := FromFour(h, b, t, m);
    } else {
      LowTwo(h);
      LowOnly(h, c, h - 2);
      n := FromTwo(h, b, t, m);
    }
  }

  lemma FromEight(h: nat, c: nat, t: nat, m: nat)
    requires Ends(h, Eight) && h > 0 && Low(h, c) && t < c && Takes(c, t, m)
    ensures Takes(h, t, m + 1)
  {
    LowEight(h, c);
    EightTails(h);
    BelowEight(h);
    EvenSkip(h, c, h - 4, h - 8);
    Jump(h, t, c, h - 7, m);
  }

  lemma FromFour(h: nat, b: nat, t: nat, m: nat) returns (n: nat)
    requires Ends(h, Four) && Between(h - 4, b, t) && Takes(h - 4, t, m)
    ensures Takes(h, t, n) && (n == m + 1 || (t <= b + 1 && n <= 3))
  {
    FourTails(h);
    LowFour(h);
    LowTwo(h - 2);
    EvenSkip(h, h - 4, h - 4, b);
    if t <= b + 1 < h - 6 {
      FromOddDirect(h - 1, h - 4, b, t);
      Walk(h, t, h - 4, b + 1, b + 2 - t);
      n := b + 3 - t;
    } else {
      Jump(h, t, h - 4, b + 1, m);
      n := m + 1;
    }
  }

  lemma FromTwo(h: nat, b: nat, t: nat, m: nat) returns (n: nat)
    requires Ends(h, Two) && Between(h - 2, b, t) && Takes(h - 2, t, m)
    ensures Takes(h, t, n) && (n == m + 1 || (t <= b + 1 && n <= 3))
  {
    TwoTails(h);
    LowTwo(h);
    var a := LowOf(b);
    LowEven(h - 2, b);
    LowEven(b, a);
    EvenSkip(h, h - 2, b, a);
    if t <= a + 1 < h - 4 {
      n := FromNext(h - 2, b, t, m);
      Walk(h, t, h - 2, a + 1, n);
      n := n + 1;
    } else {
      Jump(h, t, h - 2, a + 1, m);
      n := m + 1;
    }
  }

  /** Two bits above `c`, the lowest one of them. */
  lemma FromOddTwo(h: nat, c: nat, b: nat, t: nat, m: nat) returns (n: nat)
    requires Ends(h, Odd) && h >= 3 && Low(h - 1, c) && Between(c, b, t) && Takes(c, t, m)
    ensures Takes(h, t, n) && (n == m + 2 || (t <= b + 1 && n <= 2))
  {
    if t <= b + 1 {
      FromOddDirect(h, c, b, t);
      n := b + 2 - t;
    } else {
      OddSkip(h, c, b);
      OddTails(h);
      n := FromEvenOne(h - 1, c, b, t, m);
      Walk(h, t, b + 1, c, n);
      n := n + 1;
    }
  }

  // ---------- Any number of bits above ----------

  /** Turn the lowest `w` '1' bits of a number into '0' bits. */
  ghost function Clear(h: nat, w: nat): (c: nat)
    ensures c <= h
  {
    if w == 0 then h else Clear(InvertLowestOne(h), w - 1)
  }

  /** `c` is `h` without its lowest `w` '1' bits. */
  ghost predicate Over(h: nat, w: nat, c: nat) {
    c <= h && (w == 0 ==> h == c) &&
    forall k {:trigger Asked(h, w, c, k)} :: Asked(h, w, c, k) ==> Clear(h, w) == c
  }

  lemma OverIs(h: nat, w: nat, c: nat)
    ensures Over(h, w, c) <==> Clear(h, w) == c
  {
    assert Asked(h, w, c, 0);
  }

  lemma OverNext(h: nat, w: nat, c: nat) returns (l: nat)
    requires Over(h, w, c) && w > 0
    ensures Low(h, l) && Over(l, w - 1, c)
  {
    l := LowOf(h);
    LowIs(h, l);
    OverIs(h, w, c);
    OverIs(l, w - 1, c);
  }

  lemma OverMore(h: nat, l: nat, w: nat, c: nat)
    requires Low(h, l) && Over(l, w, c)
    ensures Over(h, w + 1, c)
  {
    LowIs(h, l);
    OverIs(l, w, c);
    OverIs(h, w + 1, c);
  }

  /** Each step rids an odd number of two of its bits. */
  lemma {:induction false} FromOdd(h: nat, w: nat, c: nat, b: nat, t: nat, m: nat) returns (n: nat)
    requires Ends(h, Odd) && w > 0 && Over(h, w, c) && Between(c, b, t) && Takes(c, t, m)
    ensures Takes(h, t, n) && (n == m + w / 2 + 1 || (t <= b + 1 && n <= w / 2 + 2))
    decreases h
  {
    var one := OverNext(h, w, c);
    LowOdd(h);
    LowOnly(h, one, h - 1);
    if w == 1 {
      n := FromNext(c, b, t, m);
    } else {
      var two := OverNext(h - 1, w - 1, c);
      if w == 2 {
        n := FromOddTwo(h, c, b, t, m);
      } else {
        n := FromOddMore(h, two, w, c, b, t, m);
      }
    }
  }

  lemma {:induction false} FromOddMore(h: nat, two: nat, w: nat, c: nat, b: nat, t: nat, m: nat) returns (n: nat)
    requires Ends(h, Odd) && w >= 3 && Low(h - 1, two) && Over(two, w - 2, c) && Between(c, b, t) && Takes(c, t, m)
    ensures Takes(h, t, n) && (n == m + w / 2 + 1 || (t <= b + 1 && n <= w / 2 + 2))
    decreases h, 0
  {
    var three := OverNext(two, w - 2, c);
    OddTails(h);
    LowEven(h - 1, two);
    LowEven(two, three);
    EvenThenOdd(three);
    LowOdd(three + 1);
    OverMore(three + 1, three, w - 3, c);
    n := FromOdd(three + 1, w - 2, c, b, t, m);
    OddSkip(h, two, three);
    Jump(h, t, three + 1, two, n);
    n := n + 1;
  }

  /** Numbers with three zeros at the end are rid of one bit by each step. */
  lemma {:induction false} FromEights(h: nat, w: nat, c: nat, t: nat, m: nat)
    requires Ends(h, Eight) && Over(h, w, c) && t < c && Takes(c, t, m)
    ensures Takes(h, t, m + w)
    decreases w
  {
    if w > 0 {
      var l := OverNext(h, w, c);
      LowEight(h, l);
      FromEights(l, w - 1, c, t, m);
      FromEight(h, l, t, m + w - 1);
    }
  }

  /** `n` steps: `k`, and those that `m` are left for; if the target is one of the first two below, at most
      two may be left instead. */
  ghost predicate Spent(n: nat, k: nat, m: nat, near: bool) {
    n <= k + m || (near && n <= k + 2)
  }

  /** Below a number that ends in four are two more bits. */
  lemma BelowFour(h: nat)
    requires Ends(h, Four)
    ensures Low(h, h - 4) && Low(h - 2, h - 4) && Low(h - 1, h - 2)
  {
    FourTails(h);
    LowFour(h);
    LowTwo(h - 2);
    LowOdd(h - 1);
  }

  lemma OverBelowFour(h: nat, w: nat, c: nat)
    requires Ends(h, Four) && w > 0 && Over(h - 4, w - 1, c)
    ensures Over(h - 1, w + 1, c)
  {
    BelowFour(h);
    OverMore(h - 2, h - 4, w - 1, c);
    OverMore(h - 1, h - 2, w, c);
  }

  lemma WalkFour(h: nat, y: nat, t: nat, n: nat)
    requires Ends(h, Four) && h > 4 && Low(h - 4, y) && t <= y && Takes(h - 1, t, n)
    ensures Takes(h, t, n + 1)
  {
    FourTails(h);
    BelowFour(h);
    LowEight(h - 4, y);
    EvenSkip(h, h - 4, h - 4, y);
    Walk(h, t, h - 4, y + 1, n);
  }

  /** Numbers that end in four go to the odd number below first. */
  lemma FromFours(h: nat, w: nat, c: nat, b: nat, t: nat, m: nat) returns (n: nat)
    requires Ends(h, Four) && w >= 2 && Over(h - 4, w - 1, c) && Between(c, b, t) && Takes(c, t, m)
    ensures Takes(h, t, n) && Spent(n, (w + 5) / 2, m, t <= b + 1)
  {
    var y := OverNext(h - 4, w - 1, c);
    OverBelowFour(h, w, c);
    FourTails(h);
    n := FromOdd(h - 1, w + 1, c, b, t, m);
    WalkFour(h, y, t, n);
    n := n + 1;
  }

  lemma WalkTwo(h: nat, y: nat, z: nat, t: nat, n: nat)
    requires Ends(h, Two) && h > 2 && y > 0 && Low(h - 2, y) && Low(y, z) && t <= z && Takes(h - 1, t, n)
    ensures Takes(h, t, n + 1)
  {
    TwoTails(h);
    LowTwo(h);
    LowEven(h - 2, y);
    LowEven(y, z);
    EvenSkip(h, h - 2, y, z);
    Walk(h, t, h - 2, z + 1, n);
  }

  /** Likewise those that end in two, unless only two bits are left. */
  lemma FromTwos(h: nat, w: nat, c: nat, b: nat, t: nat, m: nat) returns (n: nat)
    requires Ends(h, Two) && w >= 3 && Over(h - 2, w - 1, c) && Between(c, b, t) && Takes(c, t, m)
    ensures Takes(h, t, n) && Spent(n, w / 2 + 2, m, t <= b + 1)
  {
    var y := OverNext(h - 2, w - 1, c);
    var z := OverNext(y, w - 2, c);
    TwoTails(h);
    LowOdd(h - 1);
    OverMore(h - 1, h - 2, w - 1, c);
    n := FromOdd(h - 1, w, c, b, t, m);
    WalkTwo(h, y, z, t, n);
    n := n + 1;
  }

  lemma FromEvenTwo(h: nat, c: nat, b: nat, t: nat, m: nat) returns (n: nat)
    requires Ends(h, Two) && Low(h - 2, c) && Between(c, b, t) && Takes(c, t, m)
    ensures Takes(h, t, n) && Spent(n, 3, m, t <= b + 1)
  {
    TwoTails(h);
    LowTwo(h);
    EvenSkip(h, h - 2, c, b);
    if t <= b + 1 < h - 4 {
      FromOddDirect(h - 1, c, b, t);
      Walk(h, t, h - 2, b + 1, b + 2 - t);
      n := b + 3 - t;
    } else {
      n := FromEvenOne(h - 2, c, b, t, m);
      Jump(h, t, h - 2, b + 1, n);
      n := n + 1;
    }
  }

  /** The most steps to be rid of `w` bits. */
  ghost function Cost(h: nat, w: nat): nat {
    if w == 0 then 0
    else if Ends(h, Odd) then w / 2 + 1
    else if w == 1 then 1
    else if Ends(h, Eight) then w
    else if Ends(h, Four) then (w + 5) / 2
    else w / 2 + 2
  }

  lemma FromAny(h: nat, w: nat, c: nat, b: nat, t: nat, m: nat) returns (n: nat)
    requires Over(h, w, c) && Between(c, b, t) && Takes(c, t, m)
    ensures Takes(h, t, n) && Spent(n, Cost(h, w), m, t <= b + 1)
  {
    if w == 0 {
      n := m;
    } else if Ends(h, Odd) {
      n := FromOdd(h, w, c, b, t, m);
    } else {
      OddOrEven(h);
      var l := OverNext(h, w, c);
      if w == 1 {
        n := FromEvenOne(h, c, b, t, m);
      } else if Ends(h, Eight) {
        FromEights(h, w, c, t, m);
        n := m + w;
      } else {
        n := FromEven(h, l, w, c, b, t, m);
      }
    }
  }

  lemma FromEven(h: nat, l: nat, w: nat, c: nat, b: nat, t: nat, m: nat) returns (n: nat)
    requires Ends(h, Even) && !Ends(h, Eight) && w >= 2 && Low(h, l) && Over(l, w - 1, c)
    requires Between(c, b, t) && Takes(c, t, m)
    ensures Takes(h, t, n) && Spent(n, if Ends(h, Four) then (w + 5) / 2 else w / 2 + 2, m, t <= b + 1)
  {
    EvenTails(h);
    if Ends(h, Four) {
      LowFour(h);
      LowOnly(h, l, h - 4);
      n := FromFours(h, w, c, b, t, m);
    } else {
      LowTwo(h);
      LowOnly(h, l, h - 2);
      if w == 2 {
        var y := OverNext(l, 1, c);
        n := FromEvenTwo(h, c, b, t, m);
      } else {
        n := FromTwos(h, w, c, b, t, m);
      }
    }
  }

  // ---------- Blocks of numbers that agree but for their lowest bits ----------

  /** The lowest `k` bits are zeros. */
  ghost predicate Aligned(c: nat, k: nat) {
    k == 0 || (Ends(c, Even) && Aligned(c / 2, k - 1))
  }

  /** The upper half of such a block begins with one more bit. */
  lemma {:induction false} Middle(b: nat, k: nat)
    requires Aligned(b, k + 1)
    ensures Aligned(b, k) && Aligned(b + Pow2(k), k) && Low(b + Pow2(k), b)
  {
    if k == 0 {
      EvenThenOdd(b);
      LowOdd(b + 1);
    } else {
      var d := TailOf(b, Even);
      Middle(d, k - 1);
      TailAt(d + Pow2(k - 1), Even);
      assert (b + Pow2(k)) / 2 == d + Pow2(k - 1);
      LowTwice(d + Pow2(k - 1), d);
    }
  }

  lemma {:induction false} OverTwice(h: nat, w: nat, c: nat)
    requires Over(h, w, c)
    ensures Over(2 * h, w, 2 * c)
    decreases w
  {
    if w > 0 {
      var l := OverNext(h, w, c);
      OverTwice(l, w - 1, c);
      if h > 0 {
        LowTwice(h, l);
      }
      OverMore(2 * h, 2 * l, w - 1, 2 * c);
    }
  }

  /** How half of a number ends. */
  lemma HalfTails(g: nat)
    ensures Ends(2 * g, Four) || Ends(2 * g, Eight) ==> Ends(g, Even)
    ensures Ends(2 * g, Eight) ==> Ends(g, Four) || Ends(g, Eight)
  {
    if Ends(2 * g, Four) {
      var f := TailOf(2 * g, Four);
      TailAt(2 * f + 1, Even);
    }
    if Ends(2 * g, Eight) {
      var f := TailOf(2 * g, Eight);
      TailAt(2 * f, Even);
      OddOrEven(f);
      var d := TailOf(f, if Ends(f, Odd) then Odd else Even);
      TailAt(d, if Ends(f, Odd) then Four else Eight);
    }
  }

  lemma OverOdd(h: nat, w: nat, c: nat)
    requires Over(2 * h, w, c)
    ensures Over(2 * h + 1, w + 1, c)
  {
    TailAt(h, Odd);
    LowOdd(2 * h + 1);
    OverMore(2 * h + 1, 2 * h, w, c);
  }

  /** Where a number ends in zeros there are fewer bits. */
  ghost predicate Room(h: nat, w: nat, k: nat) {
    w <= k && (w > 0 ==> (Ends(h, Even) ==> w <= k - 1) && (Ends(h, Four) || Ends(h, Eight) ==> w <= k - 2)
                         && (Ends(h, Eight) ==> w <= k - 3))
  }

  lemma RoomEven(g: nat, w: nat, k: nat)
    requires k > 0 && Room(g, w, k - 1)
    ensures Room(2 * g, w, k)
  {
    HalfTails(g);
  }

  lemma RoomOdd(g: nat, w: nat, k: nat)
    requires w <= k
    ensures Room(2 * g + 1, w, k)
  {
    EndsIs(2 * g + 1, Even);
    EndsIs(2 * g + 1, Four);
    EndsIs(2 * g + 1, Eight);
  }

  /** How many bits there can be among the lowest `k`. */
  lemma {:induction false} Ones(c: nat, k: nat, l: nat) returns (w: nat)
    requires Aligned(c, k) && l < Pow2(k)
    ensures Over(c + l, w, c) && w <= k
    ensures Room(c + l, w, k)
  {
    if k == 0 {
      w := 0;
    } else {
      var d := TailOf(c, Even);
      OddOrEven(l);
      var e := if Ends(l, Odd) then Odd else Even;
      var f := TailOf(l, e);
      w := Ones(d, k - 1, f);
      OverTwice(d + f, w, d);
      if e == Odd {
        OverOdd(d + f, w, c);
        w := w + 1;
        RoomOdd(d + f, w, k);
      } else {
        RoomEven(d + f, w, k);
      }
    }
  }

  /** From the end of a block all bits are there, but for the last `j` if that many before. */
  lemma {:induction false} OnesAtEnd(c: nat, k: nat, j: nat)
    requires Aligned(c, k) && j <= k
    ensures Pow2(j) <= Pow2(k) && Over(c + Pow2(k) - Pow2(j), k - j, c)
    decreases k
  {
    if j < k {
      var d := TailOf(c, Even);
      var h := d + Pow2(k - 1) - (if j == 0 then 1 else Pow2(j - 1));
      OnesAtEnd(d, k - 1, if j == 0 then 0 else j - 1);
      OverTwice(h, if j == 0 then k - 1 else k - j, d);
      if j == 0 {
        OverOdd(h, k - 1, c);
        assert c + Pow2(k) - 1 == 2 * h + 1;
      } else {
        assert c + Pow2(k) - Pow2(j) == 2 * h;
      }
    }
  }

  // ---------- The bound ----------

  /** The most steps from the end of a block of the size of a power of two to within it. */
  function FromEnd(k: nat): nat {
    if k <= 2 then k else if k == 3 then 4 else FromEnd(k - 1) + (k - 1) / 2 + 2
  }

  /** The most steps within such a block. */
  function WithinBlock(k: nat): nat {
    if k == 0 then 0 else FromEnd(k - 1) + Max(k / 2 + 2, k - 3)
  }

  function Max(a: int, b: int): int {
    if a < b then b else a
  }

  /** From the middle of a block to the lower half. */
  lemma FromMiddle(b: nat, c: nat, t: nat, m: nat)
    requires Between(c, b, t) && (t > b ==> Takes(c - 1, t, m))
    ensures Takes(c, t, if t == b then 1 else m + 1)
  {
    var s, p := GetSkipHeight(c), GetSkipHeight(c - 1);
    EndsIs(c, Even);
    LowIs(c, b);
    SkipsToIs(c, s, p);
    if t == b {
      Almost(b, b);
      Jump(c, t, b, p, 0);
    } else {
      Walk(c, t, b, p, m);
    }
  }

  lemma TakesOnly(h: nat, t: nat, m: nat, n: nat)
    requires Takes(h, t, m) && Takes(h, t, n)
    ensures m == n
  {
    TakesIs(h, t, m);
    TakesIs(h, t, n);
  }

  /** Two bits at the end of a block. */
  lemma EndOfFour(b: nat, t: nat) returns (n: nat)
    requires Ends(b + 2, Two) && b <= t < b + 2
    ensures Takes(b + 3, t, n) && n <= 2
  {
    MiddleOfFour(b, t);
    n := FromNext(b + 2, b, t, 1);
  }

  lemma MiddleOfFour(b: nat, t: nat)
    requires Ends(b + 2, Two) && b <= t < b + 2
    ensures Takes(b + 2, t, 1) && Between(b + 2, b, t)
  {
    TwoTails(b + 2);
    LowTwo(b + 2);
    if t == b {
      FromMiddle(b, b + 2, t, 0);
    } else {
      Almost(b + 2, t);
    }
  }

  lemma AboveEight(b: nat)
    requires Ends(b, Eight)
    ensures Low(b + 4, b) && Low(b + 6, b + 4) && Ends(b + 4, Even) && Ends(b + 7, Odd)
  {
    var g := TailOf(b, Eight);
    TailAt(g, Four);
    TailAt(2 * g + 1, Two);
    TailAt(4 * g + 2, Even);
    TailAt(4 * g + 3, Odd);
    LowFour(b + 4);
    LowTwo(b + 6);
  }

  /** Three bits. */
  lemma EndOfEight(b: nat, t: nat, m: nat) returns (n: nat)
    requires Ends(b, Eight) && b <= t < b + 4 && Takes(b + 3, t, m)
    ensures Takes(b + 7, t, n) && n <= 4
  {
    AboveEight(b);
    if t <= b + 1 {
      FromOddDirect(b + 7, b + 4, b, t);
      n := b + 2 - t;
    } else {
      Almost(b + 3, t);
      TakesOnly(b + 3, t, m, b + 3 - t);
      FromMiddle(b, b + 4, t, m);
      n := FromOddTwo(b + 7, b + 4, b, t, m + 1);
    }
  }

  lemma OddAtEnd(c: nat, k: nat)
    requires k >= 1 && Ends(c, Even)
    ensures Ends(c + Pow2(k) - 1, Odd)
  {
    var d := TailOf(c, Even);
    TailAt(d + Pow2(k - 1) - 1, Odd);
  }

  lemma AlignedTails(b: nat)
    requires Aligned(b, 2)
    ensures Ends(b + 2, Two) && (Aligned(b, 3) ==> Ends(b, Eight))
  {
    var d := TailOf(b, Even);
    assert Aligned(d, 1);
    var e := TailOf(d, Even);
    TailAt(e, Two);
    if Aligned(b, 3) {
      assert Aligned(d, 2);
      var f := TailOf(e, Even);
      TailAt(f, Eight);
    }
  }

  /** More bits. */
  lemma EndOfMore(b: nat, k: nat, t: nat, m: nat) returns (n: nat)
    requires k >= 3 && Aligned(b + Pow2(k), k) && Low(b + Pow2(k), b) && b <= t < b + Pow2(k)
    requires Takes(b + Pow2(k) - 1, t, m) && m <= FromEnd(k)
    ensures Takes(b + Pow2(k + 1) - 1, t, n) && n <= FromEnd(k + 1)
    ensures t >= b + 2 ==> n == m + k / 2 + 2
  {
    var c := b + Pow2(k);
    FromMiddle(b, c, t, m);
    OnesAtEnd(c, k, 0);
    OddAtEnd(c, k);
    n := FromOdd(c + Pow2(k) - 1, k, c, b, t, if t == b then 1 else m + 1);
  }

  lemma {:induction false} FromEndOf(b: nat, k: nat, t: nat) returns (n: nat)
    requires Aligned(b, k) && b <= t < b + Pow2(k)
    ensures Takes(b + Pow2(k) - 1, t, n) && n <= FromEnd(k)
    decreases k
  {
    if k <= 1 {
      assert Pow2(k) == k + 1;
      Almost(b + k, t);
      n := b + k - t;
    } else {
      Middle(b, k - 1);
      if t >= b + Pow2(k - 1) {
        n := FromEndOf(b + Pow2(k - 1), k - 1, t);
      } else {
        n := FromEndOf(b, k - 1, t);
        n := EndOf(b, k, t, n);
      }
    }
  }

  lemma EndOf(b: nat, k: nat, t: nat, m: nat) returns (n: nat)
    requires k >= 2 && Aligned(b, k) && b <= t < b + Pow2(k - 1)
    requires Takes(b + Pow2(k - 1) - 1, t, m) && m <= FromEnd(k - 1)
    ensures Takes(b + Pow2(k) - 1, t, n) && n <= FromEnd(k)
  {
    if k == 2 {
      AlignedTails(b);
      n := EndOfFour(b, t);
    } else if k == 3 {
      Middle(b, 2);
      AlignedTails(b);
      n := EndOfEight(b, t, m);
    } else {
      Middle(b, k - 1);
      n := EndOfMore(b, k - 1, t, m);
    }
  }

  /** However the bits are spread. */
  lemma CostAtMost(h: nat, w: nat, k: nat)
    requires Room(h, w, k)
    ensures Cost(h, w) <= Max((k + 1) / 2 + 1, k - 3)
  {
    OddOrEven(h);
  }

  lemma FromUpper(b: nat, k: nat, h: nat, t: nat) returns (n: nat)
    requires k >= 1 && Aligned(b, k + 1) && b <= t < b + Pow2(k) <= h < b + Pow2(k + 1)
    ensures Takes(h, t, n) && n <= WithinBlock(k + 1)
  {
    var c := b + Pow2(k);
    Middle(b, k);
    var m := FromEndOf(b, k, t);
    FromMiddle(b, c, t, m);
    var w := Ones(c, k, h - c);
    n := FromAny(h, w, c, b, t, if t == b then 1 else m + 1);
    CostAtMost(h, w, k);
    FromEndPositive(k);
  }

  lemma {:induction false} FromEndPositive(k: nat)
    requires k >= 1
    ensures FromEnd(k) > FromEnd(k - 1) && FromEnd(k) >= 1
    decreases k
  {
    if k >= 2 {
      FromEndPositive(k - 1);
    }
  }

  lemma {:induction false} InBlock(b: nat, k: nat, h: nat, t: nat) returns (n: nat)
    requires Aligned(b, k) && b <= t <= h < b + Pow2(k)
    ensures Takes(h, t, n) && n <= WithinBlock(k)
    decreases k
  {
    if k <= 1 {
      Almost(h, t);
      n := h - t;
    } else {
      Middle(b, k - 1);
      FromEndPositive(k - 1);
      if h < b + Pow2(k - 1) {
        n := InBlock(b, k - 1, h, t);
      } else if t >= b + Pow2(k - 1) {
        n := InBlock(b + Pow2(k - 1), k - 1, h, t);
      } else {
        n := FromUpper(b, k - 1, h, t);
      }
    }
  }

  lemma {:induction false} ZeroAligned(k: nat)
    ensures Aligned(0, k)
  {
    if k > 0 {
      ZeroAligned(k - 1);
    }
  }

  /** From the block at a power of two. */
  lemma FromPower(k: nat, t: nat) returns (n: nat)
    requires k >= 1 && t < Pow2(k)
    ensures Takes(Pow2(k), t, n) && n <= FromEnd(k) + 1
  {
    ZeroAligned(k + 1);
    Middle(0, k);
    n := FromEndOf(0, k, t);
    FromMiddle(0, Pow2(k), t, n);
    n := if t == 0 then 1 else n + 1;
  }

  /** Going back to block 2 from the end takes as many steps as can be. */
  lemma {:induction false} ExactFromEnd(k: nat)
    requires k >= 3
    ensures Pow2(k) >= 8 && Takes(Pow2(k) - 1, 2, FromEnd(k))
  {
    if k == 3 {
      Almost(3, 2);
      LowFour(4);
      LowTwo(6);
      FromMiddle(0, 4, 2, 1);
      var n := FromOddTwo(7, 4, 0, 2, 2);
    } else {
      ExactFromEnd(k - 1);
      ZeroAligned(k);
      Middle(0, k - 1);
      var n := EndOfMore(0, k - 1, 2, FromEnd(k - 1));
    }
  }

  lemma ExactWithin(k: nat, h: nat)
    requires k >= 10 && h + 8 == Pow2(k)
    ensures Takes(h, 2, FromEnd(k - 1) + k - 3)
  {
    ExactFromPower(k - 1);
    EightBefore(k, h);
    FromEights(h, k - 4, Pow2(k - 1), 2, FromEnd(k - 1) + 1);
  }

  lemma EightBefore(k: nat, h: nat)
    requires k >= 4 && h + 8 == Pow2(k)
    ensures Ends(h, Eight) && Over(h, k - 4, Pow2(k - 1))
  {
    ZeroAligned(k);
    Middle(0, k - 1);
    OnesAtEnd(Pow2(k - 1), k - 1, 3);
    EightTimes(k, h);
  }

  lemma ExactFromPower(k: nat)
    requires k >= 3
    ensures Pow2(k) >= 8 && Takes(Pow2(k), 2, FromEnd(k) + 1)
  {
    ExactFromEnd(k);
    ZeroAligned(k + 1);
    Middle(0, k);
    FromMiddle(0, Pow2(k), 2, FromEnd(k));
  }

  lemma EightTimes(k: nat, h: nat)
    requires k >= 3 && h + 8 == Pow2(k)
    ensures Pow2(3) == 8 && Ends(h, Eight)
  {
    assert Pow2(3) == 8;
    Pow2Add(3, k - 3);
  }

  // ---------- The most steps there can be ----------

  /** The most steps back among the first `2^k` blocks. */
  function MaxSteps(k: nat): int {
    (k * k + 8 * k - 28) / 4
  }

  lemma {:induction false} FromEndIs(k: nat)
    requires k >= 3
    ensures FromEnd(k) == (k * k + 6 * k - 11) / 4
  {
    if k > 3 {
      FromEndIs(k - 1);
      Quarter(k);
    }
  }

  lemma Quarter(k: nat)
    ensures ((k - 1) * (k - 1) + 6 * (k - 1) - 11) / 4 + (k - 1) / 2 + 2 == (k * k + 6 * k - 11) / 4
  {
    var j := k / 2;
    LessOne(k);
    if k == 2 * j {
      SquareTwice(j);
      QuarterEven(j * j, j);
    } else {
      assert k == 2 * j + 1;
      SquareTwice(j);
      LessOne(2 * j + 1);
      QuarterOdd(j * j, j);
    }
  }

  lemma SquareTwice(j: int)
    ensures (2 * j) * (2 * j) == 4 * (j * j)
  {
  }

  lemma QuarterEven(s: int, j: int)
    ensures (4 * s - 4 * j + 1 + 6 * (2 * j - 1) - 11) / 4 + (2 * j - 1) / 2 + 2 == (4 * s + 12 * j - 11) / 4
  {
  }

  lemma QuarterOdd(s: int, j: int)
    ensures (4 * s + 12 * j - 11) / 4 + j + 2 == (4 * s + 4 * j + 1 + 6 * (2 * j + 1) - 11) / 4
  {
  }

  lemma MaxIs(k: nat)
    requires k >= 11
    ensures FromEnd(k - 1) + k - 3 == MaxSteps(k) && FromEnd(k) + 1 <= MaxSteps(k)
  {
    FromEndIs(k - 1);
    FromEndIs(k);
    LessOne(k);
    MaxOf(k * k, k);
  }

  lemma LessOne(k: int)
    ensures (k - 1) * (k - 1) == k * k - 2 * k + 1
  {
  }

  lemma MaxOf(q: int, k: nat)
    requires k >= 11
    ensures (q - 2 * k + 1 + 6 * (k - 1) - 11) / 4 + k - 3 == (q + 8 * k - 28) / 4
    ensures (q + 6 * k - 11) / 4 + 1 <= (q + 8 * k - 28) / 4
  {
  }

  /** Going back among the first `2^k` blocks takes a number of steps that grows with the square of `k` at
      most. */
  lemma StepsAtMost(k: nat, h: nat, t: nat)
    requires k >= 11 && t <= h <= Pow2(k)
    ensures Steps(h, t) <= MaxSteps(k)
  {
    MaxIs(k);
    var n: nat := 0;
    if h < Pow2(k) {
      ZeroAligned(k);
      n := InBlock(0, k, h, t);
    } else if t < h {
      n := FromPower(k, t);
    } else {
      Almost(h, t);
    }
    TakesIs(h, t, n);
  }

  lemma StepsReached(k: nat, h: nat)
    requires k >= 11 && h + 8 == Pow2(k)
    ensures Steps(h, 2) == MaxSteps(k)
  {
    MaxIs(k);
    ExactWithin(k, h);
    TakesIs(h, 2, MaxSteps(k));
  }

  /** Among the first 2^18 blocks that number is 110, and it is reached. */
  lemma OneHundredTen(h: nat, t: nat)
    requires t <= h <= 0x4_0000
    ensures Steps(h, t) <= 110 && Steps(0x3_fff8, 2) == 110
  {
    Pow2Words();
    Pow2Add(16, 2);
    assert Pow2(2) == 4;
    StepsAtMost(18, h, t);
    StepsReached(18, 0x3_fff8);
  }
}
