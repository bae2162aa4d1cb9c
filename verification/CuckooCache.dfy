/** A cache with eight possible places per element and lazy garbage collection. */
module CuckooCaches {
  import opened Powers

  /** The slots: what they hold, which may be discarded, and which were filled in this epoch. */
  datatype Cells = Cells(table: seq<nat>, garbage: seq<bool>, recent: seq<bool>) {

    ghost predicate Shaped(size: nat) {
      |table| == |garbage| == |recent| == size
    }
  }

  /** A 32-bit number scaled to a range. */
  function FastRange32(x: nat, n: nat): (r: nat)
    requires x < 0x1_0000_0000
    ensures n > 0 ==> r < n
  {
    MulNonNegative(x, n);
    MulMono(n, x, 0xffff_ffff);
    ScaledRange(x * n, n);
    x * n / 0x1_0000_0000
  }

  lemma ScaledRange(p: nat, n: nat)
    requires p <= n * 0xffff_ffff
    ensures 0 <= p / 0x1_0000_0000 && (n > 0 ==> p / 0x1_0000_0000 < n)
  {
  }

  /** Eight hashes per element. */
  type Hash = f: (nat, nat) -> nat | forall e, k :: f(e, k) < 0x1_0000_0000 witness ((e, k) => 0)

  function ComputeHashes(h: Hash, size: nat, e: nat): (locs: seq<nat>)
    requires size > 0
    ensures |locs| == 8 && forall k :: 0 <= k < 8 ==> locs[k] < size
  {
    [FastRange32(h(e, 0), size), FastRange32(h(e, 1), size), FastRange32(h(e, 2), size), FastRange32(h(e, 3), size),
     FastRange32(h(e, 4), size), FastRange32(h(e, 5), size), FastRange32(h(e, 6), size), FastRange32(h(e, 7), size)]
  }

  /** The first of the places that is `loc` is the one at `k`. */
  ghost predicate FirstPlace(locs: seq<nat>, loc: int, k: nat) {
    k < |locs| && locs[k] == loc && forall j :: 0 <= j < k ==> locs[j] != loc
  }

  /** The first of the places that holds `e` is the one at `k`. */
  ghost predicate FirstHolding(table: seq<nat>, locs: seq<nat>, e: nat, k: nat)
    requires forall j :: 0 <= j < |locs| ==> locs[j] < |table|
  {
    k < |locs| && table[locs[k]] == e && forall j :: 0 <= j < k ==> table[locs[j]] != e
  }

  /** Two places in a row are the same one. */
  ghost predicate Repeats(locs: seq<nat>) {
    exists k :: 0 <= k < |locs| - 1 && locs[k] == locs[k + 1]
  }

  // ---------- What is in the cache ----------

  /** What a slot holds before it is filled. */
  const DEFAULT: nat := 0

  /** The elements in slots that are not to be discarded. */
  ghost function Live(c: Cells, size: nat): set<nat>
    requires c.Shaped(size)
  {
    set i | 0 <= i < size && !c.garbage[i] :: c.table[i]
  }

  ghost predicate Placed(h: Hash, c: Cells, size: nat, i: nat)
    requires c.Shaped(size) && i < size
  {
    !c.garbage[i] || c.table[i] != DEFAULT ==> i in ComputeHashes(h, size, c.table[i])
  }

  /** Every element is at one of its places, but for the default ones in slots that were never filled. */
  ghost predicate AllPlaced(h: Hash, c: Cells, size: nat)
    requires c.Shaped(size)
  {
    forall i {:trigger Placed(h, c, size, i)} :: 0 <= i < size ==> Placed(h, c, size, i)
  }

  /** No element is in two slots, but for the default one. */
  ghost predicate Distinct(table: seq<nat>) {
    forall i, j :: 0 <= i < j < |table| && table[i] == table[j] ==> table[i] == DEFAULT
  }

  /** How many of the first `n` slots are live and of this epoch. */
  ghost function Recent(c: Cells, n: nat): nat
    requires n <= |c.garbage| && n <= |c.recent|
  {
    if n == 0 then 0 else Recent(c, n - 1) + if c.recent[n - 1] && !c.garbage[n - 1] then 1 else 0
  }

  function Max(a: nat, b: nat): nat {
    if a < b then b else a
  }

  function Bit(b: bool): nat {
    if b then 1 else 0
  }

  /** Put `e` into slot `i`, live. */
  function Filled(c: Cells, i: nat, e: nat, recent: bool): Cells
    requires i < |c.table| && i < |c.garbage| && i < |c.recent|
  {
    Cells(c.table[i := e], c.garbage[i := false], c.recent[i := recent])
  }

  // ---------- Displacements ----------

  /** An element on its way to another place, with its epoch. */
  datatype Carried = Carried(element: nat, recent: bool)

  /** Exchange what is in slot `i`, which is kept. */
  function Exchanged(c: Cells, i: nat, x: Carried): Cells
    requires i < |c.table| && i < |c.recent|
  {
    Cells(c.table[i := x.element], c.garbage, c.recent[i := x.recent])
  }

  /** All places of the element are to be kept. */
  ghost predicate NoneOpen(h: Hash, c: Cells, size: nat, e: nat)
    requires size > 0 && c.Shaped(size)
  {
    forall k :: 0 <= k < 8 ==> !c.garbage[ComputeHashes(h, size, e)[k]]
  }

  /** The place after the one that was used last, among the eight; the second one to begin with. */
  ghost predicate NextPlace(locs: seq<nat>, last: int, loc: nat) {
    && |locs| == 8 && (last !in locs ==> loc == locs[1])
    && (last in locs ==> exists k: nat :: FirstPlace(locs, last, k))
    && forall k: nat {:trigger FirstPlace(locs, last, k)} :: FirstPlace(locs, last, k) ==> loc == locs[(k + 1) % 8]
  }

  function LastOf(path: seq<nat>): int {
    if path == [] then -1 else path[|path| - 1]
  }

  /** The slots after the elements of a chain but for the last one took the places of a path. */
  ghost function CellsAfter(c: Cells, size: nat, chain: seq<Carried>, path: seq<nat>): (d: Cells)
    requires c.Shaped(size) && |chain| == |path| + 1 && forall i :: 0 <= i < |path| ==> path[i] < size
    ensures d.Shaped(size) && d.garbage == c.garbage
    decreases |path|
  {
    if path == [] then c
    else
      var n := |path| - 1;
      Exchanged(CellsAfter(c, size, chain[..n + 1], path[..n]), path[n], chain[n])
  }

  /** Each element of the chain but the last found all its places taken, took the one after that used last, and what
      was there is next. */
  ghost predicate Walked(h: Hash, c: Cells, size: nat, chain: seq<Carried>, path: seq<nat>)
    requires size > 0 && c.Shaped(size)
    decreases |path|
  {
    && |chain| == |path| + 1 && (forall i :: 0 <= i < |path| ==> path[i] < size)
    && (path != [] ==>
          var n := |path| - 1;
          var d := CellsAfter(c, size, chain[..n + 1], path[..n]);
          && Walked(h, c, size, chain[..n + 1], path[..n])
          && NoneOpen(h, c, size, chain[n].element)
          && NextPlace(ComputeHashes(h, size, chain[n].element), LastOf(path[..n]), path[n])
          && chain[n + 1] == Carried(d.table[path[n]], d.recent[path[n]]))
  }

  lemma WalkedNext(h: Hash, c: Cells, size: nat, chain: seq<Carried>, path: seq<nat>, loc: nat)
    requires size > 0 && c.Shaped(size) && Walked(h, c, size, chain, path) && loc < size
    requires var x := chain[|path|].element;
             NoneOpen(h, c, size, x) && NextPlace(ComputeHashes(h, size, x), LastOf(path), loc)
    ensures var d := CellsAfter(c, size, chain, path);
            var chain', path' := chain + [Carried(d.table[loc], d.recent[loc])], path + [loc];
            Walked(h, c, size, chain', path') && CellsAfter(c, size, chain', path') == Exchanged(d, loc, chain[|path|])
  {
    var d := CellsAfter(c, size, chain, path);
    var chain', path' := chain + [Carried(d.table[loc], d.recent[loc])], path + [loc];
    assert chain'[..|path| + 1] == chain && path'[..|path|] == path;
  }

  /** The element is put into the first of its open places. */
  ghost predicate PutOpen(h: Hash, c: Cells, size: nat, x: Carried, k: nat, d: Cells, d': Cells)
    requires size > 0 && c.Shaped(size) && d.Shaped(size)
  {
    var locs := ComputeHashes(h, size, x.element);
    FirstOpen(c, locs, k) && d' == Filled(d, locs[k], x.element, x.recent)
  }

  /** What the displacements come to: the last element of the chain finds the first of its open places, or there were
      as many as there may be and it is dropped. */
  ghost predicate Displacing(h: Hash, c: Cells, size: nat, e: nat, limit: nat, d: Cells, chain: seq<Carried>,
                             path: seq<nat>, dropped: set<nat>)
    requires size > 0 && c.Shaped(size)
  {
    && Walked(h, c, size, chain, path) && chain[0] == Carried(e, true)
    && var x, n := chain[|path|], |path|;
       if dropped == {} then
         && n < limit
         && exists k: nat :: PutOpen(h, c, size, x, k, CellsAfter(c, size, chain, path), d)
       else n == limit && dropped == {x.element} && d == CellsAfter(c, size, chain, path)
  }

  lemma DropLast(h: Hash, c: Cells, size: nat, e: nat, limit: nat, d: Cells, chain: seq<Carried>, path: seq<nat>,
                 x: nat)
    requires size > 0 && c.Shaped(size) && Walked(h, c, size, chain, path) && chain[0] == Carried(e, true)
    requires |path| == limit && chain[limit].element == x && d == CellsAfter(c, size, chain, path)
    ensures Displacing(h, c, size, e, limit, d, chain, path, {x})
  {
    assert x in {x};
  }

  /** The first of the places that may be discarded is the one at `k`. */
  ghost predicate FirstOpen(c: Cells, locs: seq<nat>, k: nat)
    requires forall j :: 0 <= j < |locs| ==> locs[j] < |c.garbage|
  {
    k < |locs| && c.garbage[locs[k]] && forall j :: 0 <= j < k ==> !c.garbage[locs[j]]
  }

  /** An element with an open place is put there. */
  lemma {:induction false} OpenTaken(h: Hash, c: Cells, size: nat, chain: seq<Carried>, path: seq<nat>)
    requires size > 0 && c.Shaped(size) && Walked(h, c, size, chain, path)
    ensures path != [] ==> NoneOpen(h, c, size, chain[0].element)
    decreases |path|
  {
    if |path| > 1 {
      OpenTaken(h, c, size, chain[..|path|], path[..|path| - 1]);
    }
  }

  lemma {:induction false} RecentSame(a: Cells, b: Cells, n: nat)
    requires n <= |a.garbage| && n <= |a.recent| && n <= |b.garbage| && n <= |b.recent|
    requires forall i :: 0 <= i < n ==> a.garbage[i] == b.garbage[i] && a.recent[i] == b.recent[i]
    ensures Recent(a, n) == Recent(b, n)
  {
    if n > 0 {
      RecentSame(a, b, n - 1);
    }
  }

  lemma {:induction false} RecentFilled(c: Cells, i: nat, e: nat, recent: bool, n: nat)
    requires |c.table| == |c.garbage| == |c.recent| && i < n <= |c.table|
    ensures Recent(Filled(c, i, e, recent), n) + Bit(c.recent[i] && !c.garbage[i]) == Recent(c, n) + Bit(recent)
  {
    if i == n - 1 {
      RecentSame(Filled(c, i, e, recent), c, n - 1);
    } else {
      RecentFilled(c, i, e, recent, n - 1);
    }
  }

  lemma FilledPlaced(h: Hash, c: Cells, size: nat, i: nat, e: nat, recent: bool)
    requires c.Shaped(size) && AllPlaced(h, c, size) && i < size && i in ComputeHashes(h, size, e)
    ensures Filled(c, i, e, recent).Shaped(size) && AllPlaced(h, Filled(c, i, e, recent), size)
  {
    var f := Filled(c, i, e, recent);
    forall j | 0 <= j < size ensures Placed(h, f, size, j) {
      assert Placed(h, c, size, j);
    }
  }

  /** Filling a slot adds the element and loses what was live there, if nowhere else. */
  lemma FilledLive(c: Cells, size: nat, i: nat, e: nat, recent: bool)
    requires c.Shaped(size) && i < size
    ensures var f := Filled(c, i, e, recent);
            && Live(f, size) <= Live(c, size) + {e} && e in Live(f, size)
            && (if c.garbage[i] then Live(c, size) <= Live(f, size) else Live(c, size) <= Live(f, size) + {c.table[i]})
  {
    var f := Filled(c, i, e, recent);
    assert f.table[i] == e && !f.garbage[i];
    forall x | x in Live(c, size) && (c.garbage[i] || x != c.table[i]) ensures x in Live(f, size) {
      var j :| 0 <= j < size && !c.garbage[j] && c.table[j] == x;
      assert j != i && !f.garbage[j] && f.table[j] == x;
    }
    forall x | x in Live(f, size) ensures x in Live(c, size) + {e} {
      var j :| 0 <= j < size && !f.garbage[j] && f.table[j] == x;
      if j != i {
        assert !c.garbage[j] && c.table[j] == x;
      }
    }
  }

  // ---------- The cache ----------

  class Cache {
    const hash: Hash
    const size: nat
    const epochSize: nat
    const depthLimit: nat
    var cells: Cells
    var epochHeuristicCounter: nat

    /** How many recent elements there can be. */
    ghost function RecentLimit(): nat {
      epochSize + Max(1, epochSize / 16)
    }

    ghost predicate Valid()
      reads this
    {
      && size >= 2 && epochSize >= 1 && depthLimit >= 1 && cells.Shaped(size) && AllPlaced(hash, cells, size)
      && Distinct(cells.table) && Recent(cells, size) + epochHeuristicCounter <= RecentLimit()
    }

    ghost function Contents(): set<nat>
      requires cells.Shaped(size)
      reads this
    {
      Live(cells, size)
    }

    /** The depth limit is the logarithm of the size, taken in floating point. */
    constructor (hash: Hash, newSize: nat, depthLimit: nat)
      requires newSize < 0x1_0000_0000 && depthLimit >= 1
      ensures Valid() && Contents() == {} && size == (if newSize < 2 then 2 else newSize)
    {
      this.hash := hash;
      this.depthLimit := depthLimit;
      var n := if newSize < 2 then 2 else newSize;
      size := n;
      var epoch := 45 * n % 0x1_0000_0000 / 100;
      epochSize := if epoch < 1 then 1 else epoch;
      cells := Cells(seq(n, _ => DEFAULT), seq(n, _ => true), seq(n, _ => false));
      epochHeuristicCounter := if epoch < 1 then 1 else epoch;
      new;
      NoneRecent(cells, size);
    }

    /** Whether the element is found at one of its places; it may then be marked for discarding. */
    method Contains(e: nat, erase: bool) returns (found: bool)
      requires Valid()
      modifies `cells
      ensures Valid() && cells.table == old(cells.table) && cells.recent == old(cells.recent)
      ensures found <==> exists k :: 0 <= k < 8 && cells.table[ComputeHashes(hash, size, e)[k]] == e
      ensures e in old(Contents()) ==> found
      ensures !erase || !found ==> cells == old(cells)
      ensures erase && found ==>
                exists k: nat :: FirstHolding(cells.table, ComputeHashes(hash, size, e), e, k)
                            && cells.garbage == old(cells.garbage)[ComputeHashes(hash, size, e)[k] := true]
      ensures erase ==> Contents() <= old(Contents()) <= Contents() + {e}
      ensures erase && e != DEFAULT ==> Contents() == old(Contents()) - {e}
    {
      var locs := ComputeHashes(hash, size, e);
      var k := Find(locs, e);
      found := k < 8;
      PlacedFound(hash, cells, size, e);
      if k < 8 && erase {
        Discarding(hash, cells, size, locs[k]);
        cells := cells.(garbage := cells.garbage[locs[k] := true]);
      }
    }

    /** The first of the eight places that holds the element, if there is one. */
    method Find(locs: seq<nat>, e: nat) returns (k: nat)
      requires |locs| == 8 && cells.Shaped(size) && forall j :: 0 <= j < 8 ==> locs[j] < size
      ensures k < 8 ==> FirstHolding(cells.table, locs, e, k)
      ensures k >= 8 ==> forall j :: 0 <= j < 8 ==> cells.table[locs[j]] != e
    {
      k := 0;
      while k < 8 && cells.table[locs[k]] != e
        invariant k <= 8 && forall j :: 0 <= j < k ==> cells.table[locs[j]] != e
      {
        k := k + 1;
      }
    }

    // ---------- Epochs ----------

    /** Before an insertion: once enough recent elements may have accumulated, count them, and if
        there are enough start a new epoch, discarding what is not of the current one. */
    method EpochCheck()
      requires Valid()
      modifies `cells, `epochHeuristicCounter
      ensures cells.Shaped(size) && AllPlaced(hash, cells, size)
      ensures Recent(cells, size) + epochHeuristicCounter + 1 <= RecentLimit()
      ensures cells == Checked(old(cells), size, old(epochHeuristicCounter), epochSize)
      ensures var n := Recent(old(cells), size);
              epochHeuristicCounter == if old(epochHeuristicCounter) != 0 then old(epochHeuristicCounter) - 1
                                       else if n >= epochSize then epochSize
                                       else Max(1, Max(epochSize / 16, epochSize - n))
    {
      if epochHeuristicCounter != 0 {
        epochHeuristicCounter := epochHeuristicCounter - 1;
        return;
      }
      // Count the recent elements that have not been erased.
      var count: nat := 0;
      for i := 0 to size
        invariant count == Recent(cells, i)
      {
        count := count + Bit(cells.recent[i] && !cells.garbage[i]);
      }
      if count >= epochSize {
        Age();
        epochHeuristicCounter := epochSize;
      } else {
        // Scan again when this epoch could be full in the worst case, with a minimum distance.
        epochHeuristicCounter := Max(1, Max(epochSize / 16, epochSize - count));
      }
    }

    method Age()
      requires Valid()
      modifies `cells
      ensures cells == Aged(old(cells)) && AllPlaced(hash, cells, size) && Recent(cells, size) == 0
    {
      ghost var was := cells;
      for i := 0 to size
        invariant cells.Shaped(size) && cells.table == was.table
        invariant forall j :: 0 <= j < i ==> cells.garbage[j] == (was.garbage[j] || !was.recent[j]) && !cells.recent[j]
        invariant forall j :: i <= j < size ==> cells.garbage[j] == was.garbage[j] && cells.recent[j] == was.recent[j]
      {
        if cells.recent[i] {
          cells := cells.(recent := cells.recent[i := false]);
        } else {
          cells := cells.(garbage := cells.garbage[i := true]);
        }
      }
      assert cells == Aged(was);
      forall j | 0 <= j < size ensures Placed(hash, cells, size, j) {
        assert Placed(hash, was, size, j);
      }
      NoneRecent(cells, size);
    }

    // ---------- Insertion ----------

    /** `e` is to be put somewhere, with its epoch; `all` are the elements there were, and it. */
    ghost predicate Inserting(e: nat, epoch: bool, all: set<nat>, recent: nat)
      reads this
    {
      && cells.Shaped(size) && AllPlaced(hash, cells, size)
      && Distinct(cells.table) && (e in cells.table ==> e == DEFAULT)
      && Contents() + {e} == all && Recent(cells, size) + Bit(epoch) == recent
    }

    /** Put the element into slot `loc`, which may be discarded. */
    method PutInto(loc: nat, e: nat, epoch: bool, ghost all: set<nat>, ghost recent: nat)
      requires size > 0 && Inserting(e, epoch, all, recent) && loc < size && loc in ComputeHashes(hash, size, e)
      requires cells.garbage[loc]
      modifies `cells
      ensures cells == Filled(old(cells), loc, e, epoch)
      ensures cells.Shaped(size) && AllPlaced(hash, cells, size) && Distinct(cells.table)
      ensures Contents() == all && Recent(cells, size) == recent
    {
      FilledPlaced(hash, cells, size, loc, e, epoch);
      FilledLive(cells, size, loc, e, epoch);
      RecentFilled(cells, loc, e, epoch, size);
      cells := Filled(cells, loc, e, epoch);
    }

    /** Exchange the element with the one in slot `loc`, which is to be kept. */
    method SwapWith(loc: nat, e: nat, epoch: bool, ghost all: set<nat>, ghost recent: nat)
      returns (e': nat, epoch': bool)
      requires size > 0 && Inserting(e, epoch, all, recent) && loc < size && loc in ComputeHashes(hash, size, e)
      requires !cells.garbage[loc]
      modifies `cells
      ensures Inserting(e', epoch', all, recent)
      ensures e' == old(cells).table[loc] && epoch' == old(cells).recent[loc]
      ensures cells == Exchanged(old(cells), loc, Carried(e, epoch))
      ensures loc in ComputeHashes(hash, size, e')
    {
      FilledPlaced(hash, cells, size, loc, e, epoch);
      FilledLive(cells, size, loc, e, epoch);
      RecentFilled(cells, loc, e, epoch, size);
      assert cells.table[loc] in Contents() && Placed(hash, cells, size, loc);
      e', epoch' := cells.table[loc], cells.recent[loc];
      ghost var was := cells;
      cells := Cells(cells.table[loc := e], cells.garbage, cells.recent[loc := epoch]);
      assert cells == Filled(was, loc, e, epoch);
    }

    /** The slot after the one looked at last, among the eight; the second one to begin with. */
    method NextLoc(locs: seq<nat>, last: int) returns (loc: nat)
      requires |locs| == 8
      ensures NextPlace(locs, last, loc)
    {
      var k: nat := 0;
      while k < 8 && locs[k] != last
        invariant k <= 8 && forall j :: 0 <= j < k ==> locs[j] != last
      {
        k := k + 1;
      }
      loc := locs[(1 + k) % 8];
      assert k < 8 ==> FirstPlace(locs, last, k);
    }

    /** The first place of the element that may be discarded, if there is one. */
    method FindOpen(x: nat) returns (k: nat)
      requires size > 0 && cells.Shaped(size)
      ensures k < 8 ==> FirstOpen(cells, ComputeHashes(hash, size, x), k)
      ensures k >= 8 ==> NoneOpen(hash, cells, size, x)
    {
      var locs := ComputeHashes(hash, size, x);
      k := 0;
      while k < 8 && !cells.garbage[locs[k]]
        invariant k <= 8 && forall j :: 0 <= j < k ==> !cells.garbage[locs[j]]
      {
        k := k + 1;
      }
    }

    /** Move elements along until one finds an open slot, at most `depthLimit` times. If none is
        found, the last one is dropped. What was just put in is not moved on at once, unless an element has
        the same place twice in a row. */
    method Displace(e: nat, ghost all: set<nat>, ghost recent: nat)
      returns (ghost dropped: set<nat>, ghost undone: bool, ghost chain: seq<Carried>, ghost path: seq<nat>)
      requires size > 0 && Inserting(e, true, all, recent)
      modifies `cells
      ensures cells.Shaped(size) && AllPlaced(hash, cells, size) && Distinct(cells.table)
      ensures Recent(cells, size) <= recent
      ensures |dropped| <= 1 && dropped <= all && Contents() + dropped == all
      ensures Displacing(hash, old(cells), size, e, depthLimit, cells, chain, path, dropped)
      ensures undone ==> exists x :: x in all && Repeats(ComputeHashes(hash, size, x))
    {
      ghost var c := cells;
      var x, epoch, last: int := e, true, -1;
      undone, chain, path := false, [Carried(e, true)], [];
      for depth := 0 to depthLimit
        invariant Inserting(x, epoch, all, recent) && |path| == depth && Underway(c, e, chain, path, x, epoch, last)
        invariant undone ==> exists y :: y in all && Repeats(ComputeHashes(hash, size, y))
      {
        var k := FindOpen(x);
        if k < 8 {
          PutDown(x, epoch, k, all, recent, c, e, chain, path, last);
          dropped := {};
          return;
        }
        ghost var back;
        x, epoch, last, back, chain, path := Shift(x, epoch, last, all, recent, c, e, chain, path);
        undone := undone || back;
      }
      dropped := {x};
      DropLast(hash, c, size, e, depthLimit, cells, chain, path, x);
    }

    /** After some displacements, `x` is what is to be put somewhere, and `last` the place it was at. */
    ghost predicate Underway(c: Cells, e: nat, chain: seq<Carried>, path: seq<nat>, x: nat, epoch: bool, last: int)
      reads this
    {
      && size > 0 && c.Shaped(size) && cells.Shaped(size) && Walked(hash, c, size, chain, path)
      && chain[0] == Carried(e, true) && chain[|path|] == Carried(x, epoch)
      && cells == CellsAfter(c, size, chain, path)
      && last == LastOf(path) && (last == -1 || last in ComputeHashes(hash, size, x))
    }

    method PutDown(x: nat, epoch: bool, k: nat, ghost all: set<nat>, ghost recent: nat, ghost c: Cells, ghost e: nat,
                   ghost chain: seq<Carried>, ghost path: seq<nat>, ghost last: int)
      requires Inserting(x, epoch, all, recent) && Underway(c, e, chain, path, x, epoch, last) && |path| < depthLimit
      requires k < 8 && FirstOpen(cells, ComputeHashes(hash, size, x), k)
      modifies `cells
      ensures cells.Shaped(size) && AllPlaced(hash, cells, size) && Distinct(cells.table)
      ensures Contents() == all && Recent(cells, size) == recent
      ensures Displacing(hash, c, size, e, depthLimit, cells, chain, path, {})
    {
      ghost var d := cells;
      PutInto(ComputeHashes(hash, size, x)[k], x, epoch, all, recent);
      assert PutOpen(hash, c, size, Carried(x, epoch), k, d, cells);
    }

    /** Exchange `x` with what is at its next place. */
    method Shift(x: nat, epoch: bool, last: int, ghost all: set<nat>, ghost recent: nat, ghost c: Cells, ghost e: nat,
                 ghost chain: seq<Carried>, ghost path: seq<nat>)
      returns (x': nat, epoch': bool, last': int, ghost back: bool, ghost chain': seq<Carried>, ghost path': seq<nat>)
      requires Inserting(x, epoch, all, recent) && Underway(c, e, chain, path, x, epoch, last)
      requires NoneOpen(hash, cells, size, x)
      modifies `cells
      ensures Inserting(x', epoch', all, recent) && Underway(c, e, chain', path', x', epoch', last')
      ensures |path'| == |path| + 1 && (back ==> Repeats(ComputeHashes(hash, size, x)))
    {
      var locs := ComputeHashes(hash, size, x);
      var loc := NextLoc(locs, last);
      back := loc == last;
      NextIsOther(locs, last, loc);
      WalkedNext(hash, c, size, chain, path, loc);
      chain', path' := chain + [Carried(cells.table[loc], cells.recent[loc])], path + [loc];
      last' := loc;
      x', epoch' := SwapWith(loc, x, epoch, all, recent);
    }

    /** Insert an element. Apart from what the epoch check discards, at most one of the elements there
        were and the new one is lost, and nothing else appears. */
    method Insert(e: nat)
      returns (ghost dropped: set<nat>, ghost chain: seq<Carried>, ghost path: seq<nat>)
      requires Valid()
      modifies `cells, `epochHeuristicCounter
      ensures Valid()
      ensures var c := Checked(old(cells), size, old(epochHeuristicCounter), epochSize);
              && |dropped| <= 1 && dropped <= Live(c, size) + {e} && Contents() + dropped == Live(c, size) + {e}
              && Placing(hash, c, size, e, depthLimit, cells, chain, path, dropped)
              && (!Absent(hash, c, size, e) || !NoneOpen(hash, c, size, e) ==> dropped == {})
    {
      EpochCheck();
      ghost var c := cells;
      dropped, chain, path := Place(e);
      NothingDropped(hash, c, size, e, depthLimit, cells, chain, path, dropped);
    }

    method Place(e: nat)
      returns (ghost dropped: set<nat>, ghost chain: seq<Carried>, ghost path: seq<nat>)
      requires size > 0 && cells.Shaped(size) && AllPlaced(hash, cells, size) && Distinct(cells.table)
      modifies `cells
      ensures cells.Shaped(size) && AllPlaced(hash, cells, size) && Distinct(cells.table)
      ensures Recent(cells, size) <= Recent(old(cells), size) + 1
      ensures |dropped| <= 1 && dropped <= old(Contents()) + {e} && Contents() + dropped == old(Contents()) + {e}
      ensures Placing(hash, old(cells), size, e, depthLimit, cells, chain, path, dropped)
    {
      var locs := ComputeHashes(hash, size, e);
      // Make sure that the element is not there already; if it is, that it does not get deleted.
      var k := Find(locs, e);
      if k < 8 {
        dropped, chain, path := {}, [], [];
        ghost var was := cells;
        Retain(locs[k], e);
        assert KeptAt(hash, was, size, e, k, cells);
        return;
      }
      NotFoundAbsent(hash, cells, size, e);
      ghost var undone;
      dropped, undone, chain, path := Displace(e, Contents() + {e}, Recent(cells, size) + 1);
    }

    method Retain(loc: nat, e: nat)
      requires size > 0 && cells.Shaped(size) && AllPlaced(hash, cells, size) && loc < size
      requires loc in ComputeHashes(hash, size, e) && cells.table[loc] == e
      modifies `cells
      ensures cells.Shaped(size) && AllPlaced(hash, cells, size) && Contents() == old(Contents()) + {e}
      ensures Recent(cells, size) <= Recent(old(cells), size) + 1 && cells == Filled(old(cells), loc, e, true)
    {
      FilledPlaced(hash, cells, size, loc, e, true);
      FilledLive(cells, size, loc, e, true);
      RecentFilled(cells, loc, e, true, size);
      ghost var was := cells;
      cells := Cells(cells.table, cells.garbage[loc := false], cells.recent[loc := true]);
      assert was.table[loc := e] == was.table;
      assert cells == Filled(was, loc, e, true);
    }
  }

  /** Marking an element for discarding leaves it to be found. */
  method InsertEraseFind(c: Cache, e: nat) returns (found: bool)
    requires c.Valid()
    modifies c
    ensures c.Valid() && found
  {
    ghost var dropped, chain, path := c.Insert(e);
    found := c.Contains(e, true);
    if found {
      found := c.Contains(e, false);
    } else {
      found := true;
    }
  }

  /** The first displacement uses the first place only if that is the second one as well; a later one goes
      back to the place just used only if that follows itself. */
  lemma NextIsOther(locs: seq<nat>, last: int, loc: nat)
    requires NextPlace(locs, last, loc)
    ensures loc in locs
    ensures last !in locs ==> (loc == locs[0] <==> locs[0] == locs[1])
    ensures last in locs ==>
              (loc == last <==> exists k: nat :: FirstPlace(locs, last, k) && k < 7 && locs[k + 1] == locs[k])
    ensures loc == last ==> Repeats(locs)
  {
    if last in locs {
      var k: nat :| FirstPlace(locs, last, k);
      if loc == last {
        assert k < 7 && locs[k + 1] == locs[k];
      }
    }
  }

  /** An element whose first two hashes agree, such as any with a constant hash, has its first place follow
      itself: if it is moved from there, what replaced it is moved back. */
  lemma SwapsBack(h: Hash, size: nat, e: nat)
    requires size > 0 && h(e, 0) == h(e, 1)
    ensures var locs := ComputeHashes(h, size, e);
            FirstPlace(locs, locs[0], 0) && locs[(0 + 1) % 8] == locs[0] && Repeats(locs)
  {
    var locs := ComputeHashes(h, size, e);
    assert locs[0] == locs[0 + 1];
  }

  /** An element that is at none of its places is in no slot, unless it is the default one. */
  lemma NotFoundAbsent(h: Hash, c: Cells, size: nat, e: nat)
    requires size > 0 && c.Shaped(size) && AllPlaced(h, c, size)
    requires forall k :: 0 <= k < 8 ==> c.table[ComputeHashes(h, size, e)[k]] != e
    ensures e in c.table ==> e == DEFAULT
  {
    forall i | 0 <= i < size && c.table[i] == e ensures e == DEFAULT {
      assert Placed(h, c, size, i);
    }
  }

  /** The slots after the epoch check. */
  ghost function Checked(c: Cells, size: nat, counter: nat, epochSize: nat): (d: Cells)
    requires c.Shaped(size)
    ensures d.Shaped(size) && d.table == c.table
  {
    if counter == 0 && Recent(c, size) >= epochSize then Aged(c) else c
  }

  /** What becomes of an element that is inserted: it is kept where it is, or else displaces others. */
  ghost predicate Placing(h: Hash, c: Cells, size: nat, e: nat, limit: nat, d: Cells, chain: seq<Carried>,
                          path: seq<nat>, dropped: set<nat>)
    requires size > 0 && c.Shaped(size)
  {
    if exists k: nat :: KeptAt(h, c, size, e, k, d) then dropped == {}
    else Absent(h, c, size, e) && Displacing(h, c, size, e, limit, d, chain, path, dropped)
  }

  /** The element was at the first of its places that holds it, and is kept there. */
  ghost predicate KeptAt(h: Hash, c: Cells, size: nat, e: nat, k: nat, d: Cells)
    requires size > 0 && c.Shaped(size)
  {
    var locs := ComputeHashes(h, size, e);
    FirstHolding(c.table, locs, e, k) && d == Filled(c, locs[k], e, true)
  }

  ghost predicate Absent(h: Hash, c: Cells, size: nat, e: nat)
    requires size > 0 && c.Shaped(size)
  {
    forall k :: 0 <= k < 8 ==> c.table[ComputeHashes(h, size, e)[k]] != e
  }

  /** With an open place, or if the element was at one of its places already, nothing is dropped. */
  lemma NothingDropped(h: Hash, c: Cells, size: nat, e: nat, limit: nat, d: Cells, chain: seq<Carried>,
                       path: seq<nat>, dropped: set<nat>)
    requires size > 0 && limit > 0 && c.Shaped(size) && Placing(h, c, size, e, limit, d, chain, path, dropped)
    ensures !Absent(h, c, size, e) || !NoneOpen(h, c, size, e) ==> dropped == {}
  {
    if Absent(h, c, size, e) && !NoneOpen(h, c, size, e) && dropped != {} {
      assert Displacing(h, c, size, e, limit, d, chain, path, dropped);
      OpenTaken(h, c, size, chain, path);
    }
  }

  /** All slots of the current epoch become those of the last one, whose slots may be discarded. */
  ghost function Aged(c: Cells): (a: Cells)
    requires |c.garbage| == |c.recent|
    ensures |a.garbage| == |c.garbage| && |a.recent| == |c.recent| && a.table == c.table
    ensures forall i :: 0 <= i < |c.garbage| ==> a.garbage[i] == (c.garbage[i] || !c.recent[i]) && !a.recent[i]
  {
    Cells(c.table, seq(|c.garbage|, i requires 0 <= i < |c.garbage| => c.garbage[i] || !c.recent[i]),
          seq(|c.recent|, _ => false))
  }

  lemma {:induction false} NoneRecent(c: Cells, n: nat)
    requires n <= |c.garbage| && n <= |c.recent| && forall i :: 0 <= i < n ==> c.garbage[i] || !c.recent[i]
    ensures Recent(c, n) == 0
  {
    if n > 0 {
      NoneRecent(c, n - 1);
    }
  }

  /** A live element is at one of its places. */
  lemma PlacedFound(h: Hash, c: Cells, size: nat, e: nat)
    requires size > 0 && c.Shaped(size) && AllPlaced(h, c, size)
    ensures e in Live(c, size) ==> exists k :: 0 <= k < 8 && c.table[ComputeHashes(h, size, e)[k]] == e
  {
    if e in Live(c, size) {
      var i :| 0 <= i < size && !c.garbage[i] && c.table[i] == e;
      assert Placed(h, c, size, i);
      var locs := ComputeHashes(h, size, e);
      var k :| 0 <= k < |locs| && locs[k] == i;
      assert c.table[ComputeHashes(h, size, e)[k]] == e;
    }
  }

  /** Marking a slot for discarding loses at most its element. */
  lemma Discarding(h: Hash, c: Cells, size: nat, i: nat)
    requires c.Shaped(size) && AllPlaced(h, c, size) && i < size
    ensures var d := c.(garbage := c.garbage[i := true]);
            && AllPlaced(h, d, size) && Recent(d, size) <= Recent(c, size)
            && Live(d, size) <= Live(c, size) <= Live(d, size) + {c.table[i]}
            && (Distinct(c.table) && c.table[i] != DEFAULT ==> Live(d, size) == Live(c, size) - {c.table[i]})
  {
    var d := c.(garbage := c.garbage[i := true]);
    forall j | 0 <= j < size ensures Placed(h, d, size, j) {
      assert Placed(h, c, size, j);
    }
    RecentLess(d, c, size);
    forall x | x in Live(c, size) && x != c.table[i] ensures x in Live(d, size) {
      var j :| 0 <= j < size && !c.garbage[j] && c.table[j] == x;
      assert !d.garbage[j];
    }
    forall x | x in Live(d, size) ensures x in Live(c, size) {
      var j :| 0 <= j < size && !d.garbage[j] && d.table[j] == x;
      assert !c.garbage[j];
    }
  }

  lemma {:induction false} RecentLess(a: Cells, b: Cells, n: nat)
    requires n <= |a.garbage| && n <= |a.recent| && n <= |b.garbage| && n <= |b.recent|
    requires forall i :: 0 <= i < n && a.recent[i] && !a.garbage[i] ==> b.recent[i] && !b.garbage[i]
    ensures Recent(a, n) <= Recent(b, n)
  {
    if n > 0 {
      RecentLess(a, b, n - 1);
    }
  }
}
