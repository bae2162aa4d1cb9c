/** Coins and the life of one outpoint in a stack of coin caches. */
module Coins {
  import opened Options

  datatype Outpoint = Outpoint(hash: nat, n: nat)

  /** A transaction output with where it was created; a null output marks a spent coin. */
  datatype Coin = Coin(value: int, script: seq<nat>, height: nat, coinBase: bool) {

    predicate IsSpent() {
      value == -1
    }

    /** Scripts that can never be satisfied: OP_RETURN or longer than 10000 bytes. */
    predicate IsUnspendable() {
      (|script| > 0 && script[0] == 0x6a) || |script| > 10000
    }

    /** Heap memory of the script; up to 28 bytes are stored inside the object. */
    function DynamicMemoryUsage(): nat {
      if |script| <= 28 then 0 else (|script| + 31) / 16 * 16
    }
  }

  /** What Coin::Clear leaves. */
  function Cleared(): (c: Coin)
    ensures c.IsSpent() && c.DynamicMemoryUsage() == 0
  {
    Coin(-1, [], 0, false)
  }

  /** What one cache holds about an outpoint. */
  datatype Slot = Slot(coin: Coin, isDirty: bool, isFresh: bool) {

    /** The five states out of eight that may occur. */
    ghost predicate Legal() {
      && !(isFresh && !isDirty && !coin.IsSpent())
      && !(!isFresh && !isDirty && coin.IsSpent())
      && !(isFresh && isDirty && coin.IsSpent())
    }
  }

  function Unspent(c: Option<Coin>): Option<Coin> {
    if c.Some? && !c.value.IsSpent() then c else None
  }

  // ---------- One outpoint in a stack of caches ----------

  /** What is visible of the outpoint above the database and the first `n` caches. */
  ghost function Visible(db: Option<Coin>, col: seq<Option<Slot>>, n: nat): Option<Coin>
    requires n <= |col|
  {
    if n == 0 then Unspent(db)
    else if col[n - 1].Some? then Unspent(Some(col[n - 1].value.coin))
    else Visible(db, col, n - 1)
  }

  /** The flags tell the truth: a coin that is not DIRTY is what the parent shows, and of a coin that
      is FRESH the parent shows nothing. */
  ghost predicate SlotCoherent(s: Slot, below: Option<Coin>) {
    && s.Legal()
    && (s.isFresh ==> below == None)
    && (!s.isDirty ==> Unspent(Some(s.coin)) == below)
  }

  ghost predicate Coherent(db: Option<Coin>, col: seq<Option<Slot>>) {
    forall k :: 0 <= k < |col| && col[k].Some? ==> SlotCoherent(col[k].value, Visible(db, col, k))
  }

  /** What lies below a cache does not depend on the caches above it. */
  lemma {:induction false} VisiblePrefix(db: Option<Coin>, a: seq<Option<Slot>>, b: seq<Option<Slot>>, n: nat)
    requires n <= |a| && n <= |b| && a[..n] == b[..n]
    ensures Visible(db, a, n) == Visible(db, b, n)
  {
    if n > 0 {
      assert a[..n - 1] == a[..n][..n - 1] && b[..n - 1] == b[..n][..n - 1];
      assert a[n - 1] == a[..n][n - 1] && b[n - 1] == b[..n][n - 1];
      VisiblePrefix(db, a, b, n - 1);
    }
  }

  /** From a level on where the same is visible, with the same caches above, all is visible alike. */
  lemma {:induction false} VisibleAbove(db: Option<Coin>, a: seq<Option<Slot>>, db': Option<Coin>,
                                        b: seq<Option<Slot>>, k: nat, n: nat)
    requires k <= n <= |a| == |b| && Visible(db, a, k) == Visible(db', b, k) && a[k..] == b[k..]
    ensures Visible(db, a, n) == Visible(db', b, n)
    decreases n
  {
    if n > k {
      assert a[n - 1] == a[k..][n - 1 - k] && b[n - 1] == b[k..][n - 1 - k];
      VisibleAbove(db, a, db', b, k, n - 1);
    }
  }

  /** Changing one level without changing what is visible there changes nothing that is visible. */
  lemma ReplaceLevel(db: Option<Coin>, col: seq<Option<Slot>>, k: nat, s: Option<Slot>)
    requires k < |col| && Coherent(db, col)
    requires s.Some? ==> SlotCoherent(s.value, Visible(db, col, k))
    requires Visible(db, col[k := s], k + 1) == Visible(db, col, k + 1)
    ensures Coherent(db, col[k := s])
    ensures forall n :: 0 <= n <= |col| ==> Visible(db, col[k := s], n) == Visible(db, col, n)
  {
    var c := col[k := s];
    forall n | 0 <= n <= |col| ensures Visible(db, c, n) == Visible(db, col, n) {
      if n <= k {
        VisiblePrefix(db, c, col, n);
      } else {
        VisibleAbove(db, c, db, col, k + 1, n);
      }
    }
    forall j | 0 <= j < |c| && c[j].Some? ensures SlotCoherent(c[j].value, Visible(db, c, j)) {
    }
  }

  /** A new empty cache shows what the cache below it shows. */
  lemma PushKeeps(db: Option<Coin>, col: seq<Option<Slot>>)
    requires Coherent(db, col)
    ensures Coherent(db, col + [None])
    ensures forall n :: 0 <= n <= |col| + 1 ==>
              Visible(db, col + [None], n) == Visible(db, col, if n <= |col| then n else |col|)
  {
    var c := col + [None];
    forall n | 0 <= n <= |col| ensures Visible(db, c, n) == Visible(db, col, n) {
      assert c[..n] == col[..n];
      VisiblePrefix(db, c, col, n);
    }
  }

  // ---------- Fetching ----------

  /** What a cache stores when its base answers `c`. */
  function FetchedSlot(c: Option<Coin>): Option<Slot> {
    if c.None? then None else Some(Slot(c.value, false, c.value.IsSpent()))
  }

  /** The caches below level `n` after a fetch at level `n - 1`: each that lacked the outpoint asked
      the one below it. */
  ghost function Fetched(db: Option<Coin>, col: seq<Option<Slot>>, n: nat): (r: seq<Option<Slot>>)
    requires n <= |col|
    ensures |r| == |col|
  {
    if n == 0 || col[n - 1].Some? then col
    else
      var lower := Fetched(db, col, n - 1);
      lower[n - 1 := FetchedSlot(if n == 1 then db else Visible(db, col, n - 1))]
  }

  lemma {:induction false} FetchedAbove(db: Option<Coin>, col: seq<Option<Slot>>, n: nat)
    requires n <= |col|
    ensures Fetched(db, col, n)[n..] == col[n..]
  {
    if n > 0 && col[n - 1].None? {
      var lower := Fetched(db, col, n - 1);
      FetchedAbove(db, col, n - 1);
      assert lower[n..] == lower[n - 1..][1..];
      assert col[n..] == col[n - 1..][1..];
    }
  }

  /** Fetching fills caches but changes nothing that is visible at any level. */
  lemma {:induction false} FetchKeeps(db: Option<Coin>, col: seq<Option<Slot>>, n: nat)
    requires n <= |col| && Coherent(db, col)
    ensures Coherent(db, Fetched(db, col, n))
    ensures forall m :: 0 <= m <= |col| ==> Visible(db, Fetched(db, col, n), m) == Visible(db, col, m)
  {
    if n > 0 && col[n - 1].None? {
      var lower := Fetched(db, col, n - 1);
      FetchKeeps(db, col, n - 1);
      FetchedAbove(db, col, n - 1);
      assert lower[n - 1] == lower[n - 1..][0] == col[n - 1..][0] == None;
      var s := FetchedSlot(if n == 1 then db else Visible(db, col, n - 1));
      VisibleIsUnspent(db, col, n - 1);
      VisiblePrefix(db, lower[n - 1 := s], lower, n - 1);
      ReplaceLevel(db, lower, n - 1, s);
    }
  }

  lemma {:induction false} VisibleIsUnspent(db: Option<Coin>, col: seq<Option<Slot>>, n: nat)
    requires n <= |col|
    ensures Visible(db, col, n).Some? ==> !Visible(db, col, n).value.IsSpent()
  {
    if n > 0 {
      VisibleIsUnspent(db, col, n - 1);
    }
  }

  /** What the cache answers after fetching. */
  lemma {:induction false} FetchedAnswer(db: Option<Coin>, col: seq<Option<Slot>>, n: nat)
    requires 0 < n <= |col|
    ensures var s := Fetched(db, col, n)[n - 1];
            Visible(db, col, n) == if s.Some? then Unspent(Some(s.value.coin)) else None
  {
    VisibleIsUnspent(db, col, n - 1);
  }

  /** Uncaching a coin that is neither DIRTY nor FRESH changes nothing that is visible. */
  lemma UncacheKeeps(db: Option<Coin>, col: seq<Option<Slot>>, k: nat)
    requires k < |col| && Coherent(db, col) && col[k].Some? && !col[k].value.isDirty && !col[k].value.isFresh
    ensures Coherent(db, col[k := None])
    ensures forall n :: 0 <= n <= |col| ==> Visible(db, col[k := None], n) == Visible(db, col, n)
  {
    VisiblePrefix(db, col[k := None], col, k);
    ReplaceLevel(db, col, k, None);
  }

  // ---------- Adding and spending in the topmost cache ----------

  /** What AddCoin makes of a slot; it throws when the slot holds an unspent coin that was not
      expected. */
  function Added(s: Option<Slot>, coin: Coin, possibleOverwrite: bool): Option<Slot> {
    if s.Some? && !possibleOverwrite && !s.value.coin.IsSpent() then None
    else Some(Slot(coin, true,
                   (s.Some? && s.value.isFresh) || (!possibleOverwrite && !(s.Some? && s.value.isDirty))))
  }

  /** What the caller has to know: unless it says that it may overwrite a coin, none is visible. */
  ghost predicate AddAllowed(db: Option<Coin>, col: seq<Option<Slot>>, possibleOverwrite: bool) {
    possibleOverwrite || Visible(db, col, |col|) == None
  }

  /** An allowed addition never throws, is what is then visible, and leaves true flags. */
  lemma AddWorks(db: Option<Coin>, col: seq<Option<Slot>>, coin: Coin, possibleOverwrite: bool)
    requires |col| > 0 && Coherent(db, col) && !coin.IsSpent() && AddAllowed(db, col, possibleOverwrite)
    ensures var top := |col| - 1;
            var s := Added(col[top], coin, possibleOverwrite);
            && s.Some? && Coherent(db, col[top := s]) && Visible(db, col[top := s], |col|) == Some(coin)
            && forall n :: 0 <= n <= top ==> Visible(db, col[top := s], n) == Visible(db, col, n)
  {
    var top := |col| - 1;
    TopLevel(db, col, Added(col[top], coin, possibleOverwrite));
  }

  lemma TopLevel(db: Option<Coin>, col: seq<Option<Slot>>, s: Option<Slot>)
    requires |col| > 0 && Coherent(db, col)
    ensures var top := |col| - 1;
            && (forall n :: 0 <= n <= top ==> Visible(db, col[top := s], n) == Visible(db, col, n))
            && (Coherent(db, col[top := s]) <==> (s.Some? ==> SlotCoherent(s.value, Visible(db, col, top))))
  {
    var top := |col| - 1;
    var c := col[top := s];
    forall n | 0 <= n <= top ensures Visible(db, c, n) == Visible(db, col, n) {
      VisiblePrefix(db, c, col, n);
    }
    if s.Some? ==> SlotCoherent(s.value, Visible(db, col, top)) {
      forall j | 0 <= j < |c| && c[j].Some? ensures SlotCoherent(c[j].value, Visible(db, c, j)) {
      }
    } else {
      assert c[top] == s;
    }
  }

  /** Exactly when an addition that does not throw leaves true flags: never wrongly FRESH. */
  lemma AddCoherentExactly(db: Option<Coin>, col: seq<Option<Slot>>, coin: Coin, possibleOverwrite: bool)
    requires |col| > 0 && Coherent(db, col) && !coin.IsSpent()
    requires Added(col[|col| - 1], coin, possibleOverwrite).Some?
    ensures var top := |col| - 1;
            Coherent(db, col[top := Added(col[top], coin, possibleOverwrite)]) <==>
            (possibleOverwrite || (col[top].Some? && col[top].value.isDirty) || Visible(db, col, top) == None)
  {
    TopLevel(db, col, Added(col[|col| - 1], coin, possibleOverwrite));
  }

  /** What SpendCoin makes of a fetched slot: a FRESH one disappears, another one is marked. */
  function SpentSlot(s: Slot): Option<Slot> {
    if s.isFresh then None else Some(Slot(Cleared(), true, false))
  }

  /** Spending makes the outpoint invisible at the top and changes nothing below. */
  lemma SpendWorks(db: Option<Coin>, col: seq<Option<Slot>>)
    requires |col| > 0 && Coherent(db, col) && col[|col| - 1].Some?
    ensures var top := |col| - 1;
            var s := SpentSlot(col[top].value);
            && Coherent(db, col[top := s]) && Visible(db, col[top := s], |col|) == None
            && forall n :: 0 <= n <= top ==> Visible(db, col[top := s], n) == Visible(db, col, n)
  {
    TopLevel(db, col, SpentSlot(col[|col| - 1].value));
  }

  // ---------- Writing to the parent ----------

  /** FRESH was misapplied: the parent has the coin unspent. */
  predicate Misapplied(parent: Option<Slot>, child: Option<Slot>) {
    child.Some? && child.value.isDirty && child.value.isFresh && parent.Some? && !parent.value.coin.IsSpent()
  }

  /** What BatchWrite makes of the slot of the parent cache. */
  function Combined(parent: Option<Slot>, child: Option<Slot>): Option<Slot> {
    if child.None? || !child.value.isDirty then parent
    else
      var c := child.value;
      if parent.None? then
        if c.isFresh && c.coin.IsSpent() then None else Some(Slot(c.coin, true, c.isFresh))
      else if parent.value.isFresh && c.coin.IsSpent() then None
      else Some(Slot(c.coin, true, parent.value.isFresh))
  }

  /** What the database makes of a dirty entry. */
  function Stored(db: Option<Coin>, child: Option<Slot>): Option<Coin> {
    if child.None? || !child.value.isDirty then db
    else if child.value.coin.IsSpent() then None
    else Some(child.value.coin)
  }

  /** What a cache keeps after Sync: spent coins go, the others are clean. */
  function Synced(s: Option<Slot>): Option<Slot> {
    if s.None? then None
    else if s.value.isDirty || s.value.isFresh then
      if s.value.coin.IsSpent() then None else Some(Slot(s.value.coin, false, false))
    else s
  }

  /** What a cache holds itself, once it has been flushed or synced. */
  function Left(s: Option<Slot>, erase: bool): Option<Slot> {
    if erase then None else Synced(s)
  }

  /** A cache may keep what Sync leaves, or nothing, once its parent shows the same. */
  lemma Handed(s: Option<Slot>, below: Option<Coin>, erase: bool)
    requires s.Some? ==> s.value.Legal()
    requires s.Some? ==> below == Unspent(Some(s.value.coin))
    ensures var s' := Left(s, erase);
            && (s'.Some? ==> SlotCoherent(s'.value, below))
            && (if s'.Some? then Unspent(Some(s'.value.coin)) else below) == below
  {
  }

  /** The parent's slot after BatchWrite is coherent and shows what the child showed, and the FRESH
      flag of the child was not misapplied. */
  lemma CombinedShows(parent: Option<Slot>, child: Option<Slot>, below: Option<Coin>)
    requires parent.Some? ==> SlotCoherent(parent.value, below)
    requires child.Some? ==>
               SlotCoherent(child.value, if parent.Some? then Unspent(Some(parent.value.coin)) else below)
    ensures !Misapplied(parent, child)
    ensures var p := Combined(parent, child);
            && (p.Some? ==> SlotCoherent(p.value, below))
            && (if p.Some? then Unspent(Some(p.value.coin)) else below) ==
               (if child.Some? then Unspent(Some(child.value.coin))
                else if parent.Some? then Unspent(Some(parent.value.coin)) else below)
  {
  }

  /** Flush (`erase`) or Sync at level `k` into the cache below it. */
  function Written(col: seq<Option<Slot>>, k: nat, erase: bool): seq<Option<Slot>>
    requires 0 < k < |col|
  {
    col[k - 1 := Combined(col[k - 1], col[k])][k := Left(col[k], erase)]
  }

  /** Flushing or syncing a cache makes its parent show what it showed, changes nothing that is
      visible at any other level, and leaves true flags everywhere. */
  lemma WriteWorks(db: Option<Coin>, col: seq<Option<Slot>>, k: nat, erase: bool)
    requires 0 < k < |col| && Coherent(db, col)
    ensures !Misapplied(col[k - 1], col[k])
    ensures Coherent(db, Written(col, k, erase))
    ensures forall n :: 0 <= n <= |col| ==>
              Visible(db, Written(col, k, erase), n) == Visible(db, col, if n == k then k + 1 else n)
  {
    var w := Written(col, k, erase);
    var below := Visible(db, col, k - 1);
    CombinedShows(col[k - 1], col[k], below);
    forall n | 0 <= n <= k - 1 ensures Visible(db, w, n) == Visible(db, col, n) {
      VisiblePrefix(db, w, col, n);
    }
    Handed(col[k], Visible(db, w, k), erase);
    forall n | k < n <= |col| ensures Visible(db, w, n) == Visible(db, col, n) {
      VisibleAbove(db, w, db, col, k + 1, n);
    }
    forall j | 0 <= j < |w| && w[j].Some? ensures SlotCoherent(w[j].value, Visible(db, w, j)) {
      if j != k - 1 && j != k {
        assert w[j] == col[j];
      }
    }
  }

  /** The same at level 0, into the database. */
  lemma StoreWorks(db: Option<Coin>, col: seq<Option<Slot>>, erase: bool)
    requires |col| > 0 && Coherent(db, col)
    ensures var db', w := Stored(db, col[0]), col[0 := Left(col[0], erase)];
            && Coherent(db', w)
            && forall n :: 0 <= n <= |col| ==> Visible(db', w, n) == Visible(db, col, if n == 0 then 1 else n)
  {
    var db', w := Stored(db, col[0]), col[0 := Left(col[0], erase)];
    Handed(col[0], Visible(db', w, 0), erase);
    forall n | 0 < n <= |col| ensures Visible(db', w, n) == Visible(db, col, n) {
      VisibleAbove(db', w, db, col, 1, n);
    }
    forall j | 0 <= j < |w| && w[j].Some? ensures SlotCoherent(w[j].value, Visible(db', w, j)) {
      if j != 0 {
        assert w[j] == col[j];
      }
    }
  }

  /** Whether a spend of an added coin reaches the parent, be it a cache or the database, when the cache
      is flushed: exactly when the caller did not promise wrongly, or the wrong promise did no harm. */
  lemma SpendReachesParentExactly(db: Option<Coin>, col: seq<Option<Slot>>, coin: Coin, possibleOverwrite: bool)
    requires |col| > 0 && Coherent(db, col) && !coin.IsSpent()
    requires Added(col[|col| - 1], coin, possibleOverwrite).Some?
    ensures var top := |col| - 1;
            var spent := SpentSlot(Added(col[top], coin, possibleOverwrite).value);
            var shown := if top == 0 then Unspent(Stored(db, spent))
                         else Visible(db, Written(col[top := spent], top, true), top);
            shown == None <==>
            possibleOverwrite || (col[top].Some? && col[top].value.isDirty) || Visible(db, col, top) == None
  {
    var top := |col| - 1;
    var spent := SpentSlot(Added(col[top], coin, possibleOverwrite).value);
    if col[top].Some? {
      assert SlotCoherent(col[top].value, Visible(db, col, top));
    }
    if top > 0 {
      ParentAfter(db, col, col[top := spent], Written(col[top := spent], top, true), top);
    }
  }

  /** What is visible above the parent depends on its slot alone, or on what is below it. */
  lemma ParentAfter(db: Option<Coin>, col: seq<Option<Slot>>, mid: seq<Option<Slot>>, after: seq<Option<Slot>>,
                    top: nat)
    requires 0 < top < |col| == |mid| == |after| && Coherent(db, col)
    requires mid == col[top := mid[top]] && after == Written(mid, top, true)
    ensures after[top - 1] == Combined(col[top - 1], mid[top])
    ensures Visible(db, after, top - 1) == Visible(db, col, top - 1)
    ensures col[top - 1].Some? ==> SlotCoherent(col[top - 1].value, Visible(db, col, top - 1))
  {
    VisiblePrefix(db, after, col, top - 1);
  }

  /** Without the caller's promise the cache loses a spend: a coin that the database has is added
      again as new, spent and flushed, and the database still has it. */
  lemma WrongPromiseLosesSpend(coin: Coin)
    requires !coin.IsSpent()
    ensures var db, col := Some(coin), [None];
            var added := Added(col[0], coin, false);
            && Coherent(db, col) && !AddAllowed(db, col, false) && added.Some?
            && SpentSlot(added.value) == None && Stored(db, SpentSlot(added.value)) == Some(coin)
  {
    var col: seq<Option<Slot>> := [None];
    assert Visible(Some(coin), col, 1) == Visible(Some(coin), col, 0) == Some(coin);
  }

  /** A coin of the database is spent in a cache: nothing is visible any more, but the slot stays, and a
      second spend finds it and answers that it had something to spend. */
  lemma SpentTwice(coin: Coin)
    requires !coin.IsSpent()
    ensures var db, col := Some(coin), [None];
            var first := Fetched(db, col, 1);
            && first[0].Some? && Visible(db, first, 1) == Some(coin)
            && var spent := [SpentSlot(first[0].value)];
            && spent == [Some(Slot(Cleared(), true, false))] && Coherent(db, spent) && Visible(db, spent, 1) == None
            && Fetched(db, spent, 1)[0].Some? && [SpentSlot(spent[0].value)] == spent
  {
    var col: seq<Option<Slot>> := [None];
    assert Fetched(Some(coin), col, 0) == col;
    assert Coherent(Some(coin), col);
    var first := Fetched(Some(coin), col, 1);
    assert first == [Some(Slot(coin, false, false))];
  }
}
