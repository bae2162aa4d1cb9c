/** A stack of coin caches on a database. */
module CoinsStacks {
  import opened Options
  import opened Coins
  import opened CoinsCaches
  import opened CoinsViewCaches

  /** What each cache, from the lowest on, holds about every outpoint. */
  type Columns = imap<Outpoint, seq<Option<Slot>>>

  ghost predicate AllColumns(cols: Columns, n: nat) {
    forall o :: o in cols && |cols[o]| == n
  }

  /** What is visible of an outpoint above the lowest `n` caches. */
  ghost function ViewOf(db: map<Outpoint, Coin>, cols: Columns, n: nat, o: Outpoint): Option<Coin>
    requires o in cols && n <= |cols[o]|
  {
    Visible(StoredIn(db, o), cols[o], n)
  }

  ghost predicate CoherentAt(db: map<Outpoint, Coin>, cols: Columns, o: Outpoint) {
    o in cols ==> Coherent(StoredIn(db, o), cols[o])
  }

  ghost predicate AllCoherent(db: map<Outpoint, Coin>, cols: Columns) {
    forall o {:trigger CoherentAt(db, cols, o)} :: CoherentAt(db, cols, o)
  }

  /** Changing what is held of one outpoint leaves the others coherent. */
  lemma OthersCoherent(db: map<Outpoint, Coin>, cols: Columns, o: Outpoint, col: seq<Option<Slot>>)
    requires AllCoherent(db, cols) && Coherent(StoredIn(db, o), col)
    ensures AllCoherent(db, cols[o := col])
  {
    var after := cols[o := col];
    forall p ensures CoherentAt(db, after, p) {
      assert CoherentAt(db, cols, p);
    }
  }

  /** The same is visible everywhere, except perhaps of `o` above all `n` caches. */
  ghost predicate SameBut(db: map<Outpoint, Coin>, cols: Columns, cols': Columns, n: nat, o: Outpoint)
    requires AllColumns(cols, n) && AllColumns(cols', n)
  {
    forall m, p :: 0 <= m <= n && !(m == n && p == o) ==> ViewOf(db, cols', m, p) == ViewOf(db, cols, m, p)
  }

  ghost predicate SameViews(db: map<Outpoint, Coin>, cols: Columns, cols': Columns, n: nat)
    requires AllColumns(cols, n) && AllColumns(cols', n)
  {
    forall m, p :: 0 <= m <= n ==> ViewOf(db, cols', m, p) == ViewOf(db, cols, m, p)
  }

  lemma FetchedStep(db: Option<Coin>, col: seq<Option<Slot>>, n: nat)
    requires 0 < n <= |col| && col[n - 1].None?
    ensures Fetched(db, col, n - 1)[n - 1].None?
    ensures Fetched(db, col, n) ==
            Fetched(db, col, n - 1)[n - 1 := FetchedSlot(if n == 1 then db else Visible(db, col, n - 1))]
  {
    FetchedAbove(db, col, n - 1);
    assert Fetched(db, col, n - 1)[n - 1..][0] == col[n - 1..][0];
  }

  /** The columns after a fetch. */
  ghost function FetchedColumns(db: map<Outpoint, Coin>, cols: Columns, n: nat, o: Outpoint): Columns
    requires o in cols && n <= |cols[o]|
  {
    cols[o := Fetched(StoredIn(db, o), cols[o], n)]
  }

  /** What the base of the topmost of the lowest `n` caches answers. */
  ghost function BaseAnswer(db: map<Outpoint, Coin>, cols: Columns, n: nat, o: Outpoint): Option<Coin>
    requires o in cols && 0 < n <= |cols[o]|
  {
    if n == 1 then StoredIn(db, o) else ViewOf(db, cols, n - 1, o)
  }

  lemma FetchedHere(db: map<Outpoint, Coin>, cols: Columns, n: nat, o: Outpoint)
    requires o in cols && 0 < n <= |cols[o]| && cols[o][n - 1].Some?
    ensures FetchedColumns(db, cols, n, o) == cols
  {
  }

  lemma FetchedNext(db: map<Outpoint, Coin>, cols: Columns, n: nat, o: Outpoint, low: Columns, c: Option<Coin>)
    requires o in cols && 0 < n <= |cols[o]| && cols[o][n - 1].None? && low == FetchedColumns(db, cols, n - 1, o)
    requires c == BaseAnswer(db, cols, n, o)
    ensures o in low && |low[o]| == |cols[o]| && low[o][n - 1].None?
    ensures FetchedColumns(db, cols, n, o) == low[o := low[o][n - 1 := FetchedSlot(c)]]
  {
    FetchedStep(StoredIn(db, o), cols[o], n);
  }

  lemma FetchedAll(db: map<Outpoint, Coin>, cols: Columns, n: nat, levels: nat, o: Outpoint)
    requires AllColumns(cols, levels) && n <= levels && AllCoherent(db, cols)
    ensures var cols' := FetchedColumns(db, cols, n, o);
            AllColumns(cols', levels) && AllCoherent(db, cols') && SameViews(db, cols, cols', levels)
  {
    assert CoherentAt(db, cols, o);
    FetchKeeps(StoredIn(db, o), cols[o], n);
    OthersCoherent(db, cols, o, Fetched(StoredIn(db, o), cols[o], n));
  }

  lemma AddedAll(db: map<Outpoint, Coin>, cols: Columns, n: nat, o: Outpoint, coin: Coin, possibleOverwrite: bool)
    requires n > 0 && AllColumns(cols, n) && AllCoherent(db, cols) && !coin.IsSpent()
    requires AddAllowed(StoredIn(db, o), cols[o], possibleOverwrite)
    ensures var s := Added(cols[o][n - 1], coin, possibleOverwrite);
            var cols' := cols[o := cols[o][n - 1 := s]];
            && s.Some? && AllColumns(cols', n) && AllCoherent(db, cols') && SameBut(db, cols, cols', n, o)
            && ViewOf(db, cols', n, o) == Some(coin)
  {
    assert CoherentAt(db, cols, o);
    AddWorks(StoredIn(db, o), cols[o], coin, possibleOverwrite);
    OthersCoherent(db, cols, o, cols[o][n - 1 := Added(cols[o][n - 1], coin, possibleOverwrite)]);
  }

  lemma SpentAll(db: map<Outpoint, Coin>, cols: Columns, n: nat, o: Outpoint)
    requires n > 0 && AllColumns(cols, n) && AllCoherent(db, cols) && cols[o][n - 1].Some?
    ensures var cols' := cols[o := cols[o][n - 1 := SpentSlot(cols[o][n - 1].value)]];
            && AllColumns(cols', n) && AllCoherent(db, cols') && SameBut(db, cols, cols', n, o)
            && ViewOf(db, cols', n, o) == None
  {
    assert CoherentAt(db, cols, o);
    SpendWorks(StoredIn(db, o), cols[o]);
    OthersCoherent(db, cols, o, cols[o][n - 1 := SpentSlot(cols[o][n - 1].value)]);
  }

  /** What AddCoin leaves of a slot. */
  function PutSlot(s: Option<Slot>, coin: Coin, possibleOverwrite: bool): Option<Slot> {
    if coin.IsUnspendable() then s else Added(s, coin, possibleOverwrite)
  }

  lemma AddOutcome(db: map<Outpoint, Coin>, cols: Columns, n: nat, o: Outpoint, coin: Coin, possibleOverwrite: bool)
    requires n > 0 && AllColumns(cols, n) && AllCoherent(db, cols) && !coin.IsSpent()
    requires possibleOverwrite || ViewOf(db, cols, n, o) == None
    ensures Added(cols[o][n - 1], coin, possibleOverwrite).Some?
    ensures var cols' := cols[o := cols[o][n - 1 := PutSlot(cols[o][n - 1], coin, possibleOverwrite)]];
            && AllColumns(cols', n) && AllCoherent(db, cols') && SameBut(db, cols, cols', n, o)
            && ViewOf(db, cols', n, o) == if coin.IsUnspendable() then ViewOf(db, cols, n, o) else Some(coin)
  {
    AddedAll(db, cols, n, o, coin, possibleOverwrite);
    SameColumns(cols, o, n - 1);
  }

  /** A spent coin is found: the topmost cache has it, or it is the only one and the database has it. */
  ghost predicate FindsSpent(db: map<Outpoint, Coin>, cols: Columns, n: nat, o: Outpoint)
    requires o in cols && 0 < n <= |cols[o]|
  {
    var top := cols[o][n - 1];
    if top.Some? then top.value.coin.IsSpent() else n == 1 && o in db && db[o].IsSpent()
  }

  lemma SpendOutcome(db: map<Outpoint, Coin>, cols: Columns, n: nat, o: Outpoint)
    requires n > 0 && AllColumns(cols, n) && AllCoherent(db, cols)
    ensures var fetched := FetchedColumns(db, cols, n, o);
            var s := fetched[o][n - 1];
            var cols' := if s.Some? then fetched[o := fetched[o][n - 1 := SpentSlot(s.value)]] else fetched;
            && AllColumns(cols', n) && AllCoherent(db, cols') && SameBut(db, cols, cols', n, o)
            && ViewOf(db, cols', n, o) == None
            && ViewOf(db, cols, n, o) == (if s.Some? then Unspent(Some(s.value.coin)) else None)
            && (s.Some? && ViewOf(db, cols, n, o).None? <==> FindsSpent(db, cols, n, o))
  {
    var fetched: Columns := FetchedColumns(db, cols, n, o);
    FetchedAll(db, cols, n, n, o);
    FetchedAnswer(StoredIn(db, o), cols[o], n);
    var s: Option<Slot> := fetched[o][n - 1];
    if s.Some? {
      SpentAll(db, fetched, n, o);
      SameButTrans(db, cols, fetched, fetched[o := fetched[o][n - 1 := SpentSlot(s.value)]], n, o);
    }
  }

  /** What Uncache leaves of a slot. */
  function UncachedSlot(s: Option<Slot>): Option<Slot> {
    if s.Some? && !s.value.isDirty && !s.value.isFresh then None else s
  }

  lemma UncachedAll(db: map<Outpoint, Coin>, cols: Columns, n: nat, k: nat, o: Outpoint)
    requires k < n && AllColumns(cols, n) && AllCoherent(db, cols)
    ensures var cols' := cols[o := cols[o][k := UncachedSlot(cols[o][k])]];
            AllColumns(cols', n) && AllCoherent(db, cols') && SameViews(db, cols, cols', n)
  {
    var col := cols[o];
    if UncachedSlot(col[k]) != col[k] {
      assert CoherentAt(db, cols, o);
      UncacheKeeps(StoredIn(db, o), col, k);
      OthersCoherent(db, cols, o, col[k := UncachedSlot(col[k])]);
    } else {
      assert col[k := col[k]] == col;
      assert cols[o := col] == cols;
    }
  }

  ghost function WrittenColumns(cols: Columns, n: nat, k: nat, erase: bool): Columns
    requires AllColumns(cols, n) && 0 < k < n
  {
    imap o | o in cols :: Written(cols[o], k, erase)
  }

  /** Writing cache `k` to its parent makes the parent show what the cache shows; what is visible
      elsewhere stays. */
  ghost predicate ViewMoved(db: map<Outpoint, Coin>, cols: Columns, db': map<Outpoint, Coin>, cols': Columns, n: nat,
                            k: nat)
    requires AllColumns(cols, n) && AllColumns(cols', n) && k < n
  {
    forall m, o :: 0 <= m <= n ==> ViewOf(db', cols', m, o) == ViewOf(db, cols, if m == k then k + 1 else m, o)
  }

  lemma WrittenAll(db: map<Outpoint, Coin>, cols: Columns, n: nat, k: nat, erase: bool)
    requires AllColumns(cols, n) && 0 < k < n && AllCoherent(db, cols)
    ensures forall o :: !Misapplied(cols[o][k - 1], cols[o][k])
    ensures var cols' := WrittenColumns(cols, n, k, erase);
            AllColumns(cols', n) && AllCoherent(db, cols') && ViewMoved(db, cols, db, cols', n, k)
  {
    var cols' := WrittenColumns(cols, n, k, erase);
    forall o
      ensures o in cols' && |cols'[o]| == n && CoherentAt(db, cols', o) && !Misapplied(cols[o][k - 1], cols[o][k])
      ensures forall m :: 0 <= m <= n ==> ViewOf(db, cols', m, o) == ViewOf(db, cols, if m == k then k + 1 else m, o)
    {
      assert CoherentAt(db, cols, o);
      WriteWorks(StoredIn(db, o), cols[o], k, erase);
    }
  }

  lemma StoredAll(db: map<Outpoint, Coin>, cols: Columns, db': map<Outpoint, Coin>, cols': Columns, n: nat, erase: bool)
    requires n > 0 && AllColumns(cols, n) && AllColumns(cols', n) && AllCoherent(db, cols)
    requires forall o :: StoredIn(db', o) == Stored(StoredIn(db, o), cols[o][0])
    requires forall o :: cols'[o] == cols[o][0 := Left(cols[o][0], erase)]
    ensures AllCoherent(db', cols') && ViewMoved(db, cols, db', cols', n, 0)
  {
    forall o ensures CoherentAt(db', cols', o) {
      assert CoherentAt(db, cols, o);
      StoreWorks(StoredIn(db, o), cols[o], erase);
    }
    forall m, o | 0 <= m <= n ensures ViewOf(db', cols', m, o) == ViewOf(db, cols, if m == 0 then 1 else m, o) {
      assert CoherentAt(db, cols, o);
      StoreWorks(StoredIn(db, o), cols[o], erase);
    }
  }

  lemma PushedAll(db: map<Outpoint, Coin>, cols: Columns, cols': Columns, n: nat)
    requires AllColumns(cols, n) && AllCoherent(db, cols) && AllColumns(cols', n + 1)
    requires forall o :: cols'[o] == cols[o] + [None]
    ensures AllCoherent(db, cols')
    ensures forall m, o :: 0 <= m <= n + 1 ==> ViewOf(db, cols', m, o) == ViewOf(db, cols, if m <= n then m else n, o)
  {
    forall o ensures CoherentAt(db, cols', o) {
      assert CoherentAt(db, cols, o);
      PushKeeps(StoredIn(db, o), cols[o]);
    }
    forall m, o | 0 <= m <= n + 1 ensures ViewOf(db, cols', m, o) == ViewOf(db, cols, if m <= n then m else n, o) {
      assert CoherentAt(db, cols, o);
      PushKeeps(StoredIn(db, o), cols[o]);
    }
  }

  lemma SameColumns(cols: Columns, o: Outpoint, k: nat)
    requires o in cols && k < |cols[o]|
    ensures cols[o := cols[o][k := cols[o][k]]] == cols
  {
    assert cols[o][k := cols[o][k]] == cols[o];
  }

  lemma SameButTrans(db: map<Outpoint, Coin>, a: Columns, b: Columns, c: Columns, n: nat, o: Outpoint)
    requires AllColumns(a, n) && AllColumns(b, n) && AllColumns(c, n)
    requires SameViews(db, a, b, n) && SameBut(db, b, c, n, o)
    ensures SameBut(db, a, c, n, o)
  {
  }

  /** No cache, nothing held. */
  function Nowhere(o: Outpoint): seq<Option<Slot>> {
    []
  }

  class CoinsStack {
    var database: map<Outpoint, Coin>
    var caches: seq<CoinsViewCache>
    /** What each cache, from the lowest on, holds about every outpoint. */
    ghost var held: Columns

    ghost function Column(o: Outpoint): (col: seq<Option<Slot>>)
      reads this, caches
      ensures |col| == |caches| && forall i :: 0 <= i < |caches| ==> col[i] == caches[i].Get(o)
    {
      seq(|caches|, i requires 0 <= i < |caches| reads this, caches => caches[i].Get(o))
    }

    /** Of this outpoint the caches hold what `held` says. */
    ghost predicate Kept(o: Outpoint)
      reads this, caches
    {
      o in held && held[o] == Column(o)
    }

    /** What is visible of an outpoint above the lowest `n` caches. */
    ghost function View(n: nat, o: Outpoint): Option<Coin>
      requires Valid() && n <= |caches|
      reads this, caches
    {
      ViewOf(database, held, n, o)
    }

    /** The caches are different objects with intact lists and counters, and hold what `held` says. */
    ghost predicate Intact()
      reads this, caches
    {
      && (forall i, j :: 0 <= i < j < |caches| ==> caches[i] != caches[j])
      && (forall i {:trigger Sane(i)} :: 0 <= i < |caches| ==> Sane(i))
      && (forall o {:trigger Kept(o)} :: Kept(o))
      && AllColumns(held, |caches|)
    }

    ghost predicate Sane(i: nat)
      requires i < |caches|
      reads this, caches[i]
    {
      caches[i].Valid()
    }

    ghost predicate Valid()
      reads this, caches
    {
      Intact() && AllCoherent(database, held)
    }

    /** A database without caches. */
    constructor (db: map<Outpoint, Coin>)
      ensures Valid() && caches == [] && database == db
    {
      database, caches := db, [];
      held := imap o: Outpoint {:trigger Nowhere(o)} :: Nowhere(o);
      new;
      forall o ensures Kept(o) && CoherentAt(database, held, o) {
      }
    }

    /** Put a new cache on top. */
    method Push()
      requires Valid()
      modifies `caches, `held
      ensures Valid() && |caches| == old(|caches|) + 1 && caches[..old(|caches|)] == old(caches)
      ensures fresh(caches[old(|caches|)])
      ensures forall n, o :: 0 <= n <= |caches| ==>
                View(n, o) == old(View(if n <= |caches| then n else |caches|, o))
    {
      ghost var cols := held;
      var cache := new CoinsViewCache();
      caches := caches + [cache];
      forall i | 0 <= i < |caches| ensures Sane(i) { assert i < |caches| - 1 ==> old(Sane(i)); }
      ghost var now: Columns := imap o: Outpoint :: cols[o] + [None];
      forall p, i | 0 <= i < |caches| ensures caches[i].Get(p) == now[p][i] {
        assert old(Kept(p));
      }
      Record(now);
      PushedAll(database, cols, held, |caches| - 1);
    }

    method Holds(k: nat, o: Outpoint) returns (found: bool)
      requires Intact() && k < |caches|
      ensures found == held[o][k].Some?
    {
      assert Kept(o);
      found := o in caches[k].cacheCoins;
    }

    /** Find the entry at the topmost of the lowest `n` caches, asking the one below if it is not
        there. */
    method FetchCoin(n: nat, o: Outpoint) returns (found: bool)
      requires Valid() && 0 < n <= |caches|
      modifies `held, caches
      ensures caches == old(caches) && database == old(database)
      ensures Valid() && held == FetchedColumns(database, old(held), n, o)
      ensures found == held[o][n - 1].Some?
      decreases n, 1
    {
      ghost var cols := held;
      FetchedAll(database, cols, n, |caches|, o);
      found := Holds(n - 1, o);
      if found {
        FetchedHere(database, cols, n, o);
      } else {
        found := FetchBelow(n, o, database, cols);
      }
    }

    /** Ask the base for an entry the topmost of the lowest `n` caches does not have, and keep it. */
    method FetchBelow(n: nat, o: Outpoint, ghost db: map<Outpoint, Coin>, ghost cols: Columns) returns (found: bool)
      requires Valid() && 0 < n <= |caches| && database == db && held == cols && cols[o][n - 1].None?
      modifies `held, caches
      ensures caches == old(caches) && database == old(database)
      ensures Intact() && held == FetchedColumns(db, cols, n, o)
      ensures found == FetchedColumns(db, cols, n, o)[o][n - 1].Some?
      decreases n, 0
    {
      ghost var low := FetchedColumns(db, cols, n - 1, o);
      var c := AskBase(n, o, db, cols);
      FetchedNext(db, cols, n, o, low, c);
      Keep(n - 1, o, c, low, FetchedColumns(db, cols, n, o));
      found := c.Some?;
    }

    /** Takes down what the caches hold. */
    ghost method Record(cols: Columns)
      requires AllColumns(cols, |caches|)
      requires forall i, j :: 0 <= i < j < |caches| ==> caches[i] != caches[j]
      requires forall i {:trigger Sane(i)} :: 0 <= i < |caches| ==> Sane(i)
      requires forall p, i :: 0 <= i < |caches| ==> caches[i].Get(p) == cols[p][i]
      modifies `held
      ensures Intact() && held == cols
    {
      held := cols;
      forall i | 0 <= i < |caches| ensures Sane(i) { assert old(Sane(i)); }
      forall p ensures Kept(p) {
        assert Column(p) == held[p];
      }
    }

    /** Store what the base answered. */
    method Keep(k: nat, o: Outpoint, c: Option<Coin>, ghost cols: Columns, ghost after: Columns)
      requires Intact() && k < |caches| && held == cols && cols[o][k].None?
      requires after == cols[o := cols[o][k := FetchedSlot(c)]]
      modifies `held, caches
      ensures caches == old(caches) && database == old(database)
      ensures Intact() && held == after
    {
      assert Sane(k) && Kept(o);
      if c.Some? {
        caches[k].StoreFetched(o, c.value);
      }
      forall i | 0 <= i < |caches| ensures Sane(i) { assert old(Sane(i)); }
      ghost var now := cols[o := cols[o][k := FetchedSlot(c)]];
      forall p, i | 0 <= i < |caches| ensures caches[i].Get(p) == now[p][i] {
        assert old(Kept(p));
      }
      Record(now);
    }

    /** What the base of the topmost of the lowest `n` caches answers. */
    method AskBase(n: nat, o: Outpoint, ghost db: map<Outpoint, Coin>, ghost cols: Columns) returns (c: Option<Coin>)
      requires Valid() && 0 < n <= |caches| && database == db && held == cols
      modifies `held, caches
      ensures caches == old(caches) && database == old(database)
      ensures Valid() && held == FetchedColumns(db, cols, n - 1, o)
      ensures c == BaseAnswer(db, cols, n, o)
      decreases n - 1, 3
    {
      c := None;
      if n > 1 {
        c := GetCoin(n - 1, o);
      } else if o in database {
        c := Some(database[o]);
      }
    }

    /** The coin that is visible above the lowest `n` caches. */
    method GetCoin(n: nat, o: Outpoint) returns (r: Option<Coin>)
      requires Valid() && 0 < n <= |caches|
      modifies `held, caches
      ensures caches == old(caches) && database == old(database)
      ensures Valid() && held == FetchedColumns(database, old(held), n, o)
      ensures r == old(View(n, o))
      decreases n, 2
    {
      FetchedAnswer(StoredIn(database, o), held[o], n);
      var found := FetchCoin(n, o);
      assert Kept(o);
      r := None;
      if found && !caches[n - 1].cacheCoins[o].coin.IsSpent() {
        r := Some(caches[n - 1].cacheCoins[o].coin);
      }
    }

    method HaveCoin(n: nat, o: Outpoint) returns (r: bool)
      requires Valid() && 0 < n <= |caches|
      modifies `held, caches
      ensures caches == old(caches) && database == old(database)
      ensures Valid() && r == old(View(n, o)).Some? && SameViews(database, old(held), held, |caches|)
    {
      FetchedAll(database, held, n, |caches|, o);
      var c := GetCoin(n, o);
      r := c.Some?;
    }

    // ---------- Changing the topmost cache ----------

    method PutCoin(k: nat, o: Outpoint, coin: Coin, possibleOverwrite: bool, ghost cols: Columns) returns (ok: bool)
      requires Intact() && k < |caches| && held == cols && !coin.IsSpent()
      requires Added(cols[o][k], coin, possibleOverwrite).Some?
      modifies `held, caches
      ensures caches == old(caches) && database == old(database)
      ensures ok && Intact()
      ensures held == cols[o := cols[o][k := PutSlot(cols[o][k], coin, possibleOverwrite)]]
    {
      ghost var s := PutSlot(cols[o][k], coin, possibleOverwrite);
      assert Sane(k) && Kept(o);
      ok := caches[k].AddCoin(o, coin, possibleOverwrite);
      forall i | 0 <= i < |caches| ensures Sane(i) { assert old(Sane(i)); }
      ghost var now := cols[o := cols[o][k := s]];
      forall p, i | 0 <= i < |caches| ensures caches[i].Get(p) == now[p][i] {
        assert old(Kept(p));
      }
      Record(now);
    }

    /** Add a coin to the topmost cache. The caller may say that no coin is overwritten only if none
        is visible. */
    method AddCoin(o: Outpoint, coin: Coin, possibleOverwrite: bool) returns (ok: bool)
      requires Valid() && |caches| > 0 && !coin.IsSpent() && (possibleOverwrite || View(|caches|, o) == None)
      modifies `held, caches
      ensures caches == old(caches) && database == old(database)
      ensures ok && Valid() && SameBut(database, old(held), held, |caches|, o)
      ensures var top, was := |caches| - 1, old(held);
              held == was[o := was[o][top := PutSlot(was[o][top], coin, possibleOverwrite)]]
      ensures View(|caches|, o) == if coin.IsUnspendable() then old(View(|caches|, o)) else Some(coin)
    {
      var top := |caches| - 1;
      ghost var cols := held;
      AddOutcome(database, cols, |caches|, o, coin, possibleOverwrite);
      ok := PutCoin(top, o, coin, possibleOverwrite, cols);
    }

    method SpendSlot(k: nat, o: Outpoint, ghost cols: Columns) returns (moveout: Coin)
      requires Intact() && k < |caches| && held == cols && cols[o][k].Some?
      modifies `held, caches
      ensures caches == old(caches) && database == old(database)
      ensures Intact() && held == cols[o := cols[o][k := SpentSlot(cols[o][k].value)]]
      ensures moveout == cols[o][k].value.coin
    {
      assert Sane(k) && Kept(o);
      moveout := caches[k].SpendHere(o);
      forall i | 0 <= i < |caches| ensures Sane(i) { assert old(Sane(i)); }
      ghost var now := cols[o := cols[o][k := SpentSlot(cols[o][k].value)]];
      forall p, i | 0 <= i < |caches| ensures caches[i].Get(p) == now[p][i] {
        assert old(Kept(p));
      }
      Record(now);
    }

    /** Spend a coin in the topmost cache. */
    method SpendCoin(o: Outpoint) returns (found: bool, moveout: Option<Coin>)
      requires Valid() && |caches| > 0
      modifies `held, caches
      ensures caches == old(caches) && database == old(database)
      ensures Valid() && SameBut(database, old(held), held, |caches|, o) && View(|caches|, o) == None
      ensures found == moveout.Some? && Unspent(moveout) == old(View(|caches|, o))
      ensures found && old(View(|caches|, o)).None? <==> FindsSpent(database, old(held), |caches|, o)
      ensures var top, f := |caches| - 1, FetchedColumns(database, old(held), |caches|, o);
              held == if f[o][top].Some? then f[o := f[o][top := SpentSlot(f[o][top].value)]] else f
    {
      ghost var cols := held;
      SpendOutcome(database, cols, |caches|, o);
      found := FetchCoin(|caches|, o);
      moveout := None;
      if found {
        var c := SpendSlot(|caches| - 1, o, FetchedColumns(database, cols, |caches|, o));
        moveout := Some(c);
      }
    }

    method UncacheSlot(k: nat, o: Outpoint, ghost cols: Columns)
      requires Intact() && k < |caches| && held == cols
      modifies `held, caches
      ensures caches == old(caches) && database == old(database)
      ensures Intact() && held == cols[o := cols[o][k := UncachedSlot(cols[o][k])]]
    {
      assert Sane(k) && Kept(o);
      caches[k].Uncache(o);
      forall i | 0 <= i < |caches| ensures Sane(i) { assert old(Sane(i)); }
      ghost var now := cols[o := cols[o][k := UncachedSlot(cols[o][k])]];
      forall p, i | 0 <= i < |caches| ensures caches[i].Get(p) == now[p][i] {
        assert old(Kept(p));
      }
      Record(now);
    }

    /** Drop a coin from a cache if it is neither DIRTY nor FRESH. */
    method Uncache(n: nat, o: Outpoint)
      requires Valid() && 0 < n <= |caches|
      modifies `held, caches
      ensures caches == old(caches) && database == old(database)
      ensures Valid() && SameViews(database, old(held), held, |caches|)
      ensures var was := old(held); held == was[o := was[o][n - 1 := UncachedSlot(was[o][n - 1])]]
    {
      ghost var cols := held;
      UncachedAll(database, cols, |caches|, n - 1, o);
      UncacheSlot(n - 1, o, cols);
    }

    // ---------- Flush and Sync ----------

    method WriteSlots(k: nat, erase: bool, ghost cols: Columns) returns (ok: bool)
      requires Intact() && 0 < k < |caches| && held == cols
      requires forall o :: !Misapplied(cols[o][k - 1], cols[o][k])
      modifies `held, caches
      ensures caches == old(caches) && database == old(database)
      ensures ok && Intact() && held == WrittenColumns(cols, |caches|, k, erase)
      ensures !erase ==> caches[k].sentinelNext == Sentinel
    {
      forall o ensures !Misapplied(caches[k - 1].Get(o), caches[k].Get(o)) {
        assert Kept(o);
      }
      assert Sane(k) && Sane(k - 1);
      ok := caches[k].WriteTo(caches[k - 1], erase);
      forall i | 0 <= i < |caches| ensures Sane(i) { assert old(Sane(i)); }
      ghost var now := WrittenColumns(cols, |caches|, k, erase);
      forall p, i | 0 <= i < |caches| ensures caches[i].Get(p) == now[p][i] {
        assert old(Kept(p));
      }
      Record(now);
    }

    /** Write the changes of cache `k` to the cache below it, and empty it if `erase`. */
    method WriteDown(k: nat, erase: bool) returns (ok: bool)
      requires Valid() && 0 < k < |caches|
      modifies `held, caches
      ensures caches == old(caches) && database == old(database)
      ensures ok && Valid() && ViewMoved(database, old(held), database, held, |caches|, k)
      ensures held == WrittenColumns(old(held), |caches|, k, erase)
      ensures !erase ==> caches[k].sentinelNext == Sentinel
    {
      ghost var cols := held;
      WrittenAll(database, cols, |caches|, k, erase);
      ok := WriteSlots(k, erase, cols);
    }

    /** Write the changes of the lowest cache to the database, and empty it if `erase`. */
    method StoreSlots(erase: bool, ghost cols: Columns)
      requires Intact() && |caches| > 0 && held == cols
      modifies `database, `held, caches
      ensures caches == old(caches) && Intact()
      ensures forall o :: StoredIn(database, o) == Stored(StoredIn(old(database), o), cols[o][0])
      ensures forall o :: held[o] == cols[o][0 := Left(cols[o][0], erase)]
      ensures !erase ==> caches[0].sentinelNext == Sentinel
    {
      assert Sane(0);
      var db := caches[0].FlushOrSyncOut(database, erase);
      database := db;
      forall i | 0 <= i < |caches| ensures Sane(i) { assert old(Sane(i)); }
      ghost var now: Columns := imap o: Outpoint :: cols[o][0 := Left(cols[o][0], erase)];
      forall p, i | 0 <= i < |caches| ensures caches[i].Get(p) == now[p][i] {
        assert old(Kept(p));
      }
      forall o ensures StoredIn(database, o) == Stored(StoredIn(old(database), o), cols[o][0]) {
        assert old(Kept(o));
      }
      Record(now);
    }

    method StoreDown(erase: bool)
      requires Valid() && |caches| > 0
      modifies `database, `held, caches
      ensures caches == old(caches) && Valid()
      ensures ViewMoved(old(database), old(held), database, held, |caches|, 0)
      ensures forall o :: held[o] == old(held)[o][0 := Left(old(held)[o][0], erase)]
      ensures !erase ==> caches[0].sentinelNext == Sentinel
    {
      ghost var db, cols := database, held;
      StoreSlots(erase, cols);
      StoredAll(db, cols, database, held, |caches|, erase);
    }

    /** Flush (`erase`) or Sync the topmost of the lowest `n` caches: its base then shows what it
        shows, and what is visible above does not change. */
    method FlushOrSync(n: nat, erase: bool)
      requires Valid() && 0 < n <= |caches|
      modifies `database, `held, caches
      ensures caches == old(caches) && Valid()
      ensures ViewMoved(old(database), old(held), database, held, |caches|, n - 1)
      ensures forall o {:trigger held[o]} :: held[o][n - 1] == Left(old(held)[o][n - 1], erase)
      ensures !erase ==> caches[n - 1].sentinelNext == Sentinel
    {
      if n == 1 {
        StoreDown(erase);
      } else {
        var ok := WriteDown(n - 1, erase);
      }
    }
  }
}
