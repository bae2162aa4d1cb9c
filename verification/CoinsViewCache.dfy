/** The operations of one coin cache. */
module CoinsViewCaches {
  import opened Options
  import opened Coins
  import opened CoinsCaches

  function Lookup(slots: map<Outpoint, Slot>, o: Outpoint): Option<Slot> {
    if o in slots then Some(slots[o]) else None
  }

  function StoredIn(db: map<Outpoint, Coin>, o: Outpoint): Option<Coin> {
    if o in db then Some(db[o]) else None
  }

  function Put(slots: map<Outpoint, Slot>, o: Outpoint, s: Option<Slot>): map<Outpoint, Slot> {
    if s.Some? then slots[o := s.value] else slots - {o}
  }

  ghost predicate AllLegal(slots: map<Outpoint, Slot>) {
    forall o :: o in slots ==> slots[o].Legal()
  }

  lemma NotListed(m: map<Outpoint, Entry>, prev: Link, next: Link, list: seq<Outpoint>, o: Outpoint)
    requires Linked(m, prev, next, list) && o in m && !m[o].Flagged()
    ensures o !in list && SlotsOf(m) == SlotsOf(m)[o := Slot(m[o].coin, false, false)]
  {
    forall i | 0 <= i < |list| ensures list[i] != o {
      assert Threaded(m, list, i);
    }
  }

  lemma IsListed(m: map<Outpoint, Entry>, prev: Link, next: Link, list: seq<Outpoint>, o: Outpoint)
    requires Linked(m, prev, next, list) && o in m && m[o].Flagged()
    ensures o in list
  {
    assert Listed(m, list, o);
  }

  /** Only the last of several updates of one slot counts. */
  lemma UpdateTwice(slots: map<Outpoint, Slot>, o: Outpoint, a: Slot, b: Slot)
    ensures slots[o := a][o := b] == slots[o := b]
  {
  }

  lemma LegalUpdate(slots: map<Outpoint, Slot>, o: Outpoint, s: Slot)
    requires AllLegal(slots) && s.Legal()
    ensures AllLegal(slots[o := s]) && AllLegal(slots - {o})
  {
  }

  class CoinsViewCache {
    var cacheCoins: map<Outpoint, Entry>
    var sentinelPrev: Link
    var sentinelNext: Link
    var cachedCoinsUsage: int
    ghost var list: seq<Outpoint>

    /** The pointers thread exactly the flagged entries. */
    ghost predicate WellLinked()
      reads this
    {
      Linked(cacheCoins, sentinelPrev, sentinelNext, list)
    }

    ghost function Slots(): map<Outpoint, Slot>
      reads this
    {
      SlotsOf(cacheCoins)
    }

    ghost function Get(o: Outpoint): Option<Slot>
      reads this
    {
      Lookup(Slots(), o)
    }

    /** What the sanity check demands: an intact list of the flagged entries, legal states, and a
        usage counter that is the sum over the entries. */
    ghost predicate Valid()
      reads this
    {
      WellLinked() && AllLegal(Slots()) && cachedCoinsUsage == TotalUsage(Slots())
    }

    constructor ()
      ensures Valid() && Slots() == map[] && list == []
    {
      cacheCoins := map[];
      sentinelPrev, sentinelNext := Sentinel, Sentinel;
      cachedCoinsUsage := 0;
      list := [];
      assert SlotsOf(map[]) == map[];
    }

    // ---------- Flags ----------

    method AddFlags(o: Outpoint, dirty: bool, isFresh: bool)
      requires WellLinked() && o in cacheCoins && (dirty || isFresh)
      modifies this
      ensures WellLinked() && cachedCoinsUsage == old(cachedCoinsUsage)
      ensures cacheCoins.Keys == old(cacheCoins.Keys)
      ensures var e := old(cacheCoins[o]);
              && Slots() == old(Slots())[o := Slot(e.coin, e.isDirty || dirty, e.isFresh || isFresh)]
              && list == if e.Flagged() then old(list) else old(list) + [o]
    {
      var e := cacheCoins[o];
      if !e.Flagged() {
        AppendLinked(cacheCoins, sentinelPrev, sentinelNext, list, o, dirty, isFresh);
        cacheCoins := Appended(cacheCoins, sentinelPrev, o, dirty, isFresh);
        if sentinelPrev == Sentinel {
          sentinelNext := Pair(o);
        }
        sentinelPrev := Pair(o);
        list := list + [o];
      } else {
        FlagsReplaced(cacheCoins, sentinelPrev, sentinelNext, list, o, e.isDirty || dirty, e.isFresh || isFresh);
        cacheCoins := cacheCoins[o := e.(isDirty := e.isDirty || dirty, isFresh := e.isFresh || isFresh)];
      }
    }

    method SetClean(o: Outpoint)
      requires WellLinked() && o in cacheCoins
      modifies this
      ensures WellLinked() && cachedCoinsUsage == old(cachedCoinsUsage) && o in cacheCoins && !cacheCoins[o].Flagged()
      ensures Slots() == old(Slots())[o := Slot(old(cacheCoins[o].coin), false, false)]
      ensures o in old(list) ==> exists i :: 0 <= i < |old(list)| && old(list)[i] == o && list == RemoveAt(old(list), i)
      ensures !old(cacheCoins[o].Flagged()) ==> list == old(list)
    {
      if !cacheCoins[o].Flagged() {
        NotListed(cacheCoins, sentinelPrev, sentinelNext, list, o);
        return;
      }
      IsListed(cacheCoins, sentinelPrev, sentinelNext, list, o);
      ghost var i :| 0 <= i < |list| && list[i] == o;
      UnlinkLinked(cacheCoins, sentinelPrev, sentinelNext, list, i);
      NeighboursOf(cacheCoins, sentinelPrev, sentinelNext, list, i);
      var prev, next := cacheCoins[o].prev.value, cacheCoins[o].next.value;
      cacheCoins := Unlinked(cacheCoins, o);
      if next == Sentinel {
        sentinelPrev := prev;
      }
      if prev == Sentinel {
        sentinelNext := next;
      }
      list := RemoveAt(list, i);
    }

    /** Remove an entry; its destructor takes it out of the list. */
    method Erase(o: Outpoint)
      requires WellLinked() && o in cacheCoins
      modifies this
      ensures WellLinked() && cachedCoinsUsage == old(cachedCoinsUsage)
      ensures Slots() == old(Slots()) - {o}
      ensures o in old(list) ==> exists i :: 0 <= i < |old(list)| && old(list)[i] == o && list == RemoveAt(old(list), i)
    {
      SetClean(o);
      PlainRemoved(cacheCoins, sentinelPrev, sentinelNext, list, o);
      cacheCoins := cacheCoins - {o};
    }

    // ---------- Operations on one entry ----------

    /** Keep what the base answered. */
    method StoreFetched(o: Outpoint, coin: Coin)
      requires Valid() && o !in cacheCoins
      modifies this
      ensures Valid() && Slots() == old(Slots())[o := Slot(coin, false, coin.IsSpent())]
    {
      ghost var before, s := Slots(), Slot(coin, false, coin.IsSpent());
      PlainAdded(cacheCoins, sentinelPrev, sentinelNext, list, o, coin);
      UsageUpdate(before, o, s);
      LegalUpdate(before, o, s);
      UpdateTwice(before, o, Slot(coin, false, false), s);
      cacheCoins := cacheCoins[o := Entry(coin, false, false, None, None)];
      cachedCoinsUsage := cachedCoinsUsage + coin.DynamicMemoryUsage();
      if coin.IsSpent() {
        AddFlags(o, false, true);
      }
    }

    method Uncache(o: Outpoint)
      requires Valid()
      modifies this
      ensures Valid()
      ensures Slots() == if o in old(Slots()) && !old(Slots())[o].isDirty && !old(Slots())[o].isFresh
                         then old(Slots()) - {o} else old(Slots())
    {
      if o in cacheCoins && !cacheCoins[o].isDirty && !cacheCoins[o].isFresh {
        UsageRemove(Slots(), o);
        cachedCoinsUsage := cachedCoinsUsage - cacheCoins[o].coin.DynamicMemoryUsage();
        Erase(o);
      }
    }

    /** Replace the coin of an entry and mark it. */
    method Overwrite(o: Outpoint, coin: Coin, isFresh: bool)
      requires WellLinked() && o in cacheCoins
      modifies this
      ensures WellLinked() && cachedCoinsUsage == old(cachedCoinsUsage)
      ensures Slots() == old(Slots())[o := Slot(coin, true, old(cacheCoins[o].isFresh) || isFresh)]
    {
      ghost var before, e := Slots(), cacheCoins[o];
      CoinReplaced(cacheCoins, sentinelPrev, sentinelNext, list, o, coin);
      cacheCoins := cacheCoins[o := cacheCoins[o].(coin := coin)];
      UpdateTwice(before, o, Slot(coin, e.isDirty, e.isFresh), Slot(coin, true, e.isFresh));
      AddFlags(o, true, false);
      if isFresh {
        UpdateTwice(before, o, Slot(coin, true, e.isFresh), Slot(coin, true, true));
        AddFlags(o, false, true);
      }
    }

    /** Find the entry, or create an empty one. */
    method Emplace(o: Outpoint) returns (inserted: bool)
      requires WellLinked()
      modifies this
      ensures WellLinked() && cachedCoinsUsage == old(cachedCoinsUsage) && o in cacheCoins
      ensures inserted == (o !in old(cacheCoins))
      ensures if inserted then Slots() == old(Slots())[o := Slot(Cleared(), false, false)] else Slots() == old(Slots())
    {
      inserted := o !in cacheCoins;
      if inserted {
        PlainAdded(cacheCoins, sentinelPrev, sentinelNext, list, o, Cleared());
        cacheCoins := cacheCoins[o := Entry(Cleared(), false, false, None, None)];
      }
    }

    /** Add a coin. Fails, as the original throws, when a coin that was not expected is there. */
    method AddCoin(o: Outpoint, coin: Coin, possibleOverwrite: bool) returns (ok: bool)
      requires Valid() && !coin.IsSpent()
      modifies this
      ensures ok <==> coin.IsUnspendable() || Added(old(Get(o)), coin, possibleOverwrite).Some?
      ensures ok ==> Valid()
      ensures !ok ==> o in Slots() && (Valid() <==> Slots()[o].coin.DynamicMemoryUsage() == 0)
      ensures coin.IsUnspendable() || !ok ==> Slots() == old(Slots())
      ensures ok && !coin.IsUnspendable() ==>
                Slots() == old(Slots())[o := Added(old(Get(o)), coin, possibleOverwrite).value]
    {
      if coin.IsUnspendable() {
        return true;
      }
      ghost var before := Slots();
      ghost var s := Added(Get(o), coin, possibleOverwrite);
      var inserted := Emplace(o);
      assert Slots()[o] == cacheCoins[o].AsSlot();
      var isFresh := false;
      if !inserted {
        cachedCoinsUsage := cachedCoinsUsage - cacheCoins[o].coin.DynamicMemoryUsage();
      }
      if !possibleOverwrite {
        if !cacheCoins[o].coin.IsSpent() {
          return false;
        }
        // A spent coin that is DIRTY was not flushed yet: it must not become FRESH.
        isFresh := !cacheCoins[o].isDirty;
      }
      assert s == Some(Slot(coin, true, cacheCoins[o].isFresh || isFresh));
      UsageUpdate(before, o, s.value);
      LegalUpdate(before, o, s.value);
      UpdateTwice(before, o, Slot(Cleared(), false, false), s.value);
      Overwrite(o, coin, isFresh);
      cachedCoinsUsage := cachedCoinsUsage + coin.DynamicMemoryUsage();
      ok := true;
    }

    /** Spend the coin of an entry. */
    method SpendHere(o: Outpoint) returns (moveout: Coin)
      requires Valid() && o in cacheCoins
      modifies this
      ensures Valid() && moveout == old(cacheCoins[o].coin)
      ensures Slots() == Put(old(Slots()), o, SpentSlot(old(Slots())[o]))
    {
      ghost var before, s := Slots(), Slot(Cleared(), true, false);
      UsageRemove(before, o);
      UsageUpdate(before, o, s);
      LegalUpdate(before, o, s);
      moveout := cacheCoins[o].coin;
      cachedCoinsUsage := cachedCoinsUsage - moveout.DynamicMemoryUsage();
      if cacheCoins[o].isFresh {
        Erase(o);
      } else {
        Overwrite(o, Cleared(), false);
      }
    }

    // ---------- Writing to the parent ----------

    /** A dirty entry of the child that is not in the map. */
    method CreateEntry(o: Outpoint, child: Slot)
      requires Valid() && child.isDirty && child.Legal() && o !in cacheCoins
      modifies this
      ensures Valid() && Slots() == old(Slots())[o := child]
    {
      ghost var before := Slots();
      UsageUpdate(before, o, child);
      LegalUpdate(before, o, child);
      UpdateTwice(before, o, Slot(Cleared(), false, false), child);
      var inserted := Emplace(o);
      assert Slots()[o] == cacheCoins[o].AsSlot();
      Overwrite(o, child.coin, child.isFresh);
      cachedCoinsUsage := cachedCoinsUsage + child.coin.DynamicMemoryUsage();
    }

    /** A dirty entry of the child that is in the map. */
    method ModifyEntry(o: Outpoint, child: Slot)
      requires Valid() && child.isDirty && child.Legal() && o in cacheCoins
      requires !(child.isFresh && !cacheCoins[o].coin.IsSpent())
      modifies this
      ensures Valid() && Slots() == Put(old(Slots()), o, Combined(Some(old(Slots())[o]), Some(child)))
    {
      ghost var before, e := Slots(), cacheCoins[o];
      UsageRemove(before, o);
      cachedCoinsUsage := cachedCoinsUsage - cacheCoins[o].coin.DynamicMemoryUsage();
      if cacheCoins[o].isFresh && child.coin.IsSpent() {
        LegalUpdate(before, o, child);
        Erase(o);
      } else {
        UsageUpdate(before, o, Slot(child.coin, true, e.isFresh));
        LegalUpdate(before, o, Slot(child.coin, true, e.isFresh));
        Overwrite(o, child.coin, false);
        cachedCoinsUsage := cachedCoinsUsage + child.coin.DynamicMemoryUsage();
      }
    }

    /** Take over one dirty entry of the child. Fails, as the original throws, when FRESH was
        misapplied. */
    method WriteEntry(o: Outpoint, child: Slot) returns (ok: bool)
      requires Valid() && child.isDirty && child.Legal()
      modifies this
      ensures ok <==> !Misapplied(old(Get(o)), Some(child))
      ensures ok ==> Valid() && Slots() == Put(old(Slots()), o, Combined(old(Get(o)), Some(child)))
      ensures !ok ==> unchanged(this)
    {
      if o !in cacheCoins {
        if !(child.isFresh && child.coin.IsSpent()) {
          CreateEntry(o, child);
        }
      } else {
        if child.isFresh && !cacheCoins[o].coin.IsSpent() {
          return false;
        }
        ModifyEntry(o, child);
      }
      ok := true;
    }

    /** The same for any entry; those that are not DIRTY are ignored. */
    method TakeOver(o: Outpoint, child: Slot) returns (ok: bool)
      requires Valid() && child.Legal()
      modifies this
      ensures ok <==> !Misapplied(old(Get(o)), Some(child))
      ensures ok ==> Valid() && Slots() == Put(old(Slots()), o, Combined(old(Get(o)), Some(child)))
    {
      ok := true;
      if child.isDirty {
        ok := WriteEntry(o, child);
      }
    }

    /** The next entry of the list after `o`, the `i`th. Unless the caller will erase all anyway, a
        spent entry is erased and another one is unflagged. */
    method NextAndMaybeErase(o: Outpoint, willErase: bool, ghost i: nat) returns (next: Link)
      requires Valid() && i < |list| && o == list[i] && (!willErase ==> i == 0)
      modifies this
      ensures Valid() && next == LinkAt(old(list), i + 1)
      ensures willErase ==> unchanged(this)
      ensures !willErase ==> list == old(list)[1..] && Slots() == Put(old(Slots()), o, Synced(old(Get(o))))
    {
      ghost var before, was := Slots(), list;
      NeighboursOf(cacheCoins, sentinelPrev, sentinelNext, list, i);
      next := cacheCoins[o].next.value;
      if !willErase {
        ghost var s := Slot(cacheCoins[o].coin, false, false);
        FirstOnly(list);
        if cacheCoins[o].coin.IsSpent() {
          UsageRemove(before, o);
          cachedCoinsUsage := cachedCoinsUsage - cacheCoins[o].coin.DynamicMemoryUsage();
          Erase(o);
        } else {
          UsageUpdate(before, o, s);
          LegalUpdate(before, o, s);
          SetClean(o);
        }
      }
    }

    /** A cursor `cur` is at place `i` of the list `flagged` there was when the entries were `theirs`. */
    ghost predicate Visiting(flagged: seq<Outpoint>, theirs: map<Outpoint, Slot>, i: nat, cur: Link, willErase: bool)
      reads this
    {
      && Valid() && NoRepeats(flagged) && i <= |flagged| && cur == LinkAt(flagged, i)
      && list == (if willErase then flagged else flagged[i..])
      && (if willErase then Slots() == theirs else SyncedTo(Slots(), theirs, flagged[..i]))
    }

    /** The entry a cursor is at. */
    method EntryAt(cur: Link, willErase: bool, ghost flagged: seq<Outpoint>, ghost theirs: map<Outpoint, Slot>,
                   ghost i: nat)
      returns (o: Outpoint, s: Slot)
      requires Visiting(flagged, theirs, i, cur, willErase) && cur != Sentinel
      ensures i < |flagged| && o == flagged[i] && Lookup(theirs, o) == Some(s) && s.Legal()
    {
      NextInList(cacheCoins, sentinelPrev, sentinelNext, list, flagged, if willErase then i else 0, i);
      o := cur.key;
      StillTheirs(Slots(), theirs, flagged, i, willErase);
      s := cacheCoins[o].AsSlot();
    }

    /** Moves a cursor on. */
    method Advance(cur: Link, willErase: bool, ghost flagged: seq<Outpoint>, ghost theirs: map<Outpoint, Slot>,
                   ghost i: nat)
      returns (next: Link)
      requires Visiting(flagged, theirs, i, cur, willErase) && cur != Sentinel
      modifies this
      ensures Visiting(flagged, theirs, i + 1, next, willErase)
    {
      ghost var at := if willErase then i else 0;
      NextInList(cacheCoins, sentinelPrev, sentinelNext, list, flagged, at, i);
      SyncedNext(Slots(), theirs, flagged, i, willErase);
      next := NextAndMaybeErase(cur.key, willErase, at);
    }

    // ---------- Flush and Sync ----------

    /** Take over all dirty entries of the child. Unless the child will be erased anyway, its flagged
        entries are erased or unflagged on the way. */
    method BatchWrite(child: CoinsViewCache, willErase: bool) returns (ok: bool)
      requires this != child && Valid() && child.Valid()
      modifies this, child
      ensures ok <==> forall o :: !Misapplied(old(Get(o)), old(child.Get(o)))
      ensures ok ==> Valid() && child.Valid()
      ensures ok ==> forall o :: Get(o) == Combined(old(Get(o)), old(child.Get(o)))
      ensures ok && willErase ==> child.Slots() == old(child.Slots())
      ensures ok && !willErase ==> child.list == [] && forall o :: child.Get(o) == Synced(old(child.Get(o)))
    {
      ghost var flagged, mine, theirs := child.list, Slots(), child.Slots();
      ghost var i: nat := 0;
      UnlistedClean(child.cacheCoins, child.sentinelPrev, child.sentinelNext, flagged);
      var cur := child.sentinelNext;
      assert flagged[0..] == flagged && flagged[..0] == [];
      while cur != Sentinel
        invariant Valid() && child.Visiting(flagged, theirs, i, cur, willErase)
        invariant WrittenTo(Slots(), mine, theirs, flagged[..i])
        invariant NoneMisapplied(mine, theirs, flagged[..i])
        decreases |flagged| - i
      {
        var o, s := child.EntryAt(cur, willErase, flagged, theirs, i);
        WrittenNext(Slots(), mine, theirs, flagged, i);
        ok := TakeOver(o, s);
        if !ok {
          assert Misapplied(old(Get(o)), old(child.Get(o)));
          return;
        }
        MisappliedNext(mine, theirs, flagged, i);
        cur := child.Advance(cur, willErase, flagged, theirs, i);
        i := i + 1;
      }
      assert flagged[..i] == flagged && flagged[i..] == [];
      AllWritten(Slots(), mine, theirs, flagged);
      if !willErase {
        AllSynced(child.Slots(), theirs, flagged);
      }
      ok := true;
    }

    /** Write all dirty entries to the database `db`. */
    method WriteOut(db: map<Outpoint, Coin>, willErase: bool) returns (db': map<Outpoint, Coin>)
      requires Valid()
      modifies this
      ensures Valid() && forall o :: StoredIn(db', o) == Stored(StoredIn(db, o), old(Get(o)))
      ensures willErase ==> Slots() == old(Slots())
      ensures !willErase ==> list == [] && forall o :: Get(o) == Synced(old(Get(o)))
    {
      ghost var flagged, theirs := list, Slots();
      ghost var i: nat := 0;
      UnlistedClean(cacheCoins, sentinelPrev, sentinelNext, flagged);
      db' := db;
      var cur := sentinelNext;
      assert flagged[0..] == flagged && flagged[..0] == [];
      while cur != Sentinel
        invariant Visiting(flagged, theirs, i, cur, willErase) && StoredTo(db', db, theirs, flagged[..i])
        decreases |flagged| - i
      {
        var o, s := EntryAt(cur, willErase, flagged, theirs, i);
        StoredNext(db', db, theirs, flagged, i);
        if s.isDirty {
          db' := if s.coin.IsSpent() then db' - {o} else db'[o := s.coin];
        }
        cur := Advance(cur, willErase, flagged, theirs, i);
        i := i + 1;
      }
      assert flagged[..i] == flagged && flagged[i..] == [];
      AllStored(db', db, theirs, flagged);
      if !willErase {
        AllSynced(Slots(), theirs, flagged);
      }
    }

    /** Drop all entries; their destructors empty the list. */
    method Clear()
      modifies this
      ensures WellLinked() && Slots() == map[] && list == [] && cachedCoinsUsage == old(cachedCoinsUsage)
    {
      cacheCoins, sentinelPrev, sentinelNext, list := map[], Sentinel, Sentinel, [];
      assert SlotsOf(map[]) == map[];
    }

    /** Write all changes to the database, and become empty if `erase`. */
    method FlushOrSyncOut(db: map<Outpoint, Coin>, erase: bool) returns (db': map<Outpoint, Coin>)
      requires Valid()
      modifies this
      ensures Valid() && forall o :: StoredIn(db', o) == Stored(StoredIn(db, o), old(Get(o)))
      ensures forall o :: Get(o) == Left(old(Get(o)), erase)
      ensures !erase ==> sentinelNext == Sentinel
    {
      db' := WriteOut(db, erase);
      if erase {
        Clear();
        cachedCoinsUsage := 0;
      }
    }

    /** Write all changes to the parent cache and become empty. */
    method FlushTo(base: CoinsViewCache) returns (ok: bool)
      requires this != base && Valid() && base.Valid()
      modifies this, base
      ensures ok <==> forall o :: !Misapplied(old(base.Get(o)), old(Get(o)))
      ensures ok ==> Valid() && base.Valid() && forall o :: Get(o) == None
      ensures ok ==> forall o :: base.Get(o) == Combined(old(base.Get(o)), old(Get(o)))
    {
      ok := base.BatchWrite(this, true);
      if ok {
        Clear();
      }
      cachedCoinsUsage := 0;
    }

    /** Write all changes to the parent cache and keep the unspent coins. */
    method SyncTo(base: CoinsViewCache) returns (ok: bool)
      requires this != base && Valid() && base.Valid()
      modifies this, base
      ensures ok <==> forall o :: !Misapplied(old(base.Get(o)), old(Get(o)))
      ensures ok ==> Valid() && base.Valid() && sentinelNext == Sentinel && forall o :: Get(o) == Synced(old(Get(o)))
      ensures ok ==> forall o :: base.Get(o) == Combined(old(base.Get(o)), old(Get(o)))
    {
      ok := base.BatchWrite(this, false);
    }

    /** Either of them. */
    method WriteTo(base: CoinsViewCache, erase: bool) returns (ok: bool)
      requires this != base && Valid() && base.Valid()
      modifies this, base
      ensures ok <==> forall o :: !Misapplied(old(base.Get(o)), old(Get(o)))
      ensures ok ==> Valid() && base.Valid() && forall o :: Get(o) == Left(old(Get(o)), erase)
      ensures ok ==> forall o :: base.Get(o) == Combined(old(base.Get(o)), old(Get(o)))
      ensures ok && !erase ==> sentinelNext == Sentinel
    {
      if erase {
        ok := FlushTo(base);
      } else {
        ok := SyncTo(base);
      }
    }
  }

  // ---------- Progress of a batch write ----------

  /** The parent has taken over the entries of `done`. */
  ghost predicate WrittenTo(now: map<Outpoint, Slot>, mine: map<Outpoint, Slot>, theirs: map<Outpoint, Slot>,
                            done: seq<Outpoint>) {
    forall o :: Lookup(now, o) ==
                  if o in done then Combined(Lookup(mine, o), Lookup(theirs, o)) else Lookup(mine, o)
  }

  ghost predicate StoredTo(now: map<Outpoint, Coin>, db: map<Outpoint, Coin>, theirs: map<Outpoint, Slot>,
                           done: seq<Outpoint>) {
    forall o :: StoredIn(now, o) == if o in done then Stored(StoredIn(db, o), Lookup(theirs, o)) else StoredIn(db, o)
  }

  ghost predicate SyncedTo(now: map<Outpoint, Slot>, theirs: map<Outpoint, Slot>, done: seq<Outpoint>) {
    forall o :: Lookup(now, o) == if o in done then Synced(Lookup(theirs, o)) else Lookup(theirs, o)
  }

  ghost predicate NoneMisapplied(mine: map<Outpoint, Slot>, theirs: map<Outpoint, Slot>, done: seq<Outpoint>) {
    forall o :: o in done ==> !Misapplied(Lookup(mine, o), Lookup(theirs, o))
  }

  /** What is not in the list is neither DIRTY nor FRESH. */
  lemma UnlistedClean(m: map<Outpoint, Entry>, prev: Link, next: Link, list: seq<Outpoint>)
    requires Linked(m, prev, next, list)
    ensures forall o :: o !in list && o in SlotsOf(m) ==> !SlotsOf(m)[o].isDirty && !SlotsOf(m)[o].isFresh
  {
    forall o | o !in list && o in SlotsOf(m) ensures !SlotsOf(m)[o].isDirty && !SlotsOf(m)[o].isFresh {
      assert Listed(m, list, o);
    }
  }

  lemma NextInList(m: map<Outpoint, Entry>, prev: Link, next: Link, list: seq<Outpoint>, flagged: seq<Outpoint>,
                   at: nat, i: nat)
    requires Linked(m, prev, next, list) && i < |flagged| && at <= i && list == flagged[i - at..]
    ensures at < |list| && list[at] == flagged[i] && flagged[i] in m
    ensures LinkAt(list, at + 1) == LinkAt(flagged, i + 1)
    ensures at == 0 ==> list[1..] == flagged[i + 1..]
  {
    assert Threaded(m, list, at);
  }

  lemma NotYet(flagged: seq<Outpoint>, i: nat)
    requires NoRepeats(flagged) && i < |flagged|
    ensures flagged[i] !in flagged[..i] && flagged[..i + 1] == flagged[..i] + [flagged[i]]
  {
  }

  lemma StillTheirs(now: map<Outpoint, Slot>, theirs: map<Outpoint, Slot>, flagged: seq<Outpoint>, i: nat,
                    willErase: bool)
    requires NoRepeats(flagged) && i < |flagged|
    requires if willErase then now == theirs else SyncedTo(now, theirs, flagged[..i])
    ensures Lookup(now, flagged[i]) == Lookup(theirs, flagged[i])
  {
    NotYet(flagged, i);
  }

  lemma WrittenNext(now: map<Outpoint, Slot>, mine: map<Outpoint, Slot>, theirs: map<Outpoint, Slot>,
                    flagged: seq<Outpoint>, i: nat)
    requires NoRepeats(flagged) && i < |flagged| && WrittenTo(now, mine, theirs, flagged[..i])
    ensures Lookup(now, flagged[i]) == Lookup(mine, flagged[i])
    ensures WrittenTo(Put(now, flagged[i], Combined(Lookup(now, flagged[i]), Lookup(theirs, flagged[i]))),
                      mine, theirs, flagged[..i + 1])
    ensures Put(now, flagged[i], Lookup(now, flagged[i])) == now
    ensures flagged[..i + 1] == flagged[..i] + [flagged[i]]
  {
    NotYet(flagged, i);
  }

  lemma MisappliedNext(mine: map<Outpoint, Slot>, theirs: map<Outpoint, Slot>, flagged: seq<Outpoint>, i: nat)
    requires i < |flagged| && NoneMisapplied(mine, theirs, flagged[..i])
    requires !Misapplied(Lookup(mine, flagged[i]), Lookup(theirs, flagged[i]))
    ensures NoneMisapplied(mine, theirs, flagged[..i + 1])
  {
    assert flagged[..i + 1] == flagged[..i] + [flagged[i]];
  }

  lemma StoredNext(now: map<Outpoint, Coin>, db: map<Outpoint, Coin>, theirs: map<Outpoint, Slot>,
                   flagged: seq<Outpoint>, i: nat)
    requires NoRepeats(flagged) && i < |flagged| && StoredTo(now, db, theirs, flagged[..i])
    ensures var o, s := flagged[i], Lookup(theirs, flagged[i]);
            var next := if s.None? || !s.value.isDirty then now
                        else if s.value.coin.IsSpent() then now - {o} else now[o := s.value.coin];
            StoredTo(next, db, theirs, flagged[..i + 1])
  {
    NotYet(flagged, i);
  }

  lemma AllStored(now: map<Outpoint, Coin>, db: map<Outpoint, Coin>, theirs: map<Outpoint, Slot>,
                  flagged: seq<Outpoint>)
    requires StoredTo(now, db, theirs, flagged)
    requires forall o :: o !in flagged && o in theirs ==> !theirs[o].isDirty && !theirs[o].isFresh
    ensures forall o :: StoredIn(now, o) == Stored(StoredIn(db, o), Lookup(theirs, o))
  {
  }

  lemma SyncedNext(now: map<Outpoint, Slot>, theirs: map<Outpoint, Slot>, flagged: seq<Outpoint>, i: nat,
                   willErase: bool)
    requires NoRepeats(flagged) && i < |flagged|
    requires if willErase then now == theirs else SyncedTo(now, theirs, flagged[..i])
    ensures !willErase ==> SyncedTo(Put(now, flagged[i], Synced(Lookup(now, flagged[i]))), theirs, flagged[..i + 1])
  {
    NotYet(flagged, i);
  }

  lemma AllWritten(now: map<Outpoint, Slot>, mine: map<Outpoint, Slot>, theirs: map<Outpoint, Slot>,
                   flagged: seq<Outpoint>)
    requires WrittenTo(now, mine, theirs, flagged) && NoneMisapplied(mine, theirs, flagged)
    requires forall o :: o !in flagged && o in theirs ==> !theirs[o].isDirty && !theirs[o].isFresh
    ensures forall o :: Lookup(now, o) == Combined(Lookup(mine, o), Lookup(theirs, o))
    ensures forall o :: !Misapplied(Lookup(mine, o), Lookup(theirs, o))
  {
  }

  lemma AllSynced(now: map<Outpoint, Slot>, theirs: map<Outpoint, Slot>, flagged: seq<Outpoint>)
    requires SyncedTo(now, theirs, flagged)
    requires forall o :: o !in flagged && o in theirs ==> !theirs[o].isDirty && !theirs[o].isFresh
    ensures forall o :: Lookup(now, o) == Synced(Lookup(theirs, o))
  {
  }

  /** A coin with a script of its own is added, and then again without leave to overwrite: that fails, and
      the counter of memory in use is wrong from then on. */
  method AddTwice(o: Outpoint, coin: Coin) returns (cache: CoinsViewCache, ok: bool)
    requires !coin.IsSpent() && !coin.IsUnspendable() && coin.DynamicMemoryUsage() > 0
    ensures !ok && !cache.Valid()
  {
    cache := new CoinsViewCache();
    ok := cache.AddCoin(o, coin, false);
    ok := cache.AddCoin(o, coin, false);
  }

  lemma FirstOnly(list: seq<Outpoint>)
    requires NoRepeats(list) && |list| > 0
    ensures forall j :: 0 <= j < |list| && list[j] == list[0] ==> j == 0
    ensures RemoveAt(list, 0) == list[1..]
  {
  }
}
