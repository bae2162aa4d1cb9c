/** What moving entries between and into the tables does to the state of the address manager. */
module AddrMoves {

  import opened Powers
  import opened AddrInfos
  import opened AddrTables
  import opened AddrSteps

  lemma EmptySound(r: Rules, tried: seq<Id>, newTable: seq<Id>)
    requires |tried| == TRIED_BUCKET_COUNT * BUCKET_SIZE && |newTable| == NEW_BUCKET_COUNT * BUCKET_SIZE
    requires forall k :: 0 <= k < |tried| ==> tried[k] == NONE
    requires forall k :: 0 <= k < |newTable| ==> newTable[k] == NONE
    ensures Sound(State(map[], map[], [], tried, newTable, 0, 0, map[], 0), r, {}, {})
  {
    assert Group(map[], {}, false) == {} && Group(map[], {}, true) == {};
    forall net ensures Tally(map[], net) == TrueTally(r, map[], {}, net) {
      assert LocalGroup(r, map[], {}, false, net) == {} && LocalGroup(r, map[], {}, true, net) == {};
    }
  }

  // ---------------------------------------------------------------- moving between the tables

  /** The cell of the new table to which an entry returns when it has to leave the tried table. */
  function HomeCell(r: Rules, info: AddrInfo): (k: nat)
    ensures k < NEW_BUCKET_COUNT * BUCKET_SIZE && k == NewCell(r, info.address, k / BUCKET_SIZE)
  {
    NewCell(r, info.address, NewBucket(r, info.address, info.source))
  }

  /** Entry `id` went back from cell `c` of the tried table to its home cell, at the cost of what was there. */
  ghost predicate WentBack(s: State, t: State, r: Rules, id: Id, c: nat) {
    && c < |s.tried| && t.tried == s.tried[c := NONE] && t.idCount == s.idCount
    && id in s.infos && id in t.infos && Same(s.infos[id].(refCount := 1, inTried := false), t.infos[id])
    && var k := HomeCell(r, s.infos[id]);
    && k < |s.newTable| && t.newTable == s.newTable[k := id] && s.newTable[k] != id
    && (forall x :: x in t.infos ==> x in s.infos) && (forall x :: x in s.infos && x != s.newTable[k] ==> x in t.infos)
    && (forall x :: x in t.infos && x != id && x != s.newTable[k] ==> Same(s.infos[x], t.infos[x]))
    && (s.newTable[k] in t.infos ==>
          Same(s.infos[s.newTable[k]].(refCount := t.infos[s.newTable[k]].refCount), t.infos[s.newTable[k]]))
  }

  lemma TriedEntry(s: State, r: Rules, keep: Id, c: nat)
    requires Sound(s, r, {keep}, {keep}) && c < |s.tried| && s.tried[c] != NONE
    requires keep in s.infos && s.infos[keep].refCount == 0 && !s.infos[keep].inTried
    ensures var id := s.tried[c];
      && id in s.infos && c == TriedCell(r, s.infos[id].address) && id != keep && s.infos[id].refCount == 0
      && Sound(Demoted(s, r, id), r, {keep} + {id}, {keep} + {id})
      && id !in s.newTable && keep !in s.newTable
  {
    LeavesTried(s, r, keep, s.tried[c]);
  }

  lemma LeavesTried(s: State, r: Rules, keep: Id, id: Id)
    requires Sound(s, r, {keep}, {keep}) && id in s.infos && s.infos[id].inTried && id != keep
    requires keep in s.infos && s.infos[keep].refCount == 0
    ensures Sound(Demoted(s, r, id), r, {keep} + {id}, {keep} + {id})
    ensures id !in s.newTable && keep !in s.newTable && s.infos[id].refCount == 0
  {
    DemotedSound(s, r, {keep}, id);
    NoCells(r, s.infos, s.newTable, id);
    NoCells(r, s.infos, s.newTable, keep);
  }

  lemma ReturnsHome(s: State, d: State, e: State, r: Rules, keep: Id, id: Id, k: nat)
    requires id in s.infos && |s.tried| == TRIED_BUCKET_COUNT * BUCKET_SIZE && s.infos[id].refCount == 0
    requires d == Demoted(s, r, id) && k == HomeCell(r, s.infos[id])
    requires Sound(e, r, {keep} + {id}, {keep} + {id}) && id != keep
    requires k < |d.newTable| && d.newTable[k] != id
    requires Spares(d, e, d.newTable[k]) && e.newTable == d.newTable[k := NONE]
    ensures id in e.infos && Sound(Returned(e, r, id, k), r, {keep}, {keep})
    ensures WentBack(s, Returned(e, r, id, k), r, id, TriedCell(r, s.infos[id].address))
  {
    assert id in e.infos && Same(d.infos[id], e.infos[id]);
    ReturnedSound(e, r, {keep}, id, k);
    HomeEffect(s, d, e, r, id, k);
  }

  lemma HomeEffect(s: State, d: State, e: State, r: Rules, id: Id, k: nat)
    requires id in s.infos && |s.tried| == TRIED_BUCKET_COUNT * BUCKET_SIZE && d == Demoted(s, r, id)
    requires k == HomeCell(r, s.infos[id]) && k < |s.newTable| && s.newTable[k] != id
    requires id in e.infos && Spares(d, e, d.newTable[k]) && e.newTable == d.newTable[k := NONE]
    ensures WentBack(s, Returned(e, r, id, k), r, id, TriedCell(r, s.infos[id].address))
  {
    var t := Returned(e, r, id, k);
    assert t.newTable == s.newTable[k := id];
    assert Same(d.infos[id], e.infos[id]);
    forall x | x in t.infos && x != id && x != s.newTable[k] ensures Same(s.infos[x], t.infos[x]) {
      assert x in e.infos && Same(d.infos[x], e.infos[x]);
    }
  }

  /**
    Entry `id` was moved to the tried table. What had its cell there is now in the new table, in its
    home cell only, and may have cost the entry of that cell a reference or, if it was the last, its place.
  */
  ghost predicate Traded(s: State, t: State, r: Rules, id: Id) {
    && id in s.infos && id in t.infos && Same(s.infos[id].(refCount := 0, inTried := true), t.infos[id])
    && var c := TriedCell(r, s.infos[id].address);
    && c < |s.tried| && t.tried == s.tried[c := id] && t.idCount == s.idCount
    && (forall x :: x in t.infos ==> x in s.infos)
    && if s.tried[c] == NONE then
         && t.newTable == Without(s.newTable, id)
         && (forall x :: x in s.infos ==> x in t.infos)
         && (forall x :: x in t.infos && x != id ==> Same(s.infos[x], t.infos[x]))
       else
         var y := s.tried[c];
         && y in s.infos && y in t.infos && Same(s.infos[y].(refCount := 1, inTried := false), t.infos[y])
         && var k := HomeCell(r, s.infos[y]);
         && k < |s.newTable| && t.newTable == Without(s.newTable, id)[k := y]
         && var z := Without(s.newTable, id)[k];
         && (forall x :: x in s.infos && x != z ==> x in t.infos)
         && (forall x :: x in t.infos && x != id && x != y && x != z ==> Same(s.infos[x], t.infos[x]))
         && (z in t.infos ==> Same(s.infos[z].(refCount := t.infos[z].refCount), t.infos[z]))
  }

  /** A cell of the tried table was empty, or its entry went back to the new table. */
  ghost predicate RoomMade(b: State, e: State, r: Rules, c: nat) {
    c < |b.tried| && if b.tried[c] == NONE then e == b else WentBack(b, e, r, b.tried[c], c)
  }

  lemma EvictedReady(b: State, e: State, r: Rules, id: Id, c: nat)
    requires id in b.infos && c < |b.tried| && id !in b.newTable
    requires WentBack(b, e, r, b.tried[c], c) && b.tried[c] != id
    ensures id in e.infos && Same(b.infos[id], e.infos[id]) && e.tried[c] == NONE
  {
  }

  lemma TradedSteps(s: State, b: State, e: State, r: Rules, id: Id)
    requires id in s.infos && b == Discounted(LeftNew(s, id), r, id) && !s.infos[id].inTried
    requires InTriedTable(r, s.infos, s.tried) && id != NONE
    requires RoomMade(b, e, r, TriedCell(r, s.infos[id].address))
    requires id in e.infos && Same(b.infos[id], e.infos[id]) && |e.tried| == |s.tried|
    ensures Traded(s, Promoted(e, r, id), r, id)
  {
    var c, t := TriedCell(r, s.infos[id].address), Promoted(e, r, id);
    if s.tried[c] != NONE {
      var y := s.tried[c];
      var k := HomeCell(r, s.infos[y]);
      var z := Without(s.newTable, id)[k];
      assert y != id && z != id && b.infos[y] == s.infos[y] && b.newTable[k] == z;
      forall x | x in t.infos && x != id && x != y && x != z ensures Same(s.infos[x], t.infos[x]) {
        assert x in e.infos && Same(b.infos[x], e.infos[x]);
      }
      assert t.tried == s.tried[c := id];
    }
  }

  lemma TradedLater(s: State, t: State, r: Rules, id: Id)
    requires Traded(s, t, r, id) && id != NONE
    ensures Later(s, t)
  {
    forall x | x in t.infos ensures t.infos[x].address == s.infos[x].address {
      TradedEntry(s, t, r, id, x);
    }
  }

  /** Apart from the two entries that changed tables every entry keeps its table, and all keep their times. */
  lemma TradedEntry(s: State, t: State, r: Rules, id: Id, x: Id)
    requires Traded(s, t, r, id) && x in t.infos
    ensures x in s.infos && t.infos[x].address == s.infos[x].address
    ensures t.infos[x].lastTry == s.infos[x].lastTry && t.infos[x].lastSuccess == s.infos[x].lastSuccess
    ensures t.infos[x].inTried ==> x == id || s.infos[x].inTried
  {
    var y := s.tried[TriedCell(r, s.infos[id].address)];
    if x != id && y != NONE && x != y {
      var z := Without(s.newTable, id)[HomeCell(r, s.infos[y])];
      assert x != z ==> Same(s.infos[x], t.infos[x]);
    }
  }

  /** An entry after a successful connection. */
  function Praised(s: State, id: Id, time: int): State
    requires id in s.infos
  {
    s.(infos := s.infos[id := s.infos[id].(lastSuccess := time, lastTry := time, attempts := 0)])
  }

  lemma PraisedSound(s: State, r: Rules, id: Id, time: int)
    requires Sound(s, r, {}, {}) && id in s.infos
    ensures Sound(Praised(s, id, time), r, {}, {}) && (!s.infos[id].inTried ==> s.infos[id].refCount > 0)
  {
    RefreshedSound(s, r, {}, id, s.infos[id].(lastSuccess := time, lastTry := time, attempts := 0));
  }

  lemma PraisedTimed(s: State, id: Id, time: int)
    requires id in s.infos && Timed(s.infos)
    ensures Timed(Praised(s, id, time).infos) <==> time > 0 || (time == 0 && !s.infos[id].inTried)
  {
    var t := Praised(s, id, time);
    assert Timely(t.infos[id]) <==> time > 0 || (time == 0 && !s.infos[id].inTried);
  }

  lemma TradedTimed(s: State, t: State, r: Rules, id: Id, time: int)
    requires id in s.infos && Timed(s.infos) && Traded(Praised(s, id, time), t, r, id)
    ensures Timed(t.infos) <==> time > 0
  {
    var m := Praised(s, id, time);
    assert Timely(t.infos[id]) <==> time > 0;
    if time > 0 {
      forall x | x in t.infos ensures Timely(t.infos[x]) {
        TradedEntry(m, t, r, id, x);
        assert x in m.infos && (x != id ==> Timely(m.infos[x]));
      }
    }
  }

  /**
    A connection to a known entry succeeded. It is moved to the tried table unless it is there or would have
    to displace an entry that is to be tested first; then it waits, if not too many do.
  */
  ghost predicate Marked(s: State, t: State, r: Rules, id: Id, testBeforeEvict: bool, time: int, moved: bool,
                         before: set<Id>, after: set<Id>) {
    && id in s.infos
    && var c := TriedCell(r, s.infos[id].address);
    && c < |s.tried|
    && (moved <==> !s.infos[id].inTried && (testBeforeEvict ==> s.tried[c] == NONE))
    && (moved ==> Traded(Praised(s, id, time), t, r, id) && after == before)
    && (!moved ==> t == Praised(s, id, time))
    && (!moved ==>
        after == if s.infos[id].inTried || |before| >= SET_TRIED_COLLISION_SIZE then before else before + {id})
  }

  /** An entry after a connection was attempted. */
  function Attempted(info: AddrInfo, countFailure: bool, time: int, lastGood: int): AddrInfo {
    if countFailure && info.lastCountAttempt < lastGood
    then info.(lastTry := time, lastCountAttempt := time, attempts := info.attempts + 1)
    else info.(lastTry := time)
  }

  /** Attempts are counted at most once between two successful connections to anyone, and a connection that is no
      failure is not counted. */
  lemma CountedOnce(info: AddrInfo, first: int, second: int, lastGood: int)
    requires lastGood <= first
    ensures var once := Attempted(info, true, first, lastGood);
            && Attempted(once, true, second, lastGood) == once.(lastTry := second)
            && once.attempts == info.attempts + (if info.lastCountAttempt < lastGood then 1 else 0)
            && once.lastTry == first
    ensures Attempted(info, false, first, lastGood) == info.(lastTry := first)
  {
  }

  lemma GoodMoved(s: State, t: State, r: Rules, id: Id, time: int, waiting: set<Id>)
    requires id in s.infos && id != NONE && Issued(s.infos, s.idCount) && Waiting(r, s, waiting)
    requires Traded(Praised(s, id, time), t, r, id)
    ensures Later(s, t) && Waiting(r, t, waiting)
    ensures id in t.infos && t.infos[id].inTried && t.tried[TriedCell(r, s.infos[id].address)] == id
    ensures Timed(s.infos) ==> (Timed(t.infos) <==> time > 0)
    ensures s.tried[TriedCell(r, s.infos[id].address)] == NONE ==> t.infos.Keys == s.infos.Keys
  {
    var m := Praised(s, id, time);
    TradedLater(m, t, r, id);
    LaterTrans(s, m, t);
    StillWaiting(r, s, t, waiting);
    if Timed(s.infos) {
      TradedTimed(s, t, r, id, time);
    }
    if s.tried[TriedCell(r, s.infos[id].address)] == NONE {
      assert forall x :: x in t.infos.Keys <==> x in s.infos.Keys;
    }
  }

  lemma GoodNoted(s: State, r: Rules, id: Id, time: int, waiting: set<Id>, after: set<Id>)
    requires id in s.infos && Issued(s.infos, s.idCount) && Waiting(r, s, waiting)
    requires after == waiting || (after == waiting + {id} && |waiting| < SET_TRIED_COLLISION_SIZE &&
                                  s.tried[TriedCell(r, s.infos[id].address)] != NONE)
    ensures var t := Praised(s, id, time);
      && Later(s, t) && Waiting(r, t, after)
      && (Timed(s.infos) ==> (Timed(t.infos) <==> time > 0 || (time == 0 && !s.infos[id].inTried)))
  {
    var t := Praised(s, id, time);
    StillWaiting(r, s, t, waiting);
    if Timed(s.infos) {
      PraisedTimed(s, id, time);
    }
  }

  /** What a report of a successful connection to an address comes to. */
  ghost predicate GoodOutcome(s: State, t: State, r: Rules, address: Address, time: int, moved: bool,
                              before: set<Id>, after: set<Id>) {
    if address !in s.ids then !moved && t == s && after == before
    else
      var id := s.ids[address];
      id in s.infos && s.infos[id].address == address && Marked(s, t, r, id, true, time, moved, before, after)
  }

  /** The times stay as the check wants them: what is reported is later than zero, or is zero for an
      entry that will stay outside the tried table. */
  ghost predicate TimeFits(s: State, r: Rules, address: Address, time: int) {
    var c := TriedCell(r, address);
    && |s.tried| == TRIED_BUCKET_COUNT * BUCKET_SIZE
    && (address in s.ids && s.ids[address] in s.infos ==>
          time > 0 || (time == 0 && !s.infos[s.ids[address]].inTried && s.tried[c] != NONE))
  }

  lemma GoodDone(s: State, t: State, r: Rules, address: Address, time: int, moved: bool,
                 before: set<Id>, after: set<Id>)
    requires Issued(s.infos, s.idCount) && Waiting(r, s, before)
    requires GoodOutcome(s, t, r, address, time, moved, before, after)
    ensures Later(s, t) && Waiting(r, t, after)
    ensures Timed(s.infos) ==> (Timed(t.infos) <==> TimeFits(s, r, address, time))
    ensures moved ==> t.infos.Keys == s.infos.Keys
  {
    if address in s.ids {
      if moved {
        GoodMoved(s, t, r, s.ids[address], time, before);
      } else {
        GoodNoted(s, r, s.ids[address], time, before, after);
      }
    }
  }

  // ---------------------------------------------------------------- deciding between two entries

  datatype Verdict = KeepOld | TakeNew | Wait

  /**
    Which of a tried entry and the one that wants its cell to have: the old one while it has been reached
    within four hours; the new one when the old was tried in vain for over a minute within that time, or
    could not be tested within forty minutes.
  */
  function Judge(tried: AddrInfo, other: AddrInfo, now: int): Verdict {
    if now - tried.lastSuccess < 4 * HOUR then KeepOld
    else if MINUTE < now - tried.lastTry < 4 * HOUR then TakeNew
    else if now - tried.lastTry >= 4 * HOUR && now - other.lastSuccess > 40 * MINUTE then TakeNew
    else Wait
  }

  lemma ResolvedLater(s: State, t: State, r: Rules, id: Id, now: int)
    requires id in s.infos && id != NONE && Issued(s.infos, s.idCount)
    requires t == s || t == Praised(s, id, now) || Traded(Praised(s, id, now), t, r, id)
    ensures Later(s, t) && (Timed(s.infos) && now > 0 ==> Timed(t.infos))
  {
    if t != s {
      var m := Praised(s, id, now);
      assert Later(s, m);
      if t != m {
        TradedLater(m, t, r, id);
        LaterTrans(s, m, t);
        if Timed(s.infos) {
          TradedTimed(s, t, r, id, now);
        }
      } else if Timed(s.infos) {
        PraisedTimed(s, id, now);
      }
    }
  }

  // ---------------------------------------------------------------- leaving the new table

  /** The n-th bucket from `start` on. */
  function Nth(start: nat, n: nat): (b: nat)
    ensures b < NEW_BUCKET_COUNT
  {
    (start + n) % NEW_BUCKET_COUNT
  }

  /** The first `n` buckets from `start` on no longer hold the entry, and its count is that of the cells left. */
  ghost predicate Leaving(r: Rules, a: Address, was: seq<Id>, now: seq<Id>, id: Id, start: nat, n: nat, count: int) {
    && |now| == |was| == NEW_BUCKET_COUNT * BUCKET_SIZE && id != NONE
    && (forall k :: 0 <= k < |was| ==> now[k] == was[k] || (was[k] == id && now[k] == NONE))
    && (forall k :: 0 <= k < |was| && was[k] == id ==> k == NewCell(r, a, k / BUCKET_SIZE))
    && count == |Cells(now, id)|
    && (forall m :: 0 <= m < n ==> now[NewCell(r, a, Nth(start, m))] != id)
  }

  lemma LeavingNext(r: Rules, a: Address, was: seq<Id>, now: seq<Id>, id: Id, start: nat, n: nat, count: int)
    requires Leaving(r, a, was, now, id, start, n, count) && n < NEW_BUCKET_COUNT
    ensures var k := NewCell(r, a, Nth(start, n));
      && (now[k] != id ==> Leaving(r, a, was, now, id, start, n + 1, count))
      && (now[k] == id ==> Leaving(r, a, was, now[k := NONE], id, start, n + 1, count - 1))
  {
    var k := NewCell(r, a, Nth(start, n));
    if now[k] == id {
      EmptiedSize(now, k, id);
    }
  }

  lemma LeavingDone(r: Rules, a: Address, was: seq<Id>, now: seq<Id>, id: Id, start: nat, n: nat, count: int)
    requires Leaving(r, a, was, now, id, start, n, count) && start < NEW_BUCKET_COUNT
    requires n == NEW_BUCKET_COUNT || count == 0
    ensures now == Without(was, id) && count == 0
  {
    forall k | 0 <= k < |was| && was[k] == id ensures now[k] == NONE {
      if count == 0 {
        assert k !in Cells(now, id);
      } else {
        Visited(start, k / BUCKET_SIZE);
        var b := k / BUCKET_SIZE;
        var m := if b >= start then b - start else b - start + NEW_BUCKET_COUNT;
        assert now[NewCell(r, a, Nth(start, m))] != id;
      }
    }
    assert Cells(now, id) == {};
  }

  lemma Visited(start: nat, b: nat)
    requires start < NEW_BUCKET_COUNT && b < NEW_BUCKET_COUNT
    ensures var m := if b >= start then b - start else b - start + NEW_BUCKET_COUNT;
      0 <= m < NEW_BUCKET_COUNT && Nth(start, m) == b
  {
  }

  // ---------------------------------------------------------------- adding

  /** The cell of the new table meant for an address announced by a source. */
  function SourceCell(r: Rules, a: Address, source: Host): (k: nat)
    ensures k < NEW_BUCKET_COUNT * BUCKET_SIZE && k == NewCell(r, a, k / BUCKET_SIZE)
  {
    NewCell(r, a, NewBucket(r, a, source))
  }

  /** A cell is given to an entry when it is empty, or holds a bad entry, or one that has another cell
      while ours has none. */
  ghost predicate Yields(s: State, id: Id, k: nat, now: int)
    requires k < |s.newTable| && id in s.infos && (s.newTable[k] != NONE ==> s.newTable[k] in s.infos)
  {
    var other := s.newTable[k];
    other == NONE
    || (other != id && (IsTerrible(s.infos[other], now) || (s.infos[other].refCount > 1 && s.infos[id].refCount == 0)))
  }

  /** The entry has the cell; what was there lost one reference and, if it was the last, its place. */
  ghost predicate TookCell(s: State, t: State, id: Id, k: nat) {
    && t.tried == s.tried && t.idCount == s.idCount
    && k < |s.newTable| && t.newTable == s.newTable[k := id] && s.newTable[k] != id
    && id in s.infos && id in t.infos && Same(s.infos[id].(refCount := s.infos[id].refCount + 1), t.infos[id])
    && var z := s.newTable[k];
    && (forall x :: x in t.infos ==> x in s.infos) && (forall x :: x in s.infos && x != z ==> x in t.infos)
    && (forall x :: x in t.infos && x != id && x != z ==> Same(s.infos[x], t.infos[x]))
    && (z in t.infos ==> Same(s.infos[z].(refCount := t.infos[z].refCount), t.infos[z]))
  }

  /** The tables are as before; an entry that is in none of them is gone. */
  ghost predicate Declined(s: State, t: State, id: Id) {
    && t.tried == s.tried && t.newTable == s.newTable && t.idCount == s.idCount && id in s.infos
    && Twins(if s.infos[id].refCount == 0 then s.infos - {id} else s.infos, t.infos)
  }

  /** A cell that a new address would get. */
  ghost predicate Welcomes(s: State, k: nat, now: int) {
    && k < |s.newTable|
    && var other := s.newTable[k];
       other == NONE
       || (other in s.infos && (IsTerrible(s.infos[other], now) || s.infos[other].refCount > 1))
  }

  /** Telling more about an entry leaves everything as it is. */
  lemma RefreshedSound(s: State, r: Rules, spare: set<Id>, id: Id, info: AddrInfo)
    requires Sound(s, r, spare, {}) && id in s.infos
    requires Like(s.infos[id], info) && info.randomPos == s.infos[id].randomPos
    ensures Sound(s.(infos := s.infos[id := info]), r, spare, {})
  {
    var infos := s.infos[id := info];
    RefreshedAlike(s.infos, s.random, id, info, s.ids, s.idCount);
    var t := s.(infos := infos);
    assert t.infos == infos && t.tried == s.tried && t.newTable == s.newTable && t.ids == s.ids && t.random == s.random;
    AlikeTables(r, s.infos, infos, s.tried, s.newTable, spare);
    AlikeCounted(r, s.infos, infos, {}, s.nNew, s.nTried, s.counts);
  }

  lemma RefreshedAlike(infos: map<Id, AddrInfo>, random: seq<Id>, id: Id, info: AddrInfo, ids: map<Address, Id>,
                       idCount: int)
    requires Lists(infos, ids, random, idCount) && id in infos
    requires Like(infos[id], info) && info.randomPos == infos[id].randomPos
    ensures Alike(infos, infos[id := info]) && Lists(infos[id := info], ids, random, idCount)
  {
    TouchedLists(infos, ids, random, idCount, id, info);
  }

  lemma SpareMore(s: State, r: Rules, id: Id)
    requires Sound(s, r, {}, {})
    ensures Sound(s, r, {id}, {})
  {
  }

  /** There is one entry more, as announced but for its time, with no cell yet. */
  ghost predicate Introduced(s: State, e: State, addr: Announcement, source: Host, time: int) {
    && e.tried == s.tried && e.newTable == s.newTable && e.idCount == s.idCount + 1
    && e.ids == s.ids[addr.address := s.idCount]
    && s.idCount in e.infos && e.infos - {s.idCount} == s.infos
    && Same(NewInfo(addr, source, 0).(time := time), e.infos[s.idCount])
  }

  /** What becomes of a known entry that is announced again: a time that is news, and more services. */
  function Refreshed(info: AddrInfo, addr: Announcement, penalty: int, now: int): AddrInfo {
    var interval := if now - addr.time < DAY then HOUR else DAY;
    var time := if info.time < addr.time - interval - penalty then Max(0, addr.time - penalty) else info.time;
    info.(time := time, services := info.services + addr.services)
  }

  function Retold(s: State, id: Id, addr: Announcement, penalty: int, now: int): State
    requires id in s.infos
  {
    s.(infos := s.infos[id := Refreshed(s.infos[id], addr, penalty, now)])
  }

  /** Whether it should get another cell; the more it has the less likely that is. */
  predicate Eager(info: AddrInfo, addr: Announcement, roll: nat) {
    && info.time < addr.time && !info.inTried && info.refCount != NEW_BUCKETS_PER_ADDRESS
    && (info.refCount > 0 ==> roll % Pow2(info.refCount) == 0)
  }

  /** Whether a known entry gets cell `k`. */
  ghost predicate AddsKnown(s: State, id: Id, addr: Announcement, penalty: int, now: int, roll: nat, k: nat) {
    && id in s.infos && k < |s.newTable|
    && var e := Retold(s, id, addr, penalty, now);
    && Eager(e.infos[id], addr, roll)
    && (e.newTable[k] != NONE ==> e.newTable[k] in e.infos)
    && Yields(e, id, k, now)
  }

  lemma IntroducedSound(s: State, r: Rules, addr: Announcement, source: Host, time: int)
    requires Sound(s, r, {}, {}) && addr.address !in s.ids
    ensures var c, id := Created(s, r, addr, source), s.idCount;
      var e := c.(infos := c.infos[id := c.infos[id].(time := time)]);
      Sound(e, r, {id}, {}) && Introduced(s, e, addr, source, time)
  {
    var c, id := Created(s, r, addr, source), s.idCount;
    CreatedSound(s, r, addr, source);
    RefreshedSound(c, r, {id}, id, c.infos[id].(time := time));
    IntroducedEffect(s, r, addr, source, time);
  }

  lemma IntroducedEffect(s: State, r: Rules, addr: Announcement, source: Host, time: int)
    requires s.idCount !in s.infos
    ensures var c, id := Created(s, r, addr, source), s.idCount;
      Introduced(s, c.(infos := c.infos[id := c.infos[id].(time := time)]), addr, source, time)
  {
    var c, id := Created(s, r, addr, source), s.idCount;
    var e := c.(infos := c.infos[id := c.infos[id].(time := time)]);
    assert e.infos - {id} == s.infos;
  }

  lemma IntroducedLater(s: State, e: State, addr: Announcement, source: Host, time: int)
    requires Introduced(s, e, addr, source, time)
    ensures Later(s, e) && (Timed(s.infos) ==> Timed(e.infos))
  {
    forall x | x in e.infos && x != s.idCount ensures x in s.infos && e.infos[x] == s.infos[x] {
      assert x in e.infos - {s.idCount};
    }
  }

  lemma SameNames(a: map<Id, AddrInfo>, b: map<Id, AddrInfo>, aIds: map<Address, Id>, bIds: map<Address, Id>)
    requires Named(a, aIds) && Named(b, bIds) && Twins(a, b)
    ensures aIds == bIds
  {
    forall x | x in aIds ensures x in bIds && bIds[x] == aIds[x] {
      SameName(a, b, bIds, aIds[x]);
    }
    forall x | x in bIds ensures x in aIds {
      SameName(b, a, aIds, bIds[x]);
    }
  }

  lemma SameName(a: map<Id, AddrInfo>, b: map<Id, AddrInfo>, ids: map<Address, Id>, id: Id)
    requires Named(b, ids) && (Twins(a, b) || Twins(b, a)) && id in a
    ensures a[id].address in ids && ids[a[id].address] == id
  {
    assert id in a.Keys && id in b.Keys;
    assert a[id].address == b[id].address;
  }

  /** For a new address the question is whether its cell would take it. */
  lemma WelcomeYields(s: State, e: State, r: Rules, addr: Announcement, source: Host, time: int, k: nat, now: int)
    requires InNewTable(r, s.infos, s.newTable) && Issued(s.infos, s.idCount) && k < |s.newTable|
    requires Introduced(s, e, addr, source, time)
    requires e.newTable[k] != NONE ==> e.newTable[k] in e.infos
    ensures Yields(e, s.idCount, k, now) <==> Welcomes(s, k, now)
  {
    var other := s.newTable[k];
    if other != NONE {
      assert other in s.infos && other != s.idCount && other in e.infos - {s.idCount};
    }
  }

  /** After the cell was taken or not, what holds of the tables and of the names. */
  lemma TookLater(e: State, t: State, id: Id, k: nat)
    requires TookCell(e, t, id, k)
    ensures Later(e, t) && (Timed(e.infos) ==> Timed(t.infos))
  {
  }

  /** The address has the cell, which it did not have before, and no other cell of the new table changed. */
  ghost predicate GotCell(was: seq<Id>, now: seq<Id>, ids: map<Address, Id>, address: Address, k: nat) {
    && address in ids && k < |was|
    && now == was[k := ids[address]] && was[k] != ids[address]
  }

  lemma RefreshedLater(s: State, e: State, r: Rules, id: Id, collisions: set<Id>)
    requires Waiting(r, s, collisions) && id in s.infos && id in e.infos
    requires e == s.(infos := s.infos[id := e.infos[id]]) && Like(s.infos[id], e.infos[id])
    ensures Later(s, e) && Waiting(r, e, collisions)
    ensures Timed(s.infos) && Timely(e.infos[id]) ==> Timed(e.infos)
  {
    StillWaiting(r, s, e, collisions);
  }

  lemma CellEntry(s: State, r: Rules, id: Id, k: nat)
    requires Sound(s, r, {id}, {}) && k < |s.newTable| && id in s.infos && !s.infos[id].inTried
    ensures s.newTable[k] != NONE ==> s.newTable[k] in s.infos
    ensures s.newTable[k] == id ==> s.infos[id].refCount != 0
  {
    if s.newTable[k] == id {
      assert k in Cells(s.newTable, id);
    }
  }

  lemma TakesCell(s: State, e: State, r: Rules, id: Id, k: nat)
    requires k < |s.newTable| && Sound(e, r, {id}, {}) && Spares(s, e, s.newTable[k]) && s.newTable[k] != id
    requires id in s.infos && !s.infos[id].inTried && s.infos[id].refCount < NEW_BUCKETS_PER_ADDRESS
    requires k == NewCell(r, s.infos[id].address, k / BUCKET_SIZE) && e.newTable == s.newTable[k := NONE]
    ensures id in e.infos && Sound(Entered(e, id, k), r, {}, {}) && TookCell(s, Entered(e, id, k), id, k)
  {
    TookEffect(s, e, id, k);
    assert {} + {id} == {id};
    EnteredSound(e, r, {}, {}, id, k);
  }

  lemma TookEffect(s: State, e: State, id: Id, k: nat)
    requires k < |s.newTable| && Spares(s, e, s.newTable[k]) && s.newTable[k] != id && id in s.infos
    requires e.newTable == s.newTable[k := NONE]
    ensures id in e.infos && Same(s.infos[id], e.infos[id]) && TookCell(s, Entered(e, id, k), id, k)
  {
    assert id in e.infos && Same(s.infos[id], e.infos[id]);
    assert Entered(e, id, k).newTable == s.newTable[k := id];
  }

  lemma DeclinedSound(s: State, r: Rules, id: Id)
    requires Sound(s, r, {id}, {}) && id in s.infos && !s.infos[id].inTried
    requires s.infos[id].refCount < NEW_BUCKETS_PER_ADDRESS
    ensures s.infos[id].refCount == 0 ==> Sound(Deleted(s, r, id), r, {}, {}) && Declined(s, Deleted(s, r, id), id)
    ensures s.infos[id].refCount != 0 ==> Sound(s, r, {}, {}) && Declined(s, s, id)
  {
    assert {} + {id} == {id};
    if s.infos[id].refCount == 0 {
      DeletedSound(s, r, {id}, {}, id);
      var t := Deleted(s, r, id);
      assert id !in t.infos;
      SpareGone(r, t.infos, t.tried, t.newTable, {}, id);
    } else {
      SpareGone(r, s.infos, s.tried, s.newTable, {}, id);
    }
  }
}
