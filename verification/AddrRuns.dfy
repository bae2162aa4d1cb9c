/** What becomes of each announced address and of each entry that waits for a cell, and of many in turn. */
module AddrRuns {

  import opened Powers
  import opened AddrInfos
  import opened AddrTables
  import opened AddrSteps
  import opened AddrMoves

  // ---------------------------------------------------------------- announcements

  /** Nothing changed but for the random order. */
  ghost predicate Unmoved(e: State, t: State) {
    && t.tried == e.tried && t.newTable == e.newTable && t.idCount == e.idCount && t.ids == e.ids
    && Twins(e.infos, t.infos)
  }

  /** A known entry that is announced again has a time that is news and more services, and it may get a cell. */
  ghost predicate Updated(s: State, t: State, id: Id, addr: Announcement, penalty: int, now: int, k: nat, added: bool) {
    && id in s.infos
    && var e := Retold(s, id, addr, penalty, now);
       if added then TookCell(e, t, id, k) else Unmoved(e, t)
  }

  /** An address that was not known has an entry with the cell meant for it, or else is forgotten again. */
  ghost predicate Greeted(s: State, t: State, addr: Announcement, source: Host, time: int, k: nat, added: bool) {
    if added then exists e :: Introduced(s, e, addr, source, time) && TookCell(e, t, s.idCount, k)
    else Unmoved(s.(idCount := s.idCount + 1), t)
  }

  /** What an announcement comes to. */
  ghost predicate Announced(s: State, t: State, r: Rules, addr: Announcement, source: Host, timePenalty: int, now: int,
                            roll: nat, added: bool) {
    var k := SourceCell(r, addr.address, source);
    // An address that is announced by itself is believed.
    var penalty := if r.host(addr.address) == source then 0 else timePenalty;
    if !r.routable(addr.address) then !added && t == s
    else if addr.address in s.ids then
      && (added <==> AddsKnown(s, s.ids[addr.address], addr, penalty, now, roll, k))
      && Updated(s, t, s.ids[addr.address], addr, penalty, now, k, added)
    else (added <==> Welcomes(s, k, now)) && Greeted(s, t, addr, source, Max(0, addr.time - penalty), k, added)
  }

  /** The known entry has what was told of it, and one more cell if it got one. */
  lemma UpdatedCell(s: State, t: State, id: Id, addr: Announcement, penalty: int, now: int, roll: nat, k: nat,
                    added: bool)
    requires Updated(s, t, id, addr, penalty, now, k, added) && Named(s.infos, s.ids) && Named(t.infos, t.ids)
    requires s.infos[id].address == addr.address && Issued(s.infos, s.idCount)
    ensures added ==> GotCell(s.newTable, t.newTable, t.ids, addr.address, k)
    ensures !added ==> t.newTable == s.newTable && t.ids == s.ids
    ensures id in t.infos
    ensures var was, info := s.infos[id], t.infos[id];
      // The time is taken over if it is news: later by a day, or by an hour if heard of within a day.
      && info.time == (if was.time + penalty + (if now - addr.time < 24 * HOUR then HOUR else 24 * HOUR) < addr.time
                       then Max(0, addr.time - penalty) else was.time)
      && info.services == was.services + addr.services && info.refCount == was.refCount + One(added)
      && Same(was.(time := info.time, services := info.services, refCount := info.refCount), info)
    // Another cell only for news, outside the tried table, and the less likely the more cells there are.
    ensures AddsKnown(s, id, addr, penalty, now, roll, k) ==>
      && t.infos[id].time < addr.time && !s.infos[id].inTried && s.infos[id].refCount != 8
      && (s.infos[id].refCount > 0 ==> roll % Pow2(s.infos[id].refCount) == 0)
    ensures Later(s, t) && (Timed(s.infos) ==> Timed(t.infos))
  {
    var e := Retold(s, id, addr, penalty, now);
    assert Later(s, e);
    if added {
      TookLater(e, t, id, k);
      LaterTrans(s, e, t);
    }
  }

  /** The new entry is as announced, and has its cell. */
  lemma GreetedCell(s: State, t: State, addr: Announcement, source: Host, time: int, k: nat, added: bool)
    requires Greeted(s, t, addr, source, time, k, added) && Named(t.infos, t.ids) && Issued(s.infos, s.idCount)
    ensures added ==> GotCell(s.newTable, t.newTable, t.ids, addr.address, k)
    ensures !added ==> t.newTable == s.newTable && t.ids == s.ids
    ensures added ==>
      && addr.address in t.ids && t.ids[addr.address] in t.infos
      && var info := t.infos[t.ids[addr.address]];
      && info.address == addr.address && info.services == addr.services && info.source == source && info.time == time
      && info.lastTry == 0 && info.lastSuccess == 0 && info.lastCountAttempt == 0 && info.attempts == 0
      && info.refCount == 1 && !info.inTried
    ensures Later(s, t) && (Timed(s.infos) ==> Timed(t.infos))
  {
    if added {
      var e :| Introduced(s, e, addr, source, time) && TookCell(e, t, s.idCount, k);
      assert t.infos[s.idCount].address == addr.address;
      IntroducedLater(s, e, addr, source, time);
      TookLater(e, t, s.idCount, k);
      LaterTrans(s, e, t);
    }
  }

  lemma AnnouncedDone(s: State, t: State, r: Rules, addr: Announcement, source: Host, timePenalty: int, now: int,
                      roll: nat, added: bool, collisions: set<Id>)
    requires Announced(s, t, r, addr, source, timePenalty, now, roll, added)
    requires Sound(s, r, {}, {}) && Sound(t, r, {}, {}) && Waiting(r, s, collisions)
    ensures Later(s, t) && Waiting(r, t, collisions) && (Timed(s.infos) ==> Timed(t.infos))
    ensures added ==> GotCell(s.newTable, t.newTable, t.ids, addr.address, SourceCell(r, addr.address, source))
    ensures !added ==> t.newTable == s.newTable && t.ids == s.ids
  {
    var k := SourceCell(r, addr.address, source);
    var penalty := if r.host(addr.address) == source then 0 else timePenalty;
    if r.routable(addr.address) {
      if addr.address in s.ids {
        UpdatedCell(s, t, s.ids[addr.address], addr, penalty, now, roll, k, added);
      } else {
        GreetedCell(s, t, addr, source, Max(0, addr.time - penalty), k, added);
      }
    }
    StillWaiting(r, s, t, collisions);
  }

  lemma KnownDone(s: State, e: State, t: State, id: Id, addr: Announcement, penalty: int, now: int, roll: nat, k: nat,
                  added: bool)
    requires id in s.infos && e == Retold(s, id, addr, penalty, now) && Eager(e.infos[id], addr, roll)
    requires Placed(e, t, id, k, now, added) && e.infos[id].refCount != 0
    requires Named(e.infos, e.ids) && Named(t.infos, t.ids)
    ensures Updated(s, t, id, addr, penalty, now, k, added)
    ensures added <==> AddsKnown(s, id, addr, penalty, now, roll, k)
  {
    if !added {
      SameNames(e.infos, t.infos, e.ids, t.ids);
    }
  }

  lemma UnknownDone(s: State, e: State, t: State, addr: Announcement, source: Host, time: int, k: nat, added: bool)
    requires Introduced(s, e, addr, source, time) && Issued(s.infos, s.idCount)
    requires if added then TookCell(e, t, s.idCount, k) else Declined(e, t, s.idCount)
    requires Named(s.infos, s.ids) && Named(t.infos, t.ids)
    ensures Greeted(s, t, addr, source, time, k, added)
  {
    if !added {
      SameNames(s.infos, t.infos, s.ids, t.ids);
    }
  }

  /** An entry was given a cell exactly if it yields. */
  ghost predicate Placed(e: State, t: State, id: Id, k: nat, now: int, added: bool) {
    && id in e.infos && k < |e.newTable| && (e.newTable[k] != NONE ==> e.newTable[k] in e.infos)
    && (added <==> Yields(e, id, k, now)) && if added then TookCell(e, t, id, k) else Declined(e, t, id)
  }

  /** Announcements are dealt with one after the other. */
  ghost predicate AddRun(trace: seq<State>, r: Rules, addrs: seq<Announcement>, source: Host, timePenalty: int,
                         clock: nat -> int, rolls: nat -> nat, added: seq<bool>) {
    && |trace| == |added| + 1 && |added| <= |addrs|
    && forall i {:trigger added[i]} :: 0 <= i < |added| ==>
         Announced(trace[i], trace[i + 1], r, addrs[i], source, timePenalty, clock(i), rolls(i), added[i])
  }

  lemma AddRunNext(trace: seq<State>, t: State, r: Rules, addrs: seq<Announcement>, source: Host, timePenalty: int,
                   clock: nat -> int, rolls: nat -> nat, added: seq<bool>, more: bool)
    requires AddRun(trace, r, addrs, source, timePenalty, clock, rolls, added) && |added| < |addrs|
    requires var i := |added|;
             Announced(trace[i], t, r, addrs[i], source, timePenalty, clock(i), rolls(i), more)
    ensures AddRun(trace + [t], r, addrs, source, timePenalty, clock, rolls, added + [more])
  {
    var trace', added' := trace + [t], added + [more];
    forall i {:trigger added'[i]} | 0 <= i < |added'|
      ensures Announced(trace'[i], trace'[i + 1], r, addrs[i], source, timePenalty, clock(i), rolls(i), added'[i])
    {
      if i < |added| {
        assert added'[i] == added[i];
      }
    }
  }

  /** On the way through the announcements. */
  ghost predicate Adding(s: State, t: State, r: Rules, addrs: seq<Announcement>, source: Host, timePenalty: int,
                         clock: nat -> int, rolls: nat -> nat, trace: seq<State>, added: seq<bool>, any: bool) {
    && Later(s, t) && (Timed(s.infos) ==> Timed(t.infos))
    && (!any ==> t.newTable == s.newTable && t.ids == s.ids)
    && AddRun(trace, r, addrs, source, timePenalty, clock, rolls, added)
    && trace[0] == s && trace[|added|] == t && (any <==> true in added)
  }

  lemma AddingNext(s: State, t: State, u: State, r: Rules, addrs: seq<Announcement>, source: Host, timePenalty: int,
                   clock: nat -> int, rolls: nat -> nat, trace: seq<State>, added: seq<bool>, any: bool, one: bool)
    requires Adding(s, t, r, addrs, source, timePenalty, clock, rolls, trace, added, any) && |added| < |addrs|
    requires Issued(s.infos, s.idCount) && Later(t, u) && (Timed(t.infos) ==> Timed(u.infos))
    requires !one ==> u.newTable == t.newTable && u.ids == t.ids
    requires var i := |added|; Announced(t, u, r, addrs[i], source, timePenalty, clock(i), rolls(i), one)
    ensures Adding(s, u, r, addrs, source, timePenalty, clock, rolls, trace + [u], added + [one], any || one)
  {
    LaterTrans(s, t, u);
    AddRunNext(trace, u, r, addrs, source, timePenalty, clock, rolls, added, one);
    var trace' := trace + [u];
    assert trace'[0] == s && trace'[|added| + 1] == u;
  }

  // ---------------------------------------------------------------- collisions

  /** What is decided about an entry that waits. */
  function Decision(s: State, r: Rules, id: Id, now: int): Verdict
    requires id in s.infos && |s.tried| == TRIED_BUCKET_COUNT * BUCKET_SIZE
  {
    var other := s.tried[TriedCell(r, s.infos[id].address)];
    if other == NONE || other !in s.infos then TakeNew else Judge(s.infos[other], s.infos[id], now)
  }

  /** What becomes of it: one that is gone need not wait, nor one that gets the cell or loses to the other. */
  ghost predicate Settled(s: State, t: State, r: Rules, id: Id, now: int, erase: bool) {
    && |s.tried| == TRIED_BUCKET_COUNT * BUCKET_SIZE
    && if id !in s.infos || !r.valid(s.infos[id].address) then erase && t == s
       else
         match Decision(s, r, id, now)
         case Wait => !erase && t == s
         case KeepOld => erase && t == s
         case TakeNew => erase && if s.infos[id].inTried then t == Praised(s, id, now)
                                  else Traded(Praised(s, id, now), t, r, id)
  }

  /** When a cell of the tried table changes hands, by the times: never while its entry has been reached within four
      hours; otherwise if it was tried in vain for over a minute within that time, or could not be tested at all
      and the waiting one was reached more than forty minutes ago. */
  ghost predicate HandsOver(s: State, t: State, r: Rules, id: Id, now: int, erase: bool)
    requires id in s.infos
  {
    var c, me := TriedCell(r, s.infos[id].address), s.infos[id];
    && c < |s.tried| && |t.tried| == |s.tried|
    && (s.tried[c] == NONE ==> erase && t.tried[c] == id)
    && (s.tried[c] != NONE ==>
          && s.tried[c] in s.infos
          && var y := s.infos[s.tried[c]];
          && (t.tried[c] == id <==>
                && now - y.lastSuccess >= 4 * HOUR
                && (MINUTE < now - y.lastTry < 4 * HOUR
                    || (now - y.lastTry >= 4 * HOUR && now - me.lastSuccess > 40 * MINUTE)))
          && (t.tried[c] != id ==> t == s)
          && (!erase <==> now - y.lastSuccess >= 4 * HOUR && t.tried[c] != id))
  }

  lemma SettledTimes(s: State, t: State, r: Rules, id: Id, now: int, erase: bool)
    requires Settled(s, t, r, id, now, erase) && InTriedTable(r, s.infos, s.tried)
    requires id in s.infos && id != NONE && r.valid(s.infos[id].address) && !s.infos[id].inTried
    ensures HandsOver(s, t, r, id, now, erase)
  {
    var c := TriedCell(r, s.infos[id].address);
    assert s.tried[c] != NONE ==> s.tried[c] in s.infos && s.infos[s.tried[c]].inTried;
  }

  /** Entries that were reached within four hours keep their cells of the tried table. */
  ghost predicate KeepsGood(s: State, t: State, now: int) {
    && |t.tried| == |s.tried|
    && forall k :: (0 <= k < |s.tried| && s.tried[k] != NONE && s.tried[k] in s.infos
                    && now - s.infos[s.tried[k]].lastSuccess < 4 * HOUR) ==> t.tried[k] == s.tried[k]
  }

  lemma SettledKeepsGood(s: State, t: State, r: Rules, id: Id, now: int, erase: bool)
    requires Settled(s, t, r, id, now, erase)
    ensures KeepsGood(s, t, now)
  {
  }

  /** The entries that wait are dealt with one after the other. */
  ghost predicate SettleRun(trace: seq<State>, r: Rules, order: seq<Id>, clock: Id -> int, erased: set<Id>) {
    && |trace| == |order| + 1
    && (forall i, j :: 0 <= i < j < |order| ==> order[i] != order[j])
    && (forall id :: id in erased ==> id in order)
    && forall i {:trigger order[i]} :: 0 <= i < |order| ==>
         Settled(trace[i], trace[i + 1], r, order[i], clock(order[i]), order[i] in erased)
  }

  lemma SettleRunNext(trace: seq<State>, t: State, r: Rules, order: seq<Id>, clock: Id -> int, erased: set<Id>,
                      id: Id, erase: bool)
    requires SettleRun(trace, r, order, clock, erased) && id !in order
    requires Settled(trace[|order|], t, r, id, clock(id), erase)
    ensures SettleRun(trace + [t], r, order + [id], clock, if erase then erased + {id} else erased)
  {
    var trace', order', erased' := trace + [t], order + [id], if erase then erased + {id} else erased;
    forall i {:trigger order'[i]} | 0 <= i < |order'|
      ensures Settled(trace'[i], trace'[i + 1], r, order'[i], clock(order'[i]), order'[i] in erased')
    {
      if i < |order| {
        assert order'[i] == order[i] && order[i] in order;
      } else {
        assert id !in erased;
      }
    }
  }

  /** On the way through the entries that wait. */
  ghost predicate Settling(s: State, t: State, r: Rules, waiting: set<Id>, pending: set<Id>, left: set<Id>,
                           clock: Id -> int, trace: seq<State>, order: seq<Id>, erased: set<Id>) {
    && Later(s, t) && (Timed(s.infos) && (forall id :: id in waiting ==> clock(id) > 0) ==> Timed(t.infos))
    && SettleRun(trace, r, order, clock, erased) && trace[0] == s && trace[|order|] == t
    && left == waiting - erased && pending <= waiting
    && forall id :: id in order <==> id in waiting - pending
  }

  lemma SettlingNext(s: State, t: State, u: State, r: Rules, waiting: set<Id>, pending: set<Id>, left: set<Id>,
                     clock: Id -> int, trace: seq<State>, order: seq<Id>, erased: set<Id>, id: Id, erase: bool)
    requires Settling(s, t, r, waiting, pending, left, clock, trace, order, erased) && id in pending
    requires Issued(s.infos, s.idCount) && Later(t, u) && (Timed(t.infos) && clock(id) > 0 ==> Timed(u.infos))
    requires Settled(t, u, r, id, clock(id), erase)
    ensures Settling(s, u, r, waiting, pending - {id}, if erase then left - {id} else left, clock,
                     trace + [u], order + [id], if erase then erased + {id} else erased)
  {
    LaterTrans(s, t, u);
    SettleRunNext(trace, u, r, order, clock, erased, id, erase);
    var trace' := trace + [u];
    assert trace'[0] == s && trace'[|order| + 1] == u;
  }

  lemma RunKeepsGood(trace: seq<State>, r: Rules, order: seq<Id>, clock: Id -> int, erased: set<Id>)
    requires SettleRun(trace, r, order, clock, erased)
    ensures forall i {:trigger order[i]} :: 0 <= i < |order| ==> KeepsGood(trace[i], trace[i + 1], clock(order[i]))
  {
    forall i {:trigger order[i]} | 0 <= i < |order| ensures KeepsGood(trace[i], trace[i + 1], clock(order[i])) {
      SettledKeepsGood(trace[i], trace[i + 1], r, order[i], clock(order[i]), order[i] in erased);
    }
  }
}
