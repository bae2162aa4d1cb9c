/**
  The address manager: which peers are known, and in which cells of its two tables they are.

  Hashes, net groups and the classification of addresses are the rules the manager is made with;
  the clock and every random draw are parameters.
*/
module AddrMans {

  import opened Sets
  import opened Options
  import opened Powers
  import opened AddrInfos
  import opened AddrTables
  import opened AddrSteps
  import opened AddrMoves
  import opened AddrRuns
  import opened AddrSelections
  import opened AddrChecks

  class AddrMan {
    const rules: Rules
    const tried: array<Id>
    const newTable: array<Id>
    var infos: map<Id, AddrInfo>
    var ids: map<Address, Id>
    var random: seq<Id>
    var nNew: int
    var nTried: int
    var counts: map<Network, NewTriedCount>
    var idCount: int
    var lastGood: int
    var collisions: set<Id>

    ghost function Now(): State
      reads this, tried, newTable
    {
      State(infos, ids, random, tried[..], newTable[..], nNew, nTried, counts, idCount)
    }

    /** The tables are two arrays of the right size. */
    ghost predicate Shape() {
      && tried != newTable
      && tried.Length == TRIED_BUCKET_COUNT * BUCKET_SIZE
      && newTable.Length == NEW_BUCKET_COUNT * BUCKET_SIZE
    }

    ghost predicate Valid()
      reads this, tried, newTable
    {
      && Shape()
      && Sound(Now(), rules, {}, {})
      && Waiting(rules, Now(), collisions)
    }

    constructor (rules: Rules)
      ensures Valid() && infos == map[] && collisions == {} && fresh(tried) && fresh(newTable)
    {
      this.rules := rules;
      tried := new Id[TRIED_BUCKET_COUNT * BUCKET_SIZE](k => NONE);
      newTable := new Id[NEW_BUCKET_COUNT * BUCKET_SIZE](k => NONE);
      infos, ids, random := map[], map[], [];
      nNew, nTried, counts, idCount := 0, 0, map[], 0;
      lastGood, collisions := 1, {};
      new;
      assert Now() == State(map[], map[], [], tried[..], newTable[..], 0, 0, map[], 0);
      EmptySound(rules, tried[..], newTable[..]);
    }

    // ---------------------------------------------------------------- internal operations

    method Find(address: Address) returns (id: Option<Id>)
      requires Named(infos, ids)
      ensures id == if address in ids then Some(ids[address]) else None
      ensures id.Some? ==> id.value in infos && infos[id.value].address == address
    {
      if address !in ids {
        return None;
      }
      return Some(ids[address]);
    }

    method Create(addr: Announcement, source: Host) returns (id: Id)
      modifies `infos, `ids, `random, `nNew, `counts, `idCount
      ensures id == old(idCount) && Now() == Created(old(Now()), rules, addr, source)
    {
      id := idCount;
      idCount := idCount + 1;
      infos := infos[id := NewInfo(addr, source, -1)];
      ids := ids[addr.address := id];
      infos := infos[id := infos[id].(randomPos := |random|)];
      random := random + [id];
      nNew := nNew + 1;
      counts := Bump(counts, rules.network(addr.address), 1, 0);
    }

    method SwapRandom(i: nat, j: nat)
      requires Listed(infos, random) && i < |random| && j < |random|
      modifies `infos, `random
      ensures Now() == Swapped(old(Now()), i, j)
    {
      if i == j {
        SwapNothing(infos, random, i);
        return;
      }
      var id1, id2 := random[i], random[j];
      assert id1 in infos && id2 in infos && id1 != id2;
      SwapTwo(infos, random, i, j);
      infos := infos[id1 := infos[id1].(randomPos := j)];
      infos := infos[id2 := infos[id2].(randomPos := i)];
      random := random[i := id2];
      random := random[j := id1];
    }

    method Delete(id: Id)
      requires Listed(infos, random)
      requires id in infos && !infos[id].inTried && infos[id].refCount == 0
      modifies `infos, `ids, `random, `nNew, `counts
      ensures Now() == Deleted(old(Now()), rules, id)
    {
      var info := infos[id];
      SwapRandom(info.randomPos, |random| - 1);
      counts := Bump(counts, rules.network(info.address), -1, 0);
      random := random[..|random| - 1];
      ids := ids - {info.address};
      infos := infos - {id};
      nNew := nNew - 1;
    }

    method ClearNew(bucket: nat, position: nat)
      requires Shape() && bucket < NEW_BUCKET_COUNT && position < BUCKET_SIZE
      requires Listed(infos, random) && InNewTable(rules, infos, newTable[..]) && NONE !in infos
      modifies `infos, `ids, `random, `nNew, `counts, newTable
      ensures Now() == Cleared(old(Now()), rules, Cell(bucket, position))
    {
      var k := Cell(bucket, position);
      if newTable[k] != NONE {
        var id := newTable[k];
        EmptiedCells(rules, infos, newTable[..], k);
        assert infos[id].refCount > 0;
        infos := infos[id := infos[id].(refCount := infos[id].refCount - 1)];
        newTable[k] := NONE;
        assert Now() == Emptied(old(Now()), k);
        if infos[id].refCount == 0 {
          Delete(id);
        }
      }
    }

    /** Empties the cells of the new table that hold an entry, starting at its own bucket. */
    method LeaveNew(id: Id)
      requires Shape() && InNewTable(rules, infos, newTable[..]) && NONE !in infos
      requires id in infos && !infos[id].inTried
      modifies `infos, newTable
      ensures Now() == LeftNew(old(Now()), id)
    {
      var a := infos[id].address;
      var start := NewBucket(rules, a, infos[id].source);
      ghost var was := newTable[..];
      var n := 0;
      while n < NEW_BUCKET_COUNT
        invariant 0 <= n <= NEW_BUCKET_COUNT
        invariant id in infos && infos == Refer(old(infos), id, infos[id].refCount)
        invariant Leaving(rules, a, was, newTable[..], id, start, n, infos[id].refCount)
      {
        var bucket := Nth(start, n);
        var position := BucketPosition(rules, a, true, bucket);
        var k := Cell(bucket, position);
        LeavingNext(rules, a, was, newTable[..], id, start, n, infos[id].refCount);
        if newTable[k] == id {
          newTable[k] := NONE;
          infos := infos[id := infos[id].(refCount := infos[id].refCount - 1)];
          if infos[id].refCount == 0 {
            break;
          }
        }
        n := n + 1;
      }
      LeavingDone(rules, a, was, newTable[..], id, start, n, infos[id].refCount);
    }

    /** Takes an entry out of its cell of the tried table. */
    method Demote(id: Id)
      requires Shape() && id in infos
      modifies `infos, `nTried, `counts, tried
      ensures Now() == Demoted(old(Now()), rules, id)
    {
      infos := infos[id := infos[id].(inTried := false)];
      tried[TriedCell(rules, infos[id].address)] := NONE;
      nTried := nTried - 1;
      counts := Bump(counts, rules.network(infos[id].address), 0, -1);
    }

    /** Enters an entry that is in neither table into the new table again. */
    method Return(id: Id, k: nat)
      requires Shape() && id in infos && k < newTable.Length
      modifies `infos, `nNew, `counts, newTable
      ensures Now() == Returned(old(Now()), rules, id, k)
    {
      infos := infos[id := infos[id].(refCount := 1)];
      newTable[k] := id;
      nNew := nNew + 1;
      counts := Bump(counts, rules.network(infos[id].address), 1, 0);
    }

    /** Makes room in cell `c` of the tried table while entry `keep` is in neither table. */
    method Evict(c: nat, ghost keep: Id)
      requires Shape() && Sound(Now(), rules, {keep}, {keep})
      requires keep in infos && infos[keep].refCount == 0 && !infos[keep].inTried
      requires c < tried.Length && tried[c] != NONE
      modifies `infos, `ids, `random, `nNew, `nTried, `counts, tried, newTable
      ensures Sound(Now(), rules, {keep}, {keep})
      ensures WentBack(old(Now()), Now(), rules, old(tried[c]), c)
    {
      var id := tried[c];
      ghost var s := Now();
      TriedEntry(s, rules, keep, c);
      Demote(id);
      ghost var d := Now();
      var bucket := NewBucket(rules, infos[id].address, infos[id].source);
      var position := BucketPosition(rules, infos[id].address, true, bucket);
      var k := Cell(bucket, position);
      ClearedSound(d, rules, {keep} + {id}, {keep} + {id}, k);
      ClearNew(bucket, position);
      ReturnsHome(s, d, Now(), rules, keep, id, k);
      Return(id, k);
    }

    /** Stops counting an entry as new. */
    method Discount(id: Id)
      requires id in infos
      modifies `nNew, `counts
      ensures Now() == Discounted(old(Now()), rules, id)
    {
      nNew := nNew - 1;
      counts := Bump(counts, rules.network(infos[id].address), -1, 0);
    }

    /** Puts an entry into its cell of the tried table. */
    method Promote(id: Id)
      requires Shape() && id in infos
      modifies `infos, `nTried, `counts, tried
      ensures Now() == Promoted(old(Now()), rules, id)
    {
      tried[TriedCell(rules, infos[id].address)] := id;
      nTried := nTried + 1;
      infos := infos[id := infos[id].(inTried := true)];
      counts := Bump(counts, rules.network(infos[id].address), 0, 1);
    }

    /** Takes an entry out of all cells of the new table; it is then in neither table. */
    method Vacate(id: Id)
      requires Shape() && Sound(Now(), rules, {}, {}) && id in infos && !infos[id].inTried
      modifies `infos, `nNew, `counts, newTable
      ensures Sound(Now(), rules, {id}, {id}) && Now() == Discounted(LeftNew(old(Now()), id), rules, id)
    {
      LeftNewSound(Now(), rules, id);
      LeaveNew(id);
      DiscountedSound(Now(), rules, id);
      Discount(id);
    }

    /** Sees to it that the cell of the tried table an entry needs is empty. */
    method MakeRoom(id: Id)
      requires Shape() && Sound(Now(), rules, {id}, {id})
      requires id in infos && infos[id].refCount == 0 && !infos[id].inTried
      modifies `infos, `ids, `random, `nNew, `nTried, `counts, tried, newTable
      ensures Sound(Now(), rules, {id}, {id}) && id in infos && Same(old(infos[id]), infos[id])
      ensures tried[TriedCell(rules, infos[id].address)] == NONE
      ensures RoomMade(old(Now()), Now(), rules, TriedCell(rules, infos[id].address))
    {
      ghost var b := Now();
      var c := TriedCell(rules, infos[id].address);
      if tried[c] != NONE {
        NoCells(rules, infos, newTable[..], id);
        Evict(c, id);
        EvictedReady(b, Now(), rules, id, c);
      }
    }

    method MakeTried(id: Id)
      requires Shape() && Sound(Now(), rules, {}, {}) && id in infos && !infos[id].inTried
      modifies `infos, `ids, `random, `nNew, `nTried, `counts, tried, newTable
      ensures Sound(Now(), rules, {}, {}) && Traded(old(Now()), Now(), rules, id)
    {
      ghost var s := Now();
      Vacate(id);
      ghost var b := Now();
      assert infos[id].refCount == 0;
      MakeRoom(id);
      ghost var e := Now();
      PromotedSound(e, rules, id);
      TradedSteps(s, b, e, rules, id);
      Promote(id);
    }

    // ---------------------------------------------------------------- adding

    /** Enters an entry into an empty cell of the new table. */
    method Enter(id: Id, k: nat)
      requires Shape() && id in infos && k < newTable.Length
      modifies `infos, newTable
      ensures Now() == Entered(old(Now()), id, k)
    {
      infos := infos[id := infos[id].(refCount := infos[id].refCount + 1)];
      newTable[k] := id;
    }

    /** Tries to give an entry the cell of the new table that is meant for it and the source. */
    method PutNew(id: Id, source: Host, now: int) returns (inserted: bool)
      requires Shape() && Sound(Now(), rules, {id}, {})
      requires id in infos && !infos[id].inTried && infos[id].refCount < NEW_BUCKETS_PER_ADDRESS
      modifies `infos, `ids, `random, `nNew, `counts, newTable
      ensures Sound(Now(), rules, {}, {})
      ensures inserted <==> Yields(old(Now()), id, SourceCell(rules, old(infos[id].address), source), now)
      ensures inserted ==> TookCell(old(Now()), Now(), id, SourceCell(rules, old(infos[id].address), source))
      ensures !inserted ==> Declined(old(Now()), Now(), id)
    {
      var address := infos[id].address;
      var bucket := NewBucket(rules, address, source);
      var position := BucketPosition(rules, address, true, bucket);
      var k := Cell(bucket, position);
      ghost var s := Now();
      assert k == SourceCell(rules, address, source) && s.newTable[k] == newTable[k];
      CellEntry(s, rules, id, k);
      inserted := newTable[k] == NONE;
      if newTable[k] != id {
        if !inserted {
          var existing := infos[newTable[k]];
          if IsTerrible(existing, now) || (existing.refCount > 1 && infos[id].refCount == 0) {
            inserted := true;
          }
        }
        if inserted {
          ClearedSound(s, rules, {id}, {}, k);
          ClearNew(bucket, position);
          TakesCell(s, Now(), rules, id, k);
          Enter(id, k);
        } else {
          DeclinedSound(s, rules, id);
          if infos[id].refCount == 0 {
            Delete(id);
          }
        }
      } else {
        DeclinedSound(s, rules, id);
      }
    }

    /** Takes over what an announcement tells about a known entry; `again` says whether to look for another cell. */
    method Refresh(id: Id, addr: Announcement, penalty: int, now: int, roll: nat) returns (again: bool)
      requires Shape() && Sound(Now(), rules, {}, {}) && id in infos && infos[id].address == addr.address
      modifies `infos
      ensures Sound(Now(), rules, {}, {})
      ensures Now() == Retold(old(Now()), id, addr, penalty, now)
      ensures again <==> Eager(infos[id], addr, roll)
    {
      var info := infos[id];
      var interval := if now - addr.time < DAY then HOUR else DAY;
      if info.time < addr.time - interval - penalty {
        info := info.(time := Max(0, addr.time - penalty));
      }
      info := info.(services := info.services + addr.services);
      ghost var s := Now();
      assert info == Refreshed(s.infos[id], addr, penalty, now);
      RefreshedSound(s, rules, {}, id, info);
      infos := infos[id := info];
      assert Now() == s.(infos := s.infos[id := info]);
      if addr.time <= info.time || info.inTried || info.refCount == NEW_BUCKETS_PER_ADDRESS {
        return false;
      }
      again := info.refCount <= 0 || roll % Pow2(info.refCount) == 0;
    }

    method SetTime(id: Id, time: int)
      requires id in infos
      modifies `infos
      ensures Now() == old(Now()).(infos := old(infos)[id := old(infos[id]).(time := time)])
    {
      infos := infos[id := infos[id].(time := time)];
    }

    /** Makes an entry for an address that is not known. */
    method Introduce(addr: Announcement, source: Host, penalty: int) returns (id: Id)
      requires Shape() && Sound(Now(), rules, {}, {}) && addr.address !in ids
      modifies `infos, `ids, `random, `nNew, `counts, `idCount
      ensures id == old(idCount) && Sound(Now(), rules, {id}, {})
      ensures Introduced(old(Now()), Now(), addr, source, Max(0, addr.time - penalty))
    {
      ghost var s := Now();
      IntroducedSound(s, rules, addr, source, Max(0, addr.time - penalty));
      id := Create(addr, source);
      SetTime(id, Max(0, infos[id].time - penalty));
    }

    method AddUnknown(addr: Announcement, source: Host, penalty: int, now: int) returns (added: bool)
      requires Shape() && Sound(Now(), rules, {}, {}) && addr.address !in ids
      modifies `infos, `ids, `random, `nNew, `counts, `idCount, newTable
      ensures Sound(Now(), rules, {}, {})
      ensures added <==> Welcomes(old(Now()), SourceCell(rules, addr.address, source), now)
      ensures Greeted(old(Now()), Now(), addr, source, Max(0, addr.time - penalty),
                      SourceCell(rules, addr.address, source), added)
    {
      ghost var s, k, time := Now(), SourceCell(rules, addr.address, source), Max(0, addr.time - penalty);
      var id := Introduce(addr, source, penalty);
      ghost var e := Now();
      CellEntry(e, rules, id, k);
      WelcomeYields(s, e, rules, addr, source, time, k, now);
      added := PutNew(id, source, now);
      UnknownDone(s, e, Now(), addr, source, time, k, added);
    }

    /** Tries to give an entry one more cell of the new table. */
    method PutMore(id: Id, source: Host, now: int) returns (inserted: bool)
      requires Shape() && Sound(Now(), rules, {}, {})
      requires id in infos && !infos[id].inTried && infos[id].refCount < NEW_BUCKETS_PER_ADDRESS
      modifies `infos, `ids, `random, `nNew, `counts, newTable
      ensures Sound(Now(), rules, {}, {}) && old(infos[id].refCount) != 0
      ensures Placed(old(Now()), Now(), id, SourceCell(rules, old(infos[id].address), source), now, inserted)
    {
      SpareMore(Now(), rules, id);
      assert infos[id].refCount != 0;
      CellEntry(Now(), rules, id, SourceCell(rules, infos[id].address, source));
      inserted := PutNew(id, source, now);
    }

    method AddKnown(id: Id, addr: Announcement, source: Host, penalty: int, now: int, roll: nat) returns (added: bool)
      requires Shape() && Sound(Now(), rules, {}, {}) && id in infos && infos[id].address == addr.address
      modifies `infos, `ids, `random, `nNew, `counts, newTable
      ensures Sound(Now(), rules, {}, {})
      ensures added <==>
        AddsKnown(old(Now()), id, addr, penalty, now, roll, SourceCell(rules, addr.address, source))
      ensures Updated(old(Now()), Now(), id, addr, penalty, now, SourceCell(rules, addr.address, source), added)
    {
      ghost var s, k := Now(), SourceCell(rules, addr.address, source);
      var again := Refresh(id, addr, penalty, now, roll);
      ghost var e := Now();
      if !again {
        return false;
      }
      added := PutMore(id, source, now);
      KnownDone(s, e, Now(), id, addr, penalty, now, roll, k, added);
    }

    method AddSingle(addr: Announcement, source: Host, timePenalty: int, now: int, roll: nat) returns (added: bool)
      requires Valid()
      modifies `infos, `ids, `random, `nNew, `counts, `idCount, newTable
      ensures Valid() && Later(old(Now()), Now())
      ensures old(Timed(infos)) ==> Timed(infos)
      ensures added ==>
          GotCell(old(newTable[..]), newTable[..], ids, addr.address, SourceCell(rules, addr.address, source))
      ensures !added ==> newTable[..] == old(newTable[..]) && ids == old(ids)
      ensures Announced(old(Now()), Now(), rules, addr, source, timePenalty, now, roll, added)
    {
      if !rules.routable(addr.address) {
        return false;
      }
      ghost var s := Now();
      var found := Find(addr.address);
      var penalty := if rules.host(addr.address) == source then 0 else timePenalty;
      if found.Some? {
        added := AddKnown(found.value, addr, source, penalty, now, roll);
      } else {
        added := AddUnknown(addr, source, penalty, now);
      }
      AnnouncedDone(s, Now(), rules, addr, source, timePenalty, now, roll, added, collisions);
    }

    /** Adds announced addresses one by one; the time and the random draw may differ from one to the next. */
    method Add(addrs: seq<Announcement>, source: Host, timePenalty: int, clock: nat -> int, rolls: nat -> nat)
      returns (any: bool, ghost trace: seq<State>, ghost added: seq<bool>)
      requires Valid()
      modifies `infos, `ids, `random, `nNew, `counts, `idCount, newTable
      ensures Valid() && Later(old(Now()), Now())
      ensures old(Timed(infos)) ==> Timed(infos)
      ensures !any ==> newTable[..] == old(newTable[..]) && ids == old(ids)
      ensures AddRun(trace, rules, addrs, source, timePenalty, clock, rolls, added) && |added| == |addrs|
      ensures trace[0] == old(Now()) && trace[|addrs|] == Now() && (any <==> true in added)
    {
      ghost var s := Now();
      any, trace, added := false, [s], [];
      for i := 0 to |addrs|
        invariant Valid() && |added| == i
        invariant Adding(s, Now(), rules, addrs, source, timePenalty, clock, rolls, trace, added, any)
      {
        ghost var t := Now();
        var one := AddSingle(addrs[i], source, timePenalty, clock(i), rolls(i));
        AddingNext(s, t, Now(), rules, addrs, source, timePenalty, clock, rolls, trace, added, any, one);
        any, trace, added := any || one, trace + [Now()], added + [one];
      }
    }

    // ---------------------------------------------------------------- connections

    /** Moves an entry to the tried table unless it would have to displace one that is to be tested first. */
    method TryPromote(id: Id, testBeforeEvict: bool) returns (moved: bool)
      requires Shape() && Sound(Now(), rules, {}, {}) && id in infos && !infos[id].inTried
      modifies `infos, `ids, `random, `nNew, `nTried, `counts, `collisions, tried, newTable
      ensures Sound(Now(), rules, {}, {})
      ensures moved <==> (testBeforeEvict ==> old(tried[TriedCell(rules, infos[id].address)]) == NONE)
      ensures moved ==> Traded(old(Now()), Now(), rules, id) && collisions == old(collisions)
      ensures !moved ==> Now() == old(Now())
      ensures !moved ==>
        collisions == if |old(collisions)| < SET_TRIED_COLLISION_SIZE then old(collisions) + {id} else old(collisions)
    {
      var c := TriedCell(rules, infos[id].address);
      if testBeforeEvict && tried[c] != NONE {
        if |collisions| < SET_TRIED_COLLISION_SIZE {
          collisions := collisions + {id};
        }
        return false;
      }
      MakeTried(id);
      return true;
    }

    /** Notes a successful connection to an entry. */
    method Praise(id: Id, time: int)
      requires id in infos
      modifies `infos
      ensures Now() == Praised(old(Now()), id, time)
    {
      infos := infos[id := infos[id].(lastSuccess := time, lastTry := time, attempts := 0)];
    }

    method MarkKnown(id: Id, testBeforeEvict: bool, time: int) returns (moved: bool)
      requires Shape() && Sound(Now(), rules, {}, {}) && id in infos
      modifies `infos, `ids, `random, `nNew, `nTried, `counts, `collisions, tried, newTable
      ensures Sound(Now(), rules, {}, {})
      ensures Marked(old(Now()), Now(), rules, id, testBeforeEvict, time, moved, old(collisions), collisions)
    {
      PraisedSound(Now(), rules, id, time);
      Praise(id, time);
      if infos[id].inTried {
        return false;
      }
      assert infos[id].refCount > 0;
      moved := TryPromote(id, testBeforeEvict);
    }

    method MarkGood(address: Address, testBeforeEvict: bool, time: int) returns (moved: bool)
      requires Shape() && Sound(Now(), rules, {}, {})
      modifies `infos, `ids, `random, `nNew, `nTried, `counts, `collisions, `lastGood, tried, newTable
      ensures Sound(Now(), rules, {}, {}) && lastGood == time
      ensures address !in old(ids) ==> !moved && Now() == old(Now()) && collisions == old(collisions)
      ensures address in old(ids) ==>
        && old(infos[ids[address]].address) == address
        && Marked(old(Now()), Now(), rules, old(ids[address]), testBeforeEvict, time, moved,
                  old(collisions), collisions)
    {
      lastGood := time;
      var found := Find(address);
      if found.None? {
        return false;
      }
      moved := MarkKnown(found.value, testBeforeEvict, time);
    }

    method Good(address: Address, time: int) returns (moved: bool)
      requires Valid()
      modifies `infos, `ids, `random, `nNew, `nTried, `counts, `collisions, `lastGood, tried, newTable
      ensures Valid() && Later(old(Now()), Now()) && lastGood == time
      ensures GoodOutcome(old(Now()), Now(), rules, address, time, moved, old(collisions), collisions)
      ensures moved ==> infos.Keys == old(infos.Keys)
      ensures old(Timed(infos)) ==> (Timed(infos) <==> TimeFits(old(Now()), rules, address, time))
    {
      ghost var s, waiting := Now(), collisions;
      moved := MarkGood(address, true, time);
      GoodDone(s, Now(), rules, address, time, moved, waiting, collisions);
    }

    /** Replaces what is said of an entry, but for what the tables depend on. */
    method Rewrite(id: Id, info: AddrInfo)
      requires Valid() && id in infos && Like(infos[id], info) && info.randomPos == infos[id].randomPos
      modifies `infos
      ensures Valid() && Later(old(Now()), Now()) && Now() == old(Now()).(infos := old(infos)[id := info])
      ensures old(Timed(infos)) ==> (Timed(infos) <==> Timely(info))
    {
      ghost var s := Now();
      RefreshedSound(s, rules, {}, id, info);
      infos := infos[id := info];
      assert infos[id] == info && Now() == s.(infos := s.infos[id := info]);
      RefreshedLater(s, Now(), rules, id, collisions);
    }

    method Attempt(address: Address, countFailure: bool, time: int)
      requires Valid()
      modifies `infos
      ensures Valid() && Later(old(Now()), Now())
      ensures address !in ids ==> infos == old(infos)
      ensures address in ids ==>
        infos == old(infos)[ids[address] := Attempted(old(infos)[ids[address]], countFailure, time, lastGood)]
      ensures old(Timed(infos)) ==> (Timed(infos) <==> address !in ids || time >= 0)
    {
      var found := Find(address);
      if found.None? {
        return;
      }
      var info := infos[found.value].(lastTry := time);
      if countFailure && info.lastCountAttempt < lastGood {
        info := info.(lastCountAttempt := time, attempts := info.attempts + 1);
      }
      assert info == Attempted(infos[found.value], countFailure, time, lastGood);
      Rewrite(found.value, info);
    }

    method Connected(address: Address, time: int)
      requires Valid()
      modifies `infos
      ensures Valid() && Later(old(Now()), Now()) && (old(Timed(infos)) ==> Timed(infos))
      ensures address !in ids ==> infos == old(infos)
      ensures address in ids ==>
        var was := old(infos)[ids[address]];
        infos == old(infos)[ids[address] := was.(time := if time - was.time > 20 * MINUTE then time else was.time)]
    {
      var found := Find(address);
      if found.None? {
        return;
      }
      var info := infos[found.value];
      if time - info.time > 20 * MINUTE {
        info := info.(time := time);
      }
      Rewrite(found.value, info);
    }

    method SetServices(address: Address, services: set<nat>)
      requires Valid()
      modifies `infos
      ensures Valid() && Later(old(Now()), Now()) && (old(Timed(infos)) ==> Timed(infos))
      ensures infos ==
        if address in ids then old(infos)[ids[address] := old(infos)[ids[address]].(services := services)]
        else old(infos)
    {
      var found := Find(address);
      if found.Some? {
        Rewrite(found.value, infos[found.value].(services := services));
      }
    }

    // ---------------------------------------------------------------- collisions in the tried table

    /** Whether a waiting entry is to have its cell of the tried table, and whether it need not wait any longer. */
    method Consider(id: Id, now: int) returns (take: bool, erase: bool)
      requires Shape() && InTriedTable(rules, infos, tried[..]) && id in infos
      ensures var c := TriedCell(rules, infos[id].address);
        var verdict := if tried[c] == NONE then TakeNew else Judge(infos[tried[c]], infos[id], now);
        (take <==> verdict == TakeNew) && (erase <==> verdict != Wait)
    {
      var c := TriedCell(rules, infos[id].address);
      take, erase := true, true;
      if tried[c] != NONE {
        var before := infos[tried[c]];
        if now - before.lastSuccess < 4 * HOUR {
          take := false;
        } else if now - before.lastTry < 4 * HOUR {
          take := now - before.lastTry > MINUTE;
          erase := take;
        } else {
          take := now - infos[id].lastSuccess > 40 * MINUTE;
          erase := take;
        }
      }
    }

    /** Decides about one waiting entry. */
    method Resolve(id: Id, now: int) returns (erase: bool)
      requires Shape() && Sound(Now(), rules, {}, {})
      modifies `infos, `ids, `random, `nNew, `nTried, `counts, `collisions, `lastGood, tried, newTable
      ensures Sound(Now(), rules, {}, {}) && collisions == old(collisions)
      ensures Later(old(Now()), Now()) && (old(Timed(infos)) && now > 0 ==> Timed(infos))
      ensures Settled(old(Now()), Now(), rules, id, now, erase)
      ensures id in old(infos) && rules.valid(old(infos[id].address)) && !old(infos[id].inTried) ==>
                HandsOver(old(Now()), Now(), rules, id, now, erase)
    {
      if id !in infos || !rules.valid(infos[id].address) {
        return true;
      }
      ghost var s := Now();
      var address := infos[id].address;
      var take;
      take, erase := Consider(id, now);
      if take {
        var _ := MarkGood(address, false, now);
      }
      ResolvedLater(s, Now(), rules, id, now);
      if !s.infos[id].inTried {
        SettledTimes(s, Now(), rules, id, now, erase);
      }
    }

    method Release(id: Id)
      modifies `collisions
      ensures collisions == old(collisions) - {id} && Now() == old(Now())
    {
      collisions := collisions - {id};
    }

    /** Goes through the waiting entries, in whatever order; `clock` is the time at which each one is looked at. */
    method ResolveCollisions(clock: Id -> int)
      returns (ghost trace: seq<State>, ghost order: seq<Id>, ghost erased: set<Id>)
      requires Valid()
      modifies `infos, `ids, `random, `nNew, `nTried, `counts, `collisions, `lastGood, tried, newTable
      ensures Valid() && Later(old(Now()), Now())
      ensures old(Timed(infos)) && (forall id :: id in old(collisions) ==> clock(id) > 0) ==> Timed(infos)
      ensures SettleRun(trace, rules, order, clock, erased) && trace[0] == old(Now()) && trace[|order|] == Now()
      ensures forall i {:trigger order[i]} :: 0 <= i < |order| ==> KeepsGood(trace[i], trace[i + 1], clock(order[i]))
      ensures (forall id :: id in order <==> id in old(collisions)) && collisions == old(collisions) - erased
    {
      ghost var s, waiting := Now(), collisions;
      var pending := collisions;
      trace, order, erased := [s], [], {};
      while pending != {}
        invariant Shape() && Sound(Now(), rules, {}, {})
        invariant Settling(s, Now(), rules, waiting, pending, collisions, clock, trace, order, erased)
        decreases pending
      {
        var id := PickFrom(pending);
        ghost var t, left := Now(), collisions;
        var erase := Resolve(id, clock(id));
        ghost var u := Now();
        SettlingNext(s, t, u, rules, waiting, pending, left, clock, trace, order, erased, id, erase);
        pending := pending - {id};
        if erase {
          Release(id);
        }
        trace, order, erased := trace + [u], order + [id], if erase then erased + {id} else erased;
      }
      FewerWaiting(rules, s, Now(), waiting, collisions);
      RunKeepsGood(trace, rules, order, clock, erased);
    }

    /** The tried entry that stands in the way of a waiting one, drawn by the caller from those that wait. */
    method SelectTriedCollision(drawn: Id) returns (found: Option<AddrInfo>)
      requires Valid() && (collisions != {} ==> drawn in collisions)
      modifies `collisions
      ensures Valid() && Now() == old(Now())
      ensures found.None? <==> old(collisions) == {} || drawn !in infos
      ensures collisions == if drawn in infos then old(collisions) else old(collisions) - {drawn}
      ensures found.Some? ==>
        && found.value.inTried && TriedCell(rules, found.value.address) == TriedCell(rules, infos[drawn].address)
        && found.value.address in ids && infos[ids[found.value.address]] == found.value
    {
      if |collisions| == 0 {
        return None;
      }
      if drawn !in infos {
        FewerWaiting(rules, Now(), Now(), collisions, collisions - {drawn});
        collisions := collisions - {drawn};
        return None;
      }
      var c := TriedCell(rules, infos[drawn].address);
      return Some(infos[tried[c]]);
    }

    // ---------------------------------------------------------------- queries

    /** Draws the entry for place `n` of the random order from those that come later. */
    method DrawOne(ghost s: State, n: nat, pos: nat)
      requires Shape() && Sound(Now(), rules, {}, {}) && Drawn(s, Now()) && n <= pos < |random|
      modifies `infos, `random
      ensures Sound(Now(), rules, {}, {}) && Drawn(s, Now())
      ensures |random| == |old(random)| && random[..n] == old(random[..n])
      ensures random[n] in infos && random[n] in s.infos && Same(s.infos[random[n]], infos[random[n]])
    {
      ghost var t := Now();
      SwappedSound(t, rules, {}, {}, n, pos);
      SwapRandom(n, pos);
      DrawnNext(s, t, Now(), random[n]);
    }

    /** Selects addresses at random; `n` is how many places of the random order were drawn for it. */
    method GetAddr(maxAddresses: nat, maxPct: nat, f: Filter, draws: nat -> nat)
      returns (addresses: seq<Announcement>, n: nat)
      requires Valid()
      modifies `infos, `random
      ensures Valid() && Twins(old(infos), infos) && n <= |random|
      ensures Selection(rules, f, old(infos), random[..n], addresses)
      ensures |addresses| <= NodeLimit(|old(random)|, maxAddresses, maxPct)
      ensures |addresses| < NodeLimit(|old(random)|, maxAddresses, maxPct) ==> n == |random|
    {
      var nNodes := NodeLimit(|random|, maxAddresses, maxPct);
      ghost var s := Now();
      addresses := [];
      n := 0;
      while n < |random| && |addresses| < nNodes
        invariant Sound(Now(), rules, {}, {}) && Drawn(s, Now()) && 0 <= n <= |random| == |s.random|
        invariant |addresses| <= nNodes
        invariant Known(s.infos, random[..n])
        invariant addresses == Suitable(rules, f, s.infos, random[..n])
      {
        var pos := draws(n) % (|random| - n) + n;
        DrawOne(s, n, pos);
        var info := infos[random[n]];
        TwinsSuit(rules, f, s.infos[random[n]], info);
        SuitableNext(rules, f, s.infos, random, n);
        if Suits(rules, f, info) {
          addresses := addresses + [Announce(info)];
        }
        n := n + 1;
      }
      DrawnSelection(s, Now(), rules, f, n);
      StillWaiting(rules, s, Now(), collisions);
    }

    /** The consistency check has nothing to complain about, unless it is the key. */
    method Check() returns (code: int)
      requires Valid() && Timed(infos)
      ensures code == 0 <==> !rules.nullKey
    {
      ghost var s := Now();
      SoundPasses(rules, s);
      code := CheckAddrman(rules, State(infos, ids, random, tried[..], newTable[..], nNew, nTried, counts, idCount));
    }
  }

  /** Only the random order was changed. */
  ghost predicate Drawn(s: State, t: State) {
    Twins(s.infos, t.infos) && t.ids == s.ids && t.tried == s.tried && t.idCount == s.idCount
  }

  lemma DrawnNext(s: State, t: State, u: State, id: Id)
    requires Drawn(s, t) && Drawn(t, u) && id in u.infos
    ensures Drawn(s, u) && id in s.infos && Same(s.infos[id], u.infos[id])
  {
    assert id in u.infos.Keys && id in t.infos.Keys && id in s.infos.Keys;
  }

  lemma DrawnSelection(s: State, t: State, r: Rules, f: Filter, n: nat)
    requires Drawn(s, t) && Sound(s, r, {}, {}) && Sound(t, r, {}, {}) && n <= |t.random|
    requires Known(s.infos, t.random[..n])
    ensures Selection(r, f, s.infos, t.random[..n], Suitable(r, f, s.infos, t.random[..n])) && Later(s, t)
  {
    var list := t.random[..n];
    forall x, y | x in s.infos && y in s.infos && s.infos[x].address == s.infos[y].address ensures x == y {
      assert s.ids[s.infos[x].address] == x;
    }
    SuitableIsSelection(r, f, s.infos, list);
  }
}
