/** What the internal operations of the address manager do to its state, and that they keep it sound. */
module AddrSteps {

  import opened Sets
  import opened AddrInfos
  import opened AddrTables

  // ---------------------------------------------------------------- creating

  function NewInfo(addr: Announcement, source: Host, pos: int): AddrInfo {
    AddrInfo(addr.address, addr.services, addr.time, source, 0, 0, 0, 0, 0, false, pos)
  }

  function Created(s: State, r: Rules, addr: Announcement, source: Host): State {
    s.(infos := s.infos[s.idCount := NewInfo(addr, source, |s.random|)],
       ids := s.ids[addr.address := s.idCount],
       random := s.random + [s.idCount],
       nNew := s.nNew + 1,
       counts := Bump(s.counts, r.network(addr.address), 1, 0),
       idCount := s.idCount + 1)
  }

  lemma CreatedSound(s: State, r: Rules, addr: Announcement, source: Host)
    requires Sound(s, r, {}, {}) && addr.address !in s.ids
    ensures Sound(Created(s, r, addr, source), r, {s.idCount}, {})
  {
    var id, info := s.idCount, NewInfo(addr, source, |s.random|);
    assert id !in s.infos;
    Recounted(r, s.infos, {}, s.infos[id := info], {}, id, r.network(addr.address), s.nNew, s.nTried, s.counts, 1, 0);
    CreatedInTables(r, s.infos, s.tried, s.newTable, id, info);
    CreatedInLists(s.infos, s.ids, s.random, id, info);
  }

  lemma CreatedInTables(r: Rules, infos: map<Id, AddrInfo>, tried: seq<Id>, newTable: seq<Id>, id: Id, info: AddrInfo)
    requires Tables(r, infos, tried, newTable, {})
    requires id !in infos && id != NONE && !info.inTried && info.refCount == 0
    ensures Tables(r, infos[id := info], tried, newTable, {id})
  {
    assert Cells(newTable, id) == {};
  }

  lemma CreatedInLists(infos: map<Id, AddrInfo>, ids: map<Address, Id>, random: seq<Id>, id: Id, info: AddrInfo)
    requires Lists(infos, ids, random, id) && info.address !in ids && info.randomPos == |random|
    ensures Lists(infos[id := info], ids[info.address := id], random + [id], id + 1)
  {
  }

  // ---------------------------------------------------------------- deleting

  function Removed(s: State, r: Rules, id: Id): State
    requires id in s.infos && |s.random| > 0
  {
    var a := s.infos[id].address;
    s.(infos := s.infos - {id},
       ids := s.ids - {a},
       random := s.random[..|s.random| - 1],
       nNew := s.nNew - 1,
       counts := Bump(s.counts, r.network(a), -1, 0))
  }

  function Deleted(s: State, r: Rules, id: Id): State
    requires id in s.infos && 0 <= s.infos[id].randomPos < |s.random|
  {
    Removed(Swapped(s, s.infos[id].randomPos, |s.random| - 1), r, id)
  }

  lemma DeletedSound(s: State, r: Rules, spare: set<Id>, off: set<Id>, id: Id)
    requires Sound(s, r, spare, off)
    requires id in s.infos && !s.infos[id].inTried && s.infos[id].refCount == 0 && id !in off
    ensures Sound(Deleted(s, r, id), r, spare, off) && Twins(s.infos - {id}, Deleted(s, r, id).infos)
  {
    var i, j := s.infos[id].randomPos, |s.random| - 1;
    SwappedSound(s, r, spare, off, i, j);
    var t := Swapped(s, i, j);
    assert t.infos[id].randomPos == j;
    assert Deleted(s, r, id) == Removed(t, r, id);
    DeletedAfterSwap(s, t, r, spare, off, id);
  }

  lemma DeletedAfterSwap(s: State, t: State, r: Rules, spare: set<Id>, off: set<Id>, id: Id)
    requires Sound(t, r, spare, off) && Twins(s.infos, t.infos)
    requires id in s.infos && !s.infos[id].inTried && s.infos[id].refCount == 0 && id !in off
    requires t.infos[id].randomPos == |t.random| - 1
    ensures Sound(Removed(t, r, id), r, spare, off) && Twins(s.infos - {id}, Removed(t, r, id).infos)
  {
    RemovedSound(t, r, spare, off, id);
  }

  lemma RemovedSound(s: State, r: Rules, spare: set<Id>, off: set<Id>, id: Id)
    requires Sound(s, r, spare, off)
    requires id in s.infos && !s.infos[id].inTried && s.infos[id].refCount == 0 && id !in off
    requires s.infos[id].randomPos == |s.random| - 1
    ensures Sound(Removed(s, r, id), r, spare, off)
  {
    var t := Removed(s, r, id);
    assert t.infos == s.infos - {id} && t.newTable == s.newTable && t.tried == s.tried && t.idCount == s.idCount;
    Recounted(r, s.infos, off, s.infos - {id}, off, id, r.network(s.infos[id].address), s.nNew, s.nTried, s.counts,
              -1, 0);
    RemovedFromTables(r, s.infos, s.tried, s.newTable, spare, id);
    RemovedFromLists(s.infos, s.ids, s.random, s.idCount, id);
  }

  lemma RemovedFromTables(r: Rules, infos: map<Id, AddrInfo>, tried: seq<Id>, newTable: seq<Id>, spare: set<Id>, id: Id)
    requires Tables(r, infos, tried, newTable, spare)
    requires id in infos && !infos[id].inTried && infos[id].refCount == 0
    ensures Tables(r, infos - {id}, tried, newTable, spare)
  {
    NoCells(r, infos, newTable, id);
  }

  lemma RemovedFromLists(infos: map<Id, AddrInfo>, ids: map<Address, Id>, random: seq<Id>, idCount: int, id: Id)
    requires Lists(infos, ids, random, idCount)
    requires id in infos && infos[id].randomPos == |random| - 1
    ensures Lists(infos - {id}, ids - {infos[id].address}, random[..|random| - 1], idCount)
  {
  }

  // ---------------------------------------------------------------- cells of the new table

  function Refer(infos: map<Id, AddrInfo>, id: Id, n: int): map<Id, AddrInfo>
    requires id in infos
  {
    infos[id := infos[id].(refCount := n)]
  }

  /** One cell is emptied and the entry that was there counts one reference less. */
  function Emptied(s: State, k: nat): State
    requires k < |s.newTable| && s.newTable[k] in s.infos
  {
    var id := s.newTable[k];
    s.(infos := Refer(s.infos, id, s.infos[id].refCount - 1), newTable := s.newTable[k := NONE])
  }

  lemma EmptiedSound(s: State, r: Rules, spare: set<Id>, off: set<Id>, k: nat)
    requires Sound(s, r, spare, off)
    requires k < |s.newTable| && s.newTable[k] != NONE && s.newTable[k] !in spare
    ensures var id, t := s.newTable[k], Emptied(s, k);
      && Sound(t, r, spare + {id}, off)
      && (t.infos[id].refCount != 0 ==> Sound(t, r, spare, off))
  {
    var id := s.newTable[k];
    var n := s.infos[id].refCount - 1;
    assert Emptied(s, k) == s.(infos := Refer(s.infos, id, n), newTable := s.newTable[k := NONE]);
    EmptiedTables(r, s.infos, s.tried, s.newTable, spare, k);
    RefersCounted(s, r, off, id, n);
    TouchedLists(s.infos, s.ids, s.random, s.idCount, id, s.infos[id].(refCount := n));
  }

  lemma RefersCounted(s: State, r: Rules, off: set<Id>, id: Id, n: int)
    requires id in s.infos && Counted(r, s.infos, off, s.nNew, s.nTried, s.counts)
    ensures Counted(r, Refer(s.infos, id, n), off, s.nNew, s.nTried, s.counts)
  {
    var net := r.network(s.infos[id].address);
    Recounted(r, s.infos, off, Refer(s.infos, id, n), off, id, net, s.nNew, s.nTried, s.counts, 0, 0);
    assert forall other :: Tally(Bump(s.counts, net, 0, 0), other) == Tally(s.counts, other);
  }

  lemma EmptiedTables(r: Rules, infos: map<Id, AddrInfo>, tried: seq<Id>, newTable: seq<Id>, spare: set<Id>, k: nat)
    requires Tables(r, infos, tried, newTable, spare)
    requires k < |newTable| && newTable[k] != NONE && newTable[k] !in spare
    ensures var id := newTable[k];
      var after := Refer(infos, id, infos[id].refCount - 1);
      && Tables(r, after, tried, newTable[k := NONE], spare + {id})
      && (after[id].refCount != 0 ==> Tables(r, after, tried, newTable[k := NONE], spare))
  {
    EmptiedCells(r, infos, newTable, k);
    var id := newTable[k];
    var after := Refer(infos, id, infos[id].refCount - 1);
    assert Tables(r, after, tried, newTable[k := NONE], spare + {id});
    if after[id].refCount != 0 {
      SpareGone(r, after, tried, newTable[k := NONE], spare, id);
    }
  }

  lemma EmptiedCells(r: Rules, infos: map<Id, AddrInfo>, newTable: seq<Id>, k: nat)
    requires InNewTable(r, infos, newTable) && k < |newTable| && newTable[k] != NONE && NONE !in infos
    ensures var id := newTable[k];
      InNewTable(r, Refer(infos, id, infos[id].refCount - 1), newTable[k := NONE]) && infos[id].refCount >= 1
  {
    var id := newTable[k];
    forall x | x in infos ensures |Cells(newTable[k := NONE], x)| == |Cells(newTable, x)| - One(x == id) {
      EmptiedSize(newTable, k, x);
    }
    assert k in Cells(newTable, id);
  }

  lemma EmptiedSize(table: seq<Id>, k: nat, id: Id)
    requires k < |table| && id != NONE
    ensures |Cells(table[k := NONE], id)| == |Cells(table, id)| - One(id == table[k])
  {
    CellsUpdate(table, k, NONE, id);
    assert k in Cells(table, id) <==> id == table[k];
  }

  /** Emptying a cell drops the entry for which it was the last. */
  function Cleared(s: State, r: Rules, k: nat): State
    requires k < |s.newTable| && (s.newTable[k] != NONE ==> s.newTable[k] in s.infos)
    requires Listed(s.infos, s.random)
  {
    if s.newTable[k] == NONE then s
    else
      var id, t := s.newTable[k], Emptied(s, k);
      if t.infos[id].refCount == 0 then Deleted(t, r, id) else t
  }

  lemma ClearedSound(s: State, r: Rules, spare: set<Id>, off: set<Id>, k: nat)
    requires Sound(s, r, spare, off) && off <= spare
    requires k < |s.newTable| && s.newTable[k] !in spare
    ensures Sound(Cleared(s, r, k), r, spare, off) && Spares(s, Cleared(s, r, k), s.newTable[k])
    ensures Cleared(s, r, k).newTable == s.newTable[k := NONE]
  {
    if s.newTable[k] == NONE {
      assert Cleared(s, r, k) == s && s.newTable == s.newTable[k := NONE];
    } else {
      var id, t := s.newTable[k], Emptied(s, k);
      EmptiedSound(s, r, spare, off, k);
      if t.infos[id].refCount == 0 {
        assert Cleared(s, r, k) == Deleted(t, r, id);
        ClearedAway(s, t, r, spare, off, id);
      } else {
        assert Cleared(s, r, k) == t;
      }
    }
  }

  lemma ClearedAway(s: State, t: State, r: Rules, spare: set<Id>, off: set<Id>, id: Id)
    requires Sound(t, r, spare + {id}, off)
    requires t.tried == s.tried && t.idCount == s.idCount && id in s.infos && t.infos == Refer(s.infos, id, 0)
    requires !s.infos[id].inTried && id !in off
    ensures Sound(Deleted(t, r, id), r, spare, off) && Spares(s, Deleted(t, r, id), id)
  {
    DeletedSound(t, r, spare + {id}, off, id);
    var u := Deleted(t, r, id);
    SpareGone(r, u.infos, u.tried, u.newTable, spare, id);
    EmptiedSpares(s, t, u, id);
  }

  lemma SpareGone(r: Rules, infos: map<Id, AddrInfo>, tried: seq<Id>, newTable: seq<Id>, spare: set<Id>, id: Id)
    requires Tables(r, infos, tried, newTable, spare + {id})
    requires id in infos && !infos[id].inTried ==> 1 <= infos[id].refCount <= NEW_BUCKETS_PER_ADDRESS
    ensures Tables(r, infos, tried, newTable, spare)
  {
  }

  /** The second state may have lost one entry, or a reference to it; whatever else it has is as it was. */
  ghost predicate Spares(s: State, t: State, id: Id) {
    && t.tried == s.tried && t.idCount == s.idCount
    && (forall x :: x in t.infos ==> x in s.infos) && (forall x :: x in s.infos && x != id ==> x in t.infos)
    && (forall x :: x in t.infos && x != id ==> Same(s.infos[x], t.infos[x]))
    && (id in t.infos ==> Same(s.infos[id].(refCount := t.infos[id].refCount), t.infos[id]))
  }

  lemma EmptiedSpares(s: State, t: State, u: State, id: Id)
    requires t.tried == s.tried && t.idCount == s.idCount && u.tried == s.tried && u.idCount == s.idCount
    requires id in s.infos && id in t.infos && t.infos == Refer(s.infos, id, t.infos[id].refCount)
    requires Twins(t.infos - {id}, u.infos)
    ensures Spares(s, u, id)
  {
    assert u.infos.Keys == s.infos.Keys - {id};
    forall x | x in u.infos ensures Same(s.infos[x], u.infos[x]) {
      assert x in t.infos - {id} && Same((t.infos - {id})[x], u.infos[x]);
    }
  }

  /** An entry is put into an empty cell. */
  function Entered(s: State, id: Id, k: nat): State
    requires k < |s.newTable| && id in s.infos
  {
    s.(infos := Refer(s.infos, id, s.infos[id].refCount + 1), newTable := s.newTable[k := id])
  }

  lemma EnteredSound(s: State, r: Rules, spare: set<Id>, off: set<Id>, id: Id, k: nat)
    requires Sound(s, r, spare + {id}, off)
    requires id in s.infos && !s.infos[id].inTried && s.infos[id].refCount < NEW_BUCKETS_PER_ADDRESS
    requires k < |s.newTable| && s.newTable[k] == NONE && k == NewCell(r, s.infos[id].address, k / BUCKET_SIZE)
    ensures Sound(Entered(s, id, k), r, spare, off)
  {
    var n := s.infos[id].refCount + 1;
    var t := Entered(s, id, k);
    assert t == s.(infos := Refer(s.infos, id, n), newTable := s.newTable[k := id]);
    assert t.infos == Refer(s.infos, id, n) && t.newTable == s.newTable[k := id] && t.tried == s.tried;
    assert t.ids == s.ids && t.random == s.random && t.idCount == s.idCount;
    EnteredTables(r, s.infos, s.tried, s.newTable, spare, id, k);
    RefersCounted(s, r, off, id, n);
    TouchedLists(s.infos, s.ids, s.random, s.idCount, id, s.infos[id].(refCount := n));
  }

  lemma EnteredTables(r: Rules, infos: map<Id, AddrInfo>, tried: seq<Id>, newTable: seq<Id>, spare: set<Id>, id: Id,
                      k: nat)
    requires Tables(r, infos, tried, newTable, spare + {id})
    requires id in infos && !infos[id].inTried && infos[id].refCount < NEW_BUCKETS_PER_ADDRESS
    requires k < |newTable| && newTable[k] == NONE && k == NewCell(r, infos[id].address, k / BUCKET_SIZE)
    ensures Tables(r, Refer(infos, id, infos[id].refCount + 1), tried, newTable[k := id], spare)
  {
    EnteredCells(r, infos, newTable, id, k);
  }

  lemma EnteredCells(r: Rules, infos: map<Id, AddrInfo>, newTable: seq<Id>, id: Id, k: nat)
    requires InNewTable(r, infos, newTable) && NONE !in infos
    requires id in infos && !infos[id].inTried && k < |newTable| && newTable[k] == NONE
    requires k == NewCell(r, infos[id].address, k / BUCKET_SIZE)
    ensures InNewTable(r, Refer(infos, id, infos[id].refCount + 1), newTable[k := id])
  {
    forall x | x in infos ensures |Cells(newTable[k := id], x)| == |Cells(newTable, x)| + One(x == id) {
      EnteredSize(newTable, k, id, x);
    }
  }

  lemma EnteredSize(table: seq<Id>, k: nat, id: Id, x: Id)
    requires k < |table| && table[k] == NONE && x != NONE
    ensures |Cells(table[k := id], x)| == |Cells(table, x)| + One(x == id)
  {
    CellsUpdate(table, k, id, x);
    assert k !in Cells(table, x);
  }

  // ---------------------------------------------------------------- between the tables

  function Flag(infos: map<Id, AddrInfo>, id: Id, tried: bool): map<Id, AddrInfo>
    requires id in infos
  {
    infos[id := infos[id].(inTried := tried)]
  }

  /** An entry without references stops being counted as new. */
  function Discounted(s: State, r: Rules, id: Id): State
    requires id in s.infos
  {
    s.(nNew := s.nNew - 1, counts := Bump(s.counts, r.network(s.infos[id].address), -1, 0))
  }

  lemma DiscountedSound(s: State, r: Rules, id: Id)
    requires Sound(s, r, {id}, {}) && id in s.infos && !s.infos[id].inTried
    ensures Sound(Discounted(s, r, id), r, {id}, {id})
  {
    Recounted(r, s.infos, {}, s.infos, {id}, id, r.network(s.infos[id].address), s.nNew, s.nTried, s.counts, -1, 0);
  }

  /** A tried entry leaves its cell and is in neither table. */
  function Demoted(s: State, r: Rules, id: Id): State
    requires id in s.infos && |s.tried| == TRIED_BUCKET_COUNT * BUCKET_SIZE
  {
    var a := s.infos[id].address;
    s.(infos := Flag(s.infos, id, false), tried := s.tried[TriedCell(r, a) := NONE], nTried := s.nTried - 1,
       counts := Bump(s.counts, r.network(a), 0, -1))
  }

  lemma DemotedSound(s: State, r: Rules, off: set<Id>, id: Id)
    requires Sound(s, r, off, off) && id in s.infos && s.infos[id].inTried && id !in off
    ensures Sound(Demoted(s, r, id), r, off + {id}, off + {id})
  {
    var t := Demoted(s, r, id);
    assert t.infos == Flag(s.infos, id, false) && t.newTable == s.newTable;
    assert t.ids == s.ids && t.random == s.random && t.idCount == s.idCount;
    Recounted(r, s.infos, off, Flag(s.infos, id, false), off + {id}, id, r.network(s.infos[id].address),
              s.nNew, s.nTried, s.counts, 0, -1);
    DemotedTables(r, s.infos, s.tried, s.newTable, off, id);
    TouchedLists(s.infos, s.ids, s.random, s.idCount, id, s.infos[id].(inTried := false));
  }

  lemma DemotedTables(r: Rules, infos: map<Id, AddrInfo>, tried: seq<Id>, newTable: seq<Id>, off: set<Id>, id: Id)
    requires Tables(r, infos, tried, newTable, off) && id in infos && infos[id].inTried
    ensures Tables(r, Flag(infos, id, false), tried[TriedCell(r, infos[id].address) := NONE], newTable, off + {id})
  {
    NoCells(r, infos, newTable, id);
  }

  /** An entry in neither table counts as new again and gets one cell. */
  function Returned(s: State, r: Rules, id: Id, k: nat): State
    requires id in s.infos && k < |s.newTable|
  {
    s.(infos := Refer(s.infos, id, 1), newTable := s.newTable[k := id], nNew := s.nNew + 1,
       counts := Bump(s.counts, r.network(s.infos[id].address), 1, 0))
  }

  lemma ReturnedSound(s: State, r: Rules, off: set<Id>, id: Id, k: nat)
    requires Sound(s, r, off + {id}, off + {id})
    requires id in s.infos && !s.infos[id].inTried && s.infos[id].refCount == 0 && id !in off
    requires k < |s.newTable| && s.newTable[k] == NONE && k == NewCell(r, s.infos[id].address, k / BUCKET_SIZE)
    ensures Sound(Returned(s, r, id, k), r, off, off)
  {
    ReturnedCounted(s, r, off, id);
    ReturnedInTables(s, r, off, id, k);
  }

  lemma ReturnedInTables(s: State, r: Rules, off: set<Id>, id: Id, k: nat)
    requires Lists(s.infos, s.ids, s.random, s.idCount) && Tables(r, s.infos, s.tried, s.newTable, off + {id})
    requires id in s.infos && !s.infos[id].inTried && s.infos[id].refCount == 0
    requires k < |s.newTable| && s.newTable[k] == NONE && k == NewCell(r, s.infos[id].address, k / BUCKET_SIZE)
    ensures var t := Returned(s, r, id, k);
      Lists(t.infos, t.ids, t.random, t.idCount) && Tables(r, t.infos, t.tried, t.newTable, off)
  {
    var t := Returned(s, r, id, k);
    assert t.infos == Refer(s.infos, id, 1) && t.newTable == s.newTable[k := id] && t.tried == s.tried;
    EnteredTables(r, s.infos, s.tried, s.newTable, off, id, k);
    TouchedLists(s.infos, s.ids, s.random, s.idCount, id, s.infos[id].(refCount := 1));
  }

  lemma ReturnedCounted(s: State, r: Rules, off: set<Id>, id: Id)
    requires Counted(r, s.infos, off + {id}, s.nNew, s.nTried, s.counts)
    requires id in s.infos && !s.infos[id].inTried && id !in off
    ensures Counted(r, Refer(s.infos, id, 1), off, s.nNew + 1, s.nTried,
                    Bump(s.counts, r.network(s.infos[id].address), 1, 0))
  {
    Recounted(r, s.infos, off + {id}, Refer(s.infos, id, 1), off, id, r.network(s.infos[id].address),
              s.nNew, s.nTried, s.counts, 1, 0);
  }

  /** An entry in neither table takes its cell of the tried table. */
  function Promoted(s: State, r: Rules, id: Id): State
    requires id in s.infos && |s.tried| == TRIED_BUCKET_COUNT * BUCKET_SIZE
  {
    var a := s.infos[id].address;
    s.(infos := Flag(s.infos, id, true), tried := s.tried[TriedCell(r, a) := id], nTried := s.nTried + 1,
       counts := Bump(s.counts, r.network(a), 0, 1))
  }

  lemma PromotedSound(s: State, r: Rules, id: Id)
    requires Sound(s, r, {id}, {id}) && id in s.infos && !s.infos[id].inTried && s.infos[id].refCount == 0
    requires s.tried[TriedCell(r, s.infos[id].address)] == NONE
    ensures Sound(Promoted(s, r, id), r, {}, {})
  {
    Recounted(r, s.infos, {id}, Flag(s.infos, id, true), {}, id, r.network(s.infos[id].address),
              s.nNew, s.nTried, s.counts, 0, 1);
    PromotedTables(r, s.infos, s.tried, s.newTable, id);
    TouchedLists(s.infos, s.ids, s.random, s.idCount, id, s.infos[id].(inTried := true));
  }

  lemma PromotedTables(r: Rules, infos: map<Id, AddrInfo>, tried: seq<Id>, newTable: seq<Id>, id: Id)
    requires Tables(r, infos, tried, newTable, {id})
    requires id in infos && !infos[id].inTried && infos[id].refCount == 0
    requires tried[TriedCell(r, infos[id].address)] == NONE
    ensures Tables(r, Flag(infos, id, true), tried[TriedCell(r, infos[id].address) := id], newTable, {})
  {
    NoCells(r, infos, newTable, id);
  }

  // ---------------------------------------------------------------- leaving the new table

  /** Every cell of the new table that holds the entry is emptied. */
  function LeftNew(s: State, id: Id): State
    requires id in s.infos
  {
    s.(infos := Refer(s.infos, id, 0), newTable := Without(s.newTable, id))
  }

  function Without(table: seq<Id>, id: Id): seq<Id> {
    seq(|table|, k requires 0 <= k < |table| => if table[k] == id then NONE else table[k])
  }

  lemma LeftNewSound(s: State, r: Rules, id: Id)
    requires Sound(s, r, {}, {}) && id in s.infos && !s.infos[id].inTried
    ensures Sound(LeftNew(s, id), r, {id}, {})
  {
    LeftNewTables(r, s.infos, s.tried, s.newTable, id);
    RefersCounted(s, r, {}, id, 0);
    TouchedLists(s.infos, s.ids, s.random, s.idCount, id, s.infos[id].(refCount := 0));
  }

  lemma LeftNewTables(r: Rules, infos: map<Id, AddrInfo>, tried: seq<Id>, newTable: seq<Id>, id: Id)
    requires Tables(r, infos, tried, newTable, {}) && id in infos && !infos[id].inTried
    ensures Tables(r, Refer(infos, id, 0), tried, Without(newTable, id), {id})
  {
    LeftNewCells(r, infos, newTable, id);
  }

  lemma LeftNewCells(r: Rules, infos: map<Id, AddrInfo>, newTable: seq<Id>, id: Id)
    requires InNewTable(r, infos, newTable) && NONE !in infos && id in infos
    ensures InNewTable(r, Refer(infos, id, 0), Without(newTable, id))
  {
    forall x | x in infos ensures |Cells(Without(newTable, id), x)| == if x == id then 0 else |Cells(newTable, x)| {
      if x == id {
        assert Cells(Without(newTable, id), x) == {};
      } else {
        assert Cells(Without(newTable, id), x) == Cells(newTable, x);
      }
    }
  }

  // ---------------------------------------------------------------- what is never taken back

  /** Identifiers are not reused and a cell of the tried table once filled stays filled. */
  ghost predicate Later(s: State, t: State) {
    && s.idCount <= t.idCount && |s.tried| == |t.tried|
    && (forall k :: 0 <= k < |s.tried| && s.tried[k] != NONE ==> t.tried[k] != NONE)
    && (forall id :: id in t.infos ==>
        if id in s.infos then t.infos[id].address == s.infos[id].address else id >= s.idCount)
  }

  lemma LaterTrans(s: State, t: State, u: State)
    requires Later(s, t) && Later(t, u) && Issued(s.infos, s.idCount)
    ensures Later(s, u)
  {
  }

  /** An entry that waits to be decided upon finds its cell of the tried table occupied. */
  ghost predicate Waiting(r: Rules, s: State, collisions: set<Id>) {
    && |s.tried| == TRIED_BUCKET_COUNT * BUCKET_SIZE
    && |collisions| <= SET_TRIED_COLLISION_SIZE
    && forall id :: id in collisions ==>
         0 <= id < s.idCount && (id in s.infos ==> s.tried[TriedCell(r, s.infos[id].address)] != NONE)
  }

  lemma StillWaiting(r: Rules, s: State, t: State, collisions: set<Id>)
    requires Waiting(r, s, collisions) && Later(s, t)
    ensures Waiting(r, t, collisions)
  {
  }

  lemma FewerWaiting(r: Rules, s: State, t: State, collisions: set<Id>, after: set<Id>)
    requires Waiting(r, s, collisions) && Later(s, t) && after <= collisions
    ensures Waiting(r, t, after)
  {
    StillWaiting(r, s, t, collisions);
    SubsetSize(after, collisions);
  }

  /** Times the consistency check accepts. */
  predicate Timely(info: AddrInfo) {
    info.lastTry >= 0 && info.lastSuccess >= 0 && (info.inTried ==> info.lastSuccess != 0)
  }

  ghost predicate Timed(infos: map<Id, AddrInfo>) {
    forall id :: id in infos ==> Timely(infos[id])
  }
}
