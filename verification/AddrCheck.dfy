/** The consistency check of the address manager, exactly what it accepts, and that sound states pass it. */
module AddrChecks {

  import opened Sets
  import opened AddrInfos
  import opened AddrTables
  import opened AddrSteps
  import opened AddrMoves

  // ---------------------------------------------------------------- what the check accepts

  ghost predicate EntryPasses(s: State, id: Id)
    requires id in s.infos
  {
    var info := s.infos[id];
    && Timely(info)
    && (if info.inTried then info.refCount == 0 else 1 <= info.refCount <= NEW_BUCKETS_PER_ADDRESS)
    && info.address in s.ids && s.ids[info.address] == id
    && 0 <= info.randomPos < |s.random| && s.random[info.randomPos] == id
  }

  ghost predicate TriedCellPasses(r: Rules, s: State, k: nat)
    requires k < |s.tried|
  {
    s.tried[k] != NONE ==>
      s.tried[k] in s.infos && s.infos[s.tried[k]].inTried && k == TriedCell(r, s.infos[s.tried[k]].address)
  }

  ghost predicate NewCellPasses(r: Rules, s: State, k: nat)
    requires k < |s.newTable|
  {
    s.newTable[k] != NONE ==>
      && s.newTable[k] in s.infos && !s.infos[s.newTable[k]].inTried
      && k == NewCell(r, s.infos[s.newTable[k]].address, k / BUCKET_SIZE)
  }

  /** The networks of the entries outside `off`. */
  function NetworksOf(r: Rules, infos: map<Id, AddrInfo>, off: set<Id>): set<Network> {
    set id | id in infos && id !in off :: r.network(infos[id].address)
  }

  /** The counters per network; one that is missing goes unnoticed when another is there for nothing. */
  ghost predicate NetworksPass(r: Rules, s: State) {
    && |s.counts| >= |NetworksOf(r, s.infos, {})|
    && forall net :: net in s.counts ==> s.counts[net] == TrueTally(r, s.infos, {}, net)
  }

  ghost predicate EntriesPass(s: State) {
    && (forall id :: id in s.infos ==> EntryPasses(s, id))
    && s.nTried == |Group(s.infos, {}, true)|
    && s.nNew == |Group(s.infos, {}, false)|
  }

  ghost predicate TriedTablePasses(r: Rules, s: State) {
    && (forall k :: 0 <= k < |s.tried| ==> TriedCellPasses(r, s, k))
    && (forall id :: id in Group(s.infos, {}, true) ==> id != NONE && id in s.tried)
  }

  ghost predicate NewTablePasses(r: Rules, s: State) {
    && (forall k :: 0 <= k < |s.newTable| ==> NewCellPasses(r, s, k))
    && (forall id :: id in Group(s.infos, {}, false) ==> id != NONE && |Cells(s.newTable, id)| == s.infos[id].refCount)
  }

  ghost predicate Passes(r: Rules, s: State) {
    && |s.random| == s.nTried + s.nNew
    && EntriesPass(s) && TriedTablePasses(r, s) && NewTablePasses(r, s) && !r.nullKey && NetworksPass(r, s)
  }

  // ---------------------------------------------------------------- what each code means

  ghost predicate EntryFault(s: State, id: Id, code: int) {
    && id in s.infos
    && var info := s.infos[id];
       match code
       case -1 => info.inTried && info.lastSuccess == 0
       case -2 => info.inTried && info.refCount != 0
       case -3 => !info.inTried && !(0 <= info.refCount <= NEW_BUCKETS_PER_ADDRESS)
       case -4 => !info.inTried && info.refCount == 0
       case -5 => info.address !in s.ids || s.ids[info.address] != id
       case -14 => !(0 <= info.randomPos < |s.random|) || s.random[info.randomPos] != id
       case -6 => info.lastTry < 0
       case -8 => info.lastSuccess < 0
       case _ => false
  }

  /** A cell of the tried table is wrong: it holds no tried entry, or one that an earlier cell holds, or one that
      belongs into another bucket or another position. */
  ghost predicate TriedFault(r: Rules, s: State, k: nat, code: int) {
    && k < |s.tried| && s.tried[k] != NONE
    && var id := s.tried[k];
       match code
       case -11 => id !in Group(s.infos, {}, true) || id in s.tried[..k]
       case -17 => id in s.infos && TriedBucket(r, s.infos[id].address) != k / BUCKET_SIZE
       case -18 => id in s.infos && BucketPosition(r, s.infos[id].address, false, k / BUCKET_SIZE) != k % BUCKET_SIZE
       case _ => false
  }

  /** A cell of the new table is wrong: it holds no new entry, or one that has enough cells before, or one that
      belongs into another position. */
  ghost predicate NewFault(r: Rules, s: State, k: nat, code: int) {
    && k < |s.newTable| && s.newTable[k] != NONE
    && var id := s.newTable[k];
       match code
       case -12 => id !in Group(s.infos, {}, false) || |Cells(s.newTable[..k], id)| >= s.infos[id].refCount
       case -19 => id in s.infos && BucketPosition(r, s.infos[id].address, true, k / BUCKET_SIZE) != k % BUCKET_SIZE
       case _ => false
  }

  ghost predicate TriedCellsPass(r: Rules, s: State) {
    forall k :: 0 <= k < |s.tried| ==> TriedCellPasses(r, s, k)
  }

  ghost predicate NewCellsPass(r: Rules, s: State) {
    forall k :: 0 <= k < |s.newTable| ==> NewCellPasses(r, s, k)
  }

  /** What is wrong when the check gives a code, the earlier parts of the check having found nothing. */
  ghost predicate Fault(r: Rules, s: State, code: int) {
    if |s.random| != s.nTried + s.nNew then code == -7
    else if exists id :: id in s.infos && !EntryPasses(s, id) then exists id :: EntryFault(s, id, code)
    else if s.nTried != |Group(s.infos, {}, true)| then code == -9
    else if s.nNew != |Group(s.infos, {}, false)| then code == -10
    else if !TriedCellsPass(r, s) then exists k :: TriedFault(r, s, k, code)
    else if exists k :: NewFault(r, s, k, code) then true
    else NewCellsPass(r, s) &&
         if !TriedTablePasses(r, s) then code == -13
         else if !NewTablePasses(r, s) then code == -15
         else if r.nullKey then code == -16
         else if |s.counts| < |NetworksOf(r, s.infos, {})| then code == -20
         else code == -21 && exists net :: net in s.counts && s.counts[net] != TrueTally(r, s.infos, {}, net)
  }

  /** A connection reported at time zero moves a new entry to the tried table, and the check fails. */
  lemma ZeroTimeFails(r: Rules, s: State, t: State, id: Id, waiting: set<Id>)
    requires Marked(s, t, r, id, true, 0, true, waiting, waiting)
    ensures !Passes(r, t)
  {
    assert id in t.infos && !EntryPasses(t, id);
  }

  // ---------------------------------------------------------------- sound states pass

  lemma SoundPasses(r: Rules, s: State)
    requires Sound(s, r, {}, {}) && Timed(s.infos)
    ensures Passes(r, s) <==> !r.nullKey
  {
    RandomSize(s.infos, s.random);
    GroupsSize(s.infos);
    RightCounters(r, s);
    forall id | id in Group(s.infos, {}, true) ensures id != NONE && id in s.tried {
      assert s.tried[TriedCell(r, s.infos[id].address)] == id;
    }
  }

  lemma RandomSize(infos: map<Id, AddrInfo>, random: seq<Id>)
    requires Listed(infos, random)
    ensures |random| == |infos.Keys|
  {
    var places := set i | 0 <= i < |random| :: random[i];
    PlacesSize(random, |random|);
    forall id | id in infos.Keys ensures id in places {
      assert random[infos[id].randomPos] == id;
    }
    assert places == infos.Keys;
  }

  lemma {:induction false} PlacesSize(random: seq<Id>, n: nat)
    requires n <= |random| && forall i, j :: 0 <= i < j < |random| ==> random[i] != random[j]
    ensures |set i | 0 <= i < n :: random[i]| == n
  {
    var places := set i | 0 <= i < n :: random[i];
    if n > 0 {
      PlacesSize(random, n - 1);
      var before := set i | 0 <= i < n - 1 :: random[i];
      assert places == before + {random[n - 1]};
    } else {
      assert places == {};
    }
  }

  lemma GroupsSize(infos: map<Id, AddrInfo>)
    ensures |Group(infos, {}, true)| + |Group(infos, {}, false)| == |infos.Keys|
  {
    var x, y := Group(infos, {}, true), Group(infos, {}, false);
    assert x + y == infos.Keys && x * y == {};
  }

  lemma RightCounters(r: Rules, s: State)
    requires forall net :: Tally(s.counts, net) == TrueTally(r, s.infos, {}, net)
    ensures NetworksPass(r, s) && NetworksOf(r, s.infos, {}) <= s.counts.Keys
  {
    forall net | net in NetworksOf(r, s.infos, {}) ensures net in s.counts.Keys {
      var id :| id in s.infos && r.network(s.infos[id].address) == net;
      var tried := s.infos[id].inTried;
      assert id in LocalGroup(r, s.infos, {}, tried, net);
      assert Tally(s.counts, net) == TrueTally(r, s.infos, {}, net);
    }
    SubsetSize(NetworksOf(r, s.infos, {}), s.counts.Keys);
    assert |s.counts.Keys| == |s.counts|;
    forall net | net in s.counts ensures s.counts[net] == TrueTally(r, s.infos, {}, net) {
      assert Tally(s.counts, net) == s.counts[net];
    }
  }

  /** With a counter for every network in use the check finds every wrong counter, and only then. */
  lemma NetworksPassExactly(r: Rules, s: State)
    ensures NetworksPass(r, s) && NetworksOf(r, s.infos, {}) <= s.counts.Keys <==>
            forall net :: Tally(s.counts, net) == TrueTally(r, s.infos, {}, net)
  {
    if NetworksPass(r, s) && NetworksOf(r, s.infos, {}) <= s.counts.Keys {
      forall net ensures Tally(s.counts, net) == TrueTally(r, s.infos, {}, net) {
        if net !in s.counts {
          NoneThere(r, s.infos, net);
        }
      }
    }
    if forall net :: Tally(s.counts, net) == TrueTally(r, s.infos, {}, net) {
      RightCounters(r, s);
    }
  }

  lemma NoneThere(r: Rules, infos: map<Id, AddrInfo>, net: Network)
    requires net !in NetworksOf(r, infos, {})
    ensures TrueTally(r, infos, {}, net) == NewTriedCount(0, 0)
  {
    forall id | id in infos ensures r.network(infos[id].address) != net {
      assert id !in {};
    }
    assert LocalGroup(r, infos, {}, false, net) == {} && LocalGroup(r, infos, {}, true, net) == {};
  }

  /** One counter is gone and another is there for nothing: the check does not see it. */
  lemma MissedCounter(r: Rules, s: State, net: Network, other: Network)
    requires NetworksOf(r, s.infos, {}) == {net} && other != net
    ensures var t := s.(counts := map[other := NewTriedCount(0, 0)]);
      NetworksPass(r, t) && Tally(t.counts, net) != TrueTally(r, t.infos, {}, net)
  {
    NoneThere(r, s.infos, other);
    assert net in NetworksOf(r, s.infos, {});
    var id :| id in s.infos && r.network(s.infos[id].address) == net;
    assert id in LocalGroup(r, s.infos, {}, s.infos[id].inTried, net);
  }

  // ---------------------------------------------------------------- the entries

  /** The entries outside `pending` were gone through, with what the check notes about them. */
  ghost predicate Gone(r: Rules, s: State, pending: set<Id>, setTried: set<Id>, mapNew: map<Id, int>,
                       local: map<Network, NewTriedCount>) {
    && pending <= s.infos.Keys
    && (forall id :: id in s.infos && id !in pending ==> EntryPasses(s, id))
    && setTried == Group(s.infos, pending, true)
    && mapNew.Keys == Group(s.infos, pending, false)
    && (forall id :: id in mapNew ==> mapNew[id] == s.infos[id].refCount)
    && local.Keys == NetworksOf(r, s.infos, pending)
    && (forall net :: Tally(local, net) == TrueTally(r, s.infos, pending, net))
  }

  lemma GoneStart(r: Rules, s: State)
    ensures Gone(r, s, s.infos.Keys, {}, map[], map[])
  {
    var all := s.infos.Keys;
    assert Group(s.infos, all, true) == {} && Group(s.infos, all, false) == {};
    assert NetworksOf(r, s.infos, all) == {};
    forall net ensures Tally(map[], net) == TrueTally(r, s.infos, all, net) {
      assert LocalGroup(r, s.infos, all, false, net) == {} && LocalGroup(r, s.infos, all, true, net) == {};
    }
  }

  lemma GoneNext(r: Rules, s: State, pending: set<Id>, setTried: set<Id>, mapNew: map<Id, int>,
                 local: map<Network, NewTriedCount>, id: Id)
    requires Gone(r, s, pending, setTried, mapNew, local) && id in pending && EntryPasses(s, id)
    ensures var info := s.infos[id];
      var net := r.network(info.address);
      if info.inTried then Gone(r, s, pending - {id}, setTried + {id}, mapNew, Bump(local, net, 0, 1))
      else Gone(r, s, pending - {id}, setTried, mapNew[id := info.refCount], Bump(local, net, 1, 0))
  {
    var info, rest := s.infos[id], pending - {id};
    GroupsGrow(r, s.infos, pending, id);
    TallyNext(r, s.infos, pending, local, id);
    EntriesNext(s, pending, id);
    if info.inTried {
      assert setTried + {id} == Group(s.infos, rest, true) && mapNew.Keys == Group(s.infos, rest, false);
    } else {
      assert mapNew[id := info.refCount].Keys == Group(s.infos, rest, false);
    }
  }

  lemma EntriesNext(s: State, pending: set<Id>, id: Id)
    requires id in pending && id in s.infos && EntryPasses(s, id)
    requires forall x :: x in s.infos && x !in pending ==> EntryPasses(s, x)
    ensures forall x :: x in s.infos && x !in pending - {id} ==> EntryPasses(s, x)
  {
  }

  lemma TallyNext(r: Rules, infos: map<Id, AddrInfo>, pending: set<Id>, local: map<Network, NewTriedCount>, id: Id)
    requires id in infos && id in pending
    requires forall net :: Tally(local, net) == TrueTally(r, infos, pending, net)
    ensures var net, tried := r.network(infos[id].address), infos[id].inTried;
      forall other :: Tally(Bump(local, net, One(!tried), One(tried)), other) ==
          TrueTally(r, infos, pending - {id}, other)
  {
    var net, dNew, dTried := r.network(infos[id].address), One(!infos[id].inTried), One(infos[id].inTried);
    forall other ensures Tally(Bump(local, net, dNew, dTried), other) == TrueTally(r, infos, pending - {id}, other) {
      Retallied(r, infos, pending, infos, pending - {id}, id, net, dNew, dTried, other);
      assert Tally(local, other) == TrueTally(r, infos, pending, other);
    }
  }

  lemma GroupsGrow(r: Rules, infos: map<Id, AddrInfo>, pending: set<Id>, id: Id)
    requires id in infos && id in pending
    ensures var rest, tried := pending - {id}, infos[id].inTried;
      && Group(infos, rest, tried) == Group(infos, pending, tried) + {id}
      && Group(infos, rest, !tried) == Group(infos, pending, !tried)
      && NetworksOf(r, infos, rest) == NetworksOf(r, infos, pending) + {r.network(infos[id].address)}
  {
    var rest, tried := pending - {id}, infos[id].inTried;
    var a, b := NetworksOf(r, infos, rest), NetworksOf(r, infos, pending) + {r.network(infos[id].address)};
    forall net | net in a ensures net in b {
      var x :| x in infos && x !in rest && r.network(infos[x].address) == net;
      assert x != id ==> x in infos && x !in pending;
    }
    forall net | net in b ensures net in a {
      if net == r.network(infos[id].address) {
        assert id in infos && id !in rest;
      } else {
        var x :| x in infos && x !in pending && r.network(infos[x].address) == net;
        assert x in infos && x !in rest;
      }
    }
    assert a == b;
    assert Group(infos, rest, tried) == Group(infos, pending, tried) + {id};
    assert Group(infos, rest, !tried) == Group(infos, pending, !tried);
  }

  /** Goes through the entries; the code of the first complaint, or zero with what is to be found in the tables. */
  method CheckEntries(r: Rules, s: State)
    returns (code: int, setTried: set<Id>, mapNew: map<Id, int>, local: map<Network, NewTriedCount>)
    ensures code == 0 <==> forall id :: id in s.infos ==> EntryPasses(s, id)
    ensures code == 0 ==> Gone(r, s, {}, setTried, mapNew, local)
    ensures code != 0 ==> exists id :: EntryFault(s, id, code)
  {
    setTried, mapNew, local := {}, map[], map[];
    var pending := s.infos.Keys;
    GoneStart(r, s);
    while pending != {}
      invariant Gone(r, s, pending, setTried, mapNew, local)
      decreases pending
    {
      var id := PickFrom(pending);
      var info := s.infos[id];
      code := CheckEntry(s, id);
      if code != 0 {
        return;
      }
      GoneNext(r, s, pending, setTried, mapNew, local, id);
      if info.inTried {
        setTried := setTried + {id};
        local := Bump(local, r.network(info.address), 0, 1);
      } else {
        mapNew := mapNew[id := info.refCount];
        local := Bump(local, r.network(info.address), 1, 0);
      }
      pending := pending - {id};
    }
    code := 0;
  }

  method CheckEntry(s: State, id: Id) returns (code: int)
    requires id in s.infos
    ensures code == 0 <==> EntryPasses(s, id)
    ensures code != 0 ==> EntryFault(s, id, code)
  {
    var info := s.infos[id];
    if info.inTried {
      if info.lastSuccess == 0 { return -1; }
      if info.refCount != 0 { return -2; }
    } else {
      if info.refCount < 0 || info.refCount > NEW_BUCKETS_PER_ADDRESS { return -3; }
      if info.refCount == 0 { return -4; }
    }
    if info.address !in s.ids || s.ids[info.address] != id { return -5; }
    if info.randomPos < 0 || info.randomPos >= |s.random| || s.random[info.randomPos] != id { return -14; }
    if info.lastTry < 0 { return -6; }
    if info.lastSuccess < 0 { return -8; }
    return 0;
  }

  // ---------------------------------------------------------------- the tried table

  /** The first `n` cells pass, and the tried entries not found in them are left. */
  ghost predicate TriedSoFar(r: Rules, s: State, n: nat, left: set<Id>) {
    && n <= |s.tried|
    && (forall k :: 0 <= k < n ==> TriedCellPasses(r, s, k))
    && (forall id :: id in left <==> id in Group(s.infos, {}, true) && (id == NONE || id !in s.tried[..n]))
  }

  lemma TriedNext(r: Rules, s: State, n: nat, left: set<Id>)
    requires TriedSoFar(r, s, n, left) && n < |s.tried|
    ensures s.tried[n] == NONE ==> TriedSoFar(r, s, n + 1, left)
    ensures s.tried[n] != NONE && s.tried[n] in left && TriedCellPasses(r, s, n) ==>
      TriedSoFar(r, s, n + 1, left - {s.tried[n]})
    ensures s.tried[n] != NONE && s.tried[n] !in left ==> !TriedCellPasses(r, s, n)
  {
    var id := s.tried[n];
    assert s.tried[..n + 1] == s.tried[..n] + [id];
    if id != NONE && id !in left && id in s.tried[..n] {
      var k :| 0 <= k < n && s.tried[k] == id;
      assert TriedCellPasses(r, s, k);
    }
  }

  /** Goes through the tried table; what is left are the entries that were not found. */
  method CheckTried(r: Rules, s: State, setTried: set<Id>) returns (code: int, left: set<Id>)
    requires setTried == Group(s.infos, {}, true)
    ensures code == 0 <==> TriedCellsPass(r, s)
    ensures code != 0 ==> exists k :: TriedFault(r, s, k, code)
    ensures code == 0 ==> (left == {} <==> TriedTablePasses(r, s))
  {
    left := setTried;
    var k := 0;
    while k < |s.tried|
      invariant TriedSoFar(r, s, k, left)
    {
      var id := s.tried[k];
      TriedNext(r, s, k, left);
      if id != NONE {
        if id !in left {
          assert TriedFault(r, s, k, -11);
          return -11, left;
        }
        CellParts(r, s, k);
        if id !in s.infos || TriedBucket(r, s.infos[id].address) != k / BUCKET_SIZE {
          assert TriedFault(r, s, k, -17);
          return -17, left;
        }
        if BucketPosition(r, s.infos[id].address, false, k / BUCKET_SIZE) != k % BUCKET_SIZE {
          assert TriedFault(r, s, k, -18);
          return -18, left;
        }
        left := left - {id};
      }
      k := k + 1;
    }
    assert s.tried[..k] == s.tried;
    code := 0;
    TriedDone(r, s, left);
  }

  /** An occupied cell is the right one if its bucket and its position are. */
  lemma CellParts(r: Rules, s: State, k: nat)
    requires k < |s.tried| && s.tried[k] in s.infos && s.infos[s.tried[k]].inTried && s.tried[k] != NONE
    ensures var a := s.infos[s.tried[k]].address;
      TriedCellPasses(r, s, k) <==>
      TriedBucket(r, a) == k / BUCKET_SIZE && BucketPosition(r, a, false, k / BUCKET_SIZE) == k % BUCKET_SIZE
  {
  }

  lemma TriedDone(r: Rules, s: State, left: set<Id>)
    requires TriedSoFar(r, s, |s.tried|, left)
    ensures left == {} <==> TriedTablePasses(r, s)
  {
    assert s.tried[..|s.tried|] == s.tried;
    if left == {} {
      forall id | id in Group(s.infos, {}, true) ensures id != NONE && id in s.tried {
        assert id !in left;
      }
    } else {
      var id := Witness(left);
      assert id in Group(s.infos, {}, true) && (id == NONE || id !in s.tried);
    }
  }

  // ---------------------------------------------------------------- the new table

  /** The first `n` cells pass, and the references not found in them are left. */
  ghost predicate NewSoFar(r: Rules, s: State, n: nat, left: map<Id, int>) {
    && n <= |s.newTable|
    && (forall k :: 0 <= k < n ==> NewCellPasses(r, s, k))
    && (forall id :: id in left <==> id in Group(s.infos, {}, false) && Missing(s, n, id) != 0)
    && (forall id :: id in left ==> left[id] == Missing(s, n, id))
    && (forall id :: id in Group(s.infos, {}, false) ==> Missing(s, n, id) >= 0)
  }

  /** How many cells of an entry must still be found after the first `n`. */
  ghost function Missing(s: State, n: nat, id: Id): int
    requires id in s.infos && n <= |s.newTable|
  {
    s.infos[id].refCount - if id == NONE then 0 else |Cells(s.newTable[..n], id)|
  }

  lemma MissingNext(s: State, n: nat, id: Id)
    requires id in s.infos && n < |s.newTable|
    ensures Missing(s, n + 1, id) == Missing(s, n, id) - One(id != NONE && s.newTable[n] == id)
  {
    CellsNext(s.newTable, n, id);
  }

  lemma CellsNext(table: seq<Id>, n: nat, id: Id)
    requires n < |table|
    ensures |Cells(table[..n + 1], id)| == |Cells(table[..n], id)| + One(table[n] == id)
  {
    var a, b := Cells(table[..n], id), Cells(table[..n + 1], id);
    if table[n] == id {
      assert b == a + {n};
    } else {
      assert b == a;
    }
  }

  lemma {:induction false} MissingLess(s: State, n: nat, m: nat, id: Id)
    requires id in s.infos && n <= m <= |s.newTable|
    ensures Missing(s, m, id) <= Missing(s, n, id)
    decreases m
  {
    if n < m {
      MissingLess(s, n, m - 1, id);
      MissingNext(s, m - 1, id);
    }
  }

  function OneLess(left: map<Id, int>, id: Id): map<Id, int>
    requires id in left
  {
    if left[id] - 1 == 0 then left - {id} else left[id := left[id] - 1]
  }

  lemma NewNext(r: Rules, s: State, n: nat, left: map<Id, int>)
    requires NewSoFar(r, s, n, left) && n < |s.newTable|
    ensures s.newTable[n] == NONE ==> NewSoFar(r, s, n + 1, left)
    ensures s.newTable[n] != NONE && s.newTable[n] in left && NewCellPasses(r, s, n) ==>
      NewSoFar(r, s, n + 1, OneLess(left, s.newTable[n]))
  {
    forall id | id in Group(s.infos, {}, false)
      ensures Missing(s, n + 1, id) == Missing(s, n, id) - One(id != NONE && s.newTable[n] == id)
    {
      MissingNext(s, n, id);
    }
  }

  lemma NewOverfull(r: Rules, s: State, n: nat, left: map<Id, int>)
    requires NewSoFar(r, s, n, left) && n < |s.newTable| && s.newTable[n] != NONE && s.newTable[n] !in left
    ensures !NewTablePasses(r, s)
  {
    var id := s.newTable[n];
    if NewCellPasses(r, s, n) {
      assert id in Group(s.infos, {}, false);
      MissingNext(s, n, id);
      MissingLess(s, n + 1, |s.newTable|, id);
      assert s.newTable[..|s.newTable|] == s.newTable;
      assert Missing(s, |s.newTable|, id) < 0;
    }
  }

  lemma NewDone(r: Rules, s: State, left: map<Id, int>)
    requires NewSoFar(r, s, |s.newTable|, left)
    requires forall id :: id in Group(s.infos, {}, false) ==> s.infos[id].refCount > 0
    ensures left == map[] <==> NewTablePasses(r, s)
  {
    assert s.newTable[..|s.newTable|] == s.newTable;
    forall id | id in Group(s.infos, {}, false)
      ensures Missing(s, |s.newTable|, id) == 0 <==> id != NONE && |Cells(s.newTable, id)| == s.infos[id].refCount
    {
    }
    if left.Keys == {} {
      assert left == map[];
      forall id | id in Group(s.infos, {}, false) ensures Missing(s, |s.newTable|, id) == 0 {
        assert id !in left.Keys;
      }
    } else {
      var id := Witness(left.Keys);
      assert id in Group(s.infos, {}, false) && Missing(s, |s.newTable|, id) != 0;
    }
  }

  /** Goes through the new table; what is left are the references that were not found. */
  method CheckNew(r: Rules, s: State, mapNew: map<Id, int>) returns (code: int, left: map<Id, int>)
    requires mapNew.Keys == Group(s.infos, {}, false)
    requires forall id :: id in mapNew ==> mapNew[id] == s.infos[id].refCount > 0
    ensures code == 0 && left == map[] <==> NewTablePasses(r, s)
    ensures code == 0 ==> NewCellsPass(r, s)
    ensures code != 0 ==> exists k :: NewFault(r, s, k, code)
  {
    left := mapNew;
    var k := 0;
    NewStart(r, s, mapNew);
    while k < |s.newTable|
      invariant NewSoFar(r, s, k, left)
    {
      var id := s.newTable[k];
      NewNext(r, s, k, left);
      if id != NONE {
        if id !in left {
          NewOverfull(r, s, k, left);
          assert NewFault(r, s, k, -12);
          return -12, left;
        }
        if id !in s.infos || BucketPosition(r, s.infos[id].address, true, k / BUCKET_SIZE) != k % BUCKET_SIZE {
          assert !NewCellPasses(r, s, k) && NewFault(r, s, k, -19);
          return -19, left;
        }
        left := OneLess(left, id);
      }
      k := k + 1;
    }
    code := 0;
    NewDone(r, s, left);
  }

  lemma NewStart(r: Rules, s: State, mapNew: map<Id, int>)
    requires mapNew.Keys == Group(s.infos, {}, false)
    requires forall id :: id in mapNew ==> mapNew[id] == s.infos[id].refCount > 0
    ensures NewSoFar(r, s, 0, mapNew)
  {
    forall id | id in Group(s.infos, {}, false) ensures id in mapNew && Missing(s, 0, id) == s.infos[id].refCount {
      assert id in mapNew.Keys;
      assert Cells(s.newTable[..0], id) == {};
    }
  }

  // ---------------------------------------------------------------- the whole check

  method CheckNetworks(r: Rules, s: State, local: map<Network, NewTriedCount>) returns (code: int)
    requires local.Keys == NetworksOf(r, s.infos, {})
    requires forall net :: Tally(local, net) == TrueTally(r, s.infos, {}, net)
    ensures code == 0 <==> NetworksPass(r, s)
    ensures code == -20 <==> |s.counts| < |NetworksOf(r, s.infos, {})|
    ensures code == -21 ==> exists net :: net in s.counts && s.counts[net] != TrueTally(r, s.infos, {}, net)
    ensures code in {0, -20, -21}
  {
    assert |local.Keys| == |local|;
    if |s.counts| < |local| {
      return -20;
    }
    if exists net :: net in s.counts && Tally(local, net) != s.counts[net] {
      assert !NetworksPass(r, s);
      return -21;
    }
    return 0;
  }

  method CheckAddrman(r: Rules, s: State) returns (code: int)
    ensures code == 0 <==> Passes(r, s)
    ensures code != 0 ==> Fault(r, s, code)
  {
    if |s.random| != s.nTried + s.nNew {
      return -7;
    }
    var setTried, mapNew, local;
    code, setTried, mapNew, local := CheckEntries(r, s);
    if code != 0 {
      return;
    }
    if |setTried| != s.nTried { return -9; }
    if |mapNew| != s.nNew { return -10; }
    var triedLeft, newLeft;
    code, triedLeft := CheckTried(r, s, setTried);
    if code != 0 {
      return;
    }
    code, newLeft := CheckNew(r, s, mapNew);
    if code != 0 {
      return;
    }
    if triedLeft != {} { return -13; }
    if newLeft != map[] { return -15; }
    if r.nullKey { return -16; }
    code := CheckNetworks(r, s, local);
  }
}
