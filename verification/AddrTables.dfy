/**
  The state of the address manager as a value, the conditions its consistency check asks for, and
  the elementary changes that keep them.
*/
module AddrTables {

  import opened AddrInfos

  datatype State = State(
    infos: map<Id, AddrInfo>,
    ids: map<Address, Id>,
    random: seq<Id>,
    tried: seq<Id>,
    newTable: seq<Id>,
    nNew: int,
    nTried: int,
    counts: map<Network, NewTriedCount>,
    idCount: int)

  // ---------------------------------------------------------------- conditions

  /** Entries and addresses determine each other. */
  ghost predicate Named(infos: map<Id, AddrInfo>, ids: map<Address, Id>) {
    && (forall id :: id in infos ==> infos[id].address in ids && ids[infos[id].address] == id)
    && (forall a :: a in ids ==> ids[a] in infos && infos[ids[a]].address == a)
  }

  /** The random order lists every entry once, at the place the entry remembers. */
  ghost predicate Listed(infos: map<Id, AddrInfo>, random: seq<Id>) {
    && (forall id :: id in infos ==> 0 <= infos[id].randomPos < |random| && random[infos[id].randomPos] == id)
    && (forall i :: 0 <= i < |random| ==> random[i] in infos && infos[random[i]].randomPos == i)
  }

  /** The tried table holds exactly the tried entries, each in its one cell. */
  ghost predicate InTriedTable(r: Rules, infos: map<Id, AddrInfo>, tried: seq<Id>) {
    && |tried| == TRIED_BUCKET_COUNT * BUCKET_SIZE
    && (forall k :: 0 <= k < |tried| && tried[k] != NONE ==>
          tried[k] in infos && infos[tried[k]].inTried && k == TriedCell(r, infos[tried[k]].address))
    && (forall id :: id in infos && infos[id].inTried ==>
          tried[TriedCell(r, infos[id].address)] == id && infos[id].refCount == 0)
  }

  function Cells(table: seq<Id>, id: Id): set<int> {
    set k | 0 <= k < |table| && table[k] == id
  }

  /** The new table holds entries that are not tried, in cells meant for them, as often as they count. */
  ghost predicate InNewTable(r: Rules, infos: map<Id, AddrInfo>, newTable: seq<Id>) {
    && |newTable| == NEW_BUCKET_COUNT * BUCKET_SIZE
    && (forall k :: 0 <= k < |newTable| && newTable[k] != NONE ==>
          && newTable[k] in infos && !infos[newTable[k]].inTried
          && k == NewCell(r, infos[newTable[k]].address, k / BUCKET_SIZE))
    && (forall id :: id in infos ==> infos[id].refCount == |Cells(newTable, id)|)
  }

  /** Every entry outside the tried table is in one to eight cells, those in `spare` excepted. */
  ghost predicate Referenced(infos: map<Id, AddrInfo>, spare: set<Id>) {
    forall id :: id in infos && !infos[id].inTried && id !in spare ==>
        1 <= infos[id].refCount <= NEW_BUCKETS_PER_ADDRESS
  }

  ghost predicate Issued(infos: map<Id, AddrInfo>, idCount: int) {
    idCount >= 0 && forall id :: id in infos ==> 0 <= id < idCount
  }

  function Tally(counts: map<Network, NewTriedCount>, net: Network): NewTriedCount {
    if net in counts then counts[net] else NewTriedCount(0, 0)
  }

  function Bump(counts: map<Network, NewTriedCount>, net: Network, inNew: int, inTried: int)
    : map<Network, NewTriedCount>
  {
    var t := Tally(counts, net);
    counts[net := NewTriedCount(t.inNew + inNew, t.inTried + inTried)]
  }

  /** The entries of one table, leaving out those in `off`. */
  function Group(infos: map<Id, AddrInfo>, off: set<Id>, tried: bool): set<Id> {
    set id | id in infos && Kept(infos, off, id) && infos[id].inTried == tried
  }

  function LocalGroup(r: Rules, infos: map<Id, AddrInfo>, off: set<Id>, tried: bool, net: Network): set<Id> {
    set id | id in infos && Kept(infos, off, id) && infos[id].inTried == tried && r.network(infos[id].address) == net
  }

  function TrueTally(r: Rules, infos: map<Id, AddrInfo>, off: set<Id>, net: Network): NewTriedCount {
    NewTriedCount(|LocalGroup(r, infos, off, false, net)|, |LocalGroup(r, infos, off, true, net)|)
  }

  /** All counters are right about the entries outside `off`. */
  ghost predicate Counted(r: Rules, infos: map<Id, AddrInfo>, off: set<Id>, nNew: int, nTried: int,
                          counts: map<Network, NewTriedCount>) {
    && nNew == |Group(infos, off, false)|
    && nTried == |Group(infos, off, true)|
    && forall net :: Tally(counts, net) == TrueTally(r, infos, off, net)
  }

  ghost predicate Lists(infos: map<Id, AddrInfo>, ids: map<Address, Id>, random: seq<Id>, idCount: int) {
    Named(infos, ids) && Listed(infos, random) && Issued(infos, idCount)
  }

  ghost predicate Tables(r: Rules, infos: map<Id, AddrInfo>, tried: seq<Id>, newTable: seq<Id>, spare: set<Id>) {
    && NONE !in infos
    && InTriedTable(r, infos, tried)
    && InNewTable(r, infos, newTable)
    && Referenced(infos, spare)
  }

  /** All of it, for a state in which the entries of `spare` may be unreferenced and those of `off` uncounted. */
  ghost predicate Sound(s: State, r: Rules, spare: set<Id>, off: set<Id>) {
    && Lists(s.infos, s.ids, s.random, s.idCount)
    && Tables(r, s.infos, s.tried, s.newTable, spare)
    && Counted(r, s.infos, off, s.nNew, s.nTried, s.counts)
  }

  // ---------------------------------------------------------------- changes that do not matter

  /** Two entries the tables cannot tell apart. */
  predicate Like(x: AddrInfo, y: AddrInfo) {
    x.address == y.address && x.source == y.source && x.inTried == y.inTried && x.refCount == y.refCount
  }

  ghost predicate Alike(a: map<Id, AddrInfo>, b: map<Id, AddrInfo>) {
    a.Keys == b.Keys && forall id :: id in a ==> Like(a[id], b[id])
  }

  /** Two entries that differ in their place in the random order at most. */
  predicate Same(x: AddrInfo, y: AddrInfo) {
    x.(randomPos := y.randomPos) == y
  }

  ghost predicate Twins(a: map<Id, AddrInfo>, b: map<Id, AddrInfo>) {
    a.Keys == b.Keys && forall id :: id in a ==> Same(a[id], b[id])
  }

  lemma AlikeGroups(r: Rules, a: map<Id, AddrInfo>, b: map<Id, AddrInfo>, off: set<Id>, tried: bool, net: Network)
    requires Alike(a, b)
    ensures Group(a, off, tried) == Group(b, off, tried)
    ensures LocalGroup(r, a, off, tried, net) == LocalGroup(r, b, off, tried, net)
  {
    assert forall id :: id in Group(a, off, tried) <==> id in Group(b, off, tried);
    assert forall id :: id in LocalGroup(r, a, off, tried, net) <==> id in LocalGroup(r, b, off, tried, net);
  }

  lemma AlikeCounted(r: Rules, a: map<Id, AddrInfo>, b: map<Id, AddrInfo>, off: set<Id>, nNew: int, nTried: int,
                     counts: map<Network, NewTriedCount>)
    requires Alike(a, b) && Counted(r, a, off, nNew, nTried, counts)
    ensures Counted(r, b, off, nNew, nTried, counts)
  {
    forall net ensures Tally(counts, net) == TrueTally(r, b, off, net) {
      AlikeGroups(r, a, b, off, false, net);
      AlikeGroups(r, a, b, off, true, net);
      assert Tally(counts, net) == TrueTally(r, a, off, net);
    }
    AlikeGroups(r, a, b, off, false, 0);
    AlikeGroups(r, a, b, off, true, 0);
  }

  lemma AlikeTables(r: Rules, a: map<Id, AddrInfo>, b: map<Id, AddrInfo>, tried: seq<Id>, newTable: seq<Id>,
                    spare: set<Id>)
    requires Alike(a, b) && Tables(r, a, tried, newTable, spare)
    ensures Tables(r, b, tried, newTable, spare)
  {
  }

  lemma AlikeLists(a: map<Id, AddrInfo>, b: map<Id, AddrInfo>, ids: map<Address, Id>, random: seq<Id>,
                   after: seq<Id>, idCount: int)
    requires Alike(a, b) && Lists(a, ids, random, idCount) && Listed(b, after)
    ensures Lists(b, ids, after, idCount)
  {
  }

  /** A new account of the entries that says the same about them leaves everything in order. */
  lemma AlikeSound(s: State, r: Rules, spare: set<Id>, off: set<Id>, infos: map<Id, AddrInfo>, random: seq<Id>)
    requires Sound(s, r, spare, off)
    requires Alike(s.infos, infos) && Listed(infos, random)
    ensures Sound(s.(infos := infos, random := random), r, spare, off)
  {
    AlikeTables(r, s.infos, infos, s.tried, s.newTable, spare);
    AlikeLists(s.infos, infos, s.ids, s.random, random, s.idCount);
    AlikeCounted(r, s.infos, infos, off, s.nNew, s.nTried, s.counts);
  }

  // ---------------------------------------------------------------- the random order

  function Moved(p: int, i: nat, j: nat): int {
    if p == i then j else if p == j then i else p
  }

  /** The entries remember their places after two places were exchanged. */
  function Replaced(infos: map<Id, AddrInfo>, i: nat, j: nat): map<Id, AddrInfo> {
    map id | id in infos :: infos[id].(randomPos := Moved(infos[id].randomPos, i, j))
  }

  function Exchanged(random: seq<Id>, i: nat, j: nat): seq<Id>
    requires i < |random| && j < |random|
  {
    random[i := random[j]][j := random[i]]
  }

  function Swapped(s: State, i: nat, j: nat): State
    requires i < |s.random| && j < |s.random|
  {
    s.(infos := Replaced(s.infos, i, j), random := Exchanged(s.random, i, j))
  }

  lemma SwapNothing(infos: map<Id, AddrInfo>, random: seq<Id>, i: nat)
    requires i < |random|
    ensures infos == Replaced(infos, i, i) && random == Exchanged(random, i, i)
  {
    var after := Replaced(infos, i, i);
    forall id | id in infos ensures after[id] == infos[id] {
      assert infos[id] == infos[id].(randomPos := infos[id].randomPos);
    }
    assert forall k :: 0 <= k < |random| ==> Exchanged(random, i, i)[k] == random[k];
  }

  lemma SwapTwo(infos: map<Id, AddrInfo>, random: seq<Id>, i: nat, j: nat)
    requires Listed(infos, random) && i < |random| && j < |random| && i != j
    ensures var x, y := random[i], random[j];
      infos[x := infos[x].(randomPos := j)][y := infos[y].(randomPos := i)] == Replaced(infos, i, j)
  {
    var x, y := random[i], random[j];
    var after := infos[x := infos[x].(randomPos := j)][y := infos[y].(randomPos := i)];
    assert x != y;
    forall id | id in infos ensures after[id] == Replaced(infos, i, j)[id] {
      if id != x && id != y {
        assert infos[id].randomPos != i && infos[id].randomPos != j;
        assert infos[id] == infos[id].(randomPos := infos[id].randomPos);
      }
    }
    assert after.Keys == Replaced(infos, i, j).Keys;
  }

  lemma SwappedSound(s: State, r: Rules, spare: set<Id>, off: set<Id>, i: nat, j: nat)
    requires Sound(s, r, spare, off)
    requires i < |s.random| && j < |s.random|
    ensures Sound(Swapped(s, i, j), r, spare, off) && Twins(s.infos, Swapped(s, i, j).infos)
  {
    SwappedListed(s.infos, s.random, i, j);
    AlikeSound(s, r, spare, off, Replaced(s.infos, i, j), Exchanged(s.random, i, j));
  }

  lemma SwappedListed(infos: map<Id, AddrInfo>, random: seq<Id>, i: nat, j: nat)
    requires Listed(infos, random) && i < |random| && j < |random|
    ensures Listed(Replaced(infos, i, j), Exchanged(random, i, j))
    ensures Alike(infos, Replaced(infos, i, j)) && Twins(infos, Replaced(infos, i, j))
  {
  }

  // ---------------------------------------------------------------- counting

  function One(b: bool): int {
    if b then 1 else 0
  }

  predicate Kept(infos: map<Id, AddrInfo>, off: set<Id>, id: Id) {
    id in infos && id !in off
  }

  predicate Kindred(x: AddrInfo, y: AddrInfo) {
    x.address == y.address && x.inTried == y.inTried
  }

  /** The two accounts agree about every entry but one. */
  ghost predicate AgreeBut(a: map<Id, AddrInfo>, aOff: set<Id>, b: map<Id, AddrInfo>, bOff: set<Id>, id: Id) {
    forall x :: x != id ==> (Kept(a, aOff, x) <==> Kept(b, bOff, x)) && (Kept(a, aOff, x) ==> Kindred(a[x], b[x]))
  }

  /** What one entry adds to the counters of a table. */
  function Share(infos: map<Id, AddrInfo>, off: set<Id>, id: Id, tried: bool): int {
    One(Kept(infos, off, id) && infos[id].inTried == tried)
  }

  lemma SizesDiffer(a: set<Id>, b: set<Id>, id: Id)
    requires a - {id} == b - {id}
    ensures |b| == |a| - One(id in a) + One(id in b)
  {
    assert |a - {id}| == |a| - One(id in a);
    assert |b - {id}| == |b| - One(id in b);
  }

  lemma Regrouped(a: map<Id, AddrInfo>, aOff: set<Id>, b: map<Id, AddrInfo>, bOff: set<Id>, id: Id, tried: bool)
    requires AgreeBut(a, aOff, b, bOff, id)
    ensures |Group(b, bOff, tried)| == |Group(a, aOff, tried)| - Share(a, aOff, id, tried) + Share(b, bOff, id, tried)
  {
    var x, y := Group(a, aOff, tried), Group(b, bOff, tried);
    assert forall i :: i in x - {id} <==> i in y - {id};
    SizesDiffer(x, y, id);
  }

  lemma LocallyRegrouped(r: Rules, a: map<Id, AddrInfo>, aOff: set<Id>, b: map<Id, AddrInfo>, bOff: set<Id>, id: Id,
                         tried: bool, net: Network)
    requires AgreeBut(a, aOff, b, bOff, id)
    ensures |LocalGroup(r, b, bOff, tried, net)| ==
            |LocalGroup(r, a, aOff, tried, net)| - One(id in LocalGroup(r, a, aOff, tried, net))
            + One(id in LocalGroup(r, b, bOff, tried, net))
  {
    var x, y := LocalGroup(r, a, aOff, tried, net), LocalGroup(r, b, bOff, tried, net);
    assert forall i :: i in x - {id} <==> i in y - {id};
    SizesDiffer(x, y, id);
  }

  lemma Retallied(r: Rules, a: map<Id, AddrInfo>, aOff: set<Id>, b: map<Id, AddrInfo>, bOff: set<Id>, id: Id,
                  net: Network, dNew: int, dTried: int, other: Network)
    requires AgreeBut(a, aOff, b, bOff, id)
    requires id in a ==> r.network(a[id].address) == net
    requires id in b ==> r.network(b[id].address) == net
    requires dNew == Share(b, bOff, id, false) - Share(a, aOff, id, false)
    requires dTried == Share(b, bOff, id, true) - Share(a, aOff, id, true)
    ensures var t, u := TrueTally(r, a, aOff, other), TrueTally(r, b, bOff, other);
      u == if other == net then NewTriedCount(t.inNew + dNew, t.inTried + dTried) else t
  {
    LocallyRegrouped(r, a, aOff, b, bOff, id, false, other);
    LocallyRegrouped(r, a, aOff, b, bOff, id, true, other);
  }

  /** Counters follow when they are moved by what the one changed entry adds. */
  lemma Recounted(r: Rules, a: map<Id, AddrInfo>, aOff: set<Id>, b: map<Id, AddrInfo>, bOff: set<Id>, id: Id,
                  net: Network, nNew: int, nTried: int, counts: map<Network, NewTriedCount>, dNew: int, dTried: int)
    requires AgreeBut(a, aOff, b, bOff, id)
    requires id in a ==> r.network(a[id].address) == net
    requires id in b ==> r.network(b[id].address) == net
    requires Counted(r, a, aOff, nNew, nTried, counts)
    requires dNew == Share(b, bOff, id, false) - Share(a, aOff, id, false)
    requires dTried == Share(b, bOff, id, true) - Share(a, aOff, id, true)
    ensures Counted(r, b, bOff, nNew + dNew, nTried + dTried, Bump(counts, net, dNew, dTried))
  {
    forall other ensures Tally(Bump(counts, net, dNew, dTried), other) == TrueTally(r, b, bOff, other) {
      Retallied(r, a, aOff, b, bOff, id, net, dNew, dTried, other);
      assert Tally(counts, other) == TrueTally(r, a, aOff, other);
    }
    Regrouped(a, aOff, b, bOff, id, false);
    Regrouped(a, aOff, b, bOff, id, true);
  }

  /** Changing what is said of one entry, but not its address or place, leaves the lists right. */
  lemma TouchedLists(infos: map<Id, AddrInfo>, ids: map<Address, Id>, random: seq<Id>, idCount: int, id: Id,
                     info: AddrInfo)
    requires Lists(infos, ids, random, idCount) && id in infos
    requires info.address == infos[id].address && info.randomPos == infos[id].randomPos
    ensures Lists(infos[id := info], ids, random, idCount)
  {
  }

  // ---------------------------------------------------------------- cells

  lemma CellsUpdate(table: seq<Id>, k: nat, v: Id, id: Id)
    requires k < |table|
    ensures Cells(table[k := v], id) == if v == id then Cells(table, id) + {k} else Cells(table, id) - {k}
  {
    var after := Cells(table[k := v], id);
    if v == id {
      assert after == Cells(table, id) + {k};
    } else {
      assert after == Cells(table, id) - {k};
    }
  }

  lemma NoCells(r: Rules, infos: map<Id, AddrInfo>, newTable: seq<Id>, id: Id)
    requires InNewTable(r, infos, newTable) && id in infos && infos[id].refCount == 0
    ensures id !in newTable
  {
    assert Cells(newTable, id) == {};
    forall k | 0 <= k < |newTable| ensures newTable[k] != id {
      assert k !in Cells(newTable, id);
    }
  }
}
