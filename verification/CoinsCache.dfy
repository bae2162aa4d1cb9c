/** One coin cache: a map whose flagged entries are threaded on a circular doubly linked list. */
module CoinsCaches {
  import opened Options
  import opened Coins

  /** What a list pointer refers to: the sentinel or the pair with a key. */
  datatype Link = Sentinel | Pair(key: Outpoint)

  datatype Entry = Entry(coin: Coin, isDirty: bool, isFresh: bool, prev: Option<Link>, next: Option<Link>) {

    predicate Flagged() {
      isDirty || isFresh
    }

    function AsSlot(): Slot {
      Slot(coin, isDirty, isFresh)
    }
  }

  // ---------- The list of flagged entries ----------

  function LinkAt(list: seq<Outpoint>, i: int): Link {
    if 0 <= i < |list| then Pair(list[i]) else Sentinel
  }

  ghost predicate NoRepeats(list: seq<Outpoint>) {
    forall i, j :: 0 <= i < j < |list| ==> list[i] != list[j]
  }

  ghost predicate Threaded(m: map<Outpoint, Entry>, list: seq<Outpoint>, i: int)
    requires 0 <= i < |list|
  {
    && list[i] in m && m[list[i]].Flagged()
    && m[list[i]].prev == Some(LinkAt(list, i - 1)) && m[list[i]].next == Some(LinkAt(list, i + 1))
  }

  /** A flagged entry is in the list, another one has no pointers. */
  ghost predicate Listed(m: map<Outpoint, Entry>, list: seq<Outpoint>, o: Outpoint)
    requires o in m
  {
    if m[o].Flagged() then o in list else m[o].prev == None && m[o].next == None
  }

  /** The pointers thread exactly the flagged entries, in the order of `list`; `prev` and `next` are
      those of the sentinel. */
  ghost predicate Linked(m: map<Outpoint, Entry>, prev: Link, next: Link, list: seq<Outpoint>) {
    && NoRepeats(list)
    && (forall i {:trigger Threaded(m, list, i)} :: 0 <= i < |list| ==> Threaded(m, list, i))
    && (forall o {:trigger Listed(m, list, o)} :: o in m ==> Listed(m, list, o))
    && next == LinkAt(list, 0) && prev == LinkAt(list, |list| - 1)
  }

  function SlotsOf(m: map<Outpoint, Entry>): map<Outpoint, Slot> {
    map o | o in m :: m[o].AsSlot()
  }

  /** Set the `next` pointer that `at` has, in the map or in the sentinel. */
  function WithNext(m: map<Outpoint, Entry>, at: Link, to: Link): map<Outpoint, Entry>
    requires at.Pair? ==> at.key in m
  {
    if at.Pair? then m[at.key := m[at.key].(next := Some(to))] else m
  }

  function WithPrev(m: map<Outpoint, Entry>, at: Link, to: Link): map<Outpoint, Entry>
    requires at.Pair? ==> at.key in m
  {
    if at.Pair? then m[at.key := m[at.key].(prev := Some(to))] else m
  }

  /** AddFlags on an unflagged entry: thread it in before the sentinel. */
  function Appended(m: map<Outpoint, Entry>, prev: Link, o: Outpoint, isDirty: bool, isFresh: bool)
    : map<Outpoint, Entry>
    requires o in m && (prev.Pair? ==> prev.key in m)
  {
    var m1 := m[o := m[o].(prev := Some(prev), next := Some(Sentinel))];
    var m2 := WithNext(m1, prev, Pair(o));
    m2[o := m2[o].(isDirty := isDirty, isFresh := isFresh)]
  }

  lemma LastLink(m: map<Outpoint, Entry>, prev: Link, next: Link, list: seq<Outpoint>)
    requires Linked(m, prev, next, list)
    ensures prev.Pair? ==> |list| > 0 && prev.key == list[|list| - 1] && prev.key in m && m[prev.key].Flagged()
    ensures next.Pair? ==> |list| > 0 && next.key == list[0] && next.key in m && m[next.key].Flagged()
    ensures list == [] <==> prev == Sentinel
  {
    if |list| > 0 {
      assert Threaded(m, list, |list| - 1) && Threaded(m, list, 0);
    }
  }

  lemma AppendLinked(m: map<Outpoint, Entry>, prev: Link, next: Link, list: seq<Outpoint>, o: Outpoint,
                     isDirty: bool, isFresh: bool)
    requires Linked(m, prev, next, list) && o in m && !m[o].Flagged() && (isDirty || isFresh)
    ensures prev.Pair? ==> prev.key in m
    ensures var m' := Appended(m, prev, o, isDirty, isFresh);
            && Linked(m', Pair(o), if prev == Sentinel then Pair(o) else next, list + [o])
            && SlotsOf(m') == SlotsOf(m)[o := Slot(m[o].coin, isDirty, isFresh)]
  {
    LastLink(m, prev, next, list);
    var m' := Appended(m, prev, o, isDirty, isFresh);
    var l := list + [o];
    forall i | 0 <= i < |list| ensures list[i] != o {
      assert Threaded(m, list, i);
    }
    forall i | 0 <= i < |l| ensures Threaded(m', l, i) {
      if i < |list| {
        assert Threaded(m, list, i);
      }
    }
    forall x | x in m' ensures Listed(m', l, x) {
      assert Listed(m, list, x);
      assert l[|list|] == o;
    }
    assert SlotsOf(m') == SlotsOf(m)[o := Slot(m[o].coin, isDirty, isFresh)];
  }

  /** SetClean on a flagged entry: take it out of the list. */
  function Unlinked(m: map<Outpoint, Entry>, o: Outpoint): map<Outpoint, Entry>
    requires o in m && m[o].prev.Some? && m[o].next.Some?
    requires m[o].prev.value.Pair? ==> m[o].prev.value.key in m
    requires m[o].next.value.Pair? ==> m[o].next.value.key in m
  {
    var p, n := m[o].prev.value, m[o].next.value;
    var m1 := WithPrev(m, n, p);
    var m2 := WithNext(m1, p, n);
    m2[o := Entry(m2[o].coin, false, false, None, None)]
  }

  function RemoveAt(list: seq<Outpoint>, i: nat): seq<Outpoint>
    requires i < |list|
  {
    list[..i] + list[i + 1..]
  }

  lemma NeighboursOf(m: map<Outpoint, Entry>, prev: Link, next: Link, list: seq<Outpoint>, i: nat)
    requires Linked(m, prev, next, list) && i < |list|
    ensures var o := list[i];
            && o in m && m[o].Flagged() && m[o].prev == Some(LinkAt(list, i - 1))
            && m[o].next == Some(LinkAt(list, i + 1))
            && (i > 0 ==> list[i - 1] in m && list[i - 1] != o)
            && (i + 1 < |list| ==> list[i + 1] in m && list[i + 1] != o)
            && (0 < i < |list| - 1 ==> list[i - 1] != list[i + 1])
  {
    assert Threaded(m, list, i);
    if i > 0 {
      assert Threaded(m, list, i - 1);
    }
    if i + 1 < |list| {
      assert Threaded(m, list, i + 1);
    }
  }

  /** What the entries of the other list members become. */
  lemma UnlinkedAt(m: map<Outpoint, Entry>, prev: Link, next: Link, list: seq<Outpoint>, i: nat, x: Outpoint)
    requires Linked(m, prev, next, list) && i < |list| && x in m
    ensures list[i] in m && m[list[i]].prev == Some(LinkAt(list, i - 1)) && m[list[i]].next == Some(LinkAt(list, i + 1))
    ensures i > 0 ==> list[i - 1] in m
    ensures i + 1 < |list| ==> list[i + 1] in m
    ensures var m' := Unlinked(m, list[i]);
            && m'.Keys == m.Keys
            && m'[x] == (if x == list[i] then Entry(m[x].coin, false, false, None, None)
                         else if i > 0 && x == list[i - 1] then m[x].(next := Some(LinkAt(list, i + 1)))
                         else if i + 1 < |list| && x == list[i + 1] then m[x].(prev := Some(LinkAt(list, i - 1)))
                         else m[x])
  {
    NeighboursOf(m, prev, next, list, i);
  }

  lemma UnlinkThreaded(m: map<Outpoint, Entry>, prev: Link, next: Link, list: seq<Outpoint>, i: nat, j: nat)
    requires Linked(m, prev, next, list) && i < |list| && j < |list| - 1
    ensures list[i] in m && m[list[i]].prev == Some(LinkAt(list, i - 1)) && m[list[i]].next == Some(LinkAt(list, i + 1))
    ensures i > 0 ==> list[i - 1] in m
    ensures i + 1 < |list| ==> list[i + 1] in m
    ensures Threaded(Unlinked(m, list[i]), RemoveAt(list, i), j)
  {
    NeighboursOf(m, prev, next, list, i);
    var k := if j < i then j else j + 1;
    assert Threaded(m, list, k);
    UnlinkedAt(m, prev, next, list, i, list[k]);
    assert RemoveAt(list, i)[j] == list[k];
  }

  lemma UnlinkOthers(m: map<Outpoint, Entry>, prev: Link, next: Link, list: seq<Outpoint>, i: nat, x: Outpoint)
    requires Linked(m, prev, next, list) && i < |list| && x in m && x != list[i]
    ensures list[i] in m && m[list[i]].prev == Some(LinkAt(list, i - 1)) && m[list[i]].next == Some(LinkAt(list, i + 1))
    ensures i > 0 ==> list[i - 1] in m
    ensures i + 1 < |list| ==> list[i + 1] in m
    ensures var m' := Unlinked(m, list[i]);
            && x in m' && m'[x].AsSlot() == m[x].AsSlot()
            && Listed(m', RemoveAt(list, i), x)
  {
    UnlinkedAt(m, prev, next, list, i, x);
    assert Listed(m, list, x);
    if m[x].Flagged() {
      var k :| 0 <= k < |list| && list[k] == x;
      assert RemoveAt(list, i)[if k < i then k else k - 1] == x;
    } else {
      NotNeighbour(m, prev, next, list, i, x);
    }
  }

  lemma UnlinkLinked(m: map<Outpoint, Entry>, prev: Link, next: Link, list: seq<Outpoint>, i: nat)
    requires Linked(m, prev, next, list) && i < |list|
    ensures list[i] in m && m[list[i]].prev == Some(LinkAt(list, i - 1)) && m[list[i]].next == Some(LinkAt(list, i + 1))
    ensures i > 0 ==> list[i - 1] in m
    ensures i + 1 < |list| ==> list[i + 1] in m
    ensures var m' := Unlinked(m, list[i]);
            && Linked(m', if i + 1 == |list| then LinkAt(list, i - 1) else prev,
                      if i == 0 then LinkAt(list, 1) else next, RemoveAt(list, i))
            && SlotsOf(m') == SlotsOf(m)[list[i] := Slot(m[list[i]].coin, false, false)]
  {
    NeighboursOf(m, prev, next, list, i);
    var o, m', l := list[i], Unlinked(m, list[i]), RemoveAt(list, i);
    UnlinkedAt(m, prev, next, list, i, o);
    forall j | 0 <= j < |l| ensures Threaded(m', l, j) {
      UnlinkThreaded(m, prev, next, list, i, j);
    }
    forall x | x in m && x != o
      ensures x in m' && m'[x].AsSlot() == m[x].AsSlot() && Listed(m', l, x)
    {
      UnlinkOthers(m, prev, next, list, i, x);
    }
    assert SlotsOf(m') == SlotsOf(m)[o := Slot(m[o].coin, false, false)];
  }

  lemma NotNeighbour(m: map<Outpoint, Entry>, prev: Link, next: Link, list: seq<Outpoint>, i: nat, x: Outpoint)
    requires Linked(m, prev, next, list) && i < |list| && x in m && !m[x].Flagged()
    ensures (i > 0 ==> x != list[i - 1]) && (i + 1 < |list| ==> x != list[i + 1])
  {
    if i > 0 {
      assert Threaded(m, list, i - 1);
    }
    if i + 1 < |list| {
      assert Threaded(m, list, i + 1);
    }
  }

  /** The list is untouched by what keeps the flagged entries and their pointers. */
  lemma LinkedFrame(m: map<Outpoint, Entry>, m': map<Outpoint, Entry>, prev: Link, next: Link, list: seq<Outpoint>)
    requires Linked(m, prev, next, list)
    requires forall x :: x in m && m[x].Flagged() ==>
               x in m' && m'[x].Flagged() && m'[x].prev == m[x].prev && m'[x].next == m[x].next
    requires forall x :: x in m' && m'[x].Flagged() ==> x in m && m[x].Flagged()
    requires forall x :: x in m' && !m'[x].Flagged() ==>
               (m'[x].prev == None && m'[x].next == None) ||
               (x in m && !m[x].Flagged() && m'[x].prev == m[x].prev && m'[x].next == m[x].next)
    ensures Linked(m', prev, next, list)
  {
    forall i | 0 <= i < |list| ensures Threaded(m', list, i) {
      assert Threaded(m, list, i);
    }
    forall x | x in m' ensures Listed(m', list, x) {
      assert x in m ==> Listed(m, list, x);
    }
  }

  /** Unflagged entries can be added, replaced and removed without touching the list. */
  lemma PlainAdded(m: map<Outpoint, Entry>, prev: Link, next: Link, list: seq<Outpoint>, o: Outpoint, coin: Coin)
    requires Linked(m, prev, next, list) && (o in m ==> !m[o].Flagged())
    ensures Linked(m[o := Entry(coin, false, false, None, None)], prev, next, list)
    ensures SlotsOf(m[o := Entry(coin, false, false, None, None)]) == SlotsOf(m)[o := Slot(coin, false, false)]
  {
    LinkedFrame(m, m[o := Entry(coin, false, false, None, None)], prev, next, list);
  }

  lemma PlainRemoved(m: map<Outpoint, Entry>, prev: Link, next: Link, list: seq<Outpoint>, o: Outpoint)
    requires Linked(m, prev, next, list) && (o in m ==> !m[o].Flagged())
    ensures Linked(m - {o}, prev, next, list) && SlotsOf(m - {o}) == SlotsOf(m) - {o}
  {
    LinkedFrame(m, m - {o}, prev, next, list);
  }

  /** The coin of an entry can be replaced without touching the list. */
  lemma CoinReplaced(m: map<Outpoint, Entry>, prev: Link, next: Link, list: seq<Outpoint>, o: Outpoint, coin: Coin)
    requires Linked(m, prev, next, list) && o in m
    ensures Linked(m[o := m[o].(coin := coin)], prev, next, list)
    ensures SlotsOf(m[o := m[o].(coin := coin)]) == SlotsOf(m)[o := Slot(coin, m[o].isDirty, m[o].isFresh)]
  {
    LinkedFrame(m, m[o := m[o].(coin := coin)], prev, next, list);
  }

  /** More flags on an entry that has one already. */
  lemma FlagsReplaced(m: map<Outpoint, Entry>, prev: Link, next: Link, list: seq<Outpoint>, o: Outpoint,
                      isDirty: bool, isFresh: bool)
    requires Linked(m, prev, next, list) && o in m && m[o].Flagged() && (isDirty || isFresh)
    ensures Linked(m[o := m[o].(isDirty := isDirty, isFresh := isFresh)], prev, next, list)
    ensures SlotsOf(m[o := m[o].(isDirty := isDirty, isFresh := isFresh)]) ==
            SlotsOf(m)[o := Slot(m[o].coin, isDirty, isFresh)]
  {
    LinkedFrame(m, m[o := m[o].(isDirty := isDirty, isFresh := isFresh)], prev, next, list);
  }

  // ---------- Memory usage ----------

  ghost function TotalUsage(slots: map<Outpoint, Slot>): nat {
    if slots == map[] then 0
    else
      var o :| o in slots;
      slots[o].coin.DynamicMemoryUsage() + TotalUsage(slots - {o})
  }

  lemma {:induction false} UsageRemove(slots: map<Outpoint, Slot>, o: Outpoint)
    requires o in slots
    ensures TotalUsage(slots) == slots[o].coin.DynamicMemoryUsage() + TotalUsage(slots - {o})
    decreases slots
  {
    var x :| x in slots && TotalUsage(slots) == slots[x].coin.DynamicMemoryUsage() + TotalUsage(slots - {x});
    if x != o {
      UsageRemove(slots - {x}, o);
      UsageRemove(slots - {o}, x);
      assert slots - {x} - {o} == slots - {o} - {x};
    }
  }

  lemma UsageUpdate(slots: map<Outpoint, Slot>, o: Outpoint, s: Slot)
    ensures TotalUsage(slots[o := s]) ==
            TotalUsage(slots) - (if o in slots then slots[o].coin.DynamicMemoryUsage() else 0) +
            s.coin.DynamicMemoryUsage()
  {
    UsageRemove(slots[o := s], o);
    if o in slots {
      UsageRemove(slots, o);
      assert slots[o := s] - {o} == slots - {o};
    } else {
      assert slots[o := s] - {o} == slots;
    }
  }
}
