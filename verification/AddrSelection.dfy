/** Which entries a random selection of addresses is made of. */
module AddrSelections {

  import opened Options
  import opened AddrInfos
  import opened AddrTables

  datatype Filter = Filter(network: Option<Network>, quality: bool, now: int)

  predicate Suits(r: Rules, f: Filter, info: AddrInfo) {
    (f.network.None? || r.netClass(info.address) == f.network.value) && !(f.quality && IsTerrible(info, f.now))
  }

  function Announce(info: AddrInfo): Announcement {
    Announcement(info.address, info.services, info.time)
  }

  /** How many addresses are asked for: a share of those known, and no more than a given number. */
  function NodeLimit(known: nat, maxAddresses: nat, maxPct: nat): nat {
    var n := if maxPct != 0 then (if maxPct < 100 then maxPct else 100) * known / 100 else known;
    if maxAddresses != 0 && maxAddresses < n then maxAddresses else n
  }

  /** The greatest number that is within all that is asked for. */
  lemma NodeLimitGreatest(known: nat, maxAddresses: nat, maxPct: nat, n: nat)
    ensures n <= NodeLimit(known, maxAddresses, maxPct) <==>
              && n <= known && (maxAddresses != 0 ==> n <= maxAddresses)
              && (maxPct != 0 ==> 100 * n <= maxPct * known)
  {
    var share := if maxPct < 100 then maxPct else 100;
    ShareOf(share * known, n);
    if maxPct < 100 {
      AtMostAll(share, known);
    } else {
      AtMostAll(100, known);
      MulAtLeast(maxPct, known);
    }
  }

  lemma ShareOf(p: nat, n: nat)
    ensures n <= p / 100 <==> 100 * n <= p
  {
  }

  lemma AtMostAll(share: nat, known: nat)
    requires share <= 100
    ensures share * known / 100 <= known && 0 <= share * known
  {
    assert 0 <= (100 - share) * known;
    assert 0 <= share * known;
  }

  lemma MulAtLeast(pct: nat, known: nat)
    requires pct >= 100
    ensures pct * known >= 100 * known
  {
    assert (pct - 100) * known >= 0;
  }

  ghost predicate Known(infos: map<Id, AddrInfo>, list: seq<Id>) {
    forall i :: 0 <= i < |list| ==> list[i] in infos
  }

  /** The suitable entries of a list, in its order. */
  ghost function Suitable(r: Rules, f: Filter, infos: map<Id, AddrInfo>, list: seq<Id>): seq<Announcement>
    requires Known(infos, list)
  {
    if list == [] then []
    else
      var info := infos[list[|list| - 1]];
      Suitable(r, f, infos, list[..|list| - 1]) + if Suits(r, f, info) then [Announce(info)] else []
  }

  predicate Chosen(r: Rules, f: Filter, infos: map<Id, AddrInfo>, list: seq<Id>, id: Id) {
    id in infos && id in list && Suits(r, f, infos[id])
  }

  /** The selection has entries that suit, no address twice, and none that suits is missing from it. */
  ghost predicate Selection(r: Rules, f: Filter, infos: map<Id, AddrInfo>, list: seq<Id>, out: seq<Announcement>) {
    && (forall i :: 0 <= i < |out| ==>
          exists id :: Chosen(r, f, infos, list, id) && out[i] == Announce(infos[id]))
    && (forall i, j :: 0 <= i < j < |out| ==> out[i].address != out[j].address)
    && (forall id :: Chosen(r, f, infos, list, id) ==> Announce(infos[id]) in out)
  }

  lemma {:induction false} SuitableIsSelection(r: Rules, f: Filter, infos: map<Id, AddrInfo>, list: seq<Id>)
    requires Known(infos, list)
    requires forall i, j :: 0 <= i < j < |list| ==> list[i] != list[j]
    requires forall x, y :: x in infos && y in infos && infos[x].address == infos[y].address ==> x == y
    ensures Selection(r, f, infos, list, Suitable(r, f, infos, list))
  {
    if list != [] {
      var rest, id := list[..|list| - 1], list[|list| - 1];
      SuitableIsSelection(r, f, infos, rest);
      SelectionNext(r, f, infos, rest, Suitable(r, f, infos, rest), id);
      assert list == rest + [id];
    }
  }

  lemma SelectionNext(r: Rules, f: Filter, infos: map<Id, AddrInfo>, rest: seq<Id>, out: seq<Announcement>, id: Id)
    requires Selection(r, f, infos, rest, out) && id in infos && id !in rest
    requires forall x, y :: x in infos && y in infos && infos[x].address == infos[y].address ==> x == y
    ensures Selection(r, f, infos, rest + [id], out + if Suits(r, f, infos[id]) then [Announce(infos[id])] else [])
  {
    var list := rest + [id];
    var after := out + if Suits(r, f, infos[id]) then [Announce(infos[id])] else [];
    forall i | 0 <= i < |after| ensures exists x :: Chosen(r, f, infos, list, x) && after[i] == Announce(infos[x]) {
      if i < |out| {
        assert after[i] == out[i];
        var x :| Chosen(r, f, infos, rest, x) && out[i] == Announce(infos[x]);
        assert Chosen(r, f, infos, list, x) && after[i] == Announce(infos[x]);
      } else {
        assert Chosen(r, f, infos, list, id) && after[i] == Announce(infos[id]);
      }
    }
    forall i, j | 0 <= i < j < |after| ensures after[i].address != after[j].address {
      assert i < |out| && after[i] == out[i];
      var x :| Chosen(r, f, infos, rest, x) && out[i] == Announce(infos[x]);
      if j == |out| {
        assert infos[x].address != infos[id].address;
      }
    }
    forall x | Chosen(r, f, infos, list, x) ensures Announce(infos[x]) in after {
      if x == id {
        assert after[|out|] == Announce(infos[id]);
      } else {
        assert Chosen(r, f, infos, rest, x) && Announce(infos[x]) in out;
      }
    }
  }

  lemma SuitableNext(r: Rules, f: Filter, infos: map<Id, AddrInfo>, list: seq<Id>, n: nat)
    requires n < |list| && list[n] in infos && Known(infos, list[..n])
    ensures Known(infos, list[..n + 1])
    ensures Suitable(r, f, infos, list[..n + 1]) ==
            Suitable(r, f, infos, list[..n]) + if Suits(r, f, infos[list[n]]) then [Announce(infos[list[n]])] else []
  {
    var part := list[..n + 1];
    assert part[..n] == list[..n];
    forall i | 0 <= i < |part| ensures part[i] in infos {
      assert i < n ==> part[i] == list[..n][i];
    }
  }

  /** Where an entry stands in the random order makes no difference. */
  lemma TwinsSuit(r: Rules, f: Filter, x: AddrInfo, y: AddrInfo)
    requires Same(x, y)
    ensures (Suits(r, f, x) <==> Suits(r, f, y)) && Announce(x) == Announce(y)
  {
  }
}
