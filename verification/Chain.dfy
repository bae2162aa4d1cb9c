/** The active chain and block locators. */
module Chains {
  import opened Options
  import opened Powers
  import opened BlockIndexes

  /** The blocks from the root of its tree up to `tip`. */
  ghost function PathTo(blocks: seq<Block>, tip: nat): (v: seq<Option<nat>>)
    requires Tree(blocks) && tip < |blocks|
    ensures |v| == blocks[tip].height + 1
    ensures forall i :: 0 <= i < |v| ==> v[i] == Some(Ancestor(blocks, tip, i))
  {
    seq(blocks[tip].height + 1, i requires 0 <= i <= blocks[tip].height => Some(Ancestor(blocks, tip, i)))
  }

  /** A chain is empty or leads to some tip. */
  ghost predicate IsChain(blocks: seq<Block>, v: seq<Option<nat>>) {
    Tree(blocks) && (v == [] || exists tip :: 0 <= tip < |blocks| && v == PathTo(blocks, tip))
  }

  /** Two chains that agree at one height agree below it. */
  lemma AgreeBelow(blocks: seq<Block>, v: seq<Option<nat>>, b: nat, h: nat)
    requires IsChain(blocks, v) && b < |blocks| && h <= blocks[b].height && h < |v|
    requires v[h] == Some(Ancestor(blocks, b, h))
    ensures forall i :: 0 <= i <= h ==> v[i] == Some(Ancestor(blocks, b, i))
  {
    var tip :| 0 <= tip < |blocks| && v == PathTo(blocks, tip);
    forall i | 0 <= i <= h ensures v[i] == Some(Ancestor(blocks, b, i)) {
      AncestorOfAncestor(blocks, tip, h, i);
      AncestorOfAncestor(blocks, b, h, i);
    }
  }

  /** Above height `h` the chain leads to `block`, up to there it is as it was, and `pindex` is next. */
  ghost predicate Rewriting(blocks: seq<Block>, block: nat, chain: seq<Option<nat>>, resized: seq<Option<nat>>,
                            n: nat, h: int, pindex: Option<nat>)
  {
    && Tree(blocks) && block < |blocks| && n == blocks[block].height + 1
    && |chain| == |resized| == n && -1 <= h < n
    && (h < 0 ==> pindex.None?)
    && (h >= 0 ==> pindex.Some? && pindex.value < |blocks| && blocks[pindex.value].height == h)
    && (h >= 0 ==> pindex.value == Ancestor(blocks, block, h))
    && (forall i :: h < i < n ==> chain[i] == Some(Ancestor(blocks, block, i)))
    && (forall i :: 0 <= i <= h ==> chain[i] == resized[i])
  }

  lemma RewriteNext(blocks: seq<Block>, block: nat, chain: seq<Option<nat>>, resized: seq<Option<nat>>, n: nat, h: int,
                    p: nat)
    requires Rewriting(blocks, block, chain, resized, n, h, Some(p))
    ensures Rewriting(blocks, block, chain[h := Some(p)], resized, n, h - 1, blocks[p].prev)
  {
    assert PrevOk(blocks, p);
    if blocks[p].prev.Some? {
      ParentIsAncestor(blocks, p);
      AncestorOfAncestor(blocks, block, h, h - 1);
    }
  }

  lemma RewriteDone(blocks: seq<Block>, block: nat, chain: seq<Option<nat>>, resized: seq<Option<nat>>,
                    was: seq<Option<nat>>, n: nat, h: int, pindex: Option<nat>)
    requires Rewriting(blocks, block, chain, resized, n, h, pindex) && IsChain(blocks, was)
    requires forall i :: 0 <= i < n ==> resized[i] == if i < |was| then was[i] else None
    requires h >= 0 ==> chain[h] == pindex
    ensures chain == PathTo(blocks, block)
  {
    if h >= 0 {
      assert resized[h] == was[h];
      AgreeBelow(blocks, was, block, h);
    }
    var path := PathTo(blocks, block);
    forall i | 0 <= i < n ensures chain[i] == path[i] {
      if i <= h {
        assert chain[i] == resized[i] == was[i];
      }
    }
  }

  class Chain {
    var vChain: seq<Option<nat>>

    constructor ()
      ensures vChain == []
    {
      vChain := [];
    }

    function Height(): int
      reads this
    {
      |vChain| - 1
    }

    /** Whether a block is in the chain. */
    predicate Contains(blocks: seq<Block>, b: nat)
      requires b < |blocks|
      reads this
    {
      blocks[b].height < |vChain| && vChain[blocks[b].height] == Some(b)
    }

    /** Set the tip. Stops where the old chain is met. */
    method SetTip(blocks: seq<Block>, block: nat)
      requires IsChain(blocks, vChain) && block < |blocks|
      modifies this
      ensures vChain == PathTo(blocks, block) && IsChain(blocks, vChain)
    {
      ghost var was := vChain;
      var n := blocks[block].height + 1;
      vChain := if |vChain| >= n then vChain[..n] else vChain + seq(n - |vChain|, _ => None);
      ghost var resized := vChain;
      var pindex := Some(block);
      ghost var h: int := n - 1;
      while pindex.Some? && vChain[blocks[pindex.value].height] != pindex
        invariant Rewriting(blocks, block, vChain, resized, n, h, pindex)
        decreases h + 1
      {
        var p := pindex.value;
        RewriteNext(blocks, block, vChain, resized, n, h, p);
        vChain := vChain[blocks[p].height := pindex];
        pindex := blocks[p].prev;
        h := h - 1;
      }
      RewriteDone(blocks, block, vChain, resized, was, n, h, pindex);
    }

    /** Find the last block of the chain from which `pindex` descends. */
    method FindFork(blocks: seq<Block>, pindex: Option<nat>) returns (r: Option<nat>)
      requires Skips(blocks) && IsChain(blocks, vChain) && (pindex.Some? ==> pindex.value < |blocks|)
      ensures pindex.None? ==> r.None?
      ensures r.Some? ==> r.value < |blocks| && Contains(blocks, r.value) && IsAncestor(blocks, r.value, pindex.value)
      ensures pindex.Some? ==>
                forall c {:trigger IsAncestor(blocks, c, pindex.value)} ::
                  0 <= c < |blocks| && IsAncestor(blocks, c, pindex.value) && Contains(blocks, c) ==>
                    r.Some? && blocks[c].height <= blocks[r.value].height
    {
      r := pindex;
      if pindex.None? {
        return;
      }
      var b := pindex.value;
      if blocks[b].height > Height() {
        ghost var steps: nat;
        r, steps := GetAncestor(blocks, b, Height());
      }
      while r.Some? && !Contains(blocks, r.value)
        invariant r.Some? ==> r.value < |blocks| && IsAncestor(blocks, r.value, b)
        invariant forall c {:trigger IsAncestor(blocks, c, b)} ::
                    0 <= c < |blocks| && IsAncestor(blocks, c, b) && Contains(blocks, c) ==>
                      r.Some? && blocks[c].height <= blocks[r.value].height
        decreases if r.Some? then blocks[r.value].height + 1 else 0
      {
        var p := r.value;
        assert PrevOk(blocks, p);
        if blocks[p].prev.Some? {
          ParentIsAncestor(blocks, p);
          AncestorOfAncestor(blocks, b, blocks[p].height, blocks[p].height - 1);
        }
        r := blocks[p].prev;
      }
    }
  }

  // ---------- Locators ----------

  /** The heights in a locator: steps of one, then, after more than ten entries, doubling steps, down
      to the first block. */
  function LocatorHeights(height: nat, step: nat, have: nat): (hs: seq<nat>)
    requires step > 0
    ensures |hs| > 0 && hs[0] == height
    decreases height
  {
    if height == 0 then [0]
    else
      [height] + LocatorHeights(if height > step then height - step else 0,
          if have + 1 > 10 then 2 * step else step, have + 1)
  }

  /** A locator goes down strictly and ends at the first block. */
  lemma {:induction false} LocatorDescends(height: nat, step: nat, have: nat)
    requires step > 0
    ensures var hs := LocatorHeights(height, step, have);
            hs[|hs| - 1] == 0 && forall i :: 0 < i < |hs| ==> hs[i] < hs[i - 1]
    decreases height
  {
    if height > 0 {
      var next, step' := if height > step then height - step else 0, if have + 1 > 10 then 2 * step else step;
      var rest := LocatorHeights(next, step', have + 1);
      LocatorDescends(next, step', have + 1);
      var hs := [height] + rest;
      forall i | 0 < i < |hs| ensures hs[i] < hs[i - 1] {
        if i > 1 {
          assert rest[i - 1] < rest[i - 2];
        }
      }
    }
  }

  /** From one height to the next it is one step for the first eleven, then twice as many each time, or down to the
      first block. */
  lemma {:induction false} LocatorSteps(height: nat, step: nat, have: nat, i: nat)
    requires step == Pow2(if have <= 10 then 0 else have - 10) && i + 1 < |LocatorHeights(height, step, have)|
    ensures var hs, down := LocatorHeights(height, step, have), Pow2(if have + i <= 10 then 0 else have + i - 10);
            hs[i + 1] == if hs[i] > down then hs[i] - down else 0
    decreases height
  {
    var next, step' := if height > step then height - step else 0, if have + 1 > 10 then 2 * step else step;
    if i > 0 {
      assert LocatorHeights(height, step, have)[1..] == LocatorHeights(next, step', have + 1);
      LocatorSteps(next, step', have + 1, i - 1);
    }
  }

  /** In the doubling phase, `k + 1` entries cover a height of `step * (2^k - 1)`. */
  lemma {:induction false} DoublingLength(height: nat, step: nat, have: nat, k: nat)
    requires step > 0 && have >= 10 && height <= step * (Pow2(k) - 1)
    ensures |LocatorHeights(height, step, have)| <= k + 1
    decreases k
  {
    if height > 0 {
      assert k > 0;
      var next := if height > step then height - step else 0;
      Doubling(step, Pow2(k - 1));
      DoublingLength(next, 2 * step, have + 1, k - 1);
    }
  }

  lemma Doubling(step: nat, p: nat)
    ensures step * (2 * p - 1) - step == 2 * step * (p - 1)
  {
  }

  /** A locator for a height below `2^k` has at most `11 + k` entries. */
  lemma {:induction false} LocatorLength(height: nat, have: nat, k: nat)
    requires height < Pow2(k) && have <= 10
    ensures |LocatorHeights(height, 1, have)| <= 11 - have + k
    decreases 10 - have
  {
    if have == 10 {
      DoublingLength(height, 1, have, k);
    } else if height > 0 {
      LocatorLength(height - 1, have + 1, k);
    }
  }

  /** The hashes of a locator are those of ancestors at the locator heights. */
  method LocatorEntries(blocks: seq<Block>, index: Option<nat>) returns (have: seq<nat>)
    requires Skips(blocks) && (index.Some? ==> index.value < |blocks|)
    ensures index.None? ==> have == []
    ensures index.Some? ==>
              var hs := LocatorHeights(blocks[index.value].height, 1, 0);
              |have| == |hs| &&
              forall i :: 0 <= i < |hs| ==>
                0 <= hs[i] <= blocks[index.value].height && have[i] == blocks[Ancestor(blocks, index.value, hs[i])].hash
  {
    have := [];
    if index.None? {
      return;
    }
    var b := index.value;
    ghost var hs := LocatorHeights(blocks[b].height, 1, 0);
    var step: nat, walk: nat := 1, b;
    while true
      invariant step > 0 && walk < |blocks| && |have| < |hs| && IsAncestor(blocks, walk, b)
      invariant hs[|have|..] == LocatorHeights(blocks[walk].height, step, |have|)
      invariant forall i :: 0 <= i < |have| ==>
                  0 <= hs[i] <= blocks[b].height && have[i] == blocks[Ancestor(blocks, b, hs[i])].hash
      decreases blocks[walk].height
    {
      ghost var n := |have|;
      assert hs[n] == hs[n..][0] == blocks[walk].height;
      have := have + [blocks[walk].hash];
      if blocks[walk].height == 0 {
        assert |hs[n..]| == 1;
        break;
      }
      // Step back, but not past the first block.
      var height := if blocks[walk].height > step then blocks[walk].height - step else 0;
      var next, steps := GetAncestor(blocks, walk, height);
      AncestorOfAncestor(blocks, b, blocks[walk].height, height);
      assert hs[n + 1..] == hs[n..][1..];
      walk := next.value;
      if |have| > 10 {
        step := step * 2;
      }
    }
  }
}
