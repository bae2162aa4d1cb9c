/** The tree of block headers with its skip pointers. */
module BlockIndexes {
  import opened Options
  import opened Powers

  /** A block; pointers are positions in the index. */
  datatype Block = Block(prev: Option<nat>, skip: Option<nat>, height: nat, hash: nat)

  // ---------- Where skip pointers lead ----------

  /** Turn the lowest '1' bit of a number into a '0'. */
  function InvertLowestOne(n: nat): (r: nat)
    ensures r <= n && (n > 0 ==> r < n)
  {
    if n == 0 then 0
    else if n % 2 == 1 then n - 1
    else 2 * InvertLowestOne(n / 2)
  }

  /** The height to jump back to. */
  function GetSkipHeight(height: nat): (r: nat)
    ensures height > 0 ==> r < height
    ensures height == 0 ==> r == 0
  {
    if height < 2 then 0
    else if height % 2 == 1 then InvertLowestOne(InvertLowestOne(height - 1)) + 1
    else InvertLowestOne(height)
  }

  /** In binary: a one followed by zeros is replaced by zeros only. */
  lemma {:induction false} InvertLowestOneIs(a: nat, k: nat)
    ensures InvertLowestOne((2 * a + 1) * Pow2(k)) == 2 * a * Pow2(k)
    decreases k
  {
    if k > 0 {
      InvertLowestOneIs(a, k - 1);
      var m := (2 * a + 1) * Pow2(k - 1);
      assert m > 0 by {
        Positive(2 * a + 1, Pow2(k - 1));
      }
      assert (2 * a + 1) * Pow2(k) == 2 * m by {
        DoubleProduct(2 * a + 1, Pow2(k - 1));
      }
      assert (2 * m) / 2 == m;
      DoubleProduct(2 * a, Pow2(k - 1));
    }
  }

  lemma Positive(a: nat, b: nat)
    requires a > 0 && b > 0
    ensures a * b > 0
  {
  }

  /** The height to go to next from `h` on the way back to height `t`. */
  ghost function NextHeight(h: nat, t: nat): (r: nat)
    requires t < h
    ensures t <= r < h
  {
    var skip, skipPrev := GetSkipHeight(h), GetSkipHeight(h - 1);
    if skip == t || (skip > t && !(skipPrev < skip - 2 && skipPrev >= t)) then skip else h - 1
  }

  /** How many steps it takes from `h` to `t`. */
  ghost function Steps(h: nat, t: nat): nat {
    if h <= t then 0 else 1 + Steps(NextHeight(h, t), t)
  }

  // ---------- The tree ----------

  /** Predecessors come earlier in the index and are one lower; blocks without one have height 0. */
  ghost predicate Tree(blocks: seq<Block>) {
    forall i {:trigger PrevOk(blocks, i)} :: 0 <= i < |blocks| ==> PrevOk(blocks, i)
  }

  ghost predicate PrevOk(blocks: seq<Block>, i: nat)
    requires i < |blocks|
  {
    var b := blocks[i];
    if b.prev.None? then b.height == 0
    else b.prev.value < i && blocks[b.prev.value].height + 1 == b.height
  }

  /** Walking back from `b` one block at a time until height `h`. */
  ghost function Ancestor(blocks: seq<Block>, b: nat, h: nat): (a: nat)
    requires Tree(blocks) && b < |blocks| && h <= blocks[b].height
    ensures a <= b && blocks[a].height == h
    decreases b
  {
    assert PrevOk(blocks, b);
    if blocks[b].height == h then b else Ancestor(blocks, blocks[b].prev.value, h)
  }

  lemma {:induction false} AncestorOfAncestor(blocks: seq<Block>, b: nat, h: nat, l: nat)
    requires Tree(blocks) && b < |blocks| && l <= h <= blocks[b].height
    ensures Ancestor(blocks, Ancestor(blocks, b, h), l) == Ancestor(blocks, b, l)
    decreases b
  {
    assert PrevOk(blocks, b);
    if blocks[b].height > h {
      AncestorOfAncestor(blocks, blocks[b].prev.value, h, l);
    }
  }

  /** Skip pointers lead to the ancestor at the skip height. */
  ghost predicate SkipOk(blocks: seq<Block>, i: nat)
    requires Tree(blocks) && i < |blocks|
  {
    var b := blocks[i];
    if b.prev.None? then b.skip == None
    else
      PrevOk(blocks, i) && GetSkipHeight(b.height) < b.height &&
      b.skip == Some(Ancestor(blocks, i, GetSkipHeight(b.height)))
  }

  ghost predicate Skips(blocks: seq<Block>) {
    Tree(blocks) && forall i {:trigger SkipOk(blocks, i)} :: 0 <= i < |blocks| ==> SkipOk(blocks, i)
  }

  /** Ancestors do not depend on blocks added later. */
  lemma {:induction false} AncestorPrefix(blocks: seq<Block>, more: seq<Block>, b: nat, h: nat)
    requires Tree(blocks) && Tree(more) && blocks <= more && b < |blocks| && h <= blocks[b].height
    ensures Ancestor(more, b, h) == Ancestor(blocks, b, h)
    decreases b
  {
    assert PrevOk(blocks, b);
    if blocks[b].height > h {
      AncestorPrefix(blocks, more, blocks[b].prev.value, h);
    }
  }

  ghost predicate IsAncestor(blocks: seq<Block>, a: nat, b: nat)
    requires Tree(blocks) && a < |blocks| && b < |blocks|
  {
    blocks[a].height <= blocks[b].height && Ancestor(blocks, b, blocks[a].height) == a
  }

  // ---------- Going back ----------

  /** On the way from `b` to its ancestor at `height`, after some steps. */
  ghost predicate Walking(blocks: seq<Block>, b: nat, height: nat, walk: nat, steps: nat)
    requires Tree(blocks) && b < |blocks| && height <= blocks[b].height
  {
    && walk < |blocks| && height <= blocks[walk].height
    && Ancestor(blocks, walk, height) == Ancestor(blocks, b, height)
    && steps + Steps(blocks[walk].height, height) == Steps(blocks[b].height, height)
  }

  lemma WalkOn(blocks: seq<Block>, b: nat, height: nat, walk: nat, steps: nat)
    requires Tree(blocks) && b < |blocks| && height <= blocks[b].height && Walking(blocks, b, height, walk, steps)
    requires blocks[walk].height > height
    ensures Walking(blocks, b, height, Ancestor(blocks, walk, NextHeight(blocks[walk].height, height)), steps + 1)
  {
    AncestorOfAncestor(blocks, walk, NextHeight(blocks[walk].height, height), height);
  }

  lemma Pointers(blocks: seq<Block>, i: nat)
    requires Skips(blocks) && i < |blocks| && blocks[i].height > 0
    ensures blocks[i].prev == Some(Ancestor(blocks, i, blocks[i].height - 1))
    ensures blocks[i].skip == Some(Ancestor(blocks, i, GetSkipHeight(blocks[i].height)))
  {
    assert PrevOk(blocks, i) && SkipOk(blocks, i);
    ParentIsAncestor(blocks, i);
  }

  /** Find the ancestor at a given height, following skip pointers where that is better. */
  method GetAncestor(blocks: seq<Block>, b: nat, height: int) returns (r: Option<nat>, ghost steps: nat)
    requires Skips(blocks) && b < |blocks|
    ensures r == if 0 <= height <= blocks[b].height then Some(Ancestor(blocks, b, height)) else None
    ensures r.Some? ==> steps == Steps(blocks[b].height, height)
  {
    steps := 0;
    if height > blocks[b].height || height < 0 {
      return None, 0;
    }
    var walk: nat, heightWalk: nat := b, blocks[b].height;
    while heightWalk > height
      invariant Walking(blocks, b, height, walk, steps) && heightWalk == blocks[walk].height
      decreases heightWalk
    {
      Pointers(blocks, walk);
      WalkOn(blocks, b, height, walk, steps);
      var heightSkip := GetSkipHeight(heightWalk);
      var heightSkipPrev := GetSkipHeight(heightWalk - 1);
      if blocks[walk].skip.Some? &&
         (heightSkip == height || (heightSkip > height &&
             !(heightSkipPrev < heightSkip - 2 && heightSkipPrev >= height))) {
        // Only follow skip if prev's skip is not better than skip's prev.
        walk := blocks[walk].skip.value;
        heightWalk := heightSkip;
      } else {
        walk := blocks[walk].prev.value;
        heightWalk := heightWalk - 1;
      }
      steps := steps + 1;
    }
    r := Some(walk);
  }

  /** A common ancestor of two blocks of the same height above a height at which they differ is
      impossible. */
  lemma CommonBelow(blocks: seq<Block>, a: nat, b: nat, h: nat, c: nat)
    requires Tree(blocks) && a < |blocks| && b < |blocks| && c < |blocks|
    requires h <= blocks[a].height && h <= blocks[b].height && Ancestor(blocks, a, h) != Ancestor(blocks, b, h)
    requires IsAncestor(blocks, c, a) && IsAncestor(blocks, c, b)
    ensures blocks[c].height < h
  {
    if blocks[c].height >= h {
      AncestorOfAncestor(blocks, a, blocks[c].height, h);
      AncestorOfAncestor(blocks, b, blocks[c].height, h);
    }
  }

  /** `p` and `q` are the ancestors of `a` and `b` at one height, above which `a` and `b` have no
      common ancestors. */
  ghost predicate Rewound(blocks: seq<Block>, a: nat, b: nat, p: nat, q: nat)
    requires Tree(blocks) && a < |blocks| && b < |blocks|
  {
    && p < |blocks| && q < |blocks| && blocks[p].height == blocks[q].height
    && IsAncestor(blocks, p, a) && IsAncestor(blocks, q, b)
    && forall c {:trigger IsAncestor(blocks, c, a)} ::
         0 <= c < |blocks| && IsAncestor(blocks, c, a) && IsAncestor(blocks, c, b) ==>
             blocks[c].height <= blocks[p].height
  }

  lemma RewindTo(blocks: seq<Block>, a: nat, b: nat, p: nat, q: nat, h: nat)
    requires Tree(blocks) && a < |blocks| && b < |blocks| && Rewound(blocks, a, b, p, q) && h <= blocks[p].height
    requires p != q
    requires Ancestor(blocks, p, h) != Ancestor(blocks, q, h) || h + 1 == blocks[p].height
    ensures Rewound(blocks, a, b, Ancestor(blocks, p, h), Ancestor(blocks, q, h))
  {
    AncestorOfAncestor(blocks, a, blocks[p].height, h);
    AncestorOfAncestor(blocks, b, blocks[q].height, h);
    forall c {:trigger IsAncestor(blocks, c, a)} | 0 <= c < |blocks| && IsAncestor(blocks, c, a) &&
        IsAncestor(blocks, c, b)
      ensures blocks[c].height <= h
    {
      if Ancestor(blocks, p, h) != Ancestor(blocks, q, h) {
        CommonBelow(blocks, a, b, h, c);
      } else {
        CommonBelow(blocks, a, b, blocks[p].height, c);
      }
    }
  }

  /** The highest block from which both descend, if any. */
  ghost predicate IsLastCommon(blocks: seq<Block>, a: nat, b: nat, r: Option<nat>)
    requires Tree(blocks) && a < |blocks| && b < |blocks|
  {
    && (r.Some? ==> r.value < |blocks| && IsAncestor(blocks, r.value, a) && IsAncestor(blocks, r.value, b))
    && forall c {:trigger IsAncestor(blocks, c, a)} ::
         0 <= c < |blocks| && IsAncestor(blocks, c, a) && IsAncestor(blocks, c, b) ==>
           r.Some? && blocks[c].height <= blocks[r.value].height
  }

  lemma ParentIsAncestor(blocks: seq<Block>, p: nat)
    requires Tree(blocks) && p < |blocks| && blocks[p].prev.Some?
    ensures blocks[p].height > 0 && Ancestor(blocks, p, blocks[p].height - 1) == blocks[p].prev.value
  {
    assert PrevOk(blocks, p);
    assert Ancestor(blocks, blocks[p].prev.value, blocks[p].height - 1) == blocks[p].prev.value;
  }

  /** One step back when the skip pointers agree. */
  lemma StepBack(blocks: seq<Block>, a: nat, b: nat, p: nat, q: nat)
    requires Skips(blocks) && a < |blocks| && b < |blocks| && Rewound(blocks, a, b, p, q) && p != q
    ensures blocks[p].prev.None? <==> blocks[q].prev.None?
    ensures blocks[p].prev.None? ==> IsLastCommon(blocks, a, b, None)
    ensures blocks[p].prev.Some? ==> Rewound(blocks, a, b, blocks[p].prev.value, blocks[q].prev.value)
  {
    assert PrevOk(blocks, p) && PrevOk(blocks, q);
    if blocks[p].prev.Some? {
      ParentIsAncestor(blocks, p);
      ParentIsAncestor(blocks, q);
      RewindTo(blocks, a, b, p, q, blocks[p].height - 1);
    } else {
      forall c {:trigger IsAncestor(blocks, c, a)} | 0 <= c < |blocks| && IsAncestor(blocks, c, a) &&
          IsAncestor(blocks, c, b)
        ensures false
      {
        CommonBelow(blocks, a, b, 0, c);
      }
    }
  }

  lemma JumpBack(blocks: seq<Block>, a: nat, b: nat, p: nat, q: nat)
    requires Skips(blocks) && a < |blocks| && b < |blocks| && Rewound(blocks, a, b, p, q)
    requires blocks[p].skip != blocks[q].skip
    ensures p != q && blocks[p].skip.Some? && blocks[q].skip.Some?
    ensures var p', q' := blocks[p].skip.value, blocks[q].skip.value;
            p' != q' && Rewound(blocks, a, b, p', q') && blocks[p'].height < blocks[p].height
  {
    assert SkipOk(blocks, p) && SkipOk(blocks, q) && PrevOk(blocks, p) && PrevOk(blocks, q);
    RewindTo(blocks, a, b, p, q, GetSkipHeight(blocks[p].height));
  }

  lemma StartRewound(blocks: seq<Block>, a: nat, b: nat, h: nat)
    requires Tree(blocks) && a < |blocks| && b < |blocks| && h <= blocks[a].height && h <= blocks[b].height
    requires h == blocks[a].height || h == blocks[b].height
    ensures Rewound(blocks, a, b, Ancestor(blocks, a, h), Ancestor(blocks, b, h))
  {
    var p, q := Ancestor(blocks, a, h), Ancestor(blocks, b, h);
    assert IsAncestor(blocks, p, a) && IsAncestor(blocks, q, b);
  }

  /** The highest block both descend from, or none when their trees differ. */
  method LastCommonAncestor(blocks: seq<Block>, a: nat, b: nat) returns (r: Option<nat>)
    requires Skips(blocks) && a < |blocks| && b < |blocks|
    ensures IsLastCommon(blocks, a, b, r)
  {
    StartRewound(blocks, a, b, if blocks[a].height < blocks[b].height then blocks[a].height else blocks[b].height);
    var pa: Option<nat>, pb: Option<nat> := Some(a), Some(b);
    ghost var steps: nat;
    // First rewind to the last common height.
    if blocks[a].height > blocks[b].height {
      pa, steps := GetAncestor(blocks, a, blocks[b].height);
    } else if blocks[b].height > blocks[a].height {
      pb, steps := GetAncestor(blocks, b, blocks[a].height);
    }
    while pa != pb
      invariant pa.Some? <==> pb.Some?
      invariant pa.Some? ==> Rewound(blocks, a, b, pa.value, pb.value)
      invariant pa.None? ==> IsLastCommon(blocks, a, b, None)
      decreases if pa.Some? then blocks[pa.value].height + 1 else 0
    {
      var p: nat, q: nat := pa.value, pb.value;
      // Jump back until both have a common "skip" ancestor.
      while blocks[p].skip != blocks[q].skip
        invariant p < |blocks| && Rewound(blocks, a, b, p, q) && p != q
        invariant blocks[p].height <= blocks[pa.value].height
        decreases blocks[p].height
      {
        JumpBack(blocks, a, b, p, q);
        p, q := blocks[p].skip.value, blocks[q].skip.value;
      }
      // The forking point lies between here and the common skip ancestor.
      StepBack(blocks, a, b, p, q);
      assert PrevOk(blocks, p);
      pa, pb := blocks[p].prev, blocks[q].prev;
    }
    r := pa;
  }

  // ---------- Building the tree ----------

  class BlockIndex {
    var blocks: seq<Block>

    ghost predicate Valid()
      reads this
    {
      Skips(blocks)
    }

    constructor ()
      ensures Valid() && blocks == []
    {
      blocks := [];
    }

    /** Add a block on top of `prev`, or a block without predecessor, and build its skip pointer. */
    method AddBlock(prev: Option<nat>, hash: nat) returns (i: nat)
      requires Valid() && (prev.Some? ==> prev.value < |blocks|)
      modifies this
      ensures Valid() && i == |old(blocks)| && |blocks| == i + 1 && blocks[..i] == old(blocks)
      ensures blocks[i].prev == prev && blocks[i].hash == hash
    {
      i := |blocks|;
      var height := if prev.Some? then blocks[prev.value].height + 1 else 0;
      var skip: Option<nat> := None;
      if prev.Some? {
        ghost var steps: nat;
        skip, steps := GetAncestor(blocks, prev.value, GetSkipHeight(height));
      }
      ghost var before := blocks;
      blocks := blocks + [Block(prev, skip, height, hash)];
      AddedSkips(before, blocks);
    }
  }

  lemma AddedTree(blocks: seq<Block>, more: seq<Block>)
    requires Tree(blocks) && |more| == |blocks| + 1 && blocks <= more && PrevOk(more, |blocks|)
    ensures Tree(more)
  {
    forall i | 0 <= i < |more| ensures PrevOk(more, i) {
      assert i < |blocks| ==> PrevOk(blocks, i);
    }
  }

  lemma AddedSkips(blocks: seq<Block>, more: seq<Block>)
    requires Skips(blocks) && |more| == |blocks| + 1 && blocks <= more && PrevOk(more, |blocks|)
    requires var b := more[|blocks|];
             if b.prev.None? then b.skip == None
             else b.skip == Some(Ancestor(blocks, b.prev.value, GetSkipHeight(b.height)))
    ensures Skips(more)
  {
    AddedTree(blocks, more);
    forall i | 0 <= i < |more| ensures SkipOk(more, i) {
      var b := more[i];
      if i < |blocks| {
        assert SkipOk(blocks, i) && PrevOk(blocks, i) && PrevOk(more, i);
        if b.prev.Some? {
          AncestorPrefix(blocks, more, i, GetSkipHeight(b.height));
        }
      } else if b.prev.Some? {
        AncestorPrefix(blocks, more, b.prev.value, GetSkipHeight(b.height));
      }
    }
  }
}
