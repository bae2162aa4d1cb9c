/** Header chains as headers synchronization sees them. */
module HeaderChains {

  datatype Header = Header(version: int, prev: nat, merkleRoot: nat, time: nat, nBits: nat, nonce: nat)

  /** A header without the hash of its predecessor. */
  datatype CompressedHeader = CompressedHeader(version: int, merkleRoot: nat, time: nat, nBits: nat, nonce: nat) {

    function GetFullHeader(prev: nat): Header {
      Header(version, prev, merkleRoot, time, nBits, nonce)
    }
  }

  function Compress(h: Header): (c: CompressedHeader)
    ensures c.GetFullHeader(h.prev) == h && c.nBits == h.nBits
  {
    CompressedHeader(h.version, h.merkleRoot, h.time, h.nBits, h.nonce)
  }

  function CompressAll(chain: seq<Header>): (r: seq<CompressedHeader>)
    ensures |r| == |chain| && forall i :: 0 <= i < |chain| ==> r[i] == Compress(chain[i])
  {
    seq(|chain|, i requires 0 <= i < |chain| => Compress(chain[i]))
  }

  /** What a sync is given: the block hash, the salted hash that gives commitment bits, which
      difficulty transitions are permitted, the proof of a difficulty, and where the chain starts. */
  datatype Rules = Rules(hash: Header -> nat, hasher: nat -> bool, permitted: (int, nat, nat) -> bool,
                         proof: nat -> nat, start: Header, startHeight: nat, startWork: nat,
                         minimumWork: nat, commitOffset: nat, maxCommitments: nat)

  /** One header commitment per this many blocks. */
  const HEADER_COMMITMENT_PERIOD: nat := 632

  /** Headers are released once this many are on top of them. */
  const REDOWNLOAD_BUFFER_SIZE: nat := 15009

  /** The predecessor of header `i` of a chain. */
  function Before(r: Rules, chain: seq<Header>, i: nat): Header
    requires i <= |chain|
  {
    if i == 0 then r.start else chain[i - 1]
  }

  /** Header `h` at position `i` points to its predecessor `before`, and its difficulty was checked
      against that of `before`, at its height. */
  predicate Follows(r: Rules, before: Header, h: Header, i: nat) {
    h.prev == r.hash(before) && r.permitted(r.startHeight + 1 + i, before.nBits, h.nBits)
  }

  predicate GoodAt(r: Rules, chain: seq<Header>, i: nat)
    requires i < |chain|
  {
    Follows(r, Before(r, chain, i), chain[i], i)
  }

  ghost predicate GoodChain(r: Rules, chain: seq<Header>) {
    forall i {:trigger GoodAt(r, chain, i)} :: 0 <= i < |chain| ==> GoodAt(r, chain, i)
  }

  /** Total work, counting the start of the chain. */
  function Work(r: Rules, chain: seq<Header>): nat {
    if chain == [] then r.startWork else Work(r, chain[..|chain| - 1]) + r.proof(chain[|chain| - 1].nBits)
  }

  /** A commitment is stored for the header at this height. */
  predicate Due(r: Rules, height: nat) {
    height % HEADER_COMMITMENT_PERIOD == r.commitOffset
  }

  predicate Committed(r: Rules, i: nat) {
    Due(r, r.startHeight + 1 + i)
  }

  function BitOf(r: Rules, h: Header): bool {
    r.hasher(r.hash(h))
  }

  /** The commitment bits of the headers from number `from` on. */
  ghost function Bits(r: Rules, chain: seq<Header>, from: nat): seq<bool>
    requires from <= |chain|
    decreases |chain| - from
  {
    if from == |chain| then []
    else (if Committed(r, from) then [BitOf(r, chain[from])] else []) + Bits(r, chain, from + 1)
  }

  lemma {:induction false} BitsSnoc(r: Rules, chain: seq<Header>, h: Header, from: nat)
    requires from <= |chain|
    ensures Bits(r, chain + [h], from) ==
            Bits(r, chain, from) + if Committed(r, |chain|) then [BitOf(r, h)] else []
    decreases |chain| - from
  {
    var c := chain + [h];
    if from == |chain| {
      assert Bits(r, c, from + 1) == [];
    } else {
      BitsSnoc(r, chain, h, from + 1);
      var b := if Committed(r, |chain|) then [BitOf(r, h)] else [];
      var first := if Committed(r, from) then [BitOf(r, chain[from])] else [];
      assert first + (Bits(r, chain, from + 1) + b) == (first + Bits(r, chain, from + 1)) + b;
    }
  }

  lemma NextBits(r: Rules, chain: seq<Header>, h: Header, height: nat)
    requires height == r.startHeight + |chain| + 1
    ensures Bits(r, chain + [h], 0) ==
            if Due(r, height) then Bits(r, chain, 0) + [BitOf(r, h)]
            else Bits(r, chain, 0)
  {
    BitsSnoc(r, chain, h, 0);
    assert r.startHeight + 1 + |chain| == height;
    assert Bits(r, chain, 0) + [] == Bits(r, chain, 0);
  }

  /** Before the redownloaded chain has enough work, its commitments are those of the first download
      at the same heights. */
  ghost predicate Checked(r: Rules, accepted: seq<Header>, presync: seq<Header>) {
    forall i {:trigger CheckedAt(r, accepted, presync, i)} :: 0 <= i < |accepted| ==> CheckedAt(r, accepted, presync, i)
  }

  ghost predicate CheckedAt(r: Rules, accepted: seq<Header>, presync: seq<Header>, i: nat)
    requires i < |accepted|
  {
    Committed(r, i) && Work(r, accepted[..i + 1]) < r.minimumWork ==>
      i < |presync| && BitOf(r, accepted[i]) == BitOf(r, presync[i])
  }

  lemma GoodSnoc(r: Rules, chain: seq<Header>, h: Header)
    requires GoodChain(r, chain) && Follows(r, Before(r, chain, |chain|), h, |chain|)
    ensures GoodChain(r, chain + [h])
  {
    var c := chain + [h];
    forall i | 0 <= i < |c| ensures GoodAt(r, c, i) {
      assert Before(r, c, i) == Before(r, chain, i);
      assert i < |chain| ==> GoodAt(r, chain, i);
    }
  }

  lemma WorkSnoc(r: Rules, chain: seq<Header>, h: Header)
    ensures Work(r, chain + [h]) == Work(r, chain) + r.proof(h.nBits)
  {
    assert (chain + [h])[..|chain|] == chain;
  }

  lemma CheckedSnoc(r: Rules, accepted: seq<Header>, presync: seq<Header>, h: Header)
    requires Checked(r, accepted, presync)
    requires Committed(r, |accepted|) && Work(r, accepted + [h]) < r.minimumWork ==>
               |accepted| < |presync| && BitOf(r, h) == BitOf(r, presync[|accepted|])
    ensures Checked(r, accepted + [h], presync)
  {
    var c := accepted + [h];
    forall i | 0 <= i < |c| ensures CheckedAt(r, c, presync, i) {
      if i < |accepted| {
        assert CheckedAt(r, accepted, presync, i);
        assert c[..i + 1] == accepted[..i + 1];
      } else {
        assert c[..i + 1] == c;
      }
    }
  }

  /** Stored bits beyond the end of the first download are none. */
  ghost function BitsLeft(r: Rules, presync: seq<Header>, from: nat): seq<bool> {
    if from <= |presync| then Bits(r, presync, from) else []
  }

  /** The first stored bit is that of the first header left at a commitment height. */
  lemma BitsLeftNext(r: Rules, presync: seq<Header>, from: nat)
    ensures !Committed(r, from) ==> BitsLeft(r, presync, from) == BitsLeft(r, presync, from + 1)
    ensures Committed(r, from) && |BitsLeft(r, presync, from)| > 0 ==>
              && from < |presync| && BitsLeft(r, presync, from)[0] == BitOf(r, presync[from])
              && BitsLeft(r, presync, from)[1..] == BitsLeft(r, presync, from + 1)
  {
  }

  // ---------- What a sync has done so far ----------

  /** What was accepted in the first and in the second download, and what was handed out. */
  datatype Past = Past(presync: seq<Header>, accepted: seq<Header>, handedOut: seq<Header>)

  ghost predicate GoodPast(r: Rules, p: Past) {
    && GoodChain(r, p.presync) && GoodChain(r, p.accepted)
    && p.handedOut <= p.accepted && Checked(r, p.accepted, p.presync)
    && (p.accepted != [] ==> Work(r, p.presync) >= r.minimumWork)
  }

  lemma PresyncPast(r: Rules, p: Past, h: Header)
    requires GoodPast(r, p) && p.accepted == [] && Follows(r, Before(r, p.presync, |p.presync|), h, |p.presync|)
    ensures GoodPast(r, p.(presync := p.presync + [h]))
  {
    GoodSnoc(r, p.presync, h);
  }

  lemma AcceptPast(r: Rules, p: Past, h: Header)
    requires GoodPast(r, p) && Work(r, p.presync) >= r.minimumWork
    requires Follows(r, Before(r, p.accepted, |p.accepted|), h, |p.accepted|)
    requires Committed(r, |p.accepted|) && Work(r, p.accepted + [h]) < r.minimumWork ==>
               |p.accepted| < |p.presync| && BitOf(r, h) == BitOf(r, p.presync[|p.accepted|])
    ensures GoodPast(r, p.(accepted := p.accepted + [h]))
  {
    GoodSnoc(r, p.accepted, h);
    CheckedSnoc(r, p.accepted, p.presync, h);
  }

  lemma HandOutPast(r: Rules, p: Past)
    requires GoodPast(r, p) && |p.handedOut| < |p.accepted|
    ensures GoodPast(r, p.(handedOut := p.handedOut + [p.accepted[|p.handedOut|]]))
  {
  }

  /** The members in the first download, in step with what was accepted. */
  ghost predicate PresyncState(r: Rules, p: Past, work: nat, last: Header, height: nat, bits: seq<bool>) {
    && p.accepted == []
    && height == r.startHeight + |p.presync| && last == Before(r, p.presync, |p.presync|)
    && work == Work(r, p.presync) && bits == Bits(r, p.presync, 0) && |bits| <= r.maxCommitments
  }

  lemma LastBefore(r: Rules, p: Past, work: nat, last: Header, height: nat, bits: seq<bool>)
    requires PresyncState(r, p, work, last, height, bits) && p.presync != []
    ensures last == p.presync[|p.presync| - 1]
  {
  }

  lemma PresyncNext(r: Rules, p: Past, work: nat, last: Header, height: nat, bits: seq<bool>, h: Header)
    requires GoodPast(r, p) && PresyncState(r, p, work, last, height, bits)
    requires h.prev == r.hash(last) && r.permitted(height + 1, last.nBits, h.nBits)
    ensures GoodPast(r, p.(presync := p.presync + [h]))
    ensures var due := Due(r, height + 1);
            var bits' := if due then bits + [BitOf(r, h)] else bits;
            |bits'| <= r.maxCommitments ==>
              PresyncState(r, p.(presync := p.presync + [h]), work + r.proof(h.nBits), h, height + 1, bits')
  {
    assert r.startHeight + 1 + |p.presync| == height + 1;
    PresyncPast(r, p, h);
    WorkSnoc(r, p.presync, h);
    NextBits(r, p.presync, h, height + 1);
  }

  // ---------- Second download ----------

  /** The buffer holds, compressed, what was accepted and not handed out. */
  ghost predicate BufferState(r: Rules, p: Past, buffer: seq<CompressedHeader>, firstPrev: nat, lastHash: nat,
                              lastHeight: nat) {
    && |p.handedOut| <= |p.accepted| && buffer == CompressAll(p.accepted[|p.handedOut|..])
    && firstPrev == r.hash(Before(r, p.accepted, |p.handedOut|))
    && lastHash == r.hash(Before(r, p.accepted, |p.accepted|))
    && lastHeight == r.startHeight + |p.accepted|
  }

  /** Work and stored commitments are in step with what was accepted. */
  ghost predicate ProgressState(r: Rules, p: Past, work: nat, processAll: bool, bits: seq<bool>) {
    && Work(r, p.presync) >= r.minimumWork && work == Work(r, p.accepted)
    && processAll == (p.accepted != [] && work >= r.minimumWork)
    && (!processAll ==> bits == BitsLeft(r, p.presync, |p.accepted|))
  }

  lemma BufferSize(r: Rules, p: Past, buffer: seq<CompressedHeader>, firstPrev: nat, lastHash: nat, lastHeight: nat)
    requires GoodPast(r, p) && BufferState(r, p, buffer, firstPrev, lastHash, lastHeight)
    ensures |buffer| == |p.accepted| - |p.handedOut| && (buffer == [] ==> p.handedOut == p.accepted)
  {
  }

  /** The difficulty that the next header is checked against is that of its predecessor. */
  lemma TruePredecessor(r: Rules, p: Past, buffer: seq<CompressedHeader>, firstPrev: nat, lastHash: nat,
                        lastHeight: nat)
    requires BufferState(r, p, buffer, firstPrev, lastHash, lastHeight) && (buffer == [] ==> p.accepted == [])
    ensures Before(r, p.accepted, |p.accepted|).nBits ==
            if buffer != [] then buffer[|buffer| - 1].nBits else r.start.nBits
  {
    if buffer != [] {
      assert buffer[|buffer| - 1] == Compress(p.accepted[|p.handedOut|..][|buffer| - 1]);
    }
  }

  /** Whether a header follows the last one, in terms of the members. */
  lemma FollowsHere(r: Rules, p: Past, buffer: seq<CompressedHeader>, firstPrev: nat, lastHash: nat, lastHeight: nat,
                    h: Header)
    requires BufferState(r, p, buffer, firstPrev, lastHash, lastHeight) && (buffer == [] ==> p.accepted == [])
    ensures lastHeight + 1 == r.startHeight + 1 + |p.accepted|
    ensures Follows(r, Before(r, p.accepted, |p.accepted|), h, |p.accepted|) <==>
              h.prev == lastHash &&
              r.permitted(lastHeight + 1, if buffer != [] then buffer[|buffer| - 1].nBits else r.start.nBits, h.nBits)
  {
    TruePredecessor(r, p, buffer, firstPrev, lastHash, lastHeight);
  }

  lemma AcceptBuffer(r: Rules, p: Past, buffer: seq<CompressedHeader>, firstPrev: nat, lastHash: nat, lastHeight: nat,
                     h: Header)
    requires BufferState(r, p, buffer, firstPrev, lastHash, lastHeight)
    ensures BufferState(r, p.(accepted := p.accepted + [h]), buffer + [Compress(h)], firstPrev, r.hash(h),
        lastHeight + 1)
  {
    var next := p.accepted + [h];
    assert next[|p.handedOut|..] == p.accepted[|p.handedOut|..] + [h];
    assert CompressAll(next[|p.handedOut|..]) == buffer + [Compress(h)];
    assert Before(r, next, |p.handedOut|) == Before(r, p.accepted, |p.handedOut|);
  }

  lemma PopBuffer(r: Rules, p: Past, buffer: seq<CompressedHeader>, firstPrev: nat, lastHash: nat, lastHeight: nat)
    requires GoodPast(r, p) && BufferState(r, p, buffer, firstPrev, lastHash, lastHeight) && buffer != []
    ensures |p.handedOut| < |p.accepted|
    ensures var h := buffer[0].GetFullHeader(firstPrev);
            && h == p.accepted[|p.handedOut|]
            && GoodPast(r, p.(handedOut := p.handedOut + [h]))
            && BufferState(r, p.(handedOut := p.handedOut + [h]), buffer[1..], r.hash(h), lastHash, lastHeight)
  {
    var k := |p.handedOut|;
    assert GoodAt(r, p.accepted, k);
    assert buffer[0] == Compress(p.accepted[k..][0]);
    HandOutPast(r, p);
    assert p.accepted[k..][1..] == p.accepted[k + 1..];
    assert CompressAll(p.accepted[k + 1..]) == buffer[1..];
  }

  /** A redownloaded header is accepted if it follows the last one and, at a commitment height
      below the required work, has the next stored bit. */
  predicate Acceptable(r: Rules, p: Past, bits: seq<bool>, h: Header) {
    && Follows(r, Before(r, p.accepted, |p.accepted|), h, |p.accepted|)
    && Confirmed(r, p, bits, h)
  }

  predicate Confirmed(r: Rules, p: Past, bits: seq<bool>, h: Header) {
    Work(r, p.accepted) + r.proof(h.nBits) < r.minimumWork && Committed(r, |p.accepted|) ==>
      |bits| > 0 && bits[0] == BitOf(r, h)
  }

  /** A header of the first download is accepted if its difficulty may follow that of the last one
      and there is room for its commitment. */
  predicate Recordable(r: Rules, p: Past, bits: seq<bool>, h: Header) {
    && r.permitted(r.startHeight + 1 + |p.presync|, Before(r, p.presync, |p.presync|).nBits, h.nBits)
    && (Committed(r, |p.presync|) ==> |bits| < r.maxCommitments)
  }

  /** The same in terms of the members. */
  lemma RecordableHere(r: Rules, p: Past, work: nat, last: Header, height: nat, bits: seq<bool>, h: Header)
    requires PresyncState(r, p, work, last, height, bits)
    ensures Recordable(r, p, bits, h) <==>
              r.permitted(height + 1, last.nBits, h.nBits) && (Due(r, height + 1) ==> |bits| < r.maxCommitments)
  {
    assert r.startHeight + 1 + |p.presync| == height + 1;
  }

  /** A header at a commitment height is compared with the bit stored for that height. */
  lemma AcceptNext(r: Rules, p: Past, work: nat, processAll: bool, bits: seq<bool>, h: Header)
    requires GoodPast(r, p) && ProgressState(r, p, work, processAll, bits)
    requires Follows(r, Before(r, p.accepted, |p.accepted|), h, |p.accepted|)
    ensures var work' := work + r.proof(h.nBits);
            var check := work' < r.minimumWork && Committed(r, |p.accepted|);
            && (check ==> !processAll)
            && (check ==> |bits| > 0 ==> |p.accepted| < |p.presync| && bits[0] == BitOf(r, p.presync[|p.accepted|]))
            && (check ==> |bits| > 0 && bits[0] == BitOf(r, h) ==>
                  GoodPast(r, p.(accepted := p.accepted + [h])) &&
                  ProgressState(r, p.(accepted := p.accepted + [h]), work', false, bits[1..]))
            && (!check ==>
                  GoodPast(r, p.(accepted := p.accepted + [h])) &&
                  ProgressState(r, p.(accepted := p.accepted + [h]), work', work' >= r.minimumWork, bits))
  {
    WorkSnoc(r, p.accepted, h);
    BitsLeftNext(r, p.presync, |p.accepted|);
    var work' := work + r.proof(h.nBits);
    if work' < r.minimumWork && Committed(r, |p.accepted|) {
      if |bits| > 0 && bits[0] == BitOf(r, h) {
        AcceptPast(r, p, h);
      }
    } else {
      AcceptPast(r, p, h);
    }
  }

  // ---------- Which chains are taken ----------

  /** What the first download takes: a good chain with room for its commitments. */
  ghost predicate Takeable(r: Rules, chain: seq<Header>) {
    GoodChain(r, chain) && |Bits(r, chain, 0)| <= r.maxCommitments
  }

  /** What the second download takes: a good chain that agrees with the first one. */
  ghost predicate Repeated(r: Rules, chain: seq<Header>, presync: seq<Header>) {
    GoodChain(r, chain) && Checked(r, chain, presync)
  }

  lemma PastRepeated(r: Rules, p: Past)
    requires GoodPast(r, p)
    ensures Repeated(r, p.accepted, p.presync)
  {
  }

  lemma GoodPrefix(r: Rules, a: seq<Header>, b: seq<Header>)
    requires a <= b && GoodChain(r, b)
    ensures GoodChain(r, a)
  {
    forall i | 0 <= i < |a| ensures GoodAt(r, a, i) {
      assert GoodAt(r, b, i) && Before(r, a, i) == Before(r, b, i);
    }
  }

  lemma {:induction false} BitsPrefix(r: Rules, a: seq<Header>, b: seq<Header>)
    requires a <= b
    ensures |Bits(r, a, 0)| <= |Bits(r, b, 0)|
    decreases |b|
  {
    if |a| < |b| {
      var c, h := b[..|b| - 1], b[|b| - 1];
      assert b == c + [h];
      BitsPrefix(r, a, c);
      BitsSnoc(r, c, h, 0);
    } else {
      assert a == b;
    }
  }

  /** Once a chain is not taken, none that continues it is. */
  lemma TakeablePrefix(r: Rules, a: seq<Header>, b: seq<Header>)
    requires a <= b && Takeable(r, b)
    ensures Takeable(r, a)
  {
    GoodPrefix(r, a, b);
    BitsPrefix(r, a, b);
  }

  lemma RepeatedPrefix(r: Rules, a: seq<Header>, b: seq<Header>, presync: seq<Header>)
    requires a <= b && Repeated(r, b, presync)
    ensures Repeated(r, a, presync)
  {
    GoodPrefix(r, a, b);
    forall i | 0 <= i < |a| ensures CheckedAt(r, a, presync, i) {
      assert CheckedAt(r, b, presync, i) && a[..i + 1] == b[..i + 1];
    }
  }

  lemma GoodLast(r: Rules, chain: seq<Header>, h: Header)
    requires GoodChain(r, chain + [h])
    ensures Follows(r, Before(r, chain, |chain|), h, |chain|)
  {
    assert GoodAt(r, chain + [h], |chain|);
    assert Before(r, chain + [h], |chain|) == Before(r, chain, |chain|);
  }

  lemma CheckedLast(r: Rules, chain: seq<Header>, h: Header, presync: seq<Header>)
    requires Checked(r, chain + [h], presync)
    ensures Committed(r, |chain|) && Work(r, chain) + r.proof(h.nBits) < r.minimumWork ==>
              |chain| < |presync| && BitOf(r, h) == BitOf(r, presync[|chain|])
  {
    var c := chain + [h];
    assert CheckedAt(r, c, presync, |chain|) && c[..|chain| + 1] == c;
    WorkSnoc(r, chain, h);
  }

  /** A header is recorded exactly if the chain with it is one to take. */
  lemma RecordedExactly(r: Rules, p: Past, work: nat, last: Header, height: nat, bits: seq<bool>, h: Header)
    requires GoodPast(r, p) && PresyncState(r, p, work, last, height, bits) && h.prev == r.hash(last)
    ensures Recordable(r, p, bits, h) <==> Takeable(r, p.presync + [h])
  {
    BitsSnoc(r, p.presync, h, 0);
    if Recordable(r, p, bits, h) {
      GoodSnoc(r, p.presync, h);
    }
    if GoodChain(r, p.presync + [h]) {
      GoodLast(r, p.presync, h);
    }
  }

  /** A header is accepted exactly if the chain with it repeats the first one. */
  lemma AcceptedExactly(r: Rules, p: Past, work: nat, processAll: bool, bits: seq<bool>, h: Header)
    requires GoodPast(r, p) && ProgressState(r, p, work, processAll, bits)
    ensures Acceptable(r, p, bits, h) <==> Repeated(r, p.accepted + [h], p.presync)
  {
    if Acceptable(r, p, bits, h) {
      AcceptNext(r, p, work, processAll, bits, h);
    }
    if Repeated(r, p.accepted + [h], p.presync) {
      GoodLast(r, p.accepted, h);
      CheckedLast(r, p.accepted, h, p.presync);
      BitsLeftNext(r, p.presync, |p.accepted|);
    }
  }

  /** A batch that does not continue the chain is not taken with it. */
  lemma FirstLink(r: Rules, chain: seq<Header>, headers: seq<Header>)
    requires headers != [] && GoodChain(r, chain + headers)
    ensures headers[0].prev == r.hash(Before(r, chain, |chain|))
  {
    assert chain + [headers[0]] <= chain + headers;
    GoodPrefix(r, chain + [headers[0]], chain + headers);
    GoodLast(r, chain, headers[0]);
  }

  lemma BatchPrefix(before: seq<Header>, headers: seq<Header>, i: nat)
    requires i <= |headers|
    ensures before + headers[..i] <= before + headers
  {
  }
}
