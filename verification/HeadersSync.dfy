/** Downloading a chain of headers twice: first to see that it has enough work, then to accept it. */
module HeadersSync {
  import opened HeaderChains

  datatype State = PRESYNC | REDOWNLOAD | FINAL

  /** What the caller checks of a batch before passing it on. */
  predicate Continuous(r: Rules, headers: seq<Header>) {
    forall i :: 0 < i < |headers| ==> headers[i].prev == r.hash(headers[i - 1])
  }

  lemma AppendNext(before: seq<Header>, headers: seq<Header>, i: nat)
    requires i < |headers|
    ensures before + headers[..i + 1] == (before + headers[..i]) + [headers[i]]
  {
    assert headers[..i + 1] == headers[..i] + [headers[i]];
  }

  /** A batch of which a part is not taken is not taken. */
  lemma NotTaken(r: Rules, before: seq<Header>, headers: seq<Header>, i: nat)
    requires i <= |headers| && !Takeable(r, before + headers[..i])
    ensures !Takeable(r, before + headers)
  {
    if Takeable(r, before + headers) {
      BatchPrefix(before, headers, i);
      TakeablePrefix(r, before + headers[..i], before + headers);
    }
  }

  lemma NotRepeated(r: Rules, before: seq<Header>, headers: seq<Header>, i: nat, presync: seq<Header>)
    requires i <= |headers| && !Repeated(r, before + headers[..i], presync)
    ensures !Repeated(r, before + headers, presync)
  {
    if Repeated(r, before + headers, presync) {
      BatchPrefix(before, headers, i);
      RepeatedPrefix(r, before + headers[..i], before + headers, presync);
    }
  }

  /** What storing a batch leaves: all of it if the chain with it repeats the first one, and a part otherwise. */
  ghost predicate StoredPart(r: Rules, before: Past, after: Past, headers: seq<Header>, ok: bool) {
    && after.presync == before.presync && after.handedOut == before.handedOut && before.accepted <= after.accepted
    && (ok <==> Repeated(r, before.accepted + headers, before.presync))
    && (ok ==> after.accepted == before.accepted + headers)
  }

  lemma StoredSome(r: Rules, before: Past, after: Past, headers: seq<Header>, i: nat)
    requires i < |headers| && after == before.(accepted := before.accepted + headers[..i])
    requires !Repeated(r, before.accepted + headers[..i + 1], before.presync)
    ensures StoredPart(r, before, after, headers, false)
  {
    NotRepeated(r, before.accepted, headers, i + 1, before.presync);
  }

  lemma StoredAll(r: Rules, before: Past, after: Past, headers: seq<Header>)
    requires GoodPast(r, after) && after == before.(accepted := before.accepted + headers[..|headers|])
    ensures StoredPart(r, before, after, headers, true)
  {
    assert headers[..|headers|] == headers;
    PastRepeated(r, after);
  }

  lemma NotLinked(r: Rules, chain: seq<Header>, headers: seq<Header>)
    requires headers != [] && headers[0].prev != r.hash(Before(r, chain, |chain|))
    ensures !Takeable(r, chain + headers)
  {
    if GoodChain(r, chain + headers) {
      FirstLink(r, chain, headers);
    }
  }

  lemma AppendLast(before: seq<Header>, ret: seq<Header>, h: Header)
    ensures (before + ret) + [h] == before + (ret + [h])
  {
  }

  /** As many headers have been handed out as may be: all once the chain has enough work, and before that all but
      those that are to stay on top. */
  ghost predicate Released(r: Rules, p: Past) {
    |p.handedOut| == if Work(r, p.accepted) >= r.minimumWork then |p.accepted|
                     else if |p.accepted| <= REDOWNLOAD_BUFFER_SIZE then 0
                     else |p.accepted| - REDOWNLOAD_BUFFER_SIZE
  }

  lemma ReleasedBy(r: Rules, p: Past, handed: nat, n: nat, m: nat, all: bool)
    requires all == (Work(r, p.accepted) >= r.minimumWork) && m == |p.accepted| - |p.handedOut|
    requires m == if all then 0 else if n < REDOWNLOAD_BUFFER_SIZE then n else REDOWNLOAD_BUFFER_SIZE
    requires n == |p.accepted| - handed && (handed > 0 ==> n > REDOWNLOAD_BUFFER_SIZE)
    ensures Released(r, p)
  {
  }

  /** What a batch of the second download does, from the chains before it to those after it. */
  ghost predicate Redownloaded(r: Rules, before: Past, after: Past, headers: seq<Header>, full: bool, success: bool,
                               requestMore: bool, ret: seq<Header>) {
    && after.handedOut == before.handedOut + ret && before.accepted <= after.accepted
    && (success <==> Repeated(r, before.accepted + headers, before.presync))
    && (!success ==> !requestMore && ret == [])
    && (success ==>
        && after.accepted == before.accepted + headers && after.presync == before.presync
        && (requestMore <==> full && Work(r, after.accepted) < r.minimumWork) && Released(r, after))
  }

  lemma RedownloadedNot(r: Rules, before: Past, after: Past, headers: seq<Header>, full: bool)
    requires StoredPart(r, before, after, headers, false)
    ensures Redownloaded(r, before, after, headers, full, false, false, [])
  {
    assert before.handedOut + [] == before.handedOut;
  }

  lemma RedownloadedAll(r: Rules, before: Past, stored: Past, headers: seq<Header>, full: bool, requestMore: bool,
                        ret: seq<Header>)
    requires StoredPart(r, before, stored, headers, true)
    requires requestMore <==> full && Work(r, stored.accepted) < r.minimumWork
    requires Released(r, stored.(handedOut := stored.handedOut + ret))
    ensures Redownloaded(r, before, stored.(handedOut := stored.handedOut + ret), headers, full, true, requestMore, ret)
  {
  }

  /** Headers are handed out once the chain has enough work, or with enough headers above them. */
  lemma RedownloadedSafely(r: Rules, before: Past, after: Past, headers: seq<Header>, full: bool, success: bool,
                           requestMore: bool, ret: seq<Header>)
    requires GoodPast(r, after) && Redownloaded(r, before, after, headers, full, success, requestMore, ret)
    ensures ret != [] ==>
              Work(r, after.accepted) >= r.minimumWork ||
              |after.accepted| - |after.handedOut| >= REDOWNLOAD_BUFFER_SIZE
    ensures success && Work(r, after.accepted) >= r.minimumWork ==> after.handedOut == after.accepted && !requestMore
  {
  }

  class HeadersSyncState {
    const rules: Rules
    var state: State
    var currentChainWork: nat
    var lastHeaderReceived: Header
    var currentHeight: nat
    var headerCommitments: seq<bool>
    var redownloadedHeaders: seq<CompressedHeader>
    var bufferLastHeight: nat
    var bufferLastHash: nat
    var bufferFirstPrevHash: nat
    var redownloadChainWork: nat
    var processAllRemaining: bool
    ghost var past: Past

    ghost predicate PresyncOk()
      reads this
    {
      && !processAllRemaining
      && PresyncState(rules, past, currentChainWork, lastHeaderReceived, currentHeight, headerCommitments)
    }

    ghost predicate RedownloadOk()
      reads this
    {
      && BufferState(rules, past, redownloadedHeaders, bufferFirstPrevHash, bufferLastHash, bufferLastHeight)
      && ProgressState(rules, past, redownloadChainWork, processAllRemaining, headerCommitments)
    }

    ghost predicate Valid()
      reads this
    {
      && GoodPast(rules, past)
      && (state == PRESYNC ==> PresyncOk())
      && (state == REDOWNLOAD ==>
            RedownloadOk() && !processAllRemaining && |redownloadedHeaders| <= REDOWNLOAD_BUFFER_SIZE &&
            (past.handedOut != [] ==> |redownloadedHeaders| == REDOWNLOAD_BUFFER_SIZE))
    }

    constructor (rules: Rules)
      ensures Valid() && state == PRESYNC && this.rules == rules && past == Past([], [], [])
    {
      this.rules := rules;
      state := PRESYNC;
      currentChainWork := rules.startWork;
      lastHeaderReceived := rules.start;
      currentHeight := rules.startHeight;
      headerCommitments, redownloadedHeaders := [], [];
      bufferLastHeight, bufferLastHash, bufferFirstPrevHash, redownloadChainWork := 0, 0, 0, 0;
      processAllRemaining := false;
      past := Past([], [], []);
    }

    /** Free memory and mark the sync as no longer usable. */
    method Finalize()
      requires GoodPast(rules, past)
      modifies this
      ensures Valid() && state == FINAL && headerCommitments == [] && redownloadedHeaders == [] && past == old(past)
    {
      headerCommitments := [];
      lastHeaderReceived := Header(0, 0, 0, 0, 0, 0);
      redownloadedHeaders := [];
      bufferLastHash, bufferFirstPrevHash := 0, 0;
      processAllRemaining := false;
      currentHeight := 0;
      state := FINAL;
    }

    // ---------- First download ----------

    /** Check the difficulty of one header and perhaps store a commitment. The caller vouches that it
        follows the last one. */
    method ValidateAndProcessSingleHeader(current: Header) returns (ok: bool)
      requires GoodPast(rules, past) && PresyncOk() && state == PRESYNC &&
          current.prev == rules.hash(lastHeaderReceived)
      modifies this
      ensures GoodPast(rules, past) && state == PRESYNC
      ensures ok <==> Recordable(rules, old(past), old(headerCommitments), current)
      ensures ok ==> PresyncOk() && past == old(past).(presync := old(past).presync + [current])
      ensures !ok ==> past == old(past)
    {
      var nextHeight := currentHeight + 1;
      RecordableHere(rules, past, currentChainWork, lastHeaderReceived, currentHeight, headerCommitments, current);
      if !rules.permitted(nextHeight, lastHeaderReceived.nBits, current.nBits) {
        return false;
      }
      PresyncNext(rules, past, currentChainWork, lastHeaderReceived, currentHeight, headerCommitments, current);
      if Due(rules, nextHeight) {
        headerCommitments := headerCommitments + [rules.hasher(rules.hash(current))];
        if |headerCommitments| > rules.maxCommitments {
          return false;
        }
      }
      currentChainWork := currentChainWork + rules.proof(current.nBits);
      lastHeaderReceived := current;
      currentHeight := nextHeight;
      past := past.(presync := past.presync + [current]);
      ok := true;
    }

    /** Process headers that follow the last one and each other, until one fails. */
    method StoreCommitments(headers: seq<Header>) returns (ok: bool)
      requires GoodPast(rules, past) && PresyncOk() && state == PRESYNC && Continuous(rules, headers)
      requires |headers| > 0 && headers[0].prev == rules.hash(lastHeaderReceived)
      modifies this
      ensures state == PRESYNC && GoodPast(rules, past) && past.accepted == [] && past.handedOut == old(past).handedOut
      ensures ok ==> PresyncOk() && past.presync == old(past).presync + headers
      ensures ok <==> Takeable(rules, old(past).presync + headers)
    {
      ghost var before := past.presync;
      assert headers[..0] == [] && before + [] == before;
      for i := 0 to |headers|
        invariant GoodPast(rules, past) && PresyncOk() && state == PRESYNC && past.presync == before + headers[..i]
        invariant i < |headers| ==> headers[i].prev == rules.hash(lastHeaderReceived)
        invariant past.handedOut == old(past).handedOut
      {
        RecordedExactly(rules, past, currentChainWork, lastHeaderReceived, currentHeight, headerCommitments,
                        headers[i]);
        AppendNext(before, headers, i);
        ok := ValidateAndProcessSingleHeader(headers[i]);
        if !ok {
          NotTaken(rules, before, headers, i + 1);
          return;
        }
        LastBefore(rules, past, currentChainWork, lastHeaderReceived, currentHeight, headerCommitments);
      }
      assert headers[..|headers|] == headers;
      ok := true;
    }

    /** The chain has enough work: download it again. */
    method StartRedownload()
      requires GoodPast(rules, past) && PresyncOk() && currentChainWork >= rules.minimumWork
      modifies this
      ensures Valid() && state == REDOWNLOAD && past == old(past)
    {
      redownloadedHeaders := [];
      bufferLastHeight := rules.startHeight;
      bufferFirstPrevHash, bufferLastHash := rules.hash(rules.start), rules.hash(rules.start);
      redownloadChainWork := rules.startWork;
      state := REDOWNLOAD;
    }

    /** Check a batch of headers that follow each other; switch to the second download once the chain
        has enough work. */
    method ValidateAndStoreHeadersCommitments(headers: seq<Header>) returns (ok: bool)
      requires Valid() && state == PRESYNC && |headers| > 0 && Continuous(rules, headers)
      modifies this
      ensures GoodPast(rules, past) && state != FINAL && past.accepted == [] && past.handedOut == old(past).handedOut
      ensures ok ==> Valid() && past.presync == old(past).presync + headers
      ensures ok <==> Takeable(rules, old(past).presync + headers)
      ensures ok ==> (state == REDOWNLOAD <==> Work(rules, past.presync) >= rules.minimumWork)
    {
      if headers[0].prev != rules.hash(lastHeaderReceived) {
        NotLinked(rules, past.presync, headers);
        return false;
      }
      ok := StoreCommitments(headers);
      if ok && currentChainWork >= rules.minimumWork {
        StartRedownload();
      }
    }

    // ---------- Second download ----------

    /** Track the work and, at a commitment height, compare with the first download. */
    method CheckCommitment(header: Header, nextHeight: nat) returns (ok: bool)
      requires GoodPast(rules, past)
      requires ProgressState(rules, past, redownloadChainWork, processAllRemaining, headerCommitments)
      requires nextHeight == rules.startHeight + 1 + |past.accepted|
      requires Follows(rules, Before(rules, past.accepted, |past.accepted|), header, |past.accepted|)
      modifies `redownloadChainWork, `processAllRemaining, `headerCommitments
      ensures ok <==> Confirmed(rules, past, old(headerCommitments), header)
      ensures ok ==> var p := past.(accepted := past.accepted + [header]);
                     GoodPast(rules, p) &&
                         ProgressState(rules, p, redownloadChainWork, processAllRemaining, headerCommitments)
    {
      AcceptNext(rules, past, redownloadChainWork, processAllRemaining, headerCommitments, header);
      redownloadChainWork := redownloadChainWork + rules.proof(header.nBits);
      if redownloadChainWork >= rules.minimumWork {
        processAllRemaining := true;
      }
      // Do not check commitments once the chain has enough work: the peer may have extended it.
      if !processAllRemaining && Due(rules, nextHeight) {
        if |headerCommitments| == 0 {
          return false;
        }
        var commitment := rules.hasher(rules.hash(header));
        var expected := headerCommitments[0];
        headerCommitments := headerCommitments[1..];
        if commitment != expected {
          return false;
        }
      }
      ok := true;
    }

    /** Store a header for later processing. */
    method StoreHeader(header: Header, nextHeight: nat)
      requires BufferState(rules, past, redownloadedHeaders, bufferFirstPrevHash, bufferLastHash, bufferLastHeight)
      requires nextHeight == bufferLastHeight + 1
      modifies `redownloadedHeaders, `bufferLastHeight, `bufferLastHash, `past
      ensures BufferState(rules, past, redownloadedHeaders, bufferFirstPrevHash, bufferLastHash, bufferLastHeight)
      ensures past == old(past).(accepted := old(past).accepted + [header])
      ensures |redownloadedHeaders| == |old(redownloadedHeaders)| + 1
    {
      AcceptBuffer(rules, past, redownloadedHeaders, bufferFirstPrevHash, bufferLastHash, bufferLastHeight, header);
      redownloadedHeaders := redownloadedHeaders + [Compress(header)];
      bufferLastHeight := nextHeight;
      bufferLastHash := rules.hash(header);
      past := past.(accepted := past.accepted + [header]);
    }

    /** Check one header against its predecessor and, at a commitment height, against the first
        download; store it. */
    method ValidateAndStoreRedownloadedHeader(header: Header) returns (ok: bool)
      requires GoodPast(rules, past) && RedownloadOk() && (redownloadedHeaders == [] ==> past.accepted == [])
      modifies this
      ensures state == old(state) && GoodPast(rules, past)
      ensures ok <==> Acceptable(rules, old(past), old(headerCommitments), header)
      ensures ok ==> RedownloadOk() && |redownloadedHeaders| == |old(redownloadedHeaders)| + 1
      ensures past == if ok then old(past).(accepted := old(past).accepted + [header]) else old(past)
    {
      var nextHeight := bufferLastHeight + 1;
      FollowsHere(rules, past, redownloadedHeaders, bufferFirstPrevHash, bufferLastHash, bufferLastHeight, header);
      if header.prev != bufferLastHash {
        return false;
      }
      var previousBits := if redownloadedHeaders != [] then redownloadedHeaders[|redownloadedHeaders| - 1].nBits
                          else rules.start.nBits;
      if !rules.permitted(nextHeight, previousBits, header.nBits) {
        return false;
      }
      ok := CheckAndStore(header, nextHeight);
    }

    method CheckAndStore(header: Header, nextHeight: nat) returns (ok: bool)
      requires GoodPast(rules, past) && RedownloadOk()
      requires nextHeight == bufferLastHeight + 1 == rules.startHeight + 1 + |past.accepted|
      requires Follows(rules, Before(rules, past.accepted, |past.accepted|), header, |past.accepted|)
      modifies this
      ensures state == old(state) && GoodPast(rules, past)
      ensures ok <==> Confirmed(rules, old(past), old(headerCommitments), header)
      ensures ok ==> RedownloadOk() && |redownloadedHeaders| == |old(redownloadedHeaders)| + 1
      ensures past == if ok then old(past).(accepted := old(past).accepted + [header]) else old(past)
    {
      ok := CheckCommitment(header, nextHeight);
      if ok {
        StoreHeader(header, nextHeight);
      }
    }

    /** Hand out the first header of the buffer. */
    method PopHeader() returns (h: Header)
      requires GoodPast(rules, past) && RedownloadOk() && redownloadedHeaders != []
      modifies `redownloadedHeaders, `bufferFirstPrevHash, `past
      ensures GoodPast(rules, past) && RedownloadOk()
      ensures past == old(past).(handedOut := old(past).handedOut + [h])
      ensures redownloadedHeaders == old(redownloadedHeaders)[1..]
    {
      PopBuffer(rules, past, redownloadedHeaders, bufferFirstPrevHash, bufferLastHash, bufferLastHeight);
      h := redownloadedHeaders[0].GetFullHeader(bufferFirstPrevHash);
      redownloadedHeaders := redownloadedHeaders[1..];
      bufferFirstPrevHash := rules.hash(h);
      past := past.(handedOut := past.handedOut + [h]);
    }

    /** Hand out the headers that have enough others on top of them, or all once the chain has enough
        work. */
    method PopHeadersReadyForAcceptance() returns (ret: seq<Header>)
      requires GoodPast(rules, past) && RedownloadOk()
      modifies `redownloadedHeaders, `bufferFirstPrevHash, `past
      ensures GoodPast(rules, past) && RedownloadOk()
      ensures |redownloadedHeaders| == |past.accepted| - |past.handedOut|
      ensures |old(redownloadedHeaders)| == |past.accepted| - |old(past).handedOut|
      ensures past == old(past).(handedOut := old(past).handedOut + ret)
      ensures processAllRemaining ==> redownloadedHeaders == []
      ensures !processAllRemaining ==>
                var n := |old(redownloadedHeaders)|;
                |redownloadedHeaders| == if n < REDOWNLOAD_BUFFER_SIZE then n else REDOWNLOAD_BUFFER_SIZE
    {
      ret := [];
      ghost var before := past;
      assert before.handedOut + [] == before.handedOut;
      while |redownloadedHeaders| > REDOWNLOAD_BUFFER_SIZE || (|redownloadedHeaders| > 0 && processAllRemaining)
        invariant GoodPast(rules, past) && RedownloadOk()
        invariant past == before.(handedOut := before.handedOut + ret)
        invariant |redownloadedHeaders| + |ret| == |old(redownloadedHeaders)|
        invariant !processAllRemaining && ret != [] ==> |redownloadedHeaders| >= REDOWNLOAD_BUFFER_SIZE
        decreases |redownloadedHeaders|
      {
        var h := PopHeader();
        AppendLast(before.handedOut, ret, h);
        ret := ret + [h];
      }
      BufferSize(rules, past, redownloadedHeaders, bufferFirstPrevHash, bufferLastHash, bufferLastHeight);
    }

    /** One header of a batch. */
    method StoreNext(header: Header) returns (ok: bool)
      requires GoodPast(rules, past) && RedownloadOk() && (redownloadedHeaders == [] ==> past.accepted == [])
      modifies this
      ensures state == old(state) && GoodPast(rules, past)
      ensures ok <==> Repeated(rules, old(past).accepted + [header], old(past).presync)
      ensures ok ==> RedownloadOk() && |redownloadedHeaders| == |old(redownloadedHeaders)| + 1
      ensures past == if ok then old(past).(accepted := old(past).accepted + [header]) else old(past)
    {
      AcceptedExactly(rules, past, redownloadChainWork, processAllRemaining, headerCommitments, header);
      ok := ValidateAndStoreRedownloadedHeader(header);
    }

    /** All of a batch, until one header fails. */
    method StoreRedownloadedHeaders(headers: seq<Header>) returns (ok: bool)
      requires Valid() && state == REDOWNLOAD && |headers| > 0
      modifies this
      ensures state == old(state) && GoodPast(rules, past) && StoredPart(rules, old(past), past, headers, ok)
      ensures ok ==> RedownloadOk() && |redownloadedHeaders| == |old(redownloadedHeaders)| + |headers|
    {
      ghost var before := past;
      assert headers[..0] == [] && before.accepted + [] == before.accepted;
      NonEmptyBuffer();
      for i := 0 to |headers|
        invariant state == old(state) && GoodPast(rules, past) && RedownloadOk()
        invariant past == before.(accepted := before.accepted + headers[..i])
        invariant |redownloadedHeaders| == |old(redownloadedHeaders)| + i
        invariant redownloadedHeaders == [] ==> past.accepted == []
      {
        AppendNext(before.accepted, headers, i);
        ok := StoreNext(headers[i]);
        if !ok {
          StoredSome(rules, before, past, headers, i);
          return;
        }
      }
      StoredAll(rules, before, past, headers);
      ok := true;
    }

    /** Between batches, an empty buffer means that nothing was accepted yet. */
    lemma NonEmptyBuffer()
      requires Valid() && state == REDOWNLOAD
      ensures redownloadedHeaders == [] ==> past.accepted == []
    {
    }

    /** Hand out what is ready; more is to come unless that is all, or the peer has no more. */
    method Release(fullHeadersMessage: bool) returns (requestMore: bool, powValidatedHeaders: seq<Header>)
      requires state == REDOWNLOAD && GoodPast(rules, past) && RedownloadOk() && redownloadedHeaders != []
      requires past.accepted != [] && (past.handedOut != [] ==> |redownloadedHeaders| > REDOWNLOAD_BUFFER_SIZE)
      modifies `redownloadedHeaders, `bufferFirstPrevHash, `past
      ensures GoodPast(rules, past) && (requestMore ==> Valid())
      ensures past == old(past).(handedOut := old(past).handedOut + powValidatedHeaders) && Released(rules, past)
      ensures requestMore <==> fullHeadersMessage && Work(rules, past.accepted) < rules.minimumWork
    {
      ghost var handed, n := |past.handedOut|, |redownloadedHeaders|;
      powValidatedHeaders := PopHeadersReadyForAcceptance();
      assert processAllRemaining == (Work(rules, past.accepted) >= rules.minimumWork);
      ReleasedBy(rules, past, handed, n, |redownloadedHeaders|, processAllRemaining);
      // Once everything was handed out, any leftover state can be cleared.
      requestMore := !(redownloadedHeaders == [] && processAllRemaining) && fullHeadersMessage;
    }

    /** A batch in the second download. */
    method ProcessRedownloaded(headers: seq<Header>, fullHeadersMessage: bool)
      returns (success: bool, requestMore: bool, powValidatedHeaders: seq<Header>)
      requires Valid() && state == REDOWNLOAD && |headers| > 0
      modifies this
      ensures state == REDOWNLOAD && GoodPast(rules, past) && (success && requestMore ==> Valid())
      ensures Redownloaded(rules, old(past), past, headers, fullHeadersMessage, success, requestMore,
                           powValidatedHeaders)
    {
      ghost var before := past;
      requestMore, powValidatedHeaders := false, [];
      success := StoreRedownloadedHeaders(headers);
      if success {
        ghost var stored := past;
        requestMore, powValidatedHeaders := Release(fullHeadersMessage);
        RedownloadedAll(rules, before, stored, headers, fullHeadersMessage, requestMore, powValidatedHeaders);
      } else {
        RedownloadedNot(rules, before, past, headers, fullHeadersMessage);
      }
    }

    /** Take in a batch of consecutive headers from the peer. */
    method ProcessNextHeaders(headers: seq<Header>, fullHeadersMessage: bool)
      returns (success: bool, requestMore: bool, powValidatedHeaders: seq<Header>)
      requires Valid() && Continuous(rules, headers)
      modifies this
      ensures Valid()
      // What is handed out continues what was, and is among what was accepted.
      ensures past.handedOut == old(past).handedOut + powValidatedHeaders && old(past).accepted <= past.accepted
      // Headers are handed out once the chain has enough work, or with enough headers above them.
      ensures powValidatedHeaders != [] ==>
                Work(rules, past.accepted) >= rules.minimumWork ||
                |past.accepted| - |past.handedOut| >= REDOWNLOAD_BUFFER_SIZE
      // Once the chain has enough work, everything accepted is handed out.
      ensures success && past.accepted != [] && Work(rules, past.accepted) >= rules.minimumWork ==>
                past.handedOut == past.accepted && state == FINAL
      // The sync goes on exactly if more headers are requested.
      ensures headers != [] && old(state) != FINAL ==> (state != FINAL <==> success && requestMore)
      // The first download takes a batch exactly if the chain with it is one to take.
      ensures headers != [] && old(state) == PRESYNC ==>
        && (success <==> Takeable(rules, old(past).presync + headers)) && powValidatedHeaders == []
        && (success ==>
            && past == old(past).(presync := old(past).presync + headers)
            && (requestMore <==> fullHeadersMessage || Work(rules, past.presync) >= rules.minimumWork)
            && (requestMore ==> (state == REDOWNLOAD <==> Work(rules, past.presync) >= rules.minimumWork)))
      // The second download takes it exactly if the chain with it repeats the first one.
      ensures headers != [] && old(state) == REDOWNLOAD ==>
        && (success <==> Repeated(rules, old(past).accepted + headers, old(past).presync))
        && (!success ==> powValidatedHeaders == [])
        && (success ==>
            && past.accepted == old(past).accepted + headers && past.presync == old(past).presync
            && (requestMore <==> fullHeadersMessage && Work(rules, past.accepted) < rules.minimumWork)
            && (requestMore ==> state == REDOWNLOAD) && Released(rules, past))
      ensures headers == [] || old(state) == FINAL ==>
          !success && !requestMore && powValidatedHeaders == [] && unchanged(this)
    {
      success, requestMore, powValidatedHeaders := false, false, [];
      assert past.handedOut + [] == past.handedOut;
      if headers == [] || state == FINAL {
        return;
      }
      if state == PRESYNC {
        success := ValidateAndStoreHeadersCommitments(headers);
        requestMore := success && (fullHeadersMessage || state == REDOWNLOAD);
      } else {
        success, requestMore, powValidatedHeaders := ProcessRedownloaded(headers, fullHeadersMessage);
        RedownloadedSafely(rules, old(past), past, headers, fullHeadersMessage, success, requestMore,
                           powValidatedHeaders);
      }
      if !(success && requestMore) {
        Finalize();
      }
    }
  }
}
