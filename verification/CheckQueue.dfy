/** The queue on which a master and its workers verify checks, as a state machine whose steps are
    the regions in which a thread holds the mutex. */
module CheckQueues {
  import opened Options

  /** A check and what evaluating it gives: nothing, or an error. */
  datatype Check = Check(id: nat, outcome: Option<nat>)

  /** What a thread does between its steps: it is not in the loop, waits on its condition variable
      (and may have been notified), or works on a batch, evaluating it only if `doWork`. */
  datatype Activity = Outside | Waiting(notified: bool) | Working(batch: seq<Check>, doWork: bool)

  /** A thread with its local result, which lives as long as the thread is in the loop. */
  datatype Thread = Thread(activity: Activity, local: Option<nat>)

  /** The members guarded by the mutex, the threads (the master is number 0), and of the current
      round the checks that were added and those whose batch was cleaned up. */
  datatype State = State(queue: seq<Check>, nIdle: int, nTotal: int, result: Option<nat>, nTodo: int, batchSize: nat,
                         threads: seq<Thread>, added: multiset<Check>, completed: multiset<Check>)

  datatype Event =
    | Enter(t: nat)           // a worker starts, or the master calls Complete
    | Finish(t: nat)          // a thread has finished its batch
    | Wake(t: nat)            // a wait ends, after a notification or spuriously
    | Add(checks: seq<Check>) // the master adds checks

  // ---------- The steps ----------

  /** Evaluate a batch until a check fails; `local` is what the local result was before. */
  function RunBatch(batch: seq<Check>, local: Option<nat>): Option<nat> {
    if batch == [] then local
    else if batch[0].outcome.Some? then batch[0].outcome
    else RunBatch(batch[1..], None)
  }

  /** How many checks to take. */
  function BatchLength(s: State): nat
    requires |s.queue| > 0 && s.nTotal + s.nIdle >= 0
    ensures 1 <= BatchLength(s) <= |s.queue|
  {
    var share := |s.queue| / (s.nTotal + s.nIdle + 1);
    ShareBound(|s.queue|, s.nTotal + s.nIdle + 1);
    var n := if share < s.batchSize then share else s.batchSize;
    if n < 1 then 1 else n
  }

  lemma MulAtLeast(b: int, q: int)
    requires b >= 1
    ensures q >= 0 ==> b * q >= q
    ensures q < 0 ==> b * q <= -b
  {
    if q >= 0 {
      assert (b - 1) * q >= 0;
    } else {
      assert b * (-1 - q) >= 0;
    }
  }

  lemma ShareBound(a: nat, b: int)
    requires b >= 1
    ensures 0 <= a / b <= a
  {
    MulAtLeast(b, a / b);
    assert a == b * (a / b) + a % b;
  }

  /** The clean-up at the start of a critical section. */
  function Prelude(s: State, e: Event): State
    requires Enabled(s, e) && !e.Add?
  {
    match e
    case Enter(t) => s.(nTotal := s.nTotal + 1, threads := s.threads[t := Thread(Outside, None)])
    case Wake(t) => s.(nIdle := s.nIdle - 1, threads := s.threads[t := s.threads[t].(activity := Outside)])
    case Finish(t) =>
      var th := s.threads[t];
      var batch := th.activity.batch;
      var local := if th.activity.doWork then RunBatch(batch, th.local) else th.local;
      var swap := local.Some? && s.result.None?;
      var nTodo := s.nTodo - |batch|;
      var threads := s.threads[t := Thread(Outside, if swap then None else local)];
      s.(result := if swap then local else s.result, nTodo := nTodo,
         threads := if nTodo == 0 && t != 0 then NotifyMaster(threads) else threads,
         completed := s.completed + multiset(batch))
  }

  function NotifyMaster(threads: seq<Thread>): seq<Thread> {
    if |threads| > 0 && threads[0].activity.Waiting?
    then threads[0 := threads[0].(activity := Waiting(true))] else threads
  }

  /** The master is done: nothing is queued and nothing is left to do. */
  predicate Returning(s: State, t: nat) {
    t == 0 && s.queue == [] && s.nTodo == 0
  }

  /** The rest of the critical section: return, wait, or take a batch from the back of the queue. */
  function Proceed(s: State, t: nat): State
    requires t < |s.threads| && s.nTotal + s.nIdle >= 0
  {
    if Returning(s, t) then
      s.(nTotal := s.nTotal - 1, result := None, added := multiset{}, completed := multiset{},
         threads := s.threads[t := Thread(Outside, None)])
    else if s.queue == [] then
      s.(nIdle := s.nIdle + 1, threads := s.threads[t := s.threads[t].(activity := Waiting(false))])
    else
      var n := |s.queue| - BatchLength(s);
      s.(queue := s.queue[..n],
         threads := s.threads[t := s.threads[t].(activity := Working(s.queue[n..], s.result.None?))])
  }

  predicate Enabled(s: State, e: Event) {
    match e
    case Enter(t) => t < |s.threads| && s.threads[t].activity.Outside?
    case Finish(t) => t < |s.threads| && s.threads[t].activity.Working?
    case Wake(t) => t < |s.threads| && s.threads[t].activity.Waiting?
    case Add(_) => |s.threads| > 0 && s.threads[0].activity.Outside?
  }

  function Apply(s: State, e: Event): State
    requires Enabled(s, e) && s.nTotal >= 0 && s.nIdle >= (if e.Wake? then 1 else 0)
  {
    if e.Add? then
      s.(queue := s.queue + e.checks, nTodo := s.nTodo + |e.checks|, added := s.added + multiset(e.checks))
    else Proceed(Prelude(s, e), e.t)
  }

  // ---------- What every step keeps ----------

  function Batch(th: Thread): seq<Check> {
    if th.activity.Working? then th.activity.batch else []
  }

  /** All checks that the first `n` threads are working on. */
  ghost function InFlight(threads: seq<Thread>, n: nat): multiset<Check>
    requires n <= |threads|
  {
    if n == 0 then multiset{} else InFlight(threads, n - 1) + multiset(Batch(threads[n - 1]))
  }

  ghost function Idle(threads: seq<Thread>, n: nat): nat
    requires n <= |threads|
  {
    if n == 0 then 0 else Idle(threads, n - 1) + if threads[n - 1].activity.Waiting? then 1 else 0
  }

  ghost function Inside(threads: seq<Thread>, n: nat): nat
    requires n <= |threads|
  {
    if n == 0 then 0 else Inside(threads, n - 1) + if threads[n - 1].activity.Outside? then 0 else 1
  }

  ghost predicate AllPass(checks: multiset<Check>) {
    forall c :: c in checks ==> c.outcome == None
  }

  ghost predicate SomeFails(checks: multiset<Check>, r: nat) {
    exists c :: c in checks && c.outcome == Some(r)
  }

  /** The counters tell the truth. */
  ghost predicate Counted(s: State) {
    && |s.threads| > 0
    && s.nTodo == |s.queue| + |InFlight(s.threads, |s.threads|)|
    && s.nIdle == Idle(s.threads, |s.threads|) && s.nTotal == Inside(s.threads, |s.threads|)
  }

  /** Every check of the round is queued, in flight or cleaned up; the result is that of those that
      were cleaned up, or of one of the round. */
  ghost predicate Accounted(s: State) {
    && s.added == multiset(s.queue) + InFlight(s.threads, |s.threads|) + s.completed
    && (s.result.None? ==> AllPass(s.completed))
    && (s.result.Some? ==> SomeFails(s.added, s.result.value))
  }

  /** A batch is only left unevaluated when the round has failed already, and is never empty. */
  ghost predicate ThreadOk(s: State, th: Thread) {
    th.activity.Working? ==> |th.activity.batch| > 0 && (th.activity.doWork || s.result.Some?)
  }

  /** The master does not wait with nothing left to do, unless it was notified. */
  ghost predicate MasterOk(s: State) {
    |s.threads| > 0 && (s.threads[0].activity == Waiting(false) ==> s.queue == [] && s.nTodo > 0)
  }

  ghost predicate Inv(s: State) {
    && Counted(s) && Accounted(s) && MasterOk(s)
    && forall i :: 0 <= i < |s.threads| ==> ThreadOk(s, s.threads[i])
  }

  // ---------- Sums over threads ----------

  lemma {:induction false} SumsPrefix(a: seq<Thread>, b: seq<Thread>, n: nat)
    requires n <= |a| && n <= |b| && a[..n] == b[..n]
    ensures InFlight(a, n) == InFlight(b, n) && Idle(a, n) == Idle(b, n) && Inside(a, n) == Inside(b, n)
  {
    if n > 0 {
      assert a[..n - 1] == a[..n][..n - 1] && b[..n - 1] == b[..n][..n - 1];
      assert a[n - 1] == a[..n][n - 1] && b[n - 1] == b[..n][n - 1];
      SumsPrefix(a, b, n - 1);
    }
  }

  /** Replacing one thread changes the sums by that thread. */
  lemma {:induction false} InFlightUpdate(threads: seq<Thread>, t: nat, th: Thread, n: nat)
    requires t < n <= |threads|
    ensures InFlight(threads[t := th], n) + multiset(Batch(threads[t])) == InFlight(threads, n) + multiset(Batch(th))
  {
    var a := threads[t := th];
    var before, after := multiset(Batch(threads[t])), multiset(Batch(th));
    if t == n - 1 {
      SumsPrefix(threads, a, n - 1);
      Commute(InFlight(threads, n - 1), before, after);
    } else {
      InFlightUpdate(threads, t, th, n - 1);
      Rearrange(InFlight(a, n - 1), InFlight(threads, n - 1), before, after, multiset(Batch(threads[n - 1])));
    }
  }

  lemma InFlightSame(threads: seq<Thread>, t: nat, th: Thread)
    requires t < |threads| && Batch(threads[t]) == [] && Batch(th) == []
    ensures InFlight(threads[t := th], |threads|) == InFlight(threads, |threads|)
  {
    InFlightUpdate(threads, t, th, |threads|);
    var none: seq<Check> := [];
    assert multiset(none) == multiset{};
    assert forall m: multiset<Check> :: m + multiset(none) == m;
  }

  lemma Commute(x: multiset<Check>, a: multiset<Check>, b: multiset<Check>)
    ensures (x + a) + b == (x + b) + a
  {
  }

  lemma {:induction false} CountsUpdate(threads: seq<Thread>, t: nat, th: Thread, n: nat)
    requires t < n <= |threads|
    ensures Idle(threads[t := th], n) + (if threads[t].activity.Waiting? then 1 else 0) ==
            Idle(threads, n) + (if th.activity.Waiting? then 1 else 0)
    ensures Inside(threads[t := th], n) + (if threads[t].activity.Outside? then 0 else 1) ==
            Inside(threads, n) + (if th.activity.Outside? then 0 else 1)
  {
    if t == n - 1 {
      SumsPrefix(threads, threads[t := th], n - 1);
    } else {
      CountsUpdate(threads, t, th, n - 1);
    }
  }

  lemma Rearrange(x': multiset<Check>, x: multiset<Check>, before: multiset<Check>, after: multiset<Check>,
                  c: multiset<Check>)
    requires x' + before == x + after
    ensures (x' + c) + before == (x + c) + after
  {
    assert (x' + c) + before == (x' + before) + c;
    assert (x + c) + after == (x + after) + c;
  }

  lemma {:induction false} InFlightThread(threads: seq<Thread>, t: nat, n: nat)
    requires t < n <= |threads|
    ensures multiset(Batch(threads[t])) <= InFlight(threads, n)
  {
    if t < n - 1 {
      InFlightThread(threads, t, n - 1);
    }
  }

  /** If something is in flight, some thread is working. */
  lemma {:induction false} SomeoneWorks(threads: seq<Thread>, n: nat) returns (t: nat)
    requires n <= |threads| && |InFlight(threads, n)| > 0
    ensures t < n && threads[t].activity.Working?
  {
    if Batch(threads[n - 1]) != [] {
      t := n - 1;
    } else {
      t := SomeoneWorks(threads, n - 1);
    }
  }

  // ---------- The clean-up ----------

  /** While thread `t` holds the mutex: it is counted as inside, but neither waits nor works. */
  ghost predicate Mid(s: State, t: nat) {
    && t < |s.threads| && s.threads[t].activity.Outside?
    && s.nTodo == |s.queue| + |InFlight(s.threads, |s.threads|)|
    && s.nIdle == Idle(s.threads, |s.threads|) && s.nTotal == Inside(s.threads, |s.threads|) + 1
    && Accounted(s) && MasterOk(s)
    && forall i :: 0 <= i < |s.threads| ==> ThreadOk(s, s.threads[i])
  }

  /** Taking a thread that neither works before nor after. */
  lemma EnterOrWake(s: State, e: Event)
    requires Inv(s) && Enabled(s, e) && (e.Enter? || e.Wake?)
    ensures Mid(Prelude(s, e), e.t)
  {
    var p := Prelude(s, e);
    var th := p.threads[e.t];
    InFlightSame(s.threads, e.t, th);
    CountsUpdate(s.threads, e.t, th, |s.threads|);
    forall i | 0 <= i < |p.threads| ensures ThreadOk(p, p.threads[i]) {
      assert ThreadOk(s, s.threads[i]);
    }
  }

  lemma {:induction false} RunBatchResult(batch: seq<Check>, local: Option<nat>)
    requires |batch| > 0
    ensures RunBatch(batch, local) == RunBatch(batch, None)
    ensures RunBatch(batch, local).None? ==> AllPass(multiset(batch))
    ensures RunBatch(batch, local).Some? ==> SomeFails(multiset(batch), RunBatch(batch, local).value)
  {
    assert batch == [batch[0]] + batch[1..];
    assert batch[0] in multiset(batch);
    if batch[0].outcome.None? && |batch| > 1 {
      RunBatchResult(batch[1..], None);
      if RunBatch(batch, local).Some? {
        var c :| c in multiset(batch[1..]) && c.outcome == RunBatch(batch, local);
        assert c in multiset(batch);
      }
    }
  }

  lemma NotifySums(threads: seq<Thread>)
    ensures |NotifyMaster(threads)| == |threads|
    ensures InFlight(NotifyMaster(threads), |threads|) == InFlight(threads, |threads|)
    ensures Idle(NotifyMaster(threads), |threads|) == Idle(threads, |threads|)
    ensures Inside(NotifyMaster(threads), |threads|) == Inside(threads, |threads|)
    ensures forall i :: 0 <= i < |threads| && !threads[i].activity.Waiting? ==> NotifyMaster(threads)[i] == threads[i]
  {
    if |threads| > 0 && threads[0].activity.Waiting? {
      var th := threads[0].(activity := Waiting(true));
      InFlightSame(threads, 0, th);
      CountsUpdate(threads, 0, th, |threads|);
    }
  }

  /** What cleaning up a batch does to the sums. */
  lemma FinishSums(s: State, t: nat)
    requires Inv(s) && Enabled(s, Finish(t))
    ensures var p, n := Prelude(s, Finish(t)), |s.threads|;
            && |p.threads| == n
            && InFlight(p.threads, n) + multiset(Batch(s.threads[t])) == InFlight(s.threads, n)
            && Idle(p.threads, n) == Idle(s.threads, n) && Inside(p.threads, n) + 1 == Inside(s.threads, n)
            && |s.threads[t].activity.batch| <= s.nTodo
  {
    var n := |s.threads|;
    var p := Prelude(s, Finish(t));
    var threads := s.threads[t := Thread(Outside, p.threads[t].local)];
    InFlightUpdate(s.threads, t, threads[t], n);
    CountsUpdate(s.threads, t, threads[t], n);
    InFlightThread(s.threads, t, n);
    NotifySums(threads);
    assert |multiset(Batch(s.threads[t]))| == |Batch(s.threads[t])|;
  }

  /** A finished batch is accounted for: its failure becomes the result unless the round has failed
      already. A local result from earlier is never taken for it. */
  lemma FinishAccounts(s: State, t: nat)
    requires Inv(s) && Enabled(s, Finish(t))
    ensures Accounted(Prelude(s, Finish(t)))
  {
    var p := Prelude(s, Finish(t));
    var th := s.threads[t];
    var batch := th.activity.batch;
    FinishSums(s, t);
    assert ThreadOk(s, th);
    RunBatchResult(batch, th.local);
    InFlightThread(s.threads, t, |s.threads|);
    assert p.added == multiset(p.queue) + InFlight(p.threads, |p.threads|) + p.completed;
    if s.result.None? {
      if p.result.Some? {
        var c: Check :| c in multiset(batch) && c.outcome == p.result;
        assert c in p.added;
      }
    }
  }

  lemma FinishThreadAt(s: State, t: nat, i: nat)
    requires Enabled(s, Finish(t)) && i < |s.threads| && ThreadOk(s, s.threads[i])
    ensures var p := Prelude(s, Finish(t));
            && |p.threads| == |s.threads| && p.threads[t].activity.Outside? && ThreadOk(p, p.threads[i])
            && (i != t && p.threads[i].activity == Waiting(false) ==>
                  s.threads[i].activity == Waiting(false) && (t != 0 && i == 0 ==> p.nTodo != 0))
  {
  }

  lemma FinishThreads(s: State, t: nat)
    requires Enabled(s, Finish(t)) && |s.threads| > 0 && MasterOk(s)
    requires forall i :: 0 <= i < |s.threads| ==> ThreadOk(s, s.threads[i])
    requires Prelude(s, Finish(t)).nTodo >= 0
    ensures var p := Prelude(s, Finish(t));
            && |p.threads| == |s.threads| && p.threads[t].activity.Outside? && MasterOk(p)
            && forall i :: 0 <= i < |p.threads| ==> ThreadOk(p, p.threads[i])
  {
    var p := Prelude(s, Finish(t));
    FinishThreadAt(s, t, 0);
    forall i | 0 <= i < |p.threads| ensures ThreadOk(p, p.threads[i]) {
      FinishThreadAt(s, t, i);
    }
  }

  lemma FinishMid(s: State, t: nat)
    requires Inv(s) && Enabled(s, Finish(t))
    ensures Mid(Prelude(s, Finish(t)), t)
  {
    FinishSums(s, t);
    FinishAccounts(s, t);
    FinishThreads(s, t);
    var n := |s.threads|;
    var p := Prelude(s, Finish(t));
    assert |InFlight(s.threads, n)| == |InFlight(p.threads, n)| + |Batch(s.threads[t])|;
  }

  lemma PreludeKeeps(s: State, e: Event)
    requires Inv(s) && Enabled(s, e) && !e.Add?
    ensures Mid(Prelude(s, e), e.t)
  {
    if e.Finish? {
      FinishMid(s, e.t);
    } else {
      EnterOrWake(s, e);
    }
  }

  // ---------- The rest of the critical section ----------

  /** When nothing is left to do, nobody is working. */
  lemma NobodyWorks(s: State, t: nat)
    requires Mid(s, t) && s.nTodo == 0
    ensures s.queue == [] && InFlight(s.threads, |s.threads|) == multiset{}
    ensures forall i :: 0 <= i < |s.threads| ==> !s.threads[i].activity.Working?
  {
    forall i | 0 <= i < |s.threads| ensures !s.threads[i].activity.Working? {
      InFlightThread(s.threads, i, |s.threads|);
      assert ThreadOk(s, s.threads[i]);
      assert |multiset(Batch(s.threads[i]))| == |Batch(s.threads[i])|;
      assert multiset(Batch(s.threads[i])) <= multiset{};
    }
  }

  lemma ReturnKeeps(s: State, t: nat)
    requires Mid(s, t) && Returning(s, t)
    ensures Inv(Proceed(s, t))
  {
    var p := Proceed(s, t);
    NobodyWorks(s, t);
    InFlightSame(s.threads, t, p.threads[t]);
    CountsUpdate(s.threads, t, p.threads[t], |s.threads|);
    var none: seq<Check> := [];
    assert multiset(none) == multiset{};
  }

  lemma WaitKeeps(s: State, t: nat)
    requires Mid(s, t) && !Returning(s, t) && s.queue == []
    ensures Inv(Proceed(s, t))
  {
    var p := Proceed(s, t);
    InFlightSame(s.threads, t, p.threads[t]);
    CountsUpdate(s.threads, t, p.threads[t], |s.threads|);
    forall i | 0 <= i < |p.threads| ensures ThreadOk(p, p.threads[i]) {
      assert ThreadOk(s, s.threads[i]);
    }
  }

  lemma TakeSums(s: State, t: nat)
    requires Mid(s, t) && s.queue != []
    ensures var p := Proceed(s, t);
            Counted(p) && p.added == multiset(p.queue) + InFlight(p.threads, |p.threads|) + p.completed
  {
    var p := Proceed(s, t);
    TakeInFlight(s, t);
    CountsUpdate(s.threads, t, p.threads[t], |s.threads|);
    QueueSplit(s.queue, |p.queue|);
  }

  lemma QueueSplit(queue: seq<Check>, n: nat)
    requires n <= |queue|
    ensures multiset(queue) == multiset(queue[..n]) + multiset(queue[n..])
  {
    assert queue == queue[..n] + queue[n..];
  }

  /** What is taken from the queue is in flight. */
  lemma TakeInFlight(s: State, t: nat)
    requires Mid(s, t) && s.queue != []
    ensures var p := Proceed(s, t);
      && |p.queue| <= |s.queue| && p.queue == s.queue[..|p.queue|]
      && InFlight(p.threads, |p.threads|) == InFlight(s.threads, |s.threads|) + multiset(s.queue[|p.queue|..])
  {
    var p := Proceed(s, t);
    InFlightUpdate(s.threads, t, p.threads[t], |s.threads|);
    var none: seq<Check> := [];
    assert multiset(none) == multiset{};
  }

  lemma TakeKeeps(s: State, t: nat)
    requires Mid(s, t) && s.queue != []
    ensures Inv(Proceed(s, t))
  {
    var p := Proceed(s, t);
    TakeSums(s, t);
    forall i | 0 <= i < |p.threads| ensures ThreadOk(p, p.threads[i]) {
      assert ThreadOk(s, s.threads[i]);
    }
  }

  lemma AddKeeps(s: State, checks: seq<Check>)
    requires Inv(s) && Enabled(s, Add(checks))
    ensures Inv(Apply(s, Add(checks)))
  {
    var p := Apply(s, Add(checks));
    assert p.added == multiset(p.queue) + InFlight(p.threads, |p.threads|) + p.completed;
    if s.result.Some? {
      var c :| c in s.added && c.outcome == s.result;
      assert c in p.added;
    }
    forall i | 0 <= i < |p.threads| ensures ThreadOk(p, p.threads[i]) {
      assert ThreadOk(s, s.threads[i]);
    }
  }

  /** A waiting thread is counted. */
  lemma {:induction false} WaiterCounted(threads: seq<Thread>, t: nat, n: nat)
    requires t < n <= |threads| && threads[t].activity.Waiting?
    ensures Idle(threads, n) >= 1
  {
    if t < n - 1 {
      WaiterCounted(threads, t, n - 1);
    }
  }

  lemma CanApply(s: State, e: Event)
    requires Inv(s) && Enabled(s, e)
    ensures s.nTotal >= 0 && s.nIdle >= (if e.Wake? then 1 else 0)
  {
    if e.Wake? {
      WaiterCounted(s.threads, e.t, |s.threads|);
    }
  }

  /** Every step of every thread keeps the invariant. */
  lemma StepKeeps(s: State, e: Event)
    requires Inv(s) && Enabled(s, e)
    ensures s.nTotal >= 0 && s.nIdle >= (if e.Wake? then 1 else 0)
    ensures Inv(Apply(s, e))
  {
    CanApply(s, e);
    if e.Add? {
      AddKeeps(s, e.checks);
    } else {
      PreludeKeeps(s, e);
      var p := Prelude(s, e);
      if Returning(p, e.t) {
        ReturnKeeps(p, e.t);
      } else if p.queue == [] {
        WaitKeeps(p, e.t);
      } else {
        TakeKeeps(p, e.t);
      }
    }
  }

  // ---------- Runs ----------

  /** Nobody has entered the loop and nothing was added. */
  predicate Untouched(s: State) {
    && |s.threads| > 0 && s.queue == [] && s.nIdle == 0 && s.nTotal == 0 && s.nTodo == 0 && s.result == None
    && s.added == multiset{} && s.completed == multiset{}
    && forall i :: 0 <= i < |s.threads| ==> s.threads[i].activity.Outside?
  }

  lemma {:induction false} NothingInFlight(threads: seq<Thread>, n: nat)
    requires n <= |threads| && forall i :: 0 <= i < |threads| ==> threads[i].activity.Outside?
    ensures InFlight(threads, n) == multiset{} && Idle(threads, n) == 0 && Inside(threads, n) == 0
  {
    if n > 0 {
      NothingInFlight(threads, n - 1);
      var none: seq<Check> := [];
      assert multiset(none) == multiset{};
    }
  }

  lemma InitialInv(s: State)
    requires Untouched(s)
    ensures Inv(s)
  {
    NothingInFlight(s.threads, |s.threads|);
    var none: seq<Check> := [];
    assert multiset(none) == multiset{};
  }

  /** A state in which runs begin. */
  ghost predicate Initial(s: State)
    ensures Initial(s) ==> Inv(s)
  {
    Untouched(s) && (InitialInv(s); true)
  }

  /** The events can happen in this order. */
  ghost predicate Possible(s: State, events: seq<Event>)
    requires Inv(s)
    decreases |events|
  {
    events == [] ||
    (Enabled(s, events[0]) && (StepKeeps(s, events[0]); Possible(Apply(s, events[0]), events[1..])))
  }

  ghost function After(s: State, events: seq<Event>): (s': State)
    requires Inv(s) && Possible(s, events)
    ensures Inv(s')
    decreases |events|
  {
    if events == [] then s
    else
      StepKeeps(s, events[0]);
      After(Apply(s, events[0]), events[1..])
  }

  // ---------- What is promised ----------

  /** In every interleaving, when Complete returns, every check added since it last returned has been
      taken care of: it returns no error exactly when all of them pass, and otherwise the error of
      one of them. */
  lemma CompleteIsRight(start: State, events: seq<Event>, e: Event)
    requires Initial(start) && Possible(start, events)
    requires Enabled(After(start, events), e) && !e.Add?
    requires Returning(Prelude(After(start, events), e), e.t)
    ensures var s := After(start, events);
            var returned := Prelude(s, e).result;
            && (returned.None? <==> AllPass(s.added))
            && (returned.Some? ==> SomeFails(s.added, returned.value))
  {
    var s := After(start, events);
    PreludeKeeps(s, e);
    var p := Prelude(s, e);
    NobodyWorks(p, e.t);
    var none: seq<Check> := [];
    assert multiset(none) == multiset{};
    assert p.added == p.completed == s.added;
  }

  /** In every interleaving, while the master waits without having been notified, nothing is queued
      and some worker is at work, whose last one will notify the master. */
  lemma MasterNeverStuck(start: State, events: seq<Event>) returns (t: nat)
    requires Initial(start) && Possible(start, events)
    requires After(start, events).threads[0].activity == Waiting(false)
    ensures var s := After(start, events);
            s.queue == [] && 0 < t < |s.threads| && s.threads[t].activity.Working?
  {
    var s := After(start, events);
    t := SomeoneWorks(s.threads, |s.threads|);
  }

  /** What a thread does before it leaves the mutex: it goes to wait, or returns, only if nothing is queued; otherwise
      it takes from the end of the queue, at least one check and at most a batch, of which all could have as many. */
  ghost predicate Serves(p: State, s': State, t: nat) {
    && t < |s'.threads|
    && var act := s'.threads[t].activity;
    && (act.Working? <==> p.queue != []) && s'.queue + Batch(s'.threads[t]) == p.queue
    && (act.Working? ==>
          && 1 <= |act.batch| && (act.doWork <==> p.result.None?)
          && (|act.batch| > 1 ==>
                |act.batch| <= p.batchSize && |act.batch| * (p.nTotal + p.nIdle + 1) <= |p.queue|))
  }

  lemma ProceedServes(p: State, t: nat)
    requires t < |p.threads| && p.nTotal + p.nIdle >= 0
    ensures Serves(p, Proceed(p, t), t)
  {
    if p.queue != [] {
      var n := BatchLength(p);
      assert p.queue == p.queue[..|p.queue| - n] + p.queue[|p.queue| - n..];
      if n > 1 {
        ShareTimes(|p.queue|, p.nTotal + p.nIdle + 1, n);
      }
    }
  }

  lemma TakesWork(s: State, e: Event)
    requires Inv(s) && Enabled(s, e) && !e.Add?
    ensures s.nTotal >= 0 && s.nIdle >= (if e.Wake? then 1 else 0)
    ensures Serves(Prelude(s, e), Apply(s, e), e.t)
  {
    CanApply(s, e);
    ProceedServes(Prelude(s, e), e.t);
  }

  lemma ShareTimes(a: nat, b: int, n: nat)
    requires b >= 1 && n <= a / b
    ensures n * b <= a
  {
  }

  /** How many batches are finished. */
  function Finishes(events: seq<Event>): nat {
    if events == [] then 0 else (if events[0].Finish? then 1 else 0) + Finishes(events[1..])
  }

  /** A step of another thread leaves the master waiting, keeps a notification, and finishing a batch either
      notifies it or leaves less to do. */
  lemma WaitGoesOn(s: State, e: Event)
    requires Inv(s) && Enabled(s, e) && e != Wake(0) && s.threads[0].activity.Waiting?
    ensures s.nTotal >= 0 && s.nIdle >= (if e.Wake? then 1 else 0)
    ensures var s' := Apply(s, e);
            && |s'.threads| == |s.threads| && s'.threads[0].activity.Waiting?
            && (s'.threads[0].activity.notified || !s.threads[0].activity.notified)
            && (s'.threads[0].activity.notified || s'.nTodo <= s.nTodo - (if e.Finish? then 1 else 0))
  {
    CanApply(s, e);
    if e.Finish? {
      assert ThreadOk(s, s.threads[e.t]);
    }
  }

  /** In every interleaving, a waiting master that does not wake up of itself has been notified by the time the
      others have finished as many batches as there were checks left. */
  lemma {:induction false} MasterNotified(s: State, events: seq<Event>)
    requires Inv(s) && Possible(s, events) && s.threads[0].activity.Waiting?
    requires Wake(0) !in events && (s.threads[0].activity.notified || Finishes(events) >= s.nTodo)
    ensures |After(s, events).threads| > 0 && After(s, events).threads[0].activity == Waiting(true)
    decreases |events|
  {
    if events != [] {
      var e, rest := events[0], events[1..];
      StepKeeps(s, e);
      WaitGoesOn(s, e);
      MasterNotified(Apply(s, e), rest);
    }
  }

  /** The counter of what is left never goes below zero. */
  lemma TodoNeverNegative(s: State, t: nat)
    requires Inv(s) && Enabled(s, Finish(t))
    ensures |s.threads[t].activity.batch| <= s.nTodo
  {
    FinishSums(s, t);
  }
}
