/**
 * The parallel check queue (`CCheckQueue`, src/checkqueue.h) as a state machine. One step is
 * one critical section of a thread, or the execution of one check outside the lock; thread 0 is
 * the master and every other thread a worker. A check is known by its position among the checks
 * added since `Wait` last returned, and `results` holds what each of them evaluates to.
 */
module CheckQueue {

  import opened Common

  /** Where a thread stands while the mutex is free. `todo` is the unexecuted rest of a batch of `nNow` checks. */
  datatype Thread = Outside | Waiting | Busy(todo: seq<int>, nNow: nat, fOk: bool)

  /** Bookkeeping about a check that the program itself does not keep. */
  datatype Fate = Pending | Executed | Skipped

  datatype State = State(
    queue: seq<int>,
    nIdle: int,
    nTotal: int,
    fAllOk: bool,
    nTodo: int,
    fQuit: bool,
    nBatchSize: nat,
    threads: seq<Thread>,
    masterNotified: bool,
    results: seq<bool>,
    fates: seq<Fate>)

  datatype Event =
    | Add(checks: seq<bool>)   // the master pushes a batch of checks
    | Enter(t: nat)            // a worker thread starts, or the master calls Wait
    | Wake(t: nat)             // a waiting thread wakes up, notified or not
    | Execute(t: nat)          // a thread processes the next check of its batch
    | Report(t: nat)           // a thread with a finished batch re-enters the critical section

  function Init(nThreads: nat, nBatchSize: nat, fQuit: bool): State {
    State([], 0, 0, true, 0, fQuit, nBatchSize, seq(nThreads + 1, _ => Outside), false, [], [])
  }

  // ---------------------------------------------------------------- the steps

  function BatchSize(s: State): int
    requires s.nTotal + s.nIdle + 1 > 0
  {
    Max(1, Min(s.nBatchSize, |s.queue| / (s.nTotal + s.nIdle + 1)))
  }

  function Reversed(q: seq<int>): (r: seq<int>)
    ensures |r| == |q|
  {
    if q == [] then [] else [q[|q| - 1]] + Reversed(q[..|q| - 1])
  }

  /**
   * From the top of the inner `while (queue.empty())` loop to the end of the critical section:
   * return from `Loop`, wait, or take a batch off the back of the queue. The second component
   * is the value `Wait` returns, if this is the master returning.
   */
  function Proceed(s: State, t: nat): (State, Option<bool>)
    requires t < |s.threads| && s.nTotal + s.nIdle + 1 > 0
  {
    if s.queue == [] then
      if (t == 0 || s.fQuit) && s.nTodo == 0 then
        var s1 := s.(nTotal := s.nTotal - 1, threads := s.threads[t := Outside]);
        if t == 0 then
          (s1.(fAllOk := true, masterNotified := false, results := [], fates := []), Some(s.fAllOk))
        else (s1, None)
      else
        (s.(nIdle := s.nIdle + 1, threads := s.threads[t := Waiting],
            masterNotified := if t == 0 then false else s.masterNotified), None)
    else
      var n := BatchSize(s);
      var rest := Max(0, |s.queue| - n);
      (s.(queue := s.queue[..rest], threads := s.threads[t := Busy(Reversed(s.queue[rest..]), n, s.fAllOk)]), None)
  }

  predicate Enabled(s: State, e: Event) {
    match e
    case Add(_) => |s.threads| > 0 && s.threads[0].Outside?
    case Enter(t) => t < |s.threads| && s.threads[t].Outside?
    case Wake(t) => t < |s.threads| && s.threads[t].Waiting?
    case Execute(t) => t < |s.threads| && s.threads[t].Busy? && s.threads[t].todo != []
    case Report(t) => t < |s.threads| && s.threads[t].Busy? && s.threads[t].todo == []
  }

  /** `fAllOk &= fOk; nTodo -= nNow;` and the notification of the master. */
  function Reported(s: State, t: nat): State
    requires t < |s.threads| && s.threads[t].Busy?
  {
    var b := s.threads[t];
    var nTodo := s.nTodo - b.nNow;
    s.(fAllOk := s.fAllOk && b.fOk, nTodo := nTodo, threads := s.threads[t := Outside],
       masterNotified := s.masterNotified || (nTodo == 0 && t != 0 && s.threads[0].Waiting?))
  }

  /** One event, and the value `Wait` returns if it makes the master return. */
  function Next(s: State, e: Event): (State, Option<bool>)
    requires Enabled(s, e) && s.nTotal >= 0 && s.nIdle >= 0
    requires e.Wake? ==> s.nIdle > 0
  {
    match e
    case Add(checks) =>
      (s.(queue := s.queue + seq(|checks|, i => |s.results| + i),
          nTodo := s.nTodo + |checks|,
          results := s.results + checks,
          fates := s.fates + seq(|checks|, _ => Pending)), None)
    case Enter(t) => Proceed(s.(nTotal := s.nTotal + 1), t)
    case Wake(t) => Proceed(s.(nIdle := s.nIdle - 1, threads := s.threads[t := Outside]), t)
    case Report(t) => Proceed(Reported(s, t), t)
    case Execute(t) =>
      var b := s.threads[t];
      var check := b.todo[0];
      if 0 <= check < |s.results| && check < |s.fates| then
        (s.(threads := s.threads[t := b.(todo := b.todo[1..], fOk := b.fOk && s.results[check])],
            fates := s.fates[check := if b.fOk then Executed else Skipped]), None)
      else (s, None)
  }

  // ---------------------------------------------------------------- the invariant

  function Held(th: Thread): multiset<int> {
    if th.Busy? then multiset(th.todo) else multiset{}
  }

  function InFlight(ths: seq<Thread>): multiset<int> {
    if ths == [] then multiset{} else Held(ths[0]) + InFlight(ths[1..])
  }

  function Unreported(ths: seq<Thread>): nat {
    if ths == [] then 0 else (if ths[0].Busy? then ths[0].nNow else 0) + Unreported(ths[1..])
  }

  function CountBusy(ths: seq<Thread>): nat {
    if ths == [] then 0 else (if ths[0].Busy? then 1 else 0) + CountBusy(ths[1..])
  }

  function CountWaiting(ths: seq<Thread>): nat {
    if ths == [] then 0 else (if ths[0].Waiting? then 1 else 0) + CountWaiting(ths[1..])
  }

  function PendingSet(fates: seq<Fate>): set<int> {
    set i | 0 <= i < |fates| && fates[i].Pending?
  }

  ghost predicate SomeFailed(s: State)
    requires |s.results| == |s.fates|
  {
    exists i :: 0 <= i < |s.results| && s.fates[i].Executed? && !s.results[i]
  }

  /** Nobody has seen a failure yet. */
  predicate AllOkSoFar(s: State) {
    s.fAllOk && forall t :: 0 <= t < |s.threads| && s.threads[t].Busy? ==> s.threads[t].fOk
  }

  /** Every check not yet decided is in the queue or in exactly one batch, once. */
  ghost predicate Accounted(queue: seq<int>, ths: seq<Thread>, fates: seq<Fate>) {
    multiset(queue) + InFlight(ths) == multiset(PendingSet(fates))
  }

  /** The counters, while `inside` threads (none or one) are between two phases, holding the mutex. */
  ghost predicate Counted(s: State, inside: nat) {
    && s.nTodo == |s.queue| + Unreported(s.threads)
    && s.nIdle == CountWaiting(s.threads)
    && s.nTotal == CountWaiting(s.threads) + CountBusy(s.threads) + inside
    && (forall t :: 0 <= t < |s.threads| && s.threads[t].Busy? ==> s.threads[t].nNow >= 1)
  }

  /** The flags know about a failure exactly when a check has failed; checks are skipped only after that. */
  ghost predicate Flagged(s: State) {
    && |s.results| == |s.fates|
    && (AllOkSoFar(s) <==> !SomeFailed(s))
    && (forall i :: 0 <= i < |s.fates| && s.fates[i].Skipped? ==> SomeFailed(s))
  }

  /**
   * Between a return of `Wait` and the next `Add` there is nothing to do, and a sleeping master
   * has something to wait for or has been notified.
   */
  ghost predicate Awaited(s: State)
    requires |s.threads| > 0
  {
    && (s.results == [] ==> s.nTodo == 0)
    && (s.threads[0].Waiting? ==> s.queue == [] && (s.masterNotified <==> s.nTodo == 0))
  }

  ghost predicate InvWith(s: State, inside: nat) {
    && |s.threads| > 0
    && Accounted(s.queue, s.threads, s.fates)
    && Counted(s, inside)
    && Flagged(s)
    && Awaited(s)
  }

  /** The invariant at every moment at which the mutex is free. */
  ghost predicate Inv(s: State) {
    InvWith(s, 0)
  }

  // ---------------------------------------------------------------- one batch

  lemma {:induction false} ReversedAt(q: seq<int>, j: nat)
    requires j < |q|
    ensures Reversed(q)[j] == q[|q| - 1 - j]
    decreases |q|
  {
    if j > 0 {
      ReversedAt(q[..|q| - 1], j - 1);
    }
  }

  /** The batch is at least one, otherwise at most the limit and an equal share of the queue, and as large as these allow. */
  lemma BatchSizeExactly(s: State, n: int)
    requires s.nTotal >= 0 && s.nIdle >= 0
    ensures var share := s.nTotal + s.nIdle + 1;
            n == BatchSize(s) <==>
              && n >= 1 && (n > 1 ==> n <= s.nBatchSize && n * share <= |s.queue|)
              && (n < s.nBatchSize ==> (n + 1) * share > |s.queue|)
  {
    var share := s.nTotal + s.nIdle + 1;
    var q := |s.queue| / share;
    ShareIs(|s.queue|, share);
    ShareOrder(n, q, share, |s.queue|);
    ShareOrder(n + 1, q, share, |s.queue|);
  }

  lemma ShareIs(size: nat, share: int)
    requires share > 0
    ensures 0 <= size / share && size / share * share <= size < (size / share + 1) * share
  {
    var q := size / share;
    assert size == q * share + size % share;
    assert (q + 1) * share == q * share + share;
  }

  lemma MoreShares(a: int, b: int, share: int)
    requires share > 0 && a <= b
    ensures a * share <= b * share
  {
    var d := b - a;
    assert d * share >= 0;
    assert b * share == (a + d) * share == a * share + d * share;
  }

  lemma ShareOrder(n: int, q: int, share: int, size: int)
    requires share > 0 && q * share <= size < (q + 1) * share
    ensures n * share <= size <==> n <= q
  {
    if n <= q {
      MoreShares(n, q, share);
    } else {
      MoreShares(q + 1, n, share);
    }
  }

  /** Taking a batch: the last checks of the queue, last one first, to be skipped if a failure is already known. */
  lemma TakesBatch(s: State, t: nat)
    requires t < |s.threads| && s.nTotal >= 0 && s.nIdle >= 0 && s.queue != []
    ensures var (r, outcome) := Proceed(s, t);
            && outcome.None? && r == s.(queue := r.queue, threads := r.threads)
            && r.threads == s.threads[t := r.threads[t]] && r.threads[t].Busy?
            && var b := r.threads[t];
               && b.fOk == s.fAllOk && b.nNow == BatchSize(s) && |b.todo| == Min(b.nNow, |s.queue|)
               && r.queue == s.queue[..|s.queue| - |b.todo|]
               && forall j :: 0 <= j < |b.todo| ==> b.todo[j] == s.queue[|s.queue| - 1 - j]
  {
    hide BatchSize, Reversed;
    assert BatchSize(s) >= 1 by { BatchSizeExactly(s, BatchSize(s)); }
    var rest := Max(0, |s.queue| - BatchSize(s));
    forall j | 0 <= j < |s.queue[rest..]| ensures Reversed(s.queue[rest..])[j] == s.queue[|s.queue| - 1 - j] {
      ReversedAt(s.queue[rest..], j);
    }
  }

  /** A check is executed exactly once its thread knows of no failure; what it says is what the thread reports. */
  lemma ExecutesOne(s: State, t: nat)
    requires Inv(s) && Enabled(s, Execute(t))
    ensures var (r, outcome), b := Next(s, Execute(t)), s.threads[t];
            && outcome.None? && r == s.(threads := r.threads, fates := r.fates)
            && 0 <= b.todo[0] < |s.results| == |s.fates|
            && r.threads == s.threads[t := Busy(b.todo[1..], b.nNow, b.fOk && s.results[b.todo[0]])]
            && r.fates == s.fates[b.todo[0] := if b.fOk then Executed else Skipped]
  {
    TodoIsPending(s.queue, s.threads, s.fates, t);
  }

  // ---------------------------------------------------------------- bookkeeping lemmas

  lemma {:induction false} InFlightUpdate(ths: seq<Thread>, t: nat, x: Thread)
    requires t < |ths|
    ensures InFlight(ths[t := x]) == InFlight(ths[t := Outside]) + Held(x)
    decreases |ths|
  {
    if t == 0 {
      assert ths[0 := x][1..] == ths[1..] && ths[0 := Outside][1..] == ths[1..];
    } else {
      InFlightUpdate(ths[1..], t - 1, x);
      assert ths[t := x][1..] == ths[1..][t - 1 := x];
      assert ths[t := Outside][1..] == ths[1..][t - 1 := Outside];
    }
  }

  lemma {:induction false} CountsUpdate(ths: seq<Thread>, t: nat, x: Thread)
    requires t < |ths|
    ensures Unreported(ths[t := x]) + (if ths[t].Busy? then ths[t].nNow else 0)
         == Unreported(ths) + (if x.Busy? then x.nNow else 0)
    ensures CountBusy(ths[t := x]) + (if ths[t].Busy? then 1 else 0) == CountBusy(ths) + (if x.Busy? then 1 else 0)
    ensures CountWaiting(ths[t := x]) + (if ths[t].Waiting? then 1 else 0)
         == CountWaiting(ths) + (if x.Waiting? then 1 else 0)
    decreases |ths|
  {
    if t == 0 {
      assert ths[0 := x][1..] == ths[1..];
    } else {
      CountsUpdate(ths[1..], t - 1, x);
      assert ths[t := x][1..] == ths[1..][t - 1 := x];
    }
  }

  lemma {:induction false} SumsOfOutside(ths: seq<Thread>)
    requires forall t :: 0 <= t < |ths| ==> ths[t].Outside?
    ensures InFlight(ths) == multiset{} && Unreported(ths) == CountBusy(ths) == CountWaiting(ths) == 0
    decreases |ths|
  {
    if ths != [] {
      SumsOfOutside(ths[1..]);
    }
  }

  lemma {:induction false} ReversedSame(q: seq<int>)
    ensures multiset(Reversed(q)) == multiset(q)
    decreases |q|
  {
    if q != [] {
      ReversedSame(q[..|q| - 1]);
      assert q == q[..|q| - 1] + [q[|q| - 1]];
    }
  }

  /** Without unreported checks nobody is busy. */
  lemma {:induction false} NobodyBusy(ths: seq<Thread>)
    requires Unreported(ths) == 0
    requires forall t :: 0 <= t < |ths| && ths[t].Busy? ==> ths[t].nNow >= 1
    ensures forall t :: 0 <= t < |ths| ==> !ths[t].Busy?
    ensures CountBusy(ths) == 0 && InFlight(ths) == multiset{}
    decreases |ths|
  {
    if ths != [] {
      assert forall t :: 0 <= t < |ths[1..]| ==> ths[1..][t] == ths[t + 1];
      NobodyBusy(ths[1..]);
    }
  }

  lemma {:induction false} SomebodyBusy(ths: seq<Thread>) returns (t: nat)
    requires Unreported(ths) > 0
    ensures t < |ths| && ths[t].Busy?
    decreases |ths|
  {
    if ths[0].Busy? {
      t := 0;
    } else {
      t := SomebodyBusy(ths[1..]);
      t := t + 1;
    }
  }

  // ---------------------------------------------------------------- every step keeps the invariant

  lemma InitInv(nThreads: nat, nBatchSize: nat, fQuit: bool)
    ensures Inv(Init(nThreads, nBatchSize, fQuit))
  {
    var s := Init(nThreads, nBatchSize, fQuit);
    SumsOfOutside(s.threads);
    assert PendingSet(s.fates) == {};
  }

  /**
   * When the master returns, its result is the conjunction of all checks added since it last
   * returned; each of them was executed, or skipped after some check had failed.
   */
  ghost predicate Verdict(s: State, r: bool) {
    && |s.results| == |s.fates|
    && (r <==> forall i :: 0 <= i < |s.results| ==> s.results[i])
    && (forall i :: 0 <= i < |s.fates| ==> !s.fates[i].Pending?)
    && (r ==> forall i :: 0 <= i < |s.fates| ==> s.fates[i].Executed?)
    && (!r ==> SomeFailed(s))
  }

  lemma NothingPending(fates: seq<Fate>)
    requires multiset(PendingSet(fates)) == multiset{}
    ensures forall i :: 0 <= i < |fates| ==> !fates[i].Pending?
  {
    var p := PendingSet(fates);
    assert forall i :: i in p <==> i in multiset(p);
    assert forall i :: 0 <= i < |fates| && fates[i].Pending? ==> i in p;
  }

  lemma ReturnVerdict(s: State)
    requires InvWith(s, 1) && s.queue == [] && s.nTodo == 0
    ensures Verdict(s, s.fAllOk)
  {
    NobodyBusy(s.threads);
    NothingPending(s.fates);
  }

  /** A thread changing to a phase without a batch leaves the accounting alone. */
  lemma AccountedIdle(queue: seq<int>, ths: seq<Thread>, fates: seq<Fate>, t: nat, x: Thread)
    requires Accounted(queue, ths, fates) && t < |ths|
    requires Held(ths[t]) == multiset{} && Held(x) == multiset{}
    ensures Accounted(queue, ths[t := x], fates)
  {
    InFlightUpdate(ths, t, x);
    InFlightUpdate(ths, t, ths[t]);
    assert ths[t := ths[t]] == ths;
    assert InFlight(ths[t := x]) == InFlight(ths);
  }

  lemma AccountedTake(queue: seq<int>, ths: seq<Thread>, fates: seq<Fate>, t: nat, rest: nat, x: Thread)
    requires Accounted(queue, ths, fates) && t < |ths| && ths[t].Outside? && rest <= |queue|
    requires x.Busy? && x.todo == Reversed(queue[rest..])
    ensures Accounted(queue[..rest], ths[t := x], fates)
  {
    TakeInFlight(ths, t, x, queue[rest..]);
    SplitQueue(queue, rest);
    Regroup(multiset(queue[..rest]), multiset(queue[rest..]), InFlight(ths), multiset(PendingSet(fates)));
  }

  lemma TakeInFlight(ths: seq<Thread>, t: nat, x: Thread, batch: seq<int>)
    requires t < |ths| && ths[t].Outside? && x.Busy? && x.todo == Reversed(batch)
    ensures InFlight(ths[t := x]) == InFlight(ths) + multiset(batch)
  {
    InFlightUpdate(ths, t, x);
    ReversedSame(batch);
    assert ths[t := Outside] == ths;
  }

  lemma SplitQueue(q: seq<int>, k: nat)
    requires k <= |q|
    ensures multiset(q) == multiset(q[..k]) + multiset(q[k..])
  {
    assert q == q[..k] + q[k..];
  }

  lemma Regroup(a: multiset<int>, b: multiset<int>, f: multiset<int>, p: multiset<int>)
    requires a + b + f == p
    ensures a + (f + b) == p
  {
  }

  /** Changing one thread between phases without a raised flag changes nothing for the flags. */
  lemma FlaggedThread(s: State, s': State, t: nat)
    requires Flagged(s) && t < |s.threads| == |s'.threads| && s.threads[t].Outside?
    requires s'.threads == s.threads[t := s'.threads[t]] && s'.fAllOk == s.fAllOk
    requires s'.threads[t].Busy? ==> s'.threads[t].fOk == s.fAllOk
    requires s'.results == s.results && s'.fates == s.fates
    ensures Flagged(s')
  {
    assert AllOkSoFar(s') <==> AllOkSoFar(s) by {
      assert forall u :: 0 <= u < |s.threads| && u != t ==> s'.threads[u] == s.threads[u];
      assert s'.fAllOk && s'.threads[t].Busy? ==> s'.threads[t].fOk;
    }
    assert SomeFailed(s') <==> SomeFailed(s);
  }

  lemma ProceedKeepsInv(s: State, t: nat)
    requires InvWith(s, 1) && t < |s.threads| && s.threads[t].Outside?
    ensures Inv(Proceed(s, t).0)
    ensures Proceed(s, t).1.Some? ==> t == 0 && Verdict(s, Proceed(s, t).1.value)
  {
    if s.queue != [] {
      TakeKeepsInv(s, t);
    } else if (t == 0 || s.fQuit) && s.nTodo == 0 {
      LeaveKeepsInv(s, t);
    } else {
      var s' := Proceed(s, t).0;
      CountsUpdate(s.threads, t, Waiting);
      AccountedIdle(s.queue, s.threads, s.fates, t, Waiting);
      FlaggedThread(s, s', t);
    }
  }

  lemma LeaveKeepsInv(s: State, t: nat)
    requires InvWith(s, 1) && t < |s.threads| && s.threads[t].Outside?
    requires s.queue == [] && (t == 0 || s.fQuit) && s.nTodo == 0
    ensures Inv(Proceed(s, t).0)
    ensures Proceed(s, t).1.Some? ==> t == 0 && Verdict(s, Proceed(s, t).1.value)
  {
    ReturnVerdict(s);
    NobodyBusy(s.threads);
    var s' := Proceed(s, t).0;
    assert s'.threads == s.threads;
    assert PendingSet([]) == {};
    if t == 0 {
      assert AllOkSoFar(s') && !SomeFailed(s');
    } else {
      FlaggedThread(s, s', t);
    }
  }

  lemma BatchInQueue(s: State)
    requires s.nTotal >= 0 && s.nIdle >= 0 && s.queue != []
    ensures 1 <= BatchSize(s) <= |s.queue|
  {
    var n := BatchSize(s);
    BatchSizeExactly(s, n);
    if n > 1 {
      MoreShares(1, s.nTotal + s.nIdle + 1, n);
    }
  }

  lemma TakeKeepsInv(s: State, t: nat)
    requires InvWith(s, 1) && t < |s.threads| && s.threads[t].Outside? && s.queue != []
    ensures Inv(Proceed(s, t).0)
  {
    hide Accounted, Flagged, Reversed, CountBusy, CountWaiting, Unreported;
    var s' := Proceed(s, t).0;
    var n := BatchSize(s);
    assert 1 <= n <= |s.queue| by { BatchInQueue(s); }
    hide BatchSize;
    CountsUpdate(s.threads, t, s'.threads[t]);
    AccountedTake(s.queue, s.threads, s.fates, t, |s.queue| - n, s'.threads[t]);
    FlaggedThread(s, s', t);
  }

  lemma ReportKeepsInv(s: State, t: nat)
    requires Inv(s) && Enabled(s, Report(t))
    ensures InvWith(Reported(s, t), 1)
  {
    var s' := Reported(s, t);
    CountsUpdate(s.threads, t, Outside);
    AccountedIdle(s.queue, s.threads, s.fates, t, Outside);
    assert AllOkSoFar(s') <==> AllOkSoFar(s) by {
      assert forall u :: 0 <= u < |s.threads| && u != t ==> s'.threads[u] == s.threads[u];
    }
    assert SomeFailed(s') <==> SomeFailed(s);
  }

  lemma AddKeepsInv(s: State, checks: seq<bool>)
    requires Inv(s) && Enabled(s, Add(checks))
    ensures Inv(Next(s, Add(checks)).0)
  {
    var s' := Next(s, Add(checks)).0;
    AccountedAdd(s.queue, s.threads, s.fates, |checks|);
    FlaggedAdd(s, s', checks);
  }

  lemma FlaggedAdd(s: State, s': State, checks: seq<bool>)
    requires Flagged(s) && s'.threads == s.threads && s'.fAllOk == s.fAllOk
    requires s'.results == s.results + checks && s'.fates == s.fates + seq(|checks|, _ => Pending)
    ensures Flagged(s')
  {
    var n := |s.results|;
    assert forall i :: 0 <= i < n ==> s'.results[i] == s.results[i] && s'.fates[i] == s.fates[i];
    assert forall i :: n <= i < |s'.fates| ==> s'.fates[i].Pending?;
    if SomeFailed(s) {
      var i :| 0 <= i < |s.results| && s.fates[i].Executed? && !s.results[i];
      assert s'.fates[i].Executed? && !s'.results[i];
    }
  }

  lemma {:induction false} AccountedAdd(queue: seq<int>, ths: seq<Thread>, fates: seq<Fate>, n: nat)
    requires Accounted(queue, ths, fates)
    ensures Accounted(queue + seq(n, i => |fates| + i), ths, fates + seq(n, _ => Pending))
    decreases n
  {
    if n == 0 {
      assert queue + seq(n, i => |fates| + i) == queue && fates + seq(n, _ => Pending) == fates;
    } else {
      AccountedAdd(queue, ths, fates, n - 1);
      var q1, f1 := queue + seq(n - 1, i => |fates| + i), fates + seq(n - 1, _ => Pending);
      assert queue + seq(n, i => |fates| + i) == q1 + [|f1|];
      assert fates + seq(n, _ => Pending) == f1 + [Pending];
      AccountedAddOne(q1, ths, f1);
    }
  }

  lemma AccountedAddOne(queue: seq<int>, ths: seq<Thread>, fates: seq<Fate>)
    requires Accounted(queue, ths, fates)
    ensures Accounted(queue + [|fates|], ths, fates + [Pending])
  {
    var p := PendingSet(fates);
    assert PendingSet(fates + [Pending]) == p + {|fates|};
    assert multiset(p + {|fates|}) == multiset(p) + multiset{|fates|};
    assert multiset(queue + [|fates|]) == multiset(queue) + multiset{|fates|};
  }

  lemma ExecuteKeepsInv(s: State, t: nat)
    requires Inv(s) && Enabled(s, Execute(t))
    ensures s.threads[t].todo[0] in PendingSet(s.fates)
    ensures Inv(Next(s, Execute(t)).0)
  {
    var b := s.threads[t];
    var check := b.todo[0];
    TodoIsPending(s.queue, s.threads, s.fates, t);
    var s' := Next(s, Execute(t)).0;
    AccountedExecute(s.queue, s.threads, s.fates, t, s'.fates[check], s'.threads[t]);
    CountsUpdate(s.threads, t, s'.threads[t]);
    FlaggedExecute(s, t);
  }

  lemma TodoIsPending(queue: seq<int>, ths: seq<Thread>, fates: seq<Fate>, t: nat)
    requires Accounted(queue, ths, fates) && t < |ths| && ths[t].Busy? && ths[t].todo != []
    ensures ths[t].todo[0] in PendingSet(fates)
  {
    InFlightUpdate(ths, t, ths[t]);
    assert ths[t := ths[t]] == ths;
    var check := ths[t].todo[0];
    assert check in multiset(ths[t].todo);
    assert check in InFlight(ths);
    assert check in multiset(PendingSet(fates));
  }

  lemma AccountedExecute(queue: seq<int>, ths: seq<Thread>, fates: seq<Fate>, t: nat, fate: Fate, x: Thread)
    requires Accounted(queue, ths, fates) && t < |ths| && ths[t].Busy? && ths[t].todo != []
    requires ths[t].todo[0] in PendingSet(fates)
    requires x.Busy? && x.todo == ths[t].todo[1..] && !fate.Pending?
    ensures Accounted(queue, ths[t := x], fates[ths[t].todo[0] := fate])
  {
    var check := ths[t].todo[0];
    ExecuteInFlight(ths, t, x);
    InFlightUpdate(ths, t, x);
    var p := PendingSet(fates);
    DecideOne(fates, check, fate);
    Cancel(multiset(queue), InFlight(ths[t := Outside]), Held(x), multiset(p - {check}), multiset{check});
  }

  lemma {:induction false} ExecuteInFlight(ths: seq<Thread>, t: nat, x: Thread)
    requires t < |ths| && ths[t].Busy? && ths[t].todo != []
    requires x.Busy? && x.todo == ths[t].todo[1..]
    ensures InFlight(ths) == InFlight(ths[t := Outside]) + (multiset{ths[t].todo[0]} + Held(x))
  {
    hide InFlight;
    InFlightUpdate(ths, t, ths[t]);
    assert ths[t := ths[t]] == ths;
    assert ths[t].todo == [ths[t].todo[0]] + x.todo;
  }

  lemma DecideOne(fates: seq<Fate>, check: int, fate: Fate)
    requires check in PendingSet(fates) && !fate.Pending?
    ensures PendingSet(fates[check := fate]) == PendingSet(fates) - {check}
    ensures multiset(PendingSet(fates)) == multiset(PendingSet(fates) - {check}) + multiset{check}
  {
    var p := PendingSet(fates);
    assert p == (p - {check}) + {check};
  }

  lemma Cancel(q: multiset<int>, f: multiset<int>, h: multiset<int>, p: multiset<int>, c: multiset<int>)
    requires q + (f + (c + h)) == p + c
    ensures q + (f + h) == p
  {
    forall e ensures (q + (f + h))[e] == p[e] {
      assert (q + (f + (c + h)))[e] == (p + c)[e];
    }
  }

  lemma FlaggedExecute(s: State, t: nat)
    requires Inv(s) && Enabled(s, Execute(t)) && s.threads[t].todo[0] in PendingSet(s.fates)
    ensures Flagged(Next(s, Execute(t)).0)
  {
    var b := s.threads[t];
    var check := b.todo[0];
    var s' := Next(s, Execute(t)).0;
    assert forall i :: 0 <= i < |s.fates| && i != check ==> s'.fates[i] == s.fates[i];
    assert forall u :: 0 <= u < |s.threads| && u != t ==> s'.threads[u] == s.threads[u];
    if SomeFailed(s) {
      var i :| 0 <= i < |s.results| && s.fates[i].Executed? && !s.results[i];
      assert s'.fates[i].Executed? && !s'.results[i];
      if s.fAllOk {
        var u :| 0 <= u < |s.threads| && s.threads[u].Busy? && !s.threads[u].fOk;
        assert s'.threads[u].Busy? && !s'.threads[u].fOk;
      }
    } else {
      assert b.fOk && s'.fates[check].Executed?;
      if s.results[check] {
        assert AllOkSoFar(s');
      } else {
        assert !s'.threads[t].fOk && !s'.results[check];
      }
    }
  }

  lemma EnterKeepsInv(s: State, t: nat)
    requires Inv(s) && Enabled(s, Enter(t))
    ensures Inv(Next(s, Enter(t)).0)
    ensures Next(s, Enter(t)).1.Some? ==> t == 0 && Verdict(s, Next(s, Enter(t)).1.value)
  {
    hide Proceed;
    hide Accounted;
    hide Flagged;
    hide Verdict;
    var s1 := s.(nTotal := s.nTotal + 1);
    FlaggedThread(s, s1, t);
    ProceedKeepsInv(s1, t);
    VerdictFrame(s, s1);
  }

  lemma WakeKeepsInv(s: State, t: nat)
    requires Inv(s) && Enabled(s, Wake(t))
    ensures s.nIdle > 0
    ensures Inv(Next(s, Wake(t)).0)
    ensures Next(s, Wake(t)).1.Some? ==> t == 0 && Verdict(s, Next(s, Wake(t)).1.value)
  {
    hide Proceed;
    hide Accounted;
    hide Flagged;
    hide Verdict;
    CountsUpdate(s.threads, t, Outside);
    AccountedIdle(s.queue, s.threads, s.fates, t, Outside);
    var s1 := s.(nIdle := s.nIdle - 1, threads := s.threads[t := Outside]);
    FlaggedWake(s, s1, t);
    ProceedKeepsInv(s1, t);
    VerdictFrame(s, s1);
  }

  lemma ReportNextKeepsInv(s: State, t: nat)
    requires Inv(s) && Enabled(s, Report(t))
    ensures Inv(Next(s, Report(t)).0)
    ensures Next(s, Report(t)).1.Some? ==> t == 0 && Verdict(s, Next(s, Report(t)).1.value)
  {
    hide Proceed;
    hide Accounted;
    hide Counted;
    hide Flagged;
    hide Awaited;
    hide Verdict;
    ReportKeepsInv(s, t);
    ProceedKeepsInv(Reported(s, t), t);
    VerdictFrame(s, Reported(s, t));
  }

  /** The verdict speaks only about results and fates. */
  lemma VerdictFrame(s: State, s': State)
    requires s'.results == s.results && s'.fates == s.fates
    ensures forall r :: Verdict(s, r) <==> Verdict(s', r)
  {
    if |s.results| == |s.fates| {
      assert SomeFailed(s) <==> SomeFailed(s');
    }
  }

  lemma NextResults(s: State, e: Event)
    requires Enabled(s, e) && s.nTotal >= 0 && s.nIdle >= 0 && (e.Wake? ==> s.nIdle > 0)
    ensures Next(s, e).1.Some? ==> Next(s, e).0.results == []
    ensures Next(s, e).1.None? ==> Next(s, e).0.results == s.results + if e.Add? then e.checks else []
  {
  }

  lemma NextKeepsInv(s: State, e: Event)
    requires Inv(s) && Enabled(s, e)
    ensures s.nTotal >= 0 && s.nIdle >= 0 && (e.Wake? ==> s.nIdle > 0)
    ensures Inv(Next(s, e).0)
    ensures Next(s, e).1.Some? ==> Verdict(s, Next(s, e).1.value)
  {
    hide Verdict;
    match e
    case Add(checks) => AddKeepsInv(s, checks);
    case Execute(t) => ExecuteKeepsInv(s, t);
    case Enter(t) => EnterKeepsInv(s, t);
    case Wake(t) => WakeKeepsInv(s, t);
    case Report(t) => ReportNextKeepsInv(s, t);
  }

  lemma FlaggedWake(s: State, s': State, t: nat)
    requires Flagged(s) && t < |s.threads| && s.threads[t].Waiting?
    requires s'.threads == s.threads[t := Outside] && s'.fAllOk == s.fAllOk
    requires s'.results == s.results && s'.fates == s.fates
    ensures Flagged(s')
  {
    assert AllOkSoFar(s') <==> AllOkSoFar(s) by {
      assert forall u :: 0 <= u < |s.threads| && u != t ==> s'.threads[u] == s.threads[u];
    }
    assert SomeFailed(s') <==> SomeFailed(s);
  }

  // ---------------------------------------------------------------- runs

  /** One step of a run. The arithmetic side conditions are facts, not assumptions: see `NextKeepsInv`. */
  ghost predicate Steps(s: State, e: Event, s': State, outcome: Option<bool>) {
    && Enabled(s, e)
    && s.nTotal >= 0 && s.nIdle >= 0 && (e.Wake? ==> s.nIdle > 0)
    && Next(s, e) == (s', outcome)
  }

  lemma StepKeepsInv(s: State, e: Event, s': State, outcome: Option<bool>)
    requires Inv(s) && Steps(s, e, s', outcome)
    ensures Inv(s')
    ensures outcome.Some? ==> Verdict(s, outcome.value) && s'.results == []
    ensures outcome.None? ==> s'.results == s.results + if e.Add? then e.checks else []
  {
    NextKeepsInv(s, e);
    NextResults(s, e);
  }

  /** Any interleaving of the master's and the workers' steps, from a new queue. */
  ghost predicate IsRun(states: seq<State>, events: seq<Event>, outcomes: seq<Option<bool>>) {
    && |states| == |events| + 1 == |outcomes| + 1
    && (exists n: nat, size: nat, quit: bool :: states[0] == Init(n, size, quit))
    && forall k {:trigger events[k]} :: 0 <= k < |events| ==> Steps(states[k], events[k], states[k + 1], outcomes[k])
  }

  /** The checks added before event `k` and after the last return of `Wait` before it. */
  function AddedSince(events: seq<Event>, outcomes: seq<Option<bool>>, k: nat): seq<bool>
    requires k <= |events| == |outcomes|
  {
    if k == 0 || outcomes[k - 1].Some? then []
    else AddedSince(events, outcomes, k - 1) + if events[k - 1].Add? then events[k - 1].checks else []
  }

  lemma {:induction false} RunInv(states: seq<State>, events: seq<Event>, outcomes: seq<Option<bool>>, k: nat)
    requires IsRun(states, events, outcomes) && k <= |events|
    ensures Inv(states[k]) && states[k].results == AddedSince(events, outcomes, k)
  {
    if k == 0 {
      var n: nat, size: nat, quit: bool :| states[0] == Init(n, size, quit);
      InitInv(n, size, quit);
    } else {
      RunInv(states, events, outcomes, k - 1);
      StepKeepsInv(states[k - 1], events[k - 1], states[k], outcomes[k - 1]);
    }
  }

  /**
   * In every run, `Wait` returns exactly the conjunction of the checks added since it last
   * returned, and not before each of them was executed, or skipped after a failure.
   */
  lemma WaitReturnsConjunction(states: seq<State>, events: seq<Event>, outcomes: seq<Option<bool>>, k: nat)
    requires IsRun(states, events, outcomes) && k < |events| && outcomes[k].Some?
    ensures var added := AddedSince(events, outcomes, k);
            outcomes[k].value <==> forall i :: 0 <= i < |added| ==> added[i]
    ensures Verdict(states[k], outcomes[k].value)
  {
    RunInv(states, events, outcomes, k);
    StepKeepsInv(states[k], events[k], states[k + 1], outcomes[k]);
  }

  /** `IsIdle`, the assertion of the `CCheckQueueControl` constructor. */
  predicate IsIdle(s: State) {
    s.nTotal == s.nIdle && s.nTodo == 0 && s.fAllOk
  }

  /** Whenever nothing has been added since the last return of `Wait`, a controller may be constructed. */
  lemma IdleBetweenRounds(states: seq<State>, events: seq<Event>, outcomes: seq<Option<bool>>, k: nat)
    requires IsRun(states, events, outcomes) && k <= |events|
    requires AddedSince(events, outcomes, k) == []
    ensures IsIdle(states[k])
  {
    RunInv(states, events, outcomes, k);
    NobodyBusy(states[k].threads);
  }

  /** Exactly the threads that hold an unreported batch are counted as not idle. */
  lemma BusyThreads(states: seq<State>, events: seq<Event>, outcomes: seq<Option<bool>>, k: nat)
    requires IsRun(states, events, outcomes) && k <= |events|
    ensures states[k].nTotal - states[k].nIdle == CountBusy(states[k].threads)
    ensures states[k].nTodo == |states[k].queue| + Unreported(states[k].threads)
  {
    RunInv(states, events, outcomes, k);
  }

  // ---------------------------------------------------------------- progress

  function BusyWork(ths: seq<Thread>): nat {
    if ths == [] then 0 else (if ths[0].Busy? then |ths[0].todo| + 1 else 0) + BusyWork(ths[1..])
  }

  /** Work still to be done; only `Add` can increase it. */
  function Work(s: State): nat {
    3 * |s.queue| + BusyWork(s.threads)
  }

  lemma {:induction false} BusyWorkUpdate(ths: seq<Thread>, t: nat, x: Thread)
    requires t < |ths|
    ensures BusyWork(ths[t := x]) + (if ths[t].Busy? then |ths[t].todo| + 1 else 0)
         == BusyWork(ths) + (if x.Busy? then |x.todo| + 1 else 0)
    decreases |ths|
  {
    if t == 0 {
      assert ths[0 := x][1..] == ths[1..];
    } else {
      BusyWorkUpdate(ths[1..], t - 1, x);
      assert ths[t := x][1..] == ths[1..][t - 1 := x];
    }
  }

  lemma ProceedWork(s: State, t: nat)
    requires t < |s.threads| && s.threads[t].Outside? && s.nTotal + s.nIdle + 1 > 0
    ensures Work(Proceed(s, t).0) <= Work(s)
  {
    var s' := Proceed(s, t).0;
    BusyWorkUpdate(s.threads, t, s'.threads[t]);
    assert s'.threads == s.threads[t := s'.threads[t]];
  }

  /** Executing or reporting always brings the end nearer; no other step of a thread moves it away. */
  lemma WorkDecreases(s: State, e: Event)
    requires Inv(s) && Enabled(s, e) && !e.Add?
    ensures s.nTotal >= 0 && s.nIdle >= 0 && (e.Wake? ==> s.nIdle > 0)
    ensures Work(Next(s, e).0) <= Work(s)
    ensures e.Execute? || e.Report? ==> Work(Next(s, e).0) < Work(s)
  {
    hide Accounted;
    hide AllOkSoFar;
    hide Awaited;
    hide Verdict;
    hide Proceed;
    NextKeepsInv(s, e);
    match e
    case Execute(t) =>
      ExecuteKeepsInv(s, t);
      BusyWorkUpdate(s.threads, t, Next(s, e).0.threads[t]);
    case Enter(t) => ProceedWork(s.(nTotal := s.nTotal + 1), t);
    case Wake(t) =>
      BusyWorkUpdate(s.threads, t, Outside);
      ProceedWork(s.(nIdle := s.nIdle - 1, threads := s.threads[t := Outside]), t);
    case Report(t) =>
      BusyWorkUpdate(s.threads, t, Outside);
      ReportKeepsInv(s, t);
      ProceedWork(Reported(s, t), t);
  }

  /**
   * No lost wake-up: while the master is inside `Wait`, some thread can execute or report a
   * check, or the master has been notified and returns as soon as it wakes.
   */
  lemma MasterNotStuck(s: State) returns (e: Event)
    requires Inv(s) && !s.threads[0].Outside?
    ensures Enabled(s, e) && s.nTotal >= 0 && s.nIdle >= 0 && (e.Wake? ==> s.nIdle > 0)
    ensures e.Execute? || e.Report? || (e == Wake(0) && s.masterNotified && Next(s, e).1.Some?)
  {
    if s.threads[0].Waiting? && s.nTodo == 0 {
      e := Wake(0);
    } else {
      var t := 0;
      if s.threads[0].Waiting? {
        t := SomebodyBusy(s.threads);
      }
      e := if s.threads[t].todo == [] then Report(t) else Execute(t);
    }
    NextKeepsInv(s, e);
  }

  /** The events of `es` can happen from `s`, none of them returns from `Wait` before the last, which does. */
  ghost predicate LeadsToReturn(s: State, es: seq<Event>)
    requires Inv(s)
    decreases |es|
  {
    && es != [] && Enabled(s, es[0])
    && (NextKeepsInv(s, es[0]);
        if |es| == 1 then Next(s, es[0]).1.Some?
        else Next(s, es[0]).1.None? && LeadsToReturn(Next(s, es[0]).0, es[1..]))
  }

  /** From every reachable state in which the master waits, `Wait` can still return. */
  lemma {:induction false} WaitCanReturn(s: State) returns (es: seq<Event>)
    requires Inv(s) && !s.threads[0].Outside?
    ensures LeadsToReturn(s, es)
    decreases Work(s)
  {
    hide InvWith;
    hide Work;
    var e := MasterNotStuck(s);
    NextKeepsInv(s, e);
    var (s', r) := Next(s, e);
    if r.Some? {
      es := [e];
    } else {
      WorkDecreases(s, e);
      assert !s'.threads[0].Outside?;
      var rest := WaitCanReturn(s');
      es := [e] + rest;
      assert es[1..] == rest;
    }
  }
}
