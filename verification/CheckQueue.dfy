/** The queue of verification checks: one master and any number of workers, one mutex and two condition
    variables, as a state machine whose steps are the sections that run under the mutex, single check
    evaluations outside it, and wake-ups. Thread 0 is the master. A check is represented by its outcome. */
module CheckQueue {

  datatype Thread =
    | Outside                                             // not in the loop
    | AtLock(nNow: nat, lockOk: bool)                     // about to take the mutex, nNow checks done
    | Waiting                                             // blocked on its condition variable
    | Woken                                               // notified, about to take the mutex again
    | Holding                                             // inside the mutex (never between steps)
    | Working(batch: seq<bool>, done: nat, workOk: bool)  // evaluating a batch

  datatype State = State(
    queue: seq<bool>,
    nIdle: int,
    nTotal: int,
    fAllOk: bool,
    nTodo: int,
    nBatchSize: nat,
    threads: seq<Thread>,
    round: seq<bool>)       // the checks added since the last completed wait

  datatype Step =
    | Add(checks: seq<bool>, notified: nat)   // the master adds checks; a single one wakes `notified`
    | Enter(i: nat)                           // a worker starts, or the master starts to wait
    | Lock(i: nat)                            // a thread runs its section under the mutex
    | Exec(i: nat)                            // a thread evaluates its next check, or is through
    | Spurious(i: nat)                        // a blocked thread wakes up unasked

  function Init(nBatchSize: nat, n: nat): State {
    State([], 0, 0, true, 0, nBatchSize, seq(n + 1, i => Outside), [])
  }

  predicate IsIdle(s: State) {
    s.nTotal == s.nIdle && s.nTodo == 0 && s.fAllOk
  }

  // ---------- the steps ----------

  predicate Enabled(s: State, step: Step) {
    match step
    case Add(checks, w) =>
      && |s.threads| > 0 && s.threads[0].Outside?
      && (|checks| == 1 ==>
            if exists i :: 1 <= i < |s.threads| && s.threads[i].Waiting?
            then 1 <= w < |s.threads| && s.threads[w].Waiting?
            else w == 0)
    case Enter(i) => i < |s.threads| && s.threads[i].Outside?
    case Lock(i) => i < |s.threads| && (s.threads[i].AtLock? || s.threads[i].Woken?)
    case Exec(i) => i < |s.threads| && s.threads[i].Working? && s.threads[i].done <= |s.threads[i].batch|
    case Spurious(i) => i < |s.threads| && s.threads[i].Waiting?
  }

  function Wake(t: Thread): Thread {
    if t.Waiting? then Woken else t
  }

  /** Wakes every blocked worker; the master waits on another variable. */
  function WakeWorkers(ts: seq<Thread>): seq<Thread> {
    seq(|ts|, i requires 0 <= i < |ts| => if i == 0 then ts[i] else Wake(ts[i]))
  }

  function Min(a: int, b: int): int { if a < b then a else b }
  function Max(a: int, b: int): int { if a < b then b else a }

  /** How many checks a thread takes at once; the divisor is never below 1 (see Inv). */
  function BatchSize(s: State): (n: int)
    requires s.queue != []
    ensures 1 <= n <= |s.queue| && n <= Max(1, s.nBatchSize)
  {
    QuotientAtMost(|s.queue|, Max(1, s.nTotal + s.nIdle + 1));
    Max(1, Min(s.nBatchSize, |s.queue| / Max(1, s.nTotal + s.nIdle + 1)))
  }

  lemma QuotientAtMost(a: int, b: int)
    requires a >= 0 && b >= 1
    ensures 0 <= a / b <= a
  { }

  /** The checks in the order they are popped off the back of the queue. */
  function Popped(queue: seq<bool>, n: nat): seq<bool>
    requires n <= |queue|
  {
    seq(n, i requires 0 <= i < n => queue[|queue| - 1 - i])
  }

  /** First half of the section: account for the finished batch, or register, or stop being idle. */
  function Account(s: State, i: nat): State
    requires i < |s.threads|
  {
    var ts := s.threads[i := Holding];
    match s.threads[i]
    case AtLock(nNow, ok) =>
      if nNow > 0 then
        var fNotify := s.nTodo - nNow == 0 && i != 0;
        s.(fAllOk := s.fAllOk && ok, nTodo := s.nTodo - nNow,
           threads := if fNotify then ts[0 := Wake(ts[0])] else ts)
      else s.(nTotal := s.nTotal + 1, threads := ts)
    case _ => s.(nIdle := s.nIdle - 1, threads := ts)
  }

  /** Second half: return, block, or take a batch. */
  function Proceed(s: State, i: nat): State
    requires i < |s.threads|
  {
    if s.queue == [] then
      if i == 0 && s.nTodo == 0 then
        s.(nTotal := s.nTotal - 1, fAllOk := true, threads := s.threads[i := Outside], round := [])
      else s.(nIdle := s.nIdle + 1, threads := s.threads[i := Waiting])
    else
      var n := BatchSize(s);
      s.(queue := s.queue[..|s.queue| - n], threads := s.threads[i := Working(Popped(s.queue, n), 0, s.fAllOk)])
  }

  function Apply(s: State, step: Step): State
    requires Enabled(s, step)
  {
    match step
    case Add(checks, w) =>
      s.(queue := s.queue + checks, nTodo := s.nTodo + |checks|, round := s.round + checks,
         threads := if |checks| == 1 && w > 0 then s.threads[w := Woken]
                    else if |checks| > 1 then WakeWorkers(s.threads) else s.threads)
    case Enter(i) => s.(threads := s.threads[i := AtLock(0, true)])
    case Lock(i) => Proceed(Account(s, i), i)
    case Exec(i) =>
      var t := s.threads[i];
      if t.done < |t.batch| then
        s.(threads := s.threads[i := t.(done := t.done + 1, workOk := t.workOk && t.batch[t.done])])
      else s.(threads := s.threads[i := AtLock(|t.batch|, t.workOk)])
    case Spurious(i) => s.(threads := s.threads[i := Woken])
  }

  /** The master leaves its wait in this step, and with what answer. */
  predicate Returns(s: State, step: Step)
    requires Enabled(s, step)
  {
    step == Lock(0) && Apply(s, step).threads[0].Outside?
  }

  function Answer(s: State): bool
    requires |s.threads| > 0
  {
    Account(s, 0).fAllOk
  }

  // ---------- sums over threads ----------

  function Sum(ts: seq<Thread>, f: Thread -> int): int {
    if ts == [] then 0 else Sum(ts[..|ts| - 1], f) + f(ts[|ts| - 1])
  }

  lemma {:induction false} SumUpdate(ts: seq<Thread>, i: nat, t: Thread, f: Thread -> int)
    requires i < |ts|
    ensures Sum(ts[i := t], f) == Sum(ts, f) - f(ts[i]) + f(t)
  {
    var n := |ts| - 1;
    if i < n {
      SumUpdate(ts[..n], i, t, f);
      assert ts[i := t][..n] == ts[..n][i := t];
    } else {
      assert ts[i := t][..n] == ts[..n];
    }
  }

  lemma {:induction false} SumSame(ts: seq<Thread>, us: seq<Thread>, f: Thread -> int)
    requires |ts| == |us| && forall i :: 0 <= i < |ts| ==> f(ts[i]) == f(us[i])
    ensures Sum(ts, f) == Sum(us, f)
  {
    if ts != [] { SumSame(ts[..|ts| - 1], us[..|us| - 1], f); }
  }

  /** A sum of non-negative parts is at least each part, and is zero only if they all are. */
  lemma {:induction false} SumParts(ts: seq<Thread>, f: Thread -> int)
    requires forall i :: 0 <= i < |ts| ==> f(ts[i]) >= 0
    ensures Sum(ts, f) >= 0
    ensures forall i :: 0 <= i < |ts| ==> f(ts[i]) <= Sum(ts, f)
    ensures Sum(ts, f) > 0 ==> exists i :: 0 <= i < |ts| && f(ts[i]) > 0
  {
    if ts != [] {
      var rest := ts[..|ts| - 1];
      assert forall i :: 0 <= i < |rest| ==> rest[i] == ts[i];
      SumParts(rest, f);
      if Sum(rest, f) > 0 {
        var i :| 0 <= i < |rest| && f(rest[i]) > 0;
        assert f(ts[i]) > 0;
      } else if Sum(ts, f) > 0 {
        assert f(ts[|ts| - 1]) > 0;
      }
    }
  }

  lemma {:induction false} SumZero(n: nat, f: Thread -> int)
    requires f(Outside) == 0
    ensures Sum(seq(n, i => Outside), f) == 0
  {
    if n > 0 {
      assert seq(n, i => Outside)[..n - 1] == seq(n - 1, i => Outside);
      SumZero(n - 1, f);
    }
  }

  // ---------- the invariant ----------

  /** Checks a thread has taken and not yet reported. */
  function InFlight(t: Thread): int {
    match t
    case Working(batch, _, _) => |batch|
    case AtLock(nNow, _) => nNow
    case _ => 0
  }

  /** 1 for a thread that counts among the total. */
  function Registered(t: Thread): int {
    if t.Waiting? || t.Woken? || t.Holding? || InFlight(t) > 0 then 1 else 0
  }

  function Idle(t: Thread): int {
    if t.Waiting? || t.Woken? then 1 else 0
  }

  ghost predicate ThreadOk(t: Thread) {
    match t
    case Working(batch, done, _) => 0 < |batch| && done <= |batch|
    case AtLock(nNow, ok) => nNow == 0 ==> ok
    case _ => true
  }

  /** The thread has met a failed check, or still has one ahead. */
  ghost predicate Failing(t: Thread) {
    match t
    case Working(batch, done, ok) => !ok || (done <= |batch| && false in batch[done..])
    case AtLock(_, ok) => !ok
    case _ => false
  }

  /** Somewhere a failed check is waiting to be found, or has been. */
  ghost predicate Failed(s: State) {
    || !s.fAllOk
    || false in s.queue
    || exists i :: 0 <= i < |s.threads| && Failing(s.threads[i])
  }

  /** A thread that will look at the queue without being notified. */
  predicate Active(t: Thread) { t.AtLock? || t.Woken? || t.Working? || t.Holding? }

  ghost predicate CountsOk(s: State) {
    && s.nTodo == |s.queue| + Sum(s.threads, InFlight) <= |s.round|
    && s.nTotal == Sum(s.threads, Registered)
    && s.nIdle == Sum(s.threads, Idle)
  }

  /** The master blocks only while a check is outstanding, and not while there is work to take. */
  ghost predicate MasterOk(s: State)
    requires |s.threads| > 0
  {
    s.threads[0].Waiting? ==> s.queue == [] && s.nTodo > 0
  }

  /** Blocked workers are not forgotten while there is work to take. */
  ghost predicate WorkersOk(s: State) {
    s.queue != [] && (exists i :: 1 <= i < |s.threads| && s.threads[i].Waiting?) ==>
      exists i :: 1 <= i < |s.threads| && Active(s.threads[i])
  }

  ghost predicate Inv(s: State) {
    && |s.threads| > 0
    && (forall i :: 0 <= i < |s.threads| ==> ThreadOk(s.threads[i]))
    && CountsOk(s)
    && (Failed(s) <==> false in s.round)
    && MasterOk(s) && WorkersOk(s)
  }

  lemma InitOk(nBatchSize: nat, n: nat)
    ensures Inv(Init(nBatchSize, n)) && IsIdle(Init(nBatchSize, n))
  {
    SumZero(n + 1, InFlight);
    SumZero(n + 1, Registered);
    SumZero(n + 1, Idle);
  }

  // ---------- every step keeps it ----------

  lemma SumsUpdate(ts: seq<Thread>, i: nat, t: Thread)
    requires i < |ts|
    ensures Sum(ts[i := t], InFlight) == Sum(ts, InFlight) - InFlight(ts[i]) + InFlight(t)
    ensures Sum(ts[i := t], Registered) == Sum(ts, Registered) - Registered(ts[i]) + Registered(t)
    ensures Sum(ts[i := t], Idle) == Sum(ts, Idle) - Idle(ts[i]) + Idle(t)
  {
    SumUpdate(ts, i, t, InFlight);
    SumUpdate(ts, i, t, Registered);
    SumUpdate(ts, i, t, Idle);
  }

  ghost predicate AnyFailing(ts: seq<Thread>) {
    exists i :: 0 <= i < |ts| && Failing(ts[i])
  }

  ghost predicate OtherFailing(ts: seq<Thread>, i: nat) {
    exists j :: 0 <= j < |ts| && j != i && Failing(ts[j])
  }

  lemma FailingSplit(ts: seq<Thread>, i: nat, t: Thread)
    requires i < |ts|
    ensures AnyFailing(ts) <==> Failing(ts[i]) || OtherFailing(ts, i)
    ensures AnyFailing(ts[i := t]) <==> Failing(t) || OtherFailing(ts, i)
  {
    var us := ts[i := t];
    if Failing(t) { assert Failing(us[i]); }
    if OtherFailing(ts, i) {
      var j :| 0 <= j < |ts| && j != i && Failing(ts[j]);
      assert Failing(us[j]);
    }
    if AnyFailing(us) {
      var j :| 0 <= j < |us| && Failing(us[j]);
      if j != i { assert Failing(ts[j]); }
    }
  }

  lemma QuietWhenDone(s: State)
    requires Inv(s) && s.nTodo == 0
    ensures s.queue == [] && s.nTotal == s.nIdle + Sum(s.threads, Held)
    ensures forall i :: 0 <= i < |s.threads| ==> !Failing(s.threads[i]) && InFlight(s.threads[i]) == 0
  {
    SumParts(s.threads, InFlight);
    forall i | 0 <= i < |s.threads|
      ensures !Failing(s.threads[i]) && InFlight(s.threads[i]) == 0
    {
      assert ThreadOk(s.threads[i]) && InFlight(s.threads[i]) <= 0;
    }
    SumSplit(s.threads);
  }

  function Held(t: Thread): int { if t.Holding? then 1 else 0 }

  lemma {:induction false} SumSplit(ts: seq<Thread>)
    requires forall i :: 0 <= i < |ts| ==> InFlight(ts[i]) == 0
    ensures Sum(ts, Registered) == Sum(ts, Idle) + Sum(ts, Held)
  {
    if ts != [] { SumSplit(ts[..|ts| - 1]); }
  }

  lemma AccountKeepsInv(s: State, i: nat)
    requires Inv(s) && i < |s.threads| && (s.threads[i].AtLock? || s.threads[i].Woken?)
    ensures Inv(Account(s, i)) && Account(s, i).threads[i].Holding?
    ensures Account(s, i).round == s.round && Account(s, i).queue == s.queue
  {
    hide Sum;
    var ts := s.threads[i := Holding];
    var s' := Account(s, i);
    SumsUpdate(s.threads, i, Holding);
    SumsUpdate(ts, 0, Wake(ts[0]));
    FailingSplit(s.threads, i, Holding);
    FailingSplit(ts, 0, Wake(ts[0]));
    assert ThreadOk(s.threads[i]);
    SumParts(s.threads, InFlight);
    assert AnyFailing(s'.threads) <==> OtherFailing(s.threads, i);
    assert Failed(s') <==> Failed(s);
    if i > 0 {
      assert Active(s'.threads[i]);
    } else {
      forall j | 1 <= j < |s.threads|
        ensures s'.threads[j] == s.threads[j]
      { }
    }
  }

  lemma PoppedHas(queue: seq<bool>, n: nat)
    requires n <= |queue|
    ensures false in queue <==> false in queue[..|queue| - n] || false in Popped(queue, n)
  {
    var p := Popped(queue, n);
    forall k | |queue| - n <= k < |queue|
      ensures queue[k] == p[|queue| - 1 - k]
    { }
    forall k | 0 <= k < n
      ensures p[k] == queue[|queue| - 1 - k]
    { }
  }

  lemma ProceedKeepsInv(s: State, i: nat)
    requires Inv(s) && i < |s.threads| && s.threads[i].Holding?
    ensures Inv(Proceed(s, i))
  {
    var s' := Proceed(s, i);
    SumsUpdate(s.threads, i, s'.threads[i]);
    FailingSplit(s.threads, i, s'.threads[i]);
    SumParts(s.threads, InFlight);
    if s.queue == [] {
      if i == 0 && s.nTodo == 0 {
        QuietWhenDone(s);
        assert !AnyFailing(s.threads);
      }
    } else {
      var n := BatchSize(s);
      PoppedHas(s.queue, n);
      var t := s'.threads[i];
      assert t.batch[0..] == t.batch;
      assert Failing(t) <==> !s.fAllOk || false in Popped(s.queue, n);
      if i > 0 {
        assert Active(s'.threads[i]);
      } else {
        forall j | 1 <= j < |s.threads|
          ensures s'.threads[j] == s.threads[j]
        { }
      }
    }
  }

  lemma ExecKeepsInv(s: State, i: nat)
    requires Inv(s) && Enabled(s, Exec(i))
    ensures Inv(Apply(s, Exec(i)))
  {
    var t := s.threads[i];
    var s' := Apply(s, Exec(i));
    assert ThreadOk(t);
    ExecSame(s, i);
    hide Apply, Sum, Failing, ThreadOk, InFlight, Registered, Idle, WorkersOk;
    SumsUpdate(s.threads, i, s'.threads[i]);
    FailingSplit(s.threads, i, s'.threads[i]);
    WorkersKept(s, s', i);
  }

  /** To the others an evaluation changes nothing. */
  lemma ExecSame(s: State, i: nat)
    requires Enabled(s, Exec(i)) && ThreadOk(s.threads[i])
    ensures var t, t' := s.threads[i], Apply(s, Exec(i)).threads[i];
            && Apply(s, Exec(i)) == s.(threads := s.threads[i := t'])
            && ThreadOk(t') && Active(t') && !t'.Waiting? && !t'.Holding? && !t'.Outside?
            && InFlight(t') == InFlight(t) && Registered(t') == Registered(t) && Idle(t') == Idle(t)
            && (Failing(t') <==> Failing(t))
  {
    var t := s.threads[i];
    if t.done < |t.batch| {
      assert t.batch[t.done..] == [t.batch[t.done]] + t.batch[t.done + 1..];
    }
  }

  /** If one active thread stays active and the queue does not change, blocked workers are not forgotten. */
  lemma WorkersKept(s: State, s': State, i: nat)
    requires |s.threads| > 0 && WorkersOk(s) && i < |s.threads| && s'.queue == s.queue
    requires |s'.threads| == |s.threads| && forall j :: 0 <= j < |s.threads| && j != i ==> s'.threads[j] == s.threads[j]
    requires Active(s'.threads[i])
    ensures WorkersOk(s')
  {
    if i == 0 {
      forall j | 1 <= j < |s.threads|
        ensures s'.threads[j] == s.threads[j]
      { }
    } else {
      assert Active(s'.threads[i]);
    }
  }

  lemma WakeOneKeepsInv(s: State, i: nat, t: Thread)
    requires Inv(s) && i < |s.threads|
    requires (s.threads[i].Waiting? && t == Woken) || (s.threads[i].Outside? && t == AtLock(0, true))
    ensures Inv(s.(threads := s.threads[i := t]))
  {
    SumsUpdate(s.threads, i, t);
    FailingSplit(s.threads, i, t);
    WorkersKept(s, s.(threads := s.threads[i := t]), i);
  }

  lemma WakeWorkersSame(s: State)
    requires Inv(s)
    ensures var ts := WakeWorkers(s.threads);
            && (forall i :: 0 <= i < |ts| ==> ThreadOk(ts[i]))
            && Sum(ts, InFlight) == Sum(s.threads, InFlight)
            && Sum(ts, Registered) == Sum(s.threads, Registered)
            && Sum(ts, Idle) == Sum(s.threads, Idle)
            && (AnyFailing(ts) <==> AnyFailing(s.threads))
  {
    var ts := WakeWorkers(s.threads);
    assert forall i :: 0 <= i < |ts| ==> ts[i] == s.threads[i] || (ts[i] == Woken && s.threads[i] == Waiting);
    SumSame(ts, s.threads, InFlight);
    SumSame(ts, s.threads, Registered);
    SumSame(ts, s.threads, Idle);
    forall i | 0 <= i < |ts|
      ensures Failing(ts[i]) <==> Failing(s.threads[i]) && ThreadOk(ts[i])
    {
      assert ThreadOk(s.threads[i]);
    }
  }

  lemma AddKeepsInv(s: State, checks: seq<bool>, w: nat)
    requires Inv(s) && Enabled(s, Add(checks, w))
    ensures Inv(Apply(s, Add(checks, w)))
  {
    var s' := Apply(s, Add(checks, w));
    assert s'.threads[0] == s.threads[0];
    if |checks| == 1 && w > 0 {
      SumsUpdate(s.threads, w, Woken);
      FailingSplit(s.threads, w, Woken);
      assert Active(s'.threads[w]);
    } else if |checks| > 1 {
      WakeWorkersSame(s);
      assert forall j :: 1 <= j < |s'.threads| ==> !s'.threads[j].Waiting?;
    } else if checks == [] {
      assert s.queue + checks == s.queue;
    }
    assert AnyFailing(s'.threads) <==> AnyFailing(s.threads);
    assert false in s'.queue <==> false in s.queue || false in checks;
    assert false in s'.round <==> false in s.round || false in checks;
  }

  lemma StepKeepsInv(s: State, step: Step)
    requires Inv(s) && Enabled(s, step)
    ensures Inv(Apply(s, step))
  {
    match step {
      case Add(checks, w) => AddKeepsInv(s, checks, w);
      case Enter(i) => WakeOneKeepsInv(s, i, AtLock(0, true));
      case Lock(i) =>
        AccountKeepsInv(s, i);
        ProceedKeepsInv(Account(s, i), i);
      case Exec(i) => ExecKeepsInv(s, i);
      case Spurious(i) => WakeOneKeepsInv(s, i, Woken);
    }
  }

  // ---------- whole runs ----------

  /** `steps` lead through `states`, from a fresh queue with `n` workers. */
  ghost predicate Run(nBatchSize: nat, n: nat, states: seq<State>, steps: seq<Step>) {
    && |states| == |steps| + 1
    && states[0] == Init(nBatchSize, n)
    && forall k :: 0 <= k < |steps| ==> Enabled(states[k], steps[k]) && states[k + 1] == Apply(states[k], steps[k])
  }

  lemma {:induction false} RunKeepsInv(nBatchSize: nat, n: nat, states: seq<State>, steps: seq<Step>, k: nat)
    requires Run(nBatchSize, n, states, steps) && k <= |steps|
    ensures Inv(states[k]) && forall i :: 0 <= i < |states[k].threads| ==> !states[k].threads[i].Holding?
  {
    if k == 0 {
      InitOk(nBatchSize, n);
    } else {
      RunKeepsInv(nBatchSize, n, states, steps, k - 1);
      StepKeepsInv(states[k - 1], steps[k - 1]);
      NoneHolding(states[k - 1], steps[k - 1]);
      hide Inv, Apply;
    }
  }

  lemma NoneHolding(s: State, step: Step)
    requires Enabled(s, step) && forall i :: 0 <= i < |s.threads| ==> !s.threads[i].Holding?
    ensures forall i :: 0 <= i < |Apply(s, step).threads| ==> !Apply(s, step).threads[i].Holding?
  { }

  /** In every interleaving: outstanding checks are exactly those queued or taken, so the count never goes below 0. */
  lemma TodoIsExact(nBatchSize: nat, n: nat, states: seq<State>, steps: seq<Step>, k: nat)
    requires Run(nBatchSize, n, states, steps) && k <= |steps|
    ensures states[k].nTodo == |states[k].queue| + Sum(states[k].threads, InFlight) >= 0
    ensures 0 <= states[k].nIdle <= states[k].nTotal
  {
    RunKeepsInv(nBatchSize, n, states, steps, k);
    SumParts(states[k].threads, InFlight);
    SumParts(states[k].threads, Idle);
    SumLe(states[k].threads);
  }

  lemma {:induction false} SumLe(ts: seq<Thread>)
    ensures Sum(ts, Idle) <= Sum(ts, Registered)
  {
    if ts != [] { SumLe(ts[..|ts| - 1]); }
  }

  /** A batch takes at least one check and at most what is queued, off the back of the queue, losing none. */
  lemma BatchFits(nBatchSize: nat, n: nat, states: seq<State>, steps: seq<Step>, k: nat, i: nat)
    requires Run(nBatchSize, n, states, steps) && k < |steps| && steps[k] == Lock(i)
    requires states[k + 1].threads[i].Working?
    ensures var taken := states[k + 1].threads[i].batch;
            && 1 <= |taken| <= |states[k].queue| && |taken| <= Max(1, nBatchSize)
            && states[k + 1].queue == states[k].queue[..|states[k].queue| - |taken|]
            && multiset(states[k + 1].queue) + multiset(taken) == multiset(states[k].queue)
  {
    RunKeepsInv(nBatchSize, n, states, steps, k);
    SameBatchSize(nBatchSize, n, states, steps, k);
    var s := Account(states[k], i);
    var m := BatchSize(s);
    PoppedMultiset(s.queue, m);
  }

  /** A batch is the largest one, up to the limit, that leaves as many checks for every other thread that is at work or
      could be, or a single check. */
  lemma BatchIsShare(nBatchSize: nat, n: nat, states: seq<State>, steps: seq<Step>, k: nat, i: nat)
    requires Run(nBatchSize, n, states, steps) && k < |steps| && steps[k] == Lock(i)
    requires states[k + 1].threads[i].Working?
    ensures var taken, helpers := |states[k + 1].threads[i].batch|, states[k + 1].nTotal + states[k + 1].nIdle + 1;
      && helpers >= 1 && (taken > 1 ==> taken * helpers <= |states[k].queue| && taken <= nBatchSize)
      && (taken >= nBatchSize || (taken + 1) * helpers > |states[k].queue|)
  {
    RunKeepsInv(nBatchSize, n, states, steps, k);
    SameBatchSize(nBatchSize, n, states, steps, k);
    HelpersCount(states[k], i);
    hide Inv, Run;
    var s := Account(states[k], i);
    assert states[k + 1] == Proceed(s, i) && |states[k + 1].threads[i].batch| == BatchSize(s);
    ShareIs(|s.queue|, s.nTotal + s.nIdle + 1, nBatchSize);
  }

  lemma HelpersCount(s: State, i: nat)
    requires Inv(s) && Enabled(s, Lock(i))
    ensures Account(s, i).nTotal + Account(s, i).nIdle + 1 >= 1
  {
    SumParts(s.threads, Registered);
    SumParts(s.threads, Idle);
  }

  lemma ShareIs(q: nat, d: int, limit: nat)
    requires d >= 1
    ensures var n := Max(1, Min(limit, q / d)); (n > 1 ==> n * d <= q) && (n >= limit || (n + 1) * d > q)
  {
    var share := q / d;
    assert share * d <= q < (share + 1) * d;
    var n := Max(1, Min(limit, share));
    if n > 1 { MulLe(n, share, d); }
    if n < limit { MulLe(share, n, d); }
  }

  lemma MulLe(a: int, b: int, d: int)
    requires a <= b && d >= 0
    ensures a * d <= b * d
  { }

  lemma {:induction false} SameBatchSize(nBatchSize: nat, n: nat, states: seq<State>, steps: seq<Step>, k: nat)
    requires Run(nBatchSize, n, states, steps) && k <= |steps|
    ensures states[k].nBatchSize == nBatchSize
  {
    if k > 0 { SameBatchSize(nBatchSize, n, states, steps, k - 1); }
  }

  lemma {:induction false} PoppedMultiset(queue: seq<bool>, n: nat)
    requires n <= |queue|
    ensures multiset(queue[..|queue| - n]) + multiset(Popped(queue, n)) == multiset(queue)
  {
    if n == 0 {
      assert queue[..|queue|] == queue && Popped(queue, 0) == [];
    } else {
      PoppedMultiset(queue, n - 1);
      var m := |queue| - n;
      assert queue[..m + 1] == queue[..m] + [queue[m]];
      assert Popped(queue, n) == Popped(queue, n - 1) + [queue[m]];
    }
  }

  /** Whenever the master's wait returns, in any interleaving and in any round, the answer is true exactly when
      every check added since the previous wait is true; and the queue is idle again. */
  lemma WaitIsRight(nBatchSize: nat, n: nat, states: seq<State>, steps: seq<Step>, k: nat)
    requires Run(nBatchSize, n, states, steps) && k < |steps|
    requires Returns(states[k], steps[k])
    ensures Answer(states[k]) <==> forall c :: c in states[k].round ==> c
    ensures IsIdle(states[k + 1]) && states[k + 1].round == []
  {
    RunKeepsInv(nBatchSize, n, states, steps, k);
    RunKeepsInv(nBatchSize, n, states, steps, k + 1);
    var s := states[k];
    AccountKeepsInv(s, 0);
    var s1 := Account(s, 0);
    assert s1.queue == [] && s1.nTodo == 0;
    QuietWhenDone(s1);
    assert Failed(s1) <==> !s1.fAllOk;
    IdleBetweenRounds(nBatchSize, n, states, steps, k + 1);
  }

  /** Between rounds the queue is idle at every moment, whatever the workers are doing: a new controller's
      assertion never fails. */
  lemma IdleBetweenRounds(nBatchSize: nat, n: nat, states: seq<State>, steps: seq<Step>, k: nat)
    requires Run(nBatchSize, n, states, steps) && k <= |steps|
    requires states[k].round == []
    ensures IsIdle(states[k])
  {
    RunKeepsInv(nBatchSize, n, states, steps, k);
    var s := states[k];
    SumParts(s.threads, InFlight);
    QuietWhenDone(s);
    NoneHeld(s.threads);
    assert s.fAllOk || Failed(s);
  }

  lemma {:induction false} NoneHeld(ts: seq<Thread>)
    requires forall i :: 0 <= i < |ts| ==> !ts[i].Holding?
    ensures Sum(ts, Held) == 0
  {
    if ts != [] { NoneHeld(ts[..|ts| - 1]); }
  }

  /** Thread i is about to report all that is still outstanding. */
  predicate IsLastReport(s: State, i: nat)
    requires i < |s.threads|
  {
    s.threads[i].AtLock? && s.threads[i].nNow == s.nTodo
  }

  /** No lost wake-up for the master: while it is blocked, some worker holds an unreported batch, and
      reporting the last one wakes it. */
  lemma MasterNotForgotten(nBatchSize: nat, n: nat, states: seq<State>, steps: seq<Step>, k: nat)
    requires Run(nBatchSize, n, states, steps) && k <= |steps|
    requires |states[k].threads| > 0 && states[k].threads[0].Waiting?
    ensures states[k].queue == []
    ensures exists i :: 1 <= i < |states[k].threads| && InFlight(states[k].threads[i]) > 0
    ensures forall i :: 1 <= i < |states[k].threads| && IsLastReport(states[k], i) ==>
      Enabled(states[k], Lock(i)) && Apply(states[k], Lock(i)).threads[0] == Woken
  {
    RunKeepsInv(nBatchSize, n, states, steps, k);
    var s := states[k];
    SumParts(s.threads, InFlight);
    var i :| 0 <= i < |s.threads| && InFlight(s.threads[i]) > 0;
    assert i != 0;
  }

  /** No lost wake-up for the workers: with work queued and a worker blocked, another worker is on its way to it. */
  lemma WorkersNotForgotten(nBatchSize: nat, n: nat, states: seq<State>, steps: seq<Step>, k: nat, w: nat)
    requires Run(nBatchSize, n, states, steps) && k <= |steps|
    requires states[k].queue != [] && 1 <= w < |states[k].threads| && states[k].threads[w].Waiting?
    ensures exists i :: 1 <= i < |states[k].threads| && Active(states[k].threads[i])
  {
    RunKeepsInv(nBatchSize, n, states, steps, k);
  }

  // ---------- every wait ends ----------

  /** How much a thread still has to do before it blocks or leaves. */
  function Weight(t: Thread): int {
    match t
    case Woken => 1
    case AtLock(nNow, _) => if nNow == 0 then 1 else 3
    case Working(batch, done, _) => if done <= |batch| then |batch| - done + 4 else 4
    case _ => 0
  }

  function Measure(s: State): int { 5 * |s.queue| + Sum(s.threads, Weight) }

  /** Every section under the mutex and every evaluation brings the wait closer to its end. */
  lemma StepDecreases(s: State, step: Step)
    requires Inv(s) && Enabled(s, step) && (step.Lock? || step.Exec?)
    ensures Measure(Apply(s, step)) < Measure(s)
  {
    var i := step.i;
    if step.Exec? {
      SumUpdate(s.threads, i, Apply(s, step).threads[i], Weight);
    } else {
      var ts := s.threads[i := Holding];
      var s1 := Account(s, i);
      AccountKeepsInv(s, i);
      hide Inv;
      SumUpdate(s.threads, i, Holding, Weight);
      SumUpdate(ts, 0, Wake(ts[0]), Weight);
      SumUpdate(s1.threads, i, Proceed(s1, i).threads[i], Weight);
    }
  }

  /** While the master is in its wait, some thread can take such a step. */
  lemma WaitCanGoOn(nBatchSize: nat, n: nat, states: seq<State>, steps: seq<Step>, k: nat)
    requires Run(nBatchSize, n, states, steps) && k <= |steps|
    requires |states[k].threads| > 0 && !states[k].threads[0].Outside?
    ensures exists step :: Enabled(states[k], step) && (step.Lock? || step.Exec?)
  {
    RunKeepsInv(nBatchSize, n, states, steps, k);
    var s := states[k];
    var i := 0;
    if s.threads[0].Waiting? {
      MasterNotForgotten(nBatchSize, n, states, steps, k);
      i :| 1 <= i < |s.threads| && InFlight(s.threads[i]) > 0;
    }
    assert ThreadOk(s.threads[i]);
    assert Enabled(s, Lock(i)) || Enabled(s, Exec(i));
  }

  /** What a step that does not bring the end closer may add to what is to be done: a thread that starts or wakes up
      unasked one, new checks five each and one for every thread they may wake. */
  function Given(s: State, step: Step): nat {
    match step
    case Add(checks, _) => 5 * |checks| + |s.threads|
    case Enter(_) => 1
    case Spurious(_) => 1
    case _ => 0
  }

  function AllGiven(states: seq<State>, steps: seq<Step>, k: nat, j: nat): nat
    requires k <= j <= |steps| <= |states|
    decreases j - k
  {
    if k == j then 0 else Given(states[k], steps[k]) + AllGiven(states, steps, k + 1, j)
  }

  /** How many of the steps bring the end closer. */
  function Made(steps: seq<Step>, k: nat, j: nat): nat
    requires k <= j <= |steps|
    decreases j - k
  {
    if k == j then 0 else (if steps[k].Lock? || steps[k].Exec? then 1 else 0) + Made(steps, k + 1, j)
  }

  lemma StepIncreases(s: State, step: Step)
    requires Enabled(s, step) && !step.Lock? && !step.Exec?
    ensures Measure(Apply(s, step)) <= Measure(s) + Given(s, step)
  {
    match step {
      case Add(checks, w) =>
        if |checks| == 1 && w > 0 {
          SumUpdate(s.threads, w, Woken, Weight);
        } else if |checks| > 1 {
          SumOneMore(s.threads, WakeWorkers(s.threads), Weight);
        }
      case Enter(i) => SumUpdate(s.threads, i, AtLock(0, true), Weight);
      case Spurious(i) => SumUpdate(s.threads, i, Woken, Weight);
    }
  }

  lemma {:induction false} SumOneMore(ts: seq<Thread>, us: seq<Thread>, f: Thread -> int)
    requires |ts| == |us| && forall i :: 0 <= i < |ts| ==> f(us[i]) <= f(ts[i]) + 1
    ensures Sum(us, f) <= Sum(ts, f) + |ts|
  {
    if ts != [] { SumOneMore(ts[..|ts| - 1], us[..|us| - 1], f); }
  }

  /** In every run, no more steps bring the end closer than its measure and what the other steps added to it. */
  lemma {:induction false} WaitEnds(nBatchSize: nat, n: nat, states: seq<State>, steps: seq<Step>, k: nat, j: nat)
    requires Run(nBatchSize, n, states, steps) && k <= j <= |steps|
    ensures Made(steps, k, j) <= Measure(states[k]) + AllGiven(states, steps, k, j)
    decreases j - k
  {
    RunKeepsInv(nBatchSize, n, states, steps, k);
    hide Inv, Apply;
    SumParts(states[k].threads, Weight);
    if k < j {
      if steps[k].Lock? || steps[k].Exec? {
        StepDecreases(states[k], steps[k]);
      } else {
        StepIncreases(states[k], steps[k]);
      }
      WaitEnds(nBatchSize, n, states, steps, k + 1, j);
    }
  }

  /** While the master is in its wait nothing is added, so a wait with e threads starting or waking up unasked takes at
      most its measure and e steps, and with WaitCanGoOn it comes to its return. */
  lemma {:induction false} OnlyEvents(nBatchSize: nat, n: nat, states: seq<State>, steps: seq<Step>, k: nat, j: nat)
    requires Run(nBatchSize, n, states, steps) && k <= j <= |steps|
    requires forall l :: k <= l < j ==> |states[l].threads| > 0 && !states[l].threads[0].Outside?
    ensures AllGiven(states, steps, k, j) == (j - k) - Made(steps, k, j)
    decreases j - k
  {
    if k < j {
      assert Enabled(states[k], steps[k]) && !steps[k].Add?;
      OnlyEvents(nBatchSize, n, states, steps, k + 1, j);
    }
  }
}
