/** The background flush handshake: one work item, the instance mutex, a pending
    flag and a binary semaphore, shared by any number of threads. */
module TsFlush {

  /** Where a call of flush_sync stands. goal is what each stream had been given when
      the call was made; since counts the drains before its asynchronous step. */
  datatype Pc =
    | Idle
    | Emptied(goal: seq<nat>)
    | Submitted(goal: seq<nat>, since: nat)
    | Waiting(goal: seq<nat>, since: nat)
    | Woken(goal: seq<nat>, since: nat)
    | Returned(outcome: Outcome, goal: seq<nat>, since: nat)

  datatype Outcome = Flushed | StillBusy | TimedOut

  /** The work handler between being taken off the queue and releasing the lock. */
  datatype Phase = Resting | Dequeued | Locked | Drained | Lowered | Given

  /** total and stored count, for each stream, the samples accepted and the samples
      written to storage. */
  datatype State = State(
    pending: bool, queued: bool, handler: Phase, token: bool,
    total: seq<nat>, stored: seq<nat>, drains: nat, threads: seq<Pc>)
  {
    predicate LockFree() {
      handler == Resting || handler == Dequeued
    }
  }

  /** Atomic actions: what one thread, the handler, or an appender does between two
      points where others can run. */
  datatype Action =
    | CallSync(t: nat)
    | Async(t: nat)
    | CheckPending(t: nat)
    | TakeToken(t: nat)
    | TimeOut(t: nat)
    | CheckAgain(t: nat)
    | AsyncOnly
    | Append(stream: nat, flushFirst: bool)
    | Dequeue | LockDb | DrainAll | LowerFlag | GiveToken | UnlockDb

  predicate Enabled(s: State, a: Action) {
    match a
    case CallSync(t) => t < |s.threads| && (s.threads[t].Idle? || s.threads[t].Returned?)
    case Async(t) => t < |s.threads| && s.threads[t].Emptied? && s.LockFree()
    case CheckPending(t) => t < |s.threads| && s.threads[t].Submitted?
    case TakeToken(t) => t < |s.threads| && s.threads[t].Waiting? && s.token
    case TimeOut(t) => t < |s.threads| && s.threads[t].Waiting?
    case CheckAgain(t) => t < |s.threads| && s.threads[t].Woken?
    case AsyncOnly => s.LockFree()
    case Append(k, _) => k < |s.total| == |s.stored| && s.LockFree()
    case Dequeue => s.queued && s.handler == Resting
    case LockDb => s.handler == Dequeued
    case DrainAll => s.handler == Locked
    case LowerFlag => s.handler == Drained
    case GiveToken => s.handler == Lowered
    case UnlockDb => s.handler == Given
  }

  /** Submit the work item unless a flush is already in flight. */
  function Submit(s: State): State {
    if s.pending then s else s.(pending := true, queued := true)
  }

  function Apply(s: State, a: Action): State
    requires Enabled(s, a)
  {
    match a
    case CallSync(t) => s.(token := false, threads := s.threads[t := Emptied(s.total)])
    case Async(t) => Submit(s).(threads := s.threads[t := Submitted(s.threads[t].goal, s.drains)])
    case CheckPending(t) =>
      var p := s.threads[t];
      s.(threads := s.threads[t := if s.pending then Waiting(p.goal, p.since) else Returned(Flushed, p.goal, p.since)])
    case TakeToken(t) =>
      s.(token := false, threads := s.threads[t := Woken(s.threads[t].goal, s.threads[t].since)])
    case TimeOut(t) =>
      s.(threads := s.threads[t := Returned(TimedOut, s.threads[t].goal, s.threads[t].since)])
    case CheckAgain(t) =>
      var p := s.threads[t];
      s.(threads := s.threads[t := Returned(if s.pending then StillBusy else Flushed, p.goal, p.since)])
    case AsyncOnly => Submit(s)
    case Append(k, flushFirst) =>
      s.(total := s.total[k := s.total[k] + 1],
         stored := if flushFirst then s.stored[k := s.total[k]] else s.stored)
    case Dequeue => s.(queued := false, handler := Dequeued)
    case LockDb => s.(handler := Locked)
    case DrainAll => s.(handler := Drained, stored := s.total, drains := s.drains + 1)
    case LowerFlag => s.(handler := Lowered, pending := false)
    case GiveToken => s.(handler := Given, token := true)
    case UnlockDb => s.(handler := Resting)
  }

  function Init(streams: nat, threads: nat): State {
    State(false, false, Resting, false, seq(streams, _ => 0), seq(streams, _ => 0), 0, seq(threads, _ => Idle))
  }

  /** The states of an interleaving, in order: each follows from the one before by an
      enabled action. */
  ghost predicate IsRun(run: seq<State>, actions: seq<Action>, streams: nat, threads: nat) {
    && |run| == |actions| + 1 && run[0] == Init(streams, threads)
    && forall i :: 0 <= i < |actions| ==> Enabled(run[i], actions[i]) && run[i + 1] == Apply(run[i], actions[i])
  }

  predicate AtLeast(a: seq<nat>, b: seq<nat>) {
    |a| == |b| && forall i :: 0 <= i < |a| ==> a[i] >= b[i]
  }

  /** A flush is pending exactly while its work item is queued or its handler has not
      yet lowered the flag; whoever holds the lock after draining sees every sample
      stored; and a caller past its asynchronous step who finds the flag low has had
      a whole drain since. */
  predicate Inv(s: State) {
    && (s.pending <==> s.queued || s.handler in {Dequeued, Locked, Drained})
    && !(s.queued && s.handler in {Dequeued, Locked, Drained})
    && AtLeast(s.total, s.stored)
    && (s.handler in {Drained, Lowered, Given} ==> s.stored == s.total)
    && (forall t :: 0 <= t < |s.threads| ==> ThreadOk(s, s.threads[t]))
  }

  predicate ThreadOk(s: State, p: Pc) {
    match p
    case Idle => true
    case Emptied(goal) => AtLeast(s.total, goal)
    case Submitted(goal, since) => InFlight(s, goal, since)
    case Waiting(goal, since) => InFlight(s, goal, since)
    case Woken(goal, since) => InFlight(s, goal, since)
    case Returned(out, goal, since) => out == Flushed ==> AtLeast(s.stored, goal) && s.drains > since
  }

  predicate InFlight(s: State, goal: seq<nat>, since: nat) {
    && AtLeast(s.total, goal) && since <= s.drains
    && (s.handler in {Drained} ==> since < s.drains)
    && (!s.pending ==> AtLeast(s.stored, goal) && since < s.drains)
  }

  /** What every step does for the threads that do not move in it. */
  predicate Onward(s: State, s': State) {
    && AtLeast(s'.total, s.total) && AtLeast(s'.stored, s.stored) && s.drains <= s'.drains
    && (s'.handler == Drained ==> s.handler == Drained || s.drains < s'.drains)
    && (!s'.pending ==> !s.pending || (s.handler == Drained && s'.stored == s'.total))
  }

  lemma AtLeastTrans(a: seq<nat>, b: seq<nat>, c: seq<nat>)
    ensures AtLeast(a, a)
    ensures AtLeast(a, b) && AtLeast(b, c) ==> AtLeast(a, c)
  {
  }

  lemma ThreadKept(s: State, s': State, p: Pc)
    requires ThreadOk(s, p) && Onward(s, s')
    ensures ThreadOk(s', p)
  {
    hide AtLeast;
    if !p.Idle? {
      AtLeastTrans(s'.total, s.total, p.goal);
      AtLeastTrans(s'.stored, s.stored, p.goal);
    }
  }

  lemma StepOnward(s: State, a: Action)
    requires Inv(s) && Enabled(s, a)
    ensures Onward(s, Apply(s, a))
    ensures AtLeast(Apply(s, a).total, Apply(s, a).stored)
  {
    hide ThreadOk;
  }

  lemma StepKeepsInv(s: State, a: Action)
    requires Inv(s) && Enabled(s, a)
    ensures Inv(Apply(s, a))
    ensures AtLeast(Apply(s, a).stored, s.stored)
  {
    hide AtLeast;
    var s' := Apply(s, a);
    StepOnward(s, a);
    AtLeastTrans(s.total, s.total, s.total);
    forall t | 0 <= t < |s'.threads|
      ensures ThreadOk(s', s'.threads[t])
    {
      ThreadKept(s, s', s.threads[t]);
    }
  }

  lemma {:induction false} RunKeepsInv(run: seq<State>, actions: seq<Action>, streams: nat, threads: nat, i: nat)
    requires IsRun(run, actions, streams, threads) && i < |run|
    ensures Inv(run[i]) && |run[i].threads| == threads
    decreases i
  {
    if i > 0 {
      RunKeepsInv(run, actions, streams, threads, i - 1);
      assert Enabled(run[i - 1], actions[i - 1]) && run[i - 1 + 1] == Apply(run[i - 1], actions[i - 1]);
      StepKeepsInv(run[i - 1], actions[i - 1]);
    }
  }

  /** For any number of threads and streams and any interleaving: while a flush is
      pending its work item is queued or its handler has yet to finish, so a pending
      flag is never left behind; and a flush_sync that returns success has had a full
      drain after its asynchronous step, so every sample accepted before the call is
      on storage. */
  lemma FlushSyncSafe(run: seq<State>, actions: seq<Action>, streams: nat, threads: nat, i: nat, t: nat)
    requires IsRun(run, actions, streams, threads) && i < |run| && t < threads
    ensures run[i].pending ==> run[i].queued || run[i].handler in {Dequeued, Locked, Drained}
    ensures |run[i].threads| == threads
    ensures var p := run[i].threads[t];
            p.Returned? && p.outcome == Flushed ==> AtLeast(run[i].stored, p.goal) && run[i].drains > p.since
  {
    RunKeepsInv(run, actions, streams, threads, i);
    assert ThreadOk(run[i], run[i].threads[t]);
  }

  /** In every run a drain stores all that was accepted, an append that flushes first
      stores what its stream had before it, and nothing else stores anything; only an
      append accepts a sample, and it accepts one. */
  lemma StorageExact(run: seq<State>, actions: seq<Action>, streams: nat, threads: nat, i: nat, k: nat)
    requires IsRun(run, actions, streams, threads) && i < |actions|
    requires k < |run[i].total| == |run[i].stored| && |run[i + 1].total| == |run[i + 1].stored| == |run[i].total|
    ensures run[i + 1].total[k]
         == run[i].total[k] + if actions[i] in [Append(k, true), Append(k, false)] then 1 else 0
    ensures run[i + 1].stored[k]
         == if actions[i] in [Append(k, true), DrainAll] then run[i].total[k] else run[i].stored[k]
  {
    assert Enabled(run[i], actions[i]) && run[i + 1] == Apply(run[i], actions[i]);
  }

  // What a call returns

  /** A call returns when it times out, when it checks again after waking, and before
      waiting when no flush is pending. It returns OK if and only if no flush is pending
      then and it is not a time-out; a caller that wakes is told BUSY if and only if
      one is pending. */
  lemma OutcomeExact(run: seq<State>, actions: seq<Action>, streams: nat, threads: nat, i: nat, t: nat)
    requires IsRun(run, actions, streams, threads) && i < |actions| && t < |run[i].threads|
    requires InCall(run[i].threads[t])
    ensures |run[i + 1].threads| == |run[i].threads|
    ensures run[i + 1].threads[t].Returned? <==>
            actions[i] in [TimeOut(t), CheckAgain(t)] || (actions[i] == CheckPending(t) && !run[i].pending)
    ensures run[i + 1].threads[t].Returned? ==>
            var out := run[i + 1].threads[t].outcome;
            && (out == Flushed <==> !run[i].pending && actions[i] != TimeOut(t))
            && (out == StillBusy <==> run[i].pending && run[i].threads[t].Woken?)
            && (out == TimedOut <==> actions[i] == TimeOut(t))
  {
    assert Enabled(run[i], actions[i]) && run[i + 1] == Apply(run[i], actions[i]);
  }

  /** Another thread submits a flush, or takes or clears the token. */
  predicate Interferes(a: Action, t: nat) {
    a.AsyncOnly? || ((a.Async? || a.TakeToken? || a.CallSync?) && a.t != t)
  }

  /** A call of thread t that nobody interferes with: the flush it submits gives it a
      token, and none is pending when it wakes. */
  predicate Lone(s: State, t: nat) {
    && t < |s.threads|
    && match s.threads[t]
       case Idle => false
       case Emptied(_) => !s.pending && s.handler == Resting && !s.token
       case Submitted(_, _) => Underway(s)
       case Waiting(_, _) => Underway(s)
       case Woken(_, _) => !s.pending
       case Returned(out, _, _) => out != StillBusy
  }

  predicate Underway(s: State) {
    || (s.pending && s.handler in {Resting, Dequeued, Locked, Drained} && !s.token)
    || (!s.pending && s.handler == Lowered && !s.token)
    || (!s.pending && (s.handler == Given || s.handler == Resting) && s.token)
  }

  lemma StepLone(s: State, a: Action, t: nat)
    requires Inv(s) && Enabled(s, a) && Lone(s, t) && !Interferes(a, t) && a != CallSync(t)
    ensures Lone(Apply(s, a), t)
    ensures var p, q := s.threads[t], Apply(s, a).threads[t];
            q.Returned? && q.outcome == TimedOut <==> (p.Returned? && p.outcome == TimedOut) || a == TimeOut(t)
  {
    hide AtLeast, ThreadOk;
  }

  lemma CallLone(s: State, a: Action, t: nat)
    requires Inv(s) && Enabled(s, a) && a == CallSync(t) && s.handler == Resting && !s.pending
    ensures Lone(Apply(s, a), t) && !Apply(s, a).threads[t].Returned?
  {
    hide AtLeast, ThreadOk;
  }

  lemma RunStep(run: seq<State>, actions: seq<Action>, streams: nat, threads: nat, k: nat)
    requires IsRun(run, actions, streams, threads) && k < |actions|
    ensures |run| == |actions| + 1 && Inv(run[k]) && Enabled(run[k], actions[k]) && run[k + 1] == Apply(run[k], actions[k])
  {
    RunKeepsInv(run, actions, streams, threads, k);
  }

  /** The call made at step b times out before step e. */
  predicate TimesOut(actions: seq<Action>, b: nat, e: nat, t: nat)
    requires e <= |actions|
  {
    exists k :: b < k < e && actions[k] == TimeOut(t)
  }

  /** A call that starts while the handler rests and no flush is pending, and that no
      other thread interferes with, returns OK whenever it returns without timing out. */
  lemma {:induction false} LoneCallReturns(run: seq<State>, actions: seq<Action>, streams: nat, threads: nat,
                                           b: nat, e: nat, t: nat)
    requires IsRun(run, actions, streams, threads) && b < e <= |actions|
    requires actions[b] == CallSync(t) && run[b].handler == Resting && !run[b].pending
    requires forall k :: b < k < e ==> !Interferes(actions[k], t) && actions[k] != CallSync(t)
    ensures e < |run| && Lone(run[e], t)
    ensures run[e].threads[t].Returned? ==>
              run[e].threads[t].outcome == if TimesOut(actions, b, e, t) then TimedOut else Flushed
    ensures !run[e].threads[t].Returned? ==> !TimesOut(actions, b, e, t)
    decreases e
  {
    var k := e - 1;
    RunStep(run, actions, streams, threads, k);
    hide IsRun, Inv, Enabled, Apply, Interferes;
    if b == k {
      CallLone(run[b], actions[b], t);
    } else {
      LoneCallReturns(run, actions, streams, threads, b, k, t);
      hide Lone;
      StepLone(run[k], actions[k], t);
      LoneOutcome(run[e], t);
    }
  }

  lemma LoneOutcome(s: State, t: nat)
    requires Lone(s, t)
    ensures t < |s.threads| && (s.threads[t].Returned? ==> s.threads[t].outcome != StillBusy)
  {
  }

  /** How many steps of the handler are left until a waiting lone caller has its token. */
  function Ahead(s: State): nat {
    if !s.pending then (if s.handler == Lowered then 1 else 0)
    else match s.handler
         case Drained => 2
         case Locked => 3
         case Dequeued => 4
         case _ => 5
  }

  /** Such a caller never waits in vain: either its token is there to be taken, or the
      handler can take a step, and every step it takes brings the token nearer. */
  lemma LoneProgress(s: State, t: nat)
    requires Inv(s) && Lone(s, t) && s.threads[t].Waiting?
    ensures Ahead(s) == 0 ==> Enabled(s, TakeToken(t))
    ensures Ahead(s) > 0 ==>
              exists a :: a in [Dequeue, LockDb, DrainAll, LowerFlag, GiveToken, UnlockDb] && Enabled(s, a)
    ensures forall a :: a in [Dequeue, LockDb, DrainAll, LowerFlag, GiveToken, UnlockDb] && Enabled(s, a) && Ahead(s) > 0 ==>
              Ahead(Apply(s, a)) < Ahead(s)
  {
    hide AtLeast, ThreadOk;
    var next := match s.handler
      case Resting => Dequeue
      case Dequeued => LockDb
      case Locked => DrainAll
      case Drained => LowerFlag
      case Lowered => GiveToken
      case Given => UnlockDb;
    assert Ahead(s) > 0 ==> Enabled(s, next);
  }

  // When the wait can be relied on to end

  /** Thread t waits for a token that nothing in flight will give. */
  predicate Stranded(s: State, t: nat) {
    t < |s.threads| && s.threads[t].Waiting? && !s.token && !s.pending && !s.queued && s.handler == Resting
  }

  /** A token is there, or the flush in flight will give one. */
  predicate Due(s: State) {
    s.pending || s.handler == Lowered || s.token
  }

  predicate Waits(s: State, t: nat) {
    t < |s.threads| && s.threads[t].Waiting?
  }

  predicate InCall(p: Pc) {
    !p.Idle? && !p.Returned?
  }

  /** At most one flush_sync call is under way. */
  predicate OneCall(s: State) {
    forall t, u :: 0 <= t < |s.threads| && 0 <= u < |s.threads| && InCall(s.threads[t]) && InCall(s.threads[u]) ==> t == u
  }

  predicate TokenComing(s: State) {
    forall t :: 0 <= t < |s.threads| && s.threads[t].Waiting? ==> Due(s)
  }

  /** Thread u takes the token while thread t waits for it: by waking, or by clearing a
      stale token when its own call starts. */
  predicate TakesFrom(s: State, a: Action, t: nat) {
    && t < |s.threads| && s.threads[t].Waiting?
    && (a.CallSync? || a.TakeToken?) && a.t != t
  }

  ghost predicate Disturbs(s: State, a: Action) {
    exists t :: TakesFrom(s, a, t)
  }

  lemma StepKeepsToken(s: State, a: Action)
    requires Inv(s) && TokenComing(s) && Enabled(s, a) && !Disturbs(s, a)
    ensures TokenComing(Apply(s, a))
  {
    var s' := Apply(s, a);
    forall t | 0 <= t < |s'.threads| && s'.threads[t].Waiting?
      ensures Due(s')
    {
      assert !TakesFrom(s, a, t);
    }
  }

  ghost predicate Undisturbed(run: seq<State>, actions: seq<Action>)
    requires |run| == |actions| + 1
  {
    forall i :: 0 <= i < |actions| ==> !Disturbs(run[i], actions[i])
  }

  /** As long as no thread takes the token another waits for, no waiting caller is ever
      stranded. */
  lemma {:induction false} UndisturbedServed(run: seq<State>, actions: seq<Action>, streams: nat, threads: nat, i: nat)
    requires IsRun(run, actions, streams, threads) && i < |run| && Undisturbed(run, actions)
    ensures TokenComing(run[i])
    ensures forall t :: !Stranded(run[i], t)
    decreases i
  {
    if i > 0 {
      var j := i - 1;
      UndisturbedServed(run, actions, streams, threads, j);
      RunKeepsInv(run, actions, streams, threads, j);
      assert Enabled(run[j], actions[j]) && run[j + 1] == Apply(run[j], actions[j]);
      StepKeepsToken(run[j], actions[j]);
    }
  }

  /** A new flush is submitted. */
  predicate Submits(s: State, a: Action) {
    (a.Async? || a.AsyncOnly?) && !s.pending
  }

  /** While thread t waits, the last token due is taken or cleared by another thread at
      step j, and no flush is submitted from there to step i. */
  ghost predicate LostAt(run: seq<State>, actions: seq<Action>, i: nat, t: nat, j: nat)
    requires |run| == |actions| + 1 && i < |run|
  {
    && j < i && (forall k :: j <= k <= i ==> Waits(run[k], t))
    && TakesFrom(run[j], actions[j], t) && !Due(run[j + 1])
    && forall k :: j < k < i ==> !Submits(run[k], actions[k])
  }

  /** What one step does to the token that a waiting thread is due. */
  lemma StepDue(s: State, a: Action, t: nat)
    requires Inv(s) && Enabled(s, a) && Waits(Apply(s, a), t)
    ensures !Waits(s, t) ==> Due(Apply(s, a))
    ensures Waits(s, t) && Due(s) && !Due(Apply(s, a)) ==> TakesFrom(s, a, t)
    ensures !Due(s) ==> (Due(Apply(s, a)) <==> Submits(s, a))
  {
  }

  lemma StepAt(run: seq<State>, actions: seq<Action>, streams: nat, threads: nat, k: nat, t: nat)
    requires IsRun(run, actions, streams, threads) && k < |actions| && Waits(run[k + 1], t)
    ensures !Waits(run[k], t) ==> Due(run[k + 1])
    ensures Waits(run[k], t) && Due(run[k]) && !Due(run[k + 1]) ==> TakesFrom(run[k], actions[k], t)
    ensures !Due(run[k]) ==> (Due(run[k + 1]) <==> Submits(run[k], actions[k]))
  {
    RunKeepsInv(run, actions, streams, threads, k);
    assert Enabled(run[k], actions[k]) && run[k + 1] == Apply(run[k], actions[k]);
    hide Inv, Enabled, Apply, Due, TakesFrom, Submits, IsRun;
    StepDue(run[k], actions[k], t);
  }

  lemma NoneAtFirst(run: seq<State>, actions: seq<Action>, streams: nat, threads: nat, t: nat)
    requires IsRun(run, actions, streams, threads)
    ensures |run| == |actions| + 1 && !Waits(run[0], t)
  {
  }

  lemma {:induction false} LostFrom(run: seq<State>, actions: seq<Action>, streams: nat, threads: nat, i: nat, t: nat)
    returns (j: nat)
    requires IsRun(run, actions, streams, threads) && i < |run| && Waits(run[i], t) && !Due(run[i])
    ensures LostAt(run, actions, i, t, j)
    decreases i
  {
    hide IsRun, Due, TakesFrom, Submits;
    j := 0;
    NoneAtFirst(run, actions, streams, threads, t);
    if i > 0 {
      StepAt(run, actions, streams, threads, i - 1, t);
      if Due(run[i - 1]) {
        j := i - 1;
      } else {
        j := LostFrom(run, actions, streams, threads, i - 1, t);
      }
    }
  }

  lemma {:induction false} LostStays(run: seq<State>, actions: seq<Action>, streams: nat, threads: nat, i: nat, t: nat,
                                     j: nat, k: nat)
    requires IsRun(run, actions, streams, threads) && |run| == |actions| + 1 && i < |run|
    requires LostAt(run, actions, i, t, j) && j < k <= i
    ensures !Due(run[k])
    decreases k
  {
    hide IsRun, Due, TakesFrom, Submits, Waits;
    if j + 1 < k {
      LostStays(run, actions, streams, threads, i, t, j, k - 1);
      assert Waits(run[k], t);
      StepAt(run, actions, streams, threads, k - 1, t);
    }
  }

  /** In every run, a caller is stranded at a step if and only if, while it waited,
      another thread took or cleared the last token due and no flush was submitted
      since, and the handler has come to rest. */
  lemma StrandedIffLost(run: seq<State>, actions: seq<Action>, streams: nat, threads: nat, i: nat, t: nat)
    requires IsRun(run, actions, streams, threads) && i < |run|
    ensures Stranded(run[i], t) <==> run[i].handler == Resting && exists j :: LostAt(run, actions, i, t, j)
  {
    RunKeepsInv(run, actions, streams, threads, i);
    StrandedIsLeft(run[i], t);
    hide Inv, IsRun;
    if Waits(run[i], t) && !Due(run[i]) {
      var j := LostFrom(run, actions, streams, threads, i, t);
    }
    if j :| LostAt(run, actions, i, t, j) {
      LostStays(run, actions, streams, threads, i, t, j, i);
    }
  }

  lemma StrandedIsLeft(s: State, t: nat)
    requires Inv(s)
    ensures Stranded(s, t) <==> Waits(s, t) && !Due(s) && s.handler == Resting
  {
  }

  /** As long as flush_sync calls do not overlap, a waiting caller is never stranded. */
  lemma LoneCallerServed(run: seq<State>, actions: seq<Action>, streams: nat, threads: nat, i: nat)
    requires IsRun(run, actions, streams, threads) && i < |run|
    requires forall k :: 0 <= k < |run| ==> OneCall(run[k])
    ensures Undisturbed(run, actions)
    ensures TokenComing(run[i]) && forall t :: !Stranded(run[i], t)
  {
    forall j | 0 <= j < |actions|
      ensures !Disturbs(run[j], actions[j])
    {
      assert Enabled(run[j], actions[j]) && run[j + 1] == Apply(run[j], actions[j]);
      assert OneCall(run[j]) && OneCall(run[j + 1]);
      AloneTakesNothing(run[j], actions[j]);
    }
    UndisturbedServed(run, actions, streams, threads, i);
  }

  lemma AloneTakesNothing(s: State, a: Action)
    requires Enabled(s, a) && OneCall(s) && OneCall(Apply(s, a))
    ensures !Disturbs(s, a)
  {
    if a.CallSync? || a.TakeToken? {
      forall t: nat | t < |s.threads| && s.threads[t].Waiting?
        ensures t == a.t
      {
        TakesOwn(s, a, t);
      }
    }
  }

  lemma TakesOwn(s: State, a: Action, t: nat)
    requires Enabled(s, a) && OneCall(s) && OneCall(Apply(s, a)) && (a.CallSync? || a.TakeToken?)
    requires t < |s.threads| && s.threads[t].Waiting?
    ensures t == a.t
  {
    var s' := Apply(s, a);
    if a.CallSync? {
      assert InCall(s'.threads[a.t]) && InCall(s'.threads[t]);
    } else {
      assert InCall(s.threads[a.t]) && InCall(s.threads[t]);
    }
  }

  /** s' follows from s by some interleaving. */
  ghost predicate Leads(s: State, s': State) {
    exists run, actions :: IsPath(run, actions) && run[0] == s && run[|run| - 1] == s'
  }

  ghost predicate IsPath(run: seq<State>, actions: seq<Action>) {
    && |run| == |actions| + 1
    && forall i :: 0 <= i < |actions| ==> Enabled(run[i], actions[i]) && run[i + 1] == Apply(run[i], actions[i])
  }

  lemma LeadsHere(s: State)
    ensures Leads(s, s)
  {
    assert IsPath([s], []) && [s][0] == s;
  }

  lemma LeadsOn(s: State, s': State, a: Action)
    requires Leads(s, s') && Enabled(s', a) && Inv(s')
    ensures Leads(s, Apply(s', a)) && Inv(Apply(s', a))
  {
    var run, actions :| IsPath(run, actions) && run[0] == s && run[|run| - 1] == s';
    var more := run + [Apply(s', a)];
    assert IsPath(more, actions + [a]) && more[0] == s && more[|more| - 1] == Apply(s', a);
    StepKeepsInv(s', a);
  }

  /** The handler can always finish what it is doing. */
  lemma Settle(s: State, from: State) returns (r: State)
    requires Leads(s, from) && Inv(from)
    ensures Leads(s, r) && Inv(r) && r.handler == Resting
    ensures r.threads == from.threads && r.queued == from.queued
    decreases match from.handler
              case Resting => 0
              case Given => 1
              case Lowered => 2
              case Drained => 3
              case Locked => 4
              case Dequeued => 5
  {
    hide Leads, Inv;
    if from.handler == Resting {
      r := from;
    } else {
      var a := match from.handler
        case Given => UnlockDb
        case Lowered => GiveToken
        case Drained => LowerFlag
        case Locked => DrainAll
        case _ => LockDb;
      LeadsOn(s, from, a);
      r := Settle(s, Apply(from, a));
    }
  }

  /** From any state the work in flight can finish while no thread moves. */
  lemma Quiet(s: State, from: State) returns (r: State)
    requires Leads(s, from) && Inv(from)
    ensures Leads(s, r) && Inv(r) && r.threads == from.threads
    ensures r.handler == Resting && !r.queued && !r.pending
  {
    hide Leads;
    r := Settle(s, from);
    if r.queued {
      LeadsOn(s, r, Dequeue);
      r := Settle(s, Apply(r, Dequeue));
    }
  }

  /** Two callers that wait at the same time: one of them can be stranded. */
  lemma WaitersStrand(s: State, from: State, t: nat, u: nat) returns (r: State)
    requires Leads(s, from) && Inv(from)
    requires t < |from.threads| && u < |from.threads| && t != u && from.threads[t].Waiting? && from.threads[u].Waiting?
    ensures Leads(s, r) && Stranded(r, t)
  {
    hide Leads, Inv;
    r := Quiet(s, from);
    if r.token {
      LeadsOn(s, r, TakeToken(u));
      r := Apply(r, TakeToken(u));
    }
  }

  /** A caller that waits, and another that starts a call: the one that waits can be
      stranded. */
  lemma CallStrands(s: State, from: State, t: nat, u: nat) returns (r: State)
    requires Leads(s, from) && Inv(from)
    requires t < |from.threads| && u < |from.threads| && t != u && from.threads[t].Waiting? && !InCall(from.threads[u])
    ensures Leads(s, r) && Stranded(r, t)
  {
    hide Leads, Inv;
    r := Quiet(s, from);
    LeadsOn(s, r, CallSync(u));
    r := Apply(r, CallSync(u));
  }

  /** From every state in which a thread waits, and wherever any other thread stands,
      some interleaving strands the one that waits. */
  lemma CompanyStrands(s: State, t: nat, u: nat) returns (r: State)
    requires Inv(s) && t < |s.threads| && u < |s.threads| && t != u && s.threads[t].Waiting?
    ensures Leads(s, r) && Stranded(r, t)
  {
    hide Leads, Inv;
    LeadsHere(s);
    var q := Quiet(s, s);
    match s.threads[u] {
      case Idle => r := CallStrands(s, q, t, u);
      case Returned(_, _, _) => r := CallStrands(s, q, t, u);
      case Waiting(_, _) => r := WaitersStrand(s, q, t, u);
      case Woken(_, _) =>
        LeadsOn(s, q, CheckAgain(u));
        r := CallStrands(s, Apply(q, CheckAgain(u)), t, u);
      case Submitted(_, _) =>
        LeadsOn(s, q, CheckPending(u));
        r := CallStrands(s, Apply(q, CheckPending(u)), t, u);
      case Emptied(_) =>
        LeadsOn(s, q, Async(u));
        var q' := Apply(q, Async(u));
        LeadsOn(s, q', CheckPending(u));
        r := WaitersStrand(s, Apply(q', CheckPending(u)), t, u);
    }
  }

  /** s is reached by some interleaving. */
  ghost predicate Reachable(s: State, streams: nat, threads: nat) {
    exists run, actions :: IsRun(run, actions, streams, threads) && run[|run| - 1] == s
  }

  lemma Reach(s: State, a: Action, streams: nat, threads: nat)
    requires Reachable(s, streams, threads) && Enabled(s, a)
    ensures Reachable(Apply(s, a), streams, threads)
  {
    var run, actions :| IsRun(run, actions, streams, threads) && run[|run| - 1] == s;
    assert IsRun(run + [Apply(s, a)], actions + [a], streams, threads);
  }

  /** What follows from a reachable state is reachable. */
  lemma ReachOn(s: State, r: State, streams: nat, threads: nat)
    requires Reachable(s, streams, threads) && Leads(s, r)
    ensures Reachable(r, streams, threads)
  {
    var run, actions :| IsRun(run, actions, streams, threads) && run[|run| - 1] == s;
    var more, acts :| IsPath(more, acts) && more[0] == s && more[|more| - 1] == r;
    var all, done := run + more[1..], actions + acts;
    forall i | 0 <= i < |done|
      ensures Enabled(all[i], done[i]) && all[i + 1] == Apply(all[i], done[i])
    {
      if i >= |actions| {
        var k := i - |actions|;
        assert Enabled(more[k], acts[k]) && more[k + 1] == Apply(more[k], acts[k]);
      }
    }
    assert IsRun(all, done, streams, threads) && all[|all| - 1] == r;
  }

  lemma ReachInv(s: State, streams: nat, threads: nat)
    requires Reachable(s, streams, threads)
    ensures Inv(s) && |s.threads| == threads
  {
    var run, actions :| IsRun(run, actions, streams, threads) && run[|run| - 1] == s;
    RunKeepsInv(run, actions, streams, threads, |run| - 1);
  }

  lemma FirstWaits(streams: nat, threads: nat) returns (s: State)
    requires threads >= 1
    ensures Reachable(s, streams, threads) && |s.threads| == threads && s.threads[0].Waiting?
  {
    s := Init(streams, threads);
    assert IsRun([s], [], streams, threads) && Reachable(s, streams, threads);
    hide Reachable;
    Reach(s, CallSync(0), streams, threads);
    s := Apply(s, CallSync(0));
    Reach(s, Async(0), streams, threads);
    s := Apply(s, Async(0));
    Reach(s, CheckPending(0), streams, threads);
    s := Apply(s, CheckPending(0));
  }

  ghost predicate CanStrand(streams: nat, threads: nat) {
    exists s, t :: Reachable(s, streams, threads) && Stranded(s, t)
  }

  /** Some interleaving strands a caller if and only if there is more than one thread. */
  lemma StrandsIffCompany(streams: nat, threads: nat)
    ensures CanStrand(streams, threads) <==> threads >= 2
  {
    if threads >= 2 {
      var s := FirstWaits(streams, threads);
      ReachInv(s, streams, threads);
      var r := CompanyStrands(s, 0, 1);
      ReachOn(s, r, streams, threads);
    } else {
      forall s, t | Reachable(s, streams, threads)
        ensures !Stranded(s, t)
      {
        NoneAlone(s, t, streams, threads);
      }
    }
  }

  lemma NoneAlone(s: State, t: nat, streams: nat, threads: nat)
    requires Reachable(s, streams, threads) && threads <= 1
    ensures !Stranded(s, t)
  {
    var run, actions :| IsRun(run, actions, streams, threads) && run[|run| - 1] == s;
    forall k | 0 <= k < |run|
      ensures OneCall(run[k])
    {
      RunKeepsInv(run, actions, streams, threads, k);
    }
    LoneCallerServed(run, actions, streams, threads, |run| - 1);
  }

  /** When two calls overlap, the binary semaphore serves only one of them: both wait
      for one flush, the first takes its token, and the second is stranded. */
  lemma OverlappingCallsStrand() returns (s: State)
    ensures Reachable(s, 1, 2) && Stranded(s, 1)
  {
    hide Reachable, Leads, Inv;
    var both := BothWait();
    ReachInv(both, 1, 2);
    LeadsHere(both);
    s := WaitersStrand(both, both, 1, 0);
    ReachOn(both, s, 1, 2);
  }

  lemma BothWait() returns (s: State)
    ensures Reachable(s, 1, 2)
    ensures s == State(true, true, Resting, false, [0], [0], 0, [Waiting([0], 0), Waiting([0], 0)])
  {
    s := Init(1, 2);
    assert IsRun([s], [], 1, 2) && Reachable(s, 1, 2);
    hide Reachable;
    assert s.total == [0] && s.threads == [Idle, Idle];
    Reach(s, CallSync(0), 1, 2);
    s := Apply(s, CallSync(0));
    Reach(s, CallSync(1), 1, 2);
    s := Apply(s, CallSync(1));
    Reach(s, Async(0), 1, 2);
    s := Apply(s, Async(0));
    Reach(s, Async(1), 1, 2);
    s := Apply(s, Async(1));
    Reach(s, CheckPending(0), 1, 2);
    s := Apply(s, CheckPending(0));
    Reach(s, CheckPending(1), 1, 2);
    s := Apply(s, CheckPending(1));
  }
}
