/** The health flag of an instance and its one event, raised by any number of
    threads inside or outside the instance lock. */
module CoreHealth {
  import opened Bytes

  /** seen holds the threads that read a healthy flag and have not acted on it yet;
      carrying those that released the lock with the event still to publish. */
  datatype State = State(
    owner: Option<nat>, degraded: bool, pending: bool, seen: set<nat>, carrying: set<nat>, events: nat)

  datatype Action = Lock(t: nat) | Unlock(t: nat) | Publish(t: nat) | Check(t: nat) | Degrade(t: nat)

  /** A thread does one thing at a time: it finishes a check before it unlocks, and
      publishes what it carries before it does anything else. */
  predicate Enabled(s: State, a: Action) {
    match a
    case Lock(t) => s.owner.None? && t !in s.carrying && t !in s.seen
    case Unlock(t) => s.owner == Some(t) && t !in s.seen
    case Publish(t) => t in s.carrying
    case Check(t) => t !in s.carrying && t !in s.seen
    case Degrade(t) => t in s.seen
  }

  function Apply(s: State, a: Action): State
    requires Enabled(s, a)
  {
    match a
    case Lock(t) => s.(owner := Some(t))
    case Unlock(t) =>
      s.(owner := None, pending := false, carrying := s.carrying + if s.pending then {t} else {})
    case Publish(t) => s.(carrying := s.carrying - {t}, events := s.events + 1)
    case Check(t) => if s.degraded then s else s.(seen := s.seen + {t})
    case Degrade(t) =>
      if s.owner == Some(t) then s.(seen := s.seen - {t}, degraded := true, pending := true)
      else s.(seen := s.seen - {t}, degraded := true, events := s.events + 1)
  }

  const START := State(None, false, false, {}, {}, 0)

  ghost predicate IsRun(run: seq<State>, acts: seq<Action>) {
    && |run| == |acts| + 1 && run[0] == START
    && forall i :: 0 <= i < |acts| ==> Enabled(run[i], acts[i]) && run[i + 1] == Apply(run[i], acts[i])
  }

  /** Events out, in hand and recorded under the lock. */
  function Due(s: State): nat {
    s.events + |s.carrying| + if s.pending then 1 else 0
  }

  /** Whoever publishes does not hold the lock, and a record waits only under it, for
      an owner whose check is over. */
  predicate Inv(s: State) {
    && (s.owner.Some? ==> s.owner.value !in s.carrying)
    && (s.pending ==> s.owner.Some? && s.owner.value !in s.seen)
    && s.carrying !! s.seen
    && (Due(s) > 0 <==> s.degraded)
  }

  lemma StepKeeps(s: State, a: Action)
    requires Inv(s) && Enabled(s, a)
    ensures Inv(Apply(s, a)) && StepFine(s, a)
    ensures Due(Apply(s, a)) == Due(s) || a.Degrade?
  {
    match a {
      case Unlock(t) => assert t !in s.carrying;
      case Publish(t) => assert |s.carrying - {t}| == |s.carrying| - 1;
      case _ =>
    }
  }

  /** The flag does not recover, and the thread that publishes is not the one that
      holds the lock. */
  predicate StepFine(s: State, a: Action) {
    && Enabled(s, a)
    && (s.degraded ==> Apply(s, a).degraded)
    && (Apply(s, a).events > s.events ==> s.owner != Some(a.t))
  }

  /** In every run the flag never recovers, no event is published by the thread
      that holds the lock, and once nothing is in hand an event has gone out if
      and only if the flag is degraded. */
  lemma {:induction false} RunKeeps(run: seq<State>, acts: seq<Action>)
    requires IsRun(run, acts)
    ensures forall i :: 0 <= i < |run| ==> Inv(run[i])
    ensures forall i :: 0 <= i < |acts| ==> StepFine(run[i], acts[i])
    decreases |acts|
  {
    hide Inv, Enabled, Apply;
    var n := |acts|;
    if n == 0 {
      StartInv();
    } else {
      RunKeeps(run[..n], acts[..n - 1]);
      assert Inv(run[..n][n - 1]);
      StepKeeps(run[n - 1], acts[n - 1]);
      forall i | 0 <= i < n
        ensures Inv(run[i]) && StepFine(run[i], acts[i])
      {
        assert Inv(run[..n][i]);
        StepKeeps(run[i], acts[i]);
      }
    }
  }

  lemma StartInv()
    ensures Inv(START)
  {
  }

  /** Events out or owed, and checks about to cause one. */
  function Coming(s: State): nat {
    Due(s) + |s.seen|
  }

  /** No two checks overlap, inside the lock or outside it. */
  ghost predicate NoOverlap(run: seq<State>) {
    forall i :: 0 <= i < |run| ==> |run[i].seen| <= 1
  }

  /** A check adds to what is coming only while nothing is owed, and nothing that is
      coming is lost. */
  lemma StepComing(s: State, a: Action)
    requires Inv(s) && Enabled(s, a)
    ensures Coming(s) <= Coming(Apply(s, a))
    ensures Coming(s) <= 1 && |Apply(s, a).seen| <= 1 ==> Coming(Apply(s, a)) <= 1
  {
    match a {
      case Unlock(t) => assert t !in s.carrying;
      case Publish(t) => assert |s.carrying - {t}| == |s.carrying| - 1;
      case Check(t) => assert |s.seen + {t}| == |s.seen| + 1;
      case Degrade(t) => assert |s.seen - {t}| == |s.seen| - 1;
      case _ =>
    }
  }

  lemma {:induction false} ComingGrows(run: seq<State>, acts: seq<Action>, i: nat)
    requires IsRun(run, acts) && i < |run|
    ensures Coming(run[i]) <= Coming(run[|run| - 1])
    decreases |run| - i
  {
    hide Inv, Enabled, Apply, Coming;
    if i < |acts| {
      RunKeeps(run, acts);
      StepComing(run[i], acts[i]);
      ComingGrows(run, acts, i + 1);
    }
  }

  lemma {:induction false} ComingOnce(run: seq<State>, acts: seq<Action>, i: nat)
    requires IsRun(run, acts) && NoOverlap(run) && i < |run|
    ensures Coming(run[i]) <= 1
    decreases i
  {
    hide Inv, Enabled, Apply;
    if i > 0 {
      RunKeeps(run, acts);
      ComingOnce(run, acts, i - 1);
      var j := i - 1;
      StepComing(run[j], acts[j]);
      assert run[j + 1] == Apply(run[j], acts[j]);
    }
  }

  /** When nothing is under way any more, at most one event has gone out if and only if
      no two checks ever overlapped; one has gone out exactly when the flag is
      degraded. */
  lemma OnceIffNoOverlap(run: seq<State>, acts: seq<Action>)
    requires IsRun(run, acts)
    requires var s := run[|run| - 1]; s.seen == {} && s.carrying == {} && !s.pending
    ensures run[|run| - 1].events <= 1 <==> NoOverlap(run)
    ensures run[|run| - 1].events >= 1 <==> run[|run| - 1].degraded
  {
    RunKeeps(run, acts);
    hide Inv, Enabled, Apply;
    var n := |run| - 1;
    assert Coming(run[n]) == run[n].events;
    if run[n].events <= 1 {
      forall i | 0 <= i < |run|
        ensures |run[i].seen| <= 1
      {
        ComingGrows(run, acts, i);
      }
    }
    if NoOverlap(run) {
      ComingOnce(run, acts, n);
    }
    QuietInv(run[n]);
  }

  lemma QuietInv(s: State)
    requires Inv(s) && s.carrying == {} && !s.pending
    ensures s.events >= 1 <==> s.degraded
  {
  }

  /** Every check is made by the thread that holds the lock. */
  ghost predicate Locked(run: seq<State>, acts: seq<Action>)
    requires IsRun(run, acts)
  {
    forall i :: 0 <= i < |acts| && acts[i].Check? ==> run[i].owner == Some(acts[i].t)
  }

  predicate OwnersCheck(s: State) {
    forall t :: t in s.seen ==> s.owner == Some(t)
  }

  lemma {:induction false} LockedChecks(run: seq<State>, acts: seq<Action>, i: nat)
    requires IsRun(run, acts) && Locked(run, acts) && i < |run|
    ensures OwnersCheck(run[i])
    decreases i
  {
    if i > 0 {
      var j := i - 1;
      LockedChecks(run, acts, j);
      assert Enabled(run[j], acts[j]) && run[j + 1] == Apply(run[j], acts[j]);
    }
  }

  lemma OwnersAlone(s: State)
    requires OwnersCheck(s)
    ensures |s.seen| <= 1
  {
    if s.owner.Some? && s.owner.value in s.seen {
      assert s.seen == {s.owner.value};
    } else {
      assert s.seen == {};
    }
  }

  /** When every fault is found under the lock, no two checks overlap, so at most one
      event ever goes out. */
  lemma LockedChecksOnce(run: seq<State>, acts: seq<Action>)
    requires IsRun(run, acts) && Locked(run, acts)
    ensures NoOverlap(run) && forall i :: 0 <= i < |run| ==> run[i].events <= 1
  {
    hide Inv, Enabled, Apply, OwnersCheck;
    forall i | 0 <= i < |run|
      ensures |run[i].seen| <= 1
    {
      LockedChecks(run, acts, i);
      OwnersAlone(run[i]);
    }
    forall i | 0 <= i < |run|
      ensures run[i].events <= 1
    {
      ComingOnce(run, acts, i);
    }
  }

  /** Recovery checks outside the lock. Two such checks that overlap both see a
      healthy flag and both publish. */
  lemma OverlappingChecksRepeat() returns (run: seq<State>, acts: seq<Action>)
    ensures IsRun(run, acts) && run[|run| - 1].events == 2
    ensures forall a :: a in acts ==> a.Check? || a.Degrade?
  {
    acts := [Check(0), Check(1), Degrade(0), Degrade(1)];
    var s1 := Apply(START, acts[0]);
    var s2 := Apply(s1, acts[1]);
    var s3 := Apply(s2, acts[2]);
    var s4 := Apply(s3, acts[3]);
    run := [START, s1, s2, s3, s4];
  }
}
