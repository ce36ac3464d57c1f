/**
 The event debouncer. A timer's life is split where other goroutines can come between: it is armed by a
 push, expires on its own, then waits for the lock, then runs the handler, and at last takes the lock
 again to leave. Times are in nanoseconds on one monotone clock.
 */
module Debouncer {
  datatype Event = Event(policyId: string, recordCount: int, timestamp: int)

  /** Dropped: it found a handler in flight. Handled: its handler has returned. */
  datatype Phase = Armed | Stopped | Waiting | Dropped | Running | Handled

  datatype Timer = Timer(evt: Event, pushedAt: int, phase: Phase)

  /** Every timer ever created, in order of creation; a timer's name is its position. */
  datatype State = State(window: nat, now: int, log: seq<Timer>, timers: map<string, nat>, inflight: set<string>)

  const SECOND := 1_000_000_000
  const EVENT_DEBOUNCE_DURATION := 30 * SECOND

  function Start(window: nat): State {
    State(window, 0, [], map[], {})
  }

  function SetPhase(log: seq<Timer>, t: nat, phase: Phase): seq<Timer>
    requires t < |log|
  {
    log[t := log[t].(phase := phase)]
  }

  predicate In(s: State, t: nat, phase: Phase) {
    t < |s.log| && s.log[t].phase == phase
  }

  predicate Of(s: State, t: nat, p: string) {
    t < |s.log| && s.log[t].evt.policyId == p
  }

  // ---- Steps ----

  /** Stopping a timer that has expired, or was stopped before, has no effect. */
  function StopTimer(log: seq<Timer>, t: nat): seq<Timer> {
    if t < |log| && log[t].phase.Armed? then SetPhase(log, t, Stopped) else log
  }

  function PushStep(s: State, evt: Event): State {
    var log := if evt.policyId in s.timers then StopTimer(s.log, s.timers[evt.policyId]) else s.log;
    s.(log := log + [Timer(evt, s.now, Armed)], timers := s.timers[evt.policyId := |s.log|])
  }

  function ExpireStep(s: State, t: nat): State {
    if In(s, t, Armed) && s.log[t].pushedAt + s.window <= s.now then s.(log := SetPhase(s.log, t, Waiting)) else s
  }

  /** The first critical section of `fire`. */
  function LockStep(s: State, t: nat): State {
    if !In(s, t, Waiting) then s
    else
      var p := s.log[t].evt.policyId;
      if p in s.inflight then s.(timers := s.timers - {p}, log := SetPhase(s.log, t, Dropped))
      else s.(timers := s.timers - {p}, log := SetPhase(s.log, t, Running), inflight := s.inflight + {p})
  }

  /** The second, once the handler has returned. */
  function ExitStep(s: State, t: nat): State {
    if !In(s, t, Running) then s
    else s.(log := SetPhase(s.log, t, Handled), inflight := s.inflight - {s.log[t].evt.policyId})
  }

  datatype Action = Tick(duration: nat) | Push(evt: Event) | Expire(t: nat) | Lock(t: nat) | Exit(t: nat)

  /** One step; an action that is not possible changes nothing. */
  function Step(s: State, a: Action): State {
    match a
    case Tick(d) => s.(now := s.now + d)
    case Push(evt) => PushStep(s, evt)
    case Expire(t) => ExpireStep(s, t)
    case Lock(t) => LockStep(s, t)
    case Exit(t) => ExitStep(s, t)
  }

  function Run(s: State, actions: seq<Action>): State {
    if actions == [] then s else Step(Run(s, actions[..|actions| - 1]), actions[|actions| - 1])
  }

  // ---- The code ----

  /** The debouncer with the part of the Go runtime that it uses: the clock and the timers. */
  class Debouncer {
    const window: nat
    var now: int
    var log: seq<Timer>
    var timers: map<string, nat>
    var inflight: set<string>

    function View(): State
      reads this
    {
      State(window, now, log, timers, inflight)
    }

    constructor (window: nat)
      ensures View() == Start(window)
    {
      this.window := window;
      now, log, timers, inflight := 0, [], map[], {};
    }

    method AfterFunc(evt: Event) returns (t: nat)
      modifies this`log
      ensures t == old(|log|) && log == old(log) + [Timer(evt, now, Armed)]
    {
      t := |log|;
      log := log + [Timer(evt, now, Armed)];
    }

    method StopRuntimeTimer(t: nat)
      modifies this`log
      ensures log == StopTimer(old(log), t)
    {
      if t < |log| && log[t].phase.Armed? {
        log := SetPhase(log, t, Stopped);
      }
    }

    /** `Push`, which holds the lock throughout. */
    method Push(evt: Event)
      modifies this
      ensures View() == PushStep(old(View()), evt)
    {
      if evt.policyId in timers {
        StopRuntimeTimer(timers[evt.policyId]);
      }
      var t := AfterFunc(evt);
      timers := timers[evt.policyId := t];
    }

    /** `fire` up to its first unlock: whether the handler is to run. */
    method FireEnter(t: nat) returns (run: bool)
      requires In(View(), t, Waiting)
      modifies this
      ensures View() == LockStep(old(View()), t)
      ensures run <==> old(log[t].evt.policyId !in inflight)
      ensures if run then In(View(), t, Running) else In(View(), t, Dropped)
    {
      var p := log[t].evt.policyId;
      timers := timers - {p};
      if p in inflight {
        log := SetPhase(log, t, Dropped);
        return false;
      }
      inflight := inflight + {p};
      log := SetPhase(log, t, Running);
      run := true;
    }

    /** The deferred part of `fire`. */
    method FireExit(t: nat)
      requires In(View(), t, Running)
      modifies this
      ensures View() == ExitStep(old(View()), t)
    {
      inflight := inflight - {log[t].evt.policyId};
      log := SetPhase(log, t, Handled);
    }
  }

  // ---- Every reachable state ----

  /** No later push was for the same policy. */
  ghost predicate IsLast(s: State, t: nat) {
    t < |s.log| && forall u | t < u < |s.log| :: s.log[u].evt.policyId != s.log[t].evt.policyId
  }

  ghost predicate Fired(phase: Phase) {
    phase.Waiting? || phase.Dropped? || phase.Running? || phase.Handled?
  }

  /** A handler of policy `p` has run or is running. */
  ghost predicate SomeHandler(s: State, p: string) {
    exists u | 0 <= u < |s.log| :: Of(s, u, p) && (In(s, u, Running) || In(s, u, Handled))
  }

  ghost predicate SomeRunning(s: State, p: string) {
    exists u | 0 <= u < |s.log| :: Of(s, u, p) && In(s, u, Running)
  }

  /** Stopped only by a later push; dropped only for a handler; run only when due, with its policy in flight. */
  ghost predicate TimerOk(s: State, t: nat)
    requires t < |s.log|
  {
    var p := s.log[t].evt.policyId;
    && s.log[t].pushedAt <= s.now
    && (s.log[t].phase.Stopped? ==> !IsLast(s, t))
    && (s.log[t].phase.Dropped? ==> SomeHandler(s, p))
    && (s.log[t].phase.Running? ==> p in s.inflight)
    && (Fired(s.log[t].phase) ==> s.log[t].pushedAt + s.window <= s.now)
  }

  /** The map entry is the policy's last timer, and that one has not had the lock yet. */
  ghost predicate EntryOk(s: State, p: string)
    requires p in s.timers
  {
    var t := s.timers[p];
    Of(s, t, p) && IsLast(s, t) && (In(s, t, Armed) || In(s, t, Waiting))
  }

  ghost predicate OneRunning(s: State) {
    forall t: nat, u: nat |
      In(s, t, Running) && In(s, u, Running) && s.log[t].evt.policyId == s.log[u].evt.policyId :: t == u
  }

  ghost predicate Valid(s: State) {
    && (forall t | 0 <= t < |s.log| :: TimerOk(s, t))
    && (forall p <- s.timers :: EntryOk(s, p))
    && (forall p <- s.inflight :: SomeRunning(s, p))
    && OneRunning(s)
  }

  /** What no step takes back: pushes stay as they were, and a handler that has started stays started. */
  ghost predicate Keeps(s: State, s': State) {
    |s.log| <= |s'.log| && forall t | 0 <= t < |s.log| ::
      && s'.log[t].evt == s.log[t].evt && s'.log[t].pushedAt == s.log[t].pushedAt
      && (s.log[t].phase.Running? ==> s'.log[t].phase.Running? || s'.log[t].phase.Handled?)
      && (s.log[t].phase.Handled? ==> s'.log[t].phase.Handled?)
  }

  lemma KeepsHandlers(s: State, s': State, p: string)
    requires Keeps(s, s') && SomeHandler(s, p)
    ensures SomeHandler(s', p)
  {
    var u: nat :| u < |s.log| && Of(s, u, p) && (In(s, u, Running) || In(s, u, Handled));
    assert Of(s', u, p);
  }

  lemma StillRunning(s: State, s': State, p: string)
    requires Keeps(s, s') && SomeRunning(s, p)
    requires forall t: nat | In(s, t, Running) && Of(s, t, p) :: In(s', t, Running)
    ensures SomeRunning(s', p)
  {
    var u: nat :| u < |s.log| && Of(s, u, p) && In(s, u, Running);
    assert Of(s', u, p);
  }

  /** A push takes over from its policy's last timer, and from no other. */
  lemma LastAfterPush(s: State, evt: Event, t: nat)
    requires t < |s.log|
    ensures IsLast(PushStep(s, evt), t) <==> IsLast(s, t) && s.log[t].evt.policyId != evt.policyId
  {
    var s' := PushStep(s, evt);
    assert s'.log[|s.log|].evt == evt;
    assert forall u | 0 <= u < |s.log| :: s'.log[u].evt == s.log[u].evt;
    if !IsLast(s, t) {
      var u :| t < u < |s.log| && s.log[u].evt.policyId == s.log[t].evt.policyId;
      assert s'.log[u].evt.policyId == s'.log[t].evt.policyId;
    }
  }

  lemma PushTimersOk(s: State, evt: Event)
    requires Valid(s)
    ensures var s' := PushStep(s, evt); forall t | 0 <= t < |s'.log| :: TimerOk(s', t)
  {
    var s' := PushStep(s, evt);
    assert evt.policyId in s.timers ==> EntryOk(s, evt.policyId);
    forall t | 0 <= t < |s'.log| ensures TimerOk(s', t) {
      if t < |s.log| {
        assert TimerOk(s, t);
        LastAfterPush(s, evt, t);
        if s.log[t].phase.Dropped? {
          KeepsHandlers(s, s', s.log[t].evt.policyId);
        }
      }
    }
  }

  lemma PushValid(s: State, evt: Event)
    requires Valid(s)
    ensures Valid(PushStep(s, evt))
  {
    var s' := PushStep(s, evt);
    PushTimersOk(s, evt);
    assert s'.log[|s.log|].evt == evt;
    forall p | p in s'.timers ensures EntryOk(s', p) {
      assert p != evt.policyId ==> EntryOk(s, p);
    }
    forall p | p in s'.inflight ensures SomeRunning(s', p) {
      StillRunning(s, s', p);
    }
    assert forall t: nat | In(s', t, Running) :: In(s, t, Running) && s'.log[t].evt == s.log[t].evt;
  }

  /** A step that creates no timer keeps which one is last. */
  lemma SameLast(s: State, s': State, t: nat)
    requires Keeps(s, s') && |s.log| == |s'.log|
    ensures IsLast(s', t) <==> IsLast(s, t)
  {
    assert forall u | 0 <= u < |s.log| :: s'.log[u].evt.policyId == s.log[u].evt.policyId;
  }

  lemma ExpireValid(s: State, t: nat)
    requires Valid(s)
    ensures Valid(ExpireStep(s, t))
  {
    var s' := ExpireStep(s, t);
    if s' != s {
      OthersValid(s, s', t);
      forall p | p in s'.timers ensures EntryOk(s', p) {
        assert EntryOk(s, p);
        SameLast(s, s', s.timers[p]);
      }
      forall p | p in s'.inflight ensures SomeRunning(s', p) {
        StillRunning(s, s', p);
      }
      assert forall t: nat | In(s', t, Running) :: In(s, t, Running) && s'.log[t].evt == s.log[t].evt;
    }
  }

  /** The timers other than `t`, when only `t` changes phase and other policies stay in flight. */
  lemma OthersValid(s: State, s': State, t: nat)
    requires Valid(s) && Keeps(s, s') && |s.log| == |s'.log| && t < |s.log|
    requires s'.now == s.now && s'.window == s.window
    requires forall u | 0 <= u < |s.log| && u != t :: s'.log[u] == s.log[u]
    requires forall p | p in s.inflight && p !in s'.inflight :: p == s.log[t].evt.policyId && s.log[t].phase.Running?
    ensures forall u | 0 <= u < |s.log| && u != t :: TimerOk(s', u)
  {
    forall u | 0 <= u < |s.log| && u != t ensures TimerOk(s', u) {
      assert TimerOk(s, u);
      SameLast(s, s', u);
      if s.log[u].phase.Dropped? {
        KeepsHandlers(s, s', s.log[u].evt.policyId);
      }
      assert In(s, t, s.log[t].phase) && In(s, u, s.log[u].phase);
    }
  }

  lemma LockValid(s: State, t: nat)
    requires Valid(s)
    ensures Valid(LockStep(s, t))
  {
    var s' := LockStep(s, t);
    if In(s, t, Waiting) {
      var p := s.log[t].evt.policyId;
      assert TimerOk(s, t);
      OthersValid(s, s', t);
      if p in s.inflight {
        assert SomeRunning(s, p) && SomeHandler(s, p);
        KeepsHandlers(s, s', p);
      }
      assert TimerOk(s', t);
      forall q | q in s'.timers ensures EntryOk(s', q) {
        assert EntryOk(s, q);
        SameLast(s, s', s.timers[q]);
      }
      forall q | q in s'.inflight ensures SomeRunning(s', q) {
        if q in s.inflight {
          StillRunning(s, s', q);
        } else {
          assert Of(s', t, q) && In(s', t, Running);
        }
      }
      forall u: nat | In(s', u, Running) && u != t
        ensures In(s, u, Running) && (s'.log[t].phase.Running? ==> s'.log[u].evt.policyId != p)
      {
        assert TimerOk(s, u);
      }
    }
  }

  lemma ExitValid(s: State, t: nat)
    requires Valid(s)
    ensures Valid(ExitStep(s, t))
  {
    var s' := ExitStep(s, t);
    if In(s, t, Running) {
      assert TimerOk(s, t);
      OthersValid(s, s', t);
      forall q | q in s'.timers ensures EntryOk(s', q) {
        assert EntryOk(s, q);
        SameLast(s, s', s.timers[q]);
      }
      forall q | q in s'.inflight ensures SomeRunning(s', q) {
        StillRunning(s, s', q);
      }
      assert forall u: nat | In(s', u, Running) :: In(s, u, Running) && s'.log[u].evt == s.log[u].evt;
    }
  }

  lemma StepValid(s: State, a: Action)
    requires Valid(s)
    ensures Valid(Step(s, a))
  {
    match a
    case Tick(d) =>
      var s' := Step(s, a);
      forall t | 0 <= t < |s.log| ensures TimerOk(s', t) {
        assert TimerOk(s, t);
        SameLast(s, s', t);
        if s.log[t].phase.Dropped? {
          KeepsHandlers(s, s', s.log[t].evt.policyId);
        }
      }
      forall p | p in s'.timers ensures EntryOk(s', p) {
        assert EntryOk(s, p);
        SameLast(s, s', s.timers[p]);
      }
      forall p | p in s'.inflight ensures SomeRunning(s', p) {
        StillRunning(s, s', p);
      }
      assert forall u: nat | In(s', u, Running) :: In(s, u, Running) && s'.log[u].evt == s.log[u].evt;
    case Push(evt) => PushValid(s, evt);
    case Expire(t) => ExpireValid(s, t);
    case Lock(t) => LockValid(s, t);
    case Exit(t) => ExitValid(s, t);
  }

  lemma {:induction false} RunValid(s: State, actions: seq<Action>)
    requires Valid(s)
    ensures Valid(Run(s, actions))
  {
    if actions != [] {
      hide Valid, Step;
      RunValid(s, actions[..|actions| - 1]);
      StepValid(Run(s, actions[..|actions| - 1]), actions[|actions| - 1]);
    }
  }

  /** In every interleaving a policy is marked in flight exactly while its one handler runs. */
  lemma InFlightIffRunning(window: nat, actions: seq<Action>, p: string)
    ensures var s := Run(Start(window), actions);
            OneRunning(s) && (p in s.inflight <==> SomeRunning(s, p))
  {
    RunValid(Start(window), actions);
    var s := Run(Start(window), actions);
    if SomeRunning(s, p) {
      var u: nat :| u < |s.log| && Of(s, u, p) && In(s, u, Running);
      assert TimerOk(s, u);
    }
  }

  /** No timer of policy `p` is armed or waits for the lock. */
  ghost predicate Quiet(s: State, p: string) {
    forall t: nat | Of(s, t, p) :: !In(s, t, Armed) && !In(s, t, Waiting)
  }

  /** Once a policy is quiet, its last event has its handler, or was dropped for one: it is never lost to a Stop. */
  lemma LastEventNotStopped(window: nat, actions: seq<Action>, p: string, t: nat)
    requires var s := Run(Start(window), actions); Of(s, t, p) && IsLast(s, t) && Quiet(s, p)
    ensures var s := Run(Start(window), actions);
            In(s, t, Running) || In(s, t, Handled) || (In(s, t, Dropped) && SomeHandler(s, p))
  {
    RunValid(Start(window), actions);
    var s := Run(Start(window), actions);
    assert TimerOk(s, t);
    assert !In(s, t, Armed) && !In(s, t, Waiting);
  }

  lemma RunSnoc(s: State, actions: seq<Action>, a: Action)
    ensures Run(s, actions + [a]) == Step(Run(s, actions), a)
  {
    assert (actions + [a])[..|actions|] == actions;
  }

  /** A first event whose timer has expired and waits for the lock. */
  lemma FirstExpires(window: nat, e: Event)
    ensures Run(Start(window), [Push(e)] + [Tick(window)] + [Expire(0)])
            == State(window, window, [Timer(e, 0, Waiting)], map[e.policyId := 0], {})
  {
    hide Run;
    RunEmpty(Start(window));
    RunSnoc(Start(window), [], Push(e));
    assert [] + [Push(e)] == [Push(e)];
    RunSnoc(Start(window), [Push(e)], Tick(window));
    RunSnoc(Start(window), [Push(e)] + [Tick(window)], Expire(0));
  }

  lemma RunEmpty(s: State)
    ensures Run(s, []) == s
  {
  }

  /** A last event can be dropped with no handler after it: it fell due while an earlier event's handler ran. */
  lemma LastEventCanBeDropped(window: nat, e0: Event, e1: Event)
    requires e0.policyId == e1.policyId
    ensures var s := Run(Start(window), [Push(e0)] + [Tick(window)] + [Expire(0)] + [Lock(0)] + [Push(e1)]
                                        + [Tick(window)] + [Expire(1)] + [Lock(1)] + [Exit(0)]);
            s == State(window, window + window, [Timer(e0, 0, Handled), Timer(e1, window, Dropped)], map[], {})
  {
    hide Run;
    FirstExpires(window, e0);
    var start, a := Start(window), [Push(e0)] + [Tick(window)] + [Expire(0)];
    RunSnoc(start, a, Lock(0));
    RunSnoc(start, a + [Lock(0)], Push(e1));
    RunSnoc(start, a + [Lock(0)] + [Push(e1)], Tick(window));
    RunSnoc(start, a + [Lock(0)] + [Push(e1)] + [Tick(window)], Expire(1));
    RunSnoc(start, a + [Lock(0)] + [Push(e1)] + [Tick(window)] + [Expire(1)], Lock(1));
    RunSnoc(start, a + [Lock(0)] + [Push(e1)] + [Tick(window)] + [Expire(1)] + [Lock(1)], Exit(0));
  }

  // ---- Conservation ----

  /** What the steps of a run did for one policy. */
  datatype Tally = Tally(pushes: nat, starts: nat, drops: nat, stops: nat)

  function Counted(s: State, a: Action, p: string, tally: Tally): Tally {
    match a
    case Push(evt) =>
      if evt.policyId != p then tally
      else
        var stopped := p in s.timers && In(s, s.timers[p], Armed);
        tally.(pushes := tally.pushes + 1, stops := tally.stops + (if stopped then 1 else 0))
    case Lock(t) =>
      if !In(s, t, Waiting) || !Of(s, t, p) then tally
      else if p in s.inflight then tally.(drops := tally.drops + 1)
      else tally.(starts := tally.starts + 1)
    case _ => tally
  }

  function TallyOf(s: State, actions: seq<Action>, p: string): Tally {
    if actions == [] then Tally(0, 0, 0, 0)
    else
      var before := actions[..|actions| - 1];
      Counted(Run(s, before), actions[|actions| - 1], p, TallyOf(s, before, p))
  }

  function Count(log: seq<Timer>, p: string, phase: Phase): nat {
    if log == [] then 0
    else
      var t := log[|log| - 1];
      Count(log[..|log| - 1], p, phase) + (if t.evt.policyId == p && t.phase == phase then 1 else 0)
  }

  lemma {:induction false} CountSet(log: seq<Timer>, t: nat, phase: Phase, p: string, k: Phase)
    requires t < |log|
    ensures Count(SetPhase(log, t, phase), p, k) == Count(log, p, k) + Change(log[t], phase, p, k)
  {
    var n := |log| - 1;
    if t < n {
      CountSet(log[..n], t, phase, p, k);
      assert SetPhase(log, t, phase)[..n] == SetPhase(log[..n], t, phase);
    } else {
      assert SetPhase(log, t, phase)[..n] == log[..n];
    }
  }

  /** How a timer's change of phase changes a count. */
  function Change(x: Timer, phase: Phase, p: string, k: Phase): int {
    if x.evt.policyId != p then 0 else (if phase == k then 1 else 0) - (if x.phase == k then 1 else 0)
  }

  lemma CountsSet(log: seq<Timer>, t: nat, phase: Phase, p: string)
    requires t < |log|
    ensures forall k :: Count(SetPhase(log, t, phase), p, k) == Count(log, p, k) + Change(log[t], phase, p, k)
  {
    forall k ensures Count(SetPhase(log, t, phase), p, k) == Count(log, p, k) + Change(log[t], phase, p, k) {
      CountSet(log, t, phase, p, k);
    }
  }

  lemma CountsPush(log: seq<Timer>, x: Timer, p: string)
    ensures forall k ::
              Count(log + [x], p, k) == Count(log, p, k) + (if x.evt.policyId == p && x.phase == k then 1 else 0)
  {
    assert (log + [x])[..|log|] == log;
  }

  /** The tally of a run, read off its log. */
  ghost predicate Agrees(s: State, p: string, tally: Tally) {
    var starts := Count(s.log, p, Running) + Count(s.log, p, Handled);
    var drops, stops := Count(s.log, p, Dropped), Count(s.log, p, Stopped);
    tally == Tally(starts + drops + stops + Count(s.log, p, Armed) + Count(s.log, p, Waiting), starts, drops, stops)
  }

  lemma PushAgrees(s: State, evt: Event, p: string, tally: Tally)
    requires evt.policyId in s.timers ==> EntryOk(s, evt.policyId)
    requires Agrees(s, p, tally)
    ensures Agrees(PushStep(s, evt), p, Counted(s, Push(evt), p, tally))
  {
    hide Count, IsLast;
    var q := evt.policyId;
    var log := if q in s.timers then StopTimer(s.log, s.timers[q]) else s.log;
    CountsPush(log, Timer(evt, s.now, Armed), p);
    if q in s.timers && In(s, s.timers[q], Armed) {
      CountsSet(s.log, s.timers[q], Stopped, p);
    }
  }

  lemma StepAgrees(s: State, a: Action, p: string, tally: Tally)
    requires Valid(s) && Agrees(s, p, tally)
    ensures Agrees(Step(s, a), p, Counted(s, a, p, tally))
  {
    hide Count, TimerOk, OneRunning;
    match a
    case Tick(_) =>
    case Push(evt) =>
      assert evt.policyId in s.timers ==> EntryOk(s, evt.policyId);
      PushAgrees(s, evt, p, tally);
    case Expire(t) =>
      if t < |s.log| {
        CountsSet(s.log, t, Waiting, p);
      }
    case Lock(t) =>
      if t < |s.log| {
        CountsSet(s.log, t, Dropped, p);
        CountsSet(s.log, t, Running, p);
      }
    case Exit(t) =>
      if t < |s.log| {
        CountsSet(s.log, t, Handled, p);
      }
  }

  /**
   Conservation, in every interleaving: each push was handled, or dropped for a handler in flight, or stopped,
   or is still armed or waiting for the lock.
   */
  lemma {:induction false} PushesAreAccountedFor(window: nat, actions: seq<Action>, p: string)
    ensures Agrees(Run(Start(window), actions), p, TallyOf(Start(window), actions, p))
  {
    if actions != [] {
      hide Agrees, Valid, Step, Counted;
      var before := actions[..|actions| - 1];
      PushesAreAccountedFor(window, before, p);
      RunValid(Start(window), before) by { StartValid(window); }
      StepAgrees(Run(Start(window), before), actions[|actions| - 1], p, TallyOf(Start(window), before, p));
    }
  }

  lemma StartValid(window: nat)
    ensures Valid(Start(window)) && Tracked(Start(window))
  {
  }

  lemma {:induction false} CountNone(log: seq<Timer>, p: string, k: Phase)
    requires forall t | 0 <= t < |log| :: log[t].evt.policyId == p ==> log[t].phase != k
    ensures Count(log, p, k) == 0
  {
    if log != [] {
      CountNone(log[..|log| - 1], p, k);
    }
  }

  /** So the handlers that have returned are those started but, if the policy is in flight, one. */
  lemma StartsAreReturnsAndTheOneInFlight(window: nat, actions: seq<Action>, p: string)
    ensures var s := Run(Start(window), actions);
            TallyOf(Start(window), actions, p).starts
            == Count(s.log, p, Handled) + (if p in s.inflight then 1 else 0)
  {
    InFlightIffRunning(window, actions, p);
    PushesAreAccountedFor(window, actions, p);
    var s := Run(Start(window), actions);
    hide Run;
    if p in s.inflight {
      var u: nat :| u < |s.log| && Of(s, u, p) && In(s, u, Running);
      var others := SetPhase(s.log, u, Handled);
      forall t | 0 <= t < |others| && others[t].evt.policyId == p ensures !others[t].phase.Running? {
        assert others[t].phase.Running? ==> In(s, t, Running);
      }
      CountNone(others, p, Running);
      CountSet(s.log, u, Handled, p, Running);
    } else {
      forall t | 0 <= t < |s.log| && s.log[t].evt.policyId == p ensures !s.log[t].phase.Running? {
        assert Of(s, t, p) && !In(s, t, Running);
      }
      CountNone(s.log, p, Running);
    }
  }

  // ---- Which timer the map knows ----

  /** The map entry of its policy is this timer. */
  predicate Known(s: State, t: nat)
    requires t < |s.log|
  {
    s.log[t].evt.policyId in s.timers && s.timers[s.log[t].evt.policyId] == t
  }

  /** The map knows every armed timer, so the next push will stop it. */
  ghost predicate Tracked(s: State) {
    forall t: nat | In(s, t, Armed) :: Known(s, t)
  }

  ghost predicate OneArmed(s: State, p: string) {
    forall t: nat, u: nat | In(s, t, Armed) && In(s, u, Armed) && Of(s, t, p) && Of(s, u, p) :: t == u
  }

  /** An expired timer takes the lock when a newer one is armed: it deletes the newer one's entry. */
  predicate StaleFire(s: State, a: Action) {
    a.Lock? && In(s, a.t, Waiting)
    && var p := s.log[a.t].evt.policyId;
       p in s.timers && s.timers[p] != a.t && In(s, s.timers[p], Armed)
  }

  /** A stale fire, and nothing else, makes the map lose an armed timer. */
  lemma OnlyStaleFiresUntrack(s: State, a: Action)
    requires Valid(s) && Tracked(s)
    ensures Tracked(Step(s, a)) <==> !StaleFire(s, a)
  {
    var s' := Step(s, a);
    if StaleFire(s, a) {
      var p := s.log[a.t].evt.policyId;
      assert EntryOk(s, p);
      assert In(s', s.timers[p], Armed) && !Known(s', s.timers[p]);
    } else {
      forall t: nat | In(s', t, Armed) ensures Known(s', t) {
        if t < |s.log| {
          assert In(s, t, Armed) && Known(s, t) && s'.log[t].evt == s.log[t].evt;
        }
      }
    }
  }

  /** While all are tracked a policy has at most one armed timer; an untracked one is joined by the next push. */
  lemma TrackedIffOneArmed(s: State, evt: Event)
    requires Valid(s)
    ensures Tracked(s) ==> OneArmed(s, evt.policyId) && OneArmed(PushStep(s, evt), evt.policyId)
    ensures (exists t: nat :: In(s, t, Armed) && Of(s, t, evt.policyId) && !Known(s, t))
            ==> !OneArmed(PushStep(s, evt), evt.policyId)
  {
    var s', p := PushStep(s, evt), evt.policyId;
    assert p in s.timers ==> EntryOk(s, p);
    assert s'.log[|s.log|].evt == evt && In(s', |s.log|, Armed) && Of(s', |s.log|, p);
    if Tracked(s) {
      forall t: nat | In(s', t, Armed) && Of(s', t, p) ensures t == |s.log| {
        assert t < |s.log| ==> In(s, t, Armed) && Known(s, t);
      }
    }
    if t: nat :| In(s, t, Armed) && Of(s, t, p) && !Known(s, t) {
      assert In(s', t, Armed) && Of(s', t, p);
    }
  }

  /** The state after the first `n` actions. */
  function At(s: State, actions: seq<Action>, n: nat): State
    requires n <= |actions|
  {
    Run(s, actions[..n])
  }

  ghost predicate AlwaysTracked(s: State, actions: seq<Action>) {
    forall n | 0 <= n <= |actions| :: Tracked(At(s, actions, n))
  }

  ghost predicate NeverStale(s: State, actions: seq<Action>) {
    forall n | 0 <= n < |actions| :: !StaleFire(At(s, actions, n), actions[n])
  }

  lemma AtStep(s: State, actions: seq<Action>, n: nat)
    requires n < |actions|
    ensures At(s, actions, n + 1) == Step(At(s, actions, n), actions[n])
  {
    assert actions[..n + 1][..n] == actions[..n];
  }

  /** A run keeps track of its armed timers throughout exactly if no stale fire happens in it. */
  lemma TrackedIffNeverStale(window: nat, actions: seq<Action>)
    ensures AlwaysTracked(Start(window), actions) <==> NeverStale(Start(window), actions)
  {
    var s := Start(window);
    assert At(s, actions, 0) == s;
    StartValid(window);
    hide Valid, Tracked, StaleFire, Run, Step;
    if AlwaysTracked(s, actions) {
      forall n | 0 <= n < |actions| ensures !StaleFire(At(s, actions, n), actions[n]) {
        AtStep(s, actions, n);
        RunValid(s, actions[..n]);
        assert Tracked(At(s, actions, n + 1));
        OnlyStaleFiresUntrack(At(s, actions, n), actions[n]);
      }
    }
    if NeverStale(s, actions) {
      for n := 0 to |actions|
        invariant forall m | 0 <= m <= n :: Tracked(At(s, actions, m))
      {
        AtStep(s, actions, n);
        RunValid(s, actions[..n]);
        OnlyStaleFiresUntrack(At(s, actions, n), actions[n]);
      }
    }
  }

  /** No event of a policy is pushed while an expired timer of that policy waits for the lock. */
  ghost predicate NoPushWhileWaiting(s: State, actions: seq<Action>) {
    forall n | 0 <= n < |actions| && actions[n].Push? ::
      forall t: nat | In(At(s, actions, n), t, Waiting) :: !Of(At(s, actions, n), t, actions[n].evt.policyId)
  }

  ghost predicate WaitersKnown(s: State) {
    forall t: nat | In(s, t, Waiting) :: Known(s, t)
  }

  lemma StepKeepsWaitersKnown(s: State, a: Action)
    requires Valid(s) && Tracked(s) && WaitersKnown(s)
    requires a.Push? ==> forall t: nat | In(s, t, Waiting) :: !Of(s, t, a.evt.policyId)
    ensures !StaleFire(s, a) && Tracked(Step(s, a)) && WaitersKnown(Step(s, a))
  {
    OnlyStaleFiresUntrack(s, a);
    var s' := Step(s, a);
    forall t: nat | In(s', t, Waiting) ensures Known(s', t) {
      assert t < |s.log| && s'.log[t].evt == s.log[t].evt;
      assert (In(s, t, Waiting) || In(s, t, Armed)) && Known(s, t);
    }
  }

  /** That is enough: then no fire is stale, so every policy has at most one armed timer. */
  lemma NoPushWhileWaitingIsEnough(window: nat, actions: seq<Action>)
    requires NoPushWhileWaiting(Start(window), actions)
    ensures NeverStale(Start(window), actions) && AlwaysTracked(Start(window), actions)
  {
    var s := Start(window);
    assert At(s, actions, 0) == s;
    StartValid(window);
    hide Valid, Tracked, StaleFire, Run, Step;
    for n := 0 to |actions|
      invariant Tracked(At(s, actions, n)) && WaitersKnown(At(s, actions, n))
      invariant forall m | 0 <= m < n :: !StaleFire(At(s, actions, m), actions[m])
    {
      AtStep(s, actions, n);
      RunValid(s, actions[..n]);
      StepKeepsWaitersKnown(At(s, actions, n), actions[n]);
    }
    TrackedIffNeverStale(window, actions);
  }

  /** Otherwise a policy can have two armed timers, and two handlers follow. */
  lemma StaleFireArmsTwo(window: nat, e0: Event, e1: Event, e2: Event)
    requires e0.policyId == e1.policyId == e2.policyId
    ensures var s := Run(Start(window), [Push(e0)] + [Tick(window)] + [Expire(0)] + [Push(e1)] + [Lock(0)]
                                        + [Push(e2)]);
            s == State(window, window, [Timer(e0, 0, Running), Timer(e1, window, Armed), Timer(e2, window, Armed)],
                       map[e0.policyId := 2], {e0.policyId})
  {
    hide Run;
    FirstExpires(window, e0);
    var start, a := Start(window), [Push(e0)] + [Tick(window)] + [Expire(0)];
    RunSnoc(start, a, Push(e1));
    RunSnoc(start, a + [Push(e1)], Lock(0));
    RunSnoc(start, a + [Push(e1)] + [Lock(0)], Push(e2));
  }
}
