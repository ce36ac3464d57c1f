/**
 Bursts of events in the debouncer's protocol: which event of a burst gets the handler, and how far apart the events
 of a burst are.
 */
module Bursts {
  import opened Debouncer
  import opened Options

  // ---- Exactly when an event is dropped, and when it is handled ----

  /** A timer gets the lock while its policy is in flight. */
  predicate DropsAt(s: State, a: Action, t: nat) {
    a == Lock(t) && In(s, t, Waiting) && s.log[t].evt.policyId in s.inflight
  }

  /** It gets the lock while its policy is not. */
  predicate StartsAt(s: State, a: Action, t: nat) {
    a == Lock(t) && In(s, t, Waiting) && s.log[t].evt.policyId !in s.inflight
  }

  predicate Begun(s: State, t: nat) {
    In(s, t, Running) || In(s, t, Handled)
  }

  lemma StepFate(s: State, a: Action, t: nat)
    ensures In(Step(s, a), t, Dropped) <==> In(s, t, Dropped) || DropsAt(s, a, t)
    ensures Begun(Step(s, a), t) <==> Begun(s, t) || StartsAt(s, a, t)
  {
  }

  /** In every run an event is dropped if and only if its timer got the lock while its policy was in flight. */
  lemma {:induction false} DroppedIff(s: State, actions: seq<Action>, t: nat, n: nat)
    requires n <= |actions| && !In(s, t, Dropped)
    ensures In(At(s, actions, n), t, Dropped) <==> exists k | 0 <= k < n :: DropsAt(At(s, actions, k), actions[k], t)
  {
    hide DropsAt, StartsAt, Step, At;
    if n == 0 {
      AtFirst(s, actions);
    } else {
      DroppedIff(s, actions, t, n - 1);
      AtStep(s, actions, n - 1);
      StepFate(At(s, actions, n - 1), actions[n - 1], t);
    }
  }

  /** And it has its handler if and only if its timer got the lock while it was not. */
  lemma {:induction false} BegunIff(s: State, actions: seq<Action>, t: nat, n: nat)
    requires n <= |actions| && !Begun(s, t)
    ensures Begun(At(s, actions, n), t) <==> exists k | 0 <= k < n :: StartsAt(At(s, actions, k), actions[k], t)
  {
    hide DropsAt, StartsAt, Step, At, Begun;
    if n == 0 {
      AtFirst(s, actions);
    } else {
      BegunIff(s, actions, t, n - 1);
      AtStep(s, actions, n - 1);
      StepFate(At(s, actions, n - 1), actions[n - 1], t);
    }
  }

  lemma AtFirst(s: State, actions: seq<Action>)
    ensures At(s, actions, 0) == s
  {
  }

  /** The handler of timer `u` has left by step `n`. */
  predicate LeftBefore(actions: seq<Action>, u: nat, n: nat) {
    exists m | 0 <= m < n && m < |actions| :: actions[m] == Exit(u)
  }

  /** The event of a timer that has fired or been stopped, and whether it runs. */
  function Past(s: State, t: nat): Option<(Event, bool)> {
    if t < |s.log| && !In(s, t, Armed) && !In(s, t, Waiting) then Some((s.log[t].evt, In(s, t, Running))) else None
  }

  /** Such a timer runs as long as it ran and has not left. */
  lemma {:induction false} RunsUntilExit(s: State, actions: seq<Action>, u: nat, n: nat)
    requires n <= |actions| && Past(s, u).Some?
    ensures Past(At(s, actions, n), u) == Some((s.log[u].evt, In(s, u, Running) && !LeftBefore(actions, u, n)))
  {
    hide Step, At;
    if n == 0 {
      AtFirst(s, actions);
    } else {
      RunsUntilExit(s, actions, u, n - 1);
      AtStep(s, actions, n - 1);
      StepLeaves(At(s, actions, n - 1), actions[n - 1], u);
    }
  }

  lemma StepLeaves(s: State, a: Action, u: nat)
    ensures Past(s, u).Some? ==> Past(Step(s, a), u) == Some((s.log[u].evt, In(s, u, Running) && a != Exit(u)))
  {
  }

  // ---- Bursts ----

  /** Each push of `p` comes less than the window after the one before it, from timer `n` on. */
  ghost predicate Prompt(s: State, a: Action, n: nat, p: string) {
    a.Push? && a.evt.policyId == p ==>
      forall t: nat | n <= t && Of(s, t, p) && IsLast(s, t) :: s.now - s.log[t].pushedAt < s.window
  }

  ghost predicate ShortGaps(s: State, actions: seq<Action>, p: string) {
    forall n | 0 <= n < |actions| :: Prompt(At(s, actions, n), actions[n], |s.log|, p)
  }

  /** One timer of a burst that begins at timer `n`: all but the last are stopped. */
  ghost predicate InBurst(s: State, n: nat, t: nat)
    requires t < |s.log|
  {
    && (t < n ==> !s.log[t].phase.Armed? && !s.log[t].phase.Waiting?)
    && (n <= t && !IsLast(s, t) ==> s.log[t].phase.Stopped?)
    && (s.log[t].phase.Armed? || s.log[t].phase.Waiting? ==> Known(s, t))
  }

  ghost predicate Burst(s: State, n: nat, p: string) {
    n <= |s.log| && forall t: nat | Of(s, t, p) :: InBurst(s, n, t)
  }

  lemma PushInBurst(s: State, evt: Event, n: nat, p: string)
    requires Valid(s) && Burst(s, n, p) && Prompt(s, Push(evt), n, p)
    ensures Burst(PushStep(s, evt), n, p)
  {
    var s' := PushStep(s, evt);
    assert s'.log[|s.log|].evt == evt;
    assert evt.policyId in s.timers ==> EntryOk(s, evt.policyId);
    forall t: nat | Of(s', t, p) ensures InBurst(s', n, t) {
      if t < |s.log| {
        assert Of(s, t, p) && InBurst(s, n, t) && TimerOk(s, t);
        LastAfterPush(s, evt, t);
      }
    }
  }

  lemma StepInBurst(s: State, a: Action, n: nat, p: string)
    requires Valid(s) && Burst(s, n, p) && Prompt(s, a, n, p)
    ensures Burst(Step(s, a), n, p)
  {
    if a.Push? {
      PushInBurst(s, a.evt, n, p);
    } else {
      hide TimerOk, OneRunning, SomeRunning;
      var s' := Step(s, a);
      forall t: nat | Of(s', t, p) ensures InBurst(s', n, t) {
        assert Of(s, t, p) && InBurst(s, n, t);
        SameLast(s, s', t);
        if a.Lock? && In(s, a.t, Waiting) && Of(s, a.t, p) {
          assert InBurst(s, n, a.t);
        }
      }
    }
  }

  lemma QuietIsBurst(s: State, p: string)
    requires Quiet(s, p)
    ensures Burst(s, |s.log|, p)
  {
    forall t: nat | Of(s, t, p) ensures InBurst(s, |s.log|, t) {
      assert !In(s, t, Armed) && !In(s, t, Waiting);
    }
  }

  /**
   Coalescing: from any reachable state where a policy is quiet, though its handler may be running, and whatever else
   goes on, while its pushes come less than the window apart each but the last is stopped by the next.
   */
  lemma {:induction false} BurstCoalesces(s: State, actions: seq<Action>, p: string)
    requires Valid(s) && Quiet(s, p) && ShortGaps(s, actions, p)
    ensures Burst(Run(s, actions), |s.log|, p)
  {
    if actions == [] {
      QuietIsBurst(s, p);
    } else {
      hide Valid, Burst, Step, Quiet, Prompt;
      var before := actions[..|actions| - 1];
      ShortGapsBefore(s, actions, p, |actions| - 1);
      BurstCoalesces(s, before, p);
      RunValid(s, before);
      assert At(s, actions, |before|) == Run(s, before);
      StepInBurst(Run(s, before), actions[|before|], |s.log|, p);
    }
  }

  lemma ShortGapsBefore(s: State, actions: seq<Action>, p: string, n: nat)
    requires n <= |actions| && ShortGaps(s, actions, p)
    ensures ShortGaps(s, actions[..n], p)
  {
    hide Prompt;
    var before := actions[..n];
    assert forall k | 0 <= k <= n :: actions[..k] == before[..k];
    assert forall k | 0 <= k < n :: At(s, before, k) == At(s, actions, k) && before[k] == actions[k];
  }

  /** When the last timer of a burst waits for the lock, only a handler from before the burst can be in flight. */
  lemma InFlightIsEarlier(s: State, n: nat, p: string, t: nat)
    requires Valid(s) && Burst(s, n, p) && In(s, t, Waiting) && Of(s, t, p)
    ensures p in s.inflight <==> exists u | 0 <= u < n :: Of(s, u, p) && In(s, u, Running)
  {
    assert InBurst(s, n, t);
    if p in s.inflight {
      var u: nat :| u < |s.log| && Of(s, u, p) && In(s, u, Running);
      assert InBurst(s, n, u);
      assert u != t ==> !IsLast(s, u) || !IsLast(s, t);
      assert EntryOk(s, p);
    }
    if u: nat :| u < n && Of(s, u, p) && In(s, u, Running) {
      assert TimerOk(s, u);
    }
  }

  /** The last timer of the burst got the lock with every handler from before the burst gone. */
  ghost predicate LockedAlone(s: State, actions: seq<Action>, p: string, t: nat, k: nat) {
    && k < |actions| && actions[k] == Lock(t) && In(At(s, actions, k), t, Waiting)
    && forall u: nat | Of(s, u, p) && In(s, u, Running) :: LeftBefore(actions, u, k)
  }

  lemma StartsIffLockedAlone(s: State, actions: seq<Action>, p: string, t: nat, k: nat)
    requires Valid(s) && Quiet(s, p) && ShortGaps(s, actions, p) && k < |actions|
    requires |s.log| <= t && Of(Run(s, actions), t, p)
    ensures StartsAt(At(s, actions, k), actions[k], t) <==> LockedAlone(s, actions, p, t, k)
  {
    var s' := At(s, actions, k);
    if actions[k] == Lock(t) && In(s', t, Waiting) {
      ShortGapsBefore(s, actions, p, k);
      BurstCoalesces(s, actions[..k], p);
      RunValid(s, actions[..k]);
      SameEvent(s, actions, t, k);
      InFlightIsEarlier(s', |s.log|, p, t);
      hide Valid, Burst, ShortGaps, Run;
      forall u: nat | u < |s.log| && Of(s, u, p)
        ensures Of(s', u, p) && (In(s', u, Running) <==> In(s, u, Running) && !LeftBefore(actions, u, k))
      {
        assert !In(s, u, Armed) && !In(s, u, Waiting);
        RunsUntilExit(s, actions, u, k);
      }
      EarlierAreOfSame(s, actions, p, k);
    }
  }

  /** Pushes stay as they were. */
  lemma {:induction false} SameEvent(s: State, actions: seq<Action>, t: nat, k: nat)
    requires k <= |actions| && t < |At(s, actions, k).log|
    ensures t < |Run(s, actions).log| && Run(s, actions).log[t].evt == At(s, actions, k).log[t].evt
    decreases |actions|
  {
    if k == |actions| {
      assert actions[..k] == actions;
    } else {
      var before := actions[..|actions| - 1];
      assert before[..k] == actions[..k];
      SameEvent(s, before, t, k);
    }
  }

  lemma EarlierAreOfSame(s: State, actions: seq<Action>, p: string, k: nat)
    requires k <= |actions|
    ensures forall u: nat | u < |s.log| && u < |At(s, actions, k).log| :: Of(At(s, actions, k), u, p) <==> Of(s, u, p)
  {
    forall u: nat | u < |s.log| ensures Of(At(s, actions, k), u, p) <==> Of(s, u, p) {
      assert At(s, actions[..k], 0) == s;
      SameEvent(s, actions[..k], u, 0);
    }
  }

  /**
   When a burst is over and the policy quiet again: all its events but the last were stopped; and the last has its
   handler, rather than having been dropped, if and only if each handler that was running when the burst began had left
   when the last timer got the lock.
   */
  lemma BurstHandledIff(s: State, actions: seq<Action>, p: string, t: nat)
    requires Valid(s) && Quiet(s, p) && ShortGaps(s, actions, p)
    requires var s' := Run(s, actions); |s.log| <= t && Of(s', t, p) && IsLast(s', t) && Quiet(s', p)
    ensures var s' := Run(s, actions); forall u: nat | |s.log| <= u && Of(s', u, p) && u != t :: In(s', u, Stopped)
    ensures In(Run(s, actions), t, Dropped) <==> !Begun(Run(s, actions), t)
    ensures Begun(Run(s, actions), t) <==> exists k: nat :: LockedAlone(s, actions, p, t, k)
  {
    BurstCoalesces(s, actions, p);
    RunValid(s, actions);
    BegunIff(s, actions, t, |actions|);
    assert At(s, actions, |actions|) == Run(s, actions) by { assert actions[..|actions|] == actions; }
    forall k: nat | k < |actions|
      ensures StartsAt(At(s, actions, k), actions[k], t) <==> LockedAlone(s, actions, p, t, k)
    {
      StartsIffLockedAlone(s, actions, p, t, k);
    }
    hide Run, At, StartsAt, LockedAlone;
    LastOfBurst(Run(s, actions), |s.log|, p, t);
  }

  lemma LastOfBurst(s: State, n: nat, p: string, t: nat)
    requires Valid(s) && Burst(s, n, p) && Quiet(s, p) && n <= t && Of(s, t, p) && IsLast(s, t)
    ensures In(s, t, Dropped) <==> !Begun(s, t)
    ensures forall u: nat | n <= u && Of(s, u, p) && u != t :: In(s, u, Stopped)
  {
    assert TimerOk(s, t) && !In(s, t, Armed) && !In(s, t, Waiting);
    forall u: nat | n <= u && Of(s, u, p) && u != t ensures In(s, u, Stopped) {
      assert InBurst(s, n, u);
      assert IsLast(s, u) ==> u >= t;
    }
  }

  /** So with no handler running when the burst begins, its last event, and no other, has its handler. */
  lemma BurstHandledOnce(s: State, actions: seq<Action>, p: string, t: nat)
    requires Valid(s) && Quiet(s, p) && ShortGaps(s, actions, p) && p !in s.inflight
    requires var s' := Run(s, actions); |s.log| <= t && Of(s', t, p) && IsLast(s', t) && Quiet(s', p)
    ensures var s' := Run(s, actions);
            Begun(s', t) && forall u: nat | |s.log| <= u && Of(s', u, p) && u != t :: In(s', u, Stopped)
  {
    BurstHandledIff(s, actions, p, t);
    DroppedIff(s, actions, t, |actions|);
    assert At(s, actions, |actions|) == Run(s, actions) by { assert actions[..|actions|] == actions; }
    forall k | 0 <= k < |actions| ensures !DropsAt(At(s, actions, k), actions[k], t) {
      NotInFlight(s, actions, p, t, k);
    }
  }

  lemma NotInFlight(s: State, actions: seq<Action>, p: string, t: nat, k: nat)
    requires Valid(s) && Quiet(s, p) && ShortGaps(s, actions, p) && p !in s.inflight && k < |actions|
    requires |s.log| <= t && Of(Run(s, actions), t, p)
    ensures !DropsAt(At(s, actions, k), actions[k], t)
  {
    StartsIffLockedAlone(s, actions, p, t, k);
    if actions[k] == Lock(t) && In(At(s, actions, k), t, Waiting) {
      forall u: nat | Of(s, u, p) ensures !In(s, u, Running) {
        assert TimerOk(s, u);
      }
      SameEvent(s, actions, t, k);
    }
  }

  // ---- How far apart the events of a burst are ----

  /** How many events of policy `p` were pushed from timer `t` on. */
  function PushesFrom(log: seq<Timer>, p: string, t: nat): nat {
    if |log| <= t then 0
    else PushesFrom(log[..|log| - 1], p, t) + (if log[|log| - 1].evt.policyId == p then 1 else 0)
  }

  lemma {:induction false} SamePushes(log: seq<Timer>, log': seq<Timer>, p: string, t: nat)
    requires |log| == |log'| && forall i | 0 <= i < |log| :: log[i].evt == log'[i].evt
    ensures PushesFrom(log, p, t) == PushesFrom(log', p, t)
  {
    if t < |log| {
      SamePushes(log[..|log| - 1], log'[..|log| - 1], p, t);
    }
  }

  lemma {:induction false} LastFrom(s: State, t: nat, p: string, m: nat)
    requires t <= m < |s.log| && Of(s, t, p)
    requires forall v | m < v < |s.log| :: s.log[v].evt.policyId != p
    ensures exists u | t <= u <= m :: Of(s, u, p) && IsLast(s, u)
  {
    if s.log[m].evt.policyId == p {
      assert Of(s, m, p) && IsLast(s, m);
    } else {
      LastFrom(s, t, p, m - 1);
    }
  }

  /** From timer `t` to the last, each further push adds less than a window. */
  ghost predicate Spaced(s: State, n: nat, p: string) {
    forall t: nat, u: nat | n <= t && Of(s, t, p) && Of(s, u, p) && IsLast(s, u) ::
      s.log[u].pushedAt - s.log[t].pushedAt <= Windows(PushesFrom(s.log, p, t) - 1, s.window)
  }

  function Windows(k: int, window: nat): int {
    k * window
  }

  lemma OneMore(k: int, w: nat)
    ensures Windows(k, w) == Windows(k - 1, w) + w && Windows(0, w) == 0
  {
  }

  lemma StepSpaced(s: State, a: Action, n: nat, p: string)
    requires Valid(s) && Spaced(s, n, p) && Prompt(s, a, n, p)
    ensures Spaced(Step(s, a), n, p)
  {
    hide Windows, PushesFrom, IsLast, TimerOk, OneRunning;
    var s' := Step(s, a);
    forall t: nat, u: nat | n <= t && Of(s', t, p) && Of(s', u, p) && IsLast(s', u)
      ensures s'.log[u].pushedAt - s'.log[t].pushedAt <= Windows(PushesFrom(s'.log, p, t) - 1, s'.window)
    {
      if a.Push? {
        SpacedAfterPush(s, a.evt, n, p, t, u);
      } else {
        SameLast(s, s', u);
        SamePushes(s.log, s'.log, p, t);
        assert Of(s, t, p) && Of(s, u, p);
      }
    }
  }

  lemma PushesFromAfterPush(s: State, evt: Event, p: string, t: nat)
    requires t <= |s.log|
    ensures PushesFrom(PushStep(s, evt).log, p, t) == PushesFrom(s.log, p, t) + (if evt.policyId == p then 1 else 0)
  {
    SamePushes(s.log, PushStep(s, evt).log[..|s.log|], p, t);
  }

  lemma SpacedAfterPush(s: State, evt: Event, n: nat, p: string, t: nat, u: nat)
    requires Spaced(s, n, p) && Prompt(s, Push(evt), n, p)
    requires var s' := PushStep(s, evt); n <= t && Of(s', t, p) && Of(s', u, p) && IsLast(s', u)
    ensures var s' := PushStep(s, evt);
            s'.log[u].pushedAt - s'.log[t].pushedAt <= Windows(PushesFrom(s'.log, p, t) - 1, s'.window)
  {
    hide PushesFrom, Windows;
    var s', m := PushStep(s, evt), |s.log|;
    assert s'.log[m].evt == evt;
    PushesFromAfterPush(s, evt, p, t);
    OneMore(PushesFrom(s.log, p, t), s.window);
    if t == m {
      NoPushesFrom(s.log, p, t);
    } else if evt.policyId == p {
      assert Of(s, t, p) && u == m;
      LastFrom(s, t, p, m - 1);
    } else {
      assert Of(s, t, p);
      LastAfterPush(s, evt, u);
    }
  }

  lemma NoPushesFrom(log: seq<Timer>, p: string, t: nat)
    ensures t >= |log| ==> PushesFrom(log, p, t) == 0
  {
  }

  /** The events of a burst of `k` pushes lie at most `k - 1` windows apart. */
  lemma {:induction false} BurstSpaced(s: State, actions: seq<Action>, p: string)
    requires Valid(s) && ShortGaps(s, actions, p)
    ensures Spaced(Run(s, actions), |s.log|, p)
  {
    if actions != [] {
      hide Valid, Spaced, Step, Prompt;
      var before := actions[..|actions| - 1];
      ShortGapsBefore(s, actions, p, |actions| - 1);
      BurstSpaced(s, before, p);
      RunValid(s, before);
      assert At(s, actions, |before|) == Run(s, before);
      StepSpaced(Run(s, before), actions[|before|], |s.log|, p);
    }
  }
}
