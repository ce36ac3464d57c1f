/** How the debouncing window and the certification lookback fit together, on one clock. */
module Lookback {
  import opened Debouncer
  import opened Bursts
  import EvidenceStore
  import Certification

  lemma {:induction false} FewerPushes(log: seq<Timer>, p: string, n: nat, t: nat)
    requires n <= t
    ensures PushesFrom(log, p, t) <= PushesFrom(log, p, n)
  {
    if t < |log| {
      FewerPushes(log[..|log| - 1], p, n, t);
    }
  }

  lemma MoreWindows(a: int, b: int, w: nat)
    ensures a <= b ==> Windows(a, w) <= Windows(b, w)
  {
  }

  /**
   A policy is quiet, though a handler of it may be running, and then gets `PushesFrom(..)` events less than the window
   apart, each pushed at most `delay` after its timestamp, of which `t` is one and `u` the last; no handler is in flight
   when that one fires, and the policy is quiet again. The windows between them, the delay and the age fit the lookback.
   */
  ghost predicate BurstFits(s: State, actions: seq<Action>, p: string, t: nat, u: nat, delay: nat, age: nat) {
    && Valid(s) && Quiet(s, p) && ShortGaps(s, actions, p)
    && (forall n | 0 <= n < |actions| :: !DropsAt(At(s, actions, n), actions[n], u))
    && var s' := Run(s, actions);
       && Quiet(s', p) && |s.log| <= t && Of(s', t, p) && Of(s', u, p) && IsLast(s', u)
       && s'.log[u].evt.timestamp <= s'.log[u].pushedAt
       && s'.log[t].pushedAt - delay <= s'.log[t].evt.timestamp
       && Windows(PushesFrom(s'.log, p, |s.log|) - 1, s'.window) + delay + age <= Certification.LOOKBACK
  }

  /** Then `u` has had the one handler call, and a row put in at most `age` before event `t` is in its query. */
  lemma BurstIsCovered(s: State, actions: seq<Action>, p: string, t: nat, u: nat, delay: nat, age: nat,
                       table: EvidenceStore.EvidenceTable, k: EvidenceStore.Key)
    requires BurstFits(s, actions, p, t, u, delay, age)
    requires k in table && table[k].frozen.policyId == p
    requires table[k].ingestedAt >= Run(s, actions).log[t].evt.timestamp - age
    ensures var s' := Run(s, actions);
            Begun(s', u) && forall v: nat | |s.log| <= v && Of(s', v, p) && v != u :: In(s', v, Stopped)
    ensures k in Certification.Recent(table, p, Run(s, actions).log[u].evt.timestamp - Certification.LOOKBACK)
  {
    hide Run, Valid, ShortGaps, Quiet, Spaced, Windows, PushesFrom, At, DropsAt;
    var s' := Run(s, actions);
    LastIsLater(s', p, t, u);
    BurstHandledIff(s, actions, p, u);
    DroppedIff(s, actions, u, |actions|);
    AtLast(s, actions);
    BurstSpaced(s, actions, p);
    SpacedIsCovered(s', |s.log|, p, t, u, delay, age, table, k);
  }

  /**
   And when that call is over, whichever rows it got and whichever of its writes failed: if the row's verdicts were
   stored, and none of its id from there on without the flag, then flag and stored verdicts of its id agree.
   */
  lemma BurstIsCertified(s: State, actions: seq<Action>, p: string, t: nat, u: nat, delay: nat, age: nat,
                         tables: Certification.Tables, k: EvidenceStore.Key, certifiers: seq<Certification.Certifier>,
                         names: set<string>, keys: seq<EvidenceStore.Key>, outcomes: seq<Certification.Outcome>)
    requires BurstFits(s, actions, p, t, u, delay, age)
    requires k in tables.evidence && tables.evidence[k].frozen.policyId == p
    requires tables.evidence[k].ingestedAt >= Run(s, actions).log[t].evt.timestamp - age
    requires var since := Run(s, actions).log[u].evt.timestamp - Certification.LOOKBACK;
             Certification.IsAnswer(keys, tables.evidence, p, since) && |outcomes| == |keys|
    requires Certification.Named(certifiers, names) && Certification.DistinctlyNamed(certifiers)
    requires Certification.OnlyFrom(tables.certifications, k.evidenceId, names)
    ensures k in keys && forall key <- keys :: key in tables.evidence
    ensures Certification.HandledSafely(tables, certifiers, keys, outcomes, k) ==>
              Certification.Agrees(Certification.Handled(tables, certifiers, keys, outcomes), k.evidenceId)
  {
    hide BurstFits, Run, Certification.Agrees, Certification.Handled, Certification.Named, Certification.OnlyFrom,
         Certification.DistinctlyNamed, Certification.HandledSafely;
    BurstIsCovered(s, actions, p, t, u, delay, age, tables.evidence, k);
    if Certification.HandledSafely(tables, certifiers, keys, outcomes, k) {
      Certification.HandledRowAgrees(tables, certifiers, names, keys, outcomes, k);
    }
  }

  lemma AtLast(s: State, actions: seq<Action>)
    ensures At(s, actions, |actions|) == Run(s, actions)
  {
    assert actions[..|actions|] == actions;
  }

  lemma LastIsLater(s: State, p: string, t: nat, u: nat)
    ensures Of(s, t, p) && Of(s, u, p) && IsLast(s, u) ==> t <= u
  {
  }

  lemma SpacedIsCovered(s: State, n: nat, p: string, t: nat, u: nat, delay: nat, age: nat,
                        table: EvidenceStore.EvidenceTable, k: EvidenceStore.Key)
    requires Spaced(s, n, p) && n <= t && Of(s, t, p) && Of(s, u, p) && IsLast(s, u)
    requires s.log[u].evt.timestamp <= s.log[u].pushedAt && s.log[t].pushedAt - delay <= s.log[t].evt.timestamp
    requires Windows(PushesFrom(s.log, p, n) - 1, s.window) + delay + age <= Certification.LOOKBACK
    requires k in table && table[k].frozen.policyId == p && table[k].ingestedAt >= s.log[t].evt.timestamp - age
    ensures k in Certification.Recent(table, p, s.log[u].evt.timestamp - Certification.LOOKBACK)
  {
    hide Windows, PushesFrom, IsLast;
    TimestampsClose(s, n, p, t, u, delay);
    assert table[k].ingestedAt >= s.log[u].evt.timestamp - Certification.LOOKBACK;
  }

  /** Two timestamps of a burst. */
  lemma TimestampsClose(s: State, n: nat, p: string, t: nat, u: nat, delay: nat)
    requires Spaced(s, n, p) && n <= t && Of(s, t, p) && Of(s, u, p) && IsLast(s, u)
    requires s.log[u].evt.timestamp <= s.log[u].pushedAt && s.log[t].pushedAt - delay <= s.log[t].evt.timestamp
    ensures s.log[u].evt.timestamp - s.log[t].evt.timestamp <= Windows(PushesFrom(s.log, p, n) - 1, s.window) + delay
  {
    hide Windows, PushesFrom, IsLast;
    FewerPushes(s.log, p, n, t);
    MoreWindows(PushesFrom(s.log, p, t) - 1, PushesFrom(s.log, p, n) - 1, s.window);
  }

  /** `k` events of policy `p`, `gap` apart, each pushed as soon as it is stamped. */
  function Steady(p: string, gap: nat, k: nat): seq<Action> {
    if k == 0 then [Push(Event(p, 1, 0))]
    else Steady(p, gap, k - 1) + [Tick(gap)] + [Push(Event(p, 1, Windows(k, gap)))]
  }

  lemma ShortGapsSnoc(s: State, actions: seq<Action>, a: Action, p: string)
    requires ShortGaps(s, actions, p) && Prompt(Run(s, actions), a, |s.log|, p)
    ensures ShortGaps(s, actions + [a], p)
  {
    hide Prompt, Run;
    forall n | 0 <= n < |actions| + 1 ensures Prompt(At(s, actions + [a], n), (actions + [a])[n], |s.log|, p) {
      assert (actions + [a])[..n] == actions[..n];
      if n < |actions| {
        assert At(s, actions, n) == At(s, actions + [a], n);
      } else {
        assert actions[..n] == actions;
      }
    }
  }

  /** The last of `k + 1` events pushed `gap` apart. */
  ghost predicate AfterSteady(s: State, window: nat, p: string, gap: nat, k: nat) {
    && s.window == window && s.now == Windows(k, gap) && |s.log| == k + 1
    && s.log[k].pushedAt == s.now && s.log[k].evt == Event(p, 1, s.now)
  }

  lemma SteadyStep(s: State, window: nat, p: string, gap: nat, k: nat)
    requires AfterSteady(s, window, p, gap, k) && gap < window
    ensures var evt := Event(p, 1, Windows(k + 1, gap));
            && AfterSteady(PushStep(Step(s, Tick(gap)), evt), window, p, gap, k + 1)
            && Prompt(s, Tick(gap), 0, p) && Prompt(Step(s, Tick(gap)), Push(evt), 0, p)
  {
    OneMore(k + 1, gap);
    hide Windows;
  }

  lemma {:induction false} SteadyRun(window: nat, p: string, gap: nat, k: nat)
    requires gap < window
    ensures AfterSteady(Run(Start(window), Steady(p, gap, k)), window, p, gap, k)
    ensures ShortGaps(Start(window), Steady(p, gap, k), p)
  {
    hide Run, ShortGaps, AfterSteady, Prompt, Windows;
    var start := Start(window);
    if k == 0 {
      SteadyStart(window, p, gap);
    } else {
      SteadyRun(window, p, gap, k - 1);
      var before, a := Steady(p, gap, k - 1), Push(Event(p, 1, Windows(k, gap)));
      SteadyStep(Run(start, before), window, p, gap, k - 1);
      RunSnoc(start, before, Tick(gap));
      ShortGapsSnoc(start, before, Tick(gap), p);
      RunSnoc(start, before + [Tick(gap)], a);
      ShortGapsSnoc(start, before + [Tick(gap)], a, p);
    }
  }

  lemma SteadyStart(window: nat, p: string, gap: nat)
    ensures AfterSteady(Run(Start(window), Steady(p, gap, 0)), window, p, gap, 0)
    ensures ShortGaps(Start(window), Steady(p, gap, 0), p)
  {
    RunEmpty(Start(window));
    RunSnoc(Start(window), [], Push(Event(p, 1, 0)));
    ShortGapsSnoc(Start(window), [], Push(Event(p, 1, 0)), p);
    assert [] + [Push(Event(p, 1, 0))] == [Push(Event(p, 1, 0))];
    hide Run;
  }

  /**
   The bound matters: such a burst keeps putting the handler off, and a row put in with the first event is in the
   query of the last exactly if the burst is no longer than the lookback. Twelve events 29 seconds apart are longer.
   */
  lemma SteadyBurstCoveredIff(p: string, gap: nat, k: nat, table: EvidenceStore.EvidenceTable, key: EvidenceStore.Key)
    requires gap < 30 * SECOND
    requires key in table && table[key].frozen.policyId == p && table[key].ingestedAt == 0
    ensures var s := Run(Start(EVENT_DEBOUNCE_DURATION), Steady(p, gap, k));
            && ShortGaps(Start(EVENT_DEBOUNCE_DURATION), Steady(p, gap, k), p)
            && Of(s, k, p) && IsLast(s, k)
            && (key in Certification.Recent(table, p, s.log[k].evt.timestamp - Certification.LOOKBACK)
                <==> k * gap <= 300 * SECOND)
  {
    SteadyRun(EVENT_DEBOUNCE_DURATION, p, gap, k);
    hide Run, ShortGaps;
  }
}
