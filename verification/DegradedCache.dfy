/**
 The cached health check of the backing stores. A request first reads the cache under the read lock; if the cache is
 too old it takes the write lock, looks again, and pings. Pings take time, during which other requests wait.
 */
module DegradedCache {
  import opened Options

  /** A finished probe: what each ping said (true for healthy), which failed, and when it began and was stamped. */
  datatype Probe = Probe(results: map<string, bool>, failed: seq<string>, started: int, checkedAt: int)

  /** What a request was told, when, and by which probe. */
  datatype Answer = Answer(degraded: seq<string>, at: int, probe: nat)

  /** A request that is neither new nor answered: past its first look, or pinging under the write lock. */
  datatype Request = Missed | Probing(left: set<string>, results: map<string, bool>, failed: seq<string>, started: int)

  /** A subsystem maps to false if its pinger is nil. The last probe is the cache; before the first there is none. */
  datatype State = State(subsystems: map<string, bool>, ttl: nat, now: int, probes: seq<Probe>, writer: Option<nat>,
                         requests: map<nat, Request>, answers: seq<Answer>)

  function Start(subsystems: map<string, bool>, ttl: nat): State {
    State(subsystems, ttl, 0, [], None, map[], [])
  }

  predicate Fresh(s: State) {
    s.probes != [] && s.now - s.probes[|s.probes| - 1].checkedAt < s.ttl
  }

  function Present(subsystems: map<string, bool>): set<string> {
    set name | name in subsystems && subsystems[name]
  }

  function Cached(s: State): Answer
    requires s.probes != []
  {
    Answer(s.probes[|s.probes| - 1].failed, s.now, |s.probes| - 1)
  }

  datatype Action =
    | Tick(duration: nat)
    | Read(q: nat)
    | Lock(q: nat)
    | Ping(q: nat, name: string, healthy: bool)
    | Finish(q: nat)

  function ReadStep(s: State, q: nat): State {
    if q in s.requests || s.writer.Some? then s
    else if Fresh(s) then s.(answers := s.answers + [Cached(s)])
    else s.(requests := s.requests[q := Missed])
  }

  function LockStep(s: State, q: nat): State {
    if q !in s.requests || !s.requests[q].Missed? || s.writer.Some? then s
    else if Fresh(s) then s.(answers := s.answers + [Cached(s)], requests := s.requests - {q})
    else s.(writer := Some(q), requests := s.requests[q := Probing(s.subsystems.Keys, map[], [], s.now)])
  }

  function Pinged(r: Request, subsystems: map<string, bool>, name: string, healthy: bool): Request
    requires r.Probing? && name in subsystems
  {
    if !subsystems[name] then r.(left := r.left - {name})
    else r.(left := r.left - {name}, results := r.results[name := healthy],
            failed := if healthy then r.failed else r.failed + [name])
  }

  function PingStep(s: State, q: nat, name: string, healthy: bool): State {
    if q !in s.requests || !s.requests[q].Probing? || name !in s.requests[q].left || name !in s.subsystems then s
    else s.(requests := s.requests[q := Pinged(s.requests[q], s.subsystems, name, healthy)])
  }

  function FinishStep(s: State, q: nat): State {
    if q !in s.requests || !s.requests[q].Probing? || s.requests[q].left != {} then s
    else
      var r := s.requests[q];
      s.(probes := s.probes + [Probe(r.results, r.failed, r.started, s.now)], writer := None,
         requests := s.requests - {q}, answers := s.answers + [Answer(r.failed, s.now, |s.probes|)])
  }

  /** One step; an action that is not possible, or that has to wait for the lock, changes nothing. */
  function Step(s: State, a: Action): State {
    match a
    case Tick(d) => s.(now := s.now + d)
    case Read(q) => ReadStep(s, q)
    case Lock(q) => LockStep(s, q)
    case Ping(q, name, healthy) => PingStep(s, q, name, healthy)
    case Finish(q) => FinishStep(s, q)
  }

  function Run(s: State, actions: seq<Action>): State {
    if actions == [] then s else Step(Run(s, actions[..|actions| - 1]), actions[|actions| - 1])
  }

  lemma RunEmpty(s: State)
    ensures Run(s, []) == s
  {
  }

  lemma RunSnoc(s: State, actions: seq<Action>, a: Action)
    ensures Run(s, actions + [a]) == Step(Run(s, actions), a)
  {
    assert (actions + [a])[..|actions|] == actions;
  }

  /** While one request pings the others wait: only its end brings an answer. */
  lemma NobodyIsAnsweredMeanwhile(s: State, a: Action)
    ensures s.writer.Some? && Step(s, a).answers != s.answers ==>
              a.Finish? && a.q in s.requests && s.requests[a.q].Probing?
  {
  }

  // ---- The code ----

  /** What happens while `q` pings: its pings, with what they say, and the time that they take. */
  ghost predicate IsPinging(q: nat, ping: string -> bool, actions: seq<Action>) {
    forall i | 0 <= i < |actions| ::
      actions[i].Tick? || (actions[i].Ping? && actions[i].q == q && actions[i].healthy == ping(actions[i].name))
  }

  /** The cache and its check; beside the cached list, the record of what has been probed, asked and answered. */
  class Cache {
    const subsystems: map<string, bool>
    const ttl: nat
    var now: int
    var cached: Option<(seq<string>, int)>
    ghost var probes: seq<Probe>
    ghost var writer: Option<nat>
    ghost var requests: map<nat, Request>
    ghost var answers: seq<Answer>

    ghost function View(): State
      reads this
    {
      State(subsystems, ttl, now, probes, writer, requests, answers)
    }

    /** What is cached is the last probe. */
    ghost predicate Valid()
      reads this
    {
      cached == if probes == [] then None else Some((probes[|probes| - 1].failed, probes[|probes| - 1].checkedAt))
    }

    constructor (subsystems: map<string, bool>, ttl: nat)
      ensures Valid() && View() == Start(subsystems, ttl)
    {
      this.subsystems, this.ttl, now, cached := subsystems, ttl, 0, None;
      probes, writer, requests, answers := [], None, map[], [];
    }

    /** `time.Since(cached.checkedAt) < cacheTTL`; the zero time of an empty cache is long ago. */
    predicate IsFresh()
      requires Valid()
      reads this
      ensures IsFresh() <==> Fresh(View())
    {
      cached.Some? && now - cached.value.1 < ttl
    }

    /** The part of `check` under the read lock, for a new request, when nobody holds the write lock. */
    method FirstLook(ghost q: nat) returns (degraded: Option<seq<string>>)
      requires Valid() && q !in requests && writer.None?
      modifies this
      ensures Valid() && View() == ReadStep(old(View()), q)
      ensures degraded.None? ==> q in requests && requests[q].Missed? && answers == old(answers)
      ensures degraded.Some? ==> q !in requests && |answers| == |old(answers)| + 1
                                 && answers[|old(answers)|].degraded == degraded.value
    {
      if IsFresh() {
        degraded := Some(cached.value.0);
        answers := answers + [Answer(cached.value.0, now, |probes| - 1)];
      } else {
        degraded := None;
        requests := requests[q := Missed];
      }
    }

    /** One turn of the loop: a ping takes `took`; without a pinger there is none. */
    method PingOne(ghost q: nat, name: string, ping: string -> bool, took: string -> nat)
      returns (failed: bool, ghost trace: seq<Action>)
      requires name in subsystems && q in requests && requests[q].Probing? && name in requests[q].left
      modifies `now, `requests
      ensures View() == Run(old(View()), trace) && IsPinging(q, ping, trace)
      ensures requests == old(requests)[q := Pinged(old(requests[q]), subsystems, name, ping(name))]
      ensures failed <==> subsystems[name] && !ping(name)
    {
      ghost var s := View();
      hide Run;
      failed, trace := false, [];
      RunEmpty(s);
      if subsystems[name] {
        now := now + took(name);
        trace := [Tick(took(name))];
        RunSnoc(s, [], Tick(took(name)));
        assert [] + trace == trace;
        failed := !ping(name);
      }
      RunSnoc(s, trace, Ping(q, name, ping(name)));
      trace := trace + [Ping(q, name, ping(name))];
      requests := requests[q := Pinged(requests[q], subsystems, name, ping(name))];
    }

    /** The loop over the map of subsystems, in any order: exactly those that have a pinger and fail, each once. */
    method PingAll(ghost q: nat, ping: string -> bool, took: string -> nat)
      returns (degraded: seq<string>, ghost trace: seq<Action>)
      requires Valid() && q in requests && requests[q] == Probing(subsystems.Keys, map[], [], now)
      modifies `now, `requests
      ensures Valid() && View() == Run(old(View()), trace) && IsPinging(q, ping, trace)
      ensures q in requests && requests[q].Probing? && requests[q].left == {} && requests[q].failed == degraded
      ensures forall name :: name in degraded <==> name in Present(subsystems) && !ping(name)
      ensures forall i, j | 0 <= i < j < |degraded| :: degraded[i] != degraded[j]
    {
      degraded, trace := [], [];
      ghost var s := View();
      var todo := subsystems.Keys;
      hide Run;
      RunEmpty(s);
      while todo != {}
        invariant Valid() && View() == Run(s, trace) && IsPinging(q, ping, trace)
        invariant todo <= subsystems.Keys
        invariant q in requests && requests[q].Probing? && requests[q].left == todo && requests[q].failed == degraded
        invariant forall name :: name in degraded <==> name in Present(subsystems) && name !in todo && !ping(name)
        invariant forall i, j | 0 <= i < j < |degraded| :: degraded[i] != degraded[j]
        decreases |todo|
      {
        var name :| name in todo;
        todo := todo - {name};
        ghost var more;
        var failed;
        failed, more := PingOne(q, name, ping, took);
        RunJoin(s, trace, more);
        trace := trace + more;
        if failed {
          degraded := degraded + [name];
        }
      }
    }

    /** Taking the write lock and looking again. */
    method Enter(ghost q: nat) returns (degraded: Option<seq<string>>)
      requires Valid() && q in requests && requests[q].Missed? && writer.None?
      modifies `writer, `requests, `answers
      ensures Valid() && View() == LockStep(old(View()), q)
      ensures degraded == if IsFresh() then Some(cached.value.0) else None
    {
      if IsFresh() {
        degraded := Some(cached.value.0);
        answers, requests := answers + [Answer(cached.value.0, now, |probes| - 1)], requests - {q};
      } else {
        degraded := None;
        writer, requests := Some(q), requests[q := Probing(subsystems.Keys, map[], [], now)];
      }
    }

    /** The new list replaces the cached one, stamped with the time after the pings. */
    method Store(ghost q: nat, degraded: seq<string>)
      requires Valid() && q in requests && requests[q].Probing?
      requires requests[q].left == {} && requests[q].failed == degraded
      modifies this
      ensures Valid() && View() == FinishStep(old(View()), q) && cached == Some((degraded, now))
    {
      cached := Some((degraded, now));
      probes := probes + [Probe(requests[q].results, degraded, requests[q].started, now)];
      writer, requests, answers := None, requests - {q}, answers + [Answer(degraded, now, |probes| - 1)];
    }

    /** The part under the write lock, for a request that missed: the cached list if fresh by now, else a new one. */
    method SecondLook(ghost q: nat, ping: string -> bool, took: string -> nat)
      returns (degraded: seq<string>, ghost pinging: seq<Action>)
      requires Valid() && q in requests && requests[q].Missed? && writer.None?
      modifies this
      ensures Valid() && q !in requests && IsPinging(q, ping, pinging)
      ensures View() == Run(old(View()), if old(IsFresh()) then [Lock(q)] else [Lock(q)] + pinging + [Finish(q)])
      ensures |answers| == |old(answers)| + 1 && answers[|old(answers)|].degraded == degraded
      ensures old(IsFresh()) ==> cached == old(cached)
      ensures !old(IsFresh()) ==> forall name :: name in degraded <==> name in Present(subsystems) && !ping(name)
    {
      ghost var s := View();
      hide Run, ReadStep, PingStep, Present;
      RunEmpty(s);
      RunSnoc(s, [], Lock(q));
      assert [] + [Lock(q)] == [Lock(q)];
      pinging := [];
      var second := Enter(q);
      if second.Some? {
        return second.value, [];
      }
      degraded, pinging := PingAll(q, ping, took);
      RunJoin(s, [Lock(q)], pinging);
      RunSnoc(s, [Lock(q)] + pinging, Finish(q));
      Store(q, degraded);
    }
  }

  lemma {:induction false} RunJoin(s: State, a: seq<Action>, b: seq<Action>)
    ensures Run(Run(s, a), b) == Run(s, a + b)
  {
    if b == [] {
      assert a + b == a;
    } else {
      var n := |b| - 1;
      RunJoin(s, a, b[..n]);
      assert (a + b)[..|a + b| - 1] == a + b[..n];
    }
  }

  // ---- Every reachable state ----

  /** `failed` names, each once, exactly the pinged subsystems that were not healthy. */
  ghost predicate NamesFailures(failed: seq<string>, results: map<string, bool>) {
    && (forall name :: name in failed <==> name in results && !results[name])
    && (forall i, j | 0 <= i < j < |failed| :: failed[i] != failed[j])
  }

  /** All subsystems with a pinger were pinged. */
  ghost predicate ProbeOk(s: State, p: Probe) {
    p.results.Keys == Present(s.subsystems) && NamesFailures(p.failed, p.results) && p.started <= p.checkedAt <= s.now
  }

  ghost predicate RequestOk(s: State, r: Request) {
    r.Probing? ==>
      && r.left <= s.subsystems.Keys && r.results.Keys == Present(s.subsystems) - r.left
      && NamesFailures(r.failed, r.results) && r.started <= s.now
      && (s.probes != [] ==> r.started - s.probes[|s.probes| - 1].checkedAt >= s.ttl)
  }

  /** The answer is that probe's, which was stamped less than the time to live before, or just then. */
  ghost predicate AnswerOk(s: State, a: Answer) {
    && a.probe < |s.probes| && a.degraded == s.probes[a.probe].failed
    && (0 <= a.at - s.probes[a.probe].checkedAt < s.ttl || a.at == s.probes[a.probe].checkedAt)
    && a.at <= s.now
  }

  ghost predicate Spaced(s: State) {
    forall i | 0 < i < |s.probes| :: s.probes[i].started - s.probes[i - 1].checkedAt >= s.ttl
  }

  ghost predicate Valid(s: State) {
    && (forall i | 0 <= i < |s.probes| :: ProbeOk(s, s.probes[i]))
    && Spaced(s)
    && (forall q <- s.requests :: RequestOk(s, s.requests[q]))
    && (forall q <- s.requests :: s.requests[q].Probing? <==> s.writer == Some(q))
    && (s.writer.Some? ==> s.writer.value in s.requests)
    && (forall i | 0 <= i < |s.answers| :: AnswerOk(s, s.answers[i]))
  }

  lemma PingedOk(s: State, r: Request, name: string, healthy: bool)
    requires RequestOk(s, r) && r.Probing? && name in r.left && name in s.subsystems
    ensures RequestOk(s, Pinged(r, s.subsystems, name, healthy))
  {
    var r' := Pinged(r, s.subsystems, name, healthy);
    assert r'.results.Keys == Present(s.subsystems) - r'.left;
    assert name !in r.failed;
  }

  lemma NothingPinged(s: State)
    ensures NamesFailures([], map[]) && Present(s.subsystems) - s.subsystems.Keys == {}
  {
  }

  lemma StepValid(s: State, a: Action)
    requires Valid(s)
    ensures Valid(Step(s, a))
  {
    match a
    case Tick(d) => TickValid(s, d);
    case Read(q) => ReadValid(s, q);
    case Lock(q) => LockValid(s, q);
    case Ping(q, name, healthy) => PingValid(s, q, name, healthy);
    case Finish(q) =>
      if q in s.requests && s.requests[q].Probing? && s.requests[q].left == {} {
        FinishValid(s, q);
      }
  }

  lemma ReadValid(s: State, q: nat)
    requires Valid(s)
    ensures Valid(ReadStep(s, q))
  {
    hide NamesFailures, Present;
    assert Fresh(s) ==> ProbeOk(s, s.probes[|s.probes| - 1]);
  }

  lemma LockValid(s: State, q: nat)
    requires Valid(s)
    ensures Valid(LockStep(s, q))
  {
    hide NamesFailures, Present;
    NothingPinged(s);
    assert Fresh(s) ==> ProbeOk(s, s.probes[|s.probes| - 1]);
  }

  lemma PingValid(s: State, q: nat, name: string, healthy: bool)
    requires Valid(s)
    ensures Valid(PingStep(s, q, name, healthy))
  {
    hide NamesFailures, Present;
    if q in s.requests && s.requests[q].Probing? && name in s.requests[q].left && name in s.subsystems {
      PingedOk(s, s.requests[q], name, healthy);
    }
  }

  lemma TickValid(s: State, d: nat)
    requires Valid(s)
    ensures Valid(s.(now := s.now + d))
  {
    hide NamesFailures, Present;
    var s' := s.(now := s.now + d);
    assert forall i | 0 <= i < |s.probes| :: ProbeOk(s, s.probes[i]) ==> ProbeOk(s', s'.probes[i]);
    assert forall q <- s.requests :: RequestOk(s, s.requests[q]) ==> RequestOk(s', s'.requests[q]);
    assert forall i | 0 <= i < |s.answers| :: AnswerOk(s, s.answers[i]) ==> AnswerOk(s', s'.answers[i]);
  }

  lemma FinishValid(s: State, q: nat)
    requires Valid(s) && q in s.requests && s.requests[q].Probing? && s.requests[q].left == {}
    ensures Valid(FinishStep(s, q))
  {
    hide NamesFailures, Present;
    var s', r := FinishStep(s, q), s.requests[q];
    assert RequestOk(s, r) && s.writer == Some(q);
    assert ProbeOk(s', s'.probes[|s.probes|]);
    forall i | 0 <= i < |s'.answers| ensures AnswerOk(s', s'.answers[i]) {
      assert i < |s.answers| ==> AnswerOk(s, s.answers[i]);
    }
  }

  lemma {:induction false} RunValid(s: State, actions: seq<Action>)
    requires Valid(s)
    ensures Valid(Run(s, actions))
  {
    if actions != [] {
      hide Valid, Step;
      RunValid(s, actions[..|actions| - 1]);
      StepValid(Run(s, actions[..|actions| - 1]), actions[|actions| - 1]);
    }
  }

  /** In every interleaving each answer is a probe's, less than the time to live old or just made. */
  lemma AnswersAreFresh(subsystems: map<string, bool>, ttl: nat, actions: seq<Action>, i: nat)
    requires i < |Run(Start(subsystems, ttl), actions).answers|
    ensures var s := Run(Start(subsystems, ttl), actions);
            var a := s.answers[i];
            && a.probe < |s.probes| && a.degraded == s.probes[a.probe].failed
            && (a.at == s.probes[a.probe].checkedAt || 0 <= a.at - s.probes[a.probe].checkedAt < s.ttl)
  {
    RunValid(Start(subsystems, ttl), actions);
    var s := Run(Start(subsystems, ttl), actions);
    assert AnswerOk(s, s.answers[i]);
  }

  lemma {:induction false} SameSubsystems(s: State, actions: seq<Action>)
    ensures Run(s, actions).subsystems == s.subsystems && Run(s, actions).ttl == s.ttl
  {
    if actions != [] {
      SameSubsystems(s, actions[..|actions| - 1]);
    }
  }

  /** And each probe pings every subsystem that has a pinger, and names just those whose ping failed. */
  lemma ProbesNameFailures(subsystems: map<string, bool>, ttl: nat, actions: seq<Action>, i: nat)
    requires i < |Run(Start(subsystems, ttl), actions).probes|
    ensures var p := Run(Start(subsystems, ttl), actions).probes[i];
            && p.results.Keys == Present(subsystems)
            && (forall name :: name in p.failed <==> name in p.results && !p.results[name])
            && (forall j, k | 0 <= j < k < |p.failed| :: p.failed[j] != p.failed[k])
  {
    RunValid(Start(subsystems, ttl), actions);
    SameSubsystems(Start(subsystems, ttl), actions);
    var s := Run(Start(subsystems, ttl), actions);
    assert ProbeOk(s, s.probes[i]);
  }

  /** No probe starts before the one before it is too old, so however many requests wait, one of them pings. */
  lemma ProbesAreSpaced(subsystems: map<string, bool>, ttl: nat, actions: seq<Action>, i: nat, j: nat)
    requires i < j < |Run(Start(subsystems, ttl), actions).probes|
    ensures var s := Run(Start(subsystems, ttl), actions);
            s.probes[j].started - s.probes[i].checkedAt >= ttl * (j - i)
  {
    RunValid(Start(subsystems, ttl), actions);
    SameSubsystems(Start(subsystems, ttl), actions);
    SpacedFrom(Run(Start(subsystems, ttl), actions), i, j);
  }

  lemma {:induction false} SpacedFrom(s: State, i: nat, j: nat)
    requires Valid(s) && i < j < |s.probes|
    ensures s.probes[j].started - s.probes[i].checkedAt >= s.ttl * (j - i)
  {
    assert s.probes[j].started - s.probes[j - 1].checkedAt >= s.ttl;
    if i < j - 1 {
      SpacedFrom(s, i, j - 1);
      assert ProbeOk(s, s.probes[j - 1]);
      assert s.ttl * (j - i) == s.ttl * (j - 1 - i) + s.ttl;
    }
  }

  /** At most one request pings at a time, and it is the one that holds the lock. */
  lemma OneProbeAtATime(subsystems: map<string, bool>, ttl: nat, actions: seq<Action>, q: nat, r: nat)
    requires var s := Run(Start(subsystems, ttl), actions);
             q in s.requests && r in s.requests && s.requests[q].Probing? && s.requests[r].Probing?
    ensures q == r && Run(Start(subsystems, ttl), actions).writer == Some(q)
  {
    RunValid(Start(subsystems, ttl), actions);
  }

  /**
   The time to live counts from the end of a probe, so what an answer says can be older by as long as the probe took,
   and, in every interleaving, by no more: its probe began less than the time to live and that long before, or the
   answer was given as it ended.
   */
  lemma AnswersAreAtMostSoOld(subsystems: map<string, bool>, ttl: nat, actions: seq<Action>, i: nat)
    requires i < |Run(Start(subsystems, ttl), actions).answers|
    ensures var s := Run(Start(subsystems, ttl), actions);
            var a := s.answers[i];
            && a.probe < |s.probes|
            && var p := s.probes[a.probe];
               && p.started <= p.checkedAt <= a.at <= s.now
               && (a.at == p.checkedAt || a.at - p.started < ttl + (p.checkedAt - p.started))
  {
    RunValid(Start(subsystems, ttl), actions);
    SameSubsystems(Start(subsystems, ttl), actions);
    var s := Run(Start(subsystems, ttl), actions);
    assert AnswerOk(s, s.answers[i]) && ProbeOk(s, s.probes[s.answers[i].probe]);
  }

  /** That bound is met: a ping is made at time 0, and an answer given at any time before `slow + ttl` rests on it. */
  lemma AnswersCanBeOlderThanTheTtl(name: string, ttl: nat, slow: nat, wait: nat)
    requires wait < ttl
    ensures var s := Run(Start(map[name := true], ttl), [Read(0)] + [Lock(0)] + [Ping(0, name, true)] + [Tick(slow)]
                                                       + [Finish(0)] + [Tick(wait)] + [Read(1)]);
            && s.answers == [Answer([], slow, 0), Answer([], slow + wait, 0)]
            && |s.probes| == 1 && s.probes[0].started == 0
  {
    hide Run;
    var start := Start(map[name := true], ttl);
    RunEmpty(start);
    RunSnoc(start, [], Read(0));
    assert [] + [Read(0)] == [Read(0)];
    RunSnoc(start, [Read(0)], Lock(0));
    RunSnoc(start, [Read(0)] + [Lock(0)], Ping(0, name, true));
    var a := [Read(0)] + [Lock(0)] + [Ping(0, name, true)];
    assert start.subsystems.Keys - {name} == {};
    assert Run(start, a).requests == map[0 := Probing({}, map[name := true], [], 0)];
    RunSnoc(start, a, Tick(slow));
    RunSnoc(start, a + [Tick(slow)], Finish(0));
    RunSnoc(start, a + [Tick(slow)] + [Finish(0)], Tick(wait));
    RunSnoc(start, a + [Tick(slow)] + [Finish(0)] + [Tick(wait)], Read(1));
  }
}
