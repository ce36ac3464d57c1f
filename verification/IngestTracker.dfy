/** The in-memory tracker of ingest jobs, and the life of a job from its request to its eviction. */
module IngestTracker {
  datatype Status = Pending | Completed | Failed

  datatype JobStatus = JobStatus(jobId: string, status: Status, inserted: int, policyId: string, artifactId: string,
                                 artifactType: string, error: string, createdAt: int, updatedAt: int)

  type Jobs = map<string, JobStatus>

  predicate Terminal(s: Status) {
    s.Completed? || s.Failed?
  }

  /** How a job ends. */
  datatype Outcome = Completes(inserted: int, policyId: string) | Stores(artifactId: string, artifactType: string)
                   | Fails(reason: string)

  // ---- Steps ----

  function CreateStep(jobs: Jobs, id: string, now: int): Jobs {
    jobs[id := JobStatus(id, Pending, 0, "", "", "", "", now, now)]
  }

  function Ended(j: JobStatus, outcome: Outcome, now: int): JobStatus {
    match outcome
    case Completes(inserted, policyId) =>
      j.(status := Completed, inserted := inserted, policyId := policyId, updatedAt := now)
    case Stores(id, kind) => j.(status := Completed, artifactId := id, artifactType := kind, updatedAt := now)
    case Fails(reason) => j.(status := Failed, error := reason, updatedAt := now)
  }

  /** A job that is not there is not missed. */
  function EndStep(jobs: Jobs, id: string, outcome: Outcome, now: int): Jobs {
    if id in jobs then jobs[id := Ended(jobs[id], outcome, now)] else jobs
  }

  predicate Stale(j: JobStatus, now: int, ttl: nat) {
    Terminal(j.status) && j.updatedAt < now - ttl
  }

  function EvictStep(jobs: Jobs, now: int, ttl: nat): Jobs {
    map id | id in jobs && !Stale(jobs[id], now, ttl) :: jobs[id]
  }

  // ---- The code ----

  class Job {
    const jobId: string
    var status: Status
    var inserted: int
    var policyId: string
    var artifactId: string
    var artifactType: string
    var error: string
    const createdAt: int
    var updatedAt: int

    function View(): JobStatus
      reads this
    {
      JobStatus(jobId, status, inserted, policyId, artifactId, artifactType, error, createdAt, updatedAt)
    }

    constructor (id: string, now: int)
      ensures View() == JobStatus(id, Pending, 0, "", "", "", "", now, now)
    {
      jobId, status, createdAt, updatedAt := id, Pending, now, now;
      inserted, policyId, artifactId, artifactType, error := 0, "", "", "", "";
    }

    constructor Copy(j: Job)
      ensures View() == j.View()
    {
      jobId, status, createdAt, updatedAt := j.jobId, j.status, j.createdAt, j.updatedAt;
      inserted, policyId, error := j.inserted, j.policyId, j.error;
      artifactId, artifactType := j.artifactId, j.artifactType;
    }
  }

  class Tracker {
    var jobs: map<string, Job>
    const ttl: nat

    /** No two ids share a job object. */
    ghost predicate Valid()
      reads this
    {
      forall i, j | i in jobs && j in jobs :: jobs[i] == jobs[j] ==> i == j
    }

    function View(): Jobs
      reads this, jobs.Values
    {
      map id | id in jobs :: jobs[id].View()
    }

    constructor (ttl: nat)
      ensures Valid() && View() == map[] && this.ttl == ttl
    {
      this.ttl := ttl;
      jobs := map[];
    }

    method Create(id: string, now: int)
      requires Valid()
      modifies this
      ensures Valid() && View() == CreateStep(old(View()), id, now)
      ensures id in jobs && fresh(jobs[id]) && jobs == old(jobs)[id := jobs[id]]
      ensures && jobs[id].jobId == id && jobs[id].status.Pending? && jobs[id].createdAt == jobs[id].updatedAt == now
              && jobs[id].inserted == 0 && jobs[id].policyId == jobs[id].artifactId == jobs[id].error == ""
    {
      var j := new Job(id, now);
      jobs := jobs[id := j];
    }

    method Complete(id: string, inserted: int, policyId: string, now: int)
      requires Valid()
      modifies jobs.Values
      ensures Valid() && View() == EndStep(old(View()), id, Completes(inserted, policyId), now)
      ensures id in jobs ==>
                jobs[id].status.Completed? && jobs[id].inserted == inserted && jobs[id].policyId == policyId
    {
      if id in jobs {
        var j := jobs[id];
        j.status, j.inserted, j.policyId, j.updatedAt := Completed, inserted, policyId, now;
      }
    }

    method CompleteArtifact(id: string, artifactId: string, artifactType: string, now: int)
      requires Valid()
      modifies jobs.Values
      ensures Valid() && View() == EndStep(old(View()), id, Stores(artifactId, artifactType), now)
      ensures id in jobs ==>
                && jobs[id].status.Completed?
                && jobs[id].artifactId == artifactId && jobs[id].artifactType == artifactType
    {
      if id in jobs {
        var j := jobs[id];
        j.status, j.artifactId, j.artifactType, j.updatedAt := Completed, artifactId, artifactType, now;
      }
    }

    method Fail(id: string, reason: string, now: int)
      requires Valid()
      modifies jobs.Values
      ensures Valid() && View() == EndStep(old(View()), id, Fails(reason), now)
      ensures id in jobs ==> jobs[id].status.Failed? && jobs[id].error == reason
    {
      if id in jobs {
        var j := jobs[id];
        j.status, j.error, j.updatedAt := Failed, reason, now;
      }
    }

    /** A copy, so what its reader holds is not the tracker's own object. */
    method Get(id: string) returns (copy: Job?)
      ensures copy == null <==> id !in jobs
      ensures copy != null ==> fresh(copy) && copy !in jobs.Values && copy.View() == View()[id]
    {
      if id !in jobs {
        return null;
      }
      copy := new Job.Copy(jobs[id]);
    }

    /** The loop deletes from the map it goes through: what is left is what was not stale. */
    method Evict(now: int)
      requires Valid()
      modifies `jobs
      ensures View() == EvictStep(old(View()), now, ttl)
      ensures Valid() && jobs.Keys <= old(jobs).Keys && forall id <- jobs :: jobs[id] == old(jobs[id])
    {
      var cutoff := now - ttl;
      ghost var all, before := jobs, View();
      var todo := jobs.Keys;
      hide Stale, EvictStep, Job.View;
      while todo != {}
        invariant todo <= jobs.Keys <= all.Keys
        invariant forall id <- jobs :: jobs[id] == all[id]
        invariant forall id <- all :: id !in todo ==> (id in jobs <==> !Stale(before[id], now, ttl))
        decreases |todo|
      {
        var id :| id in todo;
        todo := todo - {id};
        assert jobs[id].View() == before[id];
        if StaleJob(jobs[id], cutoff) {
          jobs := jobs - {id};
        }
      }
      Evicted(View(), before, now, ttl);
    }

    /** The test of `evict`. */
    predicate StaleJob(j: Job, cutoff: int)
      reads j
      ensures StaleJob(j, cutoff) <==> Stale(j.View(), cutoff + ttl, ttl)
    {
      (j.status == Completed || j.status == Failed) && j.updatedAt < cutoff
    }
  }

  lemma Evicted(after: Jobs, before: Jobs, now: int, ttl: nat)
    requires after.Keys <= before.Keys && forall id <- after :: after[id] == before[id]
    requires forall id <- before :: id in after <==> !Stale(before[id], now, ttl)
    ensures after == EvictStep(before, now, ttl)
  {
    hide Stale;
  }

  /** A copy does not change when its job does. */
  method CopyOutlivesTheJob(tracker: Tracker, id: string, inserted: int, policyId: string, now: int, later: int)
    returns (copy: Job?)
    requires tracker.Valid()
    modifies tracker, tracker.jobs.Values
    ensures copy != null <==> id in old(tracker.View())
    ensures copy != null ==> copy.View() == old(tracker.View())[id]
    ensures var ended := EndStep(old(tracker.View()), id, Completes(inserted, policyId), now);
            tracker.View() == EvictStep(ended, later, tracker.ttl)
  {
    copy := tracker.Get(id);
    tracker.Complete(id, inserted, policyId, now);
    tracker.Evict(later);
  }

  // ---- The life of a job ----

  /** Registered; its event in the message bus, with the worker, or gone without a word; the job's end recorded. */
  datatype Stage = Created | InTransit | Working | Done | Lost

  datatype State = State(now: int, ttl: nat, jobs: Jobs, stages: map<string, Stage>)

  datatype Action =
    | Tick(duration: nat)
    | Create(id: string)
    | Publish(id: string, ok: bool, reason: string)
    | Deliver(id: string)
    | Lose(id: string)
    | Finish(id: string, outcome: Outcome)
    | Evict

  function Init(ttl: nat): State {
    State(0, ttl, map[], map[])
  }

  predicate At(s: State, id: string, stage: Stage) {
    id in s.stages && s.stages[id] == stage
  }

  /**
   One step; an action that is not possible changes nothing. A job id is new each time, an event is delivered at
   most once, and publishing that fails has not sent it.
   */
  function Step(s: State, a: Action): State {
    match a
    case Tick(d) => s.(now := s.now + d)
    case Create(id) =>
      if id in s.stages then s
      else s.(jobs := CreateStep(s.jobs, id, s.now), stages := s.stages[id := Created])
    case Publish(id, ok, reason) =>
      if !At(s, id, Created) then s
      else if ok then s.(stages := s.stages[id := InTransit])
      else s.(jobs := EndStep(s.jobs, id, Fails(reason), s.now), stages := s.stages[id := Done])
    case Deliver(id) => if At(s, id, InTransit) then s.(stages := s.stages[id := Working]) else s
    case Lose(id) => if At(s, id, InTransit) then s.(stages := s.stages[id := Lost]) else s
    case Finish(id, outcome) =>
      if !At(s, id, Working) then s
      else s.(jobs := EndStep(s.jobs, id, outcome, s.now), stages := s.stages[id := Done])
    case Evict => s.(jobs := EvictStep(s.jobs, s.now, s.ttl))
  }

  function Run(s: State, actions: seq<Action>): State {
    if actions == [] then s else Step(Run(s, actions[..|actions| - 1]), actions[|actions| - 1])
  }

  predicate PendingIn(s: State, id: string) {
    id in s.jobs && s.jobs[id].status.Pending?
  }

  /** A job whose end is not recorded is there and pending; any other is terminal or gone. */
  ghost predicate Valid(s: State) {
    && s.jobs.Keys <= s.stages.Keys
    && forall id <- s.stages ::
         if s.stages[id].Done? then id in s.jobs ==> Terminal(s.jobs[id].status) else PendingIn(s, id)
  }

  lemma StepValid(s: State, a: Action)
    requires Valid(s)
    ensures Valid(Step(s, a))
  {
  }

  lemma {:induction false} RunValid(s: State, actions: seq<Action>)
    requires Valid(s)
    ensures Valid(Run(s, actions))
  {
    if actions != [] {
      hide Valid, Step;
      RunValid(s, actions[..|actions| - 1]);
      StepValid(Run(s, actions[..|actions| - 1]), actions[|actions| - 1]);
    }
  }

  /** In every interleaving a delivered event finds its job, pending: it was created first and not evicted since. */
  lemma DeliveredFindsItsJob(ttl: nat, actions: seq<Action>, id: string)
    requires At(Run(Init(ttl), actions), id, Working)
    ensures PendingIn(Run(Init(ttl), actions), id)
  {
    RunValid(Init(ttl), actions);
  }

  /** Whether a step ends a job: pending before, terminal after. */
  predicate Ends(s: State, a: Action, id: string) {
    PendingIn(s, id) && id in Step(s, a).jobs && Terminal(Step(s, a).jobs[id].status)
  }

  function Endings(s: State, actions: seq<Action>, id: string): nat {
    if actions == [] then 0
    else
      var before := actions[..|actions| - 1];
      Endings(s, before, id) + (if Ends(Run(s, before), actions[|actions| - 1], id) then 1 else 0)
  }

  /** A job ends once, when its event has been dealt with or could not be published, and not before. */
  lemma {:induction false} EndsOnce(ttl: nat, actions: seq<Action>, id: string)
    ensures Endings(Init(ttl), actions, id) == if At(Run(Init(ttl), actions), id, Done) then 1 else 0
  {
    if actions != [] {
      var before := actions[..|actions| - 1];
      EndsOnce(ttl, before, id);
      RunValid(Init(ttl), before);
      hide Run, Endings;
      StepEndsOnce(Run(Init(ttl), before), actions[|actions| - 1], id);
    }
  }

  lemma StepEndsOnce(s: State, a: Action, id: string)
    requires Valid(s)
    ensures Ends(s, a, id) <==> !At(s, id, Done) && At(Step(s, a), id, Done)
    ensures At(s, id, Done) ==> At(Step(s, a), id, Done)
  {
  }

  /**
   Each delivered event makes exactly one end: the one recorded when the worker is done with it. The job is completed
   exactly if its upload was stored, as rows or as an artifact.
   */
  lemma FinishEnds(ttl: nat, actions: seq<Action>, id: string, outcome: Outcome)
    requires At(Run(Init(ttl), actions), id, Working)
    ensures var s := Run(Init(ttl), actions);
            var s' := Step(s, Finish(id, outcome));
            && id in s.jobs && id in s'.jobs && s'.jobs[id] == Ended(s.jobs[id], outcome, s.now)
            && (s'.jobs[id].status.Completed? <==> !outcome.Fails?)
    ensures Endings(Init(ttl), actions, id) == 0 && Endings(Init(ttl), actions + [Finish(id, outcome)], id) == 1
  {
    DeliveredFindsItsJob(ttl, actions, id);
    EndsOnce(ttl, actions, id);
    assert (actions + [Finish(id, outcome)])[..|actions|] == actions;
  }

  /** A job that has ended does not change again until it is evicted, and does not come back. */
  lemma {:induction false} EndedIsFinal(s: State, actions: seq<Action>, id: string)
    requires Valid(s) && id in s.jobs && Terminal(s.jobs[id].status)
    ensures var s' := Run(s, actions); At(s', id, Done) && (id in s'.jobs ==> s'.jobs[id] == s.jobs[id])
  {
    if actions != [] {
      var before := Run(s, actions[..|actions| - 1]);
      EndedIsFinal(s, actions[..|actions| - 1], id);
      RunValid(s, actions[..|actions| - 1]);
      hide Run;
      assert At(before, id, Done);
    }
  }

  /** What is gone stays gone. */
  lemma {:induction false} EvictedStaysAway(s: State, actions: seq<Action>, id: string)
    requires Valid(s) && id in s.stages && id !in s.jobs
    ensures id !in Run(s, actions).jobs
    ensures id in Run(s, actions).stages
  {
    if actions != [] {
      EvictedStaysAway(s, actions[..|actions| - 1], id);
    }
  }

  /** Only a job that ended more than the time to live ago is evicted. */
  lemma EvictionIffStale(s: State, a: Action, id: string)
    requires id in s.jobs
    ensures id !in Step(s, a).jobs <==> a.Evict? && Terminal(s.jobs[id].status) && s.jobs[id].updatedAt < s.now - s.ttl
  {
  }

  /** A job whose event is lost is pending for ever; the tracker never lets go of it. */
  lemma {:induction false} LostStaysPending(s: State, actions: seq<Action>, id: string)
    requires Valid(s) && At(s, id, Lost)
    ensures At(Run(s, actions), id, Lost) && PendingIn(Run(s, actions), id)
  {
    if actions != [] {
      LostStaysPending(s, actions[..|actions| - 1], id);
    }
  }
}
