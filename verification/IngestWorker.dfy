/** Asynchronous ingest: the request that registers a job, and the worker that carries it out. */
module IngestWorker {
  import opened Options
  import opened EvidenceStore
  import opened Flatten
  import opened IngestTracker
  import opened Places
  import Certification

  /** A log as loaded from the uploaded text. */
  datatype Document = Evaluations(evaluationLog: EvaluationLog) | Enforcements(enforcementLog: EnforcementLog)

  function ReferencesOf(doc: Document): seq<MappingReference> {
    match doc
    case Evaluations(log) => log.metadata.references
    case Enforcements(log) => log.metadata.references
  }

  function PolicyOf(doc: Document): string {
    match doc
    case Evaluations(log) => PolicyIdOf(log.metadata.references)
    case Enforcements(log) => PolicyIdOf(log.metadata.references)
  }

  /** Flattening refuses it: it is empty, or some time in it is not one. */
  predicate Refused(doc: Document, parse: TimeParser) {
    match doc
    case Evaluations(log) =>
      log.evaluations == [] || exists p <- Assessments(log.evaluations) :: BadTime(parse, p.1.start)
    case Enforcements(log) =>
      log.actions == [] || exists x <- log.actions :: x.Some? && BadTime(parse, x.value.start)
  }

  /** Its assessments: those that are there, under evaluations or actions that are there. */
  function CountOf(doc: Document): nat {
    match doc
    case Evaluations(log) => AssessmentCount(log.evaluations)
    case Enforcements(log) => FindingCount(log.actions)
  }

  function TimeOr(parse: TimeParser, s: string, default: int): int {
    if ParseDatetime(parse, s).Ok? then ParseDatetime(parse, s).value else default
  }

  /** The rows of a document that is not refused, one for each assessment, in document order. */
  function RowsOfDocument(doc: Document, parse: TimeParser): seq<Flatten.EvidenceRow> {
    match doc
    case Evaluations(log) =>
      var pairs := Assessments(log.evaluations);
      seq(|pairs|, i requires 0 <= i < |pairs| =>
        EvaluationRow(log, PolicyOf(doc), pairs[i].0, pairs[i].1, TimeOr(parse, pairs[i].1.start, ZERO_TIME)))
    case Enforcements(log) =>
      var pairs := Findings(log.actions);
      seq(|pairs|, i requires 0 <= i < |pairs| =>
        EnforcementRow(log, PolicyOf(doc), pairs[i].0, pairs[i].1, TimeOr(parse, pairs[i].0.start, ZERO_TIME)))
  }

  lemma RowsCounted(doc: Document, parse: TimeParser)
    ensures |RowsOfDocument(doc, parse)| == CountOf(doc)
  {
    match doc
    case Evaluations(log) => AssessmentsCounted(log.evaluations);
    case Enforcements(log) => FindingsCounted(log.actions);
  }

  /** The batch that is inserted; `uuid` is the id generator. */
  function Batch(doc: Document, parse: TimeParser, uuid: nat -> string): seq<EvidenceRecord> {
    var records := ToRecords(RowsOfDocument(doc, parse));
    NormalizedAll(records, seq(|records|, i requires 0 <= i < |records| => uuid(i)))
  }

  /** What the worker makes of an event's text; a log is None if it does not load. */
  datatype Artifact = Invalid | Log(doc: Option<Document>) | Artifact(stored: Result<(string, string)>) | Unsupported

  /** How the job of a log ends. */
  function LogOutcome(doc: Option<Document>, parse: TimeParser, fault: Fault): Outcome {
    if doc.None? || Refused(doc.value, parse) then Fails("flatten failed")
    else if !Succeeds(fault, CountOf(doc.value)) then Fails("insert failed")
    else Completes(CountOf(doc.value), PolicyOf(doc.value))
  }

  function TableAfter(t: EvidenceTable, doc: Option<Document>, parse: TimeParser, uuid: nat -> string, fault: Fault,
                      now: int): EvidenceTable
  {
    if LogOutcome(doc, parse, fault).Completes? then UpsertAll(t, Batch(doc.value, parse, uuid), now) else t
  }

  /** The document loads, is not refused, and its whole batch goes in. */
  predicate Ingested(doc: Option<Document>, parse: TimeParser, fault: Fault) {
    doc.Some? && !Refused(doc.value, parse) && Succeeds(fault, CountOf(doc.value))
  }

  /** It is announced, if it has any rows and a policy. */
  predicate Announced(doc: Option<Document>, parse: TimeParser, fault: Fault) {
    Ingested(doc, parse, fault) && CountOf(doc.value) > 0 && PolicyOf(doc.value) != ""
  }

  /** What was published, and for the record the evidence table as it then was. */
  class Publisher {
    var events: seq<(string, int)>
    ghost var tables: seq<EvidenceTable>

    constructor ()
      ensures events == [] && tables == []
    {
      events, tables := [], [];
    }

    method PublishEvidence(policyId: string, count: nat, ghost table: EvidenceTable)
      modifies this
      ensures events == old(events) + [(policyId, count)] && tables == old(tables) + [table]
    {
      events, tables := events + [(policyId, count)], tables + [table];
    }
  }

  method FlattenDocument(doc: Document, parse: TimeParser)
    returns (r: Result<seq<Flatten.EvidenceRow>>, policyId: string)
    ensures policyId == PolicyOf(doc)
    ensures r.Err? <==> Refused(doc, parse)
    ensures r.Ok? ==> r.value == RowsOfDocument(doc, parse)
  {
    match doc {
      case Evaluations(log) =>
        policyId := DerivePolicyID(log.metadata.references);
        r := FlattenEvaluationLog(log, policyId, parse);
        if r.Ok? {
          EvaluationRowsAgree(log, parse, r.value);
        }
      case Enforcements(log) =>
        policyId := DerivePolicyID(log.metadata.references);
        r := FlattenEnforcementLog(log, policyId, parse);
        if r.Ok? {
          EnforcementRowsAgree(log, parse, r.value);
        }
    }
  }

  lemma EvaluationRowsAgree(log: EvaluationLog, parse: TimeParser, rows: seq<Flatten.EvidenceRow>)
    requires RowsOf(log, PolicyIdOf(log.metadata.references), parse, Assessments(log.evaluations), rows)
    ensures rows == RowsOfDocument(Evaluations(log), parse)
  {
    hide EvaluationRow;
  }

  lemma EnforcementRowsAgree(log: EnforcementLog, parse: TimeParser, rows: seq<Flatten.EvidenceRow>)
    requires EnforcementRowsOf(log, PolicyIdOf(log.metadata.references), parse, Findings(log.actions), rows)
    ensures rows == RowsOfDocument(Enforcements(log), parse)
  {
    hide EnforcementRow;
  }

  /** The first half of `handleEvidenceIngest`: flatten, convert, insert. */
  method StoreLog(doc: Option<Document>, parse: TimeParser, uuid: nat -> string, store: Store, fault: Fault, now: int)
    returns (outcome: Outcome)
    modifies store`evidence
    ensures outcome == LogOutcome(doc, parse, fault) && !outcome.Stores?
    ensures store.evidence == TableAfter(old(store.evidence), doc, parse, uuid, fault, now)
  {
    hide Refused, RowsOfDocument, CountOf, UpsertAll, NormalizedAll;
    if doc.None? {
      return Fails("flatten failed");
    }
    var r, policyId := FlattenDocument(doc.value, parse);
    if r.Err? {
      return Fails("flatten failed");
    }
    RowsCounted(doc.value, parse);
    var records := ToEvidenceRecords(r.value);
    var uuids := seq(records.Length, i requires 0 <= i < records.Length => uuid(i));
    var count, ok := store.InsertEvidence(records[..], uuids, now, fault);
    if !ok {
      return Fails("insert failed");
    }
    outcome := Completes(count, policyId);
  }

  /** Every row that was not there has the document's policy. */
  ghost predicate NewRowsHave(t: EvidenceTable, t': EvidenceTable, policyId: string) {
    forall k <- t' :: k !in t ==> t'[k].frozen.policyId == policyId
  }

  /**
   `handleEvidenceIngest`. Either the whole batch is stored and the job completes with its number of assessments, or
   nothing is stored and the job fails; whatever is published is published when the table has the batch already. The
   new rows and the event have the id of the document's policy.
   */
  method HandleEvidenceIngest(id: string, doc: Option<Document>, parse: TimeParser, uuid: nat -> string, store: Store,
                              fault: Fault, pub: Publisher?, tracker: Tracker, now: int)
    requires tracker.Valid()
    modifies store`evidence, tracker.jobs.Values, if pub == null then {} else {pub}
    ensures tracker.Valid() && tracker.View() == EndStep(old(tracker.View()), id, LogOutcome(doc, parse, fault), now)
    ensures id in old(tracker.View()) ==>
              id in tracker.View() && (tracker.View()[id].status.Completed? <==> Ingested(doc, parse, fault))
    ensures store.evidence == TableAfter(old(store.evidence), doc, parse, uuid, fault, now)
    ensures !Ingested(doc, parse, fault) ==> store.evidence == old(store.evidence)
    ensures doc.Some? ==> NamesPolicy(ReferencesOf(doc.value), PolicyOf(doc.value))
                          && NewRowsHave(old(store.evidence), store.evidence, PolicyOf(doc.value))
    ensures pub != null ==>
              pub.events == old(pub.events) + if Announced(doc, parse, fault)
                                              then [(PolicyOf(doc.value), CountOf(doc.value))] else []
    ensures pub != null ==>
              pub.tables == old(pub.tables) + if pub.events == old(pub.events) then [] else [store.evidence]
  {
    LogOutcomeIs(doc, parse, fault);
    hide EndStep, LogOutcome, TableAfter, Job.View, Tracker.View, Tracker.Valid, Refused, CountOf, PolicyOf,
         NamesPolicy, NewRowsHave, Ingested;
    ghost var before := store.evidence;
    var outcome := StoreLog(doc, parse, uuid, store, fault, now);
    NewRowsHaveThePolicy(before, store.evidence, doc, parse, uuid, fault, now);
    EndedJob(tracker.View(), id, outcome, now);
    match outcome {
      case Fails(reason) => tracker.Fail(id, reason, now);
      case Completes(count, policyId) =>
        if pub != null && count > 0 && policyId != "" {
          pub.PublishEvidence(policyId, count, store.evidence);
        }
        tracker.Complete(id, count, policyId, now);
    }
  }

  lemma LogOutcomeIs(doc: Option<Document>, parse: TimeParser, fault: Fault)
    ensures Ingested(doc, parse, fault) ==>
              LogOutcome(doc, parse, fault) == Completes(CountOf(doc.value), PolicyOf(doc.value))
    ensures !Ingested(doc, parse, fault) ==>
              LogOutcome(doc, parse, fault) ==
              Fails(if doc.None? || Refused(doc.value, parse) then "flatten failed" else "insert failed")
  {
  }

  lemma NewRowsHaveThePolicy(t: EvidenceTable, t': EvidenceTable, doc: Option<Document>, parse: TimeParser,
                             uuid: nat -> string, fault: Fault, now: int)
    requires t' == TableAfter(t, doc, parse, uuid, fault, now)
    ensures !Ingested(doc, parse, fault) ==> t' == t
    ensures doc.Some? ==> NamesPolicy(ReferencesOf(doc.value), PolicyOf(doc.value))
                          && NewRowsHave(t, t', PolicyOf(doc.value))
  {
    if doc.Some? {
      PolicyIdNames(ReferencesOf(doc.value));
      hide NamesPolicy, Refused, CountOf, RowsOfDocument, UpsertAll, KeyOf, FrozenOf, LiveOf, Batch;
      forall k | k in t' && k !in t ensures t'[k].frozen.policyId == PolicyOf(doc.value) {
        var rs := Batch(doc.value, parse, uuid);
        BatchIsAFoldPerKey(t, rs, now, k);
        var i: nat :| i < |rs| && KeyOf(rs[i]) == k;
        FirstMention(rs, i);
        var f: nat :| EvidenceStore.IsFirst(rs, f) && KeyOf(rs[f]) == k;
        BatchHasThePolicy(doc.value, parse, uuid, f);
      }
    }
  }

  lemma EndedJob(jobs: Jobs, id: string, outcome: Outcome, now: int)
    ensures id in jobs ==> var after := EndStep(jobs, id, outcome, now);
                           id in after && (after[id].status.Completed? <==> !outcome.Fails?)
  {
  }

  function WorkOutcome(artifact: Artifact, parse: TimeParser, fault: Fault): Outcome {
    match artifact
    case Invalid => Fails("invalid artifact")
    case Log(doc) => LogOutcome(doc, parse, fault)
    case Artifact(Ok(a)) => Stores(a.0, a.1)
    case Artifact(Err) => Fails("store failed")
    case Unsupported => Fails("unsupported artifact type")
  }

  /** `IngestWorker`: whatever the text, the job gets exactly one end, and evidence is written for a log only. */
  method Work(id: string, artifact: Artifact, parse: TimeParser, uuid: nat -> string, store: Store, fault: Fault,
              pub: Publisher?, tracker: Tracker, now: int)
    requires tracker.Valid()
    modifies store`evidence, tracker.jobs.Values, if pub == null then {} else {pub}
    ensures tracker.Valid()
    ensures tracker.View() == EndStep(old(tracker.View()), id, WorkOutcome(artifact, parse, fault), now)
    ensures id in old(tracker.View()) ==>
              id in tracker.View() &&
              (tracker.View()[id].status.Completed? <==>
               if artifact.Log? then Ingested(artifact.doc, parse, fault)
               else artifact.Artifact? && artifact.stored.Ok?)
    ensures pub != null ==>
              pub.events == old(pub.events) + if artifact.Log? && Announced(artifact.doc, parse, fault)
                                              then [(PolicyOf(artifact.doc.value), CountOf(artifact.doc.value))] else []
    ensures artifact.Log? ==> store.evidence == TableAfter(old(store.evidence), artifact.doc, parse, uuid, fault, now)
    ensures !artifact.Log? ==> store.evidence == old(store.evidence)
  {
    EndedJob(tracker.View(), id, WorkOutcome(artifact, parse, fault), now);
    hide EndStep, LogOutcome, TableAfter, Ingested, Announced, CountOf, PolicyOf, NewRowsHave, NamesPolicy;
    match artifact {
      case Invalid => tracker.Fail(id, "invalid artifact", now);
      case Log(doc) => HandleEvidenceIngest(id, doc, parse, uuid, store, fault, pub, tracker, now);
      case Artifact(stored) =>
        if stored.Err? {
          tracker.Fail(id, "store failed", now);
        } else {
          tracker.CompleteArtifact(id, stored.value.0, stored.value.1, now);
        }
      case Unsupported => tracker.Fail(id, "unsupported artifact type", now);
    }
  }

  /** The bus for uploads: the jobs whose event it took, and for the record the tracker's jobs as each was taken. */
  class Bus {
    var connected: bool
    var events: seq<string>
    ghost var views: seq<Jobs>

    constructor (connected: bool)
      ensures this.connected == connected && events == [] && views == []
    {
      this.connected, events, views := connected, [], [];
    }

    /** `sent` says whether the connection takes the event. */
    method PublishIngestRaw(id: string, sent: bool, ghost view: Jobs) returns (ok: bool)
      modifies `events, `views
      ensures ok == (connected && sent)
      ensures events == old(events) + if ok then [id] else []
      ensures views == old(views) + if ok then [view] else []
    {
      ok := connected && sent;
      if ok {
        events, views := events + [id], views + [view];
      }
    }
  }

  /**
   `IngestAsyncHandler`; a bus that is not there takes nothing. An upload is accepted exactly if its event is taken, and
   then its job was there, and pending, before. A job that cannot be published fails at once.
   */
  method RequestIngest(tracker: Tracker, bus: Bus?, id: string, empty: bool, sent: bool, now: int, later: int)
    returns (accepted: bool)
    requires tracker.Valid()
    modifies tracker, tracker.jobs.Values, if bus == null then {} else {bus}
    ensures tracker.Valid() && accepted == (!empty && bus != null && bus.connected && sent)
    ensures tracker.View() ==
              if empty then old(tracker.View())
              else if accepted then CreateStep(old(tracker.View()), id, now)
              else EndStep(CreateStep(old(tracker.View()), id, now), id, Fails("publish failed"), later)
    ensures bus != null ==> bus.connected == old(bus.connected)
    ensures bus != null ==> bus.events == old(bus.events) + if accepted then [id] else []
    ensures bus != null && !accepted ==> bus.views == old(bus.views)
    ensures accepted ==>
              && |bus.views| == |old(bus.views)| + 1 && old(bus.views) < bus.views
              && var jobs := bus.views[|old(bus.views)|];
                 id in jobs && jobs[id].status.Pending? && jobs == tracker.View()
  {
    if empty {
      return false;
    }
    tracker.Create(id, now);
    if bus != null {
      accepted := bus.PublishIngestRaw(id, sent, tracker.View());
    } else {
      accepted := false;
    }
    if !accepted {
      tracker.Fail(id, "publish failed", later);
    }
  }

  // ---- From the document to the query ----

  /** A completed job has inserted what it says: one row for each assessment, and as many new keys at most. */
  lemma InsertedIsTheAssessments(t: EvidenceTable, doc: Document, parse: TimeParser, uuid: nat -> string, fault: Fault,
                                 now: int)
    requires LogOutcome(Some(doc), parse, fault).Completes?
    ensures LogOutcome(Some(doc), parse, fault).inserted == |Batch(doc, parse, uuid)| == CountOf(doc)
    ensures var t' := TableAfter(t, Some(doc), parse, uuid, fault, now);
            |t'| - |t| == |NewKeys(t, Batch(doc, parse, uuid))| <= CountOf(doc)
  {
    RowsCounted(doc, parse);
    hide RowsOfDocument, UpsertAll, NewKeys, ToRecords, NormalizedAll, Refused;
    GrowthIsNewKeys(t, Batch(doc, parse, uuid), now);
  }

  /** The time of a record: none is the zero time. */
  predicate IsTime(parse: TimeParser, s: string, at: int) {
    if s == "" then at == ZERO_TIME else parse(s) == Some(at)
  }

  /** Record `i` of an evaluation log's batch is its `i`th assessment's, under the log's policy and its own time. */
  lemma BatchIsTheAssessments(log: EvaluationLog, parse: TimeParser, uuid: nat -> string, i: nat)
    requires !Refused(Evaluations(log), parse) && i < |Assessments(log.evaluations)|
    ensures var p, rs := Assessments(log.evaluations)[i], Batch(Evaluations(log), parse, uuid);
            exists at :: IsTime(parse, p.1.start, at)
                         && Nth(rs, i) ==
                            Some(AssessmentRecord(log, PolicyOf(Evaluations(log)), p.0, p.1, at, uuid(i)))
  {
    var p := Assessments(log.evaluations)[i];
    assert p in Assessments(log.evaluations);
    hide Normalized, ToRecord, EvaluationRow;
    assert IsTime(parse, p.1.start, TimeOr(parse, p.1.start, ZERO_TIME));
  }

  /** And of an enforcement log's its `i`th finding's, at its action's time. */
  lemma BatchIsTheFindings(log: EnforcementLog, parse: TimeParser, uuid: nat -> string, i: nat)
    requires !Refused(Enforcements(log), parse) && i < |Findings(log.actions)|
    ensures var p, rs := Findings(log.actions)[i], Batch(Enforcements(log), parse, uuid);
            exists at :: IsTime(parse, p.0.start, at)
                         && Nth(rs, i) ==
                            Some(FindingRecord(log, PolicyOf(Enforcements(log)), p.0, p.1, at, uuid(i)))
  {
    var p := Findings(log.actions)[i];
    FindingsPresent(log.actions, i);
    hide Normalized, ToRecord, EnforcementRow;
    assert IsTime(parse, p.0.start, TimeOr(parse, p.0.start, ZERO_TIME));
  }

  /** Every row of a batch is stored under the document's policy, the one its event names. */
  lemma BatchHasThePolicy(doc: Document, parse: TimeParser, uuid: nat -> string, i: nat)
    requires i < |Batch(doc, parse, uuid)|
    ensures FrozenOf(Batch(doc, parse, uuid)[i]).policyId == PolicyOf(doc)
  {
  }

  /**
   Whether the query that an event leads to finds a row of its batch: a row that is new is found if it was put in
   since; a row that was there keeps its old policy and its old time, so it is found only if those still qualify.
   */
  lemma RecentAfterIngestIff(t: EvidenceTable, doc: Document, parse: TimeParser, uuid: nat -> string, fault: Fault,
                             now: int, since: int, i: nat)
    requires LogOutcome(Some(doc), parse, fault).Completes? && i < |Batch(doc, parse, uuid)|
    ensures var k := KeyOf(Batch(doc, parse, uuid)[i]);
            k in Certification.Recent(TableAfter(t, Some(doc), parse, uuid, fault, now), PolicyOf(doc), since) <==>
            if k in t then t[k].frozen.policyId == PolicyOf(doc) && t[k].ingestedAt >= since else now >= since
  {
    hide Refused, RowsOfDocument, UpsertAll, KeyOf, FrozenOf, LiveOf, Batch, PolicyOf;
    var rs := Batch(doc, parse, uuid);
    var k := KeyOf(rs[i]);
    BatchIsAFoldPerKey(t, rs, now, k);
    assert rs[i] in rs && Mentions(rs, k);
    if k !in t {
      FirstMention(rs, i);
      var f: nat :| EvidenceStore.IsFirst(rs, f) && KeyOf(rs[f]) == k;
      BatchHasThePolicy(doc, parse, uuid, f);
    }
  }

  lemma {:induction false} FirstMention(rs: seq<EvidenceRecord>, i: nat)
    requires i < |rs|
    ensures exists f: nat :: EvidenceStore.IsFirst(rs, f) && KeyOf(rs[f]) == KeyOf(rs[i])
  {
    hide KeyOf;
    if j: nat :| j < i && KeyOf(rs[j]) == KeyOf(rs[i]) {
      FirstMention(rs, j);
    } else {
      assert EvidenceStore.IsFirst(rs, i);
    }
  }
}
