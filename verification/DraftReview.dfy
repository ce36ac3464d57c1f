/**
 Review and promotion of draft audit logs. The two tables are maps keyed by their primary keys; a
 single SQL statement, or a transaction, is one atomic step; a request is several steps, between
 which other requests run.
 */
module DraftReview {
  import opened DraftMerge
  import opened Options

  /** The status column: empty, `pending_review`, `promoted`, or any other text. */
  datatype Status = Unset | PendingReview | Promoted | Other(name: string)

  /** The columns that promotion copies and nothing changes. */
  datatype Info = Info(policyId: string, auditStart: int, auditEnd: int, framework: string, summary: string,
                       model: string, promptVersion: string)

  datatype Draft = Draft(info: Info, content: string, edits: EditsInput, status: Status, reviewedBy: Option<string>)

  datatype AuditLog = AuditLog(info: Info, createdBy: string, content: string)

  datatype Tables = Tables(drafts: map<string, Draft>, logs: map<string, AuditLog>)

  // ---- Statements ----

  /** `UPDATE ... SET reviewer_edits WHERE draft_id AND status = 'pending_review'`. */
  function EditStatement(t: Tables, id: string, edits: EditsInput): Tables {
    if id in t.drafts && t.drafts[id].status.PendingReview?
    then t.(drafts := t.drafts[id := t.drafts[id].(edits := edits)])
    else t
  }

  /** The official log that promotion builds from the draft it has read. */
  function OfficialLog(draft: Draft, reviewer: string): AuditLog {
    AuditLog(draft.info, reviewer, Merged(draft.content, draft.edits))
  }

  /** The promoting transaction: insert the log, then mark the draft, whatever its status is by then. */
  function PromotionTransaction(t: Tables, auditId: string, log: AuditLog, id: string, reviewer: string): Option<Tables>
  {
    if auditId in t.logs then None
    else
      var logs := t.logs[auditId := log];
      if id in t.drafts
      then Some(Tables(t.drafts[id := t.drafts[id].(status := Promoted, reviewedBy := Some(reviewer))], logs))
      else Some(Tables(t.drafts, logs))
  }

  datatype ReviewError = NoError | DraftNotFound | DraftAlreadyPromoted | StoreError

  /** The store's draft functions, each run without interruption. */
  class AuditStore {
    var drafts: map<string, Draft>
    var logs: map<string, AuditLog>

    function View(): Tables
      reads this
    {
      Tables(drafts, logs)
    }

    constructor ()
      ensures View() == Tables(map[], map[])
    {
      drafts, logs := map[], map[];
    }

    /** A new draft without a status waits for review; an id already there is a key violation. */
    method InsertDraft(id: string, draft: Draft) returns (ok: bool)
      modifies this
      ensures ok == (id !in old(drafts)) && logs == old(logs)
      ensures !ok ==> drafts == old(drafts)
      ensures ok ==>
                var status := if draft.status.Unset? then PendingReview else draft.status;
                drafts == old(drafts)[id := draft.(status := status)]
    {
      var d := draft;
      if d.status.Unset? {
        d := d.(status := PendingReview);
      }
      ok := id !in drafts;
      if ok {
        drafts := drafts[id := d];
      }
    }

    method GetDraft(id: string) returns (draft: Option<Draft>)
      ensures draft == if id in drafts then Some(drafts[id]) else None
    {
      draft := if id in drafts then Some(drafts[id]) else None;
    }

    method ExecEdit(id: string, edits: EditsInput)
      modifies this
      ensures View() == EditStatement(old(View()), id, edits)
    {
      if id in drafts && drafts[id].status.PendingReview? {
        drafts := drafts[id := drafts[id].(edits := edits)];
      }
    }

    method ExecPromotion(auditId: string, log: AuditLog, id: string, reviewer: string) returns (ok: bool)
      modifies this
      ensures var after := PromotionTransaction(old(View()), auditId, log, id, reviewer);
              ok == after.Some? && View() == if ok then after.value else old(View())
    {
      ok := auditId !in logs;
      if ok {
        logs := logs[auditId := log];
        if id in drafts {
          drafts := drafts[id := drafts[id].(status := Promoted, reviewedBy := Some(reviewer))];
        }
      }
    }

    /** Uninterrupted, an edit is stored exactly when the draft is there and pending. */
    method UpdateDraftEdits(id: string, edits: EditsInput) returns (err: ReviewError)
      modifies this
      ensures err == if id !in old(drafts) then DraftNotFound
                     else if old(drafts)[id].status != PendingReview then DraftAlreadyPromoted else NoError
      ensures err.NoError? ==> drafts == old(drafts)[id := old(drafts)[id].(edits := edits)] && logs == old(logs)
      ensures !err.NoError? ==> View() == old(View())
    {
      var draft := GetDraft(id);
      if draft.None? {
        return DraftNotFound;
      }
      if draft.value.status != PendingReview {
        return DraftAlreadyPromoted;
      }
      ExecEdit(id, edits);
      err := NoError;
    }

    /** Uninterrupted, promotion adds one log, the merge of the draft as it stands, and marks the draft. */
    method PromoteDraftAuditLog(id: string, reviewer: string, auditId: string) returns (err: ReviewError)
      modifies this
      ensures err == if id !in old(drafts) then DraftNotFound
                     else if old(drafts)[id].status.Promoted? then DraftAlreadyPromoted
                     else if auditId in old(logs) then StoreError else NoError
      ensures err.NoError? ==>
                var d := old(drafts)[id];
                && drafts == old(drafts)[id := d.(status := Promoted, reviewedBy := Some(reviewer))]
                && logs == old(logs)[auditId := AuditLog(d.info, reviewer, Merged(d.content, d.edits))]
                && logs[auditId] == OfficialLog(d, reviewer)
      ensures !err.NoError? ==> View() == old(View())
    {
      var draft := GetDraft(id);
      if draft.None? {
        return DraftNotFound;
      }
      if draft.value.status.Promoted? {
        return DraftAlreadyPromoted;
      }
      var merged, parsed := MergeReviewerEdits(draft.value.content, draft.value.edits);
      if !parsed {
        merged := draft.value.content;
      }
      var ok := ExecPromotion(auditId, AuditLog(draft.value.info, reviewer, merged), id, reviewer);
      err := if ok then NoError else StoreError;
    }
  }

  // ---- Interleaved requests ----

  /** A request between its read and its write. */
  datatype Request =
    | Editing(draftId: string, edits: EditsInput)
    | Promoting(draftId: string, reviewer: string, snapshot: Draft, version: nat)

  /** Which draft a log came from, and which of the edits values the draft held it was made with. */
  datatype Origin = Origin(draftId: string, version: nat)

  /**
   The tables, the requests under way, and for the record: every edits value each draft has held,
   oldest first, and the origin of each log.
   */
  datatype State = State(tables: Tables, requests: map<nat, Request>, held: map<string, seq<EditsInput>>,
                         origins: map<string, Origin>)

  const INIT := State(Tables(map[], map[]), map[], map[], map[])

  datatype Action =
    | Create(id: string, info: Info, content: string)
    | EditRead(request: nat, id: string, edits: EditsInput)
    | EditWrite(request: nat)
    | PromoteRead(request: nat, id: string, reviewer: string)
    | PromoteCommit(request: nat, auditId: string)
    | Abandon(request: nat)

  function CreateStep(s: State, id: string, info: Info, content: string): State {
    if id in s.tables.drafts then s
    else s.(tables := s.tables.(drafts := s.tables.drafts[id := Draft(info, content, Blank, PendingReview, None)]),
            held := s.held[id := [Blank]])
  }

  /** The guarded UPDATE: its value is on record if it was stored. */
  function EditStep(s: State, q: nat): State {
    if q !in s.requests || !s.requests[q].Editing? then s
    else
      var Editing(id, edits) := s.requests[q];
      var written := id in s.tables.drafts && s.tables.drafts[id].status.PendingReview?;
      s.(tables := EditStatement(s.tables, id, edits),
         requests := s.requests - {q},
         held := if written && id in s.held then s.held[id := s.held[id] + [edits]] else s.held)
  }

  function PromoteReadStep(s: State, q: nat, id: string, reviewer: string): State {
    if q in s.requests || id !in s.tables.drafts || s.tables.drafts[id].status.Promoted?
       || id !in s.held || s.held[id] == [] then s
    else s.(requests := s.requests[q := Promoting(id, reviewer, s.tables.drafts[id], |s.held[id]| - 1)])
  }

  function CommitStep(s: State, q: nat, auditId: string): State {
    if q !in s.requests || !s.requests[q].Promoting? then s
    else
      var Promoting(id, reviewer, snapshot, version) := s.requests[q];
      var after := PromotionTransaction(s.tables, auditId, OfficialLog(snapshot, reviewer), id, reviewer);
      if after.None? then s.(requests := s.requests - {q})
      else s.(tables := after.value, requests := s.requests - {q},
              origins := s.origins[auditId := Origin(id, version)])
  }

  /** One atomic step; an action that is not possible, or whose request is refused, changes nothing. */
  function Step(s: State, a: Action): State {
    match a
    case Create(id, info, content) => CreateStep(s, id, info, content)
    case EditRead(q, id, edits) =>
      if q in s.requests || id !in s.tables.drafts || s.tables.drafts[id].status != PendingReview then s
      else s.(requests := s.requests[q := Editing(id, edits)])
    case EditWrite(q) => EditStep(s, q)
    case PromoteRead(q, id, reviewer) => PromoteReadStep(s, q, id, reviewer)
    case PromoteCommit(q, auditId) => CommitStep(s, q, auditId)
    case Abandon(q) => s.(requests := s.requests - {q})
  }

  function Run(actions: seq<Action>): State {
    if actions == [] then INIT else Step(Run(actions[..|actions| - 1]), actions[|actions| - 1])
  }

  /** The state and its record agree. */
  ghost predicate Valid(s: State) {
    && s.held.Keys == s.tables.drafts.Keys
    && s.origins.Keys == s.tables.logs.Keys
    && (forall d <- s.tables.drafts :: DraftValid(s, d))
    && (forall q <- s.requests :: s.requests[q].Promoting? ==> RequestValid(s, s.requests[q]))
    && (forall a <- s.tables.logs :: LogValid(s, a))
    && (forall d <- s.tables.drafts :: s.tables.drafts[d].status.Promoted? ==> LogsOf(s.origins, d) != {})
  }

  ghost predicate DraftValid(s: State, d: string)
    requires d in s.tables.drafts
  {
    && d in s.held && s.held[d] != []
    && s.held[d][|s.held[d]| - 1] == s.tables.drafts[d].edits
    && (s.tables.drafts[d].status.PendingReview? || s.tables.drafts[d].status.Promoted?)
  }

  ghost predicate RequestValid(s: State, q: Request)
    requires q.Promoting?
  {
    && q.draftId in s.tables.drafts && q.draftId in s.held && q.version < |s.held[q.draftId]|
    && q.snapshot.content == s.tables.drafts[q.draftId].content
    && q.snapshot.info == s.tables.drafts[q.draftId].info
    && q.snapshot.edits == s.held[q.draftId][q.version]
  }

  /** Log `a` is the merge of its draft with an edits value the draft really held, and the draft is promoted. */
  ghost predicate LogValid(s: State, a: string)
    requires a in s.tables.logs
  {
    && a in s.origins
    && var Origin(d, v) := s.origins[a];
       && d in s.tables.drafts && s.tables.drafts[d].status.Promoted?
       && d in s.held && v < |s.held[d]|
       && s.tables.logs[a].content == Merged(s.tables.drafts[d].content, s.held[d][v])
       && s.tables.logs[a].info == s.tables.drafts[d].info
  }

  ghost function LogsOf(origins: map<string, Origin>, d: string): set<string> {
    set a | a in origins && origins[a].draftId == d
  }

  /** A promotion whose read and write nothing comes between adds one log, by its reviewer, and marks the draft. */
  lemma PromotionInOneGo(s: State, q: nat, id: string, reviewer: string, auditId: string)
    requires Valid(s) && q !in s.requests && auditId !in s.tables.logs
    requires id in s.tables.drafts && !s.tables.drafts[id].status.Promoted?
    ensures var d, read := s.tables.drafts[id], Step(s, PromoteRead(q, id, reviewer));
            var t := Step(read, PromoteCommit(q, auditId)).tables;
            && t.drafts == s.tables.drafts[id := d.(status := Promoted, reviewedBy := Some(reviewer))]
            && t.logs == s.tables.logs[auditId := AuditLog(d.info, reviewer, Merged(d.content, d.edits))]
  {
    hide Merged;
    assert DraftValid(s, id);
  }

  // ---- Every run ----

  /** Draft `d` is not lost or rewritten, its promotion is final, and its edits record only grows. */
  ghost predicate Kept(s: State, s': State, d: string)
    requires d in s.tables.drafts
  {
    && d in s'.tables.drafts && d in s.held && d in s'.held && s.held[d] <= s'.held[d]
    && s'.tables.drafts[d].content == s.tables.drafts[d].content
    && s'.tables.drafts[d].info == s.tables.drafts[d].info
    && (s.tables.drafts[d].status.Promoted? ==>
          && s'.tables.drafts[d].status.Promoted? && s'.held[d] == s.held[d]
          && s'.tables.drafts[d].edits == s.tables.drafts[d].edits)
  }

  ghost predicate Extends(s: State, s': State) {
    forall d <- s.tables.drafts :: Kept(s, s', d)
  }

  lemma StepExtends(s: State, a: Action)
    requires Valid(s)
    ensures Extends(s, Step(s, a))
  {
    assert forall d <- s.tables.drafts :: DraftValid(s, d);
    hide Valid, Step, Kept;
    forall d | d in s.tables.drafts ensures Kept(s, Step(s, a), d) {
      StepKeeps(s, a, d);
    }
  }

  lemma StepKeeps(s: State, a: Action, d: string)
    requires d in s.tables.drafts && d in s.held
    ensures Kept(s, Step(s, a), d)
  {
    hide Merged, EditStep, CommitStep;
    match a
    case EditWrite(q) => EditKeeps(s, q, d);
    case PromoteCommit(q, auditId) => CommitKeeps(s, q, auditId, d);
    case _ =>
  }

  lemma EditKeeps(s: State, q: nat, d: string)
    ensures d in s.tables.drafts && d in s.held ==> Kept(s, EditStep(s, q), d)
  {
  }

  lemma CommitKeeps(s: State, q: nat, auditId: string, d: string)
    requires d in s.tables.drafts && d in s.held
    ensures Kept(s, CommitStep(s, q, auditId), d)
  {
    hide Merged;
  }

  lemma ExtendKeepsRequest(s: State, s': State, q: Request)
    ensures Extends(s, s') && q.Promoting? && RequestValid(s, q) ==> RequestValid(s', q)
  {
  }

  lemma ExtendKeepsLog(s: State, s': State, a: string)
    requires Extends(s, s') && a in s.tables.logs && LogValid(s, a)
    requires a in s'.tables.logs && a in s'.origins
    requires s'.tables.logs[a] == s.tables.logs[a] && s'.origins[a] == s.origins[a]
    ensures LogValid(s', a)
  {
    hide Merged;
  }

  /** Each draft has its record, and is valid. */
  ghost predicate DraftsValid(s: State) {
    s.held.Keys == s.tables.drafts.Keys && forall d <- s.tables.drafts :: DraftValid(s, d)
  }

  lemma StepKeepsDrafts(s: State, a: Action)
    requires Valid(s)
    ensures DraftsValid(Step(s, a))
  {
    assert DraftsValid(s);
    hide Valid, EditStep, CommitStep, CreateStep, DraftsValid, PromoteReadStep;
    match a
    case Create(id, info, content) => CreateKeepsDrafts(s, id, info, content);
    case EditWrite(q) => EditKeepsDrafts(s, q);
    case PromoteCommit(q, auditId) => CommitKeepsDrafts(s, q, auditId);
    case PromoteRead(q, id, reviewer) =>
      ReadLeavesDrafts(s, q, id, reviewer);
      SameDrafts(s, Step(s, a));
    case _ => SameDrafts(s, Step(s, a));
  }

  lemma ReadLeavesDrafts(s: State, q: nat, id: string, reviewer: string)
    ensures PromoteReadStep(s, q, id, reviewer).tables == s.tables && PromoteReadStep(s, q, id, reviewer).held == s.held
  {
  }

  lemma SameDrafts(s: State, s': State)
    ensures s'.tables == s.tables && s'.held == s.held && DraftsValid(s) ==> DraftsValid(s')
  {
  }

  lemma CreateKeepsDrafts(s: State, id: string, info: Info, content: string)
    ensures DraftsValid(s) ==> DraftsValid(CreateStep(s, id, info, content))
  {
  }

  lemma EditKeepsDrafts(s: State, q: nat)
    ensures DraftsValid(s) ==> DraftsValid(EditStep(s, q))
  {
  }

  lemma CommitKeepsDrafts(s: State, q: nat, auditId: string)
    ensures DraftsValid(s) ==> DraftsValid(CommitStep(s, q, auditId))
  {
    hide Merged;
  }

  lemma StepKeepsRequests(s: State, a: Action)
    requires Valid(s)
    ensures var s' := Step(s, a);
            forall q <- s'.requests :: s'.requests[q].Promoting? ==> RequestValid(s', s'.requests[q])
  {
    hide Merged, LogValid, LogsOf, DraftValid, Extends;
    var s' := Step(s, a);
    StepExtends(s, a);
    forall q | q in s'.requests && s'.requests[q].Promoting? ensures RequestValid(s', s'.requests[q]) {
      if q !in s.requests {
        assert DraftValid(s, a.id);
        NewRequestValid(s, a);
      } else {
        ExtendKeepsRequest(s, s', s.requests[q]);
      }
    }
  }

  lemma NewRequestValid(s: State, a: Action)
    requires a.PromoteRead? && a.id in s.tables.drafts && DraftValid(s, a.id)
    requires s.tables.drafts[a.id].status != Promoted && a.request !in s.requests
    ensures var requests := Step(s, a).requests;
            a.request in requests && requests[a.request].Promoting? && RequestValid(Step(s, a), requests[a.request])
  {
  }

  lemma StepKeepsLogs(s: State, a: Action)
    requires Valid(s)
    ensures var s' := Step(s, a);
            && s'.origins.Keys == s'.tables.logs.Keys && (forall x <- s'.tables.logs :: LogValid(s', x))
            && (forall d <- s'.tables.drafts :: s'.tables.drafts[d].status.Promoted? ==> LogsOf(s'.origins, d) != {})
  {
    hide Merged, RequestValid, DraftValid, Extends, LogsOf, LogValid;
    if a.PromoteCommit? {
      CommitKeepsLogs(s, a.request, a.auditId);
    } else {
      StepExtends(s, a);
      forall x | x in s.tables.logs ensures LogValid(Step(s, a), x) {
        ExtendKeepsLog(s, Step(s, a), x);
      }
    }
  }

  /** Committing adds one log to its draft and to no other. */
  lemma CommitAddsLog(s: State, q: nat, auditId: string, d: string)
    requires q in s.requests && s.requests[q].Promoting?
    requires auditId !in s.tables.logs && auditId !in s.origins
    ensures LogsOf(CommitStep(s, q, auditId).origins, d)
         == LogsOf(s.origins, d) + (if d == s.requests[q].draftId then {auditId} else {})
  {
  }

  lemma CommitKeepsLogs(s: State, q: nat, auditId: string)
    requires Valid(s)
    ensures var s' := CommitStep(s, q, auditId);
            && s'.origins.Keys == s'.tables.logs.Keys && (forall x <- s'.tables.logs :: LogValid(s', x))
            && (forall d <- s'.tables.drafts :: s'.tables.drafts[d].status.Promoted? ==> LogsOf(s'.origins, d) != {})
  {
    hide Merged, RequestValid, DraftValid, Extends, LogsOf, LogValid;
    var s' := CommitStep(s, q, auditId);
    StepExtends(s, PromoteCommit(q, auditId));
    forall x | x in s.tables.logs ensures x in s'.tables.logs && x in s'.origins && LogValid(s', x) {
      ExtendKeepsLog(s, s', x);
    }
    if q in s.requests && s.requests[q].Promoting? && auditId !in s.tables.logs {
      NewLogValid(s, q, auditId);
      forall d | d in s'.tables.drafts && s'.tables.drafts[d].status.Promoted?
        ensures LogsOf(s'.origins, d) != {}
      {
        CommitAddsLog(s, q, auditId, d);
      }
    }
  }

  lemma NewLogValid(s: State, q: nat, auditId: string)
    requires q in s.requests && s.requests[q].Promoting? && RequestValid(s, s.requests[q])
    requires auditId !in s.tables.logs
    ensures auditId in CommitStep(s, q, auditId).tables.logs && LogValid(CommitStep(s, q, auditId), auditId)
  {
    hide Merged;
  }

  lemma StepKeepsValid(s: State, a: Action)
    requires Valid(s)
    ensures Valid(Step(s, a))
  {
    StepKeepsDrafts(s, a);
    StepKeepsRequests(s, a);
    StepKeepsLogs(s, a);
    hide Step, DraftValid, RequestValid, LogValid, LogsOf;
  }

  lemma {:induction false} RunIsValid(actions: seq<Action>)
    ensures Valid(Run(actions))
  {
    if actions != [] {
      RunIsValid(actions[..|actions| - 1]);
      StepKeepsValid(Run(actions[..|actions| - 1]), actions[|actions| - 1]);
    }
  }

  /**
   In every interleaving: each official log holds its draft's content merged with an edits value the
   draft has held (or the content itself, if that value does not parse); a draft is promoted exactly
   when it has an official log; and a promoted draft is still there.
   */
  lemma OfficialLogsAreMerges(actions: seq<Action>)
    ensures var s := Run(actions);
            && (forall a <- s.tables.logs ::
                  && a in s.origins
                  && var Origin(d, v) := s.origins[a];
                     && d in s.tables.drafts && d in s.held && v < |s.held[d]|
                     && s.tables.logs[a].content == Merged(s.tables.drafts[d].content, s.held[d][v]))
            && (forall d <- s.tables.drafts :: s.tables.drafts[d].status.Promoted? <==> LogsOf(s.origins, d) != {})
  {
    RunIsValid(actions);
    hide Merged, Run;
    var s := Run(actions);
    forall d | d in s.tables.drafts && LogsOf(s.origins, d) != {}
      ensures s.tables.drafts[d].status.Promoted?
    {
      var a :| a in LogsOf(s.origins, d);
      assert a in s.tables.logs;
      assert LogValid(s, a);
    }
  }

  /** What a step leaves of a draft that is promoted: its content, its edits, its edits record. */
  ghost function Frozen(s: State, d: string): Option<(string, EditsInput, seq<EditsInput>)> {
    if d in s.tables.drafts && d in s.held && s.tables.drafts[d].status.Promoted?
    then Some((s.tables.drafts[d].content, s.tables.drafts[d].edits, s.held[d])) else None
  }

  /** Once promoted, a draft stays promoted and its edits never change, whatever was under way. */
  lemma {:induction false} PromotedIsFrozen(actions: seq<Action>, more: seq<Action>, d: string)
    requires d in Run(actions).tables.drafts && Run(actions).tables.drafts[d].status.Promoted?
    ensures Frozen(Run(actions + more), d) == Frozen(Run(actions), d) != None
    decreases |more|
  {
    hide Run, Step, Valid, Frozen, Extends;
    if more == [] {
      PromotedHasRecord(actions, d);
      assert actions + more == actions;
    } else {
      var last := actions + more[..|more| - 1];
      PromotedIsFrozen(actions, more[..|more| - 1], d);
      RunIsValid(last);
      RunSnoc(last, more[|more| - 1]);
      assert actions + more == last + [more[|more| - 1]];
      StepExtends(Run(last), more[|more| - 1]);
      StaysFrozen(Run(last), Run(actions + more), d);
    }
  }

  lemma PromotedHasRecord(actions: seq<Action>, d: string)
    requires d in Run(actions).tables.drafts && Run(actions).tables.drafts[d].status.Promoted?
    ensures Frozen(Run(actions), d).Some?
  {
    RunIsValid(actions);
    hide Run;
    assert DraftValid(Run(actions), d);
  }

  lemma StaysFrozen(s: State, s': State, d: string)
    ensures Frozen(s, d).Some? && Extends(s, s') ==> Frozen(s', d) == Frozen(s, d)
  {
  }

  // ---- Whether a log has its draft's last edits ----

  /** The step stores edits of `d`. */
  predicate StoresEdit(s: State, a: Action, d: string) {
    a.EditWrite? && a.request in s.requests && s.requests[a.request].Editing? && s.requests[a.request].draftId == d
    && d in s.tables.drafts && s.tables.drafts[d].status.PendingReview?
  }

  lemma StepHeld(s: State, a: Action, d: string)
    requires Valid(s) && d in s.tables.drafts
    ensures d in s.held && d in Step(s, a).held
    ensures |Step(s, a).held[d]| == |s.held[d]| + (if StoresEdit(s, a, d) then 1 else 0)
  {
    hide Merged, RequestValid, LogValid, LogsOf;
    assert DraftValid(s, d);
  }

  /** The step does not end promotion `q`. */
  predicate Spares(a: Action, q: nat) {
    !((a.PromoteCommit? || a.Abandon?) && a.request == q)
  }

  /** No edits of `d` are stored between steps `i` and `j`. */
  ghost predicate NoEditStored(actions: seq<Action>, i: nat, j: nat, d: string) {
    forall k: nat | i <= k < j && k < |actions| :: !StoresEdit(Run(actions[..k]), actions[k], d)
  }

  lemma RunNext(actions: seq<Action>, n: nat)
    requires n < |actions|
    ensures Run(actions[..n + 1]) == Step(Run(actions[..n]), actions[n])
  {
    assert actions[..n + 1][..n] == actions[..n];
  }

  /** A promotion that is under way keeps what it has read; the draft's record grows by the edits stored meanwhile. */
  lemma {:induction false} HeldWhile(actions: seq<Action>, i: nat, j: nat, q: nat, d: string)
    requires i <= j <= |actions| && PromotesIn(Run(actions[..i]), q, d)
    requires forall k | i <= k < j :: Spares(actions[k], q)
    ensures var s, s' := Run(actions[..i]), Run(actions[..j]);
            && q in s'.requests && s'.requests[q] == s.requests[q]
            && d in s.held && d in s'.held && |s'.held[d]| >= |s.held[d]|
            && (|s'.held[d]| == |s.held[d]| <==> NoEditStored(actions, i, j, d))
    decreases j
  {
    hide Run, Step, Valid, StoresEdit, Merged;
    RunIsValid(actions[..i]);
    PromotedDraftIsThere(Run(actions[..i]), q, d);
    if i < j {
      HeldWhile(actions, i, j - 1, q, d);
      RunIsValid(actions[..j - 1]);
      RunNext(actions, j - 1);
      var s := Run(actions[..j - 1]);
      PromotedDraftIsThere(s, q, d);
      StepHeld(s, actions[j - 1], d);
      StepSpares(s, actions[j - 1], q);
      assert NoEditStored(actions, i, j, d) <==>
             NoEditStored(actions, i, j - 1, d) && !StoresEdit(s, actions[j - 1], d);
    }
  }

  lemma PromotedDraftIsThere(s: State, q: nat, d: string)
    requires Valid(s) && PromotesIn(s, q, d)
    ensures d in s.tables.drafts && d in s.held
  {
    hide Merged;
    assert RequestValid(s, s.requests[q]);
  }

  lemma StepSpares(s: State, a: Action, q: nat)
    ensures q in s.requests && s.requests[q].Promoting? && Spares(a, q) ==>
              q in Step(s, a).requests && Step(s, a).requests[q] == s.requests[q]
  {
  }

  /** At step `i` promotion `q` reads draft `d`, and it is unfinished up to step `j`. */
  ghost predicate ReadSince(actions: seq<Action>, i: nat, j: nat, q: nat, d: string) {
    && i < j <= |actions| && actions[i].PromoteRead? && actions[i].request == q && q !in Run(actions[..i]).requests
    && PromotesIn(Run(actions[..i + 1]), q, d)
    && forall k | i < k < j :: Spares(actions[k], q)
  }

  /** Every promotion under way has been read at some step and spared since. */
  lemma {:induction false} ReadOfPromotion(actions: seq<Action>, j: nat, q: nat, d: string)
    requires j <= |actions| && PromotesIn(Run(actions[..j]), q, d)
    ensures exists i: nat :: ReadSince(actions, i, j, q, d)
    decreases j
  {
    hide Run, Step;
    NothingAtFirst(actions);
    assert j > 0;
    RunNext(actions, j - 1);
    StepPromotes(Run(actions[..j - 1]), actions[j - 1], q, d);
    if PromotesIn(Run(actions[..j - 1]), q, d) {
      ReadOfPromotion(actions, j - 1, q, d);
      var i: nat :| ReadSince(actions, i, j - 1, q, d);
      assert ReadSince(actions, i, j, q, d);
    } else {
      assert ReadSince(actions, j - 1, j, q, d);
    }
  }

  lemma NothingAtFirst(actions: seq<Action>)
    ensures Run(actions[..0]) == INIT
  {
  }

  lemma StepPromotes(s: State, a: Action, q: nat, d: string)
    ensures PromotesIn(Step(s, a), q, d) ==>
              if PromotesIn(s, q, d) then Spares(a, q) else a.PromoteRead? && a.request == q && q !in s.requests
  {
  }

  /**
   A promotion reads at step `i` and commits at step `j`. The log it makes is of the draft's last edits, those that the
   draft then keeps for good, if and only if no edits of the draft were stored between the two.
   */
  lemma LogHasLastEditsIff(actions: seq<Action>, i: nat, j: nat, d: string)
    requires j < |actions| && actions[j].PromoteCommit? && ReadSince(actions, i, j, actions[j].request, d)
    requires actions[j].auditId !in Run(actions[..j]).tables.logs
    ensures var s, a := Run(actions[..j + 1]), actions[j].auditId;
            && a in s.origins && s.origins[a].draftId == d && d in s.held && d in s.tables.drafts
            && s.origins[a].version < |s.held[d]| && s.held[d][|s.held[d]| - 1] == s.tables.drafts[d].edits
            && a in s.tables.logs
            && s.tables.logs[a].content == Merged(s.tables.drafts[d].content, s.held[d][s.origins[a].version])
            && (s.origins[a].version == |s.held[d]| - 1 <==> NoEditStored(actions, i + 1, j, d))
            && (NoEditStored(actions, i + 1, j, d) ==>
                  s.tables.logs[a].content == Merged(s.tables.drafts[d].content, s.tables.drafts[d].edits))
  {
    hide Run, Step, Merged, NoEditStored, Valid, StoresEdit;
    var q := actions[j].request;
    RunNext(actions, i);
    RunNext(actions, j);
    RunIsValid(actions[..j]);
    HeldWhile(actions, i + 1, j, q, d);
    ReadVersion(Run(actions[..i]), actions[i], d);
    CommittedLog(Run(actions[..j]), actions[j], d);
  }

  /** The log that a commit makes, and the draft and its record then. */
  lemma CommittedLog(s: State, a: Action, d: string)
    requires Valid(s) && a.PromoteCommit? && PromotesIn(s, a.request, d) && a.auditId !in s.tables.logs
    ensures var s', x := Step(s, a), a.auditId;
            && d in s.held && s'.held == s.held && x in s'.origins && x in s'.tables.logs && d in s'.tables.drafts
            && s'.origins[x] == Origin(d, s.requests[a.request].version) && s'.origins[x].version < |s.held[d]|
            && s'.held[d][|s'.held[d]| - 1] == s'.tables.drafts[d].edits
            && s'.tables.logs[x].content == Merged(s'.tables.drafts[d].content, s'.held[d][s'.origins[x].version])
  {
    hide Merged, Valid, Step, CommitStep, LogsOf;
    StepKeepsValid(s, a);
    StepIsCommit(s, a);
    CommitOrigin(s, a.request, a.auditId);
    PromotedDraftIsThere(s, a.request, d);
    ValidLog(Step(s, a), a.auditId);
  }

  lemma StepIsCommit(s: State, a: Action)
    ensures a.PromoteCommit? ==> Step(s, a) == CommitStep(s, a.request, a.auditId)
  {
  }

  lemma ValidLog(s: State, a: string)
    requires Valid(s) && a in s.tables.logs
    ensures LogValid(s, a) && DraftValid(s, s.origins[a].draftId)
  {
    hide Merged;
    assert LogValid(s, a);
    assert DraftValid(s, s.origins[a].draftId);
  }

  lemma ReadVersion(s: State, a: Action, d: string)
    ensures a.PromoteRead? && a.request !in s.requests && PromotesIn(Step(s, a), a.request, d) ==>
              d in s.held && Step(s, a).held == s.held && Step(s, a).requests[a.request].version == |s.held[d]| - 1
  {
  }

  lemma CommitOrigin(s: State, q: nat, auditId: string)
    ensures var s' := CommitStep(s, q, auditId);
            q in s.requests && s.requests[q].Promoting? && auditId !in s.tables.logs ==>
              && s'.held == s.held && auditId in s'.tables.logs && auditId in s'.origins
              && s'.origins[auditId] == Origin(s.requests[q].draftId, s.requests[q].version)
  {
  }

  // ---- Promotions that do not overlap ----

  /** Some promotion of `d` is between its read and its commit. */
  ghost predicate PromotionUnderWay(s: State, d: string) {
    exists q :: PromotesIn(s, q, d)
  }

  predicate PromotesIn(s: State, q: nat, d: string) {
    q in s.requests && s.requests[q].Promoting? && s.requests[q].draftId == d
  }

  /** No promotion of `d` is read while another one is under way. */
  ghost predicate PromotedInTurn(actions: seq<Action>, d: string) {
    forall i :: 0 <= i < |actions| && actions[i].PromoteRead? && actions[i].id == d ==>
                  !PromotionUnderWay(Run(actions[..i]), d)
  }

  ghost function PromotionsOf(s: State, d: string): set<nat> {
    set q | q in s.requests && PromotesIn(s, q, d)
  }

  /** At most one promotion of `d` under way, or one log: never both. */
  ghost predicate InTurn(s: State, d: string) {
    |PromotionsOf(s, d)| + |LogsOf(s.origins, d)| <= 1
  }

  lemma StepKeepsTurn(s: State, a: Action, d: string)
    requires Valid(s) && InTurn(s, d)
    requires a.PromoteRead? && a.id == d ==> !PromotionUnderWay(s, d)
    ensures InTurn(Step(s, a), d)
  {
    hide Merged, Valid, LogsOf, InTurn, PromoteReadStep;
    if a.PromoteCommit? {
      CommitKeepsTurn(s, a.request, a.auditId, d);
    } else if a.PromoteRead? {
      if LogsOf(s.origins, d) != {} {
        LoggedIsPromoted(s, d);
      }
      ReadTurn(s, a.request, a.id, a.reviewer, d);
    } else {
      OthersKeepTurn(s, a, d);
    }
  }

  lemma OthersKeepTurn(s: State, a: Action, d: string)
    requires InTurn(s, d) && !a.PromoteCommit? && !a.PromoteRead?
    ensures InTurn(Step(s, a), d)
  {
    hide LogsOf;
    FewerThan(PromotionsOf(Step(s, a), d), PromotionsOf(s, d));
  }

  lemma {:induction false} FewerThan<T>(a: set<T>, b: set<T>)
    ensures a <= b ==> |a| <= |b|
    decreases b
  {
    if x :| x in b {
      FewerThan(a - {x}, b - {x});
    }
  }

  lemma ReadTurn(s: State, q: nat, id: string, reviewer: string, d: string)
    requires InTurn(s, d) && (id == d ==> !PromotionUnderWay(s, d))
    requires LogsOf(s.origins, d) != {} ==> d in s.tables.drafts && s.tables.drafts[d].status.Promoted?
    ensures InTurn(PromoteReadStep(s, q, id, reviewer), d)
  {
    hide LogsOf;
    var s' := PromoteReadStep(s, q, id, reviewer);
    if id == d {
      assert PromotionsOf(s, d) == {};
      FewerThan(PromotionsOf(s', d), {q});
    } else {
      FewerThan(PromotionsOf(s', d), PromotionsOf(s, d));
    }
  }

  lemma LoggedIsPromoted(s: State, d: string)
    requires Valid(s) && LogsOf(s.origins, d) != {}
    ensures d in s.tables.drafts && s.tables.drafts[d].status.Promoted?
  {
    hide Merged;
    var x :| x in LogsOf(s.origins, d);
    assert x in s.tables.logs && LogValid(s, x);
  }

  /** A commit turns a promotion under way into a log. */
  lemma CommitKeepsTurn(s: State, q: nat, auditId: string, d: string)
    requires Valid(s) && InTurn(s, d)
    ensures InTurn(CommitStep(s, q, auditId), d)
  {
    hide Merged, RequestValid, DraftValid, LogsOf, LogValid;
    var s' := CommitStep(s, q, auditId);
    FewerThan(PromotionsOf(s', d), PromotionsOf(s, d) - {q});
    if q in s.requests && s.requests[q].Promoting? && auditId !in s.tables.logs {
      CommitAddsLog(s, q, auditId, d);
      assert s.requests[q].draftId == d ==> q in PromotionsOf(s, d);
    }
  }

  lemma {:induction false} RunInTurn(actions: seq<Action>, d: string)
    requires PromotedInTurn(actions, d)
    ensures InTurn(Run(actions), d)
  {
    if actions != [] {
      var n := |actions| - 1;
      assert PromotedInTurn(actions[..n], d) by {
        assert forall i :: 0 <= i < n ==> actions[..n][i] == actions[i] && actions[..n][..i] == actions[..i];
      }
      RunInTurn(actions[..n], d);
      RunIsValid(actions[..n]);
      StepKeepsTurn(Run(actions[..n]), actions[n], d);
    }
  }

  /** When promotions of a draft come in turn, it has exactly one official log if it is promoted, else none. */
  lemma PromotedHasOneLog(actions: seq<Action>, d: string)
    requires d in Run(actions).tables.drafts && PromotedInTurn(actions, d)
    ensures |LogsOf(Run(actions).origins, d)| == if Run(actions).tables.drafts[d].status.Promoted? then 1 else 0
  {
    OfficialLogsAreMerges(actions);
    RunInTurn(actions, d);
    hide Merged, Run;
    var logs := LogsOf(Run(actions).origins, d);
    assert |logs| == 0 <==> logs == {};
  }

  // ---- Exactly when there is more than one ----

  /** The step commits a promotion of `d`. */
  predicate Commits(s: State, a: Action, d: string) {
    a.PromoteCommit? && a.request in s.requests && s.requests[a.request].Promoting?
    && s.requests[a.request].draftId == d && a.auditId !in s.tables.logs
  }

  /** It does so when the draft is promoted already: what a guard on the status would refuse. */
  predicate CommitsAgain(s: State, a: Action, d: string) {
    Commits(s, a, d) && d in s.tables.drafts && s.tables.drafts[d].status.Promoted?
  }

  lemma StepLogs(s: State, a: Action, d: string)
    requires Valid(s)
    ensures LogsOf(Step(s, a).origins, d) == LogsOf(s.origins, d) + (if Commits(s, a, d) then {a.auditId} else {})
    ensures Commits(s, a, d) ==> a.auditId !in LogsOf(s.origins, d)
    ensures Commits(s, a, d) ==> (CommitsAgain(s, a, d) <==> LogsOf(s.origins, d) != {})
  {
    hide Merged, DraftValid, LogValid;
    if a.PromoteCommit? && a.request in s.requests && s.requests[a.request].Promoting? && a.auditId !in s.tables.logs {
      CommitAddsLog(s, a.request, a.auditId, d);
      if LogsOf(s.origins, d) != {} {
        LoggedIsPromoted(s, d);
      }
    }
  }

  ghost predicate NeverCommittedAgain(actions: seq<Action>, d: string) {
    forall n | 0 <= n < |actions| :: !CommitsAgain(Run(actions[..n]), actions[n], d)
  }

  /** A draft has at most one official log if and only if no promotion of it commits once it is promoted. */
  lemma {:induction false} OneLogIffNeverCommittedAgain(actions: seq<Action>, d: string)
    ensures |LogsOf(Run(actions).origins, d)| <= 1 <==> NeverCommittedAgain(actions, d)
  {
    if actions == [] {
      assert LogsOf(Run(actions).origins, d) == {};
    } else {
      var n := |actions| - 1;
      var s := Run(actions[..n]);
      OneLogIffNeverCommittedAgain(actions[..n], d);
      RunIsValid(actions[..n]);
      StepLogs(s, actions[n], d);
      assert Run(actions) == Step(s, actions[n]);
      hide Run, Step, LogsOf, CommitsAgain, Commits, Valid;
      NeverAgainSnoc(actions, d);
      AddedSize(LogsOf(s.origins, d), actions[n], Commits(s, actions[n], d));
    }
  }

  lemma NeverAgainSnoc(actions: seq<Action>, d: string)
    requires actions != []
    ensures var n := |actions| - 1;
            NeverCommittedAgain(actions, d) <==>
            NeverCommittedAgain(actions[..n], d) && !CommitsAgain(Run(actions[..n]), actions[n], d)
  {
    hide Run, CommitsAgain;
    var n := |actions| - 1;
    assert forall i | 0 <= i < n :: actions[..n][..i] == actions[..i] && actions[..n][i] == actions[i];
  }

  lemma AddedSize(logs: set<string>, a: Action, added: bool)
    ensures (added ==> a.PromoteCommit? && a.auditId !in logs) ==>
              |logs + (if added then {a.auditId} else {})| == |logs| + (if added then 1 else 0)
  {
  }

  // ---- What overlapping requests can do ----

  const SAMPLE := Info("p", 0, 1, "f", "s", "m", "v")

  lemma RunSnoc(actions: seq<Action>, a: Action)
    ensures Run(actions + [a]) == Step(Run(actions), a)
  {
    assert (actions + [a])[..|actions|] == actions;
  }

  /** Two overlapping promotions both commit: the draft has two official logs. */
  lemma OverlapMakesTwoLogs()
    ensures var s := Run([Create("d", SAMPLE, "c")] + [PromoteRead(0, "d", "ann")] + [PromoteRead(1, "d", "bob")]
                         + [PromoteCommit(0, "x")] + [PromoteCommit(1, "y")]);
            LogsOf(s.origins, "d") == {"x", "y"}
  {
    hide Merged, Run;
    ReadOnce();
    var a1 := [Create("d", SAMPLE, "c")] + [PromoteRead(0, "d", "ann")];
    var a2 := a1 + [PromoteRead(1, "d", "bob")];
    RunSnoc(a1, PromoteRead(1, "d", "bob"));
    RunSnoc(a2, PromoteCommit(0, "x"));
    RunSnoc(a2 + [PromoteCommit(0, "x")], PromoteCommit(1, "y"));
  }

  const FRESH := Draft(SAMPLE, "c", Blank, PendingReview, None)

  /** A fresh draft, and a promotion that has read it. */
  lemma ReadOnce()
    ensures Run([Create("d", SAMPLE, "c")] + [PromoteRead(0, "d", "ann")])
         == State(Tables(map["d" := FRESH], map[]), map[0 := Promoting("d", "ann", FRESH, 0)],
                  map["d" := [Blank]], map[])
  {
    var a0 := [Create("d", SAMPLE, "c")];
    RunSnoc([], Create("d", SAMPLE, "c"));
    assert [] + a0 == a0;
    RunSnoc(a0, PromoteRead(0, "d", "ann"));
  }

  /** An edit accepted between a promotion's read and its commit is stored, but not in the official log. */
  lemma EditBetweenReadAndCommitIsLost(edits: EditsInput)
    ensures var s := Run([Create("d", SAMPLE, "c")] + [PromoteRead(0, "d", "ann")] + [EditRead(1, "d", edits)]
                         + [EditWrite(1)] + [PromoteCommit(0, "x")]);
            s.tables == Tables(map["d" := Draft(SAMPLE, "c", edits, Promoted, Some("ann"))],
                               map["x" := AuditLog(SAMPLE, "ann", "c")])
  {
    hide Merged, Run;
    EditedOnce(edits);
    BlankMergesNothing("c");
    var a := [Create("d", SAMPLE, "c")] + [PromoteRead(0, "d", "ann")] + [EditRead(1, "d", edits)] + [EditWrite(1)];
    RunSnoc(a, PromoteCommit(0, "x"));
  }

  lemma BlankMergesNothing(content: string)
    ensures Merged(content, Blank) == content
  {
  }

  /** Edits stored while the promotion is under way. */
  lemma EditedOnce(edits: EditsInput)
    ensures Run([Create("d", SAMPLE, "c")] + [PromoteRead(0, "d", "ann")] + [EditRead(1, "d", edits)] + [EditWrite(1)])
         == State(Tables(map["d" := FRESH.(edits := edits)], map[]), map[0 := Promoting("d", "ann", FRESH, 0)],
                  map["d" := [Blank, edits]], map[])
  {
    hide Merged, Run;
    ReadOnce();
    var a1 := [Create("d", SAMPLE, "c")] + [PromoteRead(0, "d", "ann")];
    RunSnoc(a1, EditRead(1, "d", edits));
    var promoting := Promoting("d", "ann", FRESH, 0);
    assert Run(a1 + [EditRead(1, "d", edits)]).requests == map[0 := promoting, 1 := Editing("d", edits)];
    assert map[0 := promoting, 1 := Editing("d", edits)] - {1} == map[0 := promoting];
    assert [Blank] + [edits] == [Blank, edits];
    RunSnoc(a1 + [EditRead(1, "d", edits)], EditWrite(1));
  }
}
