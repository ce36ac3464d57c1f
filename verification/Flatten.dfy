/**
 From an uploaded log to the records the store gets. The documents are taken as parsed; a nil pointer is None.
 */
module Flatten {
  import opened Options
  import opened EvidenceStore
  import opened Places

  datatype Result<+T> = Ok(value: T) | Err

  datatype MappingReference = MappingReference(id: string, title: string)

  datatype Metadata = Metadata(id: string, version: string, author: string, references: seq<MappingReference>)

  datatype Target = Target(id: string, name: string, kind: string, environment: string, owner: string)

  datatype Entry = Entry(referenceId: string, entryId: string)

  datatype AssessmentLog = AssessmentLog(requirement: Entry, start: string, result: string, message: string,
                                         applicability: seq<string>, confidence: string, stepsExecuted: int,
                                         plan: Option<string>)

  datatype Evaluation = Evaluation(control: Entry, logs: seq<Option<AssessmentLog>>)

  datatype EvaluationLog = EvaluationLog(metadata: Metadata, target: Target, evaluations: seq<Option<Evaluation>>)

  datatype Finding = Finding(requirement: Entry, result: string)

  datatype Action = Action(procedure: Entry, start: string, disposition: string, message: Option<string>,
                           exceptions: seq<string>, findings: seq<Finding>)

  datatype EnforcementLog = EnforcementLog(metadata: Metadata, target: Target, actions: seq<Option<Action>>)

  /** A flattened row. */
  datatype EvidenceRow = EvidenceRow(
    evidenceId: string, targetId: string, targetName: Option<string>, targetType: Option<string>,
    targetEnv: Option<string>, engineName: Option<string>, engineVersion: Option<string>, ruleId: string,
    ruleName: Option<string>, ruleUri: Option<string>, evalResult: string, evalMessage: Option<string>,
    policyId: Option<string>, controlId: Option<string>, controlCatalogId: Option<string>,
    controlCategory: Option<string>, controlApplicability: seq<string>, requirementId: Option<string>,
    planId: Option<string>, confidence: Option<string>, stepsExecuted: Option<nat>, complianceStatus: string,
    riskLevel: Option<string>, requirements: seq<string>, remediationAction: Option<string>,
    remediationStatus: Option<string>, remediationDesc: Option<string>, exceptionId: Option<string>,
    exceptionActive: Option<bool>, enrichmentStatus: string, attestationRef: Option<string>,
    sourceRegistry: Option<string>, blobRef: Option<string>, owner: Option<string>, collectedAt: int)

  const ZERO_TIME := 0

  // ---- One row ----

  function StrPtr(s: string): Option<string> {
    if s == "" then None else Some(s)
  }

  function Uint16Ptr(v: nat): Option<nat> {
    if v == 0 then None else Some(v)
  }

  /** A conversion to 16 bits. */
  function Uint16(v: int): nat {
    v % 0x1_0000
  }

  function EvalResultToCompliance(result: string): string {
    if result == "Passed" then "Compliant"
    else if result == "Failed" then "Non-Compliant"
    else if result == "Not Applicable" then "Not Applicable"
    else "Unknown"
  }

  function DispositionToRemediation(d: string): string {
    if d == "Enforced" then "Remediate"
    else if d == "Tolerated" then "Waive"
    else if d == "Clear" then "Allow"
    else "Unknown"
  }

  /** Reading an RFC 3339 time, as given: None if the text is not one. */
  type TimeParser = string -> Option<int>

  /** `parseDatetime` with its callers' default: no text is the zero time, and other text must be a time. */
  function ParseDatetime(parse: TimeParser, s: string): (r: Result<int>)
    ensures r.Err? <==> BadTime(parse, s)
  {
    if s == "" then Ok(ZERO_TIME)
    else if parse(s).None? then Err
    else Ok(parse(s).value)
  }

  predicate BadTime(parse: TimeParser, s: string) {
    s != "" && parse(s).None?
  }

  function EvaluationRow(log: EvaluationLog, policyId: string, e: Evaluation, a: AssessmentLog, at: int): EvidenceRow {
    EvidenceRow(
      evidenceId := log.metadata.id, targetId := log.target.id, targetName := StrPtr(log.target.name),
      targetType := StrPtr(log.target.kind), targetEnv := StrPtr(log.target.environment),
      engineName := StrPtr(log.metadata.author), engineVersion := StrPtr(log.metadata.version),
      ruleId := e.control.entryId, ruleName := None, ruleUri := None,
      evalResult := a.result, evalMessage := StrPtr(a.message), policyId := StrPtr(policyId),
      controlId := StrPtr(e.control.entryId), controlCatalogId := StrPtr(e.control.referenceId),
      controlCategory := None, controlApplicability := a.applicability, requirementId := StrPtr(a.requirement.entryId),
      planId := if a.plan.Some? then StrPtr(a.plan.value) else None, confidence := StrPtr(a.confidence),
      stepsExecuted := Uint16Ptr(Uint16(a.stepsExecuted)), complianceStatus := EvalResultToCompliance(a.result),
      riskLevel := None, requirements := [], remediationAction := None, remediationStatus := None,
      remediationDesc := None, exceptionId := None, exceptionActive := None, enrichmentStatus := "Success",
      attestationRef := None, sourceRegistry := None, blobRef := None, owner := StrPtr(log.target.owner),
      collectedAt := at)
  }

  function EnforcementRow(log: EnforcementLog, policyId: string, x: Action, f: Finding, at: int): EvidenceRow {
    EvidenceRow(
      evidenceId := log.metadata.id, targetId := log.target.id, targetName := StrPtr(log.target.name),
      targetType := StrPtr(log.target.kind), targetEnv := StrPtr(log.target.environment),
      engineName := StrPtr(log.metadata.author), engineVersion := StrPtr(log.metadata.version),
      ruleId := x.procedure.entryId, ruleName := None, ruleUri := None,
      evalResult := f.result, evalMessage := x.message, policyId := StrPtr(policyId),
      controlId := StrPtr(f.requirement.referenceId), controlCatalogId := StrPtr(x.procedure.referenceId),
      controlCategory := None, controlApplicability := [], requirementId := StrPtr(f.requirement.entryId),
      planId := None, confidence := None, stepsExecuted := None,
      complianceStatus := EvalResultToCompliance(f.result), riskLevel := None, requirements := [],
      remediationAction := StrPtr(DispositionToRemediation(x.disposition)), remediationStatus := StrPtr("Success"),
      remediationDesc := x.message, exceptionId := if x.exceptions == [] then None else StrPtr(x.exceptions[0]),
      exceptionActive := Some(x.exceptions != []), enrichmentStatus := "Success", attestationRef := None,
      sourceRegistry := None, blobRef := None, owner := StrPtr(log.target.owner), collectedAt := at)
  }

  // ---- Document order ----

  /** The assessments of one evaluation, nil entries left out, each with its evaluation. */
  function LogPairs(e: Evaluation, logs: seq<Option<AssessmentLog>>): seq<(Evaluation, AssessmentLog)> {
    if logs == [] then []
    else
      var last := logs[|logs| - 1];
      LogPairs(e, logs[..|logs| - 1]) + (if last.None? then [] else [(e, last.value)])
  }

  /** Those of all evaluations, nil ones left out, in document order. */
  function Assessments(evals: seq<Option<Evaluation>>): seq<(Evaluation, AssessmentLog)> {
    if evals == [] then []
    else
      var last := evals[|evals| - 1];
      Assessments(evals[..|evals| - 1]) + (if last.None? then [] else LogPairs(last.value, last.value.logs))
  }

  function FindingPairs(x: Action): (r: seq<(Action, Finding)>)
    ensures |r| == |x.findings|
  {
    seq(|x.findings|, i requires 0 <= i < |x.findings| => (x, x.findings[i]))
  }

  function Findings(actions: seq<Option<Action>>): seq<(Action, Finding)> {
    if actions == [] then []
    else
      var last := actions[|actions| - 1];
      Findings(actions[..|actions| - 1]) + (if last.None? then [] else FindingPairs(last.value))
  }

  lemma {:induction false} FindingsPresent(actions: seq<Option<Action>>, i: nat)
    requires i < |Findings(actions)|
    ensures Some(Findings(actions)[i].0) in actions
  {
    var n := |actions| - 1;
    if i < |Findings(actions[..n])| {
      FindingsPresent(actions[..n], i);
    } else {
      assert Some(Findings(actions)[i].0) == actions[n];
    }
  }

  lemma NextLog(before: seq<(Evaluation, AssessmentLog)>, e: Evaluation, j: nat)
    requires j < |e.logs|
    ensures before + LogPairs(e, e.logs[..j + 1]) ==
            if e.logs[j].None? then before + LogPairs(e, e.logs[..j])
            else before + LogPairs(e, e.logs[..j]) + [(e, e.logs[j].value)]
  {
    assert e.logs[..j + 1][..j] == e.logs[..j];
  }

  /** How many are there, nil entries left out. */
  function CountPresent<T>(xs: seq<Option<T>>): nat {
    if xs == [] then 0 else CountPresent(xs[..|xs| - 1]) + (if xs[|xs| - 1].Some? then 1 else 0)
  }

  /** The non-nil assessment logs under non-nil evaluations. */
  function AssessmentCount(evals: seq<Option<Evaluation>>): nat {
    if evals == [] then 0
    else
      var last := evals[|evals| - 1];
      AssessmentCount(evals[..|evals| - 1]) + (if last.None? then 0 else CountPresent(last.value.logs))
  }

  /** The assessments under non-nil actions. */
  function FindingCount(actions: seq<Option<Action>>): nat {
    if actions == [] then 0
    else
      var last := actions[|actions| - 1];
      FindingCount(actions[..|actions| - 1]) + (if last.None? then 0 else |last.value.findings|)
  }

  lemma {:induction false} LogPairsCounted(e: Evaluation, logs: seq<Option<AssessmentLog>>)
    ensures |LogPairs(e, logs)| == CountPresent(logs)
  {
    if logs != [] {
      LogPairsCounted(e, logs[..|logs| - 1]);
    }
  }

  lemma {:induction false} AssessmentsCounted(evals: seq<Option<Evaluation>>)
    ensures |Assessments(evals)| == AssessmentCount(evals)
  {
    if evals != [] {
      var last := evals[|evals| - 1];
      AssessmentsCounted(evals[..|evals| - 1]);
      if last.Some? {
        LogPairsCounted(last.value, last.value.logs);
      }
    }
  }

  lemma {:induction false} FindingsCounted(actions: seq<Option<Action>>)
    ensures |Findings(actions)| == FindingCount(actions)
  {
    if actions != [] {
      FindingsCounted(actions[..|actions| - 1]);
    }
  }

  /** Document order: an assessment's place is the number of those before it, in its evaluation and in earlier ones. */
  lemma {:induction false} AssessmentAt(evals: seq<Option<Evaluation>>, i: nat, j: nat)
    requires i < |evals| && evals[i].Some? && j < |evals[i].value.logs| && evals[i].value.logs[j].Some?
    ensures var e := evals[i].value;
            Nth(Assessments(evals), AssessmentCount(evals[..i]) + CountPresent(e.logs[..j])) ==
            Some((e, e.logs[j].value))
  {
    hide LogPairs, CountPresent;
    if i == |evals| - 1 {
      AssessmentsCounted(evals[..i]);
      LogAt(evals[i].value, evals[i].value.logs, j);
    } else {
      AssessmentAt(evals[..|evals| - 1], i, j);
      assert evals[..|evals| - 1][..i] == evals[..i];
    }
  }

  lemma {:induction false} LogAt(e: Evaluation, logs: seq<Option<AssessmentLog>>, j: nat)
    requires j < |logs| && logs[j].Some?
    ensures Nth(LogPairs(e, logs), CountPresent(logs[..j])) == Some((e, logs[j].value))
  {
    if j == |logs| - 1 {
      LogPairsCounted(e, logs[..j]);
    } else {
      LogAt(e, logs[..|logs| - 1], j);
      assert logs[..|logs| - 1][..j] == logs[..j];
    }
  }

  lemma {:induction false} FindingAt(actions: seq<Option<Action>>, i: nat, j: nat)
    requires i < |actions| && actions[i].Some? && j < |actions[i].value.findings|
    ensures var x := actions[i].value;
            Nth(Findings(actions), FindingCount(actions[..i]) + j) == Some((x, x.findings[j]))
  {
    if i == |actions| - 1 {
      FindingsCounted(actions[..i]);
    } else {
      FindingAt(actions[..|actions| - 1], i, j);
      assert actions[..|actions| - 1][..i] == actions[..i];
    }
  }

  lemma NoLogs(before: seq<(Evaluation, AssessmentLog)>, e: Evaluation)
    ensures before + LogPairs(e, e.logs[..0]) == before
  {
  }

  lemma NextEvaluation(evals: seq<Option<Evaluation>>, i: nat)
    requires i < |evals|
    ensures Assessments(evals[..i + 1]) ==
            if evals[i].None? then Assessments(evals[..i])
            else Assessments(evals[..i]) + LogPairs(evals[i].value, evals[i].value.logs)
  {
    assert evals[..i + 1][..i] == evals[..i];
  }

  lemma BadAssessment(evals: seq<Option<Evaluation>>, i: nat, j: nat, parse: TimeParser)
    requires i < |evals| && evals[i].Some? && j < |evals[i].value.logs| && evals[i].value.logs[j].Some?
    requires BadTime(parse, evals[i].value.logs[j].value.start)
    ensures exists p <- Assessments(evals) :: BadTime(parse, p.1.start)
  {
    hide BadTime, Assessments;
    AssessmentAt(evals, i, j);
    assert (evals[i].value, evals[i].value.logs[j].value) in Assessments(evals);
  }

  // ---- The code ----

  ghost predicate RowsOf(log: EvaluationLog, policyId: string, parse: TimeParser,
                         pairs: seq<(Evaluation, AssessmentLog)>, rows: seq<EvidenceRow>) {
    |rows| == |pairs| && forall i | 0 <= i < |rows| ::
      ParseDatetime(parse, pairs[i].1.start).Ok?
      && rows[i] == EvaluationRow(log, policyId, pairs[i].0, pairs[i].1, ParseDatetime(parse, pairs[i].1.start).value)
  }

  lemma NoRows(log: EvaluationLog, policyId: string, parse: TimeParser)
    ensures RowsOf(log, policyId, parse, Assessments(log.evaluations[..0]), [])
  {
  }

  lemma RowsTimed(log: EvaluationLog, policyId: string, parse: TimeParser, pairs: seq<(Evaluation, AssessmentLog)>,
                  rows: seq<EvidenceRow>)
    requires RowsOf(log, policyId, parse, pairs, rows)
    ensures forall p <- pairs :: !BadTime(parse, p.1.start)
  {
    hide EvaluationRow;
  }

  lemma RowsSnoc(log: EvaluationLog, policyId: string, parse: TimeParser, pairs: seq<(Evaluation, AssessmentLog)>,
                 rows: seq<EvidenceRow>, e: Evaluation, a: AssessmentLog)
    requires RowsOf(log, policyId, parse, pairs, rows) && !BadTime(parse, a.start)
    ensures RowsOf(log, policyId, parse, pairs + [(e, a)],
                   rows + [EvaluationRow(log, policyId, e, a, ParseDatetime(parse, a.start).value)])
  {
    hide EvaluationRow;
  }

  /** `FlattenEvaluationLog`: one row for each assessment, in document order; all times must be times. */
  method FlattenEvaluationLog(log: EvaluationLog, policyId: string, parse: TimeParser)
    returns (r: Result<seq<EvidenceRow>>)
    ensures r.Err? <==> log.evaluations == [] || exists p <- Assessments(log.evaluations) :: BadTime(parse, p.1.start)
    ensures r.Ok? ==> RowsOf(log, policyId, parse, Assessments(log.evaluations), r.value)
  {
    hide EvaluationRow, ParseDatetime, RowsOf, Assessments, LogPairs;
    if |log.evaluations| == 0 {
      return Err;
    }
    var rows := [];
    NoRows(log, policyId, parse);
    for i := 0 to |log.evaluations|
      invariant RowsOf(log, policyId, parse, Assessments(log.evaluations[..i]), rows)
    {
      NextEvaluation(log.evaluations, i);
      if log.evaluations[i].Some? {
        var e := log.evaluations[i].value;
        ghost var before := Assessments(log.evaluations[..i]);
        NoLogs(before, e);
        for j := 0 to |e.logs|
          invariant RowsOf(log, policyId, parse, before + LogPairs(e, e.logs[..j]), rows)
        {
          ghost var pairs := before + LogPairs(e, e.logs[..j]);
          NextLog(before, e, j);
          if e.logs[j].Some? {
            var a := e.logs[j].value;
            var start := ParseDatetime(parse, a.start);
            if start.Err? {
              BadAssessment(log.evaluations, i, j, parse);
              return Err;
            }
            RowsSnoc(log, policyId, parse, pairs, rows, e, a);
            rows := rows + [EvaluationRow(log, policyId, e, a, start.value)];
          }
        }
        assert e.logs[..|e.logs|] == e.logs;
      }
    }
    assert log.evaluations[..|log.evaluations|] == log.evaluations;
    RowsTimed(log, policyId, parse, Assessments(log.evaluations), rows);
    r := Ok(rows);
  }

  ghost predicate EnforcementRowsOf(log: EnforcementLog, policyId: string, parse: TimeParser,
                                    pairs: seq<(Action, Finding)>, rows: seq<EvidenceRow>) {
    |rows| == |pairs| && forall i | 0 <= i < |rows| ::
      ParseDatetime(parse, pairs[i].0.start).Ok?
      && rows[i] == EnforcementRow(log, policyId, pairs[i].0, pairs[i].1, ParseDatetime(parse, pairs[i].0.start).value)
  }

  lemma NoEnforcementRows(log: EnforcementLog, policyId: string, parse: TimeParser)
    ensures EnforcementRowsOf(log, policyId, parse, [], [])
  {
  }

  lemma EnforcementRowsSnoc(log: EnforcementLog, policyId: string, parse: TimeParser, pairs: seq<(Action, Finding)>,
                            rows: seq<EvidenceRow>, x: Action, f: Finding)
    requires EnforcementRowsOf(log, policyId, parse, pairs, rows) && !BadTime(parse, x.start)
    ensures EnforcementRowsOf(log, policyId, parse, pairs + [(x, f)],
                              rows + [EnforcementRow(log, policyId, x, f, ParseDatetime(parse, x.start).value)])
  {
    hide EnforcementRow;
  }

  /** `FlattenEnforcementLog`: one row for each finding; an action's time must be a time even if it has none. */
  method FlattenEnforcementLog(log: EnforcementLog, policyId: string, parse: TimeParser)
    returns (r: Result<seq<EvidenceRow>>)
    ensures r.Err? <==> log.actions == [] || exists x <- log.actions :: x.Some? && BadTime(parse, x.value.start)
    ensures r.Ok? ==> EnforcementRowsOf(log, policyId, parse, Findings(log.actions), r.value)
  {
    hide EnforcementRow, ParseDatetime, EnforcementRowsOf;
    if |log.actions| == 0 {
      return Err;
    }
    var rows := [];
    NoEnforcementRows(log, policyId, parse);
    for i := 0 to |log.actions|
      invariant EnforcementRowsOf(log, policyId, parse, Findings(log.actions[..i]), rows)
      invariant forall k | 0 <= k < i :: log.actions[k].Some? ==> !BadTime(parse, log.actions[k].value.start)
    {
      assert log.actions[..i + 1][..i] == log.actions[..i];
      assert Findings(log.actions[..i]) + [] == Findings(log.actions[..i]);
      if log.actions[i].Some? {
        var x := log.actions[i].value;
        var start := ParseDatetime(parse, x.start);
        if start.Err? {
          assert log.actions[i] in log.actions;
          return Err;
        }
        ghost var before := Findings(log.actions[..i]);
        assert before + FindingPairs(x)[..0] == before;
        for j := 0 to |x.findings|
          invariant EnforcementRowsOf(log, policyId, parse, before + FindingPairs(x)[..j], rows)
        {
          EnforcementRowsSnoc(log, policyId, parse, before + FindingPairs(x)[..j], rows, x, x.findings[j]);
          assert before + FindingPairs(x)[..j + 1] == before + FindingPairs(x)[..j] + [(x, x.findings[j])];
          rows := rows + [EnforcementRow(log, policyId, x, x.findings[j], start.value)];
        }
        assert FindingPairs(x)[..|x.findings|] == FindingPairs(x);
      }
    }
    assert log.actions[..|log.actions|] == log.actions;
    r := Ok(rows);
  }

  predicate IsPolicy(r: MappingReference) {
    r.title == "Policy" || r.id == "policy"
  }

  function FirstPolicy(refs: seq<MappingReference>): Option<string> {
    if refs == [] then None
    else if FirstPolicy(refs[..|refs| - 1]).Some? then FirstPolicy(refs[..|refs| - 1])
    else if IsPolicy(refs[|refs| - 1]) then Some(refs[|refs| - 1].id)
    else None
  }

  /** The first reference that looks like a policy, else the first of all, else nothing. */
  function PolicyIdOf(refs: seq<MappingReference>): string {
    if FirstPolicy(refs).Some? then FirstPolicy(refs).value else if refs == [] then "" else refs[0].id
  }

  /** `id` is that of the first reference that is titled or called a policy, else of the first of all, else empty. */
  ghost predicate NamesPolicy(refs: seq<MappingReference>, id: string) {
    && (forall i | 0 <= i < |refs| && (refs[i].title == "Policy" || refs[i].id == "policy")
                   && (forall j | 0 <= j < i :: refs[j].title != "Policy" && refs[j].id != "policy") ::
          id == refs[i].id)
    && ((forall r <- refs :: r.title != "Policy" && r.id != "policy") ==> id == if refs == [] then "" else refs[0].id)
  }

  lemma PolicyIdNames(refs: seq<MappingReference>)
    ensures NamesPolicy(refs, PolicyIdOf(refs))
  {
    NoPolicy(refs);
    forall i | 0 <= i < |refs| && IsPolicy(refs[i]) && (forall j | 0 <= j < i :: !IsPolicy(refs[j]))
      ensures PolicyIdOf(refs) == refs[i].id
    {
      FirstPolicyIs(refs, i);
    }
    assert forall i | 0 <= i < |refs| :: refs[i] in refs;
  }

  /** `derivePolicyID`. */
  method DerivePolicyID(refs: seq<MappingReference>) returns (id: string)
    ensures NamesPolicy(refs, id)
    ensures id == PolicyIdOf(refs)
  {
    PolicyIdNames(refs);
    hide NamesPolicy, IsPolicy, FirstPolicy;
    for i := 0 to |refs|
      invariant forall j | 0 <= j < i :: !IsPolicy(refs[j])
    {
      if IsPolicy(refs[i]) {
        FirstPolicyIs(refs, i);
        return refs[i].id;
      }
    }
    NoPolicy(refs);
    return if |refs| > 0 then refs[0].id else "";
  }

  lemma {:induction false} FirstPolicyIs(refs: seq<MappingReference>, i: nat)
    requires i < |refs| && IsPolicy(refs[i])
    ensures FirstPolicy(refs).Some?
    ensures (forall j | 0 <= j < i :: !IsPolicy(refs[j])) ==> FirstPolicy(refs) == Some(refs[i].id)
  {
    if i < |refs| - 1 {
      FirstPolicyIs(refs[..|refs| - 1], i);
    } else if forall j | 0 <= j < i :: !IsPolicy(refs[j]) {
      NoPolicy(refs[..i]);
    }
  }

  lemma {:induction false} NoPolicy(refs: seq<MappingReference>)
    ensures FirstPolicy(refs).None? <==> forall j | 0 <= j < |refs| :: !IsPolicy(refs[j])
  {
    if refs != [] {
      NoPolicy(refs[..|refs| - 1]);
    }
  }

  // ---- To records ----

  function DerefStr(p: Option<string>): string {
    if p.None? then "" else p.value
  }

  function DerefUint16(p: Option<nat>): nat {
    if p.None? then 0 else p.value
  }

  /** The record has no owner: the row's is not passed on. */
  function ToRecord(row: EvidenceRow): EvidenceRecord {
    EvidenceRecord(
      evidenceId := row.evidenceId, policyId := DerefStr(row.policyId), targetId := row.targetId,
      targetName := DerefStr(row.targetName), targetType := DerefStr(row.targetType),
      targetEnv := DerefStr(row.targetEnv), engineName := DerefStr(row.engineName),
      engineVersion := DerefStr(row.engineVersion), ruleId := row.ruleId, ruleName := DerefStr(row.ruleName),
      ruleUri := DerefStr(row.ruleUri), evalResult := row.evalResult,
      evalMessage := DerefStr(row.evalMessage), controlId := DerefStr(row.controlId),
      controlCatalogId := DerefStr(row.controlCatalogId), controlCategory := DerefStr(row.controlCategory),
      controlApplicability := row.controlApplicability, requirementId := DerefStr(row.requirementId),
      planId := DerefStr(row.planId), confidence := DerefStr(row.confidence),
      stepsExecuted := DerefUint16(row.stepsExecuted), complianceStatus := row.complianceStatus,
      riskLevel := DerefStr(row.riskLevel), requirements := row.requirements,
      remediationAction := DerefStr(row.remediationAction), remediationStatus := DerefStr(row.remediationStatus),
      remediationDesc := DerefStr(row.remediationDesc), exceptionId := DerefStr(row.exceptionId),
      exceptionActive := row.exceptionActive, enrichmentStatus := row.enrichmentStatus,
      attestationRef := DerefStr(row.attestationRef), sourceRegistry := DerefStr(row.sourceRegistry),
      blobRef := DerefStr(row.blobRef), owner := "", collectedAt := row.collectedAt)
  }

  function ToRecords(rows: seq<EvidenceRow>): (r: seq<EvidenceRecord>)
    ensures |r| == |rows|
  {
    seq(|rows|, i requires 0 <= i < |rows| => ToRecord(rows[i]))
  }

  /** `toEvidenceRecords`: a slice of the same length, filled in place. */
  method ToEvidenceRecords(rows: seq<EvidenceRow>) returns (records: array<EvidenceRecord>)
    ensures fresh(records) && records[..] == ToRecords(rows)
  {
    hide ToRecord;
    records := new EvidenceRecord[|rows|];
    for i := 0 to |rows|
      invariant forall k | 0 <= k < i :: records[k] == ToRecord(rows[k])
    {
      records[i] := ToRecord(rows[i]);
    }
  }

  // ---- What reaches the table ----

  /** Its own NULL or its text; an empty text counts as none. */
  function Clean(p: Option<string>): Option<string> {
    if p == Some("") then None else p
  }

  lemma TextSurvives(p: Option<string>)
    ensures NullStr(DerefStr(p)) == Clean(p)
  {
  }

  /**
   Through record and insertion, every live column gets its own field of the row, except that results have default
   names and that there is no owner, whoever the row's is.
   */
  lemma LiveColumnsAreTheRow(row: EvidenceRow, uuid: string)
    ensures LiveOf(Normalized(ToRecord(row), uuid)) ==
            Live(Clean(row.targetName), Clean(row.targetType), Clean(row.targetEnv), Clean(row.engineName),
                 Clean(row.engineVersion), Default(row.evalResult, "Unknown"), Clean(row.evalMessage),
                 Default(row.complianceStatus, "Unknown"), None, row.collectedAt)
  {
    forall p ensures NullStr(DerefStr(p)) == Clean(p) {
      TextSurvives(p);
    }
    assert NullStr("") == None;
    hide NullStr, DerefStr, Clean, Default;
  }

  /** And so does every frozen one. */
  lemma FrozenColumnsAreTheRow(row: EvidenceRow, uuid: string)
    requires row.stepsExecuted.Some? ==> 0 < row.stepsExecuted.value < 0x1_0000
    ensures FrozenOf(Normalized(ToRecord(row), uuid)) ==
            Frozen(DerefStr(row.policyId), row.targetId, row.ruleId, Clean(row.ruleName), Clean(row.ruleUri),
                   Clean(row.controlCatalogId), Clean(row.controlCategory), row.controlApplicability, Clean(row.planId),
                   Clean(row.confidence), row.stepsExecuted, Clean(row.riskLevel), row.requirements,
                   Clean(row.remediationAction), Clean(row.remediationStatus), Clean(row.remediationDesc),
                   Clean(row.exceptionId), row.exceptionActive, Default(row.enrichmentStatus, "Success"),
                   Clean(row.attestationRef), Clean(row.sourceRegistry), Clean(row.blobRef))
  {
    forall p ensures NullStr(DerefStr(p)) == Clean(p) {
      TextSurvives(p);
    }
    hide NullStr, DerefStr, Clean, Default;
  }

  /** The step count reaches its column unharmed exactly if it fits 16 bits; zero becomes NULL. */
  lemma StepsSurviveIff(log: EvaluationLog, policyId: string, e: Evaluation, a: AssessmentLog, at: int)
    ensures var stored := FrozenOf(ToRecord(EvaluationRow(log, policyId, e, a, at))).stepsExecuted;
            stored == (if a.stepsExecuted == 0 then None else Some(a.stepsExecuted)) <==>
            0 <= a.stepsExecuted < 0x1_0000
  {
  }

  /** What a status says of a result. */
  predicate TellsCompliance(result: string, status: string) {
    && (status == "Compliant" <==> result == "Passed")
    && (status == "Non-Compliant" <==> result == "Failed")
    && (status == "Not Applicable" <==> result == "Not Applicable")
    && (status == "Unknown" <==> result != "Passed" && result != "Failed" && result != "Not Applicable")
  }

  /** What a remediation says of a disposition. */
  predicate TellsRemediation(disposition: string, remediation: Option<string>) {
    && (remediation == Some("Remediate") <==> disposition == "Enforced")
    && (remediation == Some("Waive") <==> disposition == "Tolerated")
    && (remediation == Some("Allow") <==> disposition == "Clear")
    && (remediation == Some("Unknown") <==>
        disposition != "Enforced" && disposition != "Tolerated" && disposition != "Clear")
  }

  /** The record that an assessment becomes. */
  function AssessmentRecord(log: EvaluationLog, policyId: string, e: Evaluation, a: AssessmentLog, at: int,
                            uuid: string): EvidenceRecord
  {
    Normalized(ToRecord(EvaluationRow(log, policyId, e, a, at)), uuid)
  }

  function FindingRecord(log: EnforcementLog, policyId: string, x: Action, f: Finding, at: int, uuid: string)
    : EvidenceRecord
  {
    Normalized(ToRecord(EnforcementRow(log, policyId, x, f, at)), uuid)
  }

  /** All the columns of an assessment's row, in terms of the log's entries. */
  lemma AssessmentColumns(log: EvaluationLog, policyId: string, e: Evaluation, a: AssessmentLog, at: int, uuid: string)
    ensures var r := AssessmentRecord(log, policyId, e, a, at, uuid);
            && IsRowOf(Key(if log.metadata.id == "" then uuid else log.metadata.id, e.control.entryId,
                           a.requirement.entryId), r)
            && TellsCompliance(a.result, r.complianceStatus)
            && LiveOf(r) ==
               Live(NullStr(log.target.name), NullStr(log.target.kind), NullStr(log.target.environment),
                    NullStr(log.metadata.author), NullStr(log.metadata.version),
                    if a.result == "" then "Unknown" else a.result, NullStr(a.message), r.complianceStatus, None, at)
            && FrozenOf(r) ==
               Frozen(policyId, log.target.id, e.control.entryId, None, None, NullStr(e.control.referenceId), None,
                      a.applicability, if a.plan == None then None else NullStr(a.plan.value), NullStr(a.confidence),
                      NullUint16(a.stepsExecuted % 0x1_0000), None, [], None, None, None, None, None, "Success", None,
                      None, None)
  {
    forall s ensures DerefStr(StrPtr(s)) == s {
    }
  }

  /** And of a finding's: the row's control is what the finding's requirement refers to, not the procedure. */
  lemma FindingColumns(log: EnforcementLog, policyId: string, x: Action, f: Finding, at: int, uuid: string)
    ensures var r := FindingRecord(log, policyId, x, f, at, uuid);
            && IsRowOf(Key(if log.metadata.id == "" then uuid else log.metadata.id, f.requirement.referenceId,
                           f.requirement.entryId), r)
            && TellsCompliance(f.result, r.complianceStatus)
            && TellsRemediation(x.disposition, FrozenOf(r).remediationAction)
            && LiveOf(r) ==
               Live(NullStr(log.target.name), NullStr(log.target.kind), NullStr(log.target.environment),
                    NullStr(log.metadata.author), NullStr(log.metadata.version),
                    if f.result == "" then "Unknown" else f.result, Clean(x.message), r.complianceStatus, None, at)
            && FrozenOf(r) ==
               Frozen(policyId, log.target.id, x.procedure.entryId, None, None, NullStr(x.procedure.referenceId), None,
                      [], None, None, None, None, [], FrozenOf(r).remediationAction, Some("Success"), Clean(x.message),
                      if x.exceptions == [] then None else NullStr(x.exceptions[0]), Some(x.exceptions != []),
                      "Success", None, None, None)
  {
    forall s ensures DerefStr(StrPtr(s)) == s {
    }
    forall p ensures NullStr(DerefStr(p)) == Clean(p) {
      TextSurvives(p);
    }
  }

  /** Two assessments of one log share a row if and only if the log has an id and control and requirement agree. */
  lemma SameRequirementSameRow(log: EvaluationLog, policyId: string, e: Evaluation, a: AssessmentLog, at: int,
                               uuid: string, e': Evaluation, a': AssessmentLog, at': int, uuid': string)
    requires uuid != uuid'
    ensures KeyOf(AssessmentRecord(log, policyId, e, a, at, uuid)) ==
            KeyOf(AssessmentRecord(log, policyId, e', a', at', uuid')) <==>
            log.metadata.id != "" && e.control.entryId == e'.control.entryId
            && a.requirement.entryId == a'.requirement.entryId
  {
    AssessmentColumns(log, policyId, e, a, at, uuid);
    AssessmentColumns(log, policyId, e', a', at', uuid');
    hide AssessmentRecord;
  }
}
