/**
 Certifying recent evidence: every certifier judges every row, the verdicts are stored one per evidence id and
 certifier, and a flag on the evidence rows repeats what they add up to.
 */
module Certification {
  import opened EvidenceStore
  import opened Options
  import Debouncer

  const MINUTE := 60 * Debouncer.SECOND
  const LOOKBACK := 5 * MINUTE

  /** What a certifier sees of a row. */
  datatype EvidenceRow = EvidenceRow(evidenceId: string, targetId: string, ruleId: string, evalResult: string,
                                     complianceStatus: string, engineName: string, sourceRegistry: string,
                                     attestationRef: string, enrichmentStatus: string, collectedAt: int)

  datatype CertResult = CertResult(certifier: string, version: string, verdict: Verdict, reason: string)

  /** Certifiers are arbitrary functions here. */
  type Certifier = EvidenceRow -> CertResult

  function Coalesce(s: Option<string>): string {
    if s.None? then "" else s.value
  }

  function Lite(k: Key, e: Evidence): EvidenceRow {
    EvidenceRow(k.evidenceId, e.frozen.targetId, e.frozen.ruleId, e.live.evalResult, e.live.complianceStatus,
                Coalesce(e.live.engineName), Coalesce(e.frozen.sourceRegistry), Coalesce(e.frozen.attestationRef),
                e.frozen.enrichmentStatus, e.live.collectedAt)
  }

  /**
   What a certifier is shown of a row after a batch: result, status, engine and time of the batch's last record for it;
   target, rule and provenance of the row that was there, or else of its first; what is NULL there is empty text here.
   */
  lemma ShownAfterBatch(t: EvidenceTable, rs: seq<EvidenceRecord>, now: int, last: nat, first: nat)
    requires IsLast(rs, last) && IsFirst(rs, first) && KeyOf(rs[first]) == KeyOf(rs[last])
    ensures KeyOf(rs[last]) in UpsertAll(t, rs, now)
    ensures var k, r, f := KeyOf(rs[last]), rs[last], rs[first];
            Lite(k, UpsertAll(t, rs, now)[k]) ==
            if k in t
            then Lite(k, t[k]).(evalResult := r.evalResult, complianceStatus := r.complianceStatus,
                                engineName := r.engineName, collectedAt := r.collectedAt)
            else EvidenceRow(r.evidenceId, f.targetId, f.ruleId, r.evalResult, r.complianceStatus, r.engineName,
                             f.sourceRegistry, f.attestationRef, f.enrichmentStatus, r.collectedAt)
  {
    assert rs[last] in rs && Mentions(rs, KeyOf(rs[last]));
    BatchIsAFoldPerKey(t, rs, now, KeyOf(rs[last]));
    hide UpsertAll, IsLast, IsFirst;
    forall s: string ensures Coalesce(NullStr(s)) == s {
    }
  }

  // ---- The query ----

  function Recent(t: EvidenceTable, policyId: string, since: int): set<Key> {
    set k | k in t && t[k].frozen.policyId == policyId && t[k].ingestedAt >= since
  }

  /** The latest ingested of some rows. */
  lemma {:induction false} LatestExists(t: EvidenceTable, keys: set<Key>)
    requires keys != {} && keys <= t.Keys
    ensures exists k <- keys :: forall j <- keys :: t[j].ingestedAt <= t[k].ingestedAt
    decreases |keys|
  {
    var k :| k in keys;
    if keys != {k} {
      LatestExists(t, keys - {k});
      var rest :| rest in keys - {k} && forall j <- keys - {k} :: t[j].ingestedAt <= t[rest].ingestedAt;
      var latest := if t[rest].ingestedAt > t[k].ingestedAt then rest else k;
      assert latest in keys && forall j <- keys :: t[j].ingestedAt <= t[latest].ingestedAt;
    }
  }

  /** Every recent row of the policy once, latest first; ties in any order. */
  ghost predicate IsAnswer(keys: seq<Key>, t: EvidenceTable, policyId: string, since: int) {
    && (forall k :: k in keys <==> k in Recent(t, policyId, since))
    && (forall i, j | 0 <= i < j < |keys| :: keys[i] != keys[j])
    && (forall i, j | 0 <= i < j < |keys| && keys[i] in t && keys[j] in t ::
          t[keys[j]].ingestedAt <= t[keys[i]].ingestedAt)
  }

  method QueryRecentEvidence(store: Store, policyId: string, since: int) returns (keys: seq<Key>)
    ensures IsAnswer(keys, store.evidence, policyId, since)
  {
    var t := store.evidence;
    var remaining := Recent(t, policyId, since);
    keys := [];
    while remaining != {}
      invariant remaining <= t.Keys && (forall k <- keys :: k in t)
      invariant forall k :: k in keys || k in remaining <==> k in Recent(t, policyId, since)
      invariant forall k <- keys :: k !in remaining && forall r <- remaining :: t[r].ingestedAt <= t[k].ingestedAt
      invariant forall i, j | 0 <= i < j < |keys| ::
                  keys[i] != keys[j] && t[keys[j]].ingestedAt <= t[keys[i]].ingestedAt
      decreases |remaining|
    {
      LatestExists(t, remaining);
      var k :| k in remaining && forall j <- remaining :: t[j].ingestedAt <= t[k].ingestedAt;
      remaining := remaining - {k};
      keys := keys + [k];
    }
  }

  // ---- The pipeline ----

  function Results(certifiers: seq<Certifier>, row: EvidenceRow): (r: seq<CertResult>)
    ensures |r| == |certifiers|
  {
    seq(|certifiers|, i requires 0 <= i < |certifiers| => certifiers[i](row))
  }

  /** `Pipeline.Run`: no certifier is skipped, whatever the others say. */
  method RunPipeline(certifiers: seq<Certifier>, row: EvidenceRow) returns (results: seq<CertResult>)
    ensures results == Results(certifiers, row)
    ensures |results| == |certifiers| && forall i | 0 <= i < |results| :: results[i] == certifiers[i](row)
  {
    results := [];
    for i := 0 to |certifiers|
      invariant results == Results(certifiers, row)[..i]
    {
      results := results + [certifiers[i](row)];
    }
  }

  function Verdicts(results: seq<CertResult>): set<Verdict> {
    set r <- results :: r.verdict
  }

  /** Some pass and no fail. It is a property of the set of verdicts, so their order does not matter. */
  predicate Certified(verdicts: set<Verdict>) {
    Pass in verdicts && Fail !in verdicts
  }

  method IsCertified(results: seq<CertResult>) returns (certified: bool)
    ensures certified <==> (exists r <- results :: r.verdict.Pass?) && (forall r <- results :: !r.verdict.Fail?)
    ensures certified == Certified(Verdicts(results))
  {
    CertifiedMeans(results);
    var hasPass := false;
    for i := 0 to |results|
      invariant hasPass <==> exists r <- results[..i] :: r.verdict.Pass?
      invariant forall r <- results[..i] :: !r.verdict.Fail?
    {
      assert results[..i + 1] == results[..i] + [results[i]];
      if results[i].verdict == Fail {
        assert results[i] in results;
        return false;
      }
      if results[i].verdict == Pass {
        assert results[i] in results[..i + 1];
        hasPass := true;
      }
    }
    assert results[..|results|] == results;
    return hasPass;
  }

  lemma CertifiedMeans(results: seq<CertResult>)
    ensures Certified(Verdicts(results)) <==>
            (exists r <- results :: r.verdict.Pass?) && (forall r <- results :: !r.verdict.Fail?)
  {
    forall r | r in results ensures r.verdict in Verdicts(results) {
    }
  }

  // ---- The handler ----

  datatype Tables = Tables(evidence: EvidenceTable, certifications: CertTable)

  function TablesOf(store: Store): Tables
    reads store
  {
    Tables(store.evidence, store.certifications)
  }

  /** Which writes of one row's turn succeed. */
  datatype Outcome = Outcome(insert: Fault, updated: bool)

  function CertRows(id: string, results: seq<CertResult>): (r: seq<CertRow>)
    ensures |r| == |results|
  {
    seq(|results|, i requires 0 <= i < |results| =>
      CertRow(id, results[i].certifier, results[i].version, results[i].verdict, results[i].reason))
  }

  /** One row's turn: the verdicts, and then, if they were stored, the flag of every row with the same id. */
  function CertifyStep(t: Tables, id: string, results: seq<CertResult>, outcome: Outcome): Tables {
    var rows := CertRows(id, results);
    if !Succeeds(outcome.insert, |rows|) then t
    else
      Tables(if outcome.updated then SetCertified(t.evidence, id, Certified(Verdicts(results))) else t.evidence,
             UpsertCerts(t.certifications, rows))
  }

  function CertifyAll(t: Tables, certifiers: seq<Certifier>, rows: seq<EvidenceRow>, outcomes: seq<Outcome>): Tables
    requires |rows| == |outcomes|
  {
    if rows == [] then t
    else
      var n := |rows| - 1;
      CertifyStep(CertifyAll(t, certifiers, rows[..n], outcomes[..n]), rows[n].evidenceId,
                  Results(certifiers, rows[n]), outcomes[n])
  }

  method CertifyRow(store: Store, certifiers: seq<Certifier>, row: EvidenceRow, outcome: Outcome)
    modifies store
    ensures TablesOf(store) == CertifyStep(old(TablesOf(store)), row.evidenceId, Results(certifiers, row), outcome)
  {
    var results := RunPipeline(certifiers, row);
    var certRows := [];
    for i := 0 to |results|
      invariant certRows == CertRows(row.evidenceId, results)[..i]
    {
      var r := results[i];
      certRows := certRows + [CertRow(row.evidenceId, r.certifier, r.version, r.verdict, r.reason)];
    }
    assert certRows == CertRows(row.evidenceId, results);
    var inserted := store.InsertCertifications(certRows, outcome.insert);
    if !inserted {
      return;
    }
    var certified := IsCertified(results);
    store.UpdateEvidenceCertified(row.evidenceId, certified, outcome.updated);
  }

  function LiteAll(t: EvidenceTable, keys: seq<Key>): (r: seq<EvidenceRow>)
    requires forall k <- keys :: k in t
    ensures |r| == |keys|
  {
    seq(|keys|, i requires 0 <= i < |keys| => Lite(keys[i], t[keys[i]]))
  }

  /**
   `CertificationHandler` on one event, if the query succeeds; the rows are those of the query, as they were then.
   `outcomes` gives each row's turn its failures.
   */
  method Handle(store: Store, certifiers: seq<Certifier>, evt: Debouncer.Event, outcomes: seq<Outcome>)
    returns (keys: seq<Key>)
    requires |outcomes| >= |Recent(store.evidence, evt.policyId, evt.timestamp - LOOKBACK)|
    modifies store
    ensures IsAnswer(keys, old(store.evidence), evt.policyId, evt.timestamp - LOOKBACK)
    ensures |keys| <= |outcomes|
    ensures TablesOf(store) ==
            CertifyAll(old(TablesOf(store)), certifiers, LiteAll(old(store.evidence), keys), outcomes[..|keys|])
  {
    var since := evt.timestamp - LOOKBACK;
    keys := QueryRecentEvidence(store, evt.policyId, since);
    DistinctWithin(keys, Recent(store.evidence, evt.policyId, since));
    var rows := LiteAll(store.evidence, keys);
    hide Results, CertifyStep, IsAnswer, LiteAll;
    for i := 0 to |rows|
      invariant TablesOf(store) == CertifyAll(old(TablesOf(store)), certifiers, rows[..i], outcomes[..i])
    {
      assert rows[..i + 1][..i] == rows[..i] && outcomes[..i + 1][..i] == outcomes[..i];
      CertifyRow(store, certifiers, rows[i], outcomes[i]);
    }
    assert rows[..|rows|] == rows;
  }

  lemma {:induction false} DistinctWithin<T>(s: seq<T>, bound: set<T>)
    requires forall i, j | 0 <= i < j < |s| :: s[i] != s[j]
    requires forall x <- s :: x in bound
    ensures |s| <= |bound|
  {
    if s != [] {
      var n := |s| - 1;
      assert forall x <- s[..n] :: x in s;
      assert s[n] in s;
      DistinctWithin(s[..n], bound - {s[n]});
    }
  }

  // ---- The flag and the verdicts ----

  /** The verdicts stored for an evidence id. */
  function Stored(t: CertTable, id: string): set<Verdict> {
    set k | k in t && k.evidenceId == id :: t[k].verdict
  }

  /** Every evidence row with this id has this flag. */
  ghost predicate Flagged(t: EvidenceTable, id: string, certified: bool) {
    forall k <- t :: k.evidenceId == id ==> t[k].certified == certified
  }

  /** Of the verdicts stored for this id some is a pass and none is a fail. */
  ghost predicate Passed(t: CertTable, id: string) {
    && (exists k <- t :: k.evidenceId == id && t[k].verdict.Pass?)
    && (forall k <- t :: k.evidenceId == id ==> !t[k].verdict.Fail?)
  }

  /** Every evidence row with this id is certified exactly if the verdicts stored for the id pass it. */
  ghost predicate Agrees(t: Tables, id: string) {
    forall k <- t.evidence :: k.evidenceId == id ==> (t.evidence[k].certified <==> Passed(t.certifications, id))
  }

  lemma AgreesIffFlagged(t: Tables, id: string)
    ensures Agrees(t, id) <==> Flagged(t.evidence, id, Certified(Stored(t.certifications, id)))
  {
    var certs := t.certifications;
    forall k | k in certs && k.evidenceId == id ensures certs[k].verdict in Stored(certs, id) {
    }
    assert Passed(certs, id) <==> Certified(Stored(certs, id));
  }

  /** No certifier has two of the results. */
  ghost predicate Distinct(results: seq<CertResult>) {
    forall i, j | 0 <= i < j < |results| :: results[i].certifier != results[j].certifier
  }

  function Names(results: seq<CertResult>): set<string> {
    set r <- results :: r.certifier
  }

  /** No later result is by the same certifier. */
  predicate LastOfName(results: seq<CertResult>, i: nat) {
    i < |results| && forall j | i < j < |results| :: results[j].certifier != results[i].certifier
  }

  /** The last verdict of each certifier. */
  function LastVerdicts(results: seq<CertResult>): set<Verdict> {
    set i | 0 <= i < |results| && LastOfName(results, i) :: results[i].verdict
  }

  /** No verdict on this id is left from a certifier that is not among these. */
  ghost predicate OnlyFrom(t: CertTable, id: string, names: set<string>) {
    forall k <- t :: k.evidenceId == id ==> k.certifier in names
  }

  lemma {:induction false} CertKept(t: CertTable, id: string, results: seq<CertResult>, k: CertKey)
    requires k.evidenceId != id || forall i | 0 <= i < |results| :: results[i].certifier != k.certifier
    ensures var t' := UpsertCerts(t, CertRows(id, results)); (k in t' <==> k in t) && (k in t ==> t'[k] == t[k])
  {
    if results != [] {
      var n := |results| - 1;
      assert CertRows(id, results)[..n] == CertRows(id, results[..n]);
      CertKept(t, id, results[..n], k);
    }
  }

  /** The last result of a certifier is what is stored of it. */
  lemma {:induction false} CertStored(t: CertTable, id: string, results: seq<CertResult>, i: nat)
    requires LastOfName(results, i)
    ensures var t', k := UpsertCerts(t, CertRows(id, results)), CertKey(id, results[i].certifier);
            && k in t'
            && t'[k] == CertRow(id, k.certifier, results[i].version, results[i].verdict, results[i].reason)
  {
    var n := |results| - 1;
    assert CertRows(id, results)[..n] == CertRows(id, results[..n]);
    if i < n {
      assert LastOfName(results[..n], i);
      CertStored(t, id, results[..n], i);
    }
  }

  lemma {:induction false} LastWithName(results: seq<CertResult>, name: string)
    requires name in Names(results)
    ensures exists i: nat :: LastOfName(results, i) && results[i].certifier == name
  {
    var n := |results| - 1;
    assert results == results[..n] + [results[n]];
    if results[n].certifier == name {
      assert LastOfName(results, n);
    } else {
      LastWithName(results[..n], name);
      var i: nat :| LastOfName(results[..n], i) && results[..n][i].certifier == name;
      assert LastOfName(results, i);
    }
  }

  /** Verdicts on this id left from certifiers that are not among these. */
  function Foreign(t: CertTable, id: string, names: set<string>): set<Verdict> {
    set k | k in t && k.evidenceId == id && k.certifier !in names :: t[k].verdict
  }

  /** Whatever the certifiers' names, an id's verdicts are then each one's last and those of others. */
  lemma StoredAfterBatch(t: CertTable, id: string, results: seq<CertResult>)
    ensures Stored(UpsertCerts(t, CertRows(id, results)), id) == LastVerdicts(results) + Foreign(t, id, Names(results))
  {
    var t' := UpsertCerts(t, CertRows(id, results));
    hide UpsertCerts;
    forall v | v in Stored(t', id) ensures v in LastVerdicts(results) + Foreign(t, id, Names(results)) {
      var k :| k in t' && k.evidenceId == id && t'[k].verdict == v;
      if k.certifier in Names(results) {
        LastWithName(results, k.certifier);
        var i: nat :| LastOfName(results, i) && results[i].certifier == k.certifier;
        CertStored(t, id, results, i);
      } else {
        NotByName(results, k.certifier);
        CertKept(t, id, results, k);
      }
    }
    forall v | v in LastVerdicts(results) ensures v in Stored(t', id) {
      var i: nat :| i < |results| && LastOfName(results, i) && results[i].verdict == v;
      CertStored(t, id, results, i);
    }
    forall v | v in Foreign(t, id, Names(results)) ensures v in Stored(t', id) {
      var k :| k in t && k.evidenceId == id && k.certifier !in Names(results) && t[k].verdict == v;
      NotByName(results, k.certifier);
      CertKept(t, id, results, k);
    }
  }

  lemma NotByName(results: seq<CertResult>, name: string)
    requires name !in Names(results)
    ensures forall i | 0 <= i < |results| :: results[i].certifier != name
  {
    forall i | 0 <= i < |results| ensures results[i].certifier != name {
      assert results[i] in results;
    }
  }

  /** With distinct names every verdict is its certifier's last. */
  lemma DistinctAreLast(results: seq<CertResult>)
    requires Distinct(results)
    ensures LastVerdicts(results) == Verdicts(results)
  {
    forall r | r in results ensures r.verdict in LastVerdicts(results) {
      var i: nat :| i < |results| && results[i] == r;
      assert LastOfName(results, i);
    }
  }

  lemma OnlyFromAfter(t: CertTable, id: string, results: seq<CertResult>, other: string, names: set<string>)
    requires OnlyFrom(t, other, names) && (other == id ==> Names(results) <= names)
    ensures OnlyFrom(UpsertCerts(t, CertRows(id, results)), other, names)
  {
    var t' := UpsertCerts(t, CertRows(id, results));
    forall k | k in t' && k.evidenceId == other ensures k.certifier in names {
      if other != id || k.certifier !in Names(results) {
        if other == id {
          NotByName(results, k.certifier);
        }
        CertKept(t, id, results, k);
      }
    }
  }

  /** There is no evidence row with this id. */
  predicate NoRow(t: EvidenceTable, id: string) {
    forall k <- t :: k.evidenceId != id
  }

  /**
   After a turn whose writes succeed, whatever the certifiers' names: the flag agrees with the stored verdicts if and
   only if these add up to the same, each certifier's last and those left from others, as all the verdicts together.
   */
  lemma TurnAgreesIff(t: Tables, id: string, results: seq<CertResult>, outcome: Outcome)
    requires Succeeds(outcome.insert, |results|) && outcome.updated
    ensures Agrees(CertifyStep(t, id, results, outcome), id) <==>
            NoRow(t.evidence, id) ||
            Certified(LastVerdicts(results) + Foreign(t.certifications, id, Names(results)))
            == Certified(Verdicts(results))
  {
    StoredAfterBatch(t.certifications, id, results);
    hide UpsertCerts, LastVerdicts, Verdicts, Foreign, Certified;
    FlagMeans(t.evidence, id, Certified(Verdicts(results)));
    AgreesIffFlagged(CertifyStep(t, id, results, outcome), id);
    hide Agrees;
  }

  lemma FlagMeans(t: EvidenceTable, id: string, certified: bool)
    ensures forall c: bool :: Flagged(SetCertified(t, id, certified), id, c) <==> NoRow(t, id) || c == certified
  {
    var t' := SetCertified(t, id, certified);
    forall c: bool ensures Flagged(t', id, c) <==> NoRow(t, id) || c == certified {
      if k :| k in t && k.evidenceId == id {
        assert k in t' && t'[k].certified == certified;
      }
    }
  }

  /** With distinct names and nothing left over it does agree, and what is stored is exactly the new verdicts. */
  lemma TurnAgrees(t: Tables, id: string, results: seq<CertResult>, outcome: Outcome)
    requires Succeeds(outcome.insert, |results|) && outcome.updated
    requires Distinct(results) && OnlyFrom(t.certifications, id, Names(results))
    ensures var t' := CertifyStep(t, id, results, outcome);
            Agrees(t', id) && Stored(t'.certifications, id) == Verdicts(results)
  {
    DistinctAreLast(results);
    NothingForeign(t.certifications, id, Names(results));
    StoredAfterBatch(t.certifications, id, results);
    TurnAgreesIff(t, id, results, outcome);
  }

  lemma NothingForeign(t: CertTable, id: string, names: set<string>)
    ensures OnlyFrom(t, id, names) ==> Foreign(t, id, names) == {}
  {
  }

  /** Certifiers of one name: the verdicts agree exactly if those that are overwritten do not tip the balance. */
  lemma SharedNamesAgreeIff(t: Tables, id: string, results: seq<CertResult>, outcome: Outcome)
    requires Succeeds(outcome.insert, |results|) && outcome.updated
    requires OnlyFrom(t.certifications, id, Names(results)) && !NoRow(t.evidence, id)
    ensures Agrees(CertifyStep(t, id, results, outcome), id) <==>
            Certified(LastVerdicts(results)) == Certified(Verdicts(results))
    ensures Certified(LastVerdicts(results)) == Certified(Verdicts(results)) <==>
            !(Pass in LastVerdicts(results) && Fail !in LastVerdicts(results) && Fail in Verdicts(results))
            && !(Pass in Verdicts(results) && Pass !in LastVerdicts(results) && Fail !in Verdicts(results))
  {
    NothingForeign(t.certifications, id, Names(results));
    TurnAgreesIff(t, id, results, outcome);
    assert LastVerdicts(results) + {} == LastVerdicts(results);
    forall v | v in LastVerdicts(results) ensures v in Verdicts(results) {
      var i: nat :| i < |results| && LastOfName(results, i) && results[i].verdict == v;
      assert results[i] in results;
    }
  }

  /** If the verdicts are stored but the flag is not, they agree only where the flag happened to be right. */
  lemma LostUpdateAgreesIff(t: Tables, id: string, results: seq<CertResult>, outcome: Outcome)
    requires Succeeds(outcome.insert, |results|) && !outcome.updated
    ensures Agrees(CertifyStep(t, id, results, outcome), id) <==>
            Flagged(t.evidence, id, Certified(LastVerdicts(results) + Foreign(t.certifications, id, Names(results))))
  {
    StoredAfterBatch(t.certifications, id, results);
    AgreesIffFlagged(CertifyStep(t, id, results, outcome), id);
  }

  /** A turn does not touch the other ids. */
  lemma TurnKeepsOthers(t: Tables, id: string, results: seq<CertResult>, outcome: Outcome, other: string)
    requires other != id
    ensures var t' := CertifyStep(t, id, results, outcome);
            && Stored(t'.certifications, other) == Stored(t.certifications, other)
            && (forall c: bool :: Flagged(t'.evidence, other, c) <==> Flagged(t.evidence, other, c))
  {
    var t' := CertifyStep(t, id, results, outcome);
    forall k: CertKey | k.evidenceId == other
      ensures (k in t'.certifications <==> k in t.certifications)
           && (k in t.certifications ==> t'.certifications[k] == t.certifications[k])
    {
      CertKept(t.certifications, id, results, k);
    }
    hide UpsertCerts;
    assert Stored(t'.certifications, other) == Stored(t.certifications, other);
    assert forall k: Key | k.evidenceId == other ::
        (k in t'.evidence <==> k in t.evidence) && (k in t.evidence ==> t'.evidence[k] == t.evidence[k]);
  }

  // ---- A whole run ----

  /** Whatever the row, each certifier signs with a name of these, and each name is signed with. */
  ghost predicate Named(certifiers: seq<Certifier>, names: set<string>) {
    forall row: EvidenceRow :: Names(Results(certifiers, row)) == names
  }

  lemma {:induction false} RunOnlyFrom(t: Tables, certifiers: seq<Certifier>, rows: seq<EvidenceRow>,
                                       outcomes: seq<Outcome>, names: set<string>, id: string)
    requires |rows| == |outcomes| && Named(certifiers, names) && OnlyFrom(t.certifications, id, names)
    ensures OnlyFrom(CertifyAll(t, certifiers, rows, outcomes).certifications, id, names)
  {
    if rows != [] {
      var n := |rows| - 1;
      RunOnlyFrom(t, certifiers, rows[..n], outcomes[..n], names, id);
      var before := CertifyAll(t, certifiers, rows[..n], outcomes[..n]);
      var results := Results(certifiers, rows[n]);
      assert Names(results) == names;
      hide OnlyFrom, Named, Names;
      OnlyFromAfter(before.certifications, rows[n].evidenceId, results, id, names);
    }
  }

  /** The row's verdicts are not stored. */
  predicate InsertFails(certifiers: seq<Certifier>, outcome: Outcome) {
    !Succeeds(outcome.insert, |certifiers|)
  }

  /** What is stored for the id are these verdicts, each certifier's last, and every row has the flag of them all. */
  ghost predicate Decided(t: Tables, id: string, results: seq<CertResult>) {
    && Stored(t.certifications, id) == LastVerdicts(results)
    && Flagged(t.evidence, id, Certified(Verdicts(results)))
  }

  /** By distinctly named certifiers, that is agreement. */
  lemma DecidedAgrees(t: Tables, id: string, results: seq<CertResult>)
    requires Decided(t, id, results) && Distinct(results)
    ensures Agrees(t, id) && Stored(t.certifications, id) == Verdicts(results)
  {
    DistinctAreLast(results);
    AgreesIffFlagged(t, id);
  }

  lemma TurnDecides(t: Tables, id: string, results: seq<CertResult>, outcome: Outcome)
    requires Succeeds(outcome.insert, |results|) && outcome.updated && OnlyFrom(t.certifications, id, Names(results))
    ensures Decided(CertifyStep(t, id, results, outcome), id, results)
  {
    hide LastVerdicts, Verdicts, OnlyFrom;
    NothingForeign(t.certifications, id, Names(results));
    StoredAfterBatch(t.certifications, id, results);
    FlagMeans(t.evidence, id, Certified(Verdicts(results)));
  }

  lemma StaysDecided(t: Tables, id: string, results: seq<CertResult>, id': string, results': seq<CertResult>,
                     outcome: Outcome)
    requires Decided(t, id, results) && (id' == id ==> !Succeeds(outcome.insert, |results'|))
    ensures Decided(CertifyStep(t, id', results', outcome), id, results)
  {
    hide LastVerdicts, Verdicts, Stored, Flagged;
    if id' != id {
      TurnKeepsOthers(t, id', results', outcome, id);
    }
  }

  /**
   Rows with the same evidence id share one flag and one set of verdicts, so the last of them whose writes succeed
   decides both, even if later ones fail to store their verdicts. If its certifiers are distinctly named, flag and
   verdicts agree.
   */
  lemma {:induction false} LastRowDecides(t: Tables, certifiers: seq<Certifier>, rows: seq<EvidenceRow>,
                                          outcomes: seq<Outcome>, names: set<string>, i: nat)
    requires |rows| == |outcomes| && Named(certifiers, names)
    requires i < |rows| && OnlyFrom(t.certifications, rows[i].evidenceId, names)
    requires !InsertFails(certifiers, outcomes[i]) && outcomes[i].updated
    requires forall j | i < j < |rows| && rows[j].evidenceId == rows[i].evidenceId ::
               InsertFails(certifiers, outcomes[j])
    ensures var t', results := CertifyAll(t, certifiers, rows, outcomes), Results(certifiers, rows[i]);
            && Decided(t', rows[i].evidenceId, results)
            && (Distinct(results) ==> Agrees(t', rows[i].evidenceId)
                                      && Stored(t'.certifications, rows[i].evidenceId) == Verdicts(results))
  {
    var n := |rows| - 1;
    var before := CertifyAll(t, certifiers, rows[..n], outcomes[..n]);
    if i == n {
      RunOnlyFrom(t, certifiers, rows[..n], outcomes[..n], names, rows[n].evidenceId);
      assert Names(Results(certifiers, rows[n])) == names;
      TurnDecides(before, rows[n].evidenceId, Results(certifiers, rows[n]), outcomes[n]);
    } else {
      LastRowDecides(t, certifiers, rows[..n], outcomes[..n], names, i);
      StaysDecided(before, rows[i].evidenceId, Results(certifiers, rows[i]), rows[n].evidenceId,
                   Results(certifiers, rows[n]), outcomes[n]);
    }
    hide Decided, Distinct, Agrees, CertifyStep, Named, OnlyFrom;
    if Distinct(Results(certifiers, rows[i])) {
      DecidedAgrees(CertifyAll(t, certifiers, rows, outcomes), rows[i].evidenceId, Results(certifiers, rows[i]));
    }
  }

  /** Row `j`, at or behind row `i` and with its id, is the last before row `n` to store its verdicts. */
  predicate StoresLast(certifiers: seq<Certifier>, rows: seq<EvidenceRow>, outcomes: seq<Outcome>,
                       i: nat, j: nat, n: nat)
    requires n <= |rows| == |outcomes|
  {
    && i <= j < n && rows[j].evidenceId == rows[i].evidenceId && !InsertFails(certifiers, outcomes[j])
    && forall m | j < m < n && rows[m].evidenceId == rows[i].evidenceId :: InsertFails(certifiers, outcomes[m])
  }

  lemma {:induction false} StoresLastExists(certifiers: seq<Certifier>, rows: seq<EvidenceRow>, outcomes: seq<Outcome>,
                                            i: nat, n: nat)
    requires i < n <= |rows| == |outcomes| && !InsertFails(certifiers, outcomes[i])
    ensures exists j: nat :: StoresLast(certifiers, rows, outcomes, i, j, n)
    decreases n
  {
    hide InsertFails;
    if rows[n - 1].evidenceId == rows[i].evidenceId && !InsertFails(certifiers, outcomes[n - 1]) {
      assert StoresLast(certifiers, rows, outcomes, i, n - 1, n);
    } else {
      StoresLastExists(certifiers, rows, outcomes, i, n - 1);
      var j: nat :| StoresLast(certifiers, rows, outcomes, i, j, n - 1);
      assert StoresLast(certifiers, rows, outcomes, i, j, n);
    }
  }

  /** Row `i` stores its verdicts, and from it on no row of its id does so but fails to write the flag. */
  predicate StoresSafely(certifiers: seq<Certifier>, rows: seq<EvidenceRow>, outcomes: seq<Outcome>, i: nat)
    requires i < |rows| == |outcomes|
  {
    && !InsertFails(certifiers, outcomes[i])
    && forall j | i <= j < |rows| && rows[j].evidenceId == rows[i].evidenceId ::
         InsertFails(certifiers, outcomes[j]) || outcomes[j].updated
  }

  ghost predicate DistinctlyNamed(certifiers: seq<Certifier>) {
    forall row: EvidenceRow :: Distinct(Results(certifiers, row))
  }

  /** For such a row, by distinctly named certifiers, flag and stored verdicts agree when the run is over. */
  lemma SafeRowAgrees(t: Tables, certifiers: seq<Certifier>, rows: seq<EvidenceRow>, outcomes: seq<Outcome>,
                      names: set<string>, i: nat)
    requires i < |rows| == |outcomes| && Named(certifiers, names) && DistinctlyNamed(certifiers)
    requires OnlyFrom(t.certifications, rows[i].evidenceId, names) && StoresSafely(certifiers, rows, outcomes, i)
    ensures Agrees(CertifyAll(t, certifiers, rows, outcomes), rows[i].evidenceId)
  {
    StoresLastExists(certifiers, rows, outcomes, i, |rows|);
    hide Distinct, Agrees, Decided, OnlyFrom, InsertFails, CertifyAll, Named;
    var j: nat :| StoresLast(certifiers, rows, outcomes, i, j, |rows|);
    LastRowDecides(t, certifiers, rows, outcomes, names, j);
  }

  /** What the handler makes of the tables, given the answer to its query. */
  function Handled(t: Tables, certifiers: seq<Certifier>, keys: seq<Key>, outcomes: seq<Outcome>): Tables
    requires |keys| == |outcomes| && forall k <- keys :: k in t.evidence
  {
    CertifyAll(t, certifiers, LiteAll(t.evidence, keys), outcomes)
  }

  predicate HandledSafely(t: Tables, certifiers: seq<Certifier>, keys: seq<Key>, outcomes: seq<Outcome>, k: Key)
    requires |keys| == |outcomes| && forall k <- keys :: k in t.evidence
  {
    exists i | 0 <= i < |keys| :: keys[i] == k && StoresSafely(certifiers, LiteAll(t.evidence, keys), outcomes, i)
  }

  lemma HandledRowAgrees(t: Tables, certifiers: seq<Certifier>, names: set<string>, keys: seq<Key>,
                         outcomes: seq<Outcome>, k: Key)
    requires |keys| == |outcomes| && (forall k <- keys :: k in t.evidence) && k in keys
    requires Named(certifiers, names) && DistinctlyNamed(certifiers) && OnlyFrom(t.certifications, k.evidenceId, names)
    requires HandledSafely(t, certifiers, keys, outcomes, k)
    ensures Agrees(Handled(t, certifiers, keys, outcomes), k.evidenceId)
  {
    hide Agrees, CertifyAll, Named, DistinctlyNamed, OnlyFrom, StoresSafely;
    var rows := LiteAll(t.evidence, keys);
    var i: nat :| i < |keys| && keys[i] == k && StoresSafely(certifiers, rows, outcomes, i);
    SafeRowAgrees(t, certifiers, rows, outcomes, names, i);
  }

  // ---- Several handlers at work on one id ----

  /** The two writes of a turn, each by the turn's number. */
  datatype Write = Insert(turn: nat) | Flag(turn: nat)

  function Written(t: Tables, id: string, turns: seq<seq<CertResult>>, w: Write): Tables
    requires w.turn < |turns|
  {
    match w
    case Insert(k) => Tables(t.evidence, UpsertCerts(t.certifications, CertRows(id, turns[k])))
    case Flag(k) => Tables(SetCertified(t.evidence, id, Certified(Verdicts(turns[k]))), t.certifications)
  }

  function WriteAll(t: Tables, id: string, turns: seq<seq<CertResult>>, ws: seq<Write>): Tables
    requires forall w <- ws :: w.turn < |turns|
  {
    if ws == [] then t else Written(WriteAll(t, id, turns, ws[..|ws| - 1]), id, turns, ws[|ws| - 1])
  }

  predicate LastInsert(ws: seq<Write>, i: nat) {
    i < |ws| && ws[i].Insert? && forall j | i < j < |ws| :: ws[j].Flag?
  }

  predicate LastFlag(ws: seq<Write>, i: nat) {
    i < |ws| && ws[i].Flag? && forall j | i < j < |ws| :: ws[j].Insert?
  }

  lemma {:induction false} WritesOnlyFrom(t: Tables, id: string, turns: seq<seq<CertResult>>, ws: seq<Write>,
                                          names: set<string>)
    requires forall w <- ws :: w.turn < |turns|
    requires (forall k | 0 <= k < |turns| :: Names(turns[k]) == names) && OnlyFrom(t.certifications, id, names)
    ensures OnlyFrom(WriteAll(t, id, turns, ws).certifications, id, names)
  {
    if ws != [] {
      var n := |ws| - 1;
      WritesOnlyFrom(t, id, turns, ws[..n], names);
      assert ws[n] in ws;
      var before := WriteAll(t, id, turns, ws[..n]);
      if ws[n].Insert? {
        OnlyFromAfter(before.certifications, id, turns[ws[n].turn], id, names);
      }
    }
  }

  /** The last insert decides what is stored. */
  lemma {:induction false} StoredByLastInsert(t: Tables, id: string, turns: seq<seq<CertResult>>, ws: seq<Write>,
                                              names: set<string>, i: nat)
    requires forall w <- ws :: w.turn < |turns|
    requires (forall k | 0 <= k < |turns| :: Names(turns[k]) == names) && OnlyFrom(t.certifications, id, names)
    requires LastInsert(ws, i) && ws[i] in ws
    ensures Stored(WriteAll(t, id, turns, ws).certifications, id) == LastVerdicts(turns[ws[i].turn])
  {
    var n := |ws| - 1;
    hide LastVerdicts;
    if i == n {
      WritesOnlyFrom(t, id, turns, ws[..n], names);
      var before := WriteAll(t, id, turns, ws[..n]);
      StoredAfterBatch(before.certifications, id, turns[ws[n].turn]);
      NothingForeign(before.certifications, id, names);
    } else {
      assert ws[..n][i] == ws[i] && ws[n].Flag?;
      StoredByLastInsert(t, id, turns, ws[..n], names, i);
    }
  }

  lemma {:induction false} KeysStay(t: Tables, id: string, turns: seq<seq<CertResult>>, ws: seq<Write>)
    requires forall w <- ws :: w.turn < |turns|
    ensures WriteAll(t, id, turns, ws).evidence.Keys == t.evidence.Keys
  {
    if ws != [] {
      KeysStay(t, id, turns, ws[..|ws| - 1]);
      assert ws[|ws| - 1] in ws;
    }
  }

  /** The last flag write decides the flag. */
  lemma {:induction false} FlaggedByLastFlag(t: Tables, id: string, turns: seq<seq<CertResult>>, ws: seq<Write>, f: nat,
                                             c: bool)
    requires (forall w <- ws :: w.turn < |turns|) && LastFlag(ws, f) && ws[f] in ws
    ensures Flagged(WriteAll(t, id, turns, ws).evidence, id, c) <==>
            NoRow(t.evidence, id) || c == Certified(Verdicts(turns[ws[f].turn]))
  {
    var n := |ws| - 1;
    hide Certified, Verdicts;
    if f == n {
      var before := WriteAll(t, id, turns, ws[..n]);
      KeysStay(t, id, turns, ws[..n]);
      FlagMeans(before.evidence, id, Certified(Verdicts(turns[ws[n].turn])));
    } else {
      assert ws[..n][f] == ws[f] && ws[n].Insert?;
      FlaggedByLastFlag(t, id, turns, ws[..n], f, c);
    }
  }

  /**
   Any number of turns on one id, their writes in any order, some perhaps missing: flag and stored verdicts agree if and
   only if the last insert's verdicts, as stored, add up to the same as the last flag's.
   */
  lemma WritesAgreeIff(t: Tables, id: string, turns: seq<seq<CertResult>>, ws: seq<Write>, names: set<string>, i: nat,
                       f: nat)
    requires forall w <- ws :: w.turn < |turns|
    requires (forall k | 0 <= k < |turns| :: Names(turns[k]) == names) && OnlyFrom(t.certifications, id, names)
    requires LastInsert(ws, i) && LastFlag(ws, f)
    ensures ws[i] in ws && ws[f] in ws
    ensures Agrees(WriteAll(t, id, turns, ws), id) <==>
            NoRow(t.evidence, id)
            || Certified(LastVerdicts(turns[ws[i].turn])) == Certified(Verdicts(turns[ws[f].turn]))
  {
    assert ws[i] in ws && ws[f] in ws;
    StoredByLastInsert(t, id, turns, ws, names, i);
    FlaggedByLastFlag(t, id, turns, ws, f, Certified(LastVerdicts(turns[ws[i].turn])));
    AgreesIffFlagged(WriteAll(t, id, turns, ws), id);
  }

  /** The writes of two turns, each insert before its flag: one turn after the other, or crossing in four ways. */
  predicate Interleaves(ws: seq<Write>) {
    || ws == [Insert(0), Flag(0), Insert(1), Flag(1)]
    || ws == [Insert(1), Flag(1), Insert(0), Flag(0)]
    || ws == [Insert(0), Insert(1), Flag(0), Flag(1)]
    || ws == [Insert(0), Insert(1), Flag(1), Flag(0)]
    || ws == [Insert(1), Insert(0), Flag(0), Flag(1)]
    || ws == [Insert(1), Insert(0), Flag(1), Flag(0)]
  }

  /** The place of the last insert; the last flag always comes last. */
  function LastInsertOf(ws: seq<Write>): (i: nat)
    requires Interleaves(ws)
    ensures LastInsert(ws, i) && LastFlag(ws, 3)
  {
    if ws[2].Insert? then 2 else 1
  }

  /**
   Two turns by distinctly named certifiers: in each interleaving of their writes, flag and verdicts agree if and only
   if the last insert and the last flag are one turn's, or both turns certify alike.
   */
  lemma RacingTurnsAgreeIff(t: Tables, id: string, first: seq<CertResult>, second: seq<CertResult>, ws: seq<Write>)
    requires Interleaves(ws)
    requires Distinct(first) && Distinct(second) && Names(first) == Names(second)
    requires OnlyFrom(t.certifications, id, Names(first)) && !NoRow(t.evidence, id)
    ensures Agrees(WriteAll(t, id, [first, second], ws), id) <==>
            ws[LastInsertOf(ws)].turn == ws[3].turn || Certified(Verdicts(first)) == Certified(Verdicts(second))
  {
    DistinctAreLast(first);
    DistinctAreLast(second);
    hide Distinct, LastVerdicts, Verdicts, Certified, Names, OnlyFrom, NoRow;
    WritesAgreeIff(t, id, [first, second], ws, Names(first), LastInsertOf(ws), 3);
  }
}
