/**
 The evidence and certification tables, as maps by their unique keys, and the store functions that write
 them. A failure of the database is an argument of the call that meets it.
 */
module EvidenceStore {
  import opened Options

  /** A record as the store receives it. */
  datatype EvidenceRecord = EvidenceRecord(
    evidenceId: string, policyId: string, targetId: string, targetName: string, targetType: string, targetEnv: string,
    engineName: string, engineVersion: string, ruleId: string, ruleName: string, ruleUri: string,
    evalResult: string, evalMessage: string, controlId: string, controlCatalogId: string, controlCategory: string,
    controlApplicability: seq<string>, requirementId: string, planId: string, confidence: string, stepsExecuted: int,
    complianceStatus: string, riskLevel: string, requirements: seq<string>, remediationAction: string,
    remediationStatus: string, remediationDesc: string, exceptionId: string, exceptionActive: Option<bool>,
    enrichmentStatus: string, attestationRef: string, sourceRegistry: string, blobRef: string, owner: string,
    collectedAt: int)

  datatype Key = Key(evidenceId: string, controlId: string, requirementId: string)

  /** The columns that a conflicting insert overwrites. */
  datatype Live = Live(targetName: Option<string>, targetType: Option<string>, targetEnv: Option<string>,
                       engineName: Option<string>, engineVersion: Option<string>, evalResult: string,
                       evalMessage: Option<string>, complianceStatus: string, owner: Option<string>, collectedAt: int)

  /** The inserted columns that it leaves as they are. */
  datatype Frozen = Frozen(policyId: string, targetId: string, ruleId: string, ruleName: Option<string>,
                           ruleUri: Option<string>, controlCatalogId: Option<string>, controlCategory: Option<string>,
                           controlApplicability: seq<string>, planId: Option<string>, confidence: Option<string>,
                           stepsExecuted: Option<nat>, riskLevel: Option<string>, requirements: seq<string>,
                           remediationAction: Option<string>, remediationStatus: Option<string>,
                           remediationDesc: Option<string>, exceptionId: Option<string>, exceptionActive: Option<bool>,
                           enrichmentStatus: string, attestationRef: Option<string>, sourceRegistry: Option<string>,
                           blobRef: Option<string>)

  datatype Evidence = Evidence(live: Live, frozen: Frozen, certified: bool, ingestedAt: int)

  type EvidenceTable = map<Key, Evidence>

  // ---- One record ----

  function NullStr(s: string): Option<string> {
    if s == "" then None else Some(s)
  }

  /** A positive count, cut to 16 bits; anything else is NULL. */
  function NullUint16(v: int): Option<nat> {
    if v <= 0 then None else Some(v % 0x1_0000)
  }

  function Default(s: string, d: string): string {
    if s == "" then d else s
  }

  /** `normalizeEvidence`; `uuid` is what the generator yields if the record has no id. */
  function Normalized(r: EvidenceRecord, uuid: string): EvidenceRecord {
    r.(evidenceId := Default(r.evidenceId, uuid), enrichmentStatus := Default(r.enrichmentStatus, "Success"),
       complianceStatus := Default(r.complianceStatus, "Unknown"), evalResult := Default(r.evalResult, "Unknown"))
  }

  function KeyOf(r: EvidenceRecord): Key {
    Key(r.evidenceId, r.controlId, r.requirementId)
  }

  function LiveOf(r: EvidenceRecord): Live {
    Live(NullStr(r.targetName), NullStr(r.targetType), NullStr(r.targetEnv), NullStr(r.engineName),
         NullStr(r.engineVersion), r.evalResult, NullStr(r.evalMessage), r.complianceStatus, NullStr(r.owner),
         r.collectedAt)
  }

  function FrozenOf(r: EvidenceRecord): Frozen {
    Frozen(r.policyId, r.targetId, r.ruleId, NullStr(r.ruleName), NullStr(r.ruleUri), NullStr(r.controlCatalogId),
           NullStr(r.controlCategory), r.controlApplicability, NullStr(r.planId), NullStr(r.confidence),
           NullUint16(r.stepsExecuted), NullStr(r.riskLevel), r.requirements, NullStr(r.remediationAction),
           NullStr(r.remediationStatus), NullStr(r.remediationDesc), NullStr(r.exceptionId), r.exceptionActive,
           r.enrichmentStatus, NullStr(r.attestationRef), NullStr(r.sourceRegistry), NullStr(r.blobRef))
  }

  /** The INSERT with its ON CONFLICT clause. */
  function Upsert(t: EvidenceTable, r: EvidenceRecord, now: int): EvidenceTable {
    var k := KeyOf(r);
    if k in t then t[k := t[k].(live := LiveOf(r))]
    else t[k := Evidence(LiveOf(r), FrozenOf(r), false, now)]
  }

  function UpsertAll(t: EvidenceTable, rs: seq<EvidenceRecord>, now: int): EvidenceTable {
    if rs == [] then t else Upsert(UpsertAll(t, rs[..|rs| - 1], now), rs[|rs| - 1], now)
  }

  function NormalizedAll(rs: seq<EvidenceRecord>, uuids: seq<string>): (r: seq<EvidenceRecord>)
    requires |rs| == |uuids|
    ensures |r| == |rs|
  {
    seq(|rs|, i requires 0 <= i < |rs| => Normalized(rs[i], uuids[i]))
  }

  // ---- Verdicts ----

  datatype Verdict = Pass | Fail | Skip | Error

  datatype CertRow = CertRow(evidenceId: string, certifier: string, version: string, verdict: Verdict, reason: string)

  datatype CertKey = CertKey(evidenceId: string, certifier: string)

  type CertTable = map<CertKey, CertRow>

  function UpsertCerts(t: CertTable, rows: seq<CertRow>): CertTable {
    if rows == [] then t
    else
      var r := rows[|rows| - 1];
      UpsertCerts(t, rows[..|rows| - 1])[CertKey(r.evidenceId, r.certifier) := r]
  }

  /** `UPDATE evidence SET certified WHERE evidence_id`. */
  function SetCertified(t: EvidenceTable, id: string, certified: bool): (r: EvidenceTable)
    ensures r.Keys == t.Keys
  {
    map k | k in t :: if k.evidenceId == id then t[k].(certified := certified) else t[k]
  }

  /** Where a batch fails, if it does. */
  datatype Fault = NoFault | BeginFails | ExecFails(at: nat) | CommitFails

  /** An empty batch does not reach the database. */
  predicate Succeeds(fault: Fault, rows: nat) {
    rows == 0 || fault.NoFault? || (fault.ExecFails? && fault.at >= rows)
  }

  class Store {
    var evidence: EvidenceTable
    var certifications: CertTable

    constructor ()
      ensures evidence == map[] && certifications == map[]
    {
      evidence, certifications := map[], map[];
    }

    /**
     `InsertEvidence`: all rows or none. On an exec failure the count is that of the rows before it, though
     they are rolled back.
     */
    method InsertEvidence(records: seq<EvidenceRecord>, uuids: seq<string>, now: int, fault: Fault)
      returns (count: nat, ok: bool)
      requires |uuids| == |records|
      modifies this`evidence
      ensures ok <==> Succeeds(fault, |records|)
      ensures ok ==> count == |records| && evidence == UpsertAll(old(evidence), NormalizedAll(records, uuids), now)
      ensures !ok ==> evidence == old(evidence) && count == if fault.ExecFails? then fault.at else 0
    {
      hide Normalized, Upsert;
      if |records| == 0 {
        return 0, true;
      }
      if fault.BeginFails? {
        return 0, false;
      }
      var tx := evidence;
      ghost var all := NormalizedAll(records, uuids);
      count := 0;
      for i := 0 to |records|
        invariant count == i && tx == UpsertAll(old(evidence), all[..i], now) && evidence == old(evidence)
        invariant fault.ExecFails? ==> i <= fault.at
      {
        var r := Normalized(records[i], uuids[i]);
        if fault == ExecFails(i) {
          return count, false;
        }
        assert all[..i + 1][..i] == all[..i];
        tx := Upsert(tx, r, now);
        count := count + 1;
      }
      assert all[..|records|] == all;
      if fault.CommitFails? {
        return 0, false;
      }
      evidence := tx;
      ok := true;
    }

    /** `InsertCertifications`: all verdicts or none. */
    method InsertCertifications(rows: seq<CertRow>, fault: Fault) returns (ok: bool)
      modifies this`certifications
      ensures ok <==> Succeeds(fault, |rows|)
      ensures certifications == if ok then UpsertCerts(old(certifications), rows) else old(certifications)
    {
      if |rows| == 0 {
        return true;
      }
      if fault.BeginFails? {
        return false;
      }
      var tx := certifications;
      for i := 0 to |rows|
        invariant tx == UpsertCerts(old(certifications), rows[..i]) && certifications == old(certifications)
        invariant fault.ExecFails? ==> i <= fault.at
      {
        if fault == ExecFails(i) {
          return false;
        }
        assert rows[..i + 1][..i] == rows[..i];
        tx := tx[CertKey(rows[i].evidenceId, rows[i].certifier) := rows[i]];
      }
      assert rows[..|rows|] == rows;
      if fault.CommitFails? {
        return false;
      }
      certifications := tx;
      ok := true;
    }

    method UpdateEvidenceCertified(id: string, certified: bool, ok: bool)
      modifies this`evidence
      ensures evidence.Keys == old(evidence).Keys
      ensures forall k <- evidence :: k.evidenceId != id || !ok ==> evidence[k] == old(evidence)[k]
      ensures forall k <- evidence :: k.evidenceId == id && ok ==>
                evidence[k].certified == certified && evidence[k].live == old(evidence)[k].live
                && evidence[k].frozen == old(evidence)[k].frozen
                && evidence[k].ingestedAt == old(evidence)[k].ingestedAt
      ensures evidence == if ok then SetCertified(old(evidence), id, certified) else old(evidence)
    {
      if ok {
        evidence := SetCertified(evidence, id, certified);
      }
    }
  }

  // ---- A batch, key by key ----

  predicate Mentions(rs: seq<EvidenceRecord>, k: Key) {
    exists r <- rs :: KeyOf(r) == k
  }

  predicate IsFirst(rs: seq<EvidenceRecord>, i: nat) {
    i < |rs| && forall j | 0 <= j < i :: KeyOf(rs[j]) != KeyOf(rs[i])
  }

  predicate IsLast(rs: seq<EvidenceRecord>, i: nat) {
    i < |rs| && forall j | i < j < |rs| :: KeyOf(rs[j]) != KeyOf(rs[i])
  }

  /** The live columns are those of the batch's last row with this key. */
  ghost predicate LiveOfLast(rs: seq<EvidenceRecord>, k: Key, e: Evidence) {
    forall i: nat | IsLast(rs, i) && KeyOf(rs[i]) == k :: e.live == LiveOf(rs[i])
  }

  /** The frozen columns are those of its first. */
  ghost predicate FrozenOfFirst(rs: seq<EvidenceRecord>, k: Key, e: Evidence) {
    forall i: nat | IsFirst(rs, i) && KeyOf(rs[i]) == k :: e.frozen == FrozenOf(rs[i])
  }

  /** Row `e` of key `k` after a batch, in terms of the row before it, if any, and of the batch. */
  ghost predicate FoldedRow(t: EvidenceTable, rs: seq<EvidenceRecord>, now: int, k: Key, e: Evidence) {
    && (!Mentions(rs, k) ==> k in t && e == t[k])
    && LiveOfLast(rs, k, e)
    && (k in t ==> e.frozen == t[k].frozen && e.certified == t[k].certified && e.ingestedAt == t[k].ingestedAt)
    && (k !in t ==> FrozenOfFirst(rs, k, e) && !e.certified && e.ingestedAt == now)
  }

  lemma FewerRows(rs: seq<EvidenceRecord>, i: nat)
    requires i < |rs| - 1
    ensures IsLast(rs, i) ==> IsLast(rs[..|rs| - 1], i)
    ensures IsFirst(rs, i) ==> IsFirst(rs[..|rs| - 1], i)
  {
    hide KeyOf;
  }

  /** One more row, for another key. */
  lemma OtherKeyKeepsRow(rs: seq<EvidenceRecord>, k: Key, e: Evidence)
    requires rs != [] && KeyOf(rs[|rs| - 1]) != k
    ensures LiveOfLast(rs[..|rs| - 1], k, e) ==> LiveOfLast(rs, k, e)
    ensures FrozenOfFirst(rs[..|rs| - 1], k, e) ==> FrozenOfFirst(rs, k, e)
  {
    assert forall i: nat | IsLast(rs, i) || IsFirst(rs, i) :: i < |rs| by { InRange(rs); }
    hide LiveOf, FrozenOf, KeyOf, IsLast, IsFirst;
    forall i: nat | i < |rs| && KeyOf(rs[i]) == k
      ensures (IsLast(rs, i) ==> IsLast(rs[..|rs| - 1], i)) && (IsFirst(rs, i) ==> IsFirst(rs[..|rs| - 1], i))
    {
      FewerRows(rs, i);
    }
  }

  lemma InRange(rs: seq<EvidenceRecord>)
    ensures forall i: nat | IsLast(rs, i) || IsFirst(rs, i) :: i < |rs|
  {
  }

  lemma MentionsMore(rs: seq<EvidenceRecord>, k: Key)
    requires rs != []
    ensures Mentions(rs, k) <==> Mentions(rs[..|rs| - 1], k) || KeyOf(rs[|rs| - 1]) == k
  {
    assert rs == rs[..|rs| - 1] + [rs[|rs| - 1]];
  }

  /** One more row, for this key. */
  lemma SameKeyTakesRow(rs: seq<EvidenceRecord>, k: Key, e: Evidence)
    requires rs != [] && KeyOf(rs[|rs| - 1]) == k
    ensures e.live == LiveOf(rs[|rs| - 1]) ==> LiveOfLast(rs, k, e)
    ensures Mentions(rs[..|rs| - 1], k) && FrozenOfFirst(rs[..|rs| - 1], k, e) ==> FrozenOfFirst(rs, k, e)
    ensures !Mentions(rs[..|rs| - 1], k) && e.frozen == FrozenOf(rs[|rs| - 1]) ==> FrozenOfFirst(rs, k, e)
  {
    FirstOfMore(rs, k);
    assert forall i: nat | IsLast(rs, i) || IsFirst(rs, i) :: i < |rs| by { InRange(rs); }
    hide LiveOf, FrozenOf, KeyOf, IsLast, IsFirst, Mentions;
  }

  lemma SameFrozen(rs: seq<EvidenceRecord>, k: Key, e: Evidence, e': Evidence)
    ensures e.frozen == e'.frozen && FrozenOfFirst(rs, k, e) ==> FrozenOfFirst(rs, k, e')
  {
  }

  /**
   The live columns take the last row of the batch; the others keep the row that was there or else the first
   of the batch, uncertified and stamped now.
   */
  lemma {:induction false} BatchIsAFoldPerKey(t: EvidenceTable, rs: seq<EvidenceRecord>, now: int, k: Key)
    ensures k in UpsertAll(t, rs, now) <==> k in t || Mentions(rs, k)
    ensures k in UpsertAll(t, rs, now) ==> FoldedRow(t, rs, now, k, UpsertAll(t, rs, now)[k])
  {
    hide LiveOf, FrozenOf, KeyOf, LiveOfLast, FrozenOfFirst, Mentions;
    if rs == [] {
      NothingFolded(t, now, k);
    } else {
      var n := |rs| - 1;
      BatchIsAFoldPerKey(t, rs[..n], now, k);
      MentionsMore(rs, k);
      var before := UpsertAll(t, rs[..n], now);
      if KeyOf(rs[n]) == k {
        var e := Upsert(before, rs[n], now)[k];
        SameKeyTakesRow(rs, k, e);
        if k in before && k !in t {
          SameFrozen(rs[..n], k, before[k], e);
        }
      } else if k in before {
        OtherKeyKeepsRow(rs, k, before[k]);
      }
    }
  }

  lemma NothingFolded(t: EvidenceTable, now: int, k: Key)
    ensures !Mentions([], k) && (k in t ==> FoldedRow(t, [], now, k, t[k]))
  {
  }

  lemma FirstOfMore(rs: seq<EvidenceRecord>, k: Key)
    requires rs != [] && KeyOf(rs[|rs| - 1]) == k
    ensures forall i: nat | IsLast(rs, i) && KeyOf(rs[i]) == k :: i == |rs| - 1
    ensures forall i: nat | IsFirst(rs, i) && KeyOf(rs[i]) == k ::
              if Mentions(rs[..|rs| - 1], k) then i < |rs| - 1 && IsFirst(rs[..|rs| - 1], i) else i == |rs| - 1
  {
    var before := rs[..|rs| - 1];
    forall i: nat | IsFirst(rs, i) && KeyOf(rs[i]) == k
      ensures if Mentions(before, k) then i < |before| && IsFirst(before, i) else i == |before|
    {
      if i < |before| {
        assert before[i] in before;
      }
      assert i == |before| ==> forall j | 0 <= j < |before| :: KeyOf(before[j]) != k;
    }
  }

  function NewKeys(t: EvidenceTable, rs: seq<EvidenceRecord>): set<Key> {
    (set r <- rs :: KeyOf(r)) - t.Keys
  }

  lemma {:induction false} KeysAfter(t: EvidenceTable, rs: seq<EvidenceRecord>, now: int)
    ensures UpsertAll(t, rs, now).Keys == t.Keys + NewKeys(t, rs)
  {
    hide KeyOf, Upsert, NewKeys;
    if rs == [] {
      NoNewKeys(t);
    } else {
      var n := |rs| - 1;
      KeysAfter(t, rs[..n], now);
      OneMoreKey(t, rs);
      UpsertKeys(UpsertAll(t, rs[..n], now), rs[n], now);
    }
  }

  lemma {:induction false} AtMostOneKeyEach(t: EvidenceTable, rs: seq<EvidenceRecord>)
    ensures |NewKeys(t, rs)| <= |rs|
  {
    hide KeyOf, NewKeys;
    if rs == [] {
      NoNewKeys(t);
    } else {
      AtMostOneKeyEach(t, rs[..|rs| - 1]);
      OneMoreKey(t, rs);
    }
  }

  /** The table grows by the batch's new keys, of which there are at most as many as rows. */
  lemma GrowthIsNewKeys(t: EvidenceTable, rs: seq<EvidenceRecord>, now: int)
    ensures UpsertAll(t, rs, now).Keys == t.Keys + NewKeys(t, rs)
    ensures |UpsertAll(t, rs, now)| == |t| + |NewKeys(t, rs)| && |NewKeys(t, rs)| <= |rs|
  {
    KeysAfter(t, rs, now);
    AtMostOneKeyEach(t, rs);
    NewKeysAreNew(t, rs);
    hide NewKeys, UpsertAll;
    Sizes(t.Keys, NewKeys(t, rs), UpsertAll(t, rs, now).Keys);
  }

  lemma NoNewKeys(t: EvidenceTable)
    ensures NewKeys(t, []) == {}
  {
  }

  lemma NewKeysAreNew(t: EvidenceTable, rs: seq<EvidenceRecord>)
    ensures t.Keys !! NewKeys(t, rs)
  {
  }

  lemma UpsertKeys(t: EvidenceTable, r: EvidenceRecord, now: int)
    ensures Upsert(t, r, now).Keys == t.Keys + {KeyOf(r)}
  {
    hide KeyOf, LiveOf, FrozenOf;
  }

  lemma OneMoreKey(t: EvidenceTable, rs: seq<EvidenceRecord>)
    requires rs != []
    ensures var k := KeyOf(rs[|rs| - 1]);
            NewKeys(t, rs) == NewKeys(t, rs[..|rs| - 1]) + (if k in t then {} else {k})
  {
    hide KeyOf;
    assert rs == rs[..|rs| - 1] + [rs[|rs| - 1]];
  }

  lemma Sizes<T>(a: set<T>, b: set<T>, c: set<T>)
    ensures a !! b && c == a + b ==> |c| == |a| + |b|
  {
  }

  /** The row's primary key is made of these columns of the record. */
  predicate IsRowOf(k: Key, r: EvidenceRecord) {
    k.evidenceId == r.evidenceId && k.controlId == r.controlId && k.requirementId == r.requirementId
  }

  lemma RowOfIsKey(k: Key, r: EvidenceRecord)
    ensures IsRowOf(k, r) <==> k == KeyOf(r)
  {
  }

  /**
   Every record has its row and every new row is some record's; a row has the live columns of the last record that it
   is of, so two records share a row exactly if their evidence, control and requirement ids are the same.
   */
  lemma BatchRows(t: EvidenceTable, rs: seq<EvidenceRecord>, now: int)
    ensures var t' := UpsertAll(t, rs, now);
            && (forall k :: k in t' <==> k in t || exists r <- rs :: IsRowOf(k, r))
            && (forall k <- t', i | 0 <= i < |rs| && IsRowOf(k, rs[i])
                                    && (forall j | i < j < |rs| :: !IsRowOf(k, rs[j])) :: t'[k].live == LiveOf(rs[i]))
  {
    var t' := UpsertAll(t, rs, now);
    hide UpsertAll, KeyOf, LiveOf, FrozenOf, IsRowOf;
    forall k: Key, r: EvidenceRecord ensures IsRowOf(k, r) <==> k == KeyOf(r) {
      RowOfIsKey(k, r);
    }
    forall k ensures k in t' <==> k in t || exists r <- rs :: IsRowOf(k, r) {
      BatchIsAFoldPerKey(t, rs, now, k);
    }
    forall k, i | k in t' && 0 <= i < |rs| && IsRowOf(k, rs[i]) && forall j | i < j < |rs| :: !IsRowOf(k, rs[j])
      ensures t'[k].live == LiveOf(rs[i])
    {
      BatchIsAFoldPerKey(t, rs, now, k);
      assert IsLast(rs, i);
    }
  }

  /** The records' evidence, control and requirement ids that no row has yet. */
  function NewTriples(t: EvidenceTable, rs: seq<EvidenceRecord>): set<(string, string, string)> {
    (set r <- rs :: (r.evidenceId, r.controlId, r.requirementId))
    - (set k <- t :: (k.evidenceId, k.controlId, k.requirementId))
  }

  function TriplesOf(keys: set<Key>): set<(string, string, string)> {
    set k <- keys :: (k.evidenceId, k.controlId, k.requirementId)
  }

  lemma {:induction false} TriplesCounted(keys: set<Key>)
    ensures |TriplesOf(keys)| == |keys|
  {
    if k :| k in keys {
      var triple := (k.evidenceId, k.controlId, k.requirementId);
      TriplesCounted(keys - {k});
      assert triple !in TriplesOf(keys - {k});
      assert TriplesOf(keys) == TriplesOf(keys - {k}) + {triple};
    } else {
      assert TriplesOf(keys) == {};
    }
  }

  /** The table grows by one row for each of them. */
  lemma GrowthIsNewTriples(t: EvidenceTable, rs: seq<EvidenceRecord>, now: int)
    ensures |UpsertAll(t, rs, now)| == |t| + |NewTriples(t, rs)|
  {
    var keys := NewKeys(t, rs);
    forall k: Key, r: EvidenceRecord ensures IsRowOf(k, r) <==> k == KeyOf(r) {
      RowOfIsKey(k, r);
    }
    forall x ensures x in TriplesOf(keys) <==> x in NewTriples(t, rs) {
      var k := Key(x.0, x.1, x.2);
      assert x in TriplesOf(keys) <==> k in keys;
      assert x in NewTriples(t, rs) <==> (exists r <- rs :: IsRowOf(k, r)) && k !in t;
    }
    assert TriplesOf(keys) == NewTriples(t, rs);
    TriplesCounted(keys);
    GrowthIsNewKeys(t, rs, now);
  }

  lemma {:induction false} SameLive(t: EvidenceTable, rs: seq<EvidenceRecord>, now: int, k: Key)
    requires k in t
    requires forall i: nat | IsLast(rs, i) && KeyOf(rs[i]) == k :: t[k].live == LiveOf(rs[i])
    ensures k in UpsertAll(t, rs, now) && UpsertAll(t, rs, now)[k] == t[k]
  {
    BatchIsAFoldPerKey(t, rs, now, k);
    if Mentions(rs, k) {
      LastMention(rs, k);
    }
  }

  lemma {:induction false} LastMention(rs: seq<EvidenceRecord>, k: Key)
    requires Mentions(rs, k)
    ensures exists i: nat :: IsLast(rs, i) && KeyOf(rs[i]) == k
  {
    hide KeyOf;
    var n := |rs| - 1;
    assert rs == rs[..n] + [rs[n]];
    if KeyOf(rs[n]) == k {
      assert IsLast(rs, n);
    } else {
      LastMention(rs[..n], k);
      var i: nat :| IsLast(rs[..n], i) && KeyOf(rs[..n][i]) == k;
      assert IsLast(rs, i);
    }
  }

  /** Inserting a batch again changes nothing, whenever that is. */
  lemma BatchTwice(t: EvidenceTable, rs: seq<EvidenceRecord>, now: int, later: int)
    ensures UpsertAll(UpsertAll(t, rs, now), rs, later) == UpsertAll(t, rs, now)
  {
    var once := UpsertAll(t, rs, now);
    var twice := UpsertAll(once, rs, later);
    forall k: Key ensures (k in twice <==> k in once) && (k in once ==> twice[k] == once[k]) {
      BatchIsAFoldPerKey(t, rs, now, k);
      BatchIsAFoldPerKey(once, rs, later, k);
      if k in once {
        SameLive(once, rs, later, k);
      }
    }
  }

  /** Records that carry their ids are the same batch each time they are sent. */
  lemma ReingestChangesNothing(t: EvidenceTable, rs: seq<EvidenceRecord>, uuids: seq<string>, uuids': seq<string>,
                               now: int, later: int)
    requires |rs| == |uuids| == |uuids'|
    requires forall i | 0 <= i < |rs| :: rs[i].evidenceId != ""
    ensures var once := UpsertAll(t, NormalizedAll(rs, uuids), now);
            UpsertAll(once, NormalizedAll(rs, uuids'), later) == once
  {
    assert NormalizedAll(rs, uuids) == NormalizedAll(rs, uuids');
    BatchTwice(t, NormalizedAll(rs, uuids), now, later);
  }

  /** The id that record `i` gets this time is on no row. */
  ghost predicate FreshIds(t: EvidenceTable, rs: seq<EvidenceRecord>, uuids: seq<string>)
    requires |rs| == |uuids|
  {
    forall i | 0 <= i < |rs| && rs[i].evidenceId == "" :: forall k <- t :: k.evidenceId != uuids[i]
  }

  /** Sending any batch again changes nothing if and only if each of its records carries its id. */
  lemma ReingestChangesNothingIff(t: EvidenceTable, rs: seq<EvidenceRecord>, uuids: seq<string>, uuids': seq<string>,
                                  now: int, later: int)
    requires |rs| == |uuids| == |uuids'|
    requires FreshIds(UpsertAll(t, NormalizedAll(rs, uuids), now), rs, uuids')
    ensures var once := UpsertAll(t, NormalizedAll(rs, uuids), now);
            UpsertAll(once, NormalizedAll(rs, uuids'), later) == once <==>
            forall i | 0 <= i < |rs| :: rs[i].evidenceId != ""
  {
    var once, again := UpsertAll(t, NormalizedAll(rs, uuids), now), NormalizedAll(rs, uuids');
    if forall i | 0 <= i < |rs| :: rs[i].evidenceId != "" {
      ReingestChangesNothing(t, rs, uuids, uuids', now, later);
    }
    forall i | 0 <= i < |rs| && rs[i].evidenceId == "" ensures UpsertAll(once, again, later) != once {
      NewIdNewRow(once, rs, uuids', later, i);
    }
  }

  /** A record without an id gets a new row. */
  lemma NewIdNewRow(t: EvidenceTable, rs: seq<EvidenceRecord>, uuids: seq<string>, now: int, i: nat)
    requires |rs| == |uuids| && i < |rs| && rs[i].evidenceId == "" && FreshIds(t, rs, uuids)
    ensures var k := KeyOf(NormalizedAll(rs, uuids)[i]); k !in t && k in UpsertAll(t, NormalizedAll(rs, uuids), now)
  {
    var all := NormalizedAll(rs, uuids);
    assert KeyOf(all[i]).evidenceId == uuids[i];
    hide KeyOf, Normalized, NormalizedAll, UpsertAll;
    KeysAfter(t, all, now);
    assert all[i] in all;
  }
}
