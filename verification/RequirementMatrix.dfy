/**
 The requirement matrix: evidence, joined with controls and their requirements as far as these are known, grouped and
 classified. A query's rows come as a sequence, in whatever order and with whatever repetitions the joins produce.
 */
module RequirementMatrix {
  import opened Options
  import opened ControlRows

  /** The columns of an evidence row that the query uses. */
  datatype Evidence = Evidence(id: string, controlId: string, policyId: string, result: string, collectedAt: int)

  datatype Group = Group(catalogId: string, controlId: string, title: string, requirementId: string,
                         text: Option<string>)

  /** A joined row, with the group it falls into. */
  datatype Joined = Joined(group: Group, id: string, result: string, collectedAt: int)

  datatype Classification = NoEvidence | Mixed | Passing | Failing | Inconclusive

  datatype MatrixRow = MatrixRow(evidenceCount: nat, latest: int, classification: Classification)

  // ---- The query ----

  predicate MatchesControl(e: Evidence, c: ControlRow) {
    c.controlId == e.controlId && c.policyId == e.policyId
  }

  predicate MatchesRequirement(e: Evidence, c: ControlRow, r: RequirementRow) {
    r.controlId == e.controlId && r.catalogId == c.catalogId
  }

  /** Second left join: the groups that `e`, joined with `c`, falls into. */
  function GroupsWith(e: Evidence, c: ControlRow, reqs: seq<RequirementRow>): seq<Group> {
    var matched := RequirementGroups(e, c, reqs);
    if matched == [] then [Group("", e.controlId, c.title, e.controlId, Some(c.objective))] else matched
  }

  function RequirementGroups(e: Evidence, c: ControlRow, reqs: seq<RequirementRow>): seq<Group> {
    if reqs == [] then []
    else
      var r := reqs[|reqs| - 1];
      RequirementGroups(e, c, reqs[..|reqs| - 1])
      + (if MatchesRequirement(e, c, r)
         then [Group(r.catalogId, e.controlId, c.title, r.requirementId, Some(r.text))] else [])
  }

  function ControlGroups(e: Evidence, controls: seq<ControlRow>, reqs: seq<RequirementRow>): seq<Group> {
    if controls == [] then []
    else
      var c := controls[|controls| - 1];
      ControlGroups(e, controls[..|controls| - 1], reqs) + (if MatchesControl(e, c) then GroupsWith(e, c, reqs) else [])
  }

  /** First left join. */
  function GroupsOf(e: Evidence, controls: seq<ControlRow>, reqs: seq<RequirementRow>): seq<Group> {
    var matched := ControlGroups(e, controls, reqs);
    if matched == [] then [Group("", e.controlId, "", e.controlId, None)] else matched
  }

  /** All joined rows of the evidence that passes the WHERE clause. */
  function JoinAll(evidence: seq<Evidence>, keep: Evidence -> bool, controls: seq<ControlRow>,
                   reqs: seq<RequirementRow>): seq<Joined>
  {
    if evidence == [] then []
    else
      var e := evidence[|evidence| - 1];
      var groups := GroupsOf(e, controls, reqs);
      JoinAll(evidence[..|evidence| - 1], keep, controls, reqs)
      + (if keep(e)
         then seq(|groups|, i requires 0 <= i < |groups| => Joined(groups[i], e.id, e.result, e.collectedAt)) else [])
  }

  function InGroup(rows: seq<Joined>, g: Group): seq<Joined> {
    if rows == [] then []
    else InGroup(rows[..|rows| - 1], g) + (if rows[|rows| - 1].group == g then [rows[|rows| - 1]] else [])
  }

  /** COUNT(DISTINCT id), over all rows or those with one result. */
  function Ids(rows: seq<Joined>): set<string> {
    set r <- rows :: r.id
  }

  function IdsWith(rows: seq<Joined>, result: string): set<string> {
    set r <- rows | r.result == result :: r.id
  }

  /** The CASE expression, in its order. */
  function Classify(rows: seq<Joined>): Classification {
    var passed, failed, all := |IdsWith(rows, "Passed")|, |IdsWith(rows, "Failed")|, |Ids(rows)|;
    if |rows| == 0 then NoEvidence
    else if failed > 0 && passed > 0 then Mixed
    else if passed == all then Passing
    else if failed == all then Failing
    else Inconclusive
  }

  function Latest(rows: seq<Joined>): int
    requires rows != []
  {
    var last := rows[|rows| - 1].collectedAt;
    if |rows| == 1 then last
    else
      var before := Latest(rows[..|rows| - 1]);
      if before > last then before else last
  }

  function RowOf(rows: seq<Joined>): MatrixRow
    requires rows != []
  {
    MatrixRow(|Ids(rows)|, Latest(rows), Classify(rows))
  }

  function Matrix(rows: seq<Joined>): map<Group, MatrixRow> {
    map g | g in (set r <- rows :: r.group) && InGroup(rows, g) != [] :: RowOf(InGroup(rows, g))
  }

  // ---- What a classification means ----

  predicate HasResult(rows: seq<Joined>, result: string) {
    exists r <- rows :: r.result == result
  }

  /** Every evidence id has a row with this result. */
  predicate EveryId(rows: seq<Joined>, result: string) {
    forall r <- rows :: exists q <- rows :: q.id == r.id && q.result == result
  }

  lemma SubsetOfSameSize<T>(a: set<T>, b: set<T>)
    requires a <= b && |a| == |b|
    ensures a == b
  {
    if x :| x in b && x !in a {
      SizeOfSubset(a, b - {x});
    }
  }

  lemma {:induction false} SizeOfSubset<T>(a: set<T>, b: set<T>)
    requires a <= b
    ensures |a| <= |b|
    decreases b
  {
    if x :| x in b {
      SizeOfSubset(a - {x}, b - {x});
    }
  }

  lemma SomeIffCounted(rows: seq<Joined>, result: string)
    ensures |IdsWith(rows, result)| > 0 <==> HasResult(rows, result)
  {
    if r :| r in rows && r.result == result {
      assert r.id in IdsWith(rows, result);
    }
    if IdsWith(rows, result) != {} {
      var x :| x in IdsWith(rows, result);
    }
  }

  lemma WithinIds(rows: seq<Joined>, result: string)
    ensures IdsWith(rows, result) <= Ids(rows)
  {
  }

  lemma InIdsWith(rows: seq<Joined>, result: string, id: string)
    ensures id in IdsWith(rows, result) <==> exists q <- rows :: q.id == id && q.result == result
  {
  }

  lemma EveryIdIffSame(rows: seq<Joined>, result: string)
    ensures IdsWith(rows, result) == Ids(rows) <==> EveryId(rows, result)
  {
    WithinIds(rows, result);
    forall r | r in rows
      ensures r.id in IdsWith(rows, result) <==> exists q <- rows :: q.id == r.id && q.result == result
    {
      InIdsWith(rows, result, r.id);
    }
    hide IdsWith;
  }

  lemma EveryIdIffCounted(rows: seq<Joined>, result: string)
    ensures |IdsWith(rows, result)| == |Ids(rows)| <==> EveryId(rows, result)
  {
    EveryIdIffSame(rows, result);
    WithinIds(rows, result);
    hide Ids, IdsWith, EveryId;
    if |IdsWith(rows, result)| == |Ids(rows)| {
      SubsetOfSameSize(IdsWith(rows, result), Ids(rows));
    }
  }

  lemma EveryIdGivesSome(rows: seq<Joined>, result: string)
    ensures rows != [] && EveryId(rows, result) ==> HasResult(rows, result)
    ensures rows == [] ==> !HasResult(rows, result)
  {
    if rows != [] && EveryId(rows, result) {
      assert rows[0] in rows;
    }
  }

  /** Exactly when a group gets each classification. */
  lemma ClassificationIff(rows: seq<Joined>)
    ensures Classify(rows).NoEvidence? <==> rows == []
    ensures Classify(rows).Mixed? <==> HasResult(rows, "Passed") && HasResult(rows, "Failed")
    ensures Classify(rows).Passing? <==> rows != [] && EveryId(rows, "Passed") && !HasResult(rows, "Failed")
    ensures Classify(rows).Failing? <==> rows != [] && EveryId(rows, "Failed") && !HasResult(rows, "Passed")
  {
    hide Ids, IdsWith, EveryId, HasResult;
    SomeIffCounted(rows, "Passed");
    SomeIffCounted(rows, "Failed");
    EveryIdIffCounted(rows, "Passed");
    EveryIdIffCounted(rows, "Failed");
    EveryIdGivesSome(rows, "Passed");
    EveryIdGivesSome(rows, "Failed");
  }

  // ---- Fan-out ----

  /** The evidence ids and results of some rows, without repetitions. */
  function Pairs(rows: seq<Joined>): set<(string, string)> {
    set r <- rows :: (r.id, r.result)
  }

  /** A classification depends on nothing but the set of ids and results: not on order, nor on repetition. */
  lemma ClassificationIgnoresFanOut(a: seq<Joined>, b: seq<Joined>)
    requires Pairs(a) == Pairs(b)
    ensures Classify(a) == Classify(b) && |Ids(a)| == |Ids(b)|
  {
    forall r | r in a ensures (r.id, r.result) in Pairs(b) {
      assert (r.id, r.result) in Pairs(a);
    }
    forall r | r in b ensures (r.id, r.result) in Pairs(a) {
      assert (r.id, r.result) in Pairs(b);
    }
    forall x ensures x in Ids(a) <==> x in Ids(b) {
      if x in Ids(a) {
        var r :| r in a && r.id == x;
        assert (r.id, r.result) in Pairs(b);
      }
      if x in Ids(b) {
        var r :| r in b && r.id == x;
        assert (r.id, r.result) in Pairs(a);
      }
    }
    assert Ids(a) == Ids(b);
    assert IdsWith(a, "Passed") == IdsWith(b, "Passed") by { SameIdsWith(a, b, "Passed"); }
    assert IdsWith(a, "Failed") == IdsWith(b, "Failed") by { SameIdsWith(a, b, "Failed"); }
    assert a == [] <==> b == [] by {
      assert a != [] ==> (a[0].id, a[0].result) in Pairs(a);
      assert b != [] ==> (b[0].id, b[0].result) in Pairs(b);
    }
  }

  lemma SameIdsWith(a: seq<Joined>, b: seq<Joined>, result: string)
    requires Pairs(a) == Pairs(b)
    ensures IdsWith(a, result) == IdsWith(b, result)
  {
    forall x ensures x in IdsWith(a, result) <==> (x, result) in Pairs(a) {
      if (x, result) in Pairs(a) {
        var r :| r in a && (r.id, r.result) == (x, result);
      }
    }
    forall x ensures x in IdsWith(b, result) <==> (x, result) in Pairs(b) {
      if (x, result) in Pairs(b) {
        var r :| r in b && (r.id, r.result) == (x, result);
      }
    }
  }

  // ---- From the tables ----

  /** `g` is a group of `e`, in terms of what the tables have, not of how often or in what order. */
  ghost predicate IsGroupOf(e: Evidence, controls: seq<ControlRow>, reqs: seq<RequirementRow>, g: Group) {
    if exists c <- controls :: c.policyId == e.policyId && c.controlId == e.controlId
    then exists c <- controls :: c.policyId == e.policyId && c.controlId == e.controlId && IsGroupWith(e, c, reqs, g)
    else g == Group("", e.controlId, "", e.controlId, None)
  }

  ghost predicate IsGroupWith(e: Evidence, c: ControlRow, reqs: seq<RequirementRow>, g: Group) {
    if exists r <- reqs :: r.catalogId == c.catalogId && r.controlId == e.controlId
    then exists r <- reqs :: r.catalogId == c.catalogId && r.controlId == e.controlId
                             && g == Group(r.catalogId, e.controlId, c.title, r.requirementId, Some(r.text))
    else g == Group("", e.controlId, c.title, e.controlId, Some(c.objective))
  }

  lemma {:induction false} RequirementGroupsAre(e: Evidence, c: ControlRow,
                                                reqs: seq<RequirementRow>, g: Group)
    ensures g in RequirementGroups(e, c, reqs) <==> exists r <- reqs ::
              MatchesRequirement(e, c, r)
              && g == Group(r.catalogId, e.controlId, c.title, r.requirementId, Some(r.text))
    ensures RequirementGroups(e, c, reqs) == [] <==> forall r <- reqs :: !MatchesRequirement(e, c, r)
  {
    if reqs != [] {
      var n := |reqs| - 1;
      RequirementGroupsAre(e, c, reqs[..n], g);
      assert reqs == reqs[..n] + [reqs[n]];
    }
  }

  lemma {:induction false} ControlGroupsAre(e: Evidence, controls: seq<ControlRow>,
                                            reqs: seq<RequirementRow>, g: Group)
    ensures g in ControlGroups(e, controls, reqs) <==>
            exists c <- controls :: MatchesControl(e, c) && IsGroupWith(e, c, reqs, g)
    ensures ControlGroups(e, controls, reqs) == [] <==> forall c <- controls :: !MatchesControl(e, c)
  {
    hide IsGroupWith, GroupsWith, MatchesControl;
    if controls != [] {
      var n := |controls| - 1;
      ControlGroupsAre(e, controls[..n], reqs, g);
      GroupsWithAre(e, controls[n], reqs, g);
      assert controls == controls[..n] + [controls[n]];
    }
  }

  lemma GroupsWithAre(e: Evidence, c: ControlRow, reqs: seq<RequirementRow>, g: Group)
    ensures g in GroupsWith(e, c, reqs) <==> IsGroupWith(e, c, reqs, g)
    ensures GroupsWith(e, c, reqs) != []
  {
    RequirementGroupsAre(e, c, reqs, g);
  }

  lemma GroupsAre(e: Evidence, controls: seq<ControlRow>, reqs: seq<RequirementRow>, g: Group)
    ensures g in GroupsOf(e, controls, reqs) <==> IsGroupOf(e, controls, reqs, g)
    ensures GroupsOf(e, controls, reqs) != []
  {
    ControlGroupsAre(e, controls, reqs, g);
  }

  lemma {:induction false} JoinedAre(evidence: seq<Evidence>, keep: Evidence -> bool, controls: seq<ControlRow>,
                                     reqs: seq<RequirementRow>, x: Joined)
    ensures x in JoinAll(evidence, keep, controls, reqs) <==> exists e <- evidence ::
              keep(e) && IsGroupOf(e, controls, reqs, x.group)
              && x.id == e.id && x.result == e.result && x.collectedAt == e.collectedAt
  {
    hide GroupsOf, IsGroupOf;
    if evidence != [] {
      var n := |evidence| - 1;
      JoinedAre(evidence[..n], keep, controls, reqs, x);
      assert evidence == evidence[..n] + [evidence[n]];
      GroupsAre(evidence[n], controls, reqs, x.group);
    }
  }

  lemma {:induction false} InGroupAre(rows: seq<Joined>, g: Group, x: Joined)
    ensures x in InGroup(rows, g) <==> x in rows && x.group == g
  {
    if rows != [] {
      InGroupAre(rows[..|rows| - 1], g, x);
      assert rows == rows[..|rows| - 1] + [rows[|rows| - 1]];
    }
  }

  lemma {:induction false} LatestIs(rows: seq<Joined>)
    requires rows != []
    ensures exists r <- rows :: r.collectedAt == Latest(rows)
    ensures forall r <- rows :: r.collectedAt <= Latest(rows)
  {
    var n := |rows| - 1;
    assert rows == rows[..n] + [rows[n]];
    if n > 0 {
      LatestIs(rows[..n]);
    }
  }

  /** A row of the matrix counts its group's evidence ids, each once, and has its latest time. */
  lemma MatrixRowIs(rows: seq<Joined>, g: Group)
    requires g in Matrix(rows)
    ensures Matrix(rows)[g].evidenceCount == |set r <- rows | r.group == g :: r.id|
    ensures exists r <- rows :: r.group == g && r.collectedAt == Matrix(rows)[g].latest
    ensures forall r <- rows :: r.group == g ==> r.collectedAt <= Matrix(rows)[g].latest
  {
    var inGroup := InGroup(rows, g);
    forall x ensures x in inGroup <==> x in rows && x.group == g {
      InGroupAre(rows, g, x);
    }
    LatestIs(inGroup);
    assert Ids(inGroup) == set r <- rows | r.group == g :: r.id;
  }

  /** Every group that there is has evidence, so no row of the matrix says there is none. */
  lemma NoRowSaysNoEvidence(rows: seq<Joined>, g: Group)
    requires g in Matrix(rows)
    ensures !Matrix(rows)[g].classification.NoEvidence? && Matrix(rows)[g].evidenceCount > 0
  {
    var inGroup := InGroup(rows, g);
    ClassificationIff(inGroup);
    assert inGroup[0].id in Ids(inGroup);
  }

  lemma GroupsOfMatrix(rows: seq<Joined>, g: Group)
    ensures g in Matrix(rows) <==> exists r <- rows :: r.group == g
  {
    if r :| r in rows && r.group == g {
      InGroupAre(rows, g, r);
    }
  }

  /** The matrix depends on nothing but the set of joined rows. */
  lemma MatrixIgnoresFanOut(a: seq<Joined>, b: seq<Joined>)
    requires forall x :: x in a <==> x in b
    ensures Matrix(a) == Matrix(b)
  {
    forall g ensures (g in Matrix(a) <==> g in Matrix(b)) && (g in Matrix(a) ==> Matrix(a)[g] == Matrix(b)[g]) {
      GroupsOfMatrix(a, g);
      GroupsOfMatrix(b, g);
      if g in Matrix(a) {
        SameGroupRow(InGroup(a, g), InGroup(b, g)) by {
          forall x ensures x in InGroup(a, g) <==> x in InGroup(b, g) {
            InGroupAre(a, g, x);
            InGroupAre(b, g, x);
          }
        }
      }
    }
  }

  lemma SameGroupRow(a: seq<Joined>, b: seq<Joined>)
    requires a != [] && b != [] && forall x :: x in a <==> x in b
    ensures RowOf(a) == RowOf(b)
  {
    assert Pairs(a) == Pairs(b);
    ClassificationIgnoresFanOut(a, b);
    LatestIs(a);
    LatestIs(b);
  }

  /**
   From the tables: the order of their rows and repeated rows, which multiply in the joins, leave no trace. Each row
   of the matrix is a function of the sets of evidence, controls and requirements.
   */
  lemma MatrixIsOfTheSets(evidence: seq<Evidence>, evidence': seq<Evidence>, keep: Evidence -> bool,
                          controls: seq<ControlRow>, controls': seq<ControlRow>,
                          reqs: seq<RequirementRow>, reqs': seq<RequirementRow>)
    requires forall e :: e in evidence <==> e in evidence'
    requires forall c :: c in controls <==> c in controls'
    requires forall r :: r in reqs <==> r in reqs'
    ensures Matrix(JoinAll(evidence, keep, controls, reqs)) == Matrix(JoinAll(evidence', keep, controls', reqs'))
  {
    var a, b := JoinAll(evidence, keep, controls, reqs), JoinAll(evidence', keep, controls', reqs');
    forall e, g ensures IsGroupOf(e, controls, reqs, g) <==> IsGroupOf(e, controls', reqs', g) {
      SameGroups(e, controls, controls', reqs, reqs', g);
    }
    forall x ensures x in a <==> x in b {
      JoinedAre(evidence, keep, controls, reqs, x);
      JoinedAre(evidence', keep, controls', reqs', x);
    }
    MatrixIgnoresFanOut(a, b);
  }

  lemma SameGroups(e: Evidence, controls: seq<ControlRow>, controls': seq<ControlRow>,
                   reqs: seq<RequirementRow>, reqs': seq<RequirementRow>, g: Group)
    requires forall c :: c in controls <==> c in controls'
    requires forall r :: r in reqs <==> r in reqs'
    ensures IsGroupOf(e, controls, reqs, g) <==> IsGroupOf(e, controls', reqs', g)
  {
    assert forall c :: IsGroupWith(e, c, reqs, g) <==> IsGroupWith(e, c, reqs', g);
  }

  /** No evidence is lost to a missing control or requirement: each row that passes the filter is in some group. */
  lemma EvidenceIsInSomeGroup(evidence: seq<Evidence>, keep: Evidence -> bool, controls: seq<ControlRow>,
                              reqs: seq<RequirementRow>, e: Evidence)
    requires e in evidence && keep(e)
    ensures var rows := JoinAll(evidence, keep, controls, reqs);
            exists g <- Matrix(rows) :: (e.id, e.result) in Pairs(InGroup(rows, g))
  {
    var rows := JoinAll(evidence, keep, controls, reqs);
    GroupsAre(e, controls, reqs, Group("", "", "", "", None));
    var g := GroupsOf(e, controls, reqs)[0];
    GroupsAre(e, controls, reqs, g);
    var x := Joined(g, e.id, e.result, e.collectedAt);
    JoinedAre(evidence, keep, controls, reqs, x);
    GroupsOfMatrix(rows, g);
    InGroupAre(rows, g, x);
  }

  // ---- The listing ----

  /** A row as the caller gets it; its text is no longer optional. */
  datatype ListedRow = ListedRow(catalogId: string, controlId: string, title: string, requirementId: string,
                                 text: string, row: MatrixRow)

  function Listed(g: Group, row: MatrixRow): ListedRow
    requires g.text.Some?
  {
    ListedRow(g.catalogId, g.controlId, g.title, g.requirementId, g.text.value, row)
  }

  /** The groups of a matrix, each once, in the order in which the database returns them. */
  ghost predicate IsOrdering(ordered: seq<Group>, matrix: map<Group, MatrixRow>) {
    && (forall g :: g in ordered <==> g in matrix)
    && (forall i, j | 0 <= i < j < |ordered| :: ordered[i] != ordered[j])
  }

  /** LIMIT and OFFSET: a limit that is not positive is 100, and an offset that is not positive is none. */
  function Page(ordered: seq<Group>, limit: int, offset: int): seq<Group> {
    var rest := if offset <= 0 then ordered else if offset <= |ordered| then ordered[offset..] else [];
    var most := if limit <= 0 then 100 else limit;
    if most <= |rest| then rest[..most] else rest
  }

  /** Whatever the limit, pages that begin where the one before ends make up the list, with nothing lost or repeated. */
  function Pages(ordered: seq<Group>, limit: int, offset: nat, n: nat): seq<Group>
    decreases n
  {
    if n == 0 then []
    else Page(ordered, limit, offset) + Pages(ordered, limit, offset + (if limit <= 0 then 100 else limit), n - 1)
  }

  lemma {:induction false} PagesMakeUp(ordered: seq<Group>, limit: int, offset: nat, n: nat)
    requires offset + n >= |ordered|
    ensures Pages(ordered, limit, offset, n) == if offset <= |ordered| then ordered[offset..] else []
    decreases n
  {
    if n > 0 {
      PagesMakeUp(ordered, limit, offset + (if limit <= 0 then 100 else limit), n - 1);
    }
  }

  /** No group of the page lacks its text. */
  ghost predicate HasTexts(page: seq<Group>) {
    forall g <- page :: g.text.Some?
  }

  /** The loop over the page: all its rows in order, unless one lacks its text, which cannot be read into a string. */
  method ListRequirementMatrix(matrix: map<Group, MatrixRow>, ordered: seq<Group>, limit: int, offset: int)
    returns (out: Option<seq<ListedRow>>)
    requires IsOrdering(ordered, matrix)
    ensures out.Some? <==> HasTexts(Page(ordered, limit, offset))
    ensures var page := Page(ordered, limit, offset);
            out.Some? ==>
              && |out.value| == |page|
              && forall i | 0 <= i < |page| ::
                   && page[i].text.Some? && page[i] in matrix && out.value[i].row == matrix[page[i]]
                   && out.value[i].catalogId == page[i].catalogId && out.value[i].controlId == page[i].controlId
                   && out.value[i].requirementId == page[i].requirementId
                   && out.value[i].title == page[i].title && out.value[i].text == page[i].text.value
  {
    var page := Page(ordered, limit, offset);
    assert forall g <- page :: g in ordered;
    var rows := [];
    for k := 0 to |page|
      invariant |rows| == k
      invariant forall i | 0 <= i < k ::
                  page[i].text.Some? && page[i] in matrix && rows[i] == Listed(page[i], matrix[page[i]])
    {
      if page[k].text.None? {
        assert page[k] in page;
        return None;
      }
      rows := rows + [Listed(page[k], matrix[page[k]])];
    }
    out := Some(rows);
  }

  /** A group lacks its text exactly if it is that of evidence whose control is not known. */
  lemma TextMissingIff(evidence: seq<Evidence>, keep: Evidence -> bool, controls: seq<ControlRow>,
                       reqs: seq<RequirementRow>, g: Group)
    ensures var matrix := Matrix(JoinAll(evidence, keep, controls, reqs));
            g in matrix && g.text.None? <==>
            exists e <- evidence ::
              keep(e) && (forall c <- controls :: c.policyId != e.policyId || c.controlId != e.controlId)
              && g == Group("", e.controlId, "", e.controlId, None)
  {
    var rows := JoinAll(evidence, keep, controls, reqs);
    GroupsOfMatrix(rows, g);
    hide Matrix, JoinAll;
    if g in Matrix(rows) && g.text.None? {
      var x :| x in rows && x.group == g;
      JoinedAre(evidence, keep, controls, reqs, x);
    }
    if e :| e in evidence && keep(e)
            && (forall c <- controls :: c.policyId != e.policyId || c.controlId != e.controlId)
            && g == Group("", e.controlId, "", e.controlId, None) {
      JoinedAre(evidence, keep, controls, reqs, Joined(g, e.id, e.result, e.collectedAt));
    }
  }

  /** So every page of the matrix can be listed exactly if the control of every kept row of evidence is known. */
  lemma EveryPageListsIff(evidence: seq<Evidence>, keep: Evidence -> bool, controls: seq<ControlRow>,
                          reqs: seq<RequirementRow>, ordered: seq<Group>)
    requires IsOrdering(ordered, Matrix(JoinAll(evidence, keep, controls, reqs)))
    ensures (forall limit: int, offset: int :: HasTexts(Page(ordered, limit, offset))) <==>
            forall e <- evidence :: keep(e) ==>
              exists c <- controls :: c.policyId == e.policyId && c.controlId == e.controlId
  {
    if g :| g in ordered && g.text.None? {
      TextMissingIff(evidence, keep, controls, reqs, g);
      assert Page(ordered, |ordered|, 0) == ordered;
      assert !HasTexts(Page(ordered, |ordered|, 0));
    } else {
      forall e | e in evidence && keep(e)
        ensures exists c <- controls :: c.policyId == e.policyId && c.controlId == e.controlId
      {
        TextMissingIff(evidence, keep, controls, reqs, Group("", e.controlId, "", e.controlId, None));
      }
    }
  }
}
