/** Database rows extracted from controls: of a policy's resolved catalogs, or of one parsed catalog. */
module ControlRows {
  import opened EffectivePolicy
  import opened Options
  import opened Places

  datatype ControlRow = ControlRow(catalogId: string, controlId: string, title: string, objective: string,
                                   groupId: string, state: string, policyId: string)

  datatype RequirementRow = RequirementRow(catalogId: string, controlId: string, requirementId: string, text: string,
                                           applicability: seq<string>, recommendation: string, state: string)

  datatype ThreatRow = ThreatRow(catalogId: string, controlId: string, referenceId: string, entryId: string)

  datatype Rows = Rows(controls: seq<ControlRow>, requirements: seq<RequirementRow>, threats: seq<ThreatRow>) {
    function Plus(that: Rows): Rows {
      Rows(controls + that.controls, requirements + that.requirements, threats + that.threats)
    }
  }

  const NO_ROWS := Rows([], [], [])

  /** `lifecycleString`: a lifecycle without a name counts as active. */
  function Lifecycle(state: string): string {
    if state == "" then LIFECYCLE_ACTIVE else state
  }

  // ---- The rows of each part ----

  function RowOfControl(catalogId: string, policyId: string, c: Control): ControlRow {
    ControlRow(catalogId, c.id, c.title, c.objective, c.group, Lifecycle(c.state), policyId)
  }

  function RowOfRequirement(catalogId: string, controlId: string, r: Requirement): RequirementRow {
    RequirementRow(catalogId, controlId, r.id, r.text, r.applicability, r.recommendation, Lifecycle(r.state))
  }

  function RequirementRows(catalogId: string, c: Control): (r: seq<RequirementRow>)
    ensures |r| == |c.requirements|
  {
    seq(|c.requirements|, i requires 0 <= i < |c.requirements| => RowOfRequirement(catalogId, c.id, c.requirements[i]))
  }

  function ThreatRows(catalogId: string, controlId: string, threats: seq<ThreatRefs>): seq<ThreatRow> {
    if threats == [] then []
    else
      var t := threats[|threats| - 1];
      ThreatRows(catalogId, controlId, threats[..|threats| - 1])
      + seq(|t.entries|, i requires 0 <= i < |t.entries| =>
          ThreatRow(catalogId, controlId, t.referenceId, t.entries[i]))
  }

  function RowsOfControl(catalogId: string, policyId: string, c: Control): Rows {
    Rows([RowOfControl(catalogId, policyId, c)], RequirementRows(catalogId, c), ThreatRows(catalogId, c.id, c.threats))
  }

  function RowsOfCatalog(catalogId: string, policyId: string, cs: seq<Control>): Rows {
    if cs == [] then NO_ROWS
    else RowsOfCatalog(catalogId, policyId, cs[..|cs| - 1]).Plus(RowsOfControl(catalogId, policyId, cs[|cs| - 1]))
  }

  function RowsOfCatalogs(policyId: string, catalogs: seq<CatalogView>): Rows {
    if catalogs == [] then NO_ROWS
    else
      var last := catalogs[|catalogs| - 1];
      RowsOfCatalogs(policyId, catalogs[..|catalogs| - 1]).Plus(RowsOfCatalog(last.id, policyId, last.controls))
  }

  // ---- The code ----

  function ResultView(e: EffectiveControls): CatalogView
    reads e.controls
  {
    CatalogView(e.catalogId, [], e.controls[..])
  }

  function ResultViews(eff: seq<EffectiveControls>): (r: seq<CatalogView>)
    reads set e <- eff :: e.controls
    ensures |r| == |eff| && forall i :: 0 <= i < |eff| ==> r[i] == ResultView(eff[i])
  {
    seq(|eff|, i requires 0 <= i < |eff| reads set e <- eff :: e.controls => ResultView(eff[i]))
  }

  /** The two inner loops, the same in both extractions. */
  method ExtractChildren(catalogId: string, c: Control)
    returns (requirements: seq<RequirementRow>, threats: seq<ThreatRow>)
    ensures requirements == RequirementRows(catalogId, c)
    ensures threats == ThreatRows(catalogId, c.id, c.threats)
  {
    requirements, threats := [], [];
    for i := 0 to |c.requirements|
      invariant requirements == RequirementRows(catalogId, c)[..i]
    {
      requirements := requirements + [RowOfRequirement(catalogId, c.id, c.requirements[i])];
    }
    for i := 0 to |c.threats|
      invariant threats == ThreatRows(catalogId, c.id, c.threats[..i])
    {
      assert c.threats[..i + 1][..i] == c.threats[..i];
      var t, before := c.threats[i], threats;
      for j := 0 to |t.entries|
        invariant threats ==
                  before + seq(j, k requires 0 <= k < j => ThreatRow(catalogId, c.id, t.referenceId, t.entries[k]))
      {
        threats := threats + [ThreatRow(catalogId, c.id, t.referenceId, t.entries[j])];
      }
    }
    assert c.threats[..|c.threats|] == c.threats;
  }

  /** The loop over one result's controls. */
  method ExtractResult(e: EffectiveControls, policyId: string)
    returns (controls: seq<ControlRow>, requirements: seq<RequirementRow>, threats: seq<ThreatRow>)
    ensures Rows(controls, requirements, threats) == RowsOfCatalog(e.catalogId, policyId, e.controls[..])
  {
    controls, requirements, threats := [], [], [];
    ghost var cs := e.controls[..];
    for j := 0 to e.controls.Length
      invariant Rows(controls, requirements, threats) == RowsOfCatalog(e.catalogId, policyId, cs[..j])
    {
      assert cs[..j + 1][..j] == cs[..j];
      var c := e.controls[j];
      controls := controls + [RowOfControl(e.catalogId, policyId, c)];
      var rs, ts := ExtractChildren(e.catalogId, c);
      requirements, threats := requirements + rs, threats + ts;
    }
    assert cs[..|cs|] == cs;
  }

  /** `ExtractControlRows`. */
  method ExtractControlRows(eff: seq<EffectiveControls>, policyId: string)
    returns (controls: seq<ControlRow>, requirements: seq<RequirementRow>, threats: seq<ThreatRow>)
    ensures Rows(controls, requirements, threats) == RowsOfCatalogs(policyId, ResultViews(eff))
  {
    hide RowsOfCatalog;
    controls, requirements, threats := [], [], [];
    ghost var views := ResultViews(eff);
    for i := 0 to |eff|
      invariant Rows(controls, requirements, threats) == RowsOfCatalogs(policyId, views[..i])
    {
      assert views[..i + 1][..i] == views[..i];
      var cs, rs, ts := ExtractResult(eff[i], policyId);
      controls, requirements, threats := controls + cs, requirements + rs, threats + ts;
    }
    assert views[..|eff|] == views;
  }

  /** `ParseControlCatalog`, `loaded` being None if loading fails. A given catalog id wins over the catalog's own. */
  method ParseControlCatalog(loaded: Option<CatalogView>, catalogId: string, policyId: string)
    returns (rows: Option<Rows>)
    ensures rows.None? <==> loaded.None?
    ensures loaded.Some? ==>
              var id := if catalogId == "" then loaded.value.id else catalogId;
              rows == Some(RowsOfCatalog(id, policyId, loaded.value.controls))
  {
    if loaded.None? {
      return None;
    }
    var resolvedId := catalogId;
    if resolvedId == "" {
      resolvedId := loaded.value.id;
    }
    var cs := loaded.value.controls;
    var controls, requirements, threats := [], [], [];
    for i := 0 to |cs|
      invariant Rows(controls, requirements, threats) == RowsOfCatalog(resolvedId, policyId, cs[..i])
    {
      assert cs[..i + 1][..i] == cs[..i];
      controls := controls + [RowOfControl(resolvedId, policyId, cs[i])];
      var rs, ts := ExtractChildren(resolvedId, cs[i]);
      requirements, threats := requirements + rs, threats + ts;
    }
    assert cs[..|cs|] == cs;
    rows := Some(Rows(controls, requirements, threats));
  }

  // ---- Properties ----

  /** Both extractions agree on a single catalog. */
  lemma ExtractionsAgree(v: CatalogView, policyId: string)
    ensures RowsOfCatalogs(policyId, [v]) == RowsOfCatalog(v.id, policyId, v.controls)
  {
    assert [v][..0] == [];
  }

  function ControlTotal(cs: seq<Control>): nat {
    |cs|
  }

  function RequirementTotal(cs: seq<Control>): nat {
    if cs == [] then 0 else RequirementTotal(cs[..|cs| - 1]) + |cs[|cs| - 1].requirements|
  }

  function EntryTotal(threats: seq<ThreatRefs>): nat {
    if threats == [] then 0 else EntryTotal(threats[..|threats| - 1]) + |threats[|threats| - 1].entries|
  }

  function ThreatTotal(cs: seq<Control>): nat {
    if cs == [] then 0 else ThreatTotal(cs[..|cs| - 1]) + EntryTotal(cs[|cs| - 1].threats)
  }

  /** A total over several catalogs. */
  function Total(catalogs: seq<CatalogView>, count: seq<Control> -> nat): nat {
    if catalogs == [] then 0
    else Total(catalogs[..|catalogs| - 1], count) + count(catalogs[|catalogs| - 1].controls)
  }

  lemma {:induction false} ThreatRowsCounted(catalogId: string, controlId: string, threats: seq<ThreatRefs>)
    ensures |ThreatRows(catalogId, controlId, threats)| == EntryTotal(threats)
  {
    if threats != [] {
      ThreatRowsCounted(catalogId, controlId, threats[..|threats| - 1]);
    }
  }

  lemma {:induction false} CatalogRowsCounted(catalogId: string, policyId: string, cs: seq<Control>)
    ensures var rows := RowsOfCatalog(catalogId, policyId, cs);
            && |rows.controls| == ControlTotal(cs)
            && |rows.requirements| == RequirementTotal(cs)
            && |rows.threats| == ThreatTotal(cs)
  {
    if cs != [] {
      CatalogRowsCounted(catalogId, policyId, cs[..|cs| - 1]);
      ThreatRowsCounted(catalogId, cs[|cs| - 1].id, cs[|cs| - 1].threats);
    }
  }

  /** One row for every control, every requirement and every threat entry of every catalog. */
  lemma {:induction false} RowsCounted(policyId: string, catalogs: seq<CatalogView>)
    ensures |RowsOfCatalogs(policyId, catalogs).controls| == Total(catalogs, ControlTotal)
    ensures |RowsOfCatalogs(policyId, catalogs).requirements| == Total(catalogs, RequirementTotal)
    ensures |RowsOfCatalogs(policyId, catalogs).threats| == Total(catalogs, ThreatTotal)
  {
    if catalogs != [] {
      hide RowsOfCatalog;
      var n := |catalogs| - 1;
      RowsCounted(policyId, catalogs[..n]);
      CatalogRowsCounted(catalogs[n].id, policyId, catalogs[n].controls);
    }
  }

  /** The rows have a control row for this catalog and control. */
  predicate HasControl(rows: Rows, catalogId: string, controlId: string) {
    exists c <- rows.controls :: c.catalogId == catalogId && c.controlId == controlId
  }

  predicate ChildrenMatch(rows: Rows) {
    && (forall r <- rows.requirements :: HasControl(rows, r.catalogId, r.controlId))
    && (forall t <- rows.threats :: HasControl(rows, t.catalogId, t.controlId))
  }

  lemma {:induction false} ThreatRowsPair(catalogId: string, controlId: string, threats: seq<ThreatRefs>)
    ensures forall t <- ThreatRows(catalogId, controlId, threats) ::
              t.catalogId == catalogId && t.controlId == controlId
  {
    if threats != [] {
      ThreatRowsPair(catalogId, controlId, threats[..|threats| - 1]);
    }
  }

  lemma HasControlPlus(a: Rows, b: Rows, catalogId: string, controlId: string)
    requires HasControl(a, catalogId, controlId) || HasControl(b, catalogId, controlId)
    ensures HasControl(a.Plus(b), catalogId, controlId)
  {
    var c :| (c in a.controls || c in b.controls) && c.catalogId == catalogId && c.controlId == controlId;
    assert c in a.Plus(b).controls;
  }

  lemma PlusChildrenMatch(a: Rows, b: Rows)
    requires ChildrenMatch(a) && ChildrenMatch(b)
    ensures ChildrenMatch(a.Plus(b))
  {
    var rows := a.Plus(b);
    forall r | r in rows.requirements ensures HasControl(rows, r.catalogId, r.controlId) {
      HasControlPlus(a, b, r.catalogId, r.controlId);
    }
    forall t | t in rows.threats ensures HasControl(rows, t.catalogId, t.controlId) {
      HasControlPlus(a, b, t.catalogId, t.controlId);
    }
  }

  lemma ControlChildrenMatch(catalogId: string, policyId: string, c: Control)
    ensures ChildrenMatch(RowsOfControl(catalogId, policyId, c))
  {
    var rows := RowsOfControl(catalogId, policyId, c);
    ThreatRowsPair(catalogId, c.id, c.threats);
    assert rows.controls[0] in rows.controls;
    assert HasControl(rows, catalogId, c.id);
  }

  lemma {:induction false} CatalogChildrenMatch(catalogId: string, policyId: string, cs: seq<Control>)
    ensures ChildrenMatch(RowsOfCatalog(catalogId, policyId, cs))
  {
    if cs != [] {
      hide ChildrenMatch, RowsOfControl;
      CatalogChildrenMatch(catalogId, policyId, cs[..|cs| - 1]);
      ControlChildrenMatch(catalogId, policyId, cs[|cs| - 1]);
      PlusChildrenMatch(RowsOfCatalog(catalogId, policyId, cs[..|cs| - 1]),
                        RowsOfControl(catalogId, policyId, cs[|cs| - 1]));
    }
  }

  /** Every requirement row and every threat row belongs to a control row: same catalog, same control. */
  lemma {:induction false} EveryChildHasItsControl(policyId: string, catalogs: seq<CatalogView>)
    ensures ChildrenMatch(RowsOfCatalogs(policyId, catalogs))
  {
    if catalogs != [] {
      hide ChildrenMatch, RowsOfCatalog;
      var n := |catalogs| - 1;
      EveryChildHasItsControl(policyId, catalogs[..n]);
      CatalogChildrenMatch(catalogs[n].id, policyId, catalogs[n].controls);
      PlusChildrenMatch(RowsOfCatalogs(policyId, catalogs[..n]),
                        RowsOfCatalog(catalogs[n].id, policyId, catalogs[n].controls));
    }
  }

  // ---- Reading the rows back ----

  lemma {:induction false} CatalogControlRows(catalogId: string, policyId: string, cs: seq<Control>, j: nat)
    requires j < |cs|
    ensures Nth(RowsOfCatalog(catalogId, policyId, cs).controls, j) ==
            Some(ControlRow(catalogId, cs[j].id, cs[j].title, cs[j].objective, cs[j].group,
                            if cs[j].state == "" then "Active" else cs[j].state, policyId))
  {
    CatalogRowsCounted(catalogId, policyId, cs[..|cs| - 1]);
    if j < |cs| - 1 {
      CatalogControlRows(catalogId, policyId, cs[..|cs| - 1], j);
    }
  }

  /** A control's row has its own columns, and stands behind those of the controls before it. */
  lemma {:induction false} ControlRowAt(policyId: string, catalogs: seq<CatalogView>, i: nat, j: nat)
    requires i < |catalogs| && j < |catalogs[i].controls|
    ensures var c := catalogs[i].controls[j];
            Nth(RowsOfCatalogs(policyId, catalogs).controls, Total(catalogs[..i], ControlTotal) + j) ==
            Some(ControlRow(catalogs[i].id, c.id, c.title, c.objective, c.group,
                            if c.state == "" then "Active" else c.state, policyId))
  {
    hide RowsOfCatalog;
    var n := |catalogs| - 1;
    if i == n {
      RowsCounted(policyId, catalogs[..n]);
      CatalogControlRows(catalogs[n].id, policyId, catalogs[n].controls, j);
    } else {
      ControlRowAt(policyId, catalogs[..n], i, j);
      assert catalogs[..n][..i] == catalogs[..i];
    }
  }

  /** The requirements and threats of a control. */
  datatype Children = Children(requirements: seq<Requirement>, threats: seq<(string, string)>) {
    function Plus(that: Children): Children {
      Children(requirements + that.requirements, threats + that.threats)
    }
  }

  const NO_CHILDREN := Children([], [])

  function AsRequirement(r: RequirementRow): Requirement {
    Requirement(r.requirementId, r.text, r.applicability, r.recommendation, r.state)
  }

  /** What the rows say about one control of one catalog. */
  function ReadRequirements(rows: seq<RequirementRow>, catalogId: string, controlId: string): seq<Requirement> {
    if rows == [] then []
    else
      var r := rows[|rows| - 1];
      ReadRequirements(rows[..|rows| - 1], catalogId, controlId)
      + (if r.catalogId == catalogId && r.controlId == controlId then [AsRequirement(r)] else [])
  }

  function ReadThreats(rows: seq<ThreatRow>, catalogId: string, controlId: string): seq<(string, string)> {
    if rows == [] then []
    else
      var r := rows[|rows| - 1];
      ReadThreats(rows[..|rows| - 1], catalogId, controlId)
      + (if r.catalogId == catalogId && r.controlId == controlId then [(r.referenceId, r.entryId)] else [])
  }

  function Read(rows: Rows, catalogId: string, controlId: string): Children {
    Children(ReadRequirements(rows.requirements, catalogId, controlId), ReadThreats(rows.threats, catalogId, controlId))
  }

  /** A requirement that does not say otherwise is active. */
  function Settled(r: Requirement): Requirement {
    r.(state := if r.state == "" then "Active" else r.state)
  }

  /** What a control has: its requirements, and its threats' entries. */
  function ChildrenOf(c: Control): Children {
    Children(seq(|c.requirements|, i requires 0 <= i < |c.requirements| => Settled(c.requirements[i])),
             Entries(c.threats))
  }

  function Entries(threats: seq<ThreatRefs>): seq<(string, string)> {
    if threats == [] then []
    else
      var t := threats[|threats| - 1];
      Entries(threats[..|threats| - 1])
      + seq(|t.entries|, i requires 0 <= i < |t.entries| => (t.referenceId, t.entries[i]))
  }

  lemma {:induction false} ReadRequirementsPlus(a: seq<RequirementRow>, b: seq<RequirementRow>, catalogId: string,
                                                controlId: string)
    ensures ReadRequirements(a + b, catalogId, controlId) ==
            ReadRequirements(a, catalogId, controlId) + ReadRequirements(b, catalogId, controlId)
  {
    hide AsRequirement;
    if b == [] {
      assert a + b == a;
    } else {
      var n := |b| - 1;
      ReadRequirementsPlus(a, b[..n], catalogId, controlId);
      assert (a + b)[..|a + b| - 1] == a + b[..n];
      assert (a + b)[|a + b| - 1] == b[n];
    }
  }

  lemma {:induction false} ReadThreatsPlus(a: seq<ThreatRow>, b: seq<ThreatRow>, catalogId: string, controlId: string)
    ensures ReadThreats(a + b, catalogId, controlId) ==
            ReadThreats(a, catalogId, controlId) + ReadThreats(b, catalogId, controlId)
  {
    if b == [] {
      assert a + b == a;
    } else {
      var n := |b| - 1;
      ReadThreatsPlus(a, b[..n], catalogId, controlId);
      assert (a + b)[..|a + b| - 1] == a + b[..n];
      assert (a + b)[|a + b| - 1] == b[n];
    }
  }

  lemma ReadPlus(a: Rows, b: Rows, catalogId: string, controlId: string)
    ensures Read(a.Plus(b), catalogId, controlId) == Read(a, catalogId, controlId).Plus(Read(b, catalogId, controlId))
  {
    ReadRequirementsPlus(a.requirements, b.requirements, catalogId, controlId);
    ReadThreatsPlus(a.threats, b.threats, catalogId, controlId);
  }

  /** Rows that are all of one control are read in order for it, and not at all for any other. */
  lemma {:induction false} ReadOwnRequirements(rows: seq<RequirementRow>, catalogId: string, controlId: string,
                                               own: bool)
    requires forall i | 0 <= i < |rows| :: (rows[i].catalogId == catalogId && rows[i].controlId == controlId) == own
    ensures var read := ReadRequirements(rows, catalogId, controlId);
            |read| == (if own then |rows| else 0) && forall i | 0 <= i < |read| :: read[i] == AsRequirement(rows[i])
  {
    if rows != [] {
      ReadOwnRequirements(rows[..|rows| - 1], catalogId, controlId, own);
    }
  }

  lemma {:induction false} ReadOwnThreats(rows: seq<ThreatRow>, catalogId: string, controlId: string, own: bool)
    requires forall i | 0 <= i < |rows| :: (rows[i].catalogId == catalogId && rows[i].controlId == controlId) == own
    ensures var read := ReadThreats(rows, catalogId, controlId);
            && |read| == (if own then |rows| else 0)
            && forall i | 0 <= i < |read| :: read[i] == (rows[i].referenceId, rows[i].entryId)
  {
    if rows != [] {
      ReadOwnThreats(rows[..|rows| - 1], catalogId, controlId, own);
    }
  }

  lemma {:induction false} ThreatRowsAre(catalogId: string, controlId: string, threats: seq<ThreatRefs>)
    ensures var rows := ThreatRows(catalogId, controlId, threats);
            && |rows| == |Entries(threats)|
            && forall i | 0 <= i < |rows| ::
                 rows[i] == ThreatRow(catalogId, controlId, Entries(threats)[i].0, Entries(threats)[i].1)
  {
    if threats != [] {
      ThreatRowsAre(catalogId, controlId, threats[..|threats| - 1]);
    }
  }

  lemma ReadControlRequirements(catalogId': string, c: Control, catalogId: string, controlId: string)
    ensures ReadRequirements(RequirementRows(catalogId', c), catalogId, controlId) ==
            if catalogId' == catalogId && c.id == controlId then ChildrenOf(c).requirements else []
  {
    var rows, own := RequirementRows(catalogId', c), catalogId' == catalogId && c.id == controlId;
    ReadOwnRequirements(rows, catalogId, controlId, own);
    forall i | 0 <= i < |rows| ensures AsRequirement(rows[i]) == ChildrenOf(c).requirements[i] {
    }
  }

  lemma ReadControlThreats(catalogId': string, c: Control, catalogId: string, controlId: string)
    ensures ReadThreats(ThreatRows(catalogId', c.id, c.threats), catalogId, controlId) ==
            if catalogId' == catalogId && c.id == controlId then Entries(c.threats) else []
  {
    hide ThreatRows, Entries, ReadThreats;
    ThreatRowsAre(catalogId', c.id, c.threats);
    ReadOwnThreats(ThreatRows(catalogId', c.id, c.threats), catalogId, controlId,
                   catalogId' == catalogId && c.id == controlId);
  }

  lemma ReadControl(catalogId': string, policyId: string, c: Control, catalogId: string, controlId: string)
    ensures Read(RowsOfControl(catalogId', policyId, c), catalogId, controlId) ==
            if catalogId' == catalogId && c.id == controlId then ChildrenOf(c) else NO_CHILDREN
  {
    hide ThreatRows, RequirementRows, Entries, ReadThreats, ReadRequirements;
    ReadControlRequirements(catalogId', c, catalogId, controlId);
    ReadControlThreats(catalogId', c, catalogId, controlId);
  }

  /** The children of every control with this id, in order. */
  function ChildrenIn(cs: seq<Control>, controlId: string): Children {
    if cs == [] then NO_CHILDREN
    else
      ChildrenIn(cs[..|cs| - 1], controlId)
      .Plus(if cs[|cs| - 1].id == controlId then ChildrenOf(cs[|cs| - 1]) else NO_CHILDREN)
  }

  lemma {:induction false} ReadCatalog(catalogId': string, policyId: string, cs: seq<Control>, catalogId: string,
                                       controlId: string)
    ensures Read(RowsOfCatalog(catalogId', policyId, cs), catalogId, controlId) ==
            if catalogId' == catalogId then ChildrenIn(cs, controlId) else NO_CHILDREN
  {
    if cs != [] {
      hide Read, RowsOfControl, ChildrenOf;
      ReadCatalog(catalogId', policyId, cs[..|cs| - 1], catalogId, controlId);
      ReadControl(catalogId', policyId, cs[|cs| - 1], catalogId, controlId);
      ReadPlus(RowsOfCatalog(catalogId', policyId, cs[..|cs| - 1]),
               RowsOfControl(catalogId', policyId, cs[|cs| - 1]), catalogId, controlId);
    }
  }

  /** No other control of these has this id. */
  predicate OnlyOne(cs: seq<Control>, j: nat) {
    j < |cs| && forall k | 0 <= k < |cs| && k != j :: cs[k].id != cs[j].id
  }

  lemma {:induction false} ChildrenOfOne(cs: seq<Control>, controlId: string, j: nat)
    ensures (forall k | 0 <= k < |cs| :: cs[k].id != controlId) ==> ChildrenIn(cs, controlId) == NO_CHILDREN
    ensures OnlyOne(cs, j) && cs[j].id == controlId ==> ChildrenIn(cs, controlId) == ChildrenOf(cs[j])
  {
    if cs != [] {
      hide ChildrenOf;
      ChildrenOfOne(cs[..|cs| - 1], controlId, j);
    }
  }

  /**
   The rows determine the controls: what they say about a control that is the only one of its ids, in the only catalog
   of its id, are exactly its requirements and its threats' entries, in order.
   */
  lemma {:induction false} RowsReadBack(policyId: string, catalogs: seq<CatalogView>, i: nat, j: nat)
    requires i < |catalogs| && forall k | 0 <= k < |catalogs| && k != i :: catalogs[k].id != catalogs[i].id
    requires OnlyOne(catalogs[i].controls, j)
    ensures Read(RowsOfCatalogs(policyId, catalogs), catalogs[i].id, catalogs[i].controls[j].id) ==
            ChildrenOf(catalogs[i].controls[j])
  {
    ChildrenOfOne(catalogs[i].controls, catalogs[i].controls[j].id, j);
    ReadCatalogs(policyId, catalogs, i, catalogs[i].controls[j].id, |catalogs|);
    assert catalogs[..|catalogs|] == catalogs;
  }

  lemma {:induction false} ReadCatalogs(policyId: string, catalogs: seq<CatalogView>, i: nat, controlId: string, n: nat)
    requires i < |catalogs| && forall k | 0 <= k < |catalogs| && k != i :: catalogs[k].id != catalogs[i].id
    requires n <= |catalogs|
    ensures Read(RowsOfCatalogs(policyId, catalogs[..n]), catalogs[i].id, controlId) ==
            if i < n then ChildrenIn(catalogs[i].controls, controlId) else NO_CHILDREN
    decreases n
  {
    if n > 0 {
      hide RowsOfCatalog, ChildrenIn;
      ReadCatalogs(policyId, catalogs, i, controlId, n - 1);
      assert catalogs[..n][..n - 1] == catalogs[..n - 1];
      ReadCatalog(catalogs[n - 1].id, policyId, catalogs[n - 1].controls, catalogs[i].id, controlId);
      ReadPlus(RowsOfCatalogs(policyId, catalogs[..n - 1]),
               RowsOfCatalog(catalogs[n - 1].id, policyId, catalogs[n - 1].controls), catalogs[i].id, controlId);
    }
  }
}
