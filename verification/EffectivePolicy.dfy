/**
 Resolving a policy's catalog imports: collect the controls, drop the excluded ones, apply the
 modifiers to the assessment requirements. Go slices are arrays here, so that the in-place write to
 the controls and its not reaching the input catalogs can be stated.
 */
module EffectivePolicy {
  import opened Options
  import opened Places

  datatype Requirement = Requirement(id: string, text: string, applicability: seq<string>, recommendation: string,
                                     state: string)

  datatype ModType = Add | Modify | Remove | Replace | Override | Unspecified

  datatype Modifier = Modifier(id: string, targetId: string, modType: ModType, text: string,
                               applicability: seq<string>, recommendation: string)

  datatype ThreatRefs = ThreatRefs(referenceId: string, entries: seq<string>)

  datatype Control = Control(id: string, title: string, objective: string, group: string, state: string,
                             requirements: seq<Requirement>, threats: seq<ThreatRefs>)

  datatype Catalog = Catalog(id: string, parents: seq<string>, controls: array<Control>)

  datatype Import = Import(referenceId: string, exclusions: seq<string>, modifications: seq<Modifier>)

  datatype Policy = Policy(id: string, mappingReferences: seq<string>, imports: seq<Import>)

  datatype EffectiveControls = EffectiveControls(catalogId: string, controls: array<Control>)

  const LIFECYCLE_ACTIVE := "Active"

  // ---- The plain specification ----

  /** The modifiers aimed at requirement `id`, in list order. */
  function Targeting(mods: seq<Modifier>, id: string): seq<Modifier> {
    if mods == [] then []
    else
      var n := |mods| - 1;
      if mods[n].targetId == id then Targeting(mods[..n], id) + [mods[n]] else Targeting(mods[..n], id)
  }

  /** `replaceAR`: the non-empty fields of the modifier win. */
  function Replaced(r: Requirement, m: Modifier): Requirement {
    var r1 := if m.text != "" then r.(text := m.text) else r;
    var r2 := if m.applicability != [] then r1.(applicability := m.applicability) else r1;
    if m.recommendation != "" then r2.(recommendation := m.recommendation) else r2
  }

  /** `newARFromMod`. */
  function FromModifier(m: Modifier): Requirement {
    Requirement(m.id, m.text, m.applicability, m.recommendation, LIFECYCLE_ACTIVE)
  }

  /** A requirement while its modifiers are applied: what is already out, the one in hand, and its fate. */
  datatype Progress = Progress(out: seq<Requirement>, current: Requirement, removed: bool)

  function ApplyOne(p: Progress, m: Modifier): Progress {
    match m.modType
    case Remove => p.(removed := true)
    case Replace => p.(current := Replaced(p.current, m))
    case Override => p.(current := Replaced(p.current, m))
    case Modify => p.(current := Replaced(p.current, m))
    case Add => p.(out := p.out + [p.current], current := FromModifier(m))
    case Unspecified => p
  }

  function ApplyList(p: Progress, ms: seq<Modifier>): Progress {
    if ms == [] then p else ApplyOne(ApplyList(p, ms[..|ms| - 1]), ms[|ms| - 1])
  }

  function Finish(p: Progress): seq<Requirement> {
    if p.removed then p.out else p.out + [p.current]
  }

  /** What becomes of one requirement: the fold of the modifiers that target it. */
  function Rewritten(r: Requirement, mods: seq<Modifier>): seq<Requirement> {
    Finish(ApplyList(Progress([], r, false), Targeting(mods, r.id)))
  }

  function RewrittenAll(rs: seq<Requirement>, mods: seq<Modifier>): seq<Requirement> {
    if rs == [] then []
    else RewrittenAll(rs[..|rs| - 1], mods) + Rewritten(rs[|rs| - 1], mods)
  }

  function ModifyControl(c: Control, mods: seq<Modifier>): Control {
    c.(requirements := RewrittenAll(c.requirements, mods))
  }

  function ModifyControls(cs: seq<Control>, mods: seq<Modifier>): (r: seq<Control>)
    ensures |r| == |cs|
  {
    seq(|cs|, i requires 0 <= i < |cs| => ModifyControl(cs[i], mods))
  }

  function Excluded(cs: seq<Control>, exclusions: seq<string>): seq<Control> {
    if cs == [] then []
    else
      var n := |cs| - 1;
      if cs[n].id in exclusions then Excluded(cs[..n], exclusions) else Excluded(cs[..n], exclusions) + [cs[n]]
  }

  /** A catalog's contents. */
  datatype CatalogView = CatalogView(id: string, parents: seq<string>, controls: seq<Control>)

  function View(c: Catalog): CatalogView
    reads c.controls
  {
    CatalogView(c.id, c.parents, c.controls[..])
  }

  function Views(cs: seq<Catalog>): (r: seq<CatalogView>)
    reads set c <- cs :: c.controls
    ensures |r| == |cs| && forall i :: 0 <= i < |cs| ==> r[i] == View(cs[i])
  {
    seq(|cs|, i requires 0 <= i < |cs| reads set c <- cs :: c.controls => View(cs[i]))
  }

  /** The controls of every catalog of the pool but those with the primary's id. */
  function OthersControls(pool: seq<CatalogView>, primaryId: string): seq<Control> {
    if pool == [] then []
    else
      var n := |pool| - 1;
      OthersControls(pool[..n], primaryId) + (if pool[n].id == primaryId then [] else pool[n].controls)
  }

  function Flattened(primary: CatalogView, pool: seq<CatalogView>): seq<Control> {
    primary.controls + (if primary.parents == [] then [] else OthersControls(pool, primary.id))
  }

  /** The catalog with this id; a later one hides an earlier one. */
  function CatalogById(catalogs: seq<CatalogView>, id: string): Option<CatalogView> {
    if catalogs == [] then None
    else if catalogs[|catalogs| - 1].id == id then Some(catalogs[|catalogs| - 1])
    else CatalogById(catalogs[..|catalogs| - 1], id)
  }

  /** The catalog an import names, by way of the policy's mapping references. */
  function Imported(pol: Policy, catalogs: seq<CatalogView>, imp: Import): Option<CatalogView> {
    if imp.referenceId in pol.mappingReferences then CatalogById(catalogs, imp.referenceId) else None
  }

  /** An import's controls: a function of its catalog, the pool, its exclusions and its modifiers alone. */
  function Effective(cat: CatalogView, catalogs: seq<CatalogView>, imp: Import): CatalogView {
    CatalogView(cat.id, [], ModifyControls(Excluded(Flattened(cat, catalogs), imp.exclusions), imp.modifications))
  }

  function ResolvedOne(pol: Policy, catalogs: seq<CatalogView>, imp: Import): seq<CatalogView> {
    var cat := Imported(pol, catalogs, imp);
    if cat.None? then [] else [Effective(cat.value, catalogs, imp)]
  }

  function Resolved(pol: Policy, catalogs: seq<CatalogView>, imports: seq<Import>): seq<CatalogView> {
    if imports == [] then []
    else Resolved(pol, catalogs, imports[..|imports| - 1]) + ResolvedOne(pol, catalogs, imports[|imports| - 1])
  }

  // ---- The code ----

  /** Modifiers grouped by target, as the loop over the list builds them. */
  method GroupByTarget(mods: seq<Modifier>) returns (byTarget: map<string, seq<Modifier>>)
    ensures forall id :: id in byTarget <==> Targeting(mods, id) != []
    ensures forall id <- byTarget :: byTarget[id] == Targeting(mods, id)
  {
    byTarget := map[];
    for i := 0 to |mods|
      invariant forall id :: id in byTarget <==> Targeting(mods[..i], id) != []
      invariant forall id <- byTarget :: byTarget[id] == Targeting(mods[..i], id)
    {
      var m := mods[i];
      assert mods[..i + 1][..i] == mods[..i];
      byTarget := byTarget[m.targetId := (if m.targetId in byTarget then byTarget[m.targetId] else []) + [m]];
    }
    assert mods[..|mods|] == mods;
  }

  /** The innermost loop of `applyARModifications`: one targeted requirement. */
  method ModifyTargeted(ar: Requirement, targetMods: seq<Modifier>) returns (modified: seq<Requirement>)
    ensures modified == Finish(ApplyList(Progress([], ar, false), targetMods))
  {
    modified := [];
    var r, removed := ar, false;
    for j := 0 to |targetMods|
      invariant Progress(modified, r, removed) == ApplyList(Progress([], ar, false), targetMods[..j])
    {
      var m := targetMods[j];
      assert targetMods[..j + 1][..j] == targetMods[..j];
      match m.modType {
        case Remove => removed := true;
        case Replace => r := Replaced(r, m);
        case Override => r := Replaced(r, m);
        case Modify => r := Replaced(r, m);
        case Add =>
          modified := modified + [r];
          r := FromModifier(m);
        case Unspecified =>
      }
    }
    assert targetMods[..|targetMods|] == targetMods;
    if !removed {
      modified := modified + [r];
    }
  }

  /** The loop over one control's requirements. */
  method ModifyRequirements(rs: seq<Requirement>, byTarget: map<string, seq<Modifier>>, ghost mods: seq<Modifier>)
    returns (modified: seq<Requirement>)
    requires forall id :: id in byTarget <==> Targeting(mods, id) != []
    requires forall id <- byTarget :: byTarget[id] == Targeting(mods, id)
    ensures modified == RewrittenAll(rs, mods)
  {
    hide Targeting;
    modified := [];
    for i := 0 to |rs|
      invariant modified == RewrittenAll(rs[..i], mods)
    {
      var r := rs[i];
      assert rs[..i + 1][..i] == rs[..i];
      if r.id !in byTarget {
        assert Rewritten(r, mods) == [r];
        modified := modified + [r];
      } else {
        var entries := ModifyTargeted(r, byTarget[r.id]);
        modified := modified + entries;
      }
    }
    assert rs[..|rs|] == rs;
  }

  /** `applyARModifications`: grouped, in place, and equal to folding each requirement's own modifiers. */
  method ApplyModifications(controls: array<Control>, mods: seq<Modifier>)
    modifies controls
    ensures controls[..] == ModifyControls(old(controls[..]), mods)
  {
    hide Targeting, RewrittenAll;
    if |mods| == 0 {
      NoModifiers(controls[..]);
      return;
    }
    var byTarget := GroupByTarget(mods);
    for i := 0 to controls.Length
      invariant forall k :: 0 <= k < i ==> controls[k] == ModifyControl(old(controls[k]), mods)
      invariant forall k :: i <= k < controls.Length ==> controls[k] == old(controls[k])
    {
      var modified := ModifyRequirements(controls[i].requirements, byTarget, mods);
      controls[i] := controls[i].(requirements := modified);
    }
  }

  /** `applyExclusions`: the same slice if there is nothing to exclude, else a new one. */
  method ApplyExclusions(controls: array<Control>, exclusions: seq<string>) returns (r: array<Control>)
    ensures r == controls || fresh(r)
    ensures r[..] == Excluded(controls[..], exclusions)
  {
    if |exclusions| == 0 {
      NoExclusions(controls[..]);
      return controls;
    }
    var excluded := set e <- exclusions;
    var filtered: seq<Control> := [];
    for i := 0 to controls.Length
      invariant filtered == Excluded(controls[..i], exclusions)
    {
      assert controls[..i + 1][..i] == controls[..i];
      if controls[i].id !in excluded {
        filtered := filtered + [controls[i]];
      }
    }
    assert controls[..controls.Length] == controls[..];
    r := NewSlice(filtered);
  }

  method NewSlice(cs: seq<Control>) returns (r: array<Control>)
    ensures fresh(r) && r[..] == cs
  {
    r := new Control[|cs|](i requires 0 <= i < |cs| => cs[i]);
  }

  /** `flattenControls`: always a new slice. */
  method FlattenControls(primary: Catalog, pool: seq<Catalog>) returns (controls: array<Control>)
    ensures fresh(controls)
    ensures controls[..] == Flattened(View(primary), Views(pool))
  {
    controls := NewSlice(primary.controls[..]);
    if |primary.parents| == 0 {
      return;
    }
    ghost var views := Views(pool);
    for i := 0 to |pool|
      invariant fresh(controls)
      invariant controls[..] == primary.controls[..] + OthersControls(views[..i], primary.id)
    {
      assert views[..i + 1][..i] == views[..i];
      if pool[i].id != primary.id {
        controls := NewSlice(controls[..] + pool[i].controls[..]);
      }
    }
    assert views[..|pool|] == views;
  }

  /** The catalogs by id, as the loop over the list builds them. */
  method IndexCatalogs(catalogs: seq<Catalog>) returns (byId: map<string, Catalog>)
    ensures forall id :: id in byId <==> CatalogById(Views(catalogs), id).Some?
    ensures forall id <- byId :: byId[id] in catalogs && CatalogById(Views(catalogs), id) == Some(View(byId[id]))
  {
    byId := map[];
    ghost var views := Views(catalogs);
    for i := 0 to |catalogs|
      invariant forall id :: id in byId <==> CatalogById(views[..i], id).Some?
      invariant forall id <- byId :: byId[id] in catalogs && CatalogById(views[..i], id) == Some(View(byId[id]))
    {
      assert views[..i + 1][..i] == views[..i];
      byId := byId[catalogs[i].id := catalogs[i]];
    }
    assert views[..|catalogs|] == views;
  }

  /** The contents of a result. */
  ghost predicate Shows(result: seq<EffectiveControls>, expected: seq<CatalogView>)
    reads set e <- result :: e.controls
  {
    |result| == |expected| && forall i :: 0 <= i < |result| ==>
      result[i].catalogId == expected[i].id && result[i].controls[..] == expected[i].controls
  }

  /**
   `ResolveEffectiveControls`. It modifies nothing that its caller has, so the input catalogs keep their
   controls; every result has its own new slice; and the results are those of the plain specification.
   It fails exactly when there are imports and none of them resolves.
   */
  method ResolveEffectiveControls(pol: Policy, catalogs: seq<Catalog>)
    returns (result: seq<EffectiveControls>, ok: bool)
    ensures ok <==> pol.imports == [] || Resolved(pol, Views(catalogs), pol.imports) != []
    ensures ok ==> Shows(result, Resolved(pol, Views(catalogs), pol.imports))
    ensures forall e <- result :: fresh(e.controls)
    ensures forall i, j :: 0 <= i < j < |result| ==> result[i].controls != result[j].controls
  {
    hide Effective, CatalogById, Resolved;
    var byId := IndexCatalogs(catalogs);
    ghost var views := Views(catalogs);
    result := [];
    NothingToResolve(pol, views);
    for i := 0 to |pol.imports|
      invariant forall e <- result :: fresh(e.controls)
      invariant forall j, k :: 0 <= j < k < |result| ==> result[j].controls != result[k].controls
      invariant Shows(result, Resolved(pol, views, pol.imports[..i]))
    {
      var imp := pol.imports[i];
      ResolvedStep(pol, views, i);
      if imp.referenceId in pol.mappingReferences && imp.referenceId in byId {
        var controls := ResolveImport(byId[imp.referenceId], catalogs, imp);
        result := result + [EffectiveControls(byId[imp.referenceId].id, controls)];
      }
    }
    assert pol.imports[..|pol.imports|] == pol.imports;
    ok := !(|result| == 0 && |pol.imports| > 0);
  }

  lemma NothingToResolve(pol: Policy, catalogs: seq<CatalogView>)
    ensures Resolved(pol, catalogs, pol.imports[..0]) == []
  {
  }

  lemma ResolvedStep(pol: Policy, catalogs: seq<CatalogView>, i: nat)
    requires i < |pol.imports|
    ensures Resolved(pol, catalogs, pol.imports[..i + 1]) ==
            Resolved(pol, catalogs, pol.imports[..i]) + ResolvedOne(pol, catalogs, pol.imports[i])
  {
    assert pol.imports[..i + 1][..i] == pol.imports[..i];
  }

  /** The three stages of one import. */
  method ResolveImport(cat: Catalog, catalogs: seq<Catalog>, imp: Import) returns (controls: array<Control>)
    ensures fresh(controls)
    ensures Effective(View(cat), Views(catalogs), imp) == CatalogView(cat.id, [], controls[..])
  {
    controls := FlattenControls(cat, catalogs);
    controls := ApplyExclusions(controls, imp.exclusions);
    ApplyModifications(controls, imp.modifications);
  }

  lemma {:induction false} NoModifiersAll(rs: seq<Requirement>)
    ensures RewrittenAll(rs, []) == rs
  {
    if rs != [] {
      NoModifiersAll(rs[..|rs| - 1]);
      assert Targeting([], rs[|rs| - 1].id) == [];
    }
  }

  lemma NoModifiers(cs: seq<Control>)
    ensures ModifyControls(cs, []) == cs
  {
    forall i | 0 <= i < |cs| ensures ModifyControl(cs[i], []) == cs[i] {
      NoModifiersAll(cs[i].requirements);
    }
  }

  lemma {:induction false} NoExclusions(cs: seq<Control>)
    ensures Excluded(cs, []) == cs
  {
    if cs != [] {
      NoExclusions(cs[..|cs| - 1]);
    }
  }

  // ---- Which modifiers apply, and what one adds ----

  /** How many modifiers are aimed at `id`. */
  function AimedAt(mods: seq<Modifier>, id: string): nat {
    if mods == [] then 0 else AimedAt(mods[..|mods| - 1], id) + (if mods[|mods| - 1].targetId == id then 1 else 0)
  }

  /** A requirement has as many modifiers as name its id. */
  lemma {:induction false} TargetingCounted(mods: seq<Modifier>, id: string)
    ensures |Targeting(mods, id)| == AimedAt(mods, id)
  {
    if mods != [] {
      TargetingCounted(mods[..|mods| - 1], id);
    }
  }

  /** And they are those, in the order of the list. */
  lemma {:induction false} TargetingAt(mods: seq<Modifier>, id: string, i: nat)
    requires i < |mods| && mods[i].targetId == id
    ensures Nth(Targeting(mods, id), AimedAt(mods[..i], id)) == Some(mods[i])
  {
    if i == |mods| - 1 {
      TargetingCounted(mods[..i], id);
    } else {
      TargetingAt(mods[..|mods| - 1], id, i);
      assert mods[..|mods| - 1][..i] == mods[..i];
    }
  }

  /** An Add alone leaves the requirement and puts an active one with the modifier's own fields behind it. */
  lemma AddAlone(r: Requirement, mods: seq<Modifier>, add: Modifier)
    requires Targeting(mods, r.id) == [add] && add.modType.Add?
    ensures Rewritten(r, mods) ==
            [r, Requirement(add.id, add.text, add.applicability, add.recommendation, "Active")]
  {
    FoldOne(Progress([], r, false), add);
  }

  // ---- Properties of resolution ----

  /** Each import is resolved on its own, whatever the others are. */
  lemma {:induction false} ImportsResolveAlone(pol: Policy, catalogs: seq<CatalogView>, a: seq<Import>, b: seq<Import>)
    ensures Resolved(pol, catalogs, a + b) == Resolved(pol, catalogs, a) + Resolved(pol, catalogs, b)
  {
    hide ResolvedOne, Effective, Imported;
    if b == [] {
      assert a + b == a;
    } else {
      ImportsResolveAlone(pol, catalogs, a, b[..|b| - 1]);
      assert (a + b)[..|a + b| - 1] == a + b[..|b| - 1];
    }
  }

  lemma {:induction false} NothingResolved(pol: Policy, catalogs: seq<CatalogView>, imports: seq<Import>)
    ensures Resolved(pol, catalogs, imports) == [] <==> forall imp <- imports :: Imported(pol, catalogs, imp).None?
  {
    hide Effective, Imported;
    if imports != [] {
      var n := |imports| - 1;
      NothingResolved(pol, catalogs, imports[..n]);
      assert imports == imports[..n] + [imports[n]];
    }
  }

  lemma {:induction false} CatalogMissing(catalogs: seq<CatalogView>, id: string)
    ensures CatalogById(catalogs, id).None? <==> forall c <- catalogs :: c.id != id
    ensures CatalogById(catalogs, id).Some? ==> CatalogById(catalogs, id).value in catalogs
                                                && CatalogById(catalogs, id).value.id == id
  {
    if catalogs != [] {
      CatalogMissing(catalogs[..|catalogs| - 1], id);
      assert catalogs == catalogs[..|catalogs| - 1] + [catalogs[|catalogs| - 1]];
    }
  }

  /** The import's reference is mapped, and a catalog with that id is there. */
  predicate Resolvable(pol: Policy, catalogs: seq<CatalogView>, imp: Import) {
    imp.referenceId in pol.mappingReferences && exists c <- catalogs :: c.id == imp.referenceId
  }

  /** So resolution fails exactly when there are imports and not one of them is resolvable. */
  lemma ResolutionFails(pol: Policy, catalogs: seq<CatalogView>)
    ensures Resolved(pol, catalogs, pol.imports) == [] <==> forall imp <- pol.imports :: !Resolvable(pol, catalogs, imp)
  {
    hide Resolved;
    NothingResolved(pol, catalogs, pol.imports);
    forall imp | imp in pol.imports ensures Imported(pol, catalogs, imp).Some? <==> Resolvable(pol, catalogs, imp) {
      CatalogMissing(catalogs, imp.referenceId);
    }
  }

  // ---- What resolution yields, control by control ----

  /** How many controls are not excluded. */
  function Kept(cs: seq<Control>, exclusions: seq<string>): nat {
    if cs == [] then 0 else Kept(cs[..|cs| - 1], exclusions) + (if cs[|cs| - 1].id in exclusions then 0 else 1)
  }

  /** How many controls of the catalogs with another id are not. */
  function OthersKept(pool: seq<CatalogView>, id: string, exclusions: seq<string>): nat {
    if pool == [] then 0
    else
      var last := pool[|pool| - 1];
      OthersKept(pool[..|pool| - 1], id, exclusions) + (if last.id == id then 0 else Kept(last.controls, exclusions))
  }

  /** Behind how many of them control `j` of catalog `k` stands. */
  function OtherPlace(pool: seq<CatalogView>, id: string, exclusions: seq<string>, k: nat, j: nat): nat
    requires k < |pool| && j <= |pool[k].controls|
  {
    OthersKept(pool[..k], id, exclusions) + Kept(pool[k].controls[..j], exclusions)
  }

  /** At this place is this control, with its requirements rewritten and all else as it was. */
  predicate HasAt(out: seq<Control>, n: nat, c: Control, mods: seq<Modifier>) {
    Nth(out, n) == Some(c.(requirements := RewrittenAll(c.requirements, mods)))
  }

  /**
   The controls of an import of `cat`: those of `cat` that are not excluded, in order, and nothing else, unless `cat`
   extends something: then those of every catalog with another id follow, in the order of the catalogs.
   */
  ghost predicate ControlsOf(out: seq<Control>, cat: CatalogView, catalogs: seq<CatalogView>, imp: Import) {
    var own := Kept(cat.controls, imp.exclusions);
    && |out| == own + (if cat.parents == [] then 0 else OthersKept(catalogs, cat.id, imp.exclusions))
    && (forall i | 0 <= i < |cat.controls| && cat.controls[i].id !in imp.exclusions ::
          HasAt(out, Kept(cat.controls[..i], imp.exclusions), cat.controls[i], imp.modifications))
    && (forall k, j | && cat.parents != [] && 0 <= k < |catalogs| && catalogs[k].id != cat.id
                      && 0 <= j < |catalogs[k].controls| && catalogs[k].controls[j].id !in imp.exclusions ::
          HasAt(out, own + OtherPlace(catalogs, cat.id, imp.exclusions, k, j), catalogs[k].controls[j],
                imp.modifications))
  }

  /** How many imports resolve. */
  function ResolvedCount(pol: Policy, catalogs: seq<CatalogView>, imports: seq<Import>): nat {
    if imports == [] then 0
    else
      ResolvedCount(pol, catalogs, imports[..|imports| - 1])
      + (if Resolvable(pol, catalogs, imports[|imports| - 1]) then 1 else 0)
  }

  /** Catalog `c` has this id, and none behind it has. */
  predicate LastWithId(catalogs: seq<CatalogView>, c: nat, id: string) {
    c < |catalogs| && catalogs[c].id == id && forall d | c < d < |catalogs| :: catalogs[d].id != id
  }

  /**
   The result of import `n` stands behind those of the imports before it that resolve. Of catalogs with one id it takes
   the last; what controls it has is said in terms of the catalogs and the import alone.
   */
  lemma {:induction false} ImportYields(pol: Policy, catalogs: seq<CatalogView>, imports: seq<Import>, n: nat, c: nat)
    requires n < |imports| && imports[n].referenceId in pol.mappingReferences
    requires LastWithId(catalogs, c, imports[n].referenceId)
    ensures var results, place := Resolved(pol, catalogs, imports), ResolvedCount(pol, catalogs, imports[..n]);
            && |results| == ResolvedCount(pol, catalogs, imports) && place < |results|
            && results[place].id == imports[n].referenceId
            && ControlsOf(results[place].controls, catalogs[c], catalogs, imports[n])
  {
    ResolvedCounted(pol, catalogs, imports);
    hide ControlsOf;
    if n == |imports| - 1 {
      LastHides(catalogs, c, imports[n].referenceId);
      EffectiveIs(catalogs[c], catalogs, imports[n]);
      ResolvedCounted(pol, catalogs, imports[..n]);
    } else {
      hide Effective;
      ImportYields(pol, catalogs, imports[..|imports| - 1], n, c);
      assert imports[..|imports| - 1][..n] == imports[..n];
    }
  }

  /** An id is among the import's exactly if some control of those catalogs has it and it is not excluded. */
  lemma ImportHasId(cat: CatalogView, catalogs: seq<CatalogView>, imp: Import, id: string)
    ensures (exists c <- Effective(cat, catalogs, imp).controls :: c.id == id) <==>
            && id !in imp.exclusions
            && ((exists c <- cat.controls :: c.id == id)
                || (cat.parents != [] && exists other <- catalogs ::
                      other.id != cat.id && exists c <- other.controls :: c.id == id))
  {
    var all := Excluded(Flattened(cat, catalogs), imp.exclusions);
    var out := Effective(cat, catalogs, imp).controls;
    hide Excluded, Flattened, RewrittenAll, OthersControls;
    forall c ensures c in all <==> c in Flattened(cat, catalogs) && c.id !in imp.exclusions {
      ExcludedIff(Flattened(cat, catalogs), imp.exclusions, c);
    }
    forall c ensures c in Flattened(cat, catalogs) <==>
                     c in cat.controls || (cat.parents != [] && c in OthersControls(catalogs, cat.id)) {
      FlattenedIff(cat, catalogs, c);
    }
    forall c ensures c in OthersControls(catalogs, cat.id) <==>
                     exists other <- catalogs :: other.id != cat.id && c in other.controls {
      OthersIff(catalogs, cat.id, c);
    }
    assert forall i | 0 <= i < |all| :: out[i].id == all[i].id;
    assert (exists c <- out :: c.id == id) <==> exists c <- all :: c.id == id;
  }

  lemma {:induction false} ExcludedIff(cs: seq<Control>, exclusions: seq<string>, c: Control)
    ensures c in Excluded(cs, exclusions) <==> c in cs && c.id !in exclusions
  {
    if cs != [] {
      ExcludedIff(cs[..|cs| - 1], exclusions, c);
      assert cs == cs[..|cs| - 1] + [cs[|cs| - 1]];
    }
  }

  lemma {:induction false} ExcludedCounted(cs: seq<Control>, exclusions: seq<string>)
    ensures |Excluded(cs, exclusions)| == Kept(cs, exclusions)
  {
    if cs != [] {
      ExcludedCounted(cs[..|cs| - 1], exclusions);
    }
  }

  /** A control that is kept stands behind those of its list before it that are. */
  lemma {:induction false} ExcludedAt(cs: seq<Control>, exclusions: seq<string>, i: nat)
    requires i < |cs| && cs[i].id !in exclusions
    ensures Nth(Excluded(cs, exclusions), Kept(cs[..i], exclusions)) == Some(cs[i])
  {
    if i == |cs| - 1 {
      ExcludedCounted(cs[..i], exclusions);
    } else {
      ExcludedAt(cs[..|cs| - 1], exclusions, i);
      assert cs[..|cs| - 1][..i] == cs[..i];
    }
  }

  lemma {:induction false} ExcludedAppend(a: seq<Control>, b: seq<Control>, exclusions: seq<string>)
    ensures Excluded(a + b, exclusions) == Excluded(a, exclusions) + Excluded(b, exclusions)
  {
    if b == [] {
      assert a + b == a;
    } else {
      ExcludedAppend(a, b[..|b| - 1], exclusions);
      assert (a + b)[..|a + b| - 1] == a + b[..|b| - 1];
    }
  }

  lemma {:induction false} OthersCounted(pool: seq<CatalogView>, id: string, exclusions: seq<string>)
    ensures |Excluded(OthersControls(pool, id), exclusions)| == OthersKept(pool, id, exclusions)
  {
    if pool != [] {
      var n := |pool| - 1;
      OthersCounted(pool[..n], id, exclusions);
      ExcludedAppend(OthersControls(pool[..n], id), pool[n].controls, exclusions);
      ExcludedCounted(pool[n].controls, exclusions);
      assert OthersControls(pool[..n], id) + [] == OthersControls(pool[..n], id);
    }
  }

  lemma {:induction false} OthersAt(pool: seq<CatalogView>, id: string, exclusions: seq<string>, k: nat, j: nat)
    requires k < |pool| && pool[k].id != id && j < |pool[k].controls| && pool[k].controls[j].id !in exclusions
    ensures Nth(Excluded(OthersControls(pool, id), exclusions), OtherPlace(pool, id, exclusions, k, j)) ==
            Some(pool[k].controls[j])
  {
    hide Excluded, Kept, OthersKept;
    var n := |pool| - 1;
    ExcludedAppend(OthersControls(pool[..n], id), pool[n].controls, exclusions);
    if k == n {
      OthersCounted(pool[..n], id, exclusions);
      ExcludedAt(pool[n].controls, exclusions, j);
    } else {
      OthersAt(pool[..n], id, exclusions, k, j);
      assert pool[..n][..k] == pool[..k];
      assert OthersControls(pool[..n], id) + [] == OthersControls(pool[..n], id);
    }
  }

  lemma ModifiedAt(a: seq<Control>, b: seq<Control>, n: nat, c: Control, mods: seq<Modifier>)
    ensures Nth(a, n) == Some(c) ==> HasAt(ModifyControls(a + b, mods), n, c, mods)
    ensures Nth(b, n) == Some(c) ==> HasAt(ModifyControls(a + b, mods), |a| + n, c, mods)
  {
  }

  lemma EffectiveParts(cat: CatalogView, catalogs: seq<CatalogView>, imp: Import)
    ensures var others := if cat.parents == [] then [] else OthersControls(catalogs, cat.id);
            Effective(cat, catalogs, imp).controls ==
            ModifyControls(Excluded(cat.controls, imp.exclusions) + Excluded(others, imp.exclusions), imp.modifications)
  {
    ExcludedAppend(cat.controls, if cat.parents == [] then [] else OthersControls(catalogs, cat.id), imp.exclusions);
  }

  lemma EffectiveCounted(cat: CatalogView, catalogs: seq<CatalogView>, imp: Import)
    ensures |Effective(cat, catalogs, imp).controls| ==
            Kept(cat.controls, imp.exclusions)
            + (if cat.parents == [] then 0 else OthersKept(catalogs, cat.id, imp.exclusions))
  {
    hide OthersControls, Flattened, OthersKept, Kept;
    EffectiveParts(cat, catalogs, imp);
    ExcludedCounted(cat.controls, imp.exclusions);
    OthersCounted(catalogs, cat.id, imp.exclusions);
  }

  lemma OwnAt(cat: CatalogView, catalogs: seq<CatalogView>, imp: Import, i: nat)
    requires i < |cat.controls| && cat.controls[i].id !in imp.exclusions
    ensures HasAt(Effective(cat, catalogs, imp).controls, Kept(cat.controls[..i], imp.exclusions), cat.controls[i],
                  imp.modifications)
  {
    hide Excluded, Kept, OthersControls, Effective, HasAt, ModifyControls, Nth;
    EffectiveParts(cat, catalogs, imp);
    ExcludedAt(cat.controls, imp.exclusions, i);
    var others := if cat.parents == [] then [] else OthersControls(catalogs, cat.id);
    ModifiedAt(Excluded(cat.controls, imp.exclusions), Excluded(others, imp.exclusions),
               Kept(cat.controls[..i], imp.exclusions), cat.controls[i], imp.modifications);
  }

  lemma OtherAt(cat: CatalogView, catalogs: seq<CatalogView>, imp: Import, k: nat, j: nat)
    requires cat.parents != [] && k < |catalogs| && catalogs[k].id != cat.id
    requires j < |catalogs[k].controls| && catalogs[k].controls[j].id !in imp.exclusions
    ensures HasAt(Effective(cat, catalogs, imp).controls,
                  Kept(cat.controls, imp.exclusions) + OtherPlace(catalogs, cat.id, imp.exclusions, k, j),
                  catalogs[k].controls[j], imp.modifications)
  {
    hide Excluded, Kept, OthersKept, OthersControls, Effective, HasAt, ModifyControls, Nth;
    EffectiveParts(cat, catalogs, imp);
    ExcludedCounted(cat.controls, imp.exclusions);
    OthersAt(catalogs, cat.id, imp.exclusions, k, j);
    ModifiedAt(Excluded(cat.controls, imp.exclusions), Excluded(OthersControls(catalogs, cat.id), imp.exclusions),
               OtherPlace(catalogs, cat.id, imp.exclusions, k, j), catalogs[k].controls[j], imp.modifications);
  }

  lemma EffectiveIs(cat: CatalogView, catalogs: seq<CatalogView>, imp: Import)
    ensures ControlsOf(Effective(cat, catalogs, imp).controls, cat, catalogs, imp)
  {
    hide Kept, OthersKept, OtherPlace, Effective, HasAt;
    EffectiveCounted(cat, catalogs, imp);
    forall i | 0 <= i < |cat.controls| && cat.controls[i].id !in imp.exclusions
      ensures HasAt(Effective(cat, catalogs, imp).controls, Kept(cat.controls[..i], imp.exclusions), cat.controls[i],
                    imp.modifications)
    {
      OwnAt(cat, catalogs, imp, i);
    }
    forall k, j | && cat.parents != [] && 0 <= k < |catalogs| && catalogs[k].id != cat.id
                  && 0 <= j < |catalogs[k].controls| && catalogs[k].controls[j].id !in imp.exclusions
      ensures HasAt(Effective(cat, catalogs, imp).controls,
                    Kept(cat.controls, imp.exclusions) + OtherPlace(catalogs, cat.id, imp.exclusions, k, j),
                    catalogs[k].controls[j], imp.modifications)
    {
      OtherAt(cat, catalogs, imp, k, j);
    }
  }

  lemma {:induction false} ResolvedCounted(pol: Policy, catalogs: seq<CatalogView>, imports: seq<Import>)
    ensures |Resolved(pol, catalogs, imports)| == ResolvedCount(pol, catalogs, imports)
  {
    if imports != [] {
      hide Effective;
      ResolvedCounted(pol, catalogs, imports[..|imports| - 1]);
      CatalogMissing(catalogs, imports[|imports| - 1].referenceId);
    }
  }

  lemma {:induction false} LastHides(catalogs: seq<CatalogView>, c: nat, id: string)
    requires LastWithId(catalogs, c, id)
    ensures CatalogById(catalogs, id) == Some(catalogs[c])
  {
    if c < |catalogs| - 1 {
      LastHides(catalogs[..|catalogs| - 1], c, id);
    }
  }

  lemma FlattenedIff(cat: CatalogView, catalogs: seq<CatalogView>, c: Control)
    ensures c in Flattened(cat, catalogs) <==>
            c in cat.controls || (cat.parents != [] && c in OthersControls(catalogs, cat.id))
  {
  }

  lemma {:induction false} OthersIff(pool: seq<CatalogView>, id: string, c: Control)
    ensures c in OthersControls(pool, id) <==> exists other <- pool :: other.id != id && c in other.controls
  {
    if pool != [] {
      OthersIff(pool[..|pool| - 1], id, c);
      assert pool == pool[..|pool| - 1] + [pool[|pool| - 1]];
    }
  }

  // ---- Properties of modification ----

  /** Modifying depends on each target's own modifiers only: their order across targets is free. */
  lemma {:induction false} SameTargetsSameRequirements(rs: seq<Requirement>, mods: seq<Modifier>, mods': seq<Modifier>)
    requires forall id :: Targeting(mods, id) == Targeting(mods', id)
    ensures RewrittenAll(rs, mods) == RewrittenAll(rs, mods')
  {
    if rs != [] {
      SameTargetsSameRequirements(rs[..|rs| - 1], mods, mods');
      assert Targeting(mods, rs[|rs| - 1].id) == Targeting(mods', rs[|rs| - 1].id);
    }
  }

  lemma SameTargetsSameControls(cs: seq<Control>, mods: seq<Modifier>, mods': seq<Modifier>)
    requires forall id :: Targeting(mods, id) == Targeting(mods', id)
    ensures ModifyControls(cs, mods) == ModifyControls(cs, mods')
  {
    forall i | 0 <= i < |cs| ensures ModifyControl(cs[i], mods) == ModifyControl(cs[i], mods') {
      SameTargetsSameRequirements(cs[i].requirements, mods, mods');
    }
  }

  lemma {:induction false} TargetingAppend(a: seq<Modifier>, b: seq<Modifier>, id: string)
    ensures Targeting(a + b, id) == Targeting(a, id) + Targeting(b, id)
  {
    if b == [] {
      assert a + b == a;
    } else {
      var n := |b| - 1;
      TargetingAppend(a, b[..n], id);
      assert (a + b)[..|a + b| - 1] == a + b[..n];
    }
  }

  /** Any two neighbouring modifiers with different targets may change places. */
  lemma SwapDifferentTargets(cs: seq<Control>, a: seq<Modifier>, m: Modifier, n: Modifier, b: seq<Modifier>)
    requires m.targetId != n.targetId
    ensures ModifyControls(cs, a + [m, n] + b) == ModifyControls(cs, a + [n, m] + b)
  {
    forall id ensures Targeting(a + [m, n] + b, id) == Targeting(a + [n, m] + b, id) {
      TargetingAppend(a + [m, n], b, id);
      TargetingAppend(a + [n, m], b, id);
      TargetingAppend(a, [m, n], id);
      TargetingAppend(a, [n, m], id);
      assert [m, n][..1] == [m] && [n, m][..1] == [n];
      assert [m][..0] == [] && [n][..0] == [];
    }
    SameTargetsSameControls(cs, a + [m, n] + b, a + [n, m] + b);
  }

  function CountAdds(ms: seq<Modifier>): nat {
    if ms == [] then 0 else CountAdds(ms[..|ms| - 1]) + (if ms[|ms| - 1].modType.Add? then 1 else 0)
  }

  predicate AnyRemove(ms: seq<Modifier>) {
    exists m <- ms :: m.modType.Remove?
  }

  lemma {:induction false} ListCounts(p: Progress, ms: seq<Modifier>)
    ensures var q := ApplyList(p, ms);
            |q.out| == |p.out| + CountAdds(ms) && (q.removed <==> p.removed || AnyRemove(ms))
  {
    if ms != [] {
      var n := |ms| - 1;
      ListCounts(p, ms[..n]);
      assert ms == ms[..n] + [ms[n]];
      assert AnyRemove(ms) <==> AnyRemove(ms[..n]) || ms[n].modType.Remove?;
    }
  }

  /** A requirement yields one entry, one more for each Add aimed at it, and one less if any Remove is. */
  lemma EntriesOfRequirement(r: Requirement, mods: seq<Modifier>)
    ensures var ms := Targeting(mods, r.id);
            |Rewritten(r, mods)| == 1 + CountAdds(ms) - (if AnyRemove(ms) then 1 else 0)
  {
    ListCounts(Progress([], r, false), Targeting(mods, r.id));
  }

  lemma {:induction false} RewriteAppend(a: seq<Requirement>, b: seq<Requirement>, mods: seq<Modifier>)
    ensures RewrittenAll(a + b, mods) == RewrittenAll(a, mods) + RewrittenAll(b, mods)
  {
    hide Rewritten, Targeting;
    if b == [] {
      assert a + b == a;
    } else {
      RewriteAppend(a, b[..|b| - 1], mods);
      assert (a + b)[..|a + b| - 1] == a + b[..|b| - 1];
    }
  }

  /** A requirement that no modifier targets passes through unchanged, in its place. */
  lemma UntargetedPassesThrough(a: seq<Requirement>, r: Requirement, b: seq<Requirement>, mods: seq<Modifier>)
    requires Targeting(mods, r.id) == []
    ensures RewrittenAll(a + [r] + b, mods) == RewrittenAll(a, mods) + [r] + RewrittenAll(b, mods)
  {
    RewriteAppend(a + [r], b, mods);
    RewriteAppend(a, [r], mods);
    assert [r][..0] == [];
    assert RewrittenAll([r], mods) == [r];
  }

  /** Exclusions and modifications commute: modifying keeps a control's id. */
  lemma {:induction false} ExcludeModifyCommute(cs: seq<Control>, exclusions: seq<string>, mods: seq<Modifier>)
    ensures Excluded(ModifyControls(cs, mods), exclusions) == ModifyControls(Excluded(cs, exclusions), mods)
  {
    if cs != [] {
      var n := |cs| - 1;
      ExcludeModifyCommute(cs[..n], exclusions, mods);
      assert ModifyControls(cs, mods)[..n] == ModifyControls(cs[..n], mods);
      assert ModifyControls(Excluded(cs[..n], exclusions) + [cs[n]], mods)
          == ModifyControls(Excluded(cs[..n], exclusions), mods) + [ModifyControl(cs[n], mods)];
    }
  }

  // ---- Modifying twice ----

  predicate AddFree(mods: seq<Modifier>) {
    forall m <- mods :: !m.modType.Add?
  }

  predicate Patches(m: Modifier) {
    m.modType.Replace? || m.modType.Override? || m.modType.Modify?
  }

  /** The last value that a list sets, or `d` if it sets none. */
  function LastSet<T(==)>(sets: seq<Option<T>>, d: T): T {
    if sets == [] then d
    else if sets[|sets| - 1].Some? then sets[|sets| - 1].value
    else LastSet(sets[..|sets| - 1], d)
  }

  lemma {:induction false} LastSetTwice<T>(sets: seq<Option<T>>, d: T)
    ensures LastSet(sets, LastSet(sets, d)) == LastSet(sets, d)
  {
    if sets != [] && sets[|sets| - 1].None? {
      LastSetTwice(sets[..|sets| - 1], d);
    }
  }

  function TextSets(ms: seq<Modifier>): seq<Option<string>> {
    seq(|ms|, i requires 0 <= i < |ms| => if Patches(ms[i]) && ms[i].text != "" then Some(ms[i].text) else None)
  }

  function ApplicabilitySets(ms: seq<Modifier>): seq<Option<seq<string>>> {
    seq(|ms|, i requires 0 <= i < |ms| =>
      if Patches(ms[i]) && ms[i].applicability != [] then Some(ms[i].applicability) else None)
  }

  function RecommendationSets(ms: seq<Modifier>): seq<Option<string>> {
    seq(|ms|, i requires 0 <= i < |ms| =>
      if Patches(ms[i]) && ms[i].recommendation != "" then Some(ms[i].recommendation) else None)
  }

  /** A requirement with each field as the last modifier that sets it leaves it. */
  function Patched(r: Requirement, ms: seq<Modifier>): Requirement {
    r.(text := LastSet(TextSets(ms), r.text),
       applicability := LastSet(ApplicabilitySets(ms), r.applicability),
       recommendation := LastSet(RecommendationSets(ms), r.recommendation))
  }

  lemma PatchedStep(r: Requirement, ms: seq<Modifier>, m: Modifier)
    ensures Patched(r, ms + [m]) == if Patches(m) then Replaced(Patched(r, ms), m) else Patched(r, ms)
  {
    var all := ms + [m];
    assert TextSets(all)[..|ms|] == TextSets(ms);
    assert ApplicabilitySets(all)[..|ms|] == ApplicabilitySets(ms);
    assert RecommendationSets(all)[..|ms|] == RecommendationSets(ms);
  }

  /** Without Adds, the fold patches the one requirement or removes it. */
  lemma {:induction false} AddFreeFold(r: Requirement, ms: seq<Modifier>)
    requires AddFree(ms)
    ensures ApplyList(Progress([], r, false), ms) == Progress([], Patched(r, ms), AnyRemove(ms))
  {
    if ms != [] {
      hide Patched, Replaced;
      var n := |ms| - 1;
      AddFreeFold(r, ms[..n]);
      PatchedStep(r, ms[..n], ms[n]);
      assert ms == ms[..n] + [ms[n]];
      assert AnyRemove(ms) <==> AnyRemove(ms[..n]) || ms[n].modType.Remove?;
      assert ms[n] in ms;
    }
  }

  lemma PatchedTwice(r: Requirement, ms: seq<Modifier>)
    ensures Patched(Patched(r, ms), ms) == Patched(r, ms)
  {
    LastSetTwice(TextSets(ms), r.text);
    LastSetTwice(ApplicabilitySets(ms), r.applicability);
    LastSetTwice(RecommendationSets(ms), r.recommendation);
  }

  // ---- The entries in closed form ----

  /** The first Add of a list, or its length. */
  function FirstAdd(ms: seq<Modifier>): (k: nat)
    ensures k <= |ms| && AddFree(ms[..k]) && (k < |ms| ==> ms[k].modType.Add?)
  {
    if ms == [] || ms[0].modType.Add? then 0
    else
      var k := FirstAdd(ms[1..]);
      assert ms[..k + 1] == [ms[0]] + ms[1..][..k];
      k + 1
  }

  /** A requirement patched up to the first Add, then the one that this adds, patched up to the next, and so on. */
  function Chain(base: Requirement, ms: seq<Modifier>): (r: seq<Requirement>)
    ensures r != []
    decreases |ms|
  {
    var k := FirstAdd(ms);
    [Patched(base, ms[..k])] + if k == |ms| then [] else Chain(FromModifier(ms[k]), ms[k + 1..])
  }

  lemma {:induction false} FoldSplits(p: Progress, a: seq<Modifier>, b: seq<Modifier>)
    ensures ApplyList(p, a + b) == ApplyList(ApplyList(p, a), b)
  {
    hide ApplyOne;
    if b == [] {
      assert a + b == a;
    } else {
      FoldSplits(p, a, b[..|b| - 1]);
      assert (a + b)[..|a + b| - 1] == a + b[..|b| - 1];
    }
  }

  /** What is already out only goes in front, and a removal already noted only stays noted. */
  lemma {:induction false} FoldFrames(p: Progress, ms: seq<Modifier>)
    ensures var q := ApplyList(Progress([], p.current, false), ms);
            ApplyList(p, ms) == Progress(p.out + q.out, q.current, p.removed || q.removed)
  {
    if ms != [] {
      hide Replaced, FromModifier;
      FoldFrames(p, ms[..|ms| - 1]);
    }
  }

  /** The fold up to and past the first Add. */
  lemma FoldPastAdd(r: Requirement, a: seq<Modifier>, m: Modifier, b: seq<Modifier>)
    requires AddFree(a) && m.modType.Add?
    ensures var rest := ApplyList(Progress([], FromModifier(m), false), b);
            ApplyList(Progress([], r, false), a + ([m] + b)) ==
            Progress([Patched(r, a)] + rest.out, rest.current, AnyRemove(a) || rest.removed)
  {
    AddFreeFold(r, a);
    var first := Progress([], Patched(r, a), AnyRemove(a));
    var second := Progress([Patched(r, a)], FromModifier(m), AnyRemove(a));
    assert ApplyOne(first, m) == second;
    hide Patched, FromModifier, AnyRemove, ApplyList, ApplyOne;
    FoldSplits(Progress([], r, false), a, [m] + b);
    FoldSplits(first, [m], b);
    FoldOne(first, m);
    FoldFrames(second, b);
  }

  lemma FoldOne(p: Progress, m: Modifier)
    ensures ApplyList(p, [m]) == ApplyOne(p, m)
  {
    assert [m][..0] == [];
  }

  lemma {:induction false} FoldIsChain(r: Requirement, ms: seq<Modifier>)
    ensures var q := ApplyList(Progress([], r, false), ms); q.out + [q.current] == Chain(r, ms)
    decreases |ms|
  {
    hide Patched, FromModifier, FirstAdd, ApplyList;
    var k := FirstAdd(ms);
    if k == |ms| {
      assert ms[..k] == ms;
      AddFreeFold(r, ms);
    } else {
      assert ms == ms[..k] + ([ms[k]] + ms[k + 1..]);
      FoldPastAdd(r, ms[..k], ms[k], ms[k + 1..]);
      FoldIsChain(FromModifier(ms[k]), ms[k + 1..]);
    }
  }

  /**
   What becomes of a requirement, entry by entry. A Remove anywhere among its modifiers takes away the last entry,
   whichever that is by then.
   */
  lemma RewrittenIsChain(r: Requirement, mods: seq<Modifier>)
    ensures var ms := Targeting(mods, r.id);
            var chain := Chain(r, ms);
            Rewritten(r, mods) == if AnyRemove(ms) then chain[..|chain| - 1] else chain
  {
    FoldIsChain(r, Targeting(mods, r.id));
    ListCounts(Progress([], r, false), Targeting(mods, r.id));
  }

  /** So a Remove before an Add takes away what is added, and keeps the requirement that it was aimed at. */
  lemma RemoveThenAddKeepsTheTarget(r: Requirement, remove: Modifier, add: Modifier)
    requires remove.modType.Remove? && add.modType.Add? && remove.targetId == r.id == add.targetId
    ensures Rewritten(r, [remove] + [add]) == [r]
  {
    var ms := [remove] + [add];
    assert ms[..1] == [remove] && [remove][..0] == [];
    assert Targeting([remove], r.id) == [remove];
    assert Targeting(ms, r.id) == ms;
    assert ApplyList(Progress([], r, false), [remove]) == Progress([], r, true);
  }

  // ---- Exactly when modifying twice is modifying once ----

  /** The ids of what the Adds of a list add, in order. */
  function AddedIds(ms: seq<Modifier>): seq<string> {
    if ms == [] then []
    else AddedIds(ms[..|ms| - 1]) + (if ms[|ms| - 1].modType.Add? then [ms[|ms| - 1].id] else [])
  }

  /** Those that stay: a Remove anywhere takes the last. */
  function KeptIds(ms: seq<Modifier>): seq<string> {
    var ids := AddedIds(ms);
    if AnyRemove(ms) && ids != [] then ids[..|ids| - 1] else ids
  }

  /** A requirement with this id leaves nothing: some Remove is aimed at it, and no Add. */
  predicate Gone(mods: seq<Modifier>, id: string) {
    AnyRemove(Targeting(mods, id)) && AddFree(Targeting(mods, id))
  }

  /** What is added for these requirements, and stays, is removed by the same list. */
  predicate Settles(rs: seq<Requirement>, mods: seq<Modifier>) {
    forall i | 0 <= i < |rs| :: forall id <- KeptIds(Targeting(mods, rs[i].id)) :: Gone(mods, id)
  }

  lemma {:induction false} AddsCounted(ms: seq<Modifier>)
    ensures CountAdds(ms) == |AddedIds(ms)| && (AddedIds(ms) == [] <==> AddFree(ms))
  {
    if ms != [] {
      AddsCounted(ms[..|ms| - 1]);
      assert ms == ms[..|ms| - 1] + [ms[|ms| - 1]];
    }
  }

  function Ids(rs: seq<Requirement>): (ids: seq<string>)
    ensures |ids| == |rs| && forall i | 0 <= i < |rs| :: ids[i] == rs[i].id
  {
    seq(|rs|, i requires 0 <= i < |rs| => rs[i].id)
  }

  lemma IdsSnoc(rs: seq<Requirement>, r: Requirement)
    ensures Ids(rs + [r]) == Ids(rs) + [r.id]
  {
  }

  lemma StepIds(p: Progress, m: Modifier)
    ensures var q := ApplyOne(p, m);
            Ids(q.out + [q.current]) == Ids(p.out + [p.current]) + if m.modType.Add? then [m.id] else []
  {
    var q := ApplyOne(p, m);
    IdsSnoc(p.out, p.current);
    IdsSnoc(q.out, q.current);
  }

  lemma {:induction false} FoldIds(p: Progress, ms: seq<Modifier>)
    ensures var q := ApplyList(p, ms); Ids(q.out + [q.current]) == Ids(p.out + [p.current]) + AddedIds(ms)
  {
    if ms != [] {
      hide ApplyOne, Ids;
      FoldIds(p, ms[..|ms| - 1]);
      StepIds(ApplyList(p, ms[..|ms| - 1]), ms[|ms| - 1]);
    }
  }

  /** The entries' ids: the requirement's own, then the added ones that stay. */
  lemma EntriesIds(r: Requirement, mods: seq<Modifier>)
    ensures var ms := Targeting(mods, r.id);
            Ids(Rewritten(r, mods)) == if AnyRemove(ms) && AddFree(ms) then [] else [r.id] + KeptIds(ms)
  {
    var ms := Targeting(mods, r.id);
    var q := ApplyList(Progress([], r, false), ms);
    FoldIds(Progress([], r, false), ms);
    ListCounts(Progress([], r, false), ms);
    AddsCounted(ms);
    IdsSnoc(q.out, q.current);
    hide ApplyList, AddedIds, AnyRemove, AddFree, Targeting;
    assert Ids([] + [r]) == [r.id];
    assert q.removed ==> Ids(q.out) == (Ids(q.out) + [q.current.id])[..|q.out|];
    assert Ids(q.out) + [q.current.id] == [r.id] + AddedIds(ms);
  }

  /** The first entry yields all of them again. */
  lemma FirstEntryAgain(r: Requirement, mods: seq<Modifier>)
    requires Rewritten(r, mods) != []
    ensures Rewritten(Rewritten(r, mods)[0], mods) == Rewritten(r, mods)
  {
    var ms, first := Targeting(mods, r.id), Rewritten(r, mods)[0];
    hide Rewritten, Patched;
    RewrittenIsChain(r, mods);
    assert first == Patched(r, ms[..FirstAdd(ms)]);
    PatchedTwice(r, ms[..FirstAdd(ms)]);
    PatchedId(r, ms[..FirstAdd(ms)]);
    RewrittenIsChain(first, mods);
  }

  lemma PatchedId(r: Requirement, ms: seq<Modifier>)
    ensures Patched(r, ms).id == r.id
  {
  }

  lemma {:induction false} AllGoneIff(rs: seq<Requirement>, mods: seq<Modifier>)
    ensures RewrittenAll(rs, mods) == [] <==> forall i | 0 <= i < |rs| :: Gone(mods, rs[i].id)
  {
    if rs != [] {
      hide Rewritten, Gone;
      AllGoneIff(rs[..|rs| - 1], mods);
      GoneIff(rs[|rs| - 1], mods);
    }
  }

  lemma GoneIff(r: Requirement, mods: seq<Modifier>)
    ensures Rewritten(r, mods) == [] <==> Gone(mods, r.id)
  {
    hide Rewritten, Targeting, AnyRemove, AddFree;
    EntriesIds(r, mods);
  }

  /** So rewriting what became of one requirement only adds to it: what becomes of the entries that were added. */
  lemma EntriesAgain(r: Requirement, mods: seq<Modifier>)
    ensures var once := Rewritten(r, mods);
            RewrittenAll(once, mods) == once + if once == [] then [] else RewrittenAll(once[1..], mods)
  {
    var once := Rewritten(r, mods);
    hide Rewritten;
    if once != [] {
      FirstEntryAgain(r, mods);
      assert once == [once[0]] + once[1..];
      RewriteAppend([once[0]], once[1..], mods);
      assert [once[0]][..0] == [];
    }
  }

  lemma EntriesSettle(r: Requirement, mods: seq<Modifier>)
    ensures var once, twice := Rewritten(r, mods), RewrittenAll(Rewritten(r, mods), mods);
            && (twice == once || |once| < |twice|)
            && (twice == once <==> forall id <- KeptIds(Targeting(mods, r.id)) :: Gone(mods, id))
  {
    hide Rewritten, RewrittenAll, Targeting, KeptIds, Gone;
    var once := Rewritten(r, mods);
    EntriesAgain(r, mods);
    KeptGoneIff(r, mods);
    var more := if once == [] then [] else RewrittenAll(once[1..], mods);
    SameParts(once, once, [], more);
    assert once + [] == once;
  }

  lemma KeptGoneIff(r: Requirement, mods: seq<Modifier>)
    ensures var once := Rewritten(r, mods);
            (once == [] || RewrittenAll(once[1..], mods) == []) <==>
            forall id <- KeptIds(Targeting(mods, r.id)) :: Gone(mods, id)
  {
    var once, ids := Rewritten(r, mods), KeptIds(Targeting(mods, r.id));
    EntriesIds(r, mods);
    AddsCounted(Targeting(mods, r.id));
    hide Rewritten, Targeting, RewrittenAll, Gone, Ids;
    if once != [] {
      AllGoneIff(once[1..], mods);
      SameIds(once, r.id, ids);
      assert forall i | 0 <= i < |ids| :: once[1..][i].id == ids[i];
    }
  }

  lemma SameIds(rs: seq<Requirement>, id: string, ids: seq<string>)
    requires Ids(rs) == [id] + ids
    ensures |rs| == 1 + |ids| && forall i | 0 <= i < |ids| :: rs[i + 1].id == ids[i]
  {
    assert forall i | 0 <= i < |ids| :: Ids(rs)[i + 1] == ids[i];
  }

  /** For every list: rewriting twice is rewriting once if and only if what is added and stays is removed again. */
  lemma {:induction false} RewriteTwiceIff(rs: seq<Requirement>, mods: seq<Modifier>)
    ensures var once, twice := RewrittenAll(rs, mods), RewrittenAll(RewrittenAll(rs, mods), mods);
            (twice == once || |once| < |twice|) && (twice == once <==> Settles(rs, mods))
  {
    if rs != [] {
      hide Rewritten, Targeting, KeptIds, Gone;
      var n := |rs| - 1;
      RewriteTwiceIff(rs[..n], mods);
      EntriesSettle(rs[n], mods);
      RewriteAppend(RewrittenAll(rs[..n], mods), Rewritten(rs[n], mods), mods);
      SettlesMore(rs, mods);
      SameParts(RewrittenAll(rs[..n], mods), RewrittenAll(RewrittenAll(rs[..n], mods), mods),
                Rewritten(rs[n], mods), RewrittenAll(Rewritten(rs[n], mods), mods));
    }
  }

  lemma SettlesMore(rs: seq<Requirement>, mods: seq<Modifier>)
    requires rs != []
    ensures Settles(rs, mods) <==>
            Settles(rs[..|rs| - 1], mods)
            && forall id <- KeptIds(Targeting(mods, rs[|rs| - 1].id)) :: Gone(mods, id)
  {
    hide KeptIds, Gone, Targeting;
  }

  lemma SameParts<T>(a: seq<T>, a': seq<T>, b: seq<T>, b': seq<T>)
    ensures (a' == a || |a| < |a'|) && (b' == b || |b| < |b'|) ==>
              (a' + b' == a + b || |a + b| < |a' + b'|) && (a' + b' == a + b <==> a' == a && b' == b)
  {
  }

  /** And so for all the controls. */
  lemma ModifyTwiceIff(cs: seq<Control>, mods: seq<Modifier>)
    ensures ModifyControls(ModifyControls(cs, mods), mods) == ModifyControls(cs, mods) <==>
            forall i | 0 <= i < |cs| :: Settles(cs[i].requirements, mods)
  {
    hide Settles, RewrittenAll;
    var once, twice := ModifyControls(cs, mods), ModifyControls(ModifyControls(cs, mods), mods);
    forall i | 0 <= i < |cs| ensures twice[i] == once[i] <==> Settles(cs[i].requirements, mods) {
      RewriteTwiceIff(cs[i].requirements, mods);
    }
    if twice == once {
      forall i | 0 <= i < |cs| ensures Settles(cs[i].requirements, mods) {
        assert twice[i] == once[i];
      }
    }
  }

  /** In particular if no Add is aimed at a requirement that is there. */
  lemma ModifyTwice(cs: seq<Control>, mods: seq<Modifier>)
    requires forall i, j | 0 <= i < |cs| && 0 <= j < |cs[i].requirements| ::
               AddFree(Targeting(mods, cs[i].requirements[j].id))
    ensures ModifyControls(ModifyControls(cs, mods), mods) == ModifyControls(cs, mods)
  {
    hide Targeting, AddFree;
    forall i, j | 0 <= i < |cs| && 0 <= j < |cs[i].requirements|
      ensures KeptIds(Targeting(mods, cs[i].requirements[j].id)) == []
    {
      AddsCounted(Targeting(mods, cs[i].requirements[j].id));
    }
    ModifyTwiceIff(cs, mods);
  }
}
