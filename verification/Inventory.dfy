/**
 The inventory: of the evidence that passes a filter, the latest row for each target and policy, rolled up by target.
 Where rows tie, the database may take any of them; what is proved holds whichever it takes.
 */
module Inventory {
  import opened Options

  datatype Evidence = Evidence(targetId: string, targetType: Option<string>, targetEnv: Option<string>,
                               policyId: string, result: string, collectedAt: int)

  datatype Item = Item(targetId: string, targetType: string, environment: string, policyCount: nat, passCount: nat,
                       failCount: nat, latest: int)

  datatype Filter = Filter(policyId: string, programId: string, targetType: string, environment: string)

  function Coalesce(s: Option<string>): string {
    if s.None? then "" else s.value
  }

  // ---- The WHERE clause ----

  /** A condition; its placeholder is numbered from 1. */
  datatype Condition = HasTarget | PolicyIs(arg: nat) | InProgram(arg: nat) | TypeIs(arg: nat) | EnvironmentIs(arg: nat)

  predicate Bound(c: Condition, args: seq<string>) {
    c.HasTarget? || 1 <= c.arg <= |args|
  }

  /** `programs` gives the policies of each program that is not deleted. */
  predicate Holds(c: Condition, args: seq<string>, programs: map<string, set<string>>, e: Evidence)
    requires Bound(c, args)
  {
    match c
    case HasTarget => e.targetId != ""
    case PolicyIs(n) => e.policyId == args[n - 1]
    case InProgram(n) => args[n - 1] in programs && e.policyId in programs[args[n - 1]]
    case TypeIs(n) => Coalesce(e.targetType) == args[n - 1]
    case EnvironmentIs(n) => Coalesce(e.targetEnv) == args[n - 1]
  }

  ghost predicate AllBound(conditions: seq<Condition>, args: seq<string>) {
    forall i | 0 <= i < |conditions| :: Bound(conditions[i], args)
  }

  ghost predicate AllHold(conditions: seq<Condition>, args: seq<string>, programs: map<string, set<string>>,
                          e: Evidence)
    requires AllBound(conditions, args)
  {
    forall i | 0 <= i < |conditions| :: Holds(conditions[i], args, programs, e)
  }

  /** What the filter asks for; an empty field asks for nothing. */
  predicate Matches(f: Filter, programs: map<string, set<string>>, e: Evidence) {
    && e.targetId != ""
    && (f.policyId != "" ==> e.policyId == f.policyId)
    && (f.programId != "" ==> f.programId in programs && e.policyId in programs[f.programId])
    && (f.targetType != "" ==> e.targetType == Some(f.targetType))
    && (f.environment != "" ==> e.targetEnv == Some(f.environment))
  }

  lemma OneMoreCondition(conditions: seq<Condition>, args: seq<string>, c: Condition, value: string,
                         programs: map<string, set<string>>, e: Evidence)
    requires AllBound(conditions, args) && !c.HasTarget? && c.arg == |args| + 1
    ensures AllBound(conditions + [c], args + [value])
    ensures AllHold(conditions + [c], args + [value], programs, e) <==>
            AllHold(conditions, args, programs, e) && Holds(c, args + [value], programs, e)
  {
    var w, a := conditions + [c], args + [value];
    assert forall i | 0 <= i < |conditions| ::
        w[i] == conditions[i] && (Holds(w[i], a, programs, e) <==> Holds(conditions[i], args, programs, e));
    assert w[|conditions|] == c;
  }

  /** The conditions so far are filter `f`. */
  ghost predicate Is(conditions: seq<Condition>, args: seq<string>, f: Filter) {
    && AllBound(conditions, args)
    && forall programs, e :: AllHold(conditions, args, programs, e) <==> Matches(f, programs, e)
  }

  method AddCondition(conditions: seq<Condition>, args: seq<string>, c: Condition, value: string,
                      ghost f: Filter, ghost f': Filter)
    returns (w: seq<Condition>, a: seq<string>)
    requires Is(conditions, args, f) && !c.HasTarget? && c.arg == |args| + 1
    requires forall programs, e ::
               Matches(f', programs, e) <==> Matches(f, programs, e) && Holds(c, args + [value], programs, e)
    ensures Is(w, a, f') && |a| == |args| + 1
  {
    hide Matches, Holds;
    w, a := conditions + [c], args + [value];
    forall programs, e
      ensures AllBound(w, a) && (AllHold(w, a, programs, e) <==> Matches(f', programs, e))
    {
      OneMoreCondition(conditions, args, c, value, programs, e);
    }
    OneMoreCondition(conditions, args, c, value, map[], Evidence("", None, None, "", "", 0));
  }

  /** The conditions and their arguments, built side by side; together they are the filter. */
  method BuildWhere(f: Filter) returns (conditions: seq<Condition>, args: seq<string>)
    ensures Is(conditions, args, f)
  {
    hide Is;
    conditions, args := [HasTarget], [];
    var n := 1;
    ghost var g := Filter("", "", "", "");
    NoFilter();
    if f.policyId != "" {
      conditions, args := AddCondition(conditions, args, PolicyIs(n), f.policyId, g, g.(policyId := f.policyId));
      n := n + 1;
    }
    g := g.(policyId := f.policyId);
    if f.programId != "" {
      conditions, args := AddCondition(conditions, args, InProgram(n), f.programId, g, g.(programId := f.programId));
      n := n + 1;
    }
    g := g.(programId := f.programId);
    if f.targetType != "" {
      conditions, args := AddCondition(conditions, args, TypeIs(n), f.targetType, g, g.(targetType := f.targetType));
      n := n + 1;
    }
    g := g.(targetType := f.targetType);
    if f.environment != "" {
      conditions, args :=
        AddCondition(conditions, args, EnvironmentIs(n), f.environment, g, g.(environment := f.environment));
    }
  }

  lemma NoFilter()
    ensures Is([HasTarget], [], Filter("", "", "", ""))
  {
    forall programs, e
      ensures AllHold([HasTarget], [], programs, e) <==> Matches(Filter("", "", "", ""), programs, e)
    {
      assert [HasTarget][0] == HasTarget;
    }
  }

  // ---- The latest row for each target and policy ----

  predicate SamePair(r: Evidence, q: Evidence) {
    r.targetId == q.targetId && r.policyId == q.policyId
  }

  predicate DistinctPairs(rows: seq<Evidence>) {
    forall i, j | 0 <= i < j < |rows| :: !SamePair(rows[i], rows[j])
  }

  function Pairs(rows: seq<Evidence>): set<(string, string)> {
    set r <- rows :: (r.targetId, r.policyId)
  }

  /** Some row stands for `q`: same pair, and not earlier. */
  ghost predicate Covered(ranked: seq<Evidence>, q: Evidence) {
    exists i | 0 <= i < |ranked| :: SamePair(ranked[i], q) && q.collectedAt <= ranked[i].collectedAt
  }

  /** DISTINCT ON (target_id, policy_id) ... ORDER BY collected_at DESC: one row of each pair, none later. */
  ghost predicate IsRanking(ranked: seq<Evidence>, rows: seq<Evidence>) {
    && (forall r <- ranked :: r in rows)
    && DistinctPairs(ranked)
    && (forall q {:trigger Covered(ranked, q)} | q in rows :: Covered(ranked, q))
  }

  /** There is one, for any rows. */
  lemma {:induction false} RankingExists(rows: seq<Evidence>)
    ensures exists ranked :: IsRanking(ranked, rows)
  {
    if rows == [] {
      assert IsRanking([], rows);
    } else {
      var n := |rows| - 1;
      RankingExists(rows[..n]);
      var before: seq<Evidence> :| IsRanking(before, rows[..n]);
      if i: nat :| i < |before| && SamePair(before[i], rows[n]) {
        var ranked := if before[i].collectedAt >= rows[n].collectedAt then before else before[i := rows[n]];
        ReplacedRanks(before, i, rows, ranked);
      } else {
        AppendedRanks(before, rows, before + [rows[n]]);
      }
    }
  }

  lemma ReplacedRanks(before: seq<Evidence>, i: nat, rows: seq<Evidence>, ranked: seq<Evidence>)
    requires rows != [] && IsRanking(before, rows[..|rows| - 1])
    requires i < |before| && SamePair(before[i], rows[|rows| - 1])
    requires ranked ==
             if before[i].collectedAt >= rows[|rows| - 1].collectedAt then before else before[i := rows[|rows| - 1]]
    ensures IsRanking(ranked, rows)
  {
    var last := rows[|rows| - 1];
    assert rows == rows[..|rows| - 1] + [last];
    forall q | q in rows ensures Covered(ranked, q) {
      if q == last {
        assert SamePair(ranked[i], last) && last.collectedAt <= ranked[i].collectedAt;
      } else {
        assert Covered(before, q);
        var k: nat :| k < |before| && SamePair(before[k], q) && q.collectedAt <= before[k].collectedAt;
        assert SamePair(ranked[k], q) && q.collectedAt <= ranked[k].collectedAt;
      }
    }
    forall r | r in ranked ensures r in rows {
      assert r in before || r == last;
    }
  }

  lemma AppendedRanks(before: seq<Evidence>, rows: seq<Evidence>, ranked: seq<Evidence>)
    requires rows != [] && IsRanking(before, rows[..|rows| - 1])
    requires forall i | 0 <= i < |before| :: !SamePair(before[i], rows[|rows| - 1])
    requires ranked == before + [rows[|rows| - 1]]
    ensures IsRanking(ranked, rows)
  {
    var last := rows[|rows| - 1];
    assert rows == rows[..|rows| - 1] + [last];
    forall q | q in rows ensures Covered(ranked, q) {
      if q == last {
        assert SamePair(ranked[|before|], last);
      } else {
        assert Covered(before, q);
        var k: nat :| k < |before| && SamePair(before[k], q) && q.collectedAt <= before[k].collectedAt;
        assert ranked[k] == before[k];
      }
    }
  }

  // ---- The rollup ----

  function OfTarget(rows: seq<Evidence>, target: string): seq<Evidence> {
    if rows == [] then []
    else OfTarget(rows[..|rows| - 1], target) + (if rows[|rows| - 1].targetId == target then [rows[|rows| - 1]] else [])
  }

  /** COUNT(*) FILTER (WHERE eval_result = ...). */
  function CountResult(rows: seq<Evidence>, result: string): nat {
    if rows == [] then 0
    else CountResult(rows[..|rows| - 1], result) + (if rows[|rows| - 1].result == result then 1 else 0)
  }

  /** The item of a target: type and environment are those of some latest row. */
  ghost predicate IsItem(item: Item, ranked: seq<Evidence>) {
    var mine := OfTarget(ranked, item.targetId);
    && item.policyCount == |mine| > 0
    && item.passCount == CountResult(mine, "Passed") && item.failCount == CountResult(mine, "Failed")
    && (forall r <- mine :: r.collectedAt <= item.latest)
    && (exists r <- mine :: r.collectedAt == item.latest && Coalesce(r.targetType) == item.targetType)
    && (exists r <- mine :: r.collectedAt == item.latest && Coalesce(r.targetEnv) == item.environment)
  }

  /** GROUP BY target_id: one item for each target there is. */
  ghost predicate IsInventory(items: seq<Item>, ranked: seq<Evidence>) {
    && (forall i | 0 <= i < |items| :: IsItem(items[i], ranked))
    && (forall i, j | 0 <= i < j < |items| :: items[i].targetId != items[j].targetId)
    && (forall r <- ranked :: exists item <- items :: item.targetId == r.targetId)
  }

  ghost predicate IsNewest(rows: seq<Evidence>, r: Evidence) {
    r in rows && forall q <- rows :: q.collectedAt <= r.collectedAt
  }

  lemma {:induction false} NewestExists(rows: seq<Evidence>)
    requires rows != []
    ensures exists r :: IsNewest(rows, r)
  {
    var n := |rows| - 1;
    if n == 0 {
      assert IsNewest(rows, rows[0]);
    } else {
      NewestExists(rows[..n]);
      var before :| IsNewest(rows[..n], before);
      assert rows == rows[..n] + [rows[n]];
      assert IsNewest(rows, if before.collectedAt > rows[n].collectedAt then before else rows[n]);
    }
  }

  lemma ItemExists(ranked: seq<Evidence>, t: string)
    requires OfTarget(ranked, t) != []
    ensures exists item :: IsItem(item, ranked) && item.targetId == t
  {
    var mine := OfTarget(ranked, t);
    NewestExists(mine);
    var r :| IsNewest(mine, r);
    PassAndFail(mine);
    var item := Item(t, Coalesce(r.targetType), Coalesce(r.targetEnv), |mine|, CountResult(mine, "Passed"),
                     CountResult(mine, "Failed"), r.collectedAt);
    assert IsItem(item, ranked);
  }

  /** Items for the targets of the first `k` ranked rows. */
  ghost predicate AreItems(items: seq<Item>, ranked: seq<Evidence>, k: nat)
    requires k <= |ranked|
  {
    && (forall i | 0 <= i < |items| :: IsItem(items[i], ranked))
    && (forall i, j | 0 <= i < j < |items| :: items[i].targetId != items[j].targetId)
    && (forall j | 0 <= j < k :: exists item <- items :: item.targetId == ranked[j].targetId)
  }

  lemma {:induction false} ItemsExist(ranked: seq<Evidence>, k: nat)
    requires k <= |ranked|
    ensures exists items :: AreItems(items, ranked, k)
  {
    hide IsItem;
    if k == 0 {
      assert AreItems([], ranked, k);
    } else {
      ItemsExist(ranked, k - 1);
      var items: seq<Item> :| AreItems(items, ranked, k - 1);
      if forall item <- items :: item.targetId != ranked[k - 1].targetId {
        OfTargetAre(ranked, ranked[k - 1].targetId, ranked[k - 1]);
        ItemExists(ranked, ranked[k - 1].targetId);
        var item :| IsItem(item, ranked) && item.targetId == ranked[k - 1].targetId;
        assert item in items + [item];
        assert AreItems(items + [item], ranked, k);
      } else {
        assert AreItems(items, ranked, k);
      }
    }
  }

  /** Whatever the database ranks, there is an inventory of it. */
  lemma InventoryExists(ranked: seq<Evidence>)
    ensures exists items :: IsInventory(items, ranked)
  {
    hide IsItem;
    ItemsExist(ranked, |ranked|);
    var items :| AreItems(items, ranked, |ranked|);
    assert IsInventory(items, ranked);
  }

  // ---- Properties ----

  lemma {:induction false} PassAndFail(rows: seq<Evidence>)
    ensures CountResult(rows, "Passed") + CountResult(rows, "Failed") <= |rows|
  {
    if rows != [] {
      PassAndFail(rows[..|rows| - 1]);
    }
  }

  /** Passes and failures are among the policies. */
  lemma PassAndFailWithinPolicies(item: Item, ranked: seq<Evidence>)
    requires IsItem(item, ranked)
    ensures item.passCount + item.failCount <= item.policyCount
  {
    PassAndFail(OfTarget(ranked, item.targetId));
  }

  lemma {:induction false} OfTargetAre(rows: seq<Evidence>, target: string, r: Evidence)
    ensures r in OfTarget(rows, target) <==> r in rows && r.targetId == target
  {
    if rows != [] {
      OfTargetAre(rows[..|rows| - 1], target, r);
      assert rows == rows[..|rows| - 1] + [rows[|rows| - 1]];
    }
  }

  /** The latest of the latest rows is the latest of all the filtered rows of the target. */
  lemma LatestOfAll(item: Item, ranked: seq<Evidence>, rows: seq<Evidence>)
    requires IsRanking(ranked, rows) && IsItem(item, ranked)
    ensures forall q <- rows :: q.targetId == item.targetId ==> q.collectedAt <= item.latest
    ensures exists q <- rows :: q.targetId == item.targetId && q.collectedAt == item.latest
  {
    var mine := OfTarget(ranked, item.targetId);
    forall q | q in rows && q.targetId == item.targetId ensures q.collectedAt <= item.latest {
      assert Covered(ranked, q);
      var i: nat :| i < |ranked| && SamePair(ranked[i], q) && q.collectedAt <= ranked[i].collectedAt;
      OfTargetAre(ranked, item.targetId, ranked[i]);
    }
    var r :| r in mine && r.collectedAt == item.latest;
    OfTargetAre(ranked, item.targetId, r);
  }

  function Total(items: seq<Item>): nat {
    if items == [] then 0 else Total(items[..|items| - 1]) + items[|items| - 1].policyCount
  }

  /** The rows whose target is one of these. */
  function OfTargets(rows: seq<Evidence>, targets: set<string>): seq<Evidence> {
    if rows == [] then []
    else
      OfTargets(rows[..|rows| - 1], targets)
      + (if rows[|rows| - 1].targetId in targets then [rows[|rows| - 1]] else [])
  }

  lemma {:induction false} OneMoreTarget(rows: seq<Evidence>, targets: set<string>, t: string)
    requires t !in targets
    ensures |OfTargets(rows, targets + {t})| == |OfTargets(rows, targets)| + |OfTarget(rows, t)|
  {
    if rows != [] {
      OneMoreTarget(rows[..|rows| - 1], targets, t);
    }
  }

  lemma {:induction false} NoTargets(rows: seq<Evidence>)
    ensures OfTargets(rows, {}) == []
  {
    if rows != [] {
      NoTargets(rows[..|rows| - 1]);
    }
  }

  lemma {:induction false} AllTargets(rows: seq<Evidence>, targets: set<string>)
    requires forall i | 0 <= i < |rows| :: rows[i].targetId in targets
    ensures OfTargets(rows, targets) == rows
  {
    if rows != [] {
      AllTargets(rows[..|rows| - 1], targets);
    }
  }

  function Targets(items: seq<Item>): set<string> {
    set item <- items :: item.targetId
  }

  lemma {:induction false} TotalIsOfTargets(items: seq<Item>, ranked: seq<Evidence>)
    requires forall i | 0 <= i < |items| :: IsItem(items[i], ranked)
    requires forall i, j | 0 <= i < j < |items| :: items[i].targetId != items[j].targetId
    ensures Total(items) == |OfTargets(ranked, Targets(items))|
  {
    hide IsItem;
    if items == [] {
      assert Targets(items) == {};
      NoTargets(ranked);
    } else {
      var n := |items| - 1;
      TotalIsOfTargets(items[..n], ranked);
      assert items == items[..n] + [items[n]];
      assert Targets(items) == Targets(items[..n]) + {items[n].targetId};
      OneMoreTarget(ranked, Targets(items[..n]), items[n].targetId);
      assert items[n].policyCount == |OfTarget(ranked, items[n].targetId)| by { ItemCounts(items[n], ranked); }
    }
  }

  lemma ItemCounts(item: Item, ranked: seq<Evidence>)
    ensures var mine := OfTarget(ranked, item.targetId);
            IsItem(item, ranked) ==>
              && item.policyCount == |mine| && item.passCount == CountResult(mine, "Passed")
              && item.failCount == CountResult(mine, "Failed")
  {
  }

  lemma {:induction false} DistinctPairsCounted(ranked: seq<Evidence>)
    requires DistinctPairs(ranked)
    ensures |ranked| == |Pairs(ranked)|
  {
    if ranked != [] {
      var n := |ranked| - 1;
      DistinctPairsCounted(ranked[..n]);
      assert ranked == ranked[..n] + [ranked[n]];
      assert Pairs(ranked) == Pairs(ranked[..n]) + {(ranked[n].targetId, ranked[n].policyId)};
    }
  }

  lemma SamePairs(ranked: seq<Evidence>, rows: seq<Evidence>)
    requires IsRanking(ranked, rows)
    ensures Pairs(ranked) == Pairs(rows)
  {
    forall p | p in Pairs(rows) ensures p in Pairs(ranked) {
      var q :| q in rows && (q.targetId, q.policyId) == p;
      assert Covered(ranked, q);
      var i: nat :| i < |ranked| && SamePair(ranked[i], q);
      assert ranked[i] in ranked;
    }
    forall p | p in Pairs(ranked) ensures p in Pairs(rows) {
      var r :| r in ranked && (r.targetId, r.policyId) == p;
      assert r in rows;
    }
  }

  /** Conservation: the policy counts of all items add up to the filtered pairs of target and policy. */
  lemma PoliciesAddUpToPairs(items: seq<Item>, ranked: seq<Evidence>, rows: seq<Evidence>)
    requires IsRanking(ranked, rows) && IsInventory(items, ranked)
    ensures Total(items) == |Pairs(rows)|
  {
    TotalIsOfTargets(items, ranked);
    forall i | 0 <= i < |ranked| ensures ranked[i].targetId in Targets(items) {
      assert ranked[i] in ranked;
    }
    AllTargets(ranked, Targets(items));
    DistinctPairsCounted(ranked);
    SamePairs(ranked, rows);
  }

  // ---- Ties ----

  /** One of the rows that a ranking may take for its pair. */
  ghost predicate IsLatest(rows: seq<Evidence>, r: Evidence) {
    r in rows && forall q <- rows :: SamePair(q, r) ==> q.collectedAt <= r.collectedAt
  }

  /** Where latest rows of a pair of this target tie, either all of them have the result or none has. */
  ghost predicate TiesAgree(rows: seq<Evidence>, t: string, result: string) {
    forall r, q | IsLatest(rows, r) && IsLatest(rows, q) && SamePair(r, q) && r.targetId == t ::
      r.result == result <==> q.result == result
  }

  function PairsWith(rows: seq<Evidence>, result: string): set<(string, string)> {
    set r <- rows | r.result == result :: (r.targetId, r.policyId)
  }

  lemma {:induction false} ResultsCounted(rows: seq<Evidence>, result: string)
    requires DistinctPairs(rows)
    ensures CountResult(rows, result) == |PairsWith(rows, result)|
  {
    if rows != [] {
      hide PairsWith;
      var n := |rows| - 1;
      ResultsCounted(rows[..n], result);
      OneMorePair(rows, result);
    } else {
      assert PairsWith(rows, result) == {};
    }
  }

  lemma OneMorePair(rows: seq<Evidence>, result: string)
    requires rows != [] && DistinctPairs(rows)
    ensures var last := rows[|rows| - 1];
            var before := PairsWith(rows[..|rows| - 1], result);
            && (last.targetId, last.policyId) !in before
            && PairsWith(rows, result) ==
               before + (if last.result == result then {(last.targetId, last.policyId)} else {})
  {
    var n := |rows| - 1;
    assert rows == rows[..n] + [rows[n]];
  }

  lemma {:induction false} OfTargetDistinct(rows: seq<Evidence>, t: string)
    requires DistinctPairs(rows)
    ensures DistinctPairs(OfTarget(rows, t))
  {
    if rows != [] {
      var n := |rows| - 1;
      OfTargetDistinct(rows[..n], t);
      forall r | r in OfTarget(rows[..n], t) ensures !SamePair(r, rows[n]) {
        OfTargetAre(rows[..n], t, r);
      }
    }
  }

  /** The ranked row of a pair, whichever ranking it is, has the pair's latest time. */
  lemma RankedAlike(a: seq<Evidence>, b: seq<Evidence>, rows: seq<Evidence>, r: Evidence)
    requires IsRanking(a, rows) && IsRanking(b, rows) && r in a
    ensures exists q <- b :: SamePair(q, r) && q.collectedAt == r.collectedAt
  {
    assert Covered(b, r);
    var i: nat :| i < |b| && SamePair(b[i], r) && r.collectedAt <= b[i].collectedAt;
    var q := b[i];
    assert q in rows && Covered(a, q);
    var j: nat :| j < |a| && SamePair(a[j], q) && q.collectedAt <= a[j].collectedAt;
    var k: nat :| k < |a| && a[k] == r;
    assert SamePair(a[j], a[k]) && j == k;
  }

  lemma RankedIsLatest(a: seq<Evidence>, rows: seq<Evidence>, r: Evidence)
    requires IsRanking(a, rows) && r in a
    ensures IsLatest(rows, r)
  {
    forall q | q in rows && SamePair(q, r) ensures q.collectedAt <= r.collectedAt {
      assert Covered(a, q);
      var i: nat :| i < |a| && SamePair(a[i], q) && q.collectedAt <= a[i].collectedAt;
      var k: nat :| k < |a| && a[k] == r;
      assert SamePair(a[i], a[k]) && i == k;
    }
  }

  lemma TargetPairsWithin(a: seq<Evidence>, b: seq<Evidence>, rows: seq<Evidence>, t: string, result: string)
    requires IsRanking(a, rows) && IsRanking(b, rows)
    ensures Pairs(OfTarget(a, t)) <= Pairs(OfTarget(b, t))
    ensures TiesAgree(rows, t, result) ==> PairsWith(OfTarget(a, t), result) <= PairsWith(OfTarget(b, t), result)
  {
    forall r | r in OfTarget(a, t)
      ensures exists q <- OfTarget(b, t) ::
                SamePair(q, r) && (TiesAgree(rows, t, result) && r.result == result ==> q.result == result)
    {
      OfTargetAre(a, t, r);
      RankedAlike(a, b, rows, r);
      var q :| q in b && SamePair(q, r) && q.collectedAt == r.collectedAt;
      OfTargetAre(b, t, q);
      RankedIsLatest(a, rows, r);
      RankedIsLatest(b, rows, q);
      hide IsRanking, IsLatest;
    }
    hide IsRanking, TiesAgree, OfTarget;
  }

  /**
   Which of several tied rows the database takes changes no policy count and no latest time, and no count of passes
   or failures either where tied rows agree on it.
   */
  lemma TiesDoNotMatter(a: seq<Evidence>, b: seq<Evidence>, rows: seq<Evidence>, x: Item, y: Item)
    requires IsRanking(a, rows) && IsRanking(b, rows) && IsItem(x, a) && IsItem(y, b) && x.targetId == y.targetId
    ensures (x.policyCount, x.latest) == (y.policyCount, y.latest)
    ensures TiesAgree(rows, x.targetId, "Passed") ==> x.passCount == y.passCount
    ensures TiesAgree(rows, x.targetId, "Failed") ==> x.failCount == y.failCount
  {
    SameCount(a, b, rows, x.targetId, "Passed");
    SameCount(a, b, rows, x.targetId, "Failed");
    LatestOfAll(x, a, rows);
    LatestOfAll(y, b, rows);
    ItemCounts(x, a);
    ItemCounts(y, b);
    hide IsRanking, IsItem, OfTarget, TiesAgree, CountResult;
    var q :| q in rows && q.targetId == x.targetId && q.collectedAt == x.latest;
    var r :| r in rows && r.targetId == y.targetId && r.collectedAt == y.latest;
  }

  lemma SameCount(a: seq<Evidence>, b: seq<Evidence>, rows: seq<Evidence>, t: string, result: string)
    requires IsRanking(a, rows) && IsRanking(b, rows)
    ensures |OfTarget(a, t)| == |OfTarget(b, t)|
    ensures TiesAgree(rows, t, result) ==> CountResult(OfTarget(a, t), result) == CountResult(OfTarget(b, t), result)
  {
    TargetPairsWithin(a, b, rows, t, result);
    TargetPairsWithin(b, a, rows, t, result);
    OfTargetDistinct(a, t);
    OfTargetDistinct(b, t);
    hide IsRanking, TiesAgree, OfTarget, Pairs, PairsWith, CountResult;
    assert Pairs(OfTarget(a, t)) == Pairs(OfTarget(b, t));
    assert TiesAgree(rows, t, result) ==> PairsWith(OfTarget(a, t), result) == PairsWith(OfTarget(b, t), result);
    DistinctPairsCounted(OfTarget(a, t));
    DistinctPairsCounted(OfTarget(b, t));
    ResultsCounted(OfTarget(a, t), result);
    ResultsCounted(OfTarget(b, t), result);
  }

  lemma ReplacedByLatest(a: seq<Evidence>, i: nat, rows: seq<Evidence>, r: Evidence)
    requires IsRanking(a, rows) && i < |a| && SamePair(a[i], r) && IsLatest(rows, r)
    ensures IsRanking(a[i := r], rows)
  {
    var b := a[i := r];
    forall q | q in rows ensures Covered(b, q) {
      assert Covered(a, q);
      var k: nat :| k < |a| && SamePair(a[k], q) && q.collectedAt <= a[k].collectedAt;
      assert SamePair(b[k], q) && q.collectedAt <= b[k].collectedAt;
    }
    forall q | q in b ensures q in rows {
      assert q == r || q in a;
    }
  }

  lemma OfTargetSnoc(rows: seq<Evidence>, t: string, result: string)
    requires rows != []
    ensures var last := rows[|rows| - 1];
            CountResult(OfTarget(rows, t), result) ==
            CountResult(OfTarget(rows[..|rows| - 1], t), result)
            + (if last.targetId == t && last.result == result then 1 else 0)
  {
    var before, last := OfTarget(rows[..|rows| - 1], t), rows[|rows| - 1];
    if last.targetId == t {
      assert (before + [last])[..|before|] == before;
    } else {
      assert before + [] == before;
    }
  }

  lemma {:induction false} CountConcat(a: seq<Evidence>, b: seq<Evidence>, t: string, result: string)
    ensures CountResult(OfTarget(a + b, t), result) ==
            CountResult(OfTarget(a, t), result) + CountResult(OfTarget(b, t), result)
  {
    if b == [] {
      assert a + b == a;
    } else {
      hide OfTarget, CountResult;
      var n := |b| - 1;
      CountConcat(a, b[..n], t, result);
      assert (a + b)[..|a + b| - 1] == a + b[..n];
      OfTargetSnoc(a + b, t, result);
      OfTargetSnoc(b, t, result);
    }
  }

  lemma CountOne(r: Evidence, t: string, result: string)
    ensures CountResult(OfTarget([r], t), result) == if r.targetId == t && r.result == result then 1 else 0
  {
    OfTargetSnoc([r], t, result);
    assert [r][..0] == [];
  }

  lemma ReplacedCount(a: seq<Evidence>, i: nat, r: Evidence, t: string, result: string)
    requires i < |a|
    ensures CountResult(OfTarget(a[i := r], t), result) ==
            CountResult(OfTarget(a[..i], t), result) + CountResult(OfTarget(a[i + 1..], t), result)
            + (if r.targetId == t && r.result == result then 1 else 0)
  {
    hide OfTarget, CountResult;
    CountConcat(a[..i], [r], t, result);
    CountConcat(a[..i] + [r], a[i + 1..], t, result);
    CountOne(r, t, result);
    assert a[i := r] == a[..i] + [r] + a[i + 1..];
  }

  /** Every ranking has as many rows of the target with the result. */
  ghost predicate CountsAgree(rows: seq<Evidence>, t: string, result: string) {
    forall a, b | IsRanking(a, rows) && IsRanking(b, rows) ::
      CountResult(OfTarget(a, t), result) == CountResult(OfTarget(b, t), result)
  }

  lemma PairIsRanked(a: seq<Evidence>, rows: seq<Evidence>, r: Evidence)
    requires IsRanking(a, rows) && IsLatest(rows, r)
    ensures exists i | 0 <= i < |a| :: SamePair(a[i], r)
  {
    assert Covered(a, r);
  }

  lemma CountsDiffer(rows: seq<Evidence>, r: Evidence, q: Evidence, result: string)
    requires IsLatest(rows, r) && IsLatest(rows, q) && SamePair(r, q) && r.result == result != q.result
    ensures !CountsAgree(rows, r.targetId, result)
  {
    hide IsRanking, IsLatest, OfTarget, CountResult;
    RankingExists(rows);
    var some :| IsRanking(some, rows);
    PairIsRanked(some, rows, r);
    var i: nat :| i < |some| && SamePair(some[i], r);
    ReplacedByLatest(some, i, rows, r);
    ReplacedByLatest(some, i, rows, q);
    ReplacedCount(some, i, r, r.targetId, result);
    ReplacedCount(some, i, q, r.targetId, result);
  }

  /** And it changes no count of passes, say, exactly if tied latest rows agree on whether they passed. */
  lemma CountsAgreeIff(rows: seq<Evidence>, t: string, result: string)
    ensures CountsAgree(rows, t, result) <==> TiesAgree(rows, t, result)
  {
    hide IsRanking, OfTarget, CountResult, IsLatest;
    forall a, b | IsRanking(a, rows) && IsRanking(b, rows)
      ensures TiesAgree(rows, t, result) ==> CountResult(OfTarget(a, t), result) == CountResult(OfTarget(b, t), result)
    {
      SameCount(a, b, rows, t, result);
    }
    if r, q :| IsLatest(rows, r) && IsLatest(rows, q) && SamePair(r, q) && r.targetId == t
               && r.result == result != q.result {
      CountsDiffer(rows, r, q, result);
    }
  }
}
