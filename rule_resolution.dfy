/** Which approval rules apply to a proposal: the amount-range filter, the
    grouping by step order and the four-tier specificity cascade of
    `CreateProjectAsync`. */
module RuleResolution {
  import opened Wrappers
  import opened Seqs
  import opened Domain

  /** C#'s lifted `==` between a nullable and a plain value: false on null. */
  function LiftedEquals(a: Option<int>, b: int): bool {
    a.Some? && a.value == b
  }

  /** C#'s lifted `<=` between a plain and a nullable value: false on null. */
  function LiftedAtMost(a: int, b: Option<int>): bool {
    b.Some? && a <= b.value
  }

  /** The local `InRange` helper: `value >= min && (max == 0 || value <= max)`
      evaluated with nullable `max`. */
  function InRange(value: int, min: int, max: Option<int>): (r: bool)
    ensures max.None? ==> !r
    ensures max == Some(0) ==> (r <==> min <= value)
    ensures max.Some? && max.value != 0 ==> (r <==> min <= value <= max.value)
  {
    value >= min && (LiftedEquals(max, 0) || LiftedAtMost(value, max))
  }

  /** Whether a rule's amount range admits `amount`. */
  predicate RuleInRange(amount: int, r: ApprovalRule) {
    InRange(amount, r.minAmount, r.maxAmount)
  }

  /** The filter `r => InRange(amount, r.MinAmount, r.MaxAmount)`. */
  function AdmitsAmount(amount: int): ApprovalRule -> bool {
    (r: ApprovalRule) => RuleInRange(amount, r)
  }

  /** The rules whose amount range admits `amount`, in catalogue order. */
  function InRangeRules(rules: seq<ApprovalRule>, amount: int): seq<ApprovalRule> {
    Where(rules, AdmitsAmount(amount))
  }

  /** The distinct step orders of `rs`, in the order each first appears:
      the keys `GroupBy(r => r.StepOrder)` enumerates. */
  function StepOrderKeys(rs: seq<ApprovalRule>): (keys: seq<int>)
    ensures |keys| <= |rs|
    decreases |rs|
  {
    if rs == [] then []
    else
      var keys := StepOrderKeys(rs[..|rs| - 1]);
      var o := rs[|rs| - 1].stepOrder;
      if o in keys then keys else keys + [o]
  }

  /** `keys` lists step orders in order of first appearance in `rs`: for
      two keys listed in that order, every rule carrying the later one is
      preceded by a rule carrying the earlier one. */
  ghost predicate FirstAppearanceOrder(keys: seq<int>, rs: seq<ApprovalRule>) {
    forall i, j, a :: 0 <= i < j < |keys| && 0 <= a < |rs| && rs[a].stepOrder == keys[j] ==>
      PrecededBy(rs, a, keys[i])
  }

  /** Some rule before position `a` of `rs` carries step order `key`. */
  ghost predicate PrecededBy(rs: seq<ApprovalRule>, a: int, key: int) {
    exists b :: 0 <= b < a && b < |rs| && rs[b].stepOrder == key
  }

  /** The group keys are exactly the step orders present, without
      repetition, in first-appearance order. */
  lemma {:induction false} StepOrderKeysSpec(rs: seq<ApprovalRule>)
    ensures Distinct(StepOrderKeys(rs))
    ensures forall o :: o in StepOrderKeys(rs) <==> exists a :: 0 <= a < |rs| && rs[a].stepOrder == o
    ensures FirstAppearanceOrder(StepOrderKeys(rs), rs)
    decreases |rs|
  {
    if rs != [] {
      var init := rs[..|rs| - 1];
      var n := |rs| - 1;
      var o := rs[n].stepOrder;
      StepOrderKeysSpec(init);
      var prev := StepOrderKeys(init);
      var keys := StepOrderKeys(rs);
      assert forall a :: 0 <= a < n ==> rs[a] == init[a];
      forall x
        ensures x in keys <==> exists a :: 0 <= a < |rs| && rs[a].stepOrder == x
      {
        if exists a :: 0 <= a < |rs| && rs[a].stepOrder == x {
          var a :| 0 <= a < |rs| && rs[a].stepOrder == x;
          if a < n {
            assert init[a].stepOrder == x;
          }
        }
      }
      forall i, j, a | 0 <= i < j < |keys| && 0 <= a < |rs| && rs[a].stepOrder == keys[j]
        ensures PrecededBy(rs, a, keys[i])
      {
        assert keys[i] == prev[i];
        if j < |prev| {
          assert keys[j] == prev[j];
          if a < n {
            assert init[a].stepOrder == prev[j];
            var b :| 0 <= b < a && init[b].stepOrder == prev[i];
            assert rs[b] == init[b];
          } else {
            var a' :| 0 <= a' < n && init[a'].stepOrder == prev[j];
            var b :| 0 <= b < a' && init[b].stepOrder == prev[i];
            assert rs[b] == init[b];
          }
        } else {
          // keys[j] is the new key `o`, carried by no earlier rule
          assert keys[j] == o && o !in prev;
          assert prev[i] in prev;
          var b :| 0 <= b < n && init[b].stepOrder == prev[i];
          assert rs[b] == init[b];
        }
      }
    }
  }

  /** The rules of `rs` whose step order is `key`, in their original order:
      one group of `GroupBy`. */
  function GroupOf(rs: seq<ApprovalRule>, key: int): seq<ApprovalRule> {
    Where(rs, (r: ApprovalRule) => r.stepOrder == key)
  }

  datatype RuleGroup = RuleGroup(key: int, members: seq<ApprovalRule>)

  /** `GroupBy(r => r.StepOrder)`: one group per distinct step order, in
      first-appearance order, each holding its rules in original order. */
  function GroupByStepOrder(rs: seq<ApprovalRule>): (groups: seq<RuleGroup>)
    ensures |groups| == |StepOrderKeys(rs)|
    ensures forall i :: 0 <= i < |groups| ==>
      groups[i].key == StepOrderKeys(rs)[i] && groups[i].members == GroupOf(rs, groups[i].key)
    ensures forall i :: 0 <= i < |groups| ==>
      groups[i].members != [] && forall r :: r in groups[i].members ==> r in rs && r.stepOrder == groups[i].key
    ensures forall r :: r in rs ==> exists i :: 0 <= i < |groups| && r in groups[i].members
  {
    var keys := StepOrderKeys(rs);
    StepOrderKeysSpec(rs);
    var groups := seq(|keys|, i requires 0 <= i < |keys| => RuleGroup(keys[i], GroupOf(rs, keys[i])));
    assert forall i :: 0 <= i < |groups| ==> groups[i].members != [] by {
      forall i | 0 <= i < |groups| ensures groups[i].members != [] {
        assert keys[i] in keys;
        var a :| 0 <= a < |rs| && rs[a].stepOrder == keys[i];
        assert rs[a] in groups[i].members;
      }
    }
    assert forall r :: r in rs ==> exists i :: 0 <= i < |groups| && r in groups[i].members by {
      forall r | r in rs ensures exists i :: 0 <= i < |groups| && r in groups[i].members {
        var a :| 0 <= a < |rs| && rs[a] == r;
        assert r.stepOrder in keys;
        var i :| 0 <= i < |keys| && keys[i] == r.stepOrder;
        assert r in groups[i].members;
      }
    }
    groups
  }

  /** Specificity of a rule for a proposal's area and type: 1 for area and
      type, 2 for area with any type, 3 for type with any area, 4 for the
      full wildcard, 0 when the rule does not fit the proposal at all. */
  function Specificity(r: ApprovalRule, area: int, projectType: int): (tier: nat)
    ensures tier <= 4
    ensures tier > 0 <==>
      (r.area.None? || r.area == Some(area)) && (r.projectType.None? || r.projectType == Some(projectType))
    ensures tier == 4 <==> r.area.None? && r.projectType.None?
  {
    if r.area == Some(area) && r.projectType == Some(projectType) then 1
    else if r.area == Some(area) && r.projectType.None? then 2
    else if r.projectType == Some(projectType) && r.area.None? then 3
    else if r.area.None? && r.projectType.None? then 4
    else 0
  }

  /** `x` is the rule a group should yield: it fits the proposal, no fitting
      rule of the group is more specific, and no rule before it in the group
      is as specific. */
  ghost predicate IsBestMatch(group: seq<ApprovalRule>, x: ApprovalRule, area: int, projectType: int) {
    Specificity(x, area, projectType) > 0 &&
    (forall j :: 0 <= j < |group| && Specificity(group[j], area, projectType) > 0 ==>
       Specificity(x, area, projectType) <= Specificity(group[j], area, projectType)) &&
    exists i :: 0 <= i < |group| && group[i] == x &&
      forall j :: 0 <= j < i ==> Specificity(group[j], area, projectType) != Specificity(x, area, projectType)
  }

  /** The `FirstOrDefault` cascade: exact area and type, then area with any
      type, then type with any area, then the full wildcard. */
  function SelectRule(group: seq<ApprovalRule>, area: int, projectType: int): (r: Option<ApprovalRule>)
    ensures r.None? <==> forall j :: 0 <= j < |group| ==> Specificity(group[j], area, projectType) == 0
    ensures r.Some? ==> IsBestMatch(group, r.value, area, projectType)
  {
    var exactly := (r: ApprovalRule) => LiftedEquals(r.area, area) && LiftedEquals(r.projectType, projectType);
    var areaOnly := (r: ApprovalRule) => LiftedEquals(r.area, area) && r.projectType.None?;
    var typeOnly := (r: ApprovalRule) => LiftedEquals(r.projectType, projectType) && r.area.None?;
    var wildcard := (r: ApprovalRule) => r.area.None? && r.projectType.None?;
    FirstOfTier(group, exactly, 1, area, projectType);
    var exact := First(group, exactly);
    if exact.Some? then exact
    else
      FirstOfTier(group, areaOnly, 2, area, projectType);
      var byArea := First(group, areaOnly);
      if byArea.Some? then byArea
      else
        FirstOfTier(group, typeOnly, 3, area, projectType);
        var byType := First(group, typeOnly);
        if byType.Some? then byType
        else
          FirstOfTier(group, wildcard, 4, area, projectType);
          First(group, wildcard)
  }

  /** One stage of the cascade: when no rule of the group is more specific
      than tier `t`, the first rule of tier `t` is the best match, and when
      there is none, no rule of the group has tier `t`. */
  lemma FirstOfTier(group: seq<ApprovalRule>, p: ApprovalRule -> bool, t: nat, area: int, projectType: int)
    requires 1 <= t
    requires forall r :: p(r) <==> Specificity(r, area, projectType) == t
    requires forall j :: 0 <= j < |group| ==>
      Specificity(group[j], area, projectType) == 0 || Specificity(group[j], area, projectType) >= t
    ensures First(group, p).Some? ==> IsBestMatch(group, First(group, p).value, area, projectType)
    ensures First(group, p).None? ==> forall j :: 0 <= j < |group| ==> Specificity(group[j], area, projectType) != t
  {
  }

  /** The conditions of `IsBestMatch` single out one rule: the selection is
      determined by specificity and list order alone. */
  lemma BestMatchIsUnique(group: seq<ApprovalRule>, x: ApprovalRule, y: ApprovalRule, area: int, projectType: int)
    requires IsBestMatch(group, x, area, projectType)
    requires IsBestMatch(group, y, area, projectType)
    ensures x == y
  {
    var i :| 0 <= i < |group| && group[i] == x &&
      forall j :: 0 <= j < i ==> Specificity(group[j], area, projectType) != Specificity(x, area, projectType);
    var k :| 0 <= k < |group| && group[k] == y &&
      forall j :: 0 <= j < k ==> Specificity(group[j], area, projectType) != Specificity(y, area, projectType);
    assert Specificity(x, area, projectType) == Specificity(y, area, projectType);
  }
}
