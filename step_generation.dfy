/** The step list `CreateProjectAsync` builds: one pending step per group
    of in-range rules whose cascade selects a rule, in group order. */
module StepGeneration {
  import opened Wrappers
  import opened Seqs
  import opened Domain
  import opened RuleResolution
  import opened ApproverResolution

  /** The step built from a selected rule. */
  function NewStep(proposalId: Guid, rule: ApprovalRule, users: seq<User>): (step: ApprovalStep)
    ensures step.proposalId == proposalId && step.status == StatusPending
    ensures step.approverRoleId == rule.approverRoleId && step.stepOrder == rule.stepOrder
    ensures step.approverUserId.Some? <==> exists i :: SoleHolder(users, rule.approverRoleId, i)
    ensures step.approverUserId.Some? ==>
      exists i :: SoleHolder(users, rule.approverRoleId, i) && users[i].id == step.approverUserId.value
    ensures step.observations == if step.approverUserId.Some? then AssignedObservation else UnassignedObservation
  {
    var a := ResolveApprover(users, rule.approverRoleId);
    ApprovalStep(proposalId, rule.approverRoleId, a.approverUserId, rule.stepOrder, StatusPending, a.observations)
  }

  /** The test "the group with this key selects a rule". */
  function HasSelection(rs: seq<ApprovalRule>, area: int, projectType: int): int -> bool {
    (key: int) => SelectRule(GroupOf(rs, key), area, projectType).Some?
  }

  /** The steps produced for the groups with the given keys, in key order. */
  function StepsFor(proposalId: Guid, rs: seq<ApprovalRule>, keys: seq<int>, area: int, projectType: int,
                    users: seq<User>): (steps: seq<ApprovalStep>)
    ensures |steps| <= |keys|
    decreases |keys|
  {
    if keys == [] then []
    else
      var prior := StepsFor(proposalId, rs, keys[..|keys| - 1], area, projectType, users);
      match SelectRule(GroupOf(rs, keys[|keys| - 1]), area, projectType)
      case None => prior
      case Some(rule) => prior + [NewStep(proposalId, rule, users)]
  }

  /** The steps generated for a proposal with the given amount, area and
      type, from the rule catalogue and the user roster. */
  function Steps(proposalId: Guid, amount: int, area: int, projectType: int,
                 rules: seq<ApprovalRule>, users: seq<User>): (steps: seq<ApprovalStep>)
    ensures |steps| <= |InRangeRules(rules, amount)|
  {
    var rs := InRangeRules(rules, amount);
    StepsFor(proposalId, rs, StepOrderKeys(rs), area, projectType, users)
  }

  /** The step orders of a step list. */
  function Orders(steps: seq<ApprovalStep>): (orders: seq<int>)
    ensures |orders| == |steps|
    ensures forall i :: 0 <= i < |steps| ==> orders[i] == steps[i].stepOrder
  {
    seq(|steps|, i requires 0 <= i < |steps| => steps[i].stepOrder)
  }

  /** The loop of `CreateProjectAsync`: for each group, select a rule by
      the cascade, skip the group when none fits, otherwise count the
      holders of the rule's role and add a pending step. */
  method GenerateSteps(proposalId: Guid, amount: int, area: int, projectType: int,
                       rules: seq<ApprovalRule>, users: seq<User>) returns (steps: seq<ApprovalStep>)
    ensures steps == Steps(proposalId, amount, area, projectType, rules, users)
  {
    var rs := InRangeRules(rules, amount);
    var groups := GroupByStepOrder(rs);
    ghost var keys := StepOrderKeys(rs);
    steps := [];
    for g := 0 to |groups|
      invariant steps == StepsFor(proposalId, rs, keys[..g], area, projectType, users)
    {
      NextGroup(proposalId, rs, keys, g, area, projectType, users);
      assert groups[g].members == GroupOf(rs, keys[g]);
      var selectedRule := SelectRule(groups[g].members, area, projectType);
      if selectedRule.Some? {
        var step := BuildStep(proposalId, selectedRule.value, users);
        steps := steps + [step];
      }
    }
    assert keys[..|groups|] == keys;
  }

  /** The body of one loop turn once a rule is selected: count the holders
      of its role and build the pending step accordingly. */
  method BuildStep(proposalId: Guid, rule: ApprovalRule, users: seq<User>) returns (step: ApprovalStep)
    ensures step == NewStep(proposalId, rule, users)
  {
    var approvers := Approvers(users, rule.approverRoleId);
    if |approvers| == 1 {
      var singleUser := approvers[0];
      step := ApprovalStep(proposalId, rule.approverRoleId, Some(singleUser.id), rule.stepOrder,
                           StatusPending, AssignedObservation);
    } else if |approvers| > 1 {
      step := ApprovalStep(proposalId, rule.approverRoleId, None, rule.stepOrder,
                           StatusPending, UnassignedObservation);
    } else {
      step := ApprovalStep(proposalId, rule.approverRoleId, None, rule.stepOrder,
                           StatusPending, UnassignedObservation);
    }
    NewStepByCount(proposalId, rule, users);
  }

  /** One more group adds the step its selection yields, if any. */
  lemma NextGroup(proposalId: Guid, rs: seq<ApprovalRule>, keys: seq<int>, g: nat, area: int, projectType: int,
                  users: seq<User>)
    requires g < |keys|
    ensures StepsFor(proposalId, rs, keys[..g + 1], area, projectType, users) ==
      StepsFor(proposalId, rs, keys[..g], area, projectType, users) +
      match SelectRule(GroupOf(rs, keys[g]), area, projectType)
      case None => []
      case Some(rule) => [NewStep(proposalId, rule, users)]
  {
    assert keys[..g + 1][..g] == keys[..g];
  }

  /** The step for a selected rule, by the number of holders of its role. */
  lemma NewStepByCount(proposalId: Guid, rule: ApprovalRule, users: seq<User>)
    ensures var approvers := Approvers(users, rule.approverRoleId);
      NewStep(proposalId, rule, users) ==
        if |approvers| == 1 then
          ApprovalStep(proposalId, rule.approverRoleId, Some(approvers[0].id), rule.stepOrder, StatusPending, AssignedObservation)
        else
          ApprovalStep(proposalId, rule.approverRoleId, None, rule.stepOrder, StatusPending, UnassignedObservation)
  {
  }

  /** The step orders are the keys whose group selects a rule, in key order. */
  lemma {:induction false} StepsForOrders(proposalId: Guid, rs: seq<ApprovalRule>, keys: seq<int>, area: int,
                                          projectType: int, users: seq<User>)
    ensures Orders(StepsFor(proposalId, rs, keys, area, projectType, users)) == Where(keys, HasSelection(rs, area, projectType))
    decreases |keys|
  {
    if keys != [] {
      var init := keys[..|keys| - 1];
      var key := keys[|keys| - 1];
      StepsForOrders(proposalId, rs, init, area, projectType, users);
      var prior := StepsFor(proposalId, rs, init, area, projectType, users);
      var sel := SelectRule(GroupOf(rs, key), area, projectType);
      if sel.Some? {
        assert sel.value in GroupOf(rs, key);
        OrdersAppend(prior, NewStep(proposalId, sel.value, users));
      }
    }
  }

  /** Appending a step appends its order. */
  lemma OrdersAppend(steps: seq<ApprovalStep>, step: ApprovalStep)
    ensures Orders(steps + [step]) == Orders(steps) + [step.stepOrder]
  {
    assert forall i :: 0 <= i < |steps| ==> (steps + [step])[i] == steps[i];
  }

  /** Each step is the one built from the rule its own step order's group
      selects. */
  lemma {:induction false} StepsForContents(proposalId: Guid, rs: seq<ApprovalRule>, keys: seq<int>, area: int,
                                            projectType: int, users: seq<User>)
    ensures forall s :: s in StepsFor(proposalId, rs, keys, area, projectType, users) ==>
      SelectRule(GroupOf(rs, s.stepOrder), area, projectType).Some? &&
      s == NewStep(proposalId, SelectRule(GroupOf(rs, s.stepOrder), area, projectType).value, users)
    decreases |keys|
  {
    if keys != [] {
      var init := keys[..|keys| - 1];
      var key := keys[|keys| - 1];
      StepsForContents(proposalId, rs, init, area, projectType, users);
      var sel := SelectRule(GroupOf(rs, key), area, projectType);
      if sel.Some? {
        assert sel.value in GroupOf(rs, key);
      }
    }
  }

  /** Filtering the keys keeps them in first-appearance order. */
  lemma {:induction false} FirstAppearanceOrderWhere(keys: seq<int>, rs: seq<ApprovalRule>, p: int -> bool)
    requires FirstAppearanceOrder(keys, rs)
    ensures FirstAppearanceOrder(Where(keys, p), rs)
    decreases |keys|
  {
    if keys != [] {
      var n := |keys| - 1;
      var init := keys[..n];
      assert forall i :: 0 <= i < n ==> init[i] == keys[i];
      assert FirstAppearanceOrder(init, rs);
      FirstAppearanceOrderWhere(init, rs, p);
      var prev := Where(init, p);
      if p(keys[n]) {
        assert keys == init + [keys[n]];
        AppendKeepsFirstAppearanceOrder(prev, init, keys[n], rs);
        assert Where(keys, p) == prev + [keys[n]];
      }
    }
  }

  /** Appending a key to a sub-list of `init` keeps first-appearance order
      when `init` followed by that key is in first-appearance order. */
  lemma AppendKeepsFirstAppearanceOrder(prev: seq<int>, init: seq<int>, key: int, rs: seq<ApprovalRule>)
    requires FirstAppearanceOrder(prev, rs)
    requires forall x :: x in prev ==> x in init
    requires FirstAppearanceOrder(init + [key], rs)
    ensures FirstAppearanceOrder(prev + [key], rs)
  {
    var w := prev + [key];
    var keys := init + [key];
    forall i, j, a | 0 <= i < j < |w| && 0 <= a < |rs| && rs[a].stepOrder == w[j]
      ensures PrecededBy(rs, a, w[i])
    {
      if j < |prev| {
        assert w[i] == prev[i] && w[j] == prev[j];
      } else {
        assert w[i] == prev[i] && prev[i] in prev;
        var i' :| 0 <= i' < |init| && init[i'] == w[i];
        assert keys[i'] == w[i] && keys[|init|] == w[j];
      }
    }
  }

  /** At most one step per step order. */
  lemma AtMostOneStepPerOrder(proposalId: Guid, amount: int, area: int, projectType: int,
                              rules: seq<ApprovalRule>, users: seq<User>)
    ensures var steps := Steps(proposalId, amount, area, projectType, rules, users);
      forall i, j :: 0 <= i < j < |steps| ==> steps[i].stepOrder != steps[j].stepOrder
  {
    var rs := InRangeRules(rules, amount);
    var keys := StepOrderKeys(rs);
    var steps := Steps(proposalId, amount, area, projectType, rules, users);
    StepOrderKeysSpec(rs);
    StepsForOrders(proposalId, rs, keys, area, projectType, users);
    WhereDistinct(keys, HasSelection(rs, area, projectType));
    assert Distinct(Orders(steps));
  }

  /** Steps come out in the order in which their step orders first appear
      among the in-range rules, not sorted by step order. */
  lemma StepsInFirstAppearanceOrder(proposalId: Guid, amount: int, area: int, projectType: int,
                                    rules: seq<ApprovalRule>, users: seq<User>)
    ensures FirstAppearanceOrder(Orders(Steps(proposalId, amount, area, projectType, rules, users)),
                                 InRangeRules(rules, amount))
  {
    var rs := InRangeRules(rules, amount);
    var keys := StepOrderKeys(rs);
    StepOrderKeysSpec(rs);
    StepsForOrders(proposalId, rs, keys, area, projectType, users);
    FirstAppearanceOrderWhere(keys, rs, HasSelection(rs, area, projectType));
  }

  /** A step with order `k` exists exactly when some in-range rule with that
      order fits the proposal's area and type at one of the four tiers; a
      group with no fitting rule yields no step and no error. */
  lemma StepExactlyForFittingOrders(proposalId: Guid, amount: int, area: int, projectType: int,
                                    rules: seq<ApprovalRule>, users: seq<User>, k: int)
    ensures k in Orders(Steps(proposalId, amount, area, projectType, rules, users)) <==>
      exists r :: r in rules && RuleInRange(amount, r) && r.stepOrder == k && Specificity(r, area, projectType) > 0
  {
    var rs := InRangeRules(rules, amount);
    var keys := StepOrderKeys(rs);
    StepOrderKeysSpec(rs);
    StepsForOrders(proposalId, rs, keys, area, projectType, users);
    var group := GroupOf(rs, k);
    if exists r :: r in rules && RuleInRange(amount, r) && r.stepOrder == k && Specificity(r, area, projectType) > 0 {
      var r :| r in rules && RuleInRange(amount, r) && r.stepOrder == k && Specificity(r, area, projectType) > 0;
      assert r in rs && r in group;
      var a :| 0 <= a < |rs| && rs[a] == r;
      assert k in keys;
      var j :| 0 <= j < |group| && group[j] == r;
    }
    if k in Where(keys, HasSelection(rs, area, projectType)) {
      var j :| 0 <= j < |group| && Specificity(group[j], area, projectType) != 0;
      assert group[j] in group;
    }
  }

  /** Every generated step is pending, belongs to the proposal, and carries
      the role of the best-matching rule of its group, with the approver
      and observation the role's holder count dictates. */
  lemma StepFields(proposalId: Guid, amount: int, area: int, projectType: int,
                   rules: seq<ApprovalRule>, users: seq<User>)
    ensures forall s :: s in Steps(proposalId, amount, area, projectType, rules, users) ==>
      s.status == StatusPending && s.proposalId == proposalId &&
      exists rule :: IsBestMatch(GroupOf(InRangeRules(rules, amount), s.stepOrder), rule, area, projectType) &&
        rule.stepOrder == s.stepOrder && s.approverRoleId == rule.approverRoleId &&
        s.approverUserId == ResolveApprover(users, rule.approverRoleId).approverUserId &&
        s.observations == ResolveApprover(users, rule.approverRoleId).observations
  {
    var rs := InRangeRules(rules, amount);
    StepsForContents(proposalId, rs, StepOrderKeys(rs), area, projectType, users);
  }

  /** Two wildcard rules with step orders 2 and then 1 yield steps in that
      same order: grouping does not sort. A rule with a null maximum is
      left out even though its minimum is met. */
  lemma GroupsKeepCatalogueOrder()
    ensures var rules := [ApprovalRule(0, Some(0), None, None, 7, 2),
                          ApprovalRule(0, None, None, None, 8, 3),
                          ApprovalRule(0, Some(500), None, None, 9, 1)];
      Orders(Steps(1, 100, 5, 6, rules, [])) == [2, 1]
  {
    var rules := [ApprovalRule(0, Some(0), None, None, 7, 2),
                  ApprovalRule(0, None, None, None, 8, 3),
                  ApprovalRule(0, Some(500), None, None, 9, 1)];
    CatalogueGrouping(rules);
    var rs := [rules[0], rules[2]];
    StepsForOrders(1, rs, [2, 1], 5, 6, []);
    var selects := HasSelection(rs, 5, 6);
    assert selects(2) by {
      assert GroupOf(rs, 2)[0] == rules[0];
    }
    assert selects(1) by {
      assert GroupOf(rs, 1)[0] == rules[2];
    }
    assert [2, 1][..1] == [2];
    assert [2, 1][..1][..0] == [];
  }

  /** The null-maximum rule is out of range, and the other two keep their
      catalogue order as keys. */
  lemma CatalogueGrouping(rules: seq<ApprovalRule>)
    requires rules == [ApprovalRule(0, Some(0), None, None, 7, 2),
                       ApprovalRule(0, None, None, None, 8, 3),
                       ApprovalRule(0, Some(500), None, None, 9, 1)]
    ensures InRangeRules(rules, 100) == [rules[0], rules[2]]
    ensures StepOrderKeys([rules[0], rules[2]]) == [2, 1]
  {
    var inRange := AdmitsAmount(100);
    assert !inRange(rules[1]);
    assert Where(rules[..1], inRange) == [rules[0]] by {
      assert rules[..1][..0] == [];
    }
    assert Where(rules[..2], inRange) == [rules[0]] by {
      assert rules[..2][..1] == rules[..1];
    }
    assert rules[..2] == rules[..|rules| - 1];
    var rs := [rules[0], rules[2]];
    assert rs[..1][..0] == [];
    assert StepOrderKeys(rs[..1]) == [2];
  }

  /** In one step order, an area rule with any type beats the full
      wildcard listed after it, and the single holder of its role becomes
      the approver. */
  lemma AreaRuleBeatsWildcard()
    ensures var rules := [ApprovalRule(0, Some(0), Some(5), None, 7, 1),
                          ApprovalRule(0, Some(0), None, None, 8, 1)];
      Steps(1, 100, 5, 6, rules, [User(42, 7), User(43, 8), User(44, 8)]) ==
        [ApprovalStep(1, 7, Some(42), 1, StatusPending, AssignedObservation)]
  {
    var rules := [ApprovalRule(0, Some(0), Some(5), None, 7, 1),
                  ApprovalRule(0, Some(0), None, None, 8, 1)];
    var users := [User(42, 7), User(43, 8), User(44, 8)];
    ExampleGrouping(rules);
    ExampleSelection(rules);
    ExampleApprover(users);
    NextGroup(1, rules, [1], 0, 5, 6, users);
    assert [1][..1] == [1] && [1][..0] == [];
  }

  /** Both rules admit 100 and share step order 1, so they form one group. */
  lemma ExampleGrouping(rules: seq<ApprovalRule>)
    requires rules == [ApprovalRule(0, Some(0), Some(5), None, 7, 1), ApprovalRule(0, Some(0), None, None, 8, 1)]
    ensures InRangeRules(rules, 100) == rules && StepOrderKeys(rules) == [1] && GroupOf(rules, 1) == rules
  {
    assert rules[..1][..0] == [];
    assert rules[..1] == rules[..|rules| - 1];
    assert Where(rules[..1], AdmitsAmount(100)) == [rules[0]];
    assert StepOrderKeys(rules[..1]) == [1];
    WhereKeepsAll(rules, (r: ApprovalRule) => r.stepOrder == 1);
  }

  /** The cascade picks the area rule over the wildcard. */
  lemma ExampleSelection(rules: seq<ApprovalRule>)
    requires rules == [ApprovalRule(0, Some(0), Some(5), None, 7, 1), ApprovalRule(0, Some(0), None, None, 8, 1)]
    ensures SelectRule(rules, 5, 6) == Some(rules[0])
  {
    var sel := SelectRule(rules, 5, 6);
    assert Specificity(rules[0], 5, 6) == 2 && Specificity(rules[1], 5, 6) == 4;
    BestMatchIsUnique(rules, sel.value, rules[0], 5, 6);
  }

  /** Role 7 has one holder, user 42; role 8 has two. */
  lemma ExampleApprover(users: seq<User>)
    requires users == [User(42, 7), User(43, 8), User(44, 8)]
    ensures ResolveApprover(users, 7) == Assignment(Some(42), AssignedObservation)
  {
    assert SoleHolder(users, 7, 0);
  }
}
