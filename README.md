# Project-proposal approval: step generation, listing and editing

A Dafny model of the proposal service of the project-approval API
(`PorjectProposalService`). When a proposal is created, the service checks
the request, stores the proposal as pending, and derives its approval steps
from the configured approval rules:

1. keep the rules whose amount range admits the proposal's amount;
2. group them by step order;
3. pick one rule per group by specificity (area and type, then area only,
   then type only, then the full wildcard);
4. resolve the approver from the users holding that rule's role.

The service also lists proposals through validated filters that are
combined with AND. A proposal in status 4 may have its title, description
and duration edited; the service does not check who edits.

Modules, leaf first:

- `Wrappers`: `Option` and `Result`.
- `Seqs`: the LINQ operators used (`Where`, `FirstOrDefault`) and counting facts.
- `Text`: `IsNullOrWhiteSpace` and case-insensitive containment.
- `Domain`: rules, users, steps, proposals, and the status ids 1 and 4.
- `RuleResolution`: `InRange`, grouping, and the specificity cascade.
- `ApproverResolution`: the approver policy.
- `StepGeneration`: the step loop, its specification function and its properties.
- `ProposalService`: creation, listing and editing.

Store queries are inputs to the model:

- the set of titles already in use;
- the known area and type ids (creation) and status ids (listing);
- the user roster: the user checks at creation and in the listing
  (applicant and approving user) look ids up in it, and approver
  resolution counts the holders of a role in it;
- the rule catalogue;
- the stored proposals with their steps.

## Model

| member | source | states |
|---|---|---|
| Seqs.Where | Application/UseCase/PorjectProposalService.cs:90-91 | LINQ `Where`: the result keeps exactly the elements that pass the test and is no longer than the input. The in-range filter (:90-91), the role filter (:106-108) and the listing stages (:267-280) are all this operator. |
| Seqs.WhereAppend | Application/UseCase/PorjectProposalService.cs:90-91 | Filtering a concatenation is the concatenation of the filtered parts. With `WhereSingle` this fixes the result completely: input order is kept, and each element is kept as often as it occurs, which `approvers.Count` relies on. |
| Seqs.WhereSingle | Application/UseCase/PorjectProposalService.cs:90-91 | A one-element sequence keeps its element iff the element passes the test. |
| Seqs.WhereSnoc | Application/UseCase/PorjectProposalService.cs:90-91 | Adding an element at the end adds it to the result iff it passes the test. |
| RuleResolution.Specificity | Application/UseCase/PorjectProposalService.cs:98-102 | The tier a rule reaches, 1 to 4. It is positive iff each of the rule's area and type is null or equal to the proposal's. It is 4 iff both are null (the full wildcard). |
| RuleResolution.InRange | Application/UseCase/PorjectProposalService.cs:85-86 | A rule with a null maximum is never in range. A maximum of 0 means no upper bound, so the rule is in range iff amount >= min. Any other maximum: in range iff min <= amount <= max. |
| RuleResolution.StepOrderKeysSpec | Application/UseCase/PorjectProposalService.cs:90-92 | The group keys are distinct. They are exactly the step orders of the in-range rules. They are listed in first-appearance order: every rule carrying a later key is preceded by a rule carrying an earlier key. |
| RuleResolution.GroupByStepOrder | Application/UseCase/PorjectProposalService.cs:90-92 | One group per key, in key order. Every group is non-empty, and its members come from the input and carry the group's key, in input order. Every input rule lands in some group. |
| Seqs.First | Application/UseCase/PorjectProposalService.cs:98-102 | `FirstOrDefault`: None iff no element satisfies the test. Otherwise the result is an element that satisfies it, and every element before it fails it. |
| RuleResolution.SelectRule | Application/UseCase/PorjectProposalService.cs:98-102 | None iff no rule of the group fits any of the four tiers. Otherwise the chosen rule is the best match: no fitting rule is more specific, and it is the earliest rule of its tier. |
| RuleResolution.FirstOfTier | Application/UseCase/PorjectProposalService.cs:98-102 | Each stage of the cascade, reached only when no rule of a more specific tier exists, yields the best match, or shows that no rule has its tier. |
| RuleResolution.BestMatchIsUnique | Application/UseCase/PorjectProposalService.cs:98-102 | At most one rule satisfies the best-match conditions, so specificity and list order fully decide the selection. |
| Seqs.WhereOne | Application/UseCase/PorjectProposalService.cs:106-112 | When the role filter keeps one user, exactly one roster position holds the role, and it is the user kept. |
| Seqs.WhereTwo | Application/UseCase/PorjectProposalService.cs:124-136 | When the role filter keeps two or more users, two different roster positions hold the role. |
| ApproverResolution.Approvers | Application/UseCase/PorjectProposalService.cs:106-108 | The users kept are exactly the roster users whose role is the rule's approver role. There are never more of them than roster users. |
| ApproverResolution.OneApproverIsSoleHolder | Application/UseCase/PorjectProposalService.cs:110-112 | A count of 1 means a sole holder of the role, and `approvers.First()` is that user. |
| ApproverResolution.ResolveApprover | Application/UseCase/PorjectProposalService.cs:106-150 | A user is assigned iff exactly one roster entry holds the role, and it is that entry's id. Otherwise there are zero holders or at least two. Observations are "Pendiente" when assigned and "Pendiente (sin usuario asignado)" when not. |
| StepGeneration.NewStep | Application/UseCase/PorjectProposalService.cs:113-149 | A new step has the proposal's id, status 1, and the selected rule's role and step order. It names an approver iff that role has a sole holder, and then it is that holder's id. Its observation is "Pendiente" when it names an approver and "Pendiente (sin usuario asignado)" otherwise. |
| StepGeneration.Steps | Application/UseCase/PorjectProposalService.cs:88-151 | The step list of a proposal. There is never more than one step per in-range rule. The lemmas below give its orders, its order of steps and its fields. |
| StepGeneration.GenerateSteps | Application/UseCase/PorjectProposalService.cs:88-151 | The loop over the groups returns exactly `Steps(...)`, the step list the properties below are proved about. |
| StepGeneration.BuildStep | Application/UseCase/PorjectProposalService.cs:106-150 | The three count branches of the loop body build exactly `NewStep` for the selected rule. |
| StepGeneration.NextGroup | Application/UseCase/PorjectProposalService.cs:94-104 | Each group adds the step its selection yields. A group with no selection adds nothing (the `continue`). |
| StepGeneration.NewStepByCount | Application/UseCase/PorjectProposalService.cs:110-150 | The three count branches build the same step as the approver policy. |
| StepGeneration.StepsForOrders | Application/UseCase/PorjectProposalService.cs:94-104 | The steps' orders are exactly the keys whose group selects a rule, in key order. |
| StepGeneration.StepsForContents | Application/UseCase/PorjectProposalService.cs:113-149 | Each step is the one built from the rule that its own step order's group selects. |
| StepGeneration.AtMostOneStepPerOrder | Application/UseCase/PorjectProposalService.cs:90-151 | No two generated steps share a step order. |
| StepGeneration.FirstAppearanceOrderWhere | Application/UseCase/PorjectProposalService.cs:92-104 | Skipping groups keeps the remaining keys in first-appearance order. |
| StepGeneration.StepsInFirstAppearanceOrder | Application/UseCase/PorjectProposalService.cs:90-94 | Steps come out in the order their step orders first appear among the in-range rules. They are not sorted. |
| StepGeneration.StepExactlyForFittingOrders | Application/UseCase/PorjectProposalService.cs:90-104 | A step with order k exists iff some in-range rule with order k fits the proposal at one of the four tiers. A group with no fitting rule yields no step and no error. |
| StepGeneration.StepFields | Application/UseCase/PorjectProposalService.cs:113-149 | Every step has status 1 and the proposal's id. It carries the role of its group's best-matching rule, and its approver and observation follow the holder count of that role. |
| StepGeneration.GroupsKeepCatalogueOrder | Application/UseCase/PorjectProposalService.cs:85-94 | Example: rules with orders 2, 3 (null maximum) and 1 give steps with orders [2, 1]. |
| StepGeneration.AreaRuleBeatsWildcard | Application/UseCase/PorjectProposalService.cs:98-122 | Example: an area rule listed before a wildcard in the same order wins. The only holder of its role becomes the approver, with observation "Pendiente". |
| ProposalService.CreationFailure | Application/UseCase/PorjectProposalService.cs:42-60 | Checks run in source order: title in use, duration <= 0, unknown area, unknown type, unknown user. Each failure is reported iff its check fails and every earlier check passed. There is no failure iff all five pass. |
| ProposalService.CreateProject | Application/UseCase/PorjectProposalService.cs:40-153 | Fails with `InvalidProjectData` (carrying the first failing check) iff a check fails, and then nothing is created. Otherwise it returns the proposal built from the request: fresh id, status 1, and the steps of `Steps` for that id, amount, area and type. |
| ProposalService.GetFilteredProjects | Application/UseCase/PorjectProposalService.cs:233-281 | Fails with `InvalidFilterParameter` iff a supplied status, applicant or approving user is <= 0 or unknown: a status not among the known status ids, or a user id not in the roster. Otherwise the result is exactly the stored proposals meeting every supplied filter (AND), in store order. A blank title filter is skipped. The approver filter matches when any step names that user. |
| ProposalService.ApplyFilters | Application/UseCase/PorjectProposalService.cs:265-280 | Running the title, status, applicant and approving-user stages in turn leaves exactly the stored proposals that meet every supplied filter, in store order. |
| Seqs.WhereWhere | Application/UseCase/PorjectProposalService.cs:267-281 | Applying two filters one after the other keeps exactly what their conjunction keeps, in the same order. |
| ProposalService.Narrowed | Application/UseCase/PorjectProposalService.cs:267-281 | Each listing stage narrows the stored proposals to those meeting all the filters applied so far. |
| Text.IsNullOrWhiteSpace | Application/UseCase/PorjectProposalService.cs:267 | `string.IsNullOrWhiteSpace`: true for a null or empty string. A string is not blank iff it holds a character outside .NET's white-space set. |
| Text.ContainsIgnoreCase | Application/UseCase/PorjectProposalService.cs:268 | `Contains(…, OrdinalIgnoreCase)`: an empty needle is always found, a text equal to the needle up to case contains it, and a found needle is no longer than the text. |
| Text.ContainsInfix | Application/UseCase/PorjectProposalService.cs:268 | A match at any position is found: any text, then a case variant of the needle, then any text, contains the needle. |
| Text.FoundIsInfix | Application/UseCase/PorjectProposalService.cs:268 | Conversely, a text that contains the needle splits into some text, a case variant of the needle, and some more text. |
| Text.FoldCase | Application/UseCase/PorjectProposalService.cs:268 | Each lower-case ASCII letter folds to its own upper-case letter (32 code points lower), and every other character is unchanged. Folding is idempotent. |
| Text.CaseVariantsFindTheSame | Application/UseCase/PorjectProposalService.cs:268 | Containment does not depend on the case of the searched text. |
| Text.ContainsOwnPrefix | Application/UseCase/PorjectProposalService.cs:268 | A title contains each of its prefixes, itself included. |
| ProposalService.UpdateProposal | Application/UseCase/PorjectProposalService.cs:297-311 | A missing proposal gives `NotFound`. A status other than 4 gives `Conflict`. A blank title or description, or a duration <= 0, gives `InvalidDecisionData`. Success happens iff none of these apply. On success, title, description and duration take the requested values and every other field, status and steps included, is unchanged. |
| ProposalService.EditIsRepeatable | Application/UseCase/PorjectProposalService.cs:303-311 | An edited proposal is still in status 4, and repeating the same edit returns the same proposal. |

## Left out

- Response mapping: the DTO construction (lines 157-222, 283-293 and 316-387 of `Application/UseCase/PorjectProposalService.cs`) is field copying with default names, so the model returns the domain records.
- `GetProposalDetailByIdAsync` (lines 390-467): its only logic is the not-found guard, which `UpdateProposal` also models.
- Step ids: `GenerateRandomBigIntId` (lines 225-231) is randomness, so steps carry no id. The proposal id from `Guid.NewGuid()` is the parameter `newId`. The creation timestamp (a clock read) is not modelled.
- Persistence and async: creating the proposal, saving the step batch, updating the proposal and re-reading the created proposal (line 155) are not modelled. The model returns what would be stored. Transactions and concurrency are not modelled.
- Step decisions: `IProjectApprovalStepService` has no implementation here, so sequencing of decisions and recomputing a proposal's status are not part of this model.
- The HTTP controller and the start-up wiring are not modelled. They only map exceptions to status codes and register services.
- Text.ContainsIgnoreCase: ordinal case-insensitive comparison folds only the ASCII letters. It does not use the full Unicode simple case mapping.
- ProposalService.UpdateProposal: the in-place assignment to the tracked entity is modelled as a record update that returns the new value. Aliasing of that entity is not captured.
- ProposalService.CreateProject: `GetByTitleAsync` is modelled as exact membership in the set of titles in use, so the store's collation is not modelled. User existence (at creation and in the listing) and the role count read the same roster.
- Amounts are `decimal` in the source and unbounded integers here. Fractional amounts are not modelled.
- Stored proposals always have a title here, so the null-title failure of the title filter is not modelled.

## Behaviour to note

- A rule whose maximum amount is null is never in range. The lifted comparisons `max == 0` and `value <= max` are both false on null.
- Steps follow the first appearance of each step order, as `GroupBy` enumerates groups. They are not sorted by step order.
- The observation texts are the Spanish "Pendiente" and "Pendiente (sin usuario asignado)".
- Creation does not check that the description is non-empty or that the amount is non-negative.
- An edit does not check that the title is unique, and it does not check who edits.
- An edit rejects invalid data with `InvalidDecisionDataException`.
