/** The records the proposal service reads and writes. Amounts, which the
    source keeps as `decimal`, are exact integers here. */
module Domain {
  import opened Wrappers

  /** Proposal identifiers (a `Guid` in the source) are opaque values. */
  type Guid = int

  /** Status id of a freshly created proposal and of every new step. */
  const StatusPending := 1

  /** The only status id in which a proposal's fields may be edited. The
      service does not check who edits. */
  const StatusEditable := 4

  /** A configured approval rule. A missing `area` or `projectType` is a
      wildcard; `maxAmount` is nullable, and 0 in it means "no upper bound". */
  datatype ApprovalRule = ApprovalRule(
    minAmount: int,
    maxAmount: Option<int>,
    area: Option<int>,
    projectType: Option<int>,
    approverRoleId: int,
    stepOrder: int)

  /** A user, as far as approver matching and existence checks need. */
  datatype User = User(id: int, role: int)

  /** One approval step of a proposal. The step's own random identifier is
      not modelled. */
  datatype ApprovalStep = ApprovalStep(
    proposalId: Guid,
    approverRoleId: int,
    approverUserId: Option<int>,
    stepOrder: int,
    status: int,
    observations: string)

  /** A project proposal with the steps the store joins to it. The creation
      timestamp is not modelled. */
  datatype ProjectProposal = ProjectProposal(
    id: Guid,
    title: string,
    description: string,
    estimatedAmount: int,
    estimatedDuration: int,
    area: int,
    projectType: int,
    createBy: int,
    status: int,
    steps: seq<ApprovalStep>)
}
