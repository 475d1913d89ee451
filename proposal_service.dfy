/** The three operations of the proposal service: create a proposal with
    its approval steps, list proposals through validated filters, and edit
    a proposal in status 4. Store queries are inputs: the set of titles in
    use, the known area, type and status ids, the user roster, the rule
    catalogue and the stored proposals. */
module ProposalService {
  import opened Wrappers
  import opened Seqs
  import opened Text
  import opened Domain
  import opened StepGeneration

  /** Which creation check failed; all surface as `InvalidProjectDataException`. */
  datatype CreateFailure = TitleTaken | NonPositiveDuration | UnknownArea | UnknownType | UnknownUser

  /** The service's exceptions. */
  datatype Error =
    | InvalidProjectData(reason: CreateFailure)
    | InvalidFilterParameter
    | NotFound
    | Conflict
    | InvalidDecisionData

  datatype CreateRequest = CreateRequest(
    title: string,
    description: string,
    estimatedAmount: int,
    estimatedDuration: int,
    areaId: int,
    typeId: int,
    user: int)

  /** The user roster has a user with this id: `_userQuery.GetByIdAsync`
      at creation and `_userQuery.ExistsAsync` in the listing. */
  predicate UserExists(users: seq<User>, id: int) {
    exists i | 0 <= i < |users| :: users[i].id == id
  }

  /** The creation checks, in the order the service makes them: title in
      use, duration, area, type, user. A failure is reported exactly when
      its check fails and every earlier one passed. */
  function CreationFailure(request: CreateRequest, takenTitles: set<string>, areaIds: set<int>,
                           typeIds: set<int>, users: seq<User>): (f: Option<CreateFailure>)
    ensures f.None? <==>
      request.title !in takenTitles && request.estimatedDuration > 0 && request.areaId in areaIds &&
      request.typeId in typeIds && UserExists(users, request.user)
    ensures f == Some(TitleTaken) <==> request.title in takenTitles
    ensures f == Some(NonPositiveDuration) <==>
      request.title !in takenTitles && request.estimatedDuration <= 0
    ensures f == Some(UnknownArea) <==>
      request.title !in takenTitles && request.estimatedDuration > 0 && request.areaId !in areaIds
    ensures f == Some(UnknownType) <==>
      request.title !in takenTitles && request.estimatedDuration > 0 && request.areaId in areaIds &&
      request.typeId !in typeIds
    ensures f == Some(UnknownUser) <==>
      request.title !in takenTitles && request.estimatedDuration > 0 && request.areaId in areaIds &&
      request.typeId in typeIds && !UserExists(users, request.user)
  {
    if request.title in takenTitles then Some(TitleTaken)
    else if request.estimatedDuration <= 0 then Some(NonPositiveDuration)
    else if request.areaId !in areaIds then Some(UnknownArea)
    else if request.typeId !in typeIds then Some(UnknownType)
    else if !UserExists(users, request.user) then Some(UnknownUser)
    else None
  }

  /** `CreateProjectAsync`: run the checks, create the proposal as pending
      with the fresh id `newId`, then generate its steps from the rules and
      users. Nothing is created when a check fails. */
  method CreateProject(request: CreateRequest, takenTitles: set<string>, areaIds: set<int>, typeIds: set<int>,
                       users: seq<User>, rules: seq<ApprovalRule>, newId: Guid)
    returns (r: Result<ProjectProposal, Error>)
    ensures r.Err? <==> CreationFailure(request, takenTitles, areaIds, typeIds, users).Some?
    ensures r.Err? ==> r.error == InvalidProjectData(CreationFailure(request, takenTitles, areaIds, typeIds, users).value)
    ensures r.Ok? ==> r.value == ProjectProposal(
      newId, request.title, request.description, request.estimatedAmount, request.estimatedDuration,
      request.areaId, request.typeId, request.user, StatusPending,
      Steps(newId, request.estimatedAmount, request.areaId, request.typeId, rules, users))
  {
    if request.title in takenTitles {
      return Err(InvalidProjectData(TitleTaken));
    }
    if request.estimatedDuration <= 0 {
      return Err(InvalidProjectData(NonPositiveDuration));
    }
    if request.areaId !in areaIds {
      return Err(InvalidProjectData(UnknownArea));
    }
    if request.typeId !in typeIds {
      return Err(InvalidProjectData(UnknownType));
    }
    if !UserExists(users, request.user) {
      return Err(InvalidProjectData(UnknownUser));
    }
    var proposal := ProjectProposal(
      newId, request.title, request.description, request.estimatedAmount, request.estimatedDuration,
      request.areaId, request.typeId, request.user, StatusPending, []);
    var steps := GenerateSteps(proposal.id, proposal.estimatedAmount, proposal.area, proposal.projectType, rules, users);
    r := Ok(proposal.(steps := steps));
  }

  /** The optional query parameters of the listing. */
  datatype ListFilter = ListFilter(
    title: Option<string>,
    status: Option<int>,
    applicant: Option<int>,
    approvalUser: Option<int>)

  /** A supplied numeric filter must be a positive id of a known entity. */
  predicate ValidId(id: Option<int>, known: set<int>) {
    id.Some? ==> id.value > 0 && id.value in known
  }

  /** A supplied user filter must be a positive id of a user in the roster. */
  predicate ValidUserId(id: Option<int>, users: seq<User>) {
    id.Some? ==> id.value > 0 && UserExists(users, id.value)
  }

  /** The listing's parameter checks: status against the known statuses,
      applicant and approving user against the user roster. */
  predicate ValidFilter(filter: ListFilter, statusIds: set<int>, users: seq<User>) {
    ValidId(filter.status, statusIds) && ValidUserId(filter.applicant, users) &&
    ValidUserId(filter.approvalUser, users)
  }

  /** Title filter: skipped when blank, else case-insensitive containment. */
  predicate TitleMatches(p: ProjectProposal, title: Option<string>) {
    IsNullOrWhiteSpace(title) || ContainsIgnoreCase(p.title, title.value)
  }

  /** Status filter. */
  predicate StatusMatches(p: ProjectProposal, status: Option<int>) {
    status.Some? ==> p.status == status.value
  }

  /** Applicant filter: the user who created the proposal. */
  predicate ApplicantMatches(p: ProjectProposal, applicant: Option<int>) {
    applicant.Some? ==> p.createBy == applicant.value
  }

  /** Approving-user filter: some step names that user as approver. */
  predicate ApproverMatches(p: ProjectProposal, approvalUser: Option<int>) {
    approvalUser.Some? ==> exists s | s in p.steps :: s.approverUserId == Some(approvalUser.value)
  }

  /** All supplied filters hold of `p`. */
  predicate MatchesAll(p: ProjectProposal, filter: ListFilter) {
    TitleMatches(p, filter.title) && StatusMatches(p, filter.status) &&
    ApplicantMatches(p, filter.applicant) && ApproverMatches(p, filter.approvalUser)
  }

  /** `GetFilteredProjectsAsync`: reject any invalid supplied id, then
      narrow the stored proposals filter by filter. The result is exactly
      the stored proposals meeting every supplied filter, in store order. */
  method GetFilteredProjects(filter: ListFilter, statusIds: set<int>, users: seq<User>,
                             stored: seq<ProjectProposal>) returns (r: Result<seq<ProjectProposal>, Error>)
    ensures r.Err? <==> !ValidFilter(filter, statusIds, users)
    ensures r.Err? ==> r.error == InvalidFilterParameter
    ensures r.Ok? ==> r.value == Where(stored, (p: ProjectProposal) => MatchesAll(p, filter))
    ensures r.Ok? ==> forall p :: p in r.value <==> p in stored && MatchesAll(p, filter)
  {
    if filter.status.Some? {
      if filter.status.value <= 0 || filter.status.value !in statusIds {
        return Err(InvalidFilterParameter);
      }
    }
    if filter.applicant.Some? {
      if filter.applicant.value <= 0 || !UserExists(users, filter.applicant.value) {
        return Err(InvalidFilterParameter);
      }
    }
    if filter.approvalUser.Some? {
      if filter.approvalUser.value <= 0 || !UserExists(users, filter.approvalUser.value) {
        return Err(InvalidFilterParameter);
      }
    }
    var proposals := ApplyFilters(filter, stored);
    r := Ok(proposals);
  }

  /** The narrowing stages of `GetFilteredProjectsAsync`, run once the
      parameters are valid: title, status, applicant, approving user. */
  method ApplyFilters(filter: ListFilter, stored: seq<ProjectProposal>) returns (proposals: seq<ProjectProposal>)
    ensures proposals == Where(stored, (p: ProjectProposal) => MatchesAll(p, filter))
  {
    // Each stage keeps exactly the stored proposals meeting the filters applied so far.
    ghost var byTitle := (p: ProjectProposal) => TitleMatches(p, filter.title);
    ghost var upToStatus := (p: ProjectProposal) => byTitle(p) && StatusMatches(p, filter.status);
    ghost var upToApplicant := (p: ProjectProposal) => upToStatus(p) && ApplicantMatches(p, filter.applicant);
    proposals := stored;
    if !IsNullOrWhiteSpace(filter.title) {
      var needle := filter.title.value;
      var containsTitle := (p: ProjectProposal) => ContainsIgnoreCase(p.title, needle);
      proposals := Where(proposals, containsTitle);
      WhereCongruent(stored, containsTitle, byTitle);
    } else {
      WhereKeepsAll(stored, byTitle);
    }
    if filter.status.Some? {
      var status := filter.status.value;
      var hasStatus := (p: ProjectProposal) => p.status == status;
      proposals := Where(proposals, hasStatus);
      Narrowed(stored, byTitle, hasStatus, upToStatus);
    } else {
      WhereCongruent(stored, byTitle, upToStatus);
    }
    if filter.applicant.Some? {
      var applicant := filter.applicant.value;
      var byApplicant := (p: ProjectProposal) => p.createBy == applicant;
      proposals := Where(proposals, byApplicant);
      Narrowed(stored, upToStatus, byApplicant, upToApplicant);
    } else {
      WhereCongruent(stored, upToStatus, upToApplicant);
    }
    if filter.approvalUser.Some? {
      var approver := filter.approvalUser.value;
      var byApprover := (p: ProjectProposal) => exists s | s in p.steps :: s.approverUserId == Some(approver);
      proposals := Where(proposals, byApprover);
      Narrowed(stored, upToApplicant, byApprover, (p: ProjectProposal) => MatchesAll(p, filter));
    } else {
      WhereCongruent(stored, upToApplicant, (p: ProjectProposal) => MatchesAll(p, filter));
    }
  }

  /** Narrowing the result of one filter by another gives the result of a
      single filter equivalent to their conjunction. */
  lemma Narrowed(s: seq<ProjectProposal>, p: ProjectProposal -> bool, q: ProjectProposal -> bool,
                 both: ProjectProposal -> bool)
    requires forall x :: both(x) == (p(x) && q(x))
    ensures Where(Where(s, p), q) == Where(s, both)
  {
    WhereWhere(s, p, q);
    WhereCongruent(s, (x: ProjectProposal) => p(x) && q(x), both);
  }

  /** The editable fields sent with an edit; title and description may be
      missing. */
  datatype UpdateRequest = UpdateRequest(title: Option<string>, description: Option<string>, duration: int)

  /** `b` agrees with `a` on everything but title, description and duration. */
  predicate SameExceptEditable(a: ProjectProposal, b: ProjectProposal) {
    b.id == a.id && b.estimatedAmount == a.estimatedAmount && b.area == a.area &&
    b.projectType == a.projectType && b.createBy == a.createBy && b.status == a.status && b.steps == a.steps
  }

  /** The edit data is unusable: a blank title or description, or a
      non-positive duration. */
  predicate InvalidEdit(request: UpdateRequest) {
    IsNullOrWhiteSpace(request.title) || IsNullOrWhiteSpace(request.description) || request.duration <= 0
  }

  /** `UpdateProposalAsync` on the proposal the store found for the id (if
      any): missing is not found, a status other than 4 is a
      conflict, unusable data is invalid, and otherwise exactly title,
      description and duration are overwritten. */
  function UpdateProposal(found: Option<ProjectProposal>, request: UpdateRequest): (r: Result<ProjectProposal, Error>)
    ensures found.None? ==> r == Err(NotFound)
    ensures found.Some? && found.value.status != StatusEditable ==> r == Err(Conflict)
    ensures r == Err(InvalidDecisionData) <==>
      found.Some? && found.value.status == StatusEditable && InvalidEdit(request)
    ensures r.Ok? <==> found.Some? && found.value.status == StatusEditable && !InvalidEdit(request)
    ensures r.Ok? ==>
      r.value.title == request.title.value && r.value.description == request.description.value &&
      r.value.estimatedDuration == request.duration && SameExceptEditable(found.value, r.value)
  {
    if found.None? then Err(NotFound)
    else
      var proposal := found.value;
      if proposal.status != StatusEditable then Err(Conflict)
      else if InvalidEdit(request) then Err(InvalidDecisionData)
      else Ok(proposal.(title := request.title.value, description := request.description.value,
                        estimatedDuration := request.duration))
  }

  /** An edit leaves the proposal in status 4, so it can be edited again, and
      repeating the same edit changes nothing more. */
  lemma EditIsRepeatable(p: ProjectProposal, request: UpdateRequest)
    requires UpdateProposal(Some(p), request).Ok?
    ensures UpdateProposal(Some(UpdateProposal(Some(p), request).value), request) == UpdateProposal(Some(p), request)
  {
  }
}
