/** Who approves a step: the count of users holding the selected rule's
    role decides between one named approver and an unassigned step. */
module ApproverResolution {
  import opened Wrappers
  import opened Seqs
  import opened Domain

  /** Observation text of a step with a named approver. */
  const AssignedObservation := "Pendiente"

  /** Observation text of a step left without an approver. */
  const UnassignedObservation := "Pendiente (sin usuario asignado)"

  /** The approver fields of a new step. */
  datatype Assignment = Assignment(approverUserId: Option<int>, observations: string)

  /** The test `u.Role == selectedRule.ApproverRoleId`. */
  function HoldsRole(role: int): User -> bool {
    (u: User) => u.role == role
  }

  /** The users holding `role`, in roster order. */
  function Approvers(users: seq<User>, role: int): (holders: seq<User>)
    ensures |holders| <= |users|
    ensures forall u :: u in holders <==> u in users && u.role == role
  {
    Where(users, HoldsRole(role))
  }

  /** Position `i` of the roster holds `role`, and no other position does. */
  ghost predicate SoleHolder(users: seq<User>, role: int, i: int) {
    0 <= i < |users| && users[i].role == role &&
    forall j :: 0 <= j < |users| && users[j].role == role ==> j == i
  }

  /** A user is assigned exactly when one roster entry holds the role, and
      then it is that user; with no holder or with two or more the step is
      left unassigned. The observation text follows the assignment. */
  function ResolveApprover(users: seq<User>, role: int): (a: Assignment)
    ensures a.approverUserId.Some? <==> exists i :: SoleHolder(users, role, i)
    ensures a.approverUserId.Some? ==>
      exists i :: SoleHolder(users, role, i) && users[i].id == a.approverUserId.value
    ensures a.approverUserId.None? ==>
      (forall i :: 0 <= i < |users| ==> users[i].role != role) ||
      (exists i, j :: 0 <= i < j < |users| && users[i].role == role && users[j].role == role)
    ensures a.observations == if a.approverUserId.Some? then AssignedObservation else UnassignedObservation
  {
    var approvers := Approvers(users, role);
    if |approvers| == 1 then
      OneApproverIsSoleHolder(users, role);
      Assignment(Some(approvers[0].id), AssignedObservation)
    else if |approvers| > 1 then
      WhereTwo(users, HoldsRole(role));
      Assignment(None, UnassignedObservation)
    else
      assert forall i :: 0 <= i < |users| ==> users[i] in users;
      Assignment(None, UnassignedObservation)
  }

  /** A count of one means a sole holder, who is the one counted. */
  lemma OneApproverIsSoleHolder(users: seq<User>, role: int)
    requires |Approvers(users, role)| == 1
    ensures exists i :: SoleHolder(users, role, i) && users[i] == Approvers(users, role)[0]
  {
    WhereOne(users, HoldsRole(role));
    var i :| 0 <= i < |users| && HoldsRole(role)(users[i]) && users[i] == Approvers(users, role)[0] &&
             forall j :: 0 <= j < |users| && HoldsRole(role)(users[j]) ==> j == i;
    assert SoleHolder(users, role, i);
  }
}
