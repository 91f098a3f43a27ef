/** Approval of enrollments by racing reviewers, and the membership of the developers it
    creates. Models `approve_developer_enrollment`, `add_member` and `update_member` of
    src/store.rs under the last-owner trigger of migration 0001. The ids of new rows are
    fresh. */
module Approval {
  import opened Prelude
  import opened Enrollment

  datatype Role = Owner | Admin | Developer | Viewer

  datatype Status = Active | Invited | Suspended | Removed

  datatype Member = Member(developer: Id, account: Id, role: Role, status: Status)

  /** An audit row "developer.created_from_enrollment". */
  datatype Creation = Creation(developer: Id, enrollment: Id)

  datatype Tables = Tables(
    enrollments: map<Id, Enrollment>,
    developers: set<Id>,
    members: map<Id, Member>,
    creations: seq<Creation>)

  predicate ActiveOwner(m: Member, developer: Id) {
    m.developer == developer && m.role.Owner? && m.status.Active?
  }

  predicate HasOwner(members: map<Id, Member>, developer: Id) {
    exists id :: id in members && ActiveOwner(members[id], developer)
  }

  /** The trigger: the update of a last active owner to anything else is refused. */
  predicate Refused(members: map<Id, Member>, id: Id, role: Role, status: Status)
    requires id in members
  {
    var before := members[id];
    && ActiveOwner(before, before.developer)
    && !(role.Owner? && status.Active?)
    && !exists other :: other in members && other != id && ActiveOwner(members[other], before.developer)
  }

  predicate IsRowOf(members: map<Id, Member>, id: Id, developer: Id, account: Id) {
    id in members && members[id].developer == developer && members[id].account == account
  }

  predicate HasRow(members: map<Id, Member>, developer: Id, account: Id) {
    exists id :: id in members && IsRowOf(members, id, developer, account)
  }

  /** UNIQUE(developer_id, account_id). */
  ghost predicate UniqueRows(members: map<Id, Member>) {
    forall a, b :: (a in members && b in members && members[a].developer == members[b].developer
                    && members[a].account == members[b].account) ==> a == b
  }

  predicate RefusedFor(members: map<Id, Member>, developer: Id, account: Id, role: Role, status: Status) {
    exists id :: id in members && IsRowOf(members, id, developer, account) && Refused(members, id, role, status)
  }

  /** `after` has the account's one row active in the new role, and nothing else changed. */
  ghost predicate Adds(before: map<Id, Member>, after: map<Id, Member>,
                       developer: Id, account: Id, role: Role, member: Id) {
    if HasRow(before, developer, account) then
      exists id ::
        && IsRowOf(before, id, developer, account)
        && after == before[id := Member(developer, account, role, Active)]
    else after == before[member := Member(developer, account, role, Active)]
  }

  class Store {
    var enrollments: map<Id, Enrollment>
    var developers: set<Id>
    var members: map<Id, Member>
    var creations: seq<Creation>

    function View(): Tables
      reads this
    {
      Tables(enrollments, developers, members, creations)
    }

    /** The batch of the approval, statement by statement. */
    method ApproveEnrollment(enrollment: Id, developer: Id, member: Id, now: nat) returns (created: bool)
      requires developer !in developers && member !in members && enrollment in enrollments
      modifies this
      ensures View() == ApproveBatch(old(View()), enrollment, developer, member, now)
      ensures created <==> old(enrollments)[enrollment].state == InReview
      ensures created ==>
        && developers == old(developers) + {developer}
        && members == old(members)[member := Member(developer, old(enrollments)[enrollment].applicant, Owner, Active)]
        && creations == old(creations) + [Creation(developer, enrollment)]
        && enrollments[enrollment].state == EnrollmentState.Approved
      ensures !created ==> developers == old(developers) && members == old(members) && creations == old(creations)
    {
      var e := enrollments[enrollment];
      if e.state == InReview {
        developers := developers + {developer};
      }
      if e.state == InReview && developer in developers {
        members := members[member := Member(developer, e.applicant, Owner, Active)];
      }
      if e.state == InReview && developer in developers {
        e := e.(state := EnrollmentState.Approved, updatedAt := now);
      }
      if e.state == EnrollmentState.Approved {
        e := e.(events := e.events + [Event(WasApproved, now)]);
      }
      enrollments := enrollments[enrollment := e];
      if developer in developers {
        creations := creations + [Creation(developer, enrollment)];
      }
      created := developer in developers;
    }

    /** An upsert: a known account is made active in the new role, unless the trigger
        refuses to take a last owner's role away. */
    method AddMember(developer: Id, account: Id, role: Role, member: Id) returns (committed: bool)
      requires member !in members && UniqueRows(members)
      modifies this`members
      ensures UniqueRows(members)
      ensures forall d :: old(HasOwner(members, d)) ==> HasOwner(members, d)
      ensures committed <==> developer in developers && !RefusedFor(old(members), developer, account, role, Active)
      ensures committed ==> Adds(old(members), members, developer, account, role, member)
      ensures !committed ==> members == old(members)
      ensures View() == AddBatch(old(View()), developer, account, role, member)
    {
      if developer !in developers {
        return false;
      }
      if HasRow(members, developer, account) {
        var id :| id in members && IsRowOf(members, id, developer, account);
        if Refused(members, id, role, Active) {
          return false;
        }
        UpdateKeepsOwners(members, id, role, Active);
        members := members[id := members[id].(role := role, status := Active)];
      } else {
        InsertKeepsOwners(members, member, Member(developer, account, role, Active));
        NewRowIsUnique(members, member, Member(developer, account, role, Active));
        members := members[member := Member(developer, account, role, Active)];
      }
      committed := true;
    }

    /** The audit row of the batch refers to the developer, so an unknown one aborts it. */
    method UpdateMember(developer: Id, id: Id, role: Option<Role>, status: Option<Status>) returns (committed: bool)
      modifies this`members
      ensures forall d :: old(HasOwner(members, d)) ==> HasOwner(members, d)
      ensures View() == UpdateBatch(old(View()), developer, id, role, status)
      ensures if committed && id in old(members) && old(members)[id].developer == developer then
        var was := old(members)[id];
        members == old(members)[id := Member(developer, was.account, if role.Some? then role.value else was.role,
                                             if status.Some? then status.value else was.status)]
      else members == old(members)
      ensures !committed <==>
        || developer !in developers
        || (&& id in old(members) && old(members)[id].developer == developer
            && Refused(old(members), id, NewRole(old(members)[id], role), NewStatus(old(members)[id], status)))
    {
      if developer !in developers {
        return false;
      }
      committed := true;
      if id in members && members[id].developer == developer {
        var role, status := NewRole(members[id], role), NewStatus(members[id], status);
        if Refused(members, id, role, status) {
          return false;
        }
        UpdateKeepsOwners(members, id, role, status);
        members := members[id := members[id].(role := role, status := status)];
      }
    }
  }

  lemma NewRowIsUnique(members: map<Id, Member>, id: Id, m: Member)
    requires UniqueRows(members) && id !in members && !HasRow(members, m.developer, m.account)
    ensures UniqueRows(members[id := m])
  {
  }

  // ----- The outcomes as functions -----

  function ApproveBatch(t: Tables, enrollment: Id, developer: Id, member: Id, now: nat): Tables
    requires enrollment in t.enrollments
  {
    var e := t.enrollments[enrollment];
    var logged := t.(enrollments := t.enrollments[enrollment := Batch(e, Approve, now)]);
    if e.state != InReview then logged
    else logged.(
      developers := t.developers + {developer},
      members := t.members[member := Member(developer, e.applicant, Owner, Active)],
      creations := t.creations + [Creation(developer, enrollment)])
  }

  function NewRole(m: Member, role: Option<Role>): Role {
    if role.Some? then role.value else m.role
  }

  function NewStatus(m: Member, status: Option<Status>): Status {
    if status.Some? then status.value else m.status
  }

  function Updated(members: map<Id, Member>, developer: Id, id: Id, role: Option<Role>, status: Option<Status>)
    : map<Id, Member>
  {
    if id in members && members[id].developer == developer then
      members[id := members[id].(role := NewRole(members[id], role), status := NewStatus(members[id], status))]
    else members
  }

  function UpdateBatch(t: Tables, developer: Id, id: Id, role: Option<Role>, status: Option<Status>): Tables {
    if developer !in t.developers then t
    else if id in t.members && t.members[id].developer == developer
       && Refused(t.members, id, NewRole(t.members[id], role), NewStatus(t.members[id], status)) then t
    else t.(members := Updated(t.members, developer, id, role, status))
  }

  ghost function AddBatch(t: Tables, developer: Id, account: Id, role: Role, member: Id): Tables {
    if developer !in t.developers then t
    else if HasRow(t.members, developer, account) then
      var id :| id in t.members && IsRowOf(t.members, id, developer, account);
      UpdateBatch(t, developer, id, Some(role), Some(Active))
    else t.(members := t.members[member := Member(developer, account, role, Active)])
  }

  /** What the trigger is for: an update that it lets through leaves no developer without an
      active owner. */
  lemma UpdateKeepsOwners(members: map<Id, Member>, id: Id, role: Role, status: Status)
    requires id in members && !Refused(members, id, role, status)
    ensures var updated := members[id := members[id].(role := role, status := status)];
      forall d :: HasOwner(members, d) ==> HasOwner(updated, d)
  {
    var updated := members[id := members[id].(role := role, status := status)];
    forall d | HasOwner(members, d) ensures HasOwner(updated, d) {
      var owner :| owner in members && ActiveOwner(members[owner], d);
      if owner == id && !(role.Owner? && status.Active?) {
        var other :| other in members && other != id && ActiveOwner(members[other], d);
        assert ActiveOwner(updated[other], d);
      } else {
        assert ActiveOwner(updated[owner], d);
      }
    }
  }

  lemma InsertKeepsOwners(members: map<Id, Member>, id: Id, m: Member)
    requires id !in members
    ensures forall d :: HasOwner(members, d) ==> HasOwner(members[id := m], d)
    ensures ActiveOwner(m, m.developer) ==> HasOwner(members[id := m], m.developer)
  {
    forall d | HasOwner(members, d) ensures HasOwner(members[id := m], d) {
      var owner :| owner in members && ActiveOwner(members[owner], d);
      assert ActiveOwner(members[id := m][owner], d);
    }
    assert members[id := m][id] == m;
  }

  // ----- Racing reviewers -----

  datatype State = State(db: Tables, reviews: map<nat, Id>)

  datatype Action =
    | Open(enrollment: Id, applicant: Id, now: nat)
    | Operate(enrollment: Id, op: Operation, now: nat)
    | ReadForApproval(run: nat, enrollment: Id)
    | CommitApproval(run: nat, developer: Id, member: Id, now: nat)
    | Add(developer: Id, account: Id, role: Role, member: Id)
    | Update(developer: Id, id: Id, newRole: Option<Role>, newStatus: Option<Status>)

  ghost function Apply(s: State, action: Action): State {
    match action
    case Open(enrollment, applicant, now) =>
      if enrollment in s.db.enrollments then s
      else s.(db := s.db.(enrollments := s.db.enrollments[enrollment := Opened(applicant, now)]))
    case Operate(enrollment, op, now) =>
      if enrollment !in s.db.enrollments || op.Approve? then s
      else s.(db := s.db.(enrollments := s.db.enrollments[enrollment := Batch(s.db.enrollments[enrollment], op, now)]))
    case ReadForApproval(run, enrollment) =>
      if enrollment in s.db.enrollments && s.db.enrollments[enrollment].state == InReview && run !in s.reviews then
        s.(reviews := s.reviews[run := enrollment])
      else s
    case CommitApproval(run, developer, member, now) =>
      if run !in s.reviews || s.reviews[run] !in s.db.enrollments then s
      else if developer in s.db.developers || member in s.db.members then s
      else State(ApproveBatch(s.db, s.reviews[run], developer, member, now), s.reviews - {run})
    case Add(developer, account, role, member) =>
      if member in s.db.members then s else s.(db := AddBatch(s.db, developer, account, role, member))
    case Update(developer, id, role, status) => s.(db := UpdateBatch(s.db, developer, id, role, status))
  }

  ghost function Play(s: State, actions: seq<Action>): State {
    if actions == [] then s else Apply(Play(s, actions[..|actions| - 1]), actions[|actions| - 1])
  }

  /** Developers created before enrollments existed are there, each with an owner. */
  ghost predicate Initial(s: State) {
    && s.reviews == map[] && s.db.enrollments == map[] && s.db.creations == []
    && forall d :: d in s.db.developers ==> HasOwner(s.db.members, d)
  }

  function CountFor(creations: seq<Creation>, enrollment: Id): nat {
    if creations == [] then 0
    else
      var last := creations[|creations| - 1];
      CountFor(creations[..|creations| - 1], enrollment) + if last.enrollment == enrollment then 1 else 0
  }

  ghost predicate OneEach(t: Tables) {
    forall e :: CountFor(t.creations, e) ==
      if e in t.enrollments && t.enrollments[e].state == EnrollmentState.Approved then 1 else 0
  }

  ghost predicate CreationsDistinct(t: Tables) {
    && (forall i :: 0 <= i < |t.creations| ==> t.creations[i].developer in t.developers)
    && (forall i, j :: 0 <= i < j < |t.creations| ==> t.creations[i].developer != t.creations[j].developer)
  }

  ghost predicate AllOwned(t: Tables) {
    forall d :: d in t.developers ==> HasOwner(t.members, d)
  }

  ghost predicate Invariant(s: State) {
    OneEach(s.db) && CreationsDistinct(s.db) && AllOwned(s.db)
  }

  /** No batch but the approval of an enrollment in review makes one approved, and none
      takes an approval back. */
  lemma ApprovalIsFinal(e: Enrollment, op: Operation, now: nat)
    ensures Batch(e, op, now).state == EnrollmentState.Approved <==>
      e.state == EnrollmentState.Approved || (op == Approve && e.state == InReview)
  {
  }

  lemma CountOfAppend(creations: seq<Creation>, c: Creation, e: Id)
    ensures CountFor(creations + [c], e) == CountFor(creations, e) + if c.enrollment == e then 1 else 0
  {
  }

  lemma ApproveKeeps(t: Tables, enrollment: Id, developer: Id, member: Id, now: nat)
    requires OneEach(t) && CreationsDistinct(t) && AllOwned(t)
    requires enrollment in t.enrollments && developer !in t.developers && member !in t.members
    ensures var u := ApproveBatch(t, enrollment, developer, member, now);
      OneEach(u) && CreationsDistinct(u) && AllOwned(u)
  {
    hide Batch, HasOwner;
    var u := ApproveBatch(t, enrollment, developer, member, now);
    ApprovalIsFinal(t.enrollments[enrollment], Approve, now);
    InsertKeepsOwners(t.members, member, Member(developer, t.enrollments[enrollment].applicant, Owner, Active));
    if t.enrollments[enrollment].state == InReview {
      forall e ensures CountFor(u.creations, e) ==
        if e in u.enrollments && u.enrollments[e].state == EnrollmentState.Approved then 1 else 0
      {
        CountOfAppend(t.creations, Creation(developer, enrollment), e);
      }
    }
  }

  lemma UpdateBatchKeepsOwners(t: Tables, developer: Id, id: Id, role: Option<Role>, status: Option<Status>)
    requires AllOwned(t)
    ensures AllOwned(UpdateBatch(t, developer, id, role, status))
  {
    hide HasOwner;
    if id in t.members && t.members[id].developer == developer
       && !Refused(t.members, id, NewRole(t.members[id], role), NewStatus(t.members[id], status))
    {
      UpdateKeepsOwners(t.members, id, NewRole(t.members[id], role), NewStatus(t.members[id], status));
    }
  }

  lemma AddBatchKeepsOwners(t: Tables, developer: Id, account: Id, role: Role, member: Id)
    requires AllOwned(t) && member !in t.members
    ensures AllOwned(AddBatch(t, developer, account, role, member))
  {
    hide HasOwner;
    if developer in t.developers {
      if HasRow(t.members, developer, account) {
        forall id ensures AllOwned(UpdateBatch(t, developer, id, Some(role), Some(Active))) {
          UpdateBatchKeepsOwners(t, developer, id, Some(role), Some(Active));
        }
      } else {
        InsertKeepsOwners(t.members, member, Member(developer, account, role, Active));
      }
    }
  }

  lemma ApplyKeepsInvariant(s: State, action: Action)
    requires Invariant(s)
    ensures Invariant(Apply(s, action))
  {
    hide Batch, HasOwner, ApproveBatch, Refused;
    match action
    case Operate(enrollment, op, now) =>
      if enrollment in s.db.enrollments {
        ApprovalIsFinal(s.db.enrollments[enrollment], op, now);
      }
    case CommitApproval(run, developer, member, now) =>
      if run in s.reviews && s.reviews[run] in s.db.enrollments && developer !in s.db.developers
         && member !in s.db.members
      {
        ApproveKeeps(s.db, s.reviews[run], developer, member, now);
      }
    case Add(developer, account, role, member) =>
      if member !in s.db.members {
        AddBatchKeepsOwners(s.db, developer, account, role, member);
      }
    case Update(developer, id, role, status) => UpdateBatchKeepsOwners(s.db, developer, id, role, status);
    case _ =>
  }

  lemma {:induction false} EveryRunKeepsInvariant(s: State, actions: seq<Action>)
    requires Initial(s)
    ensures Invariant(Play(s, actions))
  {
    hide Apply;
    if actions != [] {
      hide Invariant;
      EveryRunKeepsInvariant(s, actions[..|actions| - 1]);
      ApplyKeepsInvariant(Play(s, actions[..|actions| - 1]), actions[|actions| - 1]);
    }
  }

  /** However reviewers race on stale reads, an approved enrollment created exactly one
      developer and any other enrollment none. */
  lemma OneDeveloperPerApproval(s: State, actions: seq<Action>, enrollment: Id)
    requires Initial(s)
    ensures var t := Play(s, actions).db;
      && CountFor(t.creations, enrollment) ==
         (if enrollment in t.enrollments && t.enrollments[enrollment].state == EnrollmentState.Approved then 1 else 0)
      && (forall i :: 0 <= i < |t.creations| ==> t.creations[i].developer in t.developers)
      && (forall i, j :: 0 <= i < j < |t.creations| ==> t.creations[i].developer != t.creations[j].developer)
  {
    EveryRunKeepsInvariant(s, actions);
  }

  /** Every developer keeps an active owner across all later upserts and updates. */
  lemma EveryDeveloperKeepsAnOwner(s: State, actions: seq<Action>, developer: Id)
    requires Initial(s) && developer in Play(s, actions).db.developers
    ensures var members := Play(s, actions).db.members;
      exists id :: id in members && ActiveOwner(members[id], developer)
  {
    EveryRunKeepsInvariant(s, actions);
    assert HasOwner(Play(s, actions).db.members, developer);
  }

  /** The trigger refuses an update exactly when it would leave some developer without an
      active owner. */
  lemma RefusedExactly(members: map<Id, Member>, id: Id, role: Role, status: Status)
    requires id in members
    ensures var updated := members[id := Member(members[id].developer, members[id].account, role, status)];
      Refused(members, id, role, status) <==> exists d :: HasOwner(members, d) && !HasOwner(updated, d)
  {
    var d := members[id].developer;
    var updated := members[id := Member(d, members[id].account, role, status)];
    assert updated == members[id := members[id].(role := role, status := status)];
    if !Refused(members, id, role, status) {
      UpdateKeepsOwners(members, id, role, status);
    } else {
      assert HasOwner(members, d) && !HasOwner(updated, d);
    }
  }

  // ----- Who owns what an approval creates -----

  /** The commit of an approval makes the applicant an active owner of the new developer, if
      the enrollment is still in review by then; if not, it creates nothing. */
  lemma ApplicantBecomesOwner(s: State, run: nat, developer: Id, member: Id, now: nat)
    requires run in s.reviews && s.reviews[run] in s.db.enrollments
    requires developer !in s.db.developers && member !in s.db.members
    ensures var n := Apply(s, CommitApproval(run, developer, member, now));
      var enrollment := s.reviews[run];
      var e := s.db.enrollments[enrollment];
      if e.state == InReview then
        && n.db.developers == s.db.developers + {developer}
        && n.db.members == s.db.members[member := Member(developer, e.applicant, Owner, Active)]
        && n.db.creations == s.db.creations + [Creation(developer, enrollment)]
        && n.db.enrollments[enrollment].state == EnrollmentState.Approved
      else
        && n.db.developers == s.db.developers && n.db.members == s.db.members && n.db.creations == s.db.creations
        && n.db.enrollments[enrollment].state == e.state
  {
  }

  predicate RowStays(t: Tables, u: Tables, id: Id) {
    id in t.members ==>
      id in u.members && u.members[id].developer == t.members[id].developer
      && u.members[id].account == t.members[id].account
  }

  /** No row is deleted or handed to another account or developer. */
  lemma RowsStay(s: State, action: Action, id: Id)
    ensures RowStays(s.db, Apply(s, action).db, id)
  {
    hide Batch, Refused, HasOwner;
  }

  lemma {:induction false} MembershipsAreForGood(s: State, actions: seq<Action>, id: Id)
    ensures RowStays(s.db, Play(s, actions).db, id)
  {
    hide Apply;
    if actions != [] {
      MembershipsAreForGood(s, actions[..|actions| - 1], id);
      RowsStay(Play(s, actions[..|actions| - 1]), actions[|actions| - 1], id);
    }
  }

  /** The applicant of an enrollment never changes. */
  lemma ApplicantsStay(s: State, action: Action, e: Id)
    requires e in s.db.enrollments
    ensures var n := Apply(s, action);
      e in n.db.enrollments && n.db.enrollments[e].applicant == s.db.enrollments[e].applicant
  {
    hide Batch, Refused, HasOwner, HasRow;
    match action
    case Operate(enrollment, op, now) =>
      if enrollment in s.db.enrollments {
        StatesFollowDiagram(s.db.enrollments[enrollment], op, now);
      }
    case CommitApproval(run, _, _, now) =>
      if run in s.reviews && s.reviews[run] in s.db.enrollments {
        StatesFollowDiagram(s.db.enrollments[s.reviews[run]], Approve, now);
      }
    case _ =>
  }

  predicate HasMember(t: Tables, developer: Id, account: Id) {
    exists id :: id in t.members && t.members[id].developer == developer && t.members[id].account == account
  }

  predicate ApplicantIsMember(t: Tables, c: Creation) {
    c.enrollment in t.enrollments && HasMember(t, c.developer, t.enrollments[c.enrollment].applicant)
  }

  ghost predicate ApplicantsAreIn(t: Tables) {
    forall i :: 0 <= i < |t.creations| ==> ApplicantIsMember(t, t.creations[i])
  }

  lemma CreationsGrow(s: State, action: Action)
    ensures var n := Apply(s, action);
      || n.db.creations == s.db.creations
      || (&& action.CommitApproval? && action.run in s.reviews && s.reviews[action.run] in s.db.enrollments
          && action.developer !in s.db.developers && action.member !in s.db.members
          && s.db.enrollments[s.reviews[action.run]].state == InReview
          && n.db.creations == s.db.creations + [Creation(action.developer, s.reviews[action.run])])
  {
    hide Batch, Refused, HasOwner;
  }

  lemma ApplyKeepsApplicants(s: State, action: Action)
    requires ApplicantsAreIn(s.db)
    ensures ApplicantsAreIn(Apply(s, action).db)
  {
    hide Apply;
    var n := Apply(s, action);
    CreationsGrow(s, action);
    forall i | 0 <= i < |n.db.creations| ensures ApplicantIsMember(n.db, n.db.creations[i]) {
      var c := n.db.creations[i];
      ApplicantsStay(s, action, c.enrollment);
      if i < |s.db.creations| {
        var account := s.db.enrollments[c.enrollment].applicant;
        assert ApplicantIsMember(s.db, c);
        var id :|
          id in s.db.members && s.db.members[id].developer == c.developer && s.db.members[id].account == account;
        RowsStay(s, action, id);
        assert HasMember(n.db, c.developer, account);
      } else {
        ApplicantBecomesOwner(s, action.run, action.developer, action.member, action.now);
        assert n.db.members[action.member].developer == c.developer;
        assert HasMember(n.db, c.developer, s.db.enrollments[c.enrollment].applicant);
      }
    }
  }

  lemma {:induction false} EveryRunKeepsApplicants(s: State, actions: seq<Action>)
    requires Initial(s)
    ensures ApplicantsAreIn(Play(s, actions).db)
  {
    hide Apply;
    if actions != [] {
      EveryRunKeepsApplicants(s, actions[..|actions| - 1]);
      ApplyKeepsApplicants(Play(s, actions[..|actions| - 1]), actions[|actions| - 1]);
    }
  }

  /** Over all histories the account that applied is a member of the developer that the
      approval created, and stays one. */
  lemma ApplicantsAreMembers(s: State, actions: seq<Action>, i: nat)
    requires Initial(s) && i < |Play(s, actions).db.creations|
    ensures var t := Play(s, actions).db;
      var c := t.creations[i];
      && c.enrollment in t.enrollments
      && exists id :: id in t.members && t.members[id].developer == c.developer
           && t.members[id].account == t.enrollments[c.enrollment].applicant
  {
    EveryRunKeepsApplicants(s, actions);
    assert ApplicantIsMember(Play(s, actions).db, Play(s, actions).db.creations[i]);
  }
}
