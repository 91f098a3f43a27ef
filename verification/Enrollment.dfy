/** One developer enrollment: its stored state, its append-only events and messages, and the
    batches that write all three. Models the enrollment functions of src/store.rs under
    migration 0011. Every batch may run at any time: the reads before it only refuse. */
module Enrollment {
  import opened Prelude

  type Id = string

  datatype EnrollmentState = Draft | Submitted | InReview | InformationRequired | Approved | Rejected

  datatype EventKind =
    | Created
    | WasSubmitted
    | ReviewStarted
    | InformationRequested
    | InformationUpdated
    | DeveloperMessage
    | WasRejected
    | WasApproved

  datatype Event = Event(kind: EventKind, at: nat)

  datatype Message = Message(byDeveloper: bool, at: nat)

  datatype Enrollment = Enrollment(
    applicant: Id, state: EnrollmentState, updatedAt: nat, events: seq<Event>, messages: seq<Message>)

  datatype Operation =
    | Submit(account: Id)
    | BeginReview
    | RequestInformation
    | UpdateInformation(account: Id)
    | AddMessage(account: Id)
    | Reject
    | Approve

  // ----- The batches -----

  function From(op: Operation): EnrollmentState {
    match op
    case Submit(_) => Draft
    case BeginReview => Submitted
    case UpdateInformation(_) => InformationRequired
    case AddMessage(_) => InformationRequired
    case _ => InReview
  }

  function To(op: Operation): EnrollmentState {
    match op
    case BeginReview => InReview
    case RequestInformation => InformationRequired
    case Reject => Rejected
    case Approve => Approved
    case _ => Submitted
  }

  function KindOf(op: Operation): EventKind {
    match op
    case Submit(_) => WasSubmitted
    case BeginReview => ReviewStarted
    case RequestInformation => InformationRequested
    case UpdateInformation(_) => InformationUpdated
    case AddMessage(_) => DeveloperMessage
    case Reject => WasRejected
    case Approve => WasApproved
  }

  predicate Permitted(e: Enrollment, op: Operation) {
    match op
    case Submit(account) => account == e.applicant
    case UpdateInformation(account) => account == e.applicant
    case AddMessage(account) => account == e.applicant
    case _ => true
  }

  predicate Moves(e: Enrollment, op: Operation) {
    e.state == From(op) && Permitted(e, op)
  }

  /** The UPDATE that every batch starts with. */
  function Moved(e: Enrollment, op: Operation, now: nat): Enrollment {
    if Moves(e, op) then e.(state := To(op), updatedAt := now) else e
  }

  predicate JustMoved(e: Enrollment, op: Operation, now: nat) {
    e.state == To(op) && Permitted(e, op) && e.updatedAt == now
  }

  predicate Logged(events: seq<Event>, kind: EventKind, at: nat) {
    exists i :: 0 <= i < |events| && events[i] == Event(kind, at)
  }

  predicate EverLogged(events: seq<Event>, kind: EventKind) {
    exists i :: 0 <= i < |events| && events[i].kind == kind
  }

  predicate DeveloperWroteAt(messages: seq<Message>, at: nat) {
    exists i :: 0 <= i < |messages| && messages[i] == Message(true, at)
  }

  predicate DeveloperWroteSince(messages: seq<Message>, since: nat) {
    exists i :: 0 <= i < |messages| && messages[i].byDeveloper && messages[i].at >= since
  }

  /** The conditional message of an updated row. */
  function Messaged(e: Enrollment, op: Operation, now: nat): Enrollment {
    if !JustMoved(e, op, now) then e
    else match op
      case RequestInformation => e.(messages := e.messages + [Message(false, now)])
      case UpdateInformation(_) =>
        if DeveloperWroteSince(e.messages, now) then e else e.(messages := e.messages + [Message(true, now)])
      case AddMessage(_) =>
        if DeveloperWroteSince(e.messages, now) then e else e.(messages := e.messages + [Message(true, now)])
      case _ => e
  }

  /** The WHERE clause of the event that a batch appends. An approval is logged whenever the
      enrollment is approved, whoever approved it. */
  predicate Announces(e: Enrollment, op: Operation, now: nat) {
    match op
    case Submit(_) => JustMoved(e, op, now) && !EverLogged(e.events, WasSubmitted)
    case BeginReview => JustMoved(e, op, now) && !Logged(e.events, ReviewStarted, now)
    case RequestInformation => JustMoved(e, op, now)
    case UpdateInformation(_) =>
      JustMoved(e, op, now) && DeveloperWroteAt(e.messages, now) && !Logged(e.events, InformationUpdated, now)
    case AddMessage(_) =>
      JustMoved(e, op, now) && DeveloperWroteAt(e.messages, now) && !Logged(e.events, DeveloperMessage, now)
    case Reject => JustMoved(e, op, now) && !Logged(e.events, WasRejected, now)
    case Approve => e.state == Approved
  }

  function Batch(e: Enrollment, op: Operation, now: nat): Enrollment {
    var written := Messaged(Moved(e, op, now), op, now);
    if Announces(written, op, now) then written.(events := written.events + [Event(KindOf(op), now)]) else written
  }

  /** One enrollment's rows, written statement by statement. */
  class Rows {
    const applicant: Id
    var state: EnrollmentState
    var updatedAt: nat
    var events: seq<Event>
    var messages: seq<Message>

    function View(): Enrollment
      reads this
    {
      Enrollment(applicant, state, updatedAt, events, messages)
    }

    constructor (account: Id, now: nat)
      ensures View() == Opened(account, now)
    {
      applicant, state, updatedAt := account, Draft, now;
      events, messages := [Event(Created, now)], [];
    }

    method SubmitEnrollment(account: Id, now: nat)
      modifies this
      ensures View() == Batch(old(View()), Submit(account), now)
    {
      if applicant == account && state == Draft {
        state, updatedAt := Submitted, now;
      }
      if applicant == account && state == Submitted && updatedAt == now && !EverLogged(events, WasSubmitted) {
        events := events + [Event(WasSubmitted, now)];
      }
    }

    method BeginEnrollmentReview(now: nat)
      modifies this
      ensures View() == Batch(old(View()), BeginReview, now)
    {
      if state == Submitted {
        state, updatedAt := InReview, now;
      }
      if state == InReview && updatedAt == now && !Logged(events, ReviewStarted, now) {
        events := events + [Event(ReviewStarted, now)];
      }
    }

    /** The batch of `request_developer_enrollment_information`, in whatever state a stale
        read leads to it. */
    method WriteInformationRequest(now: nat)
      modifies this
      ensures View() == Batch(old(View()), RequestInformation, now)
    {
      if state == InReview {
        state, updatedAt := InformationRequired, now;
      }
      var moved := state == InformationRequired && updatedAt == now;
      if moved {
        events := events + [Event(InformationRequested, now)];
      }
      if moved {
        messages := messages + [Message(false, now)];
      }
    }

    /** Reads first and refuses unless the enrollment is in review. */
    method RequestEnrollmentInformation(now: nat)
      modifies this
      ensures View() == if old(state) == InReview then Batch(old(View()), RequestInformation, now) else old(View())
    {
      if state != InReview {
        return;
      }
      WriteInformationRequest(now);
    }

    method UpdateEnrollmentInformation(account: Id, now: nat)
      modifies this
      ensures View() == Batch(old(View()), UpdateInformation(account), now)
    {
      Answer(account, now);
      if applicant == account && state == Submitted && updatedAt == now
         && DeveloperWroteAt(messages, now) && !Logged(events, InformationUpdated, now)
      {
        events := events + [Event(InformationUpdated, now)];
      }
    }

    method AddEnrollmentMessage(account: Id, now: nat) returns (submitted: bool)
      modifies this
      ensures View() == Batch(old(View()), AddMessage(account), now)
      ensures submitted <==> state == Submitted
    {
      Answer(account, now);
      if applicant == account && state == Submitted && updatedAt == now
         && DeveloperWroteAt(messages, now) && !Logged(events, DeveloperMessage, now)
      {
        events := events + [Event(DeveloperMessage, now)];
      }
      submitted := state == Submitted;
    }

    /** The two statements that both kinds of answer share. */
    method Answer(account: Id, now: nat)
      modifies this
      ensures View() == Messaged(Moved(old(View()), AddMessage(account), now), AddMessage(account), now)
    {
      if applicant == account && state == InformationRequired {
        state, updatedAt := Submitted, now;
      }
      if applicant == account && state == Submitted && updatedAt == now && !DeveloperWroteSince(messages, now) {
        messages := messages + [Message(true, now)];
      }
    }

    /** The batch of `reject_developer_enrollment`, in whatever state a stale read leads to it. */
    method WriteRejection(now: nat)
      modifies this
      ensures View() == Batch(old(View()), Reject, now)
    {
      if state == InReview {
        state, updatedAt := Rejected, now;
      }
      if state == Rejected && updatedAt == now && !Logged(events, WasRejected, now) {
        events := events + [Event(WasRejected, now)];
      }
    }

    method RejectEnrollment(now: nat)
      modifies this
      ensures View() == if old(state) == InReview then Batch(old(View()), Reject, now) else old(View())
    {
      if state != InReview {
        return;
      }
      WriteRejection(now);
    }
  }

  // ----- Replaying the log -----

  function Opened(applicant: Id, now: nat): Enrollment {
    Enrollment(applicant, Draft, now, [Event(Created, now)], [])
  }

  function Target(kind: EventKind): EnrollmentState {
    match kind
    case Created => Draft
    case WasSubmitted => Submitted
    case ReviewStarted => InReview
    case InformationRequested => InformationRequired
    case InformationUpdated => Submitted
    case DeveloperMessage => Submitted
    case WasRejected => Rejected
    case WasApproved => Approved
  }

  /** The legal moves; an event that repeats the state is a stutter. */
  predicate Legal(state: EnrollmentState, kind: EventKind) {
    || state == Target(kind)
    || match kind
       case Created => false
       case WasSubmitted => state == Draft
       case ReviewStarted => state == Submitted
       case InformationRequested => state == InReview
       case InformationUpdated => state == InformationRequired
       case DeveloperMessage => state == InformationRequired
       case WasRejected => state == InReview
       case WasApproved => state == InReview
  }

  /** Folds the events in append order; None once an event makes an illegal move. */
  function Replay(events: seq<Event>): Option<EnrollmentState> {
    if events == [] then Some(Draft)
    else
      var before := Replay(events[..|events| - 1]);
      var kind := events[|events| - 1].kind;
      if before.Some? && Legal(before.value, kind) then Some(Target(kind)) else None
  }

  ghost predicate Faithful(e: Enrollment) {
    Replay(e.events) == Some(e.state)
  }

  lemma ReplayOfAppend(events: seq<Event>, event: Event)
    ensures Replay(events + [event]) ==
      if Replay(events).Some? && Legal(Replay(events).value, event.kind) then Some(Target(event.kind)) else None
  {
  }

  /** A log that replays to a state before submission, or before a decision, has no event of
      the later kind. */
  lemma {:induction false} EarlyLogsLackLateEvents(events: seq<Event>, i: nat)
    requires i < |events| && Replay(events).Some?
    ensures Replay(events).value == Draft ==> events[i].kind == Created
    ensures events[i].kind == WasRejected ==> Replay(events).value == Rejected
  {
    if i < |events| - 1 {
      EarlyLogsLackLateEvents(events[..|events| - 1], i);
    }
  }

  /** What a caller can check beforehand: the guard that would keep a move out of the log. */
  ghost predicate WillBeLogged(e: Enrollment, op: Operation, now: nat) {
    match op
    case BeginReview => Moves(e, op) ==> !Logged(e.events, ReviewStarted, now)
    case UpdateInformation(_) => Moves(e, op) ==> Answerable(e, now) && !Logged(e.events, InformationUpdated, now)
    case AddMessage(_) => Moves(e, op) ==> Answerable(e, now) && !Logged(e.events, DeveloperMessage, now)
    case _ => true
  }

  ghost predicate Answerable(e: Enrollment, now: nat) {
    DeveloperWroteSince(e.messages, now) ==> DeveloperWroteAt(e.messages, now)
  }

  lemma MessagedKeeps(e: Enrollment, op: Operation, now: nat)
    ensures Messaged(e, op, now) == e.(messages := Messaged(e, op, now).messages)
    ensures op.UpdateInformation? || op.AddMessage? ==>
      (JustMoved(e, op, now) ==> (DeveloperWroteAt(Messaged(e, op, now).messages, now) <==> Answerable(e, now)))
  {
    if (op.UpdateInformation? || op.AddMessage?) && JustMoved(e, op, now) {
      if !DeveloperWroteSince(e.messages, now) {
        assert Messaged(e, op, now).messages[|e.messages|] == Message(true, now);
      }
      if DeveloperWroteAt(e.messages, now) {
        assert DeveloperWroteSince(e.messages, now);
      }
    }
  }

  /** A batch moves the state exactly when its UPDATE applies, and appends the event of its
      move exactly when the guard allows. */
  lemma BatchOutcome(e: Enrollment, op: Operation, now: nat)
    requires Faithful(e)
    ensures var n := Batch(e, op, now);
      && n.state == (if Moves(e, op) then To(op) else e.state)
      && (n.events == e.events || (n.events == e.events + [Event(KindOf(op), now)] && n.state == To(op)))
      && (Moves(e, op) ==> (n.events != e.events <==> WillBeLogged(e, op, now)))
  {
    var moved := Moved(e, op, now);
    MessagedKeeps(moved, op, now);
    hide Messaged, DeveloperWroteAt, DeveloperWroteSince, Replay;
    if Moves(e, op) && op.Submit? && EverLogged(e.events, WasSubmitted) {
      var i :| 0 <= i < |e.events| && e.events[i].kind == WasSubmitted;
      EarlyLogsLackLateEvents(e.events, i);
    }
    if Moves(e, op) && op.Reject? && Logged(e.events, WasRejected, now) {
      var i :| 0 <= i < |e.events| && e.events[i] == Event(WasRejected, now);
      EarlyLogsLackLateEvents(e.events, i);
    }
  }

  lemma MovesAreLegal(e: Enrollment, op: Operation)
    requires Moves(e, op)
    ensures Legal(e.state, KindOf(op)) && Target(KindOf(op)) == To(op) != e.state
  {
  }

  /** One batch keeps log and state in agreement exactly when its move will be logged. */
  lemma BatchKeepsLogExactly(e: Enrollment, op: Operation, now: nat)
    requires Faithful(e)
    ensures Faithful(Batch(e, op, now)) <==> WillBeLogged(e, op, now)
  {
    hide Batch, Messaged, Replay, Logged, Legal, WillBeLogged;
    BatchOutcome(e, op, now);
    ReplayOfAppend(e.events, Event(KindOf(op), now));
    if Moves(e, op) {
      MovesAreLegal(e, op);
    } else {
      StutterIsLegal(op);
      UnmovedIsFine(e, op, now);
    }
  }

  lemma StutterIsLegal(op: Operation)
    ensures Legal(To(op), KindOf(op)) && Target(KindOf(op)) == To(op)
  {
  }

  lemma UnmovedIsFine(e: Enrollment, op: Operation, now: nat)
    requires !Moves(e, op)
    ensures WillBeLogged(e, op, now)
  {
  }

  // ----- Whole histories -----

  datatype Commit = Commit(op: Operation, now: nat)

  function Play(e: Enrollment, commits: seq<Commit>): Enrollment {
    if commits == [] then e
    else
      var last := commits[|commits| - 1];
      Batch(Play(e, commits[..|commits| - 1]), last.op, last.now)
  }

  lemma PlayOneMore(e: Enrollment, commits: seq<Commit>, n: nat)
    requires n < |commits|
    ensures Play(e, commits[..n + 1]) == Batch(Play(e, commits[..n]), commits[n].op, commits[n].now)
  {
    hide Batch;
    assert commits[..n + 1][..n] == commits[..n];
  }

  ghost predicate FaithfulThroughout(e: Enrollment, commits: seq<Commit>) {
    forall n :: 0 <= n <= |commits| ==> Faithful(Play(e, commits[..n]))
  }

  ghost predicate LoggedThroughout(e: Enrollment, commits: seq<Commit>) {
    forall n :: 0 <= n < |commits| ==> WillBeLogged(Play(e, commits[..n]), commits[n].op, commits[n].now)
  }

  lemma {:induction false} GuardsKeepLog(e: Enrollment, commits: seq<Commit>, n: nat)
    requires Faithful(e) && LoggedThroughout(e, commits) && n <= |commits|
    ensures Faithful(Play(e, commits[..n]))
  {
    hide Faithful, WillBeLogged, Batch;
    if n > 0 {
      GuardsKeepLog(e, commits, n - 1);
      PlayOneMore(e, commits, n - 1);
      BatchKeepsLogExactly(Play(e, commits[..n - 1]), commits[n - 1].op, commits[n - 1].now);
    }
  }

  /** Over any history, refused calls and racing reviewers included, log and state agree
      after every commit exactly when no move meets the guard that keeps it out. */
  lemma LogAgreesExactly(e: Enrollment, commits: seq<Commit>)
    requires Faithful(e)
    ensures FaithfulThroughout(e, commits) <==> LoggedThroughout(e, commits)
  {
    hide Faithful, WillBeLogged, Batch, Play;
    if LoggedThroughout(e, commits) {
      forall n | 0 <= n <= |commits| ensures Faithful(Play(e, commits[..n])) {
        GuardsKeepLog(e, commits, n);
      }
    }
    if FaithfulThroughout(e, commits) {
      forall n | 0 <= n < |commits| ensures WillBeLogged(Play(e, commits[..n]), commits[n].op, commits[n].now) {
        PlayOneMore(e, commits, n);
        BatchKeepsLogExactly(Play(e, commits[..n]), commits[n].op, commits[n].now);
      }
    }
  }

  /** Everything stored so far is dated before `now`. */
  ghost predicate DatedBefore(e: Enrollment, now: nat) {
    && e.updatedAt < now
    && (forall i :: 0 <= i < |e.events| ==> e.events[i].at < now)
    && (forall i :: 0 <= i < |e.messages| ==> e.messages[i].at < now)
  }

  lemma FreshClockIsLogged(e: Enrollment, op: Operation, now: nat)
    requires DatedBefore(e, now)
    ensures WillBeLogged(e, op, now)
    ensures forall later :: now < later ==> DatedBefore(Batch(e, op, now), later)
  {
  }

  ghost predicate StrictClocks(start: nat, commits: seq<Commit>) {
    && (forall i :: 0 <= i < |commits| ==> start < commits[i].now)
    && (forall i, j :: 0 <= i < j < |commits| ==> commits[i].now < commits[j].now)
  }

  lemma OpenedIsFaithful(applicant: Id, start: nat)
    ensures Faithful(Opened(applicant, start))
  {
  }

  /** With strictly increasing timestamps the log replays to the stored state after every
      commit. */
  lemma {:induction false} StrictClocksKeepLog(applicant: Id, start: nat, commits: seq<Commit>)
    requires StrictClocks(start, commits)
    ensures Faithful(Play(Opened(applicant, start), commits))
    ensures forall later :: start < later && (commits != [] ==> commits[|commits| - 1].now < later) ==>
      DatedBefore(Play(Opened(applicant, start), commits), later)
  {
    hide WillBeLogged, Batch;
    if commits == [] {
      OpenedIsFaithful(applicant, start);
    } else {
      var front, last := commits[..|commits| - 1], commits[|commits| - 1];
      StrictClocksKeepLog(applicant, start, front);
      var e := Play(Opened(applicant, start), front);
      FreshClockIsLogged(e, last.op, last.now);
      BatchKeepsLogExactly(e, last.op, last.now);
    }
  }

  /** Within one second it can fail: a second round of review is not logged. */
  lemma SameSecondLosesReview(applicant: Id, now: nat)
    ensures var commits := [Commit(Submit(applicant), now), Commit(BeginReview, now), Commit(RequestInformation, now),
                            Commit(AddMessage(applicant), now), Commit(BeginReview, now)];
      var e := Play(Opened(applicant, now), commits);
      e.state == InReview && Replay(e.events) == Some(Submitted)
  {
    hide Replay, Legal;
    var e0 := Opened(applicant, now);
    OpenedIsFaithful(applicant, now);
    var e1 := Batch(e0, Submit(applicant), now);
    BatchKeepsLogExactly(e0, Submit(applicant), now);
    assert e1.events == [Event(Created, now), Event(WasSubmitted, now)];
    var e2 := Batch(e1, BeginReview, now);
    BatchKeepsLogExactly(e1, BeginReview, now);
    assert e2.events == e1.events + [Event(ReviewStarted, now)];
    var e3 := Batch(e2, RequestInformation, now);
    BatchKeepsLogExactly(e2, RequestInformation, now);
    assert e3.events == e2.events + [Event(InformationRequested, now)];
    var e4 := Batch(e3, AddMessage(applicant), now);
    BatchKeepsLogExactly(e3, AddMessage(applicant), now);
    assert e4.messages[1] == Message(true, now);
    assert e4.events[2] == Event(ReviewStarted, now);
    var e5 := Batch(e4, BeginReview, now);
    assert e5 == e4.(state := InReview, updatedAt := now);
    PlayFive(e0, Commit(Submit(applicant), now), Commit(BeginReview, now), Commit(RequestInformation, now),
             Commit(AddMessage(applicant), now), Commit(BeginReview, now));
  }

  lemma PlayFive(e: Enrollment, a: Commit, b: Commit, c: Commit, d: Commit, f: Commit)
    ensures Play(e, [a, b, c, d, f]) ==
      Batch(Batch(Batch(Batch(Batch(e, a.op, a.now), b.op, b.now), c.op, c.now), d.op, d.now), f.op, f.now)
  {
    hide Batch;
    assert [a][..0] == [] && [a, b][..1] == [a] && [a, b, c][..2] == [a, b];
    assert [a, b, c, d][..3] == [a, b, c] && [a, b, c, d, f][..4] == [a, b, c, d];
    assert Play(e, [a]) == Batch(e, a.op, a.now);
    assert Play(e, [a, b]) == Batch(Batch(e, a.op, a.now), b.op, b.now);
    assert Play(e, [a, b, c]) == Batch(Play(e, [a, b]), c.op, c.now);
    assert Play(e, [a, b, c, d]) == Batch(Batch(Play(e, [a, b]), c.op, c.now), d.op, d.now);
  }

  // ----- The diagram behind the guarded statements -----

  /** Only the applicant submits and answers; everything else is a reviewer's. */
  predicate ByTheRightOne(e: Enrollment, op: Operation) {
    op.Submit? || op.UpdateInformation? || op.AddMessage? ==> op.account == e.applicant
  }

  /** Every move there is: where it leads and what it is logged as. */
  function Diagram(state: EnrollmentState, op: Operation): Option<(EnrollmentState, EventKind)> {
    match (state, op)
    case (Draft, Submit(_)) => Some((Submitted, WasSubmitted))
    case (Submitted, BeginReview) => Some((InReview, ReviewStarted))
    case (InReview, RequestInformation) => Some((InformationRequired, InformationRequested))
    case (InformationRequired, UpdateInformation(_)) => Some((Submitted, InformationUpdated))
    case (InformationRequired, AddMessage(_)) => Some((Submitted, DeveloperMessage))
    case (InReview, Reject) => Some((Rejected, WasRejected))
    case (InReview, Approve) => Some((Approved, WasApproved))
    case _ => None
  }

  /** A reviewer's question and an applicant's answer are messages. */
  function MessageOf(kind: EventKind, now: nat): seq<Message> {
    match kind
    case InformationRequested => [Message(false, now)]
    case InformationUpdated => [Message(true, now)]
    case DeveloperMessage => [Message(true, now)]
    case _ => []
  }

  /** A move as it is meant: no guards, one event and at most one message. Approving what is
      approved is logged again. */
  function Meant(e: Enrollment, op: Operation, now: nat): Enrollment {
    if !ByTheRightOne(e, op) then e
    else if Diagram(e.state, op).Some? then
      var (to, kind) := Diagram(e.state, op).value;
      e.(state := to, updatedAt := now,
         events := e.events + [Event(kind, now)], messages := e.messages + MessageOf(kind, now))
    else if op.Approve? && e.state.Approved? then e.(events := e.events + [Event(WasApproved, now)])
    else e
  }

  /** At any clock the state follows the diagram: a call that the diagram does not have for
      this state leaves it alone, and one that it has goes where it says. */
  lemma StatesFollowDiagram(e: Enrollment, op: Operation, now: nat)
    ensures Batch(e, op, now).state == Meant(e, op, now).state
    ensures Batch(e, op, now).updatedAt == Meant(e, op, now).updatedAt
    ensures Batch(e, op, now).applicant == e.applicant
    ensures e.events <= Batch(e, op, now).events && e.messages <= Batch(e, op, now).messages
  {
    hide DeveloperWroteAt, DeveloperWroteSince, Messaged, Announces;
    var moved := Moved(e, op, now);
    MessagedKeeps(moved, op, now);
    MessagesGrow(moved, op, now);
  }

  lemma MessagesGrow(e: Enrollment, op: Operation, now: nat)
    ensures e.messages <= Messaged(e, op, now).messages
  {
  }

  /** Whoever is not the applicant can neither submit nor answer: nothing changes at all. */
  lemma StrangersChangeNothing(e: Enrollment, op: Operation, now: nat)
    requires op.Submit? || op.UpdateInformation? || op.AddMessage?
    requires op.account != e.applicant
    ensures Batch(e, op, now) == e
  {
  }

  /** With a clock later than everything stored, the guarded statements do what is meant. */
  lemma FreshClockDoesWhatIsMeant(e: Enrollment, op: Operation, now: nat)
    requires Faithful(e) && DatedBefore(e, now)
    ensures Batch(e, op, now) == Meant(e, op, now)
  {
    hide Replay;
    if op.Submit? && e.state.Draft? && EverLogged(e.events, WasSubmitted) {
      var i :| 0 <= i < |e.events| && e.events[i].kind == WasSubmitted;
      EarlyLogsLackLateEvents(e.events, i);
    }
    if Moves(e, op) && (op.UpdateInformation? || op.AddMessage?) {
      var messages := e.messages + [Message(true, now)];
      assert messages[|e.messages|] == Message(true, now);
      assert DeveloperWroteAt(messages, now);
    }
  }

  function PlayMeant(e: Enrollment, commits: seq<Commit>): Enrollment {
    if commits == [] then e
    else
      var last := commits[|commits| - 1];
      Meant(PlayMeant(e, commits[..|commits| - 1]), last.op, last.now)
  }

  /** With strictly increasing timestamps any history of batches, by whomever and in whatever
      order, has the state, the events and the messages that the diagram says. */
  lemma {:induction false} StrictClocksFollowDiagram(applicant: Id, start: nat, commits: seq<Commit>)
    requires StrictClocks(start, commits)
    ensures Play(Opened(applicant, start), commits) == PlayMeant(Opened(applicant, start), commits)
  {
    hide Batch, Meant, Faithful, DatedBefore;
    if commits != [] {
      var front, last := commits[..|commits| - 1], commits[|commits| - 1];
      StrictClocksFollowDiagram(applicant, start, front);
      StrictClocksKeepLog(applicant, start, front);
      FreshClockDoesWhatIsMeant(Play(Opened(applicant, start), front), last.op, last.now);
    }
  }
}
