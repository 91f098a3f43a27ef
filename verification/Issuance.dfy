/** Issue runs interleaved at every await between their statements, with failures, crashes
    and membership changes in between. Models `issue_certificate` of src/lib.rs and
    `claim_certificate_issue` of src/store.rs, statement by statement. The limiter, the
    signer and the validity check only decide whether a run goes on; they are choices. */
module Issuance {
  import opened Prelude
  import opened IssuanceStore
  import CertificateRequest

  datatype Outcome = Conflict | InProgress | StateUnavailable | Refused | Crashed

  /** Where a run stands: the statement it performs next, or how it ended. */
  datatype Phase =
    | Begun
    | HasPruned
    | NotFound
    | LostRace
    | Fetching(certificate: Id)
    | Holding
    | Reserved
    | Abandoning
    | Answered(certificate: Id)
    | Issued(certificate: Id)
    | Ended(outcome: Outcome)

  datatype Run = Run(asked: Asked, clock: nat, serial: Option<nat>, phase: Phase)

  /** `lastClaim` remembers the latest clock that a claim has pruned or inserted with. */
  datatype State = State(db: Tables, runs: map<nat, Run>, lastClaim: nat)

  datatype Action =
    | Start(run: nat, asked: Asked, clock: nat)
    | Step(run: nat, proceed: bool, request: Id, certificate: Id)
    | Crash(run: nat)
    | SetDeveloper(developer: Id, row: DeveloperRow)
    | SetMember(developer: Id, account: Id, memberRow: MemberRow)

  // ----- Steps -----

  /** What a found row leads to: the certificate of a complete one is read next. */
  function FollowRow(row: ClaimRow): Phase {
    match row.status
    case Complete(certificate) => Fetching(certificate)
    case Pending => Ended(InProgress)
  }

  ghost function FirstLookup(t: Tables, asked: Asked): Phase {
    if KeyOf(asked) !in t.claims then NotFound
    else if t.claims[KeyOf(asked)].hash != asked.hash then Ended(Conflict)
    else FollowRow(t.claims[KeyOf(asked)])
  }

  ghost function SecondLookup(t: Tables, asked: Asked): Phase {
    if HasHash(t.claims, asked.developer, asked.hash) then
      var k :| k in t.claims && Matches(t.claims, k, asked.developer, asked.hash);
      FollowRow(t.claims[k])
    else Ended(StateUnavailable)
  }

  function WithPhase(s: State, id: nat, phase: Phase): State
    requires id in s.runs
  {
    s.(runs := s.runs[id := s.runs[id].(phase := phase)])
  }

  function PruneStep(s: State, id: nat): State
    requires id in s.runs
  {
    var run := s.runs[id];
    WithPhase(s, id, HasPruned).(db := s.db.(claims := Pruned(s.db.claims, run.clock)),
                                 lastClaim := Max(s.lastClaim, run.clock))
  }

  function InsertStep(s: State, id: nat): State
    requires id in s.runs
  {
    var run := s.runs[id];
    WithPhase(s, id, if Insertable(s.db.claims, run.asked) then Holding else LostRace).(
      db := s.db.(claims := Inserted(s.db.claims, run.asked, run.clock)),
      lastClaim := Max(s.lastClaim, run.clock))
  }

  function ReserveStep(s: State, id: nat): State
    requires id in s.runs
  {
    s.(db := s.db.(nextSerial := s.db.nextSerial + 1),
       runs := s.runs[id := s.runs[id].(serial := Some(s.db.nextSerial), phase := Reserved)])
  }

  function CommitStep(s: State, id: nat, request: Id, certificate: Id): State
    requires id in s.runs
  {
    var run := s.runs[id];
    if run.serial.None? || request in s.db.requests || certificate in s.db.certificates then s
    else
      var issued := Eligible(s.db, run.asked.developer, run.asked.account);
      WithPhase(s, id, if issued then Issued(certificate) else Abandoning).(
        db := IssueBatch(s.db, run.asked, request, certificate, run.serial.value, run.clock))
  }

  function AbandonStep(s: State, id: nat): State
    requires id in s.runs
  {
    WithPhase(s, id, Ended(Refused)).(db := s.db.(claims := Released(s.db.claims, s.runs[id].asked)))
  }

  ghost function StepRun(s: State, id: nat, proceed: bool, request: Id, certificate: Id): State
    requires id in s.runs
  {
    var run := s.runs[id];
    match run.phase
    case Begun => PruneStep(s, id)
    case HasPruned => WithPhase(s, id, FirstLookup(s.db, run.asked))
    case NotFound => InsertStep(s, id)
    case LostRace => WithPhase(s, id, SecondLookup(s.db, run.asked))
    case Fetching(found) =>
      WithPhase(s, id, if found in s.db.certificates then Answered(found) else Ended(InProgress))
    case Holding => if proceed then ReserveStep(s, id) else WithPhase(s, id, Abandoning)
    case Reserved => if proceed then CommitStep(s, id, request, certificate) else WithPhase(s, id, Abandoning)
    case Abandoning => AbandonStep(s, id)
    case _ => s
  }

  /** Every action is possible at every time; one that does not apply changes nothing. */
  ghost function Apply(s: State, action: Action): State {
    match action
    case Start(id, asked, clock) =>
      if id in s.runs then s else s.(runs := s.runs[id := Run(asked, clock, None, Begun)])
    case Step(id, proceed, request, certificate) =>
      if id in s.runs then StepRun(s, id, proceed, request, certificate) else s
    case Crash(id) =>
      if id in s.runs && !s.runs[id].phase.Issued? && !s.runs[id].phase.Answered? then WithPhase(s, id, Ended(Crashed))
      else s
    case SetDeveloper(developer, row) => s.(db := s.db.(developers := s.db.developers[developer := row]))
    case SetMember(developer, account, row) => s.(db := s.db.(members := s.db.members[(developer, account) := row]))
  }

  ghost function Play(s: State, actions: seq<Action>): State {
    if actions == [] then s else Apply(Play(s, actions[..|actions| - 1]), actions[|actions| - 1])
  }

  /** The database as migration 0006 leaves it: no claim and no online certificate yet. */
  ghost predicate Initial(s: State) {
    && s.runs == map[] && s.lastClaim == 0
    && s.db.claims == map[] && s.db.requests == map[] && s.db.certificates == map[] && s.db.audits == []
    && s.db.nextSerial > 0
  }

  // ----- What the tables keep, with no assumption on time -----

  /** The unique (developer, hash) index. */
  ghost predicate ClaimsUnique(claims: map<ClaimKey, ClaimRow>) {
    forall k, l :: k in claims && l in claims && k.developer == l.developer && claims[k].hash == claims[l].hash ==>
      k == l
  }

  /** A certificate answers a request: same developer, same hash. */
  predicate AnswersTo(t: Tables, certificate: Id, developer: Id, hash: Text) {
    && certificate in t.certificates
    && t.certificates[certificate].developer == developer
    && t.certificates[certificate].request in t.requests
    && t.requests[t.certificates[certificate].request].asked.developer == developer
    && t.requests[t.certificates[certificate].request].asked.hash == hash
  }

  ghost predicate ClaimsAnswered(t: Tables) {
    forall k :: k in t.claims && t.claims[k].status.Complete? ==>
      AnswersTo(t, t.claims[k].status.certificate, k.developer, t.claims[k].hash)
  }

  /** Requests, certificates and audit rows correspond one to one. */
  ghost predicate Ledger(requests: map<Id, RequestRow>, certificates: map<Id, CertificateRow>, audits: seq<Id>) {
    && (forall c :: c in certificates ==>
          certificates[c].request in requests
          && requests[certificates[c].request].asked.developer == certificates[c].developer)
    && (forall c, d ::
          (c in certificates && d in certificates && certificates[c].request == certificates[d].request)
          ==> c == d)
    && |requests| == |certificates| == |audits|
    && (forall c :: c in certificates <==> c in audits)
    && (forall i, j :: 0 <= i < j < |audits| ==> audits[i] != audits[j])
  }

  ghost predicate SerialsUsed(nextSerial: nat, certificates: map<Id, CertificateRow>) {
    && 0 < nextSerial
    && (forall c :: c in certificates ==> 0 < certificates[c].serial < nextSerial)
    && (forall c, d ::
          (c in certificates && d in certificates && certificates[c].serial == certificates[d].serial)
          ==> c == d)
  }

  ghost predicate Sound(t: Tables) {
    && ClaimsUnique(t.claims) && ClaimsAnswered(t)
    && Ledger(t.requests, t.certificates, t.audits) && SerialsUsed(t.nextSerial, t.certificates)
  }

  predicate BeforeReserving(phase: Phase) {
    phase.Begun? || phase.HasPruned? || phase.NotFound? || phase.LostRace? || phase.Fetching? || phase.Holding?
  }

  ghost predicate RunSound(t: Tables, run: Run) {
    && (run.serial.Some? ==> 0 < run.serial.value < t.nextSerial)
    && (BeforeReserving(run.phase) ==> run.serial.None?)
    && match run.phase
       case Reserved => run.serial.Some?
       case Fetching(c) => AnswersTo(t, c, run.asked.developer, run.asked.hash)
       case Answered(c) => AnswersTo(t, c, run.asked.developer, run.asked.hash)
       case Issued(c) =>
         AnswersTo(t, c, run.asked.developer, run.asked.hash) && run.serial == Some(t.certificates[c].serial)
       case _ => true
  }

  /** No number is held twice, and none that a run still holds is on a certificate. */
  ghost predicate SerialsApart(s: State) {
    && (forall a, b :: a in s.runs && b in s.runs && a != b && s.runs[a].serial.Some? ==>
          s.runs[a].serial != s.runs[b].serial)
    && (forall a, c :: a in s.runs && c in s.db.certificates && s.runs[a].phase.Reserved? ==>
          s.runs[a].serial != Some(s.db.certificates[c].serial))
  }

  ghost predicate RunsSound(s: State) {
    forall id :: id in s.runs ==> RunSound(s.db, s.runs[id])
  }

  ghost predicate Invariant(s: State) {
    Sound(s.db) && RunsSound(s) && SerialsApart(s)
  }

  // ----- Each batch keeps the tables sound -----

  /** Requests and certificates are never taken back or changed. */
  ghost predicate Extends(t: Tables, u: Tables) {
    && (forall r :: r in t.requests ==> r in u.requests && u.requests[r] == t.requests[r])
    && (forall c :: c in t.certificates ==> c in u.certificates && u.certificates[c] == t.certificates[c])
    && t.nextSerial <= u.nextSerial
  }

  lemma ExtensionKeepsRun(t: Tables, u: Tables, run: Run)
    requires Extends(t, u) && RunSound(t, run)
    ensures RunSound(u, run)
  {
  }

  /** Statements on claims alone: any subset of the rows is as sound as the whole. */
  lemma FewerClaimsAreSound(t: Tables, claims: map<ClaimKey, ClaimRow>)
    requires Sound(t)
    requires forall k :: k in claims ==> k in t.claims && claims[k] == t.claims[k]
    ensures Sound(t.(claims := claims)) && Extends(t, t.(claims := claims))
  {
  }

  lemma InsertIsSound(t: Tables, asked: Asked, now: nat)
    requires Sound(t)
    ensures var u := t.(claims := Inserted(t.claims, asked, now)); Sound(u) && Extends(t, u)
  {
  }

  lemma IssueKeepsLedger(t: Tables, asked: Asked, request: Id, certificate: Id, row: CertificateRow, at: nat)
    requires Ledger(t.requests, t.certificates, t.audits) && request !in t.requests && certificate !in t.certificates
    requires row.request == request && row.developer == asked.developer
    ensures Ledger(t.requests[request := RequestRow(asked, at)], t.certificates[certificate := row],
                   t.audits + [certificate])
  {
  }

  lemma IssueExtends(t: Tables, asked: Asked, request: Id, certificate: Id, serial: nat, now: nat)
    requires request !in t.requests && certificate !in t.certificates
    ensures Extends(t, IssueBatch(t, asked, request, certificate, serial, now))
  {
    hide Completion, Eligible;
  }

  lemma CompletionKeepsUnique(claims: map<ClaimKey, ClaimRow>, asked: Asked, certificate: Id, now: nat)
    requires ClaimsUnique(claims)
    ensures ClaimsUnique(Completion(claims, asked, certificate, now))
  {
  }

  /** A row of the new claims is the old one, or the run's own, which the certificate answers. */
  lemma CompletedRows(t: Tables, asked: Asked, request: Id, certificate: Id, serial: nat, now: nat, k: ClaimKey)
    requires Eligible(t, asked.developer, asked.account)
    requires var u := IssueBatch(t, asked, request, certificate, serial, now);
      k in u.claims && u.claims[k].status.Complete?
    ensures var u := IssueBatch(t, asked, request, certificate, serial, now);
      || (k in t.claims && u.claims[k] == t.claims[k])
      || AnswersTo(u, u.claims[k].status.certificate, k.developer, u.claims[k].hash)
  {
    hide Eligible;
  }

  lemma ExtensionKeepsAnswer(t: Tables, u: Tables, certificate: Id, developer: Id, hash: Text)
    requires Extends(t, u) && AnswersTo(t, certificate, developer, hash)
    ensures AnswersTo(u, certificate, developer, hash)
  {
  }

  lemma IssueKeepsClaims(t: Tables, asked: Asked, request: Id, certificate: Id, serial: nat, now: nat)
    requires ClaimsUnique(t.claims) && ClaimsAnswered(t) && request !in t.requests && certificate !in t.certificates
    ensures var u := IssueBatch(t, asked, request, certificate, serial, now);
      ClaimsUnique(u.claims) && ClaimsAnswered(u) && Extends(t, u)
  {
    hide Completion, Eligible, AnswersTo, Extends, ClaimsUnique;
    IssueExtends(t, asked, request, certificate, serial, now);
    CompletionKeepsUnique(t.claims, asked, certificate, now);
    var u := IssueBatch(t, asked, request, certificate, serial, now);
    if Eligible(t, asked.developer, asked.account) {
      forall k | k in u.claims && u.claims[k].status.Complete?
        ensures AnswersTo(u, u.claims[k].status.certificate, k.developer, u.claims[k].hash)
      {
        CompletedRows(t, asked, request, certificate, serial, now, k);
        if k in t.claims && u.claims[k] == t.claims[k] {
          ExtensionKeepsAnswer(t, u, t.claims[k].status.certificate, k.developer, t.claims[k].hash);
        }
      }
    }
  }

  lemma IssueIsSound(t: Tables, asked: Asked, request: Id, certificate: Id, serial: nat, now: nat)
    requires Sound(t) && request !in t.requests && certificate !in t.certificates
    requires 0 < serial < t.nextSerial
    requires forall c :: c in t.certificates ==> t.certificates[c].serial != serial
    ensures var u := IssueBatch(t, asked, request, certificate, serial, now); Sound(u) && Extends(t, u)
  {
    hide Ledger, ClaimsAnswered, ClaimsUnique, Extends, Completion;
    IssueKeepsLedger(t, asked, request, certificate, CertificateRow(request, asked.developer, serial, now), now);
    IssueKeepsClaims(t, asked, request, certificate, serial, now);
  }

  // ----- Each step keeps the invariant -----

  /** A step touches its own run, leaves the tables sound and only extends them. */
  ghost predicate GoodStep(s: State, n: State, id: nat) {
    && Sound(n.db) && Extends(s.db, n.db)
    && n.runs.Keys == s.runs.Keys
    && (forall other :: other in s.runs && other != id ==> n.runs[other] == s.runs[other])
    && id in n.runs && RunSound(n.db, n.runs[id])
  }

  lemma GoodStepKeepsRuns(s: State, n: State, id: nat)
    requires RunsSound(s) && GoodStep(s, n, id)
    ensures Sound(n.db) && RunsSound(n)
  {
    hide RunSound, Sound, Extends;
    forall other | other in n.runs ensures RunSound(n.db, n.runs[other]) {
      if other != id {
        ExtensionKeepsRun(s.db, n.db, s.runs[other]);
      }
    }
  }

  /** Steps on claims alone hold no number and write no certificate. */
  lemma ClaimStepIsGood(s: State, id: nat, claims: map<ClaimKey, ClaimRow>, lastClaim: nat, phase: Phase)
    requires Invariant(s) && id in s.runs
    requires phase.HasPruned? || phase.Holding? || phase.LostRace? || phase.Ended?
    requires !phase.Ended? ==> BeforeReserving(s.runs[id].phase)
    requires Sound(s.db.(claims := claims)) && Extends(s.db, s.db.(claims := claims))
    ensures Invariant(WithPhase(s, id, phase).(db := s.db.(claims := claims), lastClaim := lastClaim))
  {
    hide Sound, Extends;
    GoodStepKeepsRuns(s, WithPhase(s, id, phase).(db := s.db.(claims := claims), lastClaim := lastClaim), id);
  }

  lemma PruneKeeps(s: State, id: nat)
    requires Invariant(s) && id in s.runs && s.runs[id].phase.Begun?
    ensures Invariant(PruneStep(s, id))
  {
    var now := s.runs[id].clock;
    FewerClaimsAreSound(s.db, Pruned(s.db.claims, now));
    ClaimStepIsGood(s, id, Pruned(s.db.claims, now), Max(s.lastClaim, now), HasPruned);
  }

  lemma InsertKeeps(s: State, id: nat)
    requires Invariant(s) && id in s.runs && s.runs[id].phase.NotFound?
    ensures Invariant(InsertStep(s, id))
  {
    hide Invariant, Sound, Extends;
    var run := s.runs[id];
    assert Sound(s.db) by { InvariantParts(s); }
    InsertIsSound(s.db, run.asked, run.clock);
    ClaimStepIsGood(s, id, Inserted(s.db.claims, run.asked, run.clock), Max(s.lastClaim, run.clock),
                    if Insertable(s.db.claims, run.asked) then Holding else LostRace);
  }

  lemma InvariantParts(s: State)
    requires Invariant(s)
    ensures Sound(s.db) && RunsSound(s) && SerialsApart(s)
  {
  }

  lemma AbandonKeeps(s: State, id: nat)
    requires Invariant(s) && id in s.runs
    ensures Invariant(AbandonStep(s, id))
  {
    FewerClaimsAreSound(s.db, Released(s.db.claims, s.runs[id].asked));
    ClaimStepIsGood(s, id, Released(s.db.claims, s.runs[id].asked), s.lastClaim, Ended(Refused));
    assert AbandonStep(s, id)
        == WithPhase(s, id, Ended(Refused)).(db := s.db.(claims := Released(s.db.claims, s.runs[id].asked)),
                                             lastClaim := s.lastClaim);
  }

  /** A step that moves only the run's own phase. */
  lemma PhaseStepKeeps(s: State, id: nat, phase: Phase)
    requires Invariant(s) && id in s.runs && !phase.Reserved?
    requires RunSound(s.db, s.runs[id].(phase := phase))
    ensures Invariant(WithPhase(s, id, phase))
  {
    hide Sound, RunSound;
  }

  lemma LookupsAreSound(t: Tables, run: Run)
    requires Sound(t) && RunSound(t, run) && (run.phase.HasPruned? || run.phase.LostRace?)
    ensures RunSound(t, run.(phase := FirstLookup(t, run.asked)))
    ensures RunSound(t, run.(phase := SecondLookup(t, run.asked)))
  {
    hide Ledger, SerialsUsed, AnswersTo;
  }

  lemma LookupsEndNowhere(t: Tables, asked: Asked)
    ensures !FirstLookup(t, asked).Reserved? && !SecondLookup(t, asked).Reserved?
  {
  }

  lemma ReserveKeeps(s: State, id: nat)
    requires Invariant(s) && id in s.runs && s.runs[id].phase.Holding?
    ensures Invariant(ReserveStep(s, id))
  {
    hide Sound, Extends, SerialsApart;
    NextSerialIsSound(s.db);
    ReserveKeepsApart(s, id);
    GoodStepKeepsRuns(s, ReserveStep(s, id), id);
  }

  lemma ReserveKeepsApart(s: State, id: nat)
    requires Invariant(s) && id in s.runs
    ensures SerialsApart(ReserveStep(s, id))
    ensures s.db.nextSerial > 0
  {
  }

  lemma NextSerialIsSound(t: Tables)
    requires Sound(t)
    ensures var u := t.(nextSerial := t.nextSerial + 1); Sound(u) && Extends(t, u)
  {
  }

  lemma CommitKeeps(s: State, id: nat, request: Id, certificate: Id)
    requires Invariant(s) && id in s.runs && s.runs[id].phase.Reserved?
    ensures Invariant(CommitStep(s, id, request, certificate))
  {
    hide Sound, Extends, SerialsApart, IssueBatch, Eligible;
    var run := s.runs[id];
    var n := CommitStep(s, id, request, certificate);
    RunOf(s, id);
    if n != s {
      HeldSerialIsUnused(s, id);
      IssueIsSound(s.db, run.asked, request, certificate, run.serial.value, run.clock);
      CommittedRunIsSound(s, id, request, certificate);
      GoodStepKeepsRuns(s, n, id);
      CommitKeepsApart(s, id, request, certificate);
    }
  }

  lemma HeldSerialIsUnused(s: State, id: nat)
    requires SerialsApart(s) && id in s.runs && s.runs[id].phase.Reserved? && s.runs[id].serial.Some?
    ensures forall c :: c in s.db.certificates ==> s.db.certificates[c].serial != s.runs[id].serial.value
  {
  }

  lemma CommittedRunIsSound(s: State, id: nat, request: Id, certificate: Id)
    requires id in s.runs && RunSound(s.db, s.runs[id]) && s.runs[id].phase.Reserved?
    ensures var n := CommitStep(s, id, request, certificate); RunSound(n.db, n.runs[id])
  {
    hide Completion;
  }

  lemma CommitKeepsApart(s: State, id: nat, request: Id, certificate: Id)
    requires SerialsApart(s) && id in s.runs && s.runs[id].phase.Reserved?
    ensures SerialsApart(CommitStep(s, id, request, certificate))
  {
    hide Completion, Eligible;
  }

  lemma StepKeepsInvariant(s: State, id: nat, proceed: bool, request: Id, certificate: Id)
    requires Invariant(s) && id in s.runs
    ensures Invariant(StepRun(s, id, proceed, request, certificate))
  {
    hide Invariant, Sound, RunSound, FirstLookup, SecondLookup, PruneStep, InsertStep, ReserveStep, CommitStep,
      AbandonStep, WithPhase;
    InvariantParts(s);
    var run := s.runs[id];
    RunOf(s, id);
    LookupsEndNowhere(s.db, run.asked);
    match run.phase
    case Begun => PruneKeeps(s, id);
    case HasPruned =>
      LookupsAreSound(s.db, run);
      PhaseStepKeeps(s, id, FirstLookup(s.db, run.asked));
    case NotFound => InsertKeeps(s, id);
    case LostRace =>
      LookupsAreSound(s.db, run);
      PhaseStepKeeps(s, id, SecondLookup(s.db, run.asked));
    case Fetching(found) => FetchKeeps(s, id);
    case Holding =>
      if proceed {
        ReserveKeeps(s, id);
      } else {
        AbandoningKeeps(s, id);
      }
    case Reserved =>
      if proceed {
        CommitKeeps(s, id, request, certificate);
      } else {
        AbandoningKeeps(s, id);
      }
    case Abandoning => AbandonKeeps(s, id);
    case _ =>
  }

  lemma RunOf(s: State, id: nat)
    requires RunsSound(s) && id in s.runs
    ensures RunSound(s.db, s.runs[id])
  {
  }

  lemma FetchKeeps(s: State, id: nat)
    requires Invariant(s) && id in s.runs && s.runs[id].phase.Fetching?
    ensures var found := s.runs[id].phase.certificate;
      Invariant(WithPhase(s, id, if found in s.db.certificates then Answered(found) else Ended(InProgress)))
  {
    RunOf(s, id);
    PhaseStepKeeps(s, id, Answered(s.runs[id].phase.certificate));
  }

  lemma AbandoningKeeps(s: State, id: nat)
    requires Invariant(s) && id in s.runs
    ensures Invariant(WithPhase(s, id, Abandoning))
  {
    RunOf(s, id);
    PhaseStepKeeps(s, id, Abandoning);
  }

  lemma CrashKeeps(s: State, id: nat)
    requires Invariant(s) && id in s.runs
    ensures Invariant(WithPhase(s, id, Ended(Crashed)))
  {
    RunOf(s, id);
    PhaseStepKeeps(s, id, Ended(Crashed));
  }

  lemma StartKeeps(s: State, id: nat, asked: Asked, clock: nat)
    requires Invariant(s) && id !in s.runs
    ensures Invariant(s.(runs := s.runs[id := Run(asked, clock, None, Begun)]))
  {
    hide Sound;
  }

  /** Membership is no part of the invariant. */
  lemma MembershipKeeps(s: State, developers: map<Id, DeveloperRow>, members: map<(Id, Id), MemberRow>)
    requires Invariant(s)
    ensures Invariant(s.(db := s.db.(developers := developers, members := members)))
  {
    var n := s.(db := s.db.(developers := developers, members := members));
    MembershipExtends(s.db, n.db);
    hide Sound, Extends, RunSound;
    forall id | id in n.runs ensures RunSound(n.db, n.runs[id]) {
      ExtensionKeepsRun(s.db, n.db, s.runs[id]);
    }
  }

  lemma MembershipExtends(t: Tables, u: Tables)
    requires Sound(t) && u == t.(developers := u.developers, members := u.members)
    ensures Sound(u) && Extends(t, u)
  {
    hide Ledger, SerialsUsed;
  }

  lemma ApplyKeepsInvariant(s: State, action: Action)
    requires Invariant(s)
    ensures Invariant(Apply(s, action))
  {
    hide Invariant, StepRun;
    match action
    case Step(id, proceed, request, certificate) =>
      if id in s.runs {
        StepKeepsInvariant(s, id, proceed, request, certificate);
      }
    case Crash(id) =>
      if id in s.runs {
        CrashKeeps(s, id);
      }
    case Start(id, asked, clock) =>
      if id !in s.runs {
        StartKeeps(s, id, asked, clock);
      }
    case SetDeveloper(developer, row) => MembershipKeeps(s, s.db.developers[developer := row], s.db.members);
    case SetMember(developer, account, row) =>
      MembershipKeeps(s, s.db.developers, s.db.members[(developer, account) := row]);
  }

  lemma {:induction false} EveryRunKeepsInvariant(s: State, actions: seq<Action>)
    requires Invariant(s)
    ensures Invariant(Play(s, actions))
  {
    hide Invariant, Apply;
    if actions != [] {
      EveryRunKeepsInvariant(s, actions[..|actions| - 1]);
      ApplyKeepsInvariant(Play(s, actions[..|actions| - 1]), actions[|actions| - 1]);
    }
  }

  lemma InitialIsInvariant(s: State)
    requires Initial(s)
    ensures Invariant(s)
  {
  }

  // ----- The results that need no clock -----

  ghost predicate Genuine(tk: CertificateRequest.Toolkit, asked: Asked) {
    exists certificateDeveloper, input :: MadeFrom(tk, asked, certificateDeveloper, input)
  }

  ghost predicate MadeFrom(tk: CertificateRequest.Toolkit, asked: Asked, certificateDeveloper: Text,
                           input: CertificateRequest.IssueInput) {
    && CertificateRequest.Accepted(tk, input)
    && asked.request == CertificateRequest.Canonical(tk, input)
    && CertificateRequest.DecodeKey(tk, asked.request.subjectPublicKey).Some?
    && asked.hash == CertificateRequest.RequestHash(tk, certificateDeveloper, asked.request)
  }

  ghost predicate StartsGenuine(tk: CertificateRequest.Toolkit, actions: seq<Action>) {
    forall i :: 0 <= i < |actions| && actions[i].Start? ==> Genuine(tk, actions[i].asked)
  }

  ghost predicate AllGenuine(tk: CertificateRequest.Toolkit, s: State) {
    && (forall id :: id in s.runs ==> Genuine(tk, s.runs[id].asked))
    && (forall r :: r in s.db.requests ==> Genuine(tk, s.db.requests[r].asked))
  }

  lemma ApplyKeepsGenuine(tk: CertificateRequest.Toolkit, s: State, action: Action)
    requires AllGenuine(tk, s) && (action.Start? ==> Genuine(tk, action.asked))
    ensures AllGenuine(tk, Apply(s, action))
  {
    hide Genuine, FirstLookup, SecondLookup, Eligible, Completion, Pruned, Inserted, Released;
  }

  lemma {:induction false} RunsStayGenuine(tk: CertificateRequest.Toolkit, s: State, actions: seq<Action>)
    requires Initial(s) && StartsGenuine(tk, actions)
    ensures AllGenuine(tk, Play(s, actions))
  {
    hide Genuine, Apply;
    if actions != [] {
      RunsStayGenuine(tk, s, actions[..|actions| - 1]);
      ApplyKeepsGenuine(tk, Play(s, actions[..|actions| - 1]), actions[|actions| - 1]);
    }
  }

  lemma SameHashSameRequest(tk: CertificateRequest.Toolkit, a: Asked, b: Asked)
    requires tk.Lawful() && Genuine(tk, a) && Genuine(tk, b) && a.hash == b.hash
    ensures a.request == b.request
  {
    hide CertificateRequest.Accepted, CertificateRequest.DecodeKey, tk.Lawful, CertificateRequest.RequestHash;
    var da, ia :| MadeFrom(tk, a, da, ia);
    var db, ib :| MadeFrom(tk, b, db, ib);
    CertificateRequest.HashOfCanonical(tk, da, ia);
    CertificateRequest.HashOfCanonical(tk, db, ib);
    CertificateRequest.HashIsInjective(tk,
      CertificateRequest.HashedContent(da, a.request.subjectPublicKey, a.request.packageIdScopes,
                                       a.request.allowedCapabilities),
      CertificateRequest.HashedContent(db, b.request.subjectPublicKey, b.request.packageIdScopes,
                                       b.request.allowedCapabilities));
  }

  /** Whatever ran in between, and by whichever lookup, an answered certificate belongs to
      the asking developer and was issued for the same key, scopes and capabilities. */
  lemma AnswersAreForTheRequest(tk: CertificateRequest.Toolkit, s: State, actions: seq<Action>, id: nat)
    requires tk.Lawful() && Initial(s) && StartsGenuine(tk, actions)
    requires id in Play(s, actions).runs && Play(s, actions).runs[id].phase.Answered?
    ensures var n := Play(s, actions);
      var asked, certificate := n.runs[id].asked, n.runs[id].phase.certificate;
      && certificate in n.db.certificates
      && n.db.certificates[certificate].developer == asked.developer
      && n.db.certificates[certificate].request in n.db.requests
      && n.db.requests[n.db.certificates[certificate].request].asked.request == asked.request
  {
    hide Genuine, Sound;
    InitialIsInvariant(s);
    EveryRunKeepsInvariant(s, actions);
    RunsStayGenuine(tk, s, actions);
    var n := Play(s, actions);
    assert RunSound(n.db, n.runs[id]);
    var request := n.db.certificates[n.runs[id].phase.certificate].request;
    SameHashSameRequest(tk, n.runs[id].asked, n.db.requests[request].asked);
  }

  lemma ApplyKeepsSerial(s: State, action: Action, id: nat)
    requires id in s.runs && RunSound(s.db, s.runs[id]) && s.runs[id].serial.Some?
    ensures id in Apply(s, action).runs && Apply(s, action).runs[id].serial == s.runs[id].serial
  {
    hide FirstLookup, SecondLookup, Pruned, Inserted, Released, Insertable, IssueBatch, Eligible, AnswersTo;
  }

  /** A run keeps the number it reserved, whatever happens to it. */
  lemma {:induction false} ReservedSerialIsKept(s: State, actions: seq<Action>, id: nat)
    requires Invariant(s) && id in s.runs && s.runs[id].serial.Some?
    ensures id in Play(s, actions).runs && Play(s, actions).runs[id].serial == s.runs[id].serial
  {
    hide Invariant, Apply, RunSound;
    if actions != [] {
      var front := actions[..|actions| - 1];
      ReservedSerialIsKept(s, front, id);
      EveryRunKeepsInvariant(s, front);
      InvariantParts(Play(s, front));
      RunOf(Play(s, front), id);
      ApplyKeepsSerial(Play(s, front), actions[|actions| - 1], id);
    }
  }

  predicate HasIssued(s: State, id: nat) {
    id in s.runs && s.runs[id].phase.Issued?
  }

  predicate IssuedBy(s: State, id: nat, certificate: Id) {
    id in s.runs && s.runs[id].phase == Issued(certificate)
  }

  ghost predicate IssuesNothing(s: State, n: State) {
    && n.db.requests == s.db.requests && n.db.certificates == s.db.certificates && n.db.audits == s.db.audits
    && forall id :: HasIssued(n, id) <==> HasIssued(s, id)
  }

  /** One request, one certificate and one audit row more, all for this run, which ends. */
  ghost predicate IssuesOne(s: State, n: State, run: nat, request: Id, certificate: Id) {
    && run in s.runs && request !in s.db.requests && certificate !in s.db.certificates
    && (exists row: CertificateRow ::
          && n.db.certificates == s.db.certificates[certificate := row]
          && row.request == request && row.developer == s.runs[run].asked.developer
          && s.runs[run].serial == Some(row.serial) && row.notBefore == s.runs[run].clock)
    && n.db.requests == s.db.requests[request := RequestRow(s.runs[run].asked, s.runs[run].clock)]
    && n.db.audits == s.db.audits + [certificate]
    && !HasIssued(s, run) && IssuedBy(n, run, certificate)
    && forall id :: HasIssued(n, id) <==> HasIssued(s, id) || id == run
  }

  predicate Commits(s: State, action: Action) {
    action.Step? && action.run in s.runs && s.runs[action.run].phase.Reserved? && action.proceed
  }

  lemma LookupsIssueNothing(t: Tables, asked: Asked)
    ensures !FirstLookup(t, asked).Issued? && !SecondLookup(t, asked).Issued?
  {
  }

  ghost predicate TouchesOneRun(s: State, n: State, id: nat) {
    && id in s.runs && id in n.runs && n.runs == s.runs[id := n.runs[id]]
    && (n.runs[id].phase.Issued? <==> s.runs[id].phase.Issued?)
    && n.db.requests == s.db.requests && n.db.certificates == s.db.certificates && n.db.audits == s.db.audits
  }

  lemma OtherStepsTouchOneRun(s: State, action: Action)
    requires action.Step? && action.run in s.runs && !Commits(s, action)
    ensures TouchesOneRun(s, Apply(s, action), action.run)
  {
    hide FirstLookup, SecondLookup, Pruned, Inserted, Released, Insertable, CommitStep;
    LookupsIssueNothing(s.db, s.runs[action.run].asked);
  }

  lemma OtherStepsIssueNothing(s: State, action: Action)
    requires action.Step? && action.run in s.runs && !Commits(s, action)
    ensures IssuesNothing(s, Apply(s, action))
  {
    hide Apply;
    OtherStepsTouchOneRun(s, action);
  }

  lemma OtherActionsIssueNothing(s: State, action: Action)
    requires !action.Step? || action.run !in s.runs
    ensures IssuesNothing(s, Apply(s, action))
  {
    hide StepRun;
  }

  lemma CommitIssuesOneOrNothing(s: State, id: nat, request: Id, certificate: Id)
    requires id in s.runs && s.runs[id].phase.Reserved?
    ensures var n := CommitStep(s, id, request, certificate);
      || IssuesNothing(s, n)
      || (IssuesOne(s, n, id, request, certificate)
          && Eligible(s.db, s.runs[id].asked.developer, s.runs[id].asked.account))
  {
  }

  /** One action writes a request, a certificate and an audit row together, for the run that
      performs it and only if its member is in good standing then, or none of the three. */
  lemma IssuanceIsConserved(s: State, action: Action)
    ensures var n := Apply(s, action);
      || IssuesNothing(s, n)
      || (&& action.Step? && IssuesOne(s, n, action.run, action.request, action.certificate)
          && MayIssue(s.db, s.runs[action.run].asked.developer, s.runs[action.run].asked.account))
  {
    hide CommitStep, IssuesNothing, IssuesOne, Eligible, MayIssue;
    if Commits(s, action) {
      EligibleIsInGoodStanding(s.db, s.runs[action.run].asked.developer, s.runs[action.run].asked.account);
      CommitIssuesOneOrNothing(s, action.run, action.request, action.certificate);
    } else if action.Step? && action.run in s.runs {
      OtherStepsIssueNothing(s, action);
    } else {
      OtherActionsIssueNothing(s, action);
    }
  }

  lemma IssuedStays(s: State, action: Action, id: nat, certificate: Id)
    requires IssuedBy(s, id, certificate)
    ensures IssuedBy(Apply(s, action), id, certificate)
  {
    hide FirstLookup, SecondLookup, Pruned, Inserted, Released, Insertable, IssueBatch, Eligible;
  }

  ghost predicate AllIssued(s: State) {
    forall c :: c in s.db.certificates ==> exists id :: IssuedBy(s, id, c)
  }

  lemma ApplyKeepsIssued(s: State, action: Action)
    requires AllIssued(s)
    ensures AllIssued(Apply(s, action))
  {
    hide Apply, HasIssued, IssuedBy, Eligible;
    IssuanceIsConserved(s, action);
    var n := Apply(s, action);
    forall c | c in n.db.certificates ensures exists id :: IssuedBy(n, id, c) {
      if c in s.db.certificates {
        var id :| IssuedBy(s, id, c);
        IssuedStays(s, action, id, c);
      } else {
        assert IssuedBy(n, action.run, c);
      }
    }
  }

  lemma {:induction false} CertificatesAreIssued(s: State, actions: seq<Action>)
    requires Initial(s)
    ensures AllIssued(Play(s, actions))
  {
    hide Apply;
    if actions != [] {
      CertificatesAreIssued(s, actions[..|actions| - 1]);
      ApplyKeepsIssued(Play(s, actions[..|actions| - 1]), actions[|actions| - 1]);
    }
  }

  /** Reserved numbers are positive, below the sequence, and never handed to two runs. The
      number on a certificate is that of the one run that issued it, so the numbers of
      abandoned, refused and crashed runs stay off every certificate. */
  lemma SerialsAreNeverReused(s: State, actions: seq<Action>)
    requires Initial(s)
    ensures var n := Play(s, actions);
      && (forall a :: a in n.runs && n.runs[a].serial.Some? ==> 0 < n.runs[a].serial.value < n.db.nextSerial)
      && (forall a, b :: a in n.runs && b in n.runs && a != b && n.runs[a].serial.Some? ==>
            n.runs[a].serial != n.runs[b].serial)
      && (forall c :: c in n.db.certificates ==> 0 < n.db.certificates[c].serial < n.db.nextSerial)
      && (forall c, a :: c in n.db.certificates && a in n.runs ==>
            (n.runs[a].serial == Some(n.db.certificates[c].serial) <==> IssuedBy(n, a, c)))
      && (forall c :: c in n.db.certificates ==> exists a :: IssuedBy(n, a, c))
  {
    hide Play, Initial, Invariant;
    InitialIsInvariant(s);
    EveryRunKeepsInvariant(s, actions);
    CertificatesAreIssued(s, actions);
    var n := Play(s, actions);
    SerialBounds(n);
    forall c, a | c in n.db.certificates && a in n.runs
      ensures n.runs[a].serial == Some(n.db.certificates[c].serial) <==> IssuedBy(n, a, c)
    {
      var id :| IssuedBy(n, id, c);
      IssuerHoldsSerial(n, id, c);
      if IssuedBy(n, a, c) {
        IssuerHoldsSerial(n, a, c);
      }
    }
  }

  lemma SerialBounds(s: State)
    requires Invariant(s)
    ensures forall a :: a in s.runs && s.runs[a].serial.Some? ==> 0 < s.runs[a].serial.value < s.db.nextSerial
    ensures forall a, b :: a in s.runs && b in s.runs && a != b && s.runs[a].serial.Some? ==>
      s.runs[a].serial != s.runs[b].serial
    ensures forall c :: c in s.db.certificates ==> 0 < s.db.certificates[c].serial < s.db.nextSerial
  {
    forall a | a in s.runs && s.runs[a].serial.Some? ensures 0 < s.runs[a].serial.value < s.db.nextSerial {
      RunOf(s, a);
    }
  }

  lemma IssuerHoldsSerial(s: State, id: nat, certificate: Id)
    requires Invariant(s) && IssuedBy(s, id, certificate) && certificate in s.db.certificates
    ensures s.runs[id].serial == Some(s.db.certificates[certificate].serial)
  {
    RunOf(s, id);
  }

  ghost function IssuedRuns(s: State): set<nat> {
    set id | id in s.runs && s.runs[id].phase.Issued?
  }

  lemma IssuedRunsAre(s: State)
    ensures forall id :: id in IssuedRuns(s) <==> HasIssued(s, id)
  {
  }

  lemma ApplyCountsIssued(s: State, action: Action)
    requires |IssuedRuns(s)| == |s.db.certificates|
    ensures |IssuedRuns(Apply(s, action))| == |Apply(s, action).db.certificates|
  {
    hide Apply, IssuedRuns, HasIssued, Eligible;
    var n := Apply(s, action);
    IssuanceIsConserved(s, action);
    IssuedRunsAre(s);
    IssuedRunsAre(n);
    if forall id :: HasIssued(n, id) <==> HasIssued(s, id) {
      assert IssuedRuns(n) == IssuedRuns(s);
    } else {
      assert IssuedRuns(n) == IssuedRuns(s) + {action.run};
    }
  }

  lemma {:induction false} CertificatesCountIssuedRuns(s: State, actions: seq<Action>)
    requires Initial(s)
    ensures |IssuedRuns(Play(s, actions))| == |Play(s, actions).db.certificates|
  {
    hide Apply;
    if actions == [] {
      assert IssuedRuns(s) == {};
    } else {
      CertificatesCountIssuedRuns(s, actions[..|actions| - 1]);
      ApplyCountsIssued(Play(s, actions[..|actions| - 1]), actions[|actions| - 1]);
    }
  }

  /** Over any interleaving the ledger balances: as many requests, certificates and audit
      rows as runs that issued, and each certificate has its own request and audit row. */
  lemma LedgerBalances(s: State, actions: seq<Action>, certificate: Id)
    requires Initial(s)
    ensures var n := Play(s, actions);
      && |n.db.requests| == |n.db.certificates| == |n.db.audits| == |IssuedRuns(n)|
      && (certificate in n.db.certificates ==>
            && n.db.certificates[certificate].request in n.db.requests
            && multiset(n.db.audits)[certificate] == 1
            && forall d :: d in n.db.certificates && d != certificate ==>
                 n.db.certificates[d].request != n.db.certificates[certificate].request)
  {
    InitialIsInvariant(s);
    EveryRunKeepsInvariant(s, actions);
    CertificatesCountIssuedRuns(s, actions);
    var n := Play(s, actions);
    if certificate in n.db.certificates {
      CountedOnce(n.db.audits, certificate);
    }
  }

  lemma {:induction false} CountedOnce(xs: seq<Id>, x: Id)
    requires forall i, j :: 0 <= i < j < |xs| ==> xs[i] != xs[j]
    ensures multiset(xs)[x] == if x in xs then 1 else 0
  {
    if xs != [] {
      var front, last := xs[..|xs| - 1], xs[|xs| - 1];
      CountedOnce(front, x);
      assert xs == front + [last];
    }
  }
}
