/** Who is issued a certificate and what a request is answered, over the histories of
    Issuance: the promises of `issue_certificate` in src/lib.rs and src/store.rs. */
module IssuanceOutcomes {
  import opened Prelude
  import opened IssuanceStore
  import opened Issuance

  // ----- Only members in good standing -----

  predicate Changes(action: Action, developer: Id, account: Id) {
    match action
    case SetDeveloper(d, _) => d == developer
    case SetMember(d, a, _) => d == developer && a == account
    case _ => false
  }

  lemma StandingLasts(s: State, action: Action, developer: Id, account: Id)
    requires !Changes(action, developer, account)
    ensures MayIssue(Apply(s, action).db, developer, account) <==> MayIssue(s.db, developer, account)
  {
    hide FirstLookup, SecondLookup, Pruned, Inserted, Released, Insertable, Eligible, Completion;
  }

  /** Every certificate that `n` has and `s` has not was asked for by somebody else. */
  ghost predicate NoneFor(s: State, n: State, developer: Id, account: Id) {
    forall c :: c in n.db.certificates && c !in s.db.certificates ==>
      && n.db.certificates[c].request in n.db.requests
      && var asked := n.db.requests[n.db.certificates[c].request].asked;
        !(asked.developer == developer && asked.account == account)
  }

  lemma ApplyKeepsNoneFor(s: State, n: State, action: Action, developer: Id, account: Id)
    requires NoneFor(s, n, developer, account) && !MayIssue(n.db, developer, account)
    ensures NoneFor(s, Apply(n, action), developer, account)
  {
    hide Apply, HasIssued, IssuedBy, Eligible, MayIssue;
    IssuanceIsConserved(n, action);
    if action.Step? && action.run in n.runs {
      var asked := n.runs[action.run].asked;
      EligibleIsInGoodStanding(n.db, asked.developer, asked.account);
    }
  }

  lemma {:induction false} BarredStays(s: State, actions: seq<Action>, developer: Id, account: Id)
    requires !MayIssue(s.db, developer, account)
    requires forall i :: 0 <= i < |actions| ==> !Changes(actions[i], developer, account)
    ensures !MayIssue(Play(s, actions).db, developer, account)
    ensures NoneFor(s, Play(s, actions), developer, account)
  {
    hide Apply, MayIssue, Changes;
    if actions != [] {
      var front := actions[..|actions| - 1];
      BarredStays(s, front, developer, account);
      ApplyKeepsNoneFor(s, Play(s, front), actions[|actions| - 1], developer, account);
      StandingLasts(Play(s, front), actions[|actions| - 1], developer, account);
    }
  }

  /** From when a member is a viewer, inactive or gone, or its developer inactive or not
      verified, no run of that member adds a certificate, however far along it is, until a
      change of the member or the developer. */
  lemma BarredMemberIsNotIssued(s: State, actions: seq<Action>, developer: Id, account: Id, certificate: Id)
    requires developer !in s.db.developers
      || !s.db.developers[developer].active || !s.db.developers[developer].verified
      || (developer, account) !in s.db.members
      || !s.db.members[(developer, account)].active || s.db.members[(developer, account)].role.Viewer?
    requires forall i :: 0 <= i < |actions| ==> !Changes(actions[i], developer, account)
    requires certificate in Play(s, actions).db.certificates && certificate !in s.db.certificates
    ensures var n := Play(s, actions);
      && n.db.certificates[certificate].request in n.db.requests
      && var asked := n.db.requests[n.db.certificates[certificate].request].asked;
        asked.developer != developer || asked.account != account
  {
    hide Play, Changes;
    BarredStays(s, actions, developer, account);
  }

  /** Conversely the commit of a run issues, however long it took, exactly for an active
      owner, admin or developer of an active and verified developer. */
  lemma CommitFollowsStanding(s: State, actions: seq<Action>, id: nat, request: Id, certificate: Id)
    requires Initial(s) && id in Play(s, actions).runs && Play(s, actions).runs[id].phase.Reserved?
    requires request !in Play(s, actions).db.requests && certificate !in Play(s, actions).db.certificates
    ensures var before, after := Play(s, actions), Apply(Play(s, actions), Step(id, true, request, certificate));
      var asked := before.runs[id].asked;
      if MayIssue(before.db, asked.developer, asked.account) then
        && IssuedBy(after, id, certificate)
        && after.db.certificates.Keys == before.db.certificates.Keys + {certificate}
      else after.runs[id].phase == Abandoning && after.db.certificates == before.db.certificates
  {
    hide Play, Initial, Sound, MayIssue, Eligible, Completion;
    InitialIsInvariant(s);
    EveryRunKeepsInvariant(s, actions);
    var before := Play(s, actions);
    RunOf(before, id);
    EligibleIsInGoodStanding(before.db, before.runs[id].asked.developer, before.runs[id].asked.account);
  }

  // ----- What a request is answered -----

  ghost function Stepped(s: State, r: nat, asked: Asked, clock: nat, request: Id, certificate: Id, n: nat): State {
    if n == 0 then Apply(s, Start(r, asked, clock))
    else Apply(Stepped(s, r, asked, clock, request, certificate, n - 1), Step(r, true, request, certificate))
  }

  /** A claim that is younger than 300 s. */
  predicate Young(claims: map<ClaimKey, ClaimRow>, k: ClaimKey, clock: nat) {
    k in claims && clock < claims[k].updatedAt + 300
  }

  /** A young claim of this developer for this request, whoever made it and for which key. */
  predicate YoungFor(claims: map<ClaimKey, ClaimRow>, k: ClaimKey, asked: Asked, clock: nat) {
    Young(claims, k, clock) && k.developer == asked.developer && claims[k].hash == asked.hash
  }

  /** What the claim found says: the certificate, or to wait. */
  function Says(row: ClaimRow): Phase {
    match row.status
    case Complete(c) => Answered(c)
    case Pending => Ended(InProgress)
  }

  lemma PrunedRows(claims: map<ClaimKey, ClaimRow>, clock: nat)
    ensures forall k :: k in Pruned(claims, clock) <==> Young(claims, k, clock)
    ensures forall k :: k in Pruned(claims, clock) ==> Pruned(claims, clock)[k] == claims[k]
  {
  }

  /** The state after the run's first two statements. */
  lemma AfterLookup(s: State, r: nat, asked: Asked, clock: nat, request: Id, certificate: Id)
    requires r !in s.runs
    ensures var claims := Pruned(s.db.claims, clock);
      Stepped(s, r, asked, clock, request, certificate, 2)
      == State(s.db.(claims := claims),
               s.runs[r := Run(asked, clock, None, FirstLookup(s.db.(claims := claims), asked))],
               Max(s.lastClaim, clock))
  {
    hide FirstLookup, Pruned;
    var s0 := Stepped(s, r, asked, clock, request, certificate, 0);
    var s1 := Stepped(s, r, asked, clock, request, certificate, 1);
    assert s1 == Apply(s0, Step(r, true, request, certificate));
  }

  lemma UnwindStepped(s: State, r: nat, asked: Asked, clock: nat, request: Id, certificate: Id)
    ensures var step := Step(r, true, request, certificate);
      var s2 := Stepped(s, r, asked, clock, request, certificate, 2);
      Stepped(s, r, asked, clock, request, certificate, 5) == Apply(Apply(Apply(s2, step), step), step)
  {
    hide Apply;
    var s3 := Stepped(s, r, asked, clock, request, certificate, 3);
    var s4 := Stepped(s, r, asked, clock, request, certificate, 4);
    assert s4 == Apply(s3, Step(r, true, request, certificate));
  }

  /** A run that has read a row ends with what the row says. */
  lemma FollowedRow(s: State, r: nat, row: ClaimRow, request: Id, certificate: Id)
    requires r in s.runs && s.runs[r].phase == FollowRow(row)
    requires row.status.Complete? ==> row.status.certificate in s.db.certificates
    ensures Apply(s, Step(r, true, request, certificate)) == WithPhase(s, r, Says(row))
  {
  }

  lemma EndedStays(s: State, r: nat, request: Id, certificate: Id)
    requires r in s.runs && (s.runs[r].phase.Ended? || s.runs[r].phase.Answered?)
    ensures Apply(s, Step(r, true, request, certificate)) == s
  {
  }

  lemma CompleteHasCertificate(s: State, k: ClaimKey)
    requires Invariant(s) && k in s.db.claims && s.db.claims[k].status.Complete?
    ensures s.db.claims[k].status.certificate in s.db.certificates
  {
    hide Ledger, SerialsUsed;
  }

  /** A young claim under the run's own key decides. */
  lemma OwnClaimAnswers(s: State, r: nat, asked: Asked, clock: nat, request: Id, certificate: Id)
    requires Invariant(s) && r !in s.runs && Young(s.db.claims, KeyOf(asked), clock)
    ensures var n := Stepped(s, r, asked, clock, request, certificate, 5);
      && r in n.runs
      && n.runs[r].phase == (if s.db.claims[KeyOf(asked)].hash != asked.hash then Ended(Conflict)
                             else Says(s.db.claims[KeyOf(asked)]))
      && n.db == s.db.(claims := Pruned(s.db.claims, clock))
  {
    hide Pruned, Invariant, FollowRow, Says, StepRun;
    var row := s.db.claims[KeyOf(asked)];
    PrunedRows(s.db.claims, clock);
    AfterLookup(s, r, asked, clock, request, certificate);
    UnwindStepped(s, r, asked, clock, request, certificate);
    var s2 := Stepped(s, r, asked, clock, request, certificate, 2);
    if row.status.Complete? {
      CompleteHasCertificate(s, KeyOf(asked));
    }
    if row.hash == asked.hash {
      FollowedRow(s2, r, row, request, certificate);
      SaysEnds(row);
      EndedStays(WithPhase(s2, r, Says(row)), r, request, certificate);
    } else {
      EndedStays(s2, r, request, certificate);
    }
  }

  lemma SaysEnds(row: ClaimRow)
    ensures Says(row).Ended? || Says(row).Answered?
  {
  }

  /** Else a young claim for the same request, by another account or key, decides. */
  lemma OtherClaimAnswers(s: State, r: nat, asked: Asked, clock: nat, request: Id, certificate: Id, k: ClaimKey)
    requires Invariant(s) && r !in s.runs && !Young(s.db.claims, KeyOf(asked), clock)
    requires YoungFor(s.db.claims, k, asked, clock)
    ensures var n := Stepped(s, r, asked, clock, request, certificate, 5);
      && r in n.runs && n.runs[r].phase == Says(s.db.claims[k])
      && n.db == s.db.(claims := Pruned(s.db.claims, clock))
  {
    hide Pruned, Invariant, FollowRow, Says;
    var claims := Pruned(s.db.claims, clock);
    PrunedRows(s.db.claims, clock);
    AfterLookup(s, r, asked, clock, request, certificate);
    UnwindStepped(s, r, asked, clock, request, certificate);
    var s2 := Stepped(s, r, asked, clock, request, certificate, 2);
    assert Matches(claims, k, asked.developer, asked.hash);
    var s3 := Apply(s2, Step(r, true, request, certificate));
    assert s3.runs[r].phase == LostRace && s3.db == s2.db;
    var s4 := Apply(s3, Step(r, true, request, certificate));
    SecondLookupFinds(s, s3.db, asked, clock, k);
    if s.db.claims[k].status.Complete? {
      CompleteHasCertificate(s, k);
    }
    assert s4 == WithPhase(s3, r, FollowRow(s.db.claims[k]));
    FollowedRow(s4, r, s.db.claims[k], request, certificate);
  }

  lemma SecondLookupFinds(s: State, t: Tables, asked: Asked, clock: nat, k: ClaimKey)
    requires Invariant(s) && t.claims == Pruned(s.db.claims, clock) && YoungFor(s.db.claims, k, asked, clock)
    ensures SecondLookup(t, asked) == FollowRow(s.db.claims[k])
  {
    hide Ledger, SerialsUsed, ClaimsAnswered, FollowRow;
    assert Matches(t.claims, k, asked.developer, asked.hash);
  }

  lemma NoYoungClaimIsFree(claims: map<ClaimKey, ClaimRow>, asked: Asked, clock: nat)
    requires !Young(claims, KeyOf(asked), clock) && forall k :: !YoungFor(claims, k, asked, clock)
    ensures KeyOf(asked) !in Pruned(claims, clock) && Insertable(Pruned(claims, clock), asked)
  {
    if k :| k in Pruned(claims, clock) && Matches(Pruned(claims, clock), k, asked.developer, asked.hash) {
      assert YoungFor(claims, k, asked, clock);
    }
  }

  /** No young claim stands in the way: the run claims. */
  lemma FreeRequestClaims(s: State, r: nat, asked: Asked, clock: nat, request: Id, certificate: Id)
    requires r !in s.runs
    requires !Young(s.db.claims, KeyOf(asked), clock) && forall k :: !YoungFor(s.db.claims, k, asked, clock)
    ensures var n := Stepped(s, r, asked, clock, request, certificate, 3);
      && n.runs == s.runs[r := Run(asked, clock, None, Holding)]
      && n.db == s.db.(claims := Pruned(s.db.claims, clock)[KeyOf(asked) := ClaimRow(asked.hash, Pending, clock)])
  {
    hide Pruned, Insertable, HasHash;
    NoYoungClaimIsFree(s.db.claims, asked, clock);
    AfterLookup(s, r, asked, clock, request, certificate);
  }

  /** Then it reserves. */
  lemma FreeRequestReserves(s: State, r: nat, asked: Asked, clock: nat, request: Id, certificate: Id)
    requires r !in s.runs
    requires !Young(s.db.claims, KeyOf(asked), clock) && forall k :: !YoungFor(s.db.claims, k, asked, clock)
    ensures var n := Stepped(s, r, asked, clock, request, certificate, 4);
      && n.runs == s.runs[r := Run(asked, clock, Some(s.db.nextSerial), Reserved)]
      && n.db == s.db.(claims := Pruned(s.db.claims, clock)[KeyOf(asked) := ClaimRow(asked.hash, Pending, clock)],
                       nextSerial := s.db.nextSerial + 1)
  {
    hide Pruned, Insertable, Young, YoungFor;
    FreeRequestClaims(s, r, asked, clock, request, certificate);
  }

  /** The commit of a run that holds its claim, and the step after a refusal. */
  lemma ReservedIsDecided(s: State, r: nat, request: Id, certificate: Id)
    requires r in s.runs && s.runs[r].phase.Reserved? && s.runs[r].serial.Some?
    requires request !in s.db.requests && certificate !in s.db.certificates
    requires Awaits(s.db.claims, s.runs[r].asked)
    ensures var n := Apply(s, Step(r, true, request, certificate));
      var run := s.runs[r];
      && r in n.runs && n.runs[r].serial == run.serial && n.db.nextSerial == s.db.nextSerial
      && (if MayIssue(s.db, run.asked.developer, run.asked.account) then
            && n.runs[r].phase == Issued(certificate)
            && n.db.requests == s.db.requests[request := RequestRow(run.asked, run.clock)]
            && n.db.certificates == s.db.certificates[
                 certificate := CertificateRow(request, run.asked.developer, run.serial.value, run.clock)]
            && n.db.claims == s.db.claims[
                 KeyOf(run.asked) := ClaimRow(run.asked.hash, Complete(certificate), run.clock)]
            && n.db.audits == s.db.audits + [certificate]
          else
            && n == WithPhase(s, r, Abandoning)
            && Apply(n, Step(r, true, request, certificate)).runs[r].phase == Ended(Refused)
            && Apply(n, Step(r, true, request, certificate)).db.claims == s.db.claims - {KeyOf(run.asked)})
  {
    hide Eligible, MayIssue;
    EligibleIsInGoodStanding(s.db, s.runs[r].asked.developer, s.runs[r].asked.account);
  }

  /** Then it issues to a member in good standing, and otherwise gives its claim back. */
  lemma FreeRequestIsDecided(s: State, r: nat, asked: Asked, clock: nat, request: Id, certificate: Id)
    requires r !in s.runs && request !in s.db.requests && certificate !in s.db.certificates
    requires !Young(s.db.claims, KeyOf(asked), clock)
    requires forall k :: !YoungFor(s.db.claims, k, asked, clock)
    ensures var n := Stepped(s, r, asked, clock, request, certificate, 5);
      var claims := Pruned(s.db.claims, clock);
      && r in n.runs && n.runs[r].serial == Some(s.db.nextSerial) && n.db.nextSerial == s.db.nextSerial + 1
      && (if MayIssue(s.db, asked.developer, asked.account) then
            && n.runs[r].phase == Issued(certificate)
            && n.db.requests == s.db.requests[request := RequestRow(asked, clock)]
            && n.db.certificates == s.db.certificates[
                 certificate := CertificateRow(request, asked.developer, s.db.nextSerial, clock)]
            && n.db.claims == claims[KeyOf(asked) := ClaimRow(asked.hash, Complete(certificate), clock)]
            && n.db.audits == s.db.audits + [certificate]
          else
            && n.runs[r].phase == Abandoning
            && n.db.requests == s.db.requests && n.db.certificates == s.db.certificates
            && Apply(n, Step(r, true, request, certificate)).runs[r].phase == Ended(Refused)
            && Apply(n, Step(r, true, request, certificate)).db.claims == claims)
  {
    hide Pruned, MayIssue, Apply;
    var claims := Pruned(s.db.claims, clock);
    PrunedRows(s.db.claims, clock);
    FreeRequestReserves(s, r, asked, clock, request, certificate);
    var s4 := Stepped(s, r, asked, clock, request, certificate, 4);
    ReservedIsDecided(s4, r, request, certificate);
    StandingIsSame(s.db, s4.db, asked.developer, asked.account);
    assert s4.db.claims - {KeyOf(asked)} == claims;
    assert s4.db.claims[KeyOf(asked) := ClaimRow(asked.hash, Complete(certificate), clock)]
        == claims[KeyOf(asked) := ClaimRow(asked.hash, Complete(certificate), clock)];
  }

  lemma StandingIsSame(t: Tables, u: Tables, developer: Id, account: Id)
    requires t.developers == u.developers && t.members == u.members
    ensures MayIssue(t, developer, account) <==> MayIssue(u, developer, account)
  {
  }

  /** From any reachable state, a request that nobody interrupts gets exactly one of these
      answers: a conflict, when its key has a young claim for another request; the
      certificate of a young completed claim, its own or another's for the same request; the
      word to wait for a young pending one; a new certificate, when no young claim stands in
      the way and the member is in good standing; and a refusal otherwise, which gives the
      claim back. */
  lemma RequestsAreAnsweredExactly(s: State, actions: seq<Action>, r: nat, asked: Asked, clock: nat,
                                   request: Id, certificate: Id)
    requires Initial(s) && r !in Play(s, actions).runs
    requires request !in Play(s, actions).db.requests && certificate !in Play(s, actions).db.certificates
    ensures var t := Play(s, actions).db;
      var n := Stepped(Play(s, actions), r, asked, clock, request, certificate, 5);
      var own := ClaimKey(asked.developer, asked.account, asked.key);
      && r in n.runs
      && (Young(t.claims, own, clock) ==>
            n.runs[r].phase == if t.claims[own].hash != asked.hash then Ended(Conflict) else Says(t.claims[own]))
      && (!Young(t.claims, own, clock) ==>
            && (forall k :: YoungFor(t.claims, k, asked, clock) ==> n.runs[r].phase == Says(t.claims[k]))
            && ((forall k :: !YoungFor(t.claims, k, asked, clock)) ==>
                  n.runs[r].phase == if MayIssue(t, asked.developer, asked.account) then Issued(certificate)
                                     else Abandoning))
  {
    hide Play, Initial, Invariant, Stepped, MayIssue, Says;
    InitialIsInvariant(s);
    EveryRunKeepsInvariant(s, actions);
    var p := Play(s, actions);
    if Young(p.db.claims, KeyOf(asked), clock) {
      OwnClaimAnswers(p, r, asked, clock, request, certificate);
    } else if k :| YoungFor(p.db.claims, k, asked, clock) {
      forall k | YoungFor(p.db.claims, k, asked, clock)
        ensures var n := Stepped(p, r, asked, clock, request, certificate, 5);
          r in n.runs && n.runs[r].phase == Says(p.db.claims[k])
      {
        OtherClaimAnswers(p, r, asked, clock, request, certificate, k);
      }
    } else {
      FreeRequestIsDecided(p, r, asked, clock, request, certificate);
    }
  }

  /** A retry of an issued request within 300 s is answered with its certificate. */
  lemma RetryGetsTheCertificate(s: State, actions: seq<Action>, r: nat, asked: Asked, clock: nat,
                                request: Id, certificate: Id, retry: nat, later: nat, request2: Id, certificate2: Id)
    requires Initial(s) && r !in Play(s, actions).runs && retry !in Play(s, actions).runs && retry != r
    requires request !in Play(s, actions).db.requests && certificate !in Play(s, actions).db.certificates
    requires var t := Play(s, actions).db;
      && !Young(t.claims, KeyOf(asked), clock) && (forall k :: !YoungFor(t.claims, k, asked, clock))
      && MayIssue(t, asked.developer, asked.account)
    requires later < clock + 300
    ensures var n := Stepped(Play(s, actions), r, asked, clock, request, certificate, 5);
      var m := Stepped(n, retry, asked, later, request2, certificate2, 5);
      retry in m.runs && m.runs[retry].phase == Answered(certificate) && m.db.certificates == n.db.certificates
  {
    hide Play, Initial, Invariant, Apply, MayIssue;
    InitialIsInvariant(s);
    EveryRunKeepsInvariant(s, actions);
    var p := Play(s, actions);
    FreeRequestIsDecided(p, r, asked, clock, request, certificate);
    SteppingKeepsInvariant(p, r, asked, clock, request, certificate, 5);
    SteppingKeepsOthers(p, r, asked, clock, request, certificate, 5, retry);
    OwnClaimAnswers(Stepped(p, r, asked, clock, request, certificate, 5), retry, asked, later, request2, certificate2);
  }

  lemma {:induction false} SteppingKeepsInvariant(s: State, r: nat, asked: Asked, clock: nat, request: Id,
                                                  certificate: Id, n: nat)
    requires Invariant(s)
    ensures Invariant(Stepped(s, r, asked, clock, request, certificate, n))
  {
    hide Invariant, Apply;
    if n == 0 {
      ApplyKeepsInvariant(s, Start(r, asked, clock));
    } else {
      SteppingKeepsInvariant(s, r, asked, clock, request, certificate, n - 1);
      ApplyKeepsInvariant(Stepped(s, r, asked, clock, request, certificate, n - 1),
                          Step(r, true, request, certificate));
    }
  }

  lemma {:induction false} SteppingKeepsOthers(s: State, r: nat, asked: Asked, clock: nat, request: Id,
                                               certificate: Id, n: nat, other: nat)
    requires other !in s.runs && other != r
    ensures other !in Stepped(s, r, asked, clock, request, certificate, n).runs
  {
    hide Apply;
    if n == 0 {
      StepAddsNoRun(s, Start(r, asked, clock), other);
    } else {
      SteppingKeepsOthers(s, r, asked, clock, request, certificate, n - 1, other);
      StepAddsNoRun(Stepped(s, r, asked, clock, request, certificate, n - 1),
                    Step(r, true, request, certificate), other);
    }
  }

  lemma StepAddsNoRun(s: State, action: Action, other: nat)
    requires other !in s.runs && (action.Start? ==> action.run != other)
    ensures other !in Apply(s, action).runs
  {
    hide FirstLookup, SecondLookup, Pruned, Inserted, Released, Insertable, Eligible, IssueBatch;
  }

  // ----- Numbers are handed out one after the other -----

  predicate Holds(s: State, r: nat, number: nat) {
    r in s.runs && s.runs[r].serial == Some(number)
  }

  ghost predicate Held(s: State, number: nat) {
    exists r :: Holds(s, r, number)
  }

  lemma ApplyHandsOutOne(s: State, action: Action)
    ensures var n := Apply(s, action);
      || n.db.nextSerial == s.db.nextSerial
      || (action.Step? && n.db.nextSerial == s.db.nextSerial + 1 && Holds(n, action.run, s.db.nextSerial))
  {
    hide FirstLookup, SecondLookup, Pruned, Inserted, Released, Insertable, Eligible;
  }

  lemma HolderStays(s: State, action: Action, r: nat, number: nat)
    requires Invariant(s) && Holds(s, r, number)
    ensures Holds(Apply(s, action), r, number)
  {
    hide Invariant, Apply, RunSound;
    InvariantParts(s);
    RunOf(s, r);
    ApplyKeepsSerial(s, action, r);
  }

  /** Every number from the seed up to the sequence was handed to some run: there are no gaps
      but those of runs that did not issue. */
  lemma {:induction false} SerialsAreConsecutive(s: State, actions: seq<Action>, number: nat)
    requires Initial(s)
    ensures s.db.nextSerial <= Play(s, actions).db.nextSerial
    ensures s.db.nextSerial <= number < Play(s, actions).db.nextSerial ==> Held(Play(s, actions), number)
  {
    hide Invariant, Apply, Initial, Holds;
    if actions != [] {
      var front, last := actions[..|actions| - 1], actions[|actions| - 1];
      SerialsAreConsecutive(s, front, number);
      InitialIsInvariant(s);
      EveryRunKeepsInvariant(s, front);
      ApplyHandsOutOne(Play(s, front), last);
      if s.db.nextSerial <= number < Play(s, front).db.nextSerial {
        var r :| Holds(Play(s, front), r, number);
        HolderStays(Play(s, front), last, r, number);
      }
    }
  }
}
