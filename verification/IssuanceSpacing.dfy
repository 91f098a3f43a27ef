/** Duplicate suppression: how far apart two certificates for one request are. The promise
    needs two assumptions on clocks, together `Timely`; without either of them it is
    false. */
module IssuanceSpacing {
  import opened Prelude
  import opened IssuanceStore
  import opened Issuance

  /** Between winning the claim and giving it up or issuing. */
  predicate InFlight(run: Run) {
    run.phase.Holding? || run.phase.Reserved? || run.phase.Abandoning?
  }

  /** Claims prune and insert with clocks that never go back. */
  ghost predicate InOrder(s: State, action: Action) {
    action.Step? && action.run in s.runs ==>
      var run := s.runs[action.run];
      run.phase.Begun? || run.phase.NotFound? ==> s.lastClaim <= run.clock
  }

  /** No claim prunes 300 s or more after the claim of a run that is still in flight. */
  ghost predicate NotOutlived(s: State, action: Action) {
    action.Step? && action.run in s.runs && s.runs[action.run].phase.Begun? ==>
      forall other :: other in s.runs && InFlight(s.runs[other]) ==>
        s.runs[action.run].clock < s.runs[other].clock + CLAIM_SECONDS
  }

  ghost predicate ClaimsInOrder(s: State, actions: seq<Action>) {
    forall i :: 0 <= i < |actions| ==> InOrder(Play(s, actions[..i]), actions[i])
  }

  ghost predicate NoClaimOutlived(s: State, actions: seq<Action>) {
    forall i :: 0 <= i < |actions| ==> NotOutlived(Play(s, actions[..i]), actions[i])
  }

  ghost predicate Timely(s: State, actions: seq<Action>) {
    ClaimsInOrder(s, actions) && NoClaimOutlived(s, actions)
  }

  // ----- What timely histories keep -----

  /** Every run in flight owns its claim: the row is there, pending, with the run's clock. */
  ghost predicate OwnersHold(s: State) {
    forall id :: id in s.runs && InFlight(s.runs[id]) ==>
      && KeyOf(s.runs[id].asked) in s.db.claims
      && s.db.claims[KeyOf(s.runs[id].asked)] == ClaimRow(s.runs[id].asked.hash, Pending, s.runs[id].clock)
      && s.runs[id].clock <= s.lastClaim
  }

  ghost predicate OwnersApart(s: State) {
    forall a, b :: a in s.runs && b in s.runs && a != b && InFlight(s.runs[a]) && InFlight(s.runs[b]) ==>
      KeyOf(s.runs[a].asked) != KeyOf(s.runs[b].asked)
  }

  /** A run in flight claimed 300 s or more after every certificate for its request. */
  ghost predicate OwnersWaited(s: State) {
    forall id, c :: id in s.runs && InFlight(s.runs[id]) && c in s.db.certificates ==>
      (AnswersTo(s.db, c, s.runs[id].asked.developer, s.runs[id].asked.hash) ==>
         s.db.certificates[c].notBefore + CLAIM_SECONDS <= s.runs[id].clock)
  }

  ghost predicate RowSince(claims: map<ClaimKey, ClaimRow>, developer: Id, hash: Text, since: nat) {
    exists k :: k in claims && Matches(claims, k, developer, hash) && since <= claims[k].updatedAt
  }

  /** A certificate is shielded by a claim row of its request until 300 s have passed. */
  ghost predicate Shielded(s: State) {
    forall c, developer, hash :: AnswersTo(s.db, c, developer, hash) ==>
      || s.db.certificates[c].notBefore + CLAIM_SECONDS <= s.lastClaim
      || RowSince(s.db.claims, developer, hash, s.db.certificates[c].notBefore)
  }

  ghost predicate Spaced(t: Tables) {
    forall c, d, developer, hash ::
      (c != d && AnswersTo(t, c, developer, hash) && AnswersTo(t, d, developer, hash)) ==>
      || t.certificates[c].notBefore + CLAIM_SECONDS <= t.certificates[d].notBefore
      || t.certificates[d].notBefore + CLAIM_SECONDS <= t.certificates[c].notBefore
  }

  ghost predicate Timed(s: State) {
    OwnersHold(s) && OwnersApart(s) && OwnersWaited(s) && Shielded(s) && Spaced(s.db)
  }

  /** Steps that leave claims and certificates alone and let no run take off. */
  lemma CalmStepKeeps(s: State, n: State)
    requires Timed(s)
    requires n.db.claims == s.db.claims && n.db.requests == s.db.requests && n.db.certificates == s.db.certificates
    requires n.lastClaim == s.lastClaim
    requires forall id :: id in n.runs && InFlight(n.runs[id]) ==>
      && id in s.runs && InFlight(s.runs[id])
      && n.runs[id].asked == s.runs[id].asked && n.runs[id].clock == s.runs[id].clock
    ensures Timed(n)
  {
    hide InFlight, RowSince;
    SameAnswers(s.db, n.db);
  }

  lemma SameAnswers(t: Tables, u: Tables)
    requires u.requests == t.requests && u.certificates == t.certificates
    ensures forall c, developer, hash :: AnswersTo(u, c, developer, hash) <==> AnswersTo(t, c, developer, hash)
  {
  }

  // ----- Pruning -----

  lemma PruneKeepsOwners(s: State, id: nat)
    requires OwnersHold(s) && OwnersApart(s) && OwnersWaited(s) && id in s.runs && s.runs[id].phase.Begun?
    requires forall other :: other in s.runs && InFlight(s.runs[other]) ==>
      s.runs[id].clock < s.runs[other].clock + CLAIM_SECONDS
    ensures var n := PruneStep(s, id); OwnersHold(n) && OwnersApart(n) && OwnersWaited(n)
  {
  }

  lemma PruneKeepsShields(s: State, id: nat)
    requires Shielded(s) && id in s.runs
    ensures Shielded(PruneStep(s, id))
  {
    var n := PruneStep(s, id);
    SameAnswers(s.db, n.db);
    hide AnswersTo;
    forall c, developer, hash | AnswersTo(n.db, c, developer, hash)
      ensures n.db.certificates[c].notBefore + CLAIM_SECONDS <= n.lastClaim
        || RowSince(n.db.claims, developer, hash, n.db.certificates[c].notBefore)
    {
      var since := s.db.certificates[c].notBefore;
      if since + CLAIM_SECONDS > s.lastClaim {
        var k :| k in s.db.claims && Matches(s.db.claims, k, developer, hash) && since <= s.db.claims[k].updatedAt;
        if k in n.db.claims {
          assert Matches(n.db.claims, k, developer, hash);
        }
      }
    }
  }

  lemma PruneKeepsTimed(s: State, id: nat)
    requires Timed(s) && id in s.runs && s.runs[id].phase.Begun?
    requires forall other :: other in s.runs && InFlight(s.runs[other]) ==>
      s.runs[id].clock < s.runs[other].clock + CLAIM_SECONDS
    ensures Timed(PruneStep(s, id))
  {
    PruneKeepsOwners(s, id);
    PruneKeepsShields(s, id);
    SameAnswers(s.db, PruneStep(s, id).db);
    hide AnswersTo, OwnersHold, OwnersApart, OwnersWaited, Shielded;
  }

  // ----- Inserting -----

  lemma InsertKeepsOwners(s: State, id: nat)
    requires Timed(s) && id in s.runs && s.runs[id].phase.NotFound? && s.lastClaim <= s.runs[id].clock
    ensures var n := InsertStep(s, id); OwnersHold(n) && OwnersApart(n)
  {
    hide AnswersTo, OwnersWaited, Shielded, Spaced, HasHash;
  }

  lemma WinnerWaited(s: State, id: nat, c: Id)
    requires Shielded(s) && id in s.runs && Insertable(s.db.claims, s.runs[id].asked)
    requires s.lastClaim <= s.runs[id].clock
    requires AnswersTo(s.db, c, s.runs[id].asked.developer, s.runs[id].asked.hash)
    ensures s.db.certificates[c].notBefore + CLAIM_SECONDS <= s.runs[id].clock
  {
  }

  lemma InsertKeepsWaited(s: State, id: nat)
    requires Timed(s) && id in s.runs && s.runs[id].phase.NotFound? && s.lastClaim <= s.runs[id].clock
    ensures OwnersWaited(InsertStep(s, id))
  {
    var n := InsertStep(s, id);
    SameAnswers(s.db, n.db);
    hide AnswersTo, Insertable, Inserted, OwnersHold, OwnersApart, Shielded, Spaced;
    forall other, c | other in n.runs && InFlight(n.runs[other]) && c in n.db.certificates
        && AnswersTo(n.db, c, n.runs[other].asked.developer, n.runs[other].asked.hash)
      ensures n.db.certificates[c].notBefore + CLAIM_SECONDS <= n.runs[other].clock
    {
      if other == id {
        WinnerWaited(s, id, c);
      }
    }
  }

  lemma InsertKeepsShields(s: State, id: nat)
    requires Shielded(s) && id in s.runs
    ensures Shielded(InsertStep(s, id))
  {
    var n := InsertStep(s, id);
    SameAnswers(s.db, n.db);
    hide AnswersTo, HasHash;
    forall c, developer, hash | AnswersTo(n.db, c, developer, hash)
      ensures n.db.certificates[c].notBefore + CLAIM_SECONDS <= n.lastClaim
        || RowSince(n.db.claims, developer, hash, n.db.certificates[c].notBefore)
    {
      var since := s.db.certificates[c].notBefore;
      if since + CLAIM_SECONDS > s.lastClaim {
        var k :| k in s.db.claims && Matches(s.db.claims, k, developer, hash) && since <= s.db.claims[k].updatedAt;
        assert Matches(n.db.claims, k, developer, hash);
      }
    }
  }

  lemma InsertKeepsTimed(s: State, id: nat)
    requires Timed(s) && id in s.runs && s.runs[id].phase.NotFound? && s.lastClaim <= s.runs[id].clock
    ensures Timed(InsertStep(s, id))
  {
    InsertKeepsOwners(s, id);
    InsertKeepsWaited(s, id);
    InsertKeepsShields(s, id);
    SameAnswers(s.db, InsertStep(s, id).db);
    hide AnswersTo, OwnersHold, OwnersApart, OwnersWaited, Shielded;
  }

  // ----- Giving a claim up -----

  lemma AbandonKeepsOwners(s: State, id: nat)
    requires Timed(s) && id in s.runs && s.runs[id].phase.Abandoning?
    ensures var n := AbandonStep(s, id); OwnersHold(n) && OwnersApart(n) && OwnersWaited(n) && Spaced(n.db)
  {
    SameAnswers(s.db, AbandonStep(s, id).db);
    hide AnswersTo, Shielded;
  }

  lemma AbandonKeepsShields(s: State, id: nat)
    requires Timed(s) && id in s.runs && s.runs[id].phase.Abandoning?
    ensures Shielded(AbandonStep(s, id))
  {
    var n, run := AbandonStep(s, id), s.runs[id];
    SameAnswers(s.db, n.db);
    hide OwnersApart, Spaced, AnswersTo;
    forall c, developer, hash | AnswersTo(n.db, c, developer, hash)
      ensures n.db.certificates[c].notBefore + CLAIM_SECONDS <= n.lastClaim
        || RowSince(n.db.claims, developer, hash, n.db.certificates[c].notBefore)
    {
      var since := s.db.certificates[c].notBefore;
      AnsweredExists(n.db, c, developer, hash);
      if since + CLAIM_SECONDS > s.lastClaim {
        var k :| k in s.db.claims && Matches(s.db.claims, k, developer, hash) && since <= s.db.claims[k].updatedAt;
        if k in n.db.claims {
          assert Matches(n.db.claims, k, developer, hash);
        }
      }
    }
  }

  lemma AnsweredExists(t: Tables, c: Id, developer: Id, hash: Text)
    requires AnswersTo(t, c, developer, hash)
    ensures c in t.certificates
  {
  }

  // ----- Issuing -----

  /** The certificate that a commit writes answers exactly its own run's request. */
  lemma NewAnswers(t: Tables, u: Tables, asked: Asked, request: Id, certificate: Id, serial: nat, now: nat)
    requires Ledger(t.requests, t.certificates, t.audits)
    requires Eligible(t, asked.developer, asked.account) && request !in t.requests && certificate !in t.certificates
    requires u == IssueBatch(t, asked, request, certificate, serial, now)
    ensures forall c, developer, hash :: AnswersTo(u, c, developer, hash) <==>
      AnswersTo(t, c, developer, hash) || (c == certificate && developer == asked.developer && hash == asked.hash)
    ensures u.certificates[certificate].notBefore == now
    ensures forall c :: c in t.certificates ==> c in u.certificates && u.certificates[c] == t.certificates[c]
    ensures forall c, developer, hash :: AnswersTo(t, c, developer, hash) ==> c in t.certificates
    ensures u.claims == Completion(t.claims, asked, certificate, now)
  {
  }

  lemma CommitKeepsOwners(s: State, id: nat, request: Id, certificate: Id)
    requires Timed(s) && Invariant(s) && id in s.runs && s.runs[id].phase.Reserved?
    requires CommitStep(s, id, request, certificate) != s
    requires Eligible(s.db, s.runs[id].asked.developer, s.runs[id].asked.account)
    ensures var n := CommitStep(s, id, request, certificate); OwnersHold(n) && OwnersApart(n)
  {
    hide AnswersTo, Shielded, Spaced, OwnersWaited, Invariant, Eligible;
  }

  /** No other run in flight asks for the same thing: the index admits one row. */
  lemma OneOwnerOfARequest(s: State, a: nat, b: nat)
    requires OwnersHold(s) && OwnersApart(s) && ClaimsUnique(s.db.claims)
    requires a in s.runs && b in s.runs && a != b && InFlight(s.runs[a]) && InFlight(s.runs[b])
    ensures s.runs[a].asked.developer != s.runs[b].asked.developer || s.runs[a].asked.hash != s.runs[b].asked.hash
  {
  }

  lemma CommitKeepsWaited(s: State, id: nat, request: Id, certificate: Id)
    requires Timed(s) && Invariant(s) && id in s.runs && s.runs[id].phase.Reserved?
    requires CommitStep(s, id, request, certificate) != s
    requires Eligible(s.db, s.runs[id].asked.developer, s.runs[id].asked.account)
    ensures OwnersWaited(CommitStep(s, id, request, certificate))
  {
    var n, run := CommitStep(s, id, request, certificate), s.runs[id];
    NewAnswers(s.db, n.db, run.asked, request, certificate, run.serial.value, run.clock);
    hide AnswersTo, Shielded, Spaced, Eligible, IssueBatch, RunsSound;
    forall other, c | other in n.runs && InFlight(n.runs[other]) && c in n.db.certificates
        && AnswersTo(n.db, c, n.runs[other].asked.developer, n.runs[other].asked.hash)
      ensures n.db.certificates[c].notBefore + CLAIM_SECONDS <= n.runs[other].clock
    {
      OneOwnerOfARequest(s, other, id);
    }
  }

  /** Completing a claim keeps the shield of every request, and gives the run's own one. */
  lemma CompletionShields(claims: map<ClaimKey, ClaimRow>, asked: Asked, certificate: Id, now: nat)
    requires KeyOf(asked) in claims && claims[KeyOf(asked)] == ClaimRow(asked.hash, Pending, now)
    ensures RowSince(Completion(claims, asked, certificate, now), asked.developer, asked.hash, now)
    ensures forall developer, hash, since: nat :: RowSince(claims, developer, hash, since) ==>
      RowSince(Completion(claims, asked, certificate, now), developer, hash, since)
  {
    var after := Completion(claims, asked, certificate, now);
    assert Matches(after, KeyOf(asked), asked.developer, asked.hash);
    forall developer, hash, since: nat | RowSince(claims, developer, hash, since)
      ensures RowSince(after, developer, hash, since)
    {
      var k :| k in claims && Matches(claims, k, developer, hash) && since <= claims[k].updatedAt;
      assert Matches(after, k, developer, hash) && since <= after[k].updatedAt;
    }
  }

  lemma OwnedRow(s: State, id: nat)
    requires OwnersHold(s) && id in s.runs && InFlight(s.runs[id])
    ensures KeyOf(s.runs[id].asked) in s.db.claims
    ensures s.db.claims[KeyOf(s.runs[id].asked)] == ClaimRow(s.runs[id].asked.hash, Pending, s.runs[id].clock)
  {
  }

  lemma CommitKeepsShields(s: State, id: nat, request: Id, certificate: Id)
    requires Timed(s) && Invariant(s) && id in s.runs && s.runs[id].phase.Reserved?
    requires CommitStep(s, id, request, certificate) != s
    requires Eligible(s.db, s.runs[id].asked.developer, s.runs[id].asked.account)
    ensures Shielded(CommitStep(s, id, request, certificate))
  {
    hide AnswersTo, OwnersHold, OwnersWaited, OwnersApart, Spaced, Eligible, IssueBatch, RunsSound, SerialsApart,
      RowSince, Completion;
    var n, run := CommitStep(s, id, request, certificate), s.runs[id];
    NewAnswers(s.db, n.db, run.asked, request, certificate, run.serial.value, run.clock);
    OwnedRow(s, id);
    CompletionShields(s.db.claims, run.asked, certificate, run.clock);
  }

  lemma CommitKeepsSpaced(s: State, id: nat, request: Id, certificate: Id)
    requires Timed(s) && Invariant(s) && id in s.runs && s.runs[id].phase.Reserved?
    requires CommitStep(s, id, request, certificate) != s
    requires Eligible(s.db, s.runs[id].asked.developer, s.runs[id].asked.account)
    ensures Spaced(CommitStep(s, id, request, certificate).db)
  {
    hide AnswersTo, OwnersHold, OwnersApart, Shielded, Eligible, IssueBatch, RunsSound, SerialsApart, Completion,
      ClaimsAnswered, ClaimsUnique, SerialsUsed;
    var n, run := CommitStep(s, id, request, certificate), s.runs[id];
    NewAnswers(s.db, n.db, run.asked, request, certificate, run.serial.value, run.clock);
  }

  lemma CommitKeepsTimed(s: State, id: nat, request: Id, certificate: Id)
    requires Timed(s) && Invariant(s) && id in s.runs && s.runs[id].phase.Reserved?
    ensures Timed(CommitStep(s, id, request, certificate))
  {
    hide AnswersTo, OwnersHold, OwnersApart, OwnersWaited, Shielded, Spaced, Timed, Invariant, Eligible;
    if CommitStep(s, id, request, certificate) != s {
      if Eligible(s.db, s.runs[id].asked.developer, s.runs[id].asked.account) {
        CommitKeepsOwners(s, id, request, certificate);
        CommitKeepsWaited(s, id, request, certificate);
        CommitKeepsShields(s, id, request, certificate);
        CommitKeepsSpaced(s, id, request, certificate);
        TimedFromParts(CommitStep(s, id, request, certificate));
      } else {
        CalmStepKeeps(s, CommitStep(s, id, request, certificate));
      }
    }
  }

  lemma TimedFromParts(s: State)
    requires OwnersHold(s) && OwnersApart(s) && OwnersWaited(s) && Shielded(s) && Spaced(s.db)
    ensures Timed(s)
  {
  }

  // ----- Every timely history -----

  predicate TouchesClaims(phase: Phase, proceed: bool) {
    phase.Begun? || phase.NotFound? || phase.Abandoning? || (phase.Reserved? && proceed)
  }

  lemma CalmApplyKeeps(s: State, action: Action)
    requires Timed(s)
    requires action.Step? && action.run in s.runs ==> !TouchesClaims(s.runs[action.run].phase, action.proceed)
    ensures Timed(Apply(s, action))
  {
    hide Timed, FirstLookup, SecondLookup;
    LookupsEndGrounded(s, action);
    CalmStepKeeps(s, Apply(s, action));
  }

  lemma LookupsEndGrounded(s: State, action: Action)
    ensures action.Step? && action.run in s.runs ==>
      var run := s.runs[action.run];
      && !InFlight(run.(phase := FirstLookup(s.db, run.asked)))
      && !InFlight(run.(phase := SecondLookup(s.db, run.asked)))
  {
  }

  lemma ApplyKeepsTimed(s: State, action: Action)
    requires Timed(s) && Invariant(s) && InOrder(s, action) && NotOutlived(s, action)
    ensures Timed(Apply(s, action))
  {
    hide Timed, Invariant;
    if action.Step? && action.run in s.runs && TouchesClaims(s.runs[action.run].phase, action.proceed) {
      var id := action.run;
      match s.runs[id].phase
      case Begun => PruneKeepsTimed(s, id);
      case NotFound => InsertKeepsTimed(s, id);
      case Reserved => CommitKeepsTimed(s, id, action.request, action.certificate);
      case Abandoning =>
        AbandonKeepsOwners(s, id);
        AbandonKeepsShields(s, id);
        TimedFromParts(AbandonStep(s, id));
    } else {
      CalmApplyKeeps(s, action);
    }
  }

  lemma InitialIsTimed(s: State)
    requires Initial(s)
    ensures Timed(s)
  {
  }

  lemma {:induction false} TimelyHistoriesStayTimed(s: State, actions: seq<Action>)
    requires Initial(s) && Timely(s, actions)
    ensures Timed(Play(s, actions)) && Invariant(Play(s, actions))
  {
    hide Timed, Invariant, Apply, InOrder, NotOutlived, Initial;
    InitialIsTimed(s);
    InitialIsInvariant(s);
    if actions != [] {
      var front := actions[..|actions| - 1];
      forall i | 0 <= i < |front|
        ensures InOrder(Play(s, front[..i]), front[i]) && NotOutlived(Play(s, front[..i]), front[i])
      {
        assert front[..i] == actions[..i];
      }
      TimelyHistoriesStayTimed(s, front);
      ApplyKeepsTimed(Play(s, front), actions[|actions| - 1]);
      ApplyKeepsInvariant(Play(s, front), actions[|actions| - 1]);
    }
  }

  /** Whatever keys, accounts, crashes and abandoned claims occur, two certificates of one
      developer for one request hash start 300 s apart or more. */
  lemma DuplicatesAreSpaced(s: State, actions: seq<Action>, c: Id, d: Id, hash: Text)
    requires Initial(s) && Timely(s, actions)
    requires c in Play(s, actions).db.certificates && d in Play(s, actions).db.certificates && c != d
    requires Play(s, actions).db.certificates[c].developer == Play(s, actions).db.certificates[d].developer
    requires AnswersTo(Play(s, actions).db, c, Play(s, actions).db.certificates[c].developer, hash)
    requires AnswersTo(Play(s, actions).db, d, Play(s, actions).db.certificates[c].developer, hash)
    ensures var t := Play(s, actions).db;
      || t.certificates[c].notBefore + 300 <= t.certificates[d].notBefore
      || t.certificates[d].notBefore + 300 <= t.certificates[c].notBefore
  {
    TimelyHistoriesStayTimed(s, actions);
  }
}
