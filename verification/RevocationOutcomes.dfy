/** What each run of RevocationPublication leaves in the tables: the dates of the published
    lists, the rows that revocations write, and the statuses that runs bring about. */
module RevocationOutcomes {
  import opened Prelude
  import opened Cryptography
  import opened Sorting
  import opened TrustMaterial
  import opened RevocationMaterial
  import opened RevocationMessage
  import opened RevocationStore
  import opened RevocationPublication

  // ----- No list is dated ahead of the clocks -----

  ghost predicate ContentsDatedBy(t: Tables, now: nat) {
    forall v :: v in t.snapshots ==> t.snapshots[v].content.generatedAt <= now
  }

  ghost predicate RunDatedBy(run: Run, now: nat) {
    && run.clock <= now
    && (run.phase.HasCurrent? && run.phase.current.Some? ==> run.phase.current.value.generatedAt <= now)
    && (run.phase.Built? ==> run.phase.content.generatedAt <= now)
  }

  ghost predicate DatedBy(s: State, now: nat) {
    ContentsDatedBy(s.db, now) && forall id :: id in s.runs ==> RunDatedBy(s.runs[id], now)
  }

  ghost predicate StartsBy(actions: seq<Action>, now: nat) {
    forall i :: 0 <= i < |actions| && actions[i].Start? ==> actions[i].clock <= now
  }

  lemma BuildIsDated(t: Tables, run: Run, current: Option<RevocationContent>, key: Text, now: nat)
    requires run.clock <= now && (current.Some? ==> current.value.generatedAt <= now)
    ensures RunDatedBy(run.(phase := Build(t, run, current, key)), now)
  {
    hide RevocationSuccessor, Signable, CumulativeList;
  }

  lemma CurrentIsDated(t: Tables, now: nat)
    requires ContentsDatedBy(t, now)
    ensures CurrentContent(t).Some? ==> CurrentContent(t).value.generatedAt <= now
  {
  }

  lemma PublishIsDated(t: Tables, run: Run, content: RevocationContent, now: nat)
    requires ContentsDatedBy(t, now) && content.generatedAt <= now && Publish(t, run, content).Some?
    ensures ContentsDatedBy(Publish(t, run, content).value, now)
  {
  }

  lemma StepKeepsDated(s: State, id: nat, key: Text, now: nat)
    requires DatedBy(s, now) && id in s.runs
    ensures DatedBy(StepRun(s, id, key), now)
  {
    hide ContentsDatedBy, Build, Publish, CurrentContent, NeedsRefresh;
    var run := s.runs[id];
    CurrentIsDated(s.db, now);
    match run.phase
    case Admitted => SuspendingKeepsDated(s.db, run, now);
    case HasCurrent(current) => BuildIsDated(s.db, run, current, key, now);
    case Built(content) =>
      if Publish(s.db, run, content).Some? {
        PublishIsDated(s.db, run, content, now);
      }
    case _ =>
  }

  lemma SuspendingKeepsDated(t: Tables, run: Run, now: nat)
    requires ContentsDatedBy(t, now)
    ensures run.kind.Suspension? ==>
      ContentsDatedBy(SuspensionBatch(t, run.kind.certificate, run.kind.suspend), now)
  {
  }

  lemma ApplyKeepsDated(s: State, action: Action, now: nat)
    requires DatedBy(s, now) && (action.Start? ==> action.clock <= now)
    ensures DatedBy(Apply(s, action), now)
  {
    hide StepRun;
    if action.Step? && action.run in s.runs {
      StepKeepsDated(s, action.run, action.issuerKeyId, now);
    }
  }

  lemma {:induction false} EveryRunKeepsDated(s: State, actions: seq<Action>, now: nat)
    requires DatedBy(s, now) && StartsBy(actions, now)
    ensures DatedBy(Play(s, actions), now)
  {
    hide Apply, DatedBy;
    if actions != [] {
      EveryRunKeepsDated(s, actions[..|actions| - 1], now);
      ApplyKeepsDated(Play(s, actions[..|actions| - 1]), actions[|actions| - 1], now);
    }
  }

  /** Every stored list is dated no later than the clock of some run or of some list stored
      before; so from its commit until its expiry its signature verifies. */
  lemma PublishedVerifiesAtOnce(c: Primitives, seed: Bytes, s: State, actions: seq<Action>, now: nat, v: nat, at: nat)
    requires Initial(s) && ContentsDatedBy(s.db, now) && StartsBy(actions, now)
    requires v in Play(s, actions).db.snapshots
    ensures Play(s, actions).db.snapshots[v].content.generatedAt <= now
    ensures var content := Play(s, actions).db.snapshots[v].content;
      c.Lawful() && RevocationWidths(content) && content.issuerKeyId == c.keyId(c.publicKey(seed)) && now <= at ==>
        (RevocationsVerify(c, RevocationSnapshot(content, c.base64(c.sign(seed, EncodeRevocations(content)))),
                           c.publicKey(seed), at)
         <==> at < content.generatedAt + 3_600)
  {
    hide Apply, Play, Initial, Numbered, RevocationsVerify, Signable, c.Lawful, RevocationWidths, EncodeRevocations;
    InitialIsInvariant(s);
    InitialHasNoRuns(s);
    EveryRunKeepsInvariant(s, actions);
    EveryRunKeepsDated(s, actions, now);
    InvariantHasChain(Play(s, actions));
    var content := Play(s, actions).db.snapshots[v].content;
    StoredIsSignable(Play(s, actions).db, v);
    if c.Lawful() && RevocationWidths(content) && content.issuerKeyId == c.keyId(c.publicKey(seed)) {
      IssuedRevocationsBindContent(c, seed, content, content, at);
    }
  }

  lemma InitialHasNoRuns(s: State)
    requires Initial(s)
    ensures s.runs == map[]
  {
  }

  // ----- What one commit publishes -----

  /** A content that can still commit is dated by its run's clock, or by the current list if
      that one is later. */
  ghost predicate BuiltOn(t: Tables, run: Run, content: RevocationContent) {
    content.snapshotVersion == Latest(t) + 1 ==>
      && content.formatVersion == 1 && content.signatureAlgorithm == Ascii("ed25519")
      && content.generatedAt == if Latest(t) in t.snapshots && t.snapshots[Latest(t)].content.generatedAt > run.clock
                                then t.snapshots[Latest(t)].content.generatedAt else run.clock
  }

  ghost predicate AllBuiltOn(s: State) {
    forall id :: id in s.runs && s.runs[id].phase.Built? ==> BuiltOn(s.db, s.runs[id], s.runs[id].phase.content)
  }

  lemma GrowthKeepsBuiltOn(t: Tables, u: Tables, run: Run, content: RevocationContent)
    requires Numbered(t) && Numbered(u) && Grows(t, u) && BuiltWell(t, run, content) && BuiltOn(t, run, content)
    ensures BuiltOn(u, run, content)
  {
    hide RevocationSuccessor, Signable, CumulativeList;
  }

  lemma BuildIsBuiltOn(t: Tables, run: Run, current: Option<RevocationContent>, key: Text)
    requires Numbered(t) && run.phase == HasCurrent(current) && RunConsistent(t, run)
    requires Build(t, run, current, key).Built?
    ensures BuiltOn(t, run, Build(t, run, current, key).content)
  {
    hide RevocationSuccessor, Signable, CumulativeList;
  }

  lemma BuiltRunIsWell(s: State, id: nat)
    requires Invariant(s) && id in s.runs && s.runs[id].phase.Built?
    ensures BuiltWell(s.db, s.runs[id], s.runs[id].phase.content)
  {
    hide Consistent, BuiltWell;
    assert RunConsistent(s.db, s.runs[id]);
  }

  lemma StepBuildsFrom(s: State, id: nat, key: Text)
    requires Invariant(s) && id in s.runs && StepRun(s, id, key).runs[id].phase.Built?
    ensures s.runs[id].phase.HasCurrent?
    ensures StepRun(s, id, key)
         == s.(runs := s.runs[id := s.runs[id].(phase := Build(s.db, s.runs[id], s.runs[id].phase.current, key))])
    ensures RunConsistent(s.db, s.runs[id]) && Numbered(s.db)
  {
    hide Build, Publish, SuspensionBatch, CurrentContent, Numbered, Chained, ListsTable, BuiltWell;
    assert RunConsistent(s.db, s.runs[id]);
    ConsistentParts(s.db);
  }

  /** A run that an action leaves with a built content has just built it or had it before. */
  lemma ApplyBuilds(s: State, action: Action, id: nat)
    requires id in Apply(s, action).runs && Apply(s, action).runs[id].phase.Built?
    ensures id in s.runs && (Apply(s, action).runs[id] == s.runs[id] || (action.Step? && action.run == id))
  {
    hide Build, Publish, SuspensionBatch, CurrentContent, Admit;
  }

  lemma ApplyKeepsBuiltOn(s: State, action: Action)
    requires Invariant(s) && AllBuiltOn(s)
    ensures AllBuiltOn(Apply(s, action))
  {
    hide Invariant, StepRun, Grows, BuiltOn, BuiltWell;
    var n := Apply(s, action);
    ApplyKeepsInvariant(s, action);
    InvariantHasChain(s);
    InvariantHasChain(n);
    forall id | id in n.runs && n.runs[id].phase.Built? ensures BuiltOn(n.db, n.runs[id], n.runs[id].phase.content) {
      ApplyBuilds(s, action, id);
      if n.runs[id] == s.runs[id] {
        BuiltRunIsWell(s, id);
        GrowthKeepsBuiltOn(s.db, n.db, s.runs[id], s.runs[id].phase.content);
      } else {
        StepBuildsFrom(s, id, action.issuerKeyId);
        BuildIsBuiltOn(s.db, s.runs[id], s.runs[id].phase.current, action.issuerKeyId);
        PhaseIsNoPart(s.db, s.runs[id], n.runs[id].phase);
      }
    }
  }

  lemma PhaseIsNoPart(t: Tables, run: Run, phase: Phase)
    requires phase.Built? && BuiltOn(t, run, phase.content)
    ensures BuiltOn(t, run.(phase := phase), phase.content)
  {
  }

  lemma {:induction false} EveryRunKeepsBuiltOn(s: State, actions: seq<Action>)
    requires Initial(s)
    ensures Invariant(Play(s, actions)) && AllBuiltOn(Play(s, actions))
  {
    hide Invariant, Apply, AllBuiltOn;
    InitialIsInvariant(s);
    EveryRunKeepsInvariant(s, actions);
    if actions == [] {
      InitialBuildsNothing(s);
    } else {
      EveryRunKeepsBuiltOn(s, actions[..|actions| - 1]);
      ApplyKeepsBuiltOn(Play(s, actions[..|actions| - 1]), actions[|actions| - 1]);
    }
  }

  lemma InitialBuildsNothing(s: State)
    requires Initial(s)
    ensures AllBuiltOn(s)
  {
  }

  /** The row that a revocation writes: the certificate's own serial, the run's clock, and the
      reason that was asked for. */
  function RowOf(t: Tables, kind: Kind, clock: nat): RevocationRow
    requires kind.Revoke? && kind.certificate in t.certificates
  {
    RevocationRow(kind.certificate, RevocationEntry(t.certificates[kind.certificate].serial, clock, kind.reason))
  }

  /** One version more, listing the table with the run's own row, and nobody else's status
      touched. */
  ghost predicate PublishesFor(t: Tables, u: Tables, run: Run) {
    var v := |t.snapshots| + 1;
    && |u.snapshots| == v && v in u.snapshots
    && (forall w :: w in t.snapshots ==> w in u.snapshots && u.snapshots[w].content == t.snapshots[w].content)
    && u.snapshots[v].content == RevocationContent(
         1, v,
         if v - 1 in t.snapshots && t.snapshots[v - 1].content.generatedAt > run.clock
           then t.snapshots[v - 1].content.generatedAt else run.clock,
         u.snapshots[v].content.generatedAt + 3_600,
         u.snapshots[v].content.issuerKeyId, Listing(u.revocations), Ascii("ed25519"))
    && (if run.kind.Revoke? then
          && run.kind.certificate in t.certificates
          && u.revocations == t.revocations + [RowOf(t, run.kind, run.clock)]
          && StatusOf(u, run.kind.certificate) == Some(PermanentlyRevoked)
        else u.revocations == t.revocations)
    && (forall id :: !(run.kind.Revoke? && id == run.kind.certificate) ==> StatusOf(u, id) == StatusOf(t, id))
  }

  lemma PublishWrites(t: Tables, run: Run, content: RevocationContent)
    requires Numbered(t) && content.snapshotVersion == Latest(t) + 1 && Publish(t, run, content).Some?
    requires run.kind.Revoke? ==> run.kind.certificate in t.certificates && !HasRow(t.revocations, run.kind.certificate)
    ensures var u := Publish(t, run, content).value;
      && AddsVersion(t, u, content)
      && (if run.kind.Revoke? then
            && u.revocations == t.revocations + [RowOf(t, run.kind, run.clock)]
            && StatusOf(u, run.kind.certificate) == Some(PermanentlyRevoked)
          else u.revocations == t.revocations)
      && (forall id :: !(run.kind.Revoke? && id == run.kind.certificate) ==> StatusOf(u, id) == StatusOf(t, id))
  {
    hide AddsVersion, Numbered, Demoted;
    SaveNumbers(t, content);
    if run.kind.Revoke? {
      RevokeNumbers(t, run.kind.certificate, run.kind.reason, run.clock, content);
    }
  }

  lemma RevokedSubjectIsNew(s: State, id: nat)
    requires Invariant(s) && id in s.runs && s.runs[id].phase.Built? && s.runs[id].kind.Revoke?
    requires s.runs[id].phase.content.snapshotVersion == Latest(s.db) + 1
    ensures s.runs[id].kind.certificate in s.db.certificates
    ensures !HasRow(s.db.revocations, s.runs[id].kind.certificate)
  {
    hide Numbered, Chained, ListsTable, CumulativeList, CertificatesConsistent, RowsConsistent;
    var run := s.runs[id];
    assert RunConsistent(s.db, run);
    AcceptedSerialHasNoRow(s.db, run.kind.certificate, Additional(run).value);
  }

  /** Whatever was committed in between, the batch of a run that commits publishes exactly
      what the run was asked for. */
  lemma CommitPublishes(s: State, actions: seq<Action>, id: nat, key: Text)
    requires Initial(s) && id in Play(s, actions).runs && Play(s, actions).runs[id].phase.Built?
    ensures var before, after := Play(s, actions), Apply(Play(s, actions), Step(id, key));
      after.runs[id].phase == Finished ==> PublishesFor(before.db, after.db, before.runs[id])
  {
    hide Play, Initial, Consistent, RunConsistent, Publish, BuiltOn, PublishesFor, BuiltWell;
    EveryRunKeepsBuiltOn(s, actions);
    var before := Play(s, actions);
    var run := before.runs[id];
    assert RunConsistent(before.db, run) && BuiltOn(before.db, run, run.phase.content);
    PublishKeepsConsistent(before.db, run, run.phase.content);
    if Publish(before.db, run, run.phase.content).Some? {
      WellBuiltPublishes(before, id);
    }
  }

  lemma WellBuiltPublishes(s: State, id: nat)
    requires Invariant(s) && id in s.runs && s.runs[id].phase.Built?
    requires var run := s.runs[id];
      && BuiltOn(s.db, run, run.phase.content)
      && run.phase.content.snapshotVersion == Latest(s.db) + 1 && Publish(s.db, run, run.phase.content).Some?
    ensures PublishesFor(s.db, Publish(s.db, s.runs[id], s.runs[id].phase.content).value, s.runs[id])
  {
    hide Invariant, Publish, AddsVersion, Listing, StatusOf, CumulativeList, Signable, RevocationSuccessor;
    var run := s.runs[id];
    InvariantHasChain(s);
    BuiltRunIsWell(s, id);
    if run.kind.Revoke? {
      RevokedSubjectIsNew(s, id);
      SubjectHasSerial(s, id);
      ListingOfAppend(s.db.revocations, RowOf(s.db, run.kind, run.clock));
    }
    PublishWrites(s.db, run, run.phase.content);
    LatestIs(s.db, Publish(s.db, run, run.phase.content).value, run.phase.content);
    AddedVersionIs(s.db, Publish(s.db, run, run.phase.content).value, run.phase.content);
    ListIsTable(s.db, run, run.phase.content.revocations);
  }

  lemma AddedVersionIs(t: Tables, u: Tables, content: RevocationContent)
    requires AddsVersion(t, u, content)
    ensures |u.snapshots| == |t.snapshots| + 1
    ensures forall w :: w in t.snapshots ==> w in u.snapshots && u.snapshots[w].content == t.snapshots[w].content
  {
  }

  lemma SubjectHasSerial(s: State, id: nat)
    requires Invariant(s) && id in s.runs && s.runs[id].phase.Built? && s.runs[id].kind.Revoke?
    ensures s.runs[id].kind.certificate in s.db.certificates
    ensures s.db.certificates[s.runs[id].kind.certificate].serial == s.runs[id].serial
  {
    hide Consistent, BuiltWell;
    assert RunConsistent(s.db, s.runs[id]);
  }

  lemma ListIsTable(t: Tables, run: Run, list: seq<RevocationEntry>)
    requires CumulativeList(t.revocations, Additional(run)) == Some(list)
    ensures run.kind.Revoke? ==>
      list == SortBy(SerialOf, Entries(t.revocations) + [RevocationEntry(run.serial, run.clock, run.kind.reason)])
    ensures !run.kind.Revoke? ==> list == Listing(t.revocations)
  {
  }

  // ----- The table holds what was asked for, and nothing else -----

  /** The run revoked this row's certificate, for this reason and at this time. */
  predicate Wrote(s: State, r: nat, row: RevocationRow) {
    && r in s.runs && s.runs[r].phase.Finished?
    && s.runs[r].kind == Revoke(row.certificate, row.entry.reason)
    && s.runs[r].clock == row.entry.revokedAt
    && row.certificate in s.db.certificates && s.db.certificates[row.certificate].serial == row.entry.serial
  }

  predicate HasRevoked(s: State, r: nat) {
    r in s.runs && s.runs[r].kind.Revoke? && s.runs[r].phase.Finished?
  }

  ghost predicate Asked(s: State, row: RevocationRow) {
    exists r :: Wrote(s, r, row)
  }

  ghost predicate HasItsRow(s: State, r: nat, from: nat) {
    exists i :: from <= i < |s.db.revocations| && Wrote(s, r, s.db.revocations[i])
  }

  /** Every row after these is that of some run, and every run has one there. */
  ghost predicate Explained(rows: seq<RevocationRow>, s: State) {
    && rows <= s.db.revocations
    && (forall i :: |rows| <= i < |s.db.revocations| ==> Asked(s, s.db.revocations[i]))
    && (forall r :: HasRevoked(s, r) ==> HasItsRow(s, r, |rows|))
  }

  /** The action leaves the table and the finished revocations as they are. */
  ghost predicate RevokesNothing(s: State, n: State) {
    && n.db.revocations == s.db.revocations
    && forall r :: HasRevoked(n, r) <==> HasRevoked(s, r)
  }

  /** Or one run ends and writes its row. */
  ghost predicate RevokesOne(s: State, n: State, r: nat) {
    && r in s.runs && s.runs[r].kind.Revoke? && s.runs[r].kind.certificate in s.db.certificates
    && n.db.revocations == s.db.revocations + [RowOf(s.db, s.runs[r].kind, s.runs[r].clock)]
    && Wrote(n, r, RowOf(s.db, s.runs[r].kind, s.runs[r].clock))
    && forall other :: HasRevoked(n, other) <==> HasRevoked(s, other) || other == r
  }

  lemma BuildingIsNotTheEnd(t: Tables, run: Run, current: Option<RevocationContent>, key: Text)
    ensures var phase := Build(t, run, current, key);
      phase.Built? || (phase.Failed? && phase.failure != NotFound && phase.failure != NotActive)
  {
  }

  lemma StepRevokes(s: State, id: nat, key: Text)
    requires Invariant(s) && id in s.runs
    ensures RevokesNothing(s, StepRun(s, id, key)) || RevokesOne(s, StepRun(s, id, key), id)
  {
    hide Invariant, Build, Publish, CurrentContent, NeedsRefresh;
    var run := s.runs[id];
    if run.phase.HasCurrent? {
      BuildingIsNotTheEnd(s.db, run, run.phase.current, key);
    }
    if run.phase.Built? && Publish(s.db, run, run.phase.content).Some? {
      InvariantHasChain(s);
      BuiltRunIsBounded(s, id);
      PublishHasNextVersion(s.db, run, run.phase.content);
      if run.kind.Revoke? {
        RevokedSubjectIsNew(s, id);
        RevokeWrites(s.db, run, run.phase.content);
      } else {
        SaveKeepsRows(s.db, run, run.phase.content);
      }
    }
  }

  lemma BuiltRunIsBounded(s: State, id: nat)
    requires Invariant(s) && id in s.runs && s.runs[id].phase.Built?
    ensures 1 <= s.runs[id].phase.content.snapshotVersion <= Latest(s.db) + 1
  {
    hide Consistent, BuiltWell;
    assert RunConsistent(s.db, s.runs[id]);
    BuiltIsBounded(s.db, s.runs[id], s.runs[id].phase.content);
  }

  lemma PublishHasNextVersion(t: Tables, run: Run, content: RevocationContent)
    requires Numbered(t) && 1 <= content.snapshotVersion <= Latest(t) + 1 && Publish(t, run, content).Some?
    ensures content.snapshotVersion == Latest(t) + 1
  {
  }

  lemma RevokeWrites(t: Tables, run: Run, content: RevocationContent)
    requires run.kind.Revoke? && Publish(t, run, content).Some? && !HasRow(t.revocations, run.kind.certificate)
    ensures run.kind.certificate in t.certificates
    ensures var u := Publish(t, run, content).value;
      && u.revocations == t.revocations + [RowOf(t, run.kind, run.clock)]
      && run.kind.certificate in u.certificates
      && u.certificates[run.kind.certificate].serial == t.certificates[run.kind.certificate].serial
  {
  }

  lemma SaveKeepsRows(t: Tables, run: Run, content: RevocationContent)
    requires !run.kind.Revoke? && Publish(t, run, content).Some?
    ensures Publish(t, run, content).value.revocations == t.revocations
  {
  }

  lemma ApplyRevokes(s: State, action: Action)
    requires Invariant(s)
    ensures RevokesNothing(s, Apply(s, action)) || (action.Step? && RevokesOne(s, Apply(s, action), action.run))
  {
    hide Invariant, StepRun, RevokesOne;
    if action.Step? && action.run in s.runs {
      StepRevokes(s, action.run, action.issuerKeyId);
    }
  }

  lemma WroteStays(s: State, action: Action, r: nat, row: RevocationRow)
    requires Wrote(s, r, row) && Grows(s.db, Apply(s, action).db)
    ensures Wrote(Apply(s, action), r, row)
  {
    hide Build, Publish, CurrentContent, Admit, SuspensionBatch, Grows;
    GrowsByRows(s.db, Apply(s, action).db);
  }

  lemma ApplyKeepsExplained(rows: seq<RevocationRow>, s: State, action: Action)
    requires Invariant(s) && Explained(rows, s)
    ensures Explained(rows, Apply(s, action))
  {
    hide Invariant, Apply, Wrote, HasRevoked, Grows;
    var n := Apply(s, action);
    ApplyKeepsInvariant(s, action);
    ApplyRevokes(s, action);
    var before := s.db.revocations;
    GrowsByRows(s.db, n.db);
    forall i | |rows| <= i < |n.db.revocations| ensures Asked(n, n.db.revocations[i]) {
      if i < |before| {
        var r :| Wrote(s, r, before[i]);
        WroteStays(s, action, r, before[i]);
        assert n.db.revocations[i] == before[i];
      } else {
        assert Wrote(n, action.run, n.db.revocations[i]);
      }
    }
    forall r | HasRevoked(n, r) ensures HasItsRow(n, r, |rows|) {
      if HasRevoked(s, r) {
        var i :| |rows| <= i < |before| && Wrote(s, r, before[i]);
        WroteStays(s, action, r, before[i]);
        assert n.db.revocations[i] == before[i];
      } else {
        assert Wrote(n, r, n.db.revocations[|before|]);
      }
    }
  }

  lemma GrowsByRows(t: Tables, u: Tables)
    requires Grows(t, u)
    ensures t.revocations <= u.revocations
    ensures forall c :: c in t.certificates ==>
      c in u.certificates && u.certificates[c].serial == t.certificates[c].serial
  {
  }

  lemma {:induction false} EveryRunKeepsExplained(s: State, actions: seq<Action>)
    requires Initial(s)
    ensures Invariant(Play(s, actions)) && Explained(s.db.revocations, Play(s, actions))
  {
    hide Invariant, Apply, Explained;
    InitialIsInvariant(s);
    EveryRunKeepsInvariant(s, actions);
    if actions == [] {
      InitialIsExplained(s);
    } else {
      EveryRunKeepsExplained(s, actions[..|actions| - 1]);
      ApplyKeepsExplained(s.db.revocations, Play(s, actions[..|actions| - 1]), actions[|actions| - 1]);
    }
  }

  lemma InitialIsExplained(s: State)
    requires Initial(s)
    ensures Explained(s.db.revocations, s)
  {
  }

  /** The table, and with it the published list, is what it was plus one entry for every
      revocation that ended well: for the certificate, with the reason and at the time that
      were asked for. */
  lemma RevocationsAreThoseAsked(s: State, actions: seq<Action>, row: RevocationRow)
    requires Initial(s)
    ensures var n := Play(s, actions);
      && (row in n.db.revocations <==> row in s.db.revocations || Asked(n, row))
      && (n.db.snapshots != map[] ==>
            CurrentContent(n.db).Some?
            && forall entry :: entry in CurrentContent(n.db).value.revocations <==>
                 exists id :: RevocationRow(id, entry) in n.db.revocations)
  {
    hide Initial, Play, Invariant, Listing;
    EveryRunKeepsExplained(s, actions);
    var n := Play(s, actions);
    if row in n.db.revocations {
      var i :| 0 <= i < |n.db.revocations| && n.db.revocations[i] == row;
    }
    if r :| Wrote(n, r, row) {
      assert HasRevoked(n, r) && HasItsRow(n, r, |s.db.revocations|);
      var i :| |s.db.revocations| <= i < |n.db.revocations| && Wrote(n, r, n.db.revocations[i]);
      assert n.db.revocations[i] == row;
    }
    PublishedListIsTheTable(s, actions);
    if n.db.snapshots != map[] {
      assert |n.db.snapshots| > 0;
      forall entry ensures entry in CurrentContent(n.db).value.revocations <==>
        exists id :: RevocationRow(id, entry) in n.db.revocations
      {
        ListedMeansRow(n.db.revocations, entry);
      }
    }
  }

  lemma ListedMeansRow(rows: seq<RevocationRow>, entry: RevocationEntry)
    ensures entry in Listing(rows) <==> exists id :: RevocationRow(id, entry) in rows
  {
    hide Listing;
    ListingMembers(rows, entry);
    if i :| 0 <= i < |rows| && rows[i].entry == entry {
      assert rows[i] == RevocationRow(rows[i].certificate, entry);
    }
  }

  // ----- Statuses change as runs ask, and only so -----

  /** A status changes only when a certificate is issued, when a suspension run for it writes,
      or when a revocation of it commits. */
  lemma StatusChangesAreAsked(s: State, action: Action, id: Id)
    ensures var n := Apply(s, action);
      var before, after := StatusOf(s.db, id), StatusOf(n.db, id);
      after != before ==>
        || (action.IssueCertificate? && action.certificate == id && before.None?)
        || (&& action.Step? && action.run in s.runs
            && var run := s.runs[action.run];
              || (run.phase.Admitted? && run.kind == Suspension(id, true) && after == Some(Suspended))
              || (run.phase.Admitted? && run.kind == Suspension(id, false) && after == Some(Usable))
              || (run.phase.Built? && run.kind.Revoke? && run.kind.certificate == id
                  && after == Some(PermanentlyRevoked)))
  {
    hide Build, CurrentContent, NeedsRefresh, Demoted;
  }

  // ----- Runs that nobody interrupts -----

  /** The run, begun and then stepped n times. */
  ghost function Stepped(s: State, r: nat, kind: Kind, clock: nat, key: Text, n: nat): State {
    if n == 0 then Apply(s, Start(r, kind, clock)) else Apply(Stepped(s, r, kind, clock, key, n - 1), Step(r, key))
  }

  /** A suspension run makes a certificate suspended or usable as asked, unless it is unknown
      or revoked; nobody else's status changes. */
  lemma SuspensionRunWrites(s: State, r: nat, id: Id, suspend: bool, clock: nat, key: Text, other: Id)
    requires r !in s.runs
    ensures var n := Stepped(s, r, Suspension(id, suspend), clock, key, 2);
      && r in n.runs
      && StatusOf(n.db, id) ==
           (if StatusOf(s.db, id) == Some(Usable) || StatusOf(s.db, id) == Some(Suspended)
            then Some(if suspend then Suspended else Usable) else StatusOf(s.db, id))
      && (other != id ==> StatusOf(n.db, other) == StatusOf(s.db, other))
      && (n.runs[r].phase == Failed(NotFound) <==> StatusOf(s.db, id).None?)
  {
    var none := Stepped(s, r, Suspension(id, suspend), clock, key, 0);
    var one := Stepped(s, r, Suspension(id, suspend), clock, key, 1);
    assert one == Apply(none, Step(r, key));
  }

  /** What a revocation of this certificate would publish next. */
  function NextList(t: Tables, id: Id, reason: ReasonCode, clock: nat, key: Text): RevocationContent
    requires id in t.certificates
  {
    var v := |t.snapshots|;
    var at := if v in t.snapshots && t.snapshots[v].content.generatedAt > clock
              then t.snapshots[v].content.generatedAt else clock;
    RevocationContent(1, v + 1, at, at + 3_600, key,
                      SortBy(SerialOf, Entries(t.revocations)
                                       + [RevocationEntry(t.certificates[id].serial, clock, reason)]),
                      Ascii("ed25519"))
  }

  /** In every reachable state a revocation that nobody interrupts succeeds for exactly the
      certificates that are known and not revoked, suspended ones included, as long as the
      next list can be signed; the two other answers come exactly when they are due. */
  lemma RevocationRunSucceeds(s: State, actions: seq<Action>, r: nat, id: Id, reason: ReasonCode, clock: nat,
                              key: Text)
    requires Initial(s) && r !in Play(s, actions).runs
    ensures var t := Play(s, actions).db;
      var n := Stepped(Play(s, actions), r, Revoke(id, reason), clock, key, 4);
      && r in n.runs
      && (n.runs[r].phase == Finished <==>
            && (StatusOf(t, id) == Some(Usable) || StatusOf(t, id) == Some(Suspended))
            && Signable(NextList(t, id, reason, clock, key)))
      && (n.runs[r].phase == Finished ==>
            && StatusOf(n.db, id) == Some(PermanentlyRevoked)
            && RevocationRow(id, RevocationEntry(t.certificates[id].serial, clock, reason)) in n.db.revocations)
      && (n.runs[r].phase == Failed(NotFound) <==> StatusOf(t, id).None?)
      && (n.runs[r].phase == Failed(NotActive) <==> StatusOf(t, id) == Some(PermanentlyRevoked))
  {
    hide Play, Initial, Stepped, Signable, NextList, StatusOf;
    InitialIsInvariant(s);
    EveryRunKeepsInvariant(s, actions);
    RevokeStepped(Play(s, actions), r, id, reason, clock, key);
  }

  lemma RevokeStepped(s: State, r: nat, id: Id, reason: ReasonCode, clock: nat, key: Text)
    requires Invariant(s) && r !in s.runs
    ensures var n := Stepped(s, r, Revoke(id, reason), clock, key, 4);
      && r in n.runs
      && (n.runs[r].phase == Finished <==>
            && (StatusOf(s.db, id) == Some(Usable) || StatusOf(s.db, id) == Some(Suspended))
            && Signable(NextList(s.db, id, reason, clock, key)))
      && (n.runs[r].phase == Finished ==>
            && StatusOf(n.db, id) == Some(PermanentlyRevoked)
            && RevocationRow(id, RevocationEntry(s.db.certificates[id].serial, clock, reason)) in n.db.revocations)
      && (n.runs[r].phase == Failed(NotFound) <==> StatusOf(s.db, id).None?)
      && (n.runs[r].phase == Failed(NotActive) <==> StatusOf(s.db, id) == Some(PermanentlyRevoked))
  {
    hide Invariant, Consistent, Signable, NextList, Build, Publish, CurrentContent;
    var kind := Revoke(id, reason);
    var s0 := Stepped(s, r, kind, clock, key, 0);
    var s1 := Stepped(s, r, kind, clock, key, 1);
    var s2 := Stepped(s, r, kind, clock, key, 2);
    var s3 := Stepped(s, r, kind, clock, key, 3);
    var s4 := Stepped(s, r, kind, clock, key, 4);
    assert s1 == Apply(s0, Step(r, key)) && s2 == Apply(s1, Step(r, key));
    assert s3 == Apply(s2, Step(r, key)) && s4 == Apply(s3, Step(r, key));
    if id in s.db.certificates && !s.db.certificates[id].revoked {
      var run := Run(kind, clock, s.db.certificates[id].serial, HasCurrent(CurrentContent(s.db)));
      assert s2 == s.(runs := s.runs[r := run]);
      var phase := Build(s.db, run, CurrentContent(s.db), key);
      RevokeBuilds(s, run, key);
      BuildingIsNotTheEnd(s.db, run, CurrentContent(s.db), key);
      assert s3 == s.(runs := s.runs[r := run.(phase := phase)]);
      if phase.Built? {
        RevokeCommits(s, run.(phase := phase), key);
      }
    }
  }

  /** The steps in between: what is built is the next list, and it can be committed. */
  lemma RevokeBuilds(s: State, run: Run, key: Text)
    requires Invariant(s) && run.kind.Revoke? && run.phase == HasCurrent(CurrentContent(s.db))
    requires var id := run.kind.certificate;
      id in s.db.certificates && !s.db.certificates[id].revoked && run.serial == s.db.certificates[id].serial
    ensures var next := NextList(s.db, run.kind.certificate, run.kind.reason, run.clock, key);
      var phase := Build(s.db, run, CurrentContent(s.db), key);
      (phase == Built(next) <==> Signable(next)) && (phase.Built? ==> phase == Built(next))
  {
    hide Signable, RevocationSuccessor, CertificatesConsistent, RowsConsistent, Numbered, Chained, ListsTable;
    InvariantHasChain(s);
    CurrentIsLatest(s.db);
    ActiveSubjectHasNoEntry(s.db, run.kind.certificate);
    if Latest(s.db) in s.db.snapshots {
      VersionOfLatest(s.db);
      RollbackIsUnreachable(s.db, run, s.db.snapshots[Latest(s.db)].content, key);
    } else {
      NoVersionYet(s.db);
    }
  }

  lemma VersionOfLatest(t: Tables)
    requires Numbered(t) && Latest(t) in t.snapshots
    ensures t.snapshots[Latest(t)].content.snapshotVersion == Latest(t)
  {
  }

  lemma NoVersionYet(t: Tables)
    requires Numbered(t) && Latest(t) !in t.snapshots
    ensures Latest(t) == 0
  {
  }

  lemma ActiveSubjectHasNoEntry(t: Tables, id: Id)
    requires CertificatesConsistent(t) && RowsConsistent(t) && id in t.certificates && !t.certificates[id].revoked
    ensures !exists row :: row in t.revocations && row.entry.serial == t.certificates[id].serial
    ensures !HasRow(t.revocations, id)
  {
    forall row | row in t.revocations ensures row.entry.serial != t.certificates[id].serial {
      var i :| 0 <= i < |t.revocations| && t.revocations[i] == row;
    }
  }

  lemma RevokeCommits(s: State, run: Run, key: Text)
    requires Invariant(s) && run.kind.Revoke?
    requires var id := run.kind.certificate; id in s.db.certificates && !s.db.certificates[id].revoked
    ensures var id := run.kind.certificate;
      var published := Publish(s.db, run, NextList(s.db, id, run.kind.reason, run.clock, key));
      && published.Some?
      && StatusOf(published.value, id) == Some(PermanentlyRevoked)
      && RowOf(s.db, run.kind, run.clock) in published.value.revocations
  {
    hide CertificatesConsistent, RowsConsistent, Numbered, Chained, ListsTable;
    var next := NextList(s.db, run.kind.certificate, run.kind.reason, run.clock, key);
    InvariantHasChain(s);
    ActiveSubjectHasNoEntry(s.db, run.kind.certificate);
    SaveCommitsOnNextVersion(s.db, next);
    RevokeWrites(s.db, run, next);
  }

  /** What a rebuild or a refresh would publish next: the same table under a new date. */
  function NextPlainList(t: Tables, clock: nat, key: Text): (next: RevocationContent)
    ensures next.snapshotVersion == |t.snapshots| + 1
  {
    var v := |t.snapshots|;
    var at := if v in t.snapshots && t.snapshots[v].content.generatedAt > clock
              then t.snapshots[v].content.generatedAt else clock;
    RevocationContent(1, v + 1, at, at + 3_600, key, Listing(t.revocations), Ascii("ed25519"))
  }

  /** No list is stored yet, or the last one expires within half an hour. */
  predicate RefreshDue(t: Tables, clock: nat) {
    var v := |t.snapshots|;
    v in t.snapshots ==> t.snapshots[v].content.expiresAt <= clock + 1_800
  }

  /** In every reachable state a rebuild that nobody interrupts publishes the table anew, and
      a refresh does so exactly when it is due. */
  lemma RefreshRunPublishes(s: State, actions: seq<Action>, r: nat, kind: Kind, clock: nat, key: Text)
    requires Initial(s) && r !in Play(s, actions).runs && (kind.Rebuild? || kind.Refresh?)
    ensures var t := Play(s, actions).db;
      var n := Stepped(Play(s, actions), r, kind, clock, key, 4);
      var next := NextPlainList(t, clock, key);
      && r in n.runs
      && (if kind.Refresh? && !RefreshDue(t, clock) then n.runs[r].phase == Finished && n.db == t
          else if Signable(next) then
            n.runs[r].phase == Finished && SaveBatch(t, next) == Some(n.db) && CurrentContent(n.db) == Some(next)
          else n.runs[r].phase == Failed(Unsignable) && n.db == t)
  {
    hide Play, Initial, Stepped, Signable, NextPlainList, SaveBatch, CurrentContent;
    InitialIsInvariant(s);
    EveryRunKeepsInvariant(s, actions);
    RefreshStepped(Play(s, actions), r, kind, clock, key);
  }

  /** Two steps: the refresh finds out whether it is due, and reads the current list. */
  lemma RefreshReads(s: State, r: nat, kind: Kind, clock: nat, key: Text)
    requires Numbered(s.db) && r !in s.runs && (kind.Rebuild? || kind.Refresh?)
    ensures Stepped(s, r, kind, clock, key, 2)
         == s.(runs := s.runs[r := Run(kind, clock, [],
                 if kind.Refresh? && !RefreshDue(s.db, clock) then Finished else HasCurrent(CurrentContent(s.db)))])
  {
    hide CurrentContent, Numbered;
    CurrentIsLatest(s.db);
    var s0 := Stepped(s, r, kind, clock, key, 0);
    var s1 := Stepped(s, r, kind, clock, key, 1);
    assert s1 == Apply(s0, Step(r, key));
  }

  lemma RefreshStepped(s: State, r: nat, kind: Kind, clock: nat, key: Text)
    requires Invariant(s) && r !in s.runs && (kind.Rebuild? || kind.Refresh?)
    ensures var n := Stepped(s, r, kind, clock, key, 4);
      var next := NextPlainList(s.db, clock, key);
      && r in n.runs
      && (if kind.Refresh? && !RefreshDue(s.db, clock) then n.runs[r].phase == Finished && n.db == s.db
          else if Signable(next) then
            n.runs[r].phase == Finished && SaveBatch(s.db, next) == Some(n.db) && CurrentContent(n.db) == Some(next)
          else n.runs[r].phase == Failed(Unsignable) && n.db == s.db)
  {
    hide Invariant, Signable, NextPlainList, Build, CurrentContent, SaveBatch, RefreshDue, Numbered;
    InvariantHasChain(s);
    RefreshReads(s, r, kind, clock, key);
    var s2 := Stepped(s, r, kind, clock, key, 2);
    var s3 := Stepped(s, r, kind, clock, key, 3);
    assert s3 == Apply(s2, Step(r, key));
    if kind.Rebuild? || RefreshDue(s.db, clock) {
      RefreshBuilds(s, s2.runs[r], key);
      RefreshCommits(s, NextPlainList(s.db, clock, key));
    }
  }

  lemma RefreshBuilds(s: State, run: Run, key: Text)
    requires Invariant(s) && (run.kind.Rebuild? || run.kind.Refresh?)
    requires run.phase == HasCurrent(CurrentContent(s.db))
    ensures var next := NextPlainList(s.db, run.clock, key);
      Build(s.db, run, CurrentContent(s.db), key) == if Signable(next) then Built(next) else Failed(Unsignable)
  {
    hide Signable, RevocationSuccessor, CertificatesConsistent, RowsConsistent, Numbered, Chained, ListsTable;
    InvariantHasChain(s);
    CurrentIsLatest(s.db);
    if Latest(s.db) in s.db.snapshots {
      VersionOfLatest(s.db);
      RollbackIsUnreachable(s.db, run, s.db.snapshots[Latest(s.db)].content, key);
    } else {
      NoVersionYet(s.db);
    }
  }

  lemma RefreshCommits(s: State, next: RevocationContent)
    requires Invariant(s) && next.snapshotVersion == Latest(s.db) + 1
    ensures SaveBatch(s.db, next).Some? && CurrentContent(SaveBatch(s.db, next).value) == Some(next)
  {
    hide CurrentContent, Invariant, AddsVersion, SaveBatch;
    InvariantHasChain(s);
    SaveNumbers(s.db, next);
    LatestIs(s.db, SaveBatch(s.db, next).value, next);
    CurrentIsLatest(SaveBatch(s.db, next).value);
  }
}
