/** Revoke, rebuild, cron-refresh and suspension runs, interleaved at every await between
    their database calls. Models `admin_revoke`, `build_revocation_snapshot`,
    `admin_rebuild_revocation_snapshot`, `refresh_revocation_snapshot` and the suspension
    handlers of src/lib.rs over the batches of RevocationStore. */
module RevocationPublication {
  import opened Prelude
  import opened Cryptography
  import opened Sorting
  import opened TrustMaterial
  import opened RevocationMaterial
  import opened RevocationMessage
  import opened RevocationStore

  const SNAPSHOT_TTL_SECONDS: nat := 60 * 60
  const REFRESH_WINDOW_SECONDS: nat := 30 * 60

  datatype Kind =
    | Revoke(certificate: Id, reason: ReasonCode)
    | Rebuild
    | Refresh
    | Suspension(certificate: Id, suspend: bool)

  datatype Failure = NotFound | NotActive | Conflict | Unsignable | Rollback | TooLarge | Collision | Crashed

  /** Where a run stands, and what it has read so far. */
  datatype Phase =
    | Begun
    | Admitted
    | HasCurrent(current: Option<RevocationContent>)
    | Built(content: RevocationContent)
    | Finished
    | Failed(failure: Failure)

  datatype Run = Run(kind: Kind, clock: nat, serial: Text, phase: Phase)

  datatype State = State(db: Tables, runs: map<nat, Run>)

  datatype Action =
    | Start(run: nat, kind: Kind, clock: nat)
    | Step(run: nat, issuerKeyId: Text)
    | Crash(run: nat)
    | IssueCertificate(certificate: Id, serial: Text)

  // ----- One run's steps -----

  predicate NeedsRefresh(expiresAt: Option<nat>, now: nat) {
    expiresAt.None? || expiresAt.value <= now + REFRESH_WINDOW_SECONDS
  }

  /** The row that `WHERE is_current=1 LIMIT 1` finds. */
  ghost function CurrentContent(t: Tables): Option<RevocationContent> {
    if exists v :: v in t.snapshots && t.snapshots[v].current then
      var v :| v in t.snapshots && t.snapshots[v].current;
      Some(t.snapshots[v].content)
    else None
  }

  ghost function Admit(t: Tables, run: Run): Run {
    match run.kind
    case Revoke(id, _) =>
      if id !in t.certificates then run.(phase := Failed(NotFound))
      else if t.certificates[id].revoked then run.(phase := Failed(NotActive))
      else run.(serial := t.certificates[id].serial, phase := Admitted)
    case Suspension(id, _) =>
      if id !in t.certificates then run.(phase := Failed(NotFound))
      else if t.certificates[id].revoked then run.(phase := Finished)
      else run.(phase := Admitted)
    case Rebuild => run.(phase := Admitted)
    case Refresh =>
      var current := CurrentContent(t);
      var expiry := if current.Some? then Some(current.value.expiresAt) else None;
      run.(phase := if NeedsRefresh(expiry, run.clock) then Admitted else Finished)
  }

  function Additional(run: Run): Option<RevocationEntry> {
    match run.kind
    case Revoke(_, reason) => Some(RevocationEntry(run.serial, run.clock, reason))
    case _ => None
  }

  function NextContent(current: Option<RevocationContent>, clock: nat, issuerKeyId: Text, list: seq<RevocationEntry>)
    : RevocationContent
  {
    var generatedAt := if current.Some? then Max(clock, current.value.generatedAt) else clock;
    RevocationContent(
      1,
      if current.Some? then current.value.snapshotVersion + 1 else 1,
      generatedAt,
      generatedAt + SNAPSHOT_TTL_SECONDS,
      issuerKeyId,
      list,
      SignatureAlgorithm())
  }

  /** Reads the revocations table, signs, and checks against the snapshot read before. */
  ghost function Build(t: Tables, run: Run, current: Option<RevocationContent>, issuerKeyId: Text): Phase {
    var list := CumulativeList(t.revocations, Additional(run));
    if list.None? then Failed(Conflict)
    else
      var content := NextContent(current, run.clock, issuerKeyId, list.value);
      if !Signable(content) then Failed(Unsignable)
      else if current.Some? && !RevocationSuccessor(current.value, content) then Failed(Rollback)
      else Built(content)
  }

  /** What the phase Build stands for: the list, the signature, and the check against the
      snapshot read before, in the handler's order. The last check, on the length of the JSON
      text, can only refuse what was built. */
  method BuildRevocationSnapshot(c: Primitives, db: Tables, run: Run, current: Option<RevocationContent>, seed: Bytes,
                                 jsonLength: RevocationSnapshot -> nat)
    returns (r: Result<RevocationSnapshot, Failure>)
    requires CumulativeList(db.revocations, Additional(run)).Some? ==>
      RevocationWidths(NextContent(current, run.clock, c.keyId(c.publicKey(seed)),
                                   CumulativeList(db.revocations, Additional(run)).value))
    ensures r.Ok? ==>
      && Build(db, run, current, c.keyId(c.publicKey(seed))) == Built(r.value.content)
      && r.value.signature == c.base64(c.sign(seed, EncodeRevocations(r.value.content)))
      && jsonLength(r.value) <= MAX_SNAPSHOT_BYTES
      && r.value.content.snapshotVersion == (if current.Some? then current.value.snapshotVersion + 1 else 1)
      && r.value.content.generatedAt ==
           (if current.Some? && run.clock < current.value.generatedAt then current.value.generatedAt else run.clock)
      && r.value.content.expiresAt == r.value.content.generatedAt + 3_600
    ensures r.Err? && r.error != TooLarge ==> Build(db, run, current, c.keyId(c.publicKey(seed))) == Failed(r.error)
    ensures r == Err(TooLarge) <==>
      var built := Build(db, run, current, c.keyId(c.publicKey(seed)));
      && built.Built?
      && jsonLength(RevocationSnapshot(built.content, c.base64(c.sign(seed, EncodeRevocations(built.content)))))
         > MAX_SNAPSHOT_BYTES
  {
    hide ValidRevocations, EncodeRevocations, RevocationSuccessor, CumulativeList;
    var version, generatedAt := 1, run.clock;
    if current.Some? {
      version, generatedAt := current.value.snapshotVersion + 1, Max(run.clock, current.value.generatedAt);
    }
    var revocations := BuildList(db.revocations, Additional(run));
    if revocations.None? {
      return Err(Conflict);
    }
    var content := RevocationContent(1, version, generatedAt, generatedAt + SNAPSHOT_TTL_SECONDS,
                                     c.keyId(c.publicKey(seed)), revocations.value, SignatureAlgorithm());
    var snapshot := IssueRevocations(c, content, seed);
    if snapshot.Err? {
      return Err(Unsignable);
    }
    if current.Some? {
      var successor := ValidateRevocationSuccessor(current.value, snapshot.value.content);
      if successor.Err? {
        return Err(Rollback);
      }
    }
    if jsonLength(snapshot.value) > MAX_SNAPSHOT_BYTES {
      return Err(TooLarge);
    }
    r := Ok(snapshot.value);
  }

  function Publish(t: Tables, run: Run, content: RevocationContent): Option<Tables> {
    match run.kind
    case Revoke(id, reason) => RevokeBatch(t, id, reason, run.clock, content)
    case _ => SaveBatch(t, content)
  }

  ghost function StepRun(s: State, id: nat, issuerKeyId: Text): State
    requires id in s.runs
  {
    var run := s.runs[id];
    match run.phase
    case Begun => s.(runs := s.runs[id := Admit(s.db, run)])
    case Admitted =>
      if run.kind.Suspension? then
        State(SuspensionBatch(s.db, run.kind.certificate, run.kind.suspend), s.runs[id := run.(phase := Finished)])
      else s.(runs := s.runs[id := run.(phase := HasCurrent(CurrentContent(s.db)))])
    case HasCurrent(current) => s.(runs := s.runs[id := run.(phase := Build(s.db, run, current, issuerKeyId))])
    case Built(content) =>
      var published := Publish(s.db, run, content);
      if published.Some? then State(published.value, s.runs[id := run.(phase := Finished)])
      else s.(runs := s.runs[id := run.(phase := Failed(Collision))])
    case _ => s
  }

  /** Every action is possible at every time; one that does not apply changes nothing. */
  ghost function Apply(s: State, action: Action): State {
    match action
    case Start(id, kind, clock) =>
      if id in s.runs then s else s.(runs := s.runs[id := Run(kind, clock, [], Begun)])
    case Step(id, issuerKeyId) =>
      if id in s.runs then StepRun(s, id, issuerKeyId) else s
    case Crash(id) =>
      if id in s.runs && !s.runs[id].phase.Finished? then
        s.(runs := s.runs[id := s.runs[id].(phase := Failed(Crashed))])
      else s
    case IssueCertificate(id, serial) =>
      if id in s.db.certificates || exists c :: c in s.db.certificates && s.db.certificates[c].serial == serial then s
      else s.(db := s.db.(certificates := s.db.certificates[id := Certificate(serial, false)]))
  }

  ghost function Play(s: State, actions: seq<Action>): State {
    if actions == [] then s else Apply(Play(s, actions[..|actions| - 1]), actions[|actions| - 1])
  }

  // ----- What every reachable state keeps -----

  /** The current version, which is also the number of stored versions. */
  function Latest(t: Tables): nat { |t.snapshots| }

  ghost predicate CertificatesConsistent(t: Tables) {
    && (forall a, b ::
          (a in t.certificates && b in t.certificates && t.certificates[a].serial == t.certificates[b].serial)
          ==> a == b)
    && (forall c :: c in t.certificates && t.certificates[c].revoked ==> HasRow(t.revocations, c))
  }

  ghost predicate RowsConsistent(t: Tables) {
    && (forall i :: 0 <= i < |t.revocations| ==>
          var row := t.revocations[i];
          row.certificate in t.certificates
          && t.certificates[row.certificate] == Certificate(row.entry.serial, true))
    && (forall i, j :: 0 <= i < j < |t.revocations| ==> t.revocations[i].certificate != t.revocations[j].certificate)
  }

  /** Versions are 1..n without a gap and n is current. */
  ghost predicate Numbered(t: Tables) {
    && (forall v :: v in t.snapshots <==> 1 <= v <= Latest(t))
    && (forall v :: v in t.snapshots ==> t.snapshots[v].content.snapshotVersion == v)
    && (forall v :: v in t.snapshots ==> (t.snapshots[v].current <==> v == Latest(t)))
  }

  ghost predicate Chained(t: Tables) {
    && (forall v :: v in t.snapshots ==>
          Signable(t.snapshots[v].content)
          && t.snapshots[v].content.expiresAt == t.snapshots[v].content.generatedAt + SNAPSHOT_TTL_SECONDS)
    && (forall v, w :: v in t.snapshots && w in t.snapshots && v < w ==>
          RevocationSuccessor(t.snapshots[v].content, t.snapshots[w].content))
  }

  /** The current list is the revocations table, sorted by serial. */
  ghost predicate ListsTable(t: Tables) {
    Latest(t) in t.snapshots ==> t.snapshots[Latest(t)].content.revocations == Listing(t.revocations)
  }

  ghost predicate Consistent(t: Tables) {
    CertificatesConsistent(t) && RowsConsistent(t) && Numbered(t) && Chained(t) && ListsTable(t)
  }

  ghost predicate SubjectKnown(t: Tables, run: Run) {
    run.kind.Revoke? && !run.phase.Begun? && !run.phase.Failed? ==>
      run.kind.certificate in t.certificates && t.certificates[run.kind.certificate].serial == run.serial
  }

  /** What a built content still promises: it is out of date unless no version was stored
      since the run read, and then it extends the table by the run's own entry. */
  ghost predicate BuiltWell(t: Tables, run: Run, content: RevocationContent) {
    && 1 <= content.snapshotVersion <= Latest(t) + 1
    && Signable(content)
    && content.expiresAt == content.generatedAt + SNAPSHOT_TTL_SECONDS
    && run.clock <= content.generatedAt
    && (content.snapshotVersion == Latest(t) + 1 ==>
          && CumulativeList(t.revocations, Additional(run)) == Some(content.revocations)
          && (Latest(t) in t.snapshots ==> RevocationSuccessor(t.snapshots[Latest(t)].content, content)))
  }

  ghost predicate RunConsistent(t: Tables, run: Run) {
    && SubjectKnown(t, run)
    && match run.phase
       case HasCurrent(current) =>
         && !run.kind.Suspension?
         && (current.Some? ==>
               current.value.snapshotVersion in t.snapshots
               && t.snapshots[current.value.snapshotVersion].content == current.value)
       case Built(content) => !run.kind.Suspension? && BuiltWell(t, run, content)
       case Failed(failure) => failure != Rollback
       case Finished => run.kind.Refresh? ==> FreshFor(t, run.clock)
       case _ => true
  }

  /** The current snapshot outlives `clock` by more than the refresh window. */
  ghost predicate FreshFor(t: Tables, clock: nat) {
    Latest(t) in t.snapshots && t.snapshots[Latest(t)].content.expiresAt > clock + REFRESH_WINDOW_SECONDS
  }

  ghost predicate Invariant(s: State) {
    Consistent(s.db) && forall id :: id in s.runs ==> RunConsistent(s.db, s.runs[id])
  }

  ghost predicate Initial(s: State) {
    Consistent(s.db) && s.runs == map[]
  }

  // ----- Facts about one table state -----

  lemma CurrentIsLatest(t: Tables)
    requires Numbered(t)
    ensures CurrentContent(t) ==
      if Latest(t) in t.snapshots then Some(t.snapshots[Latest(t)].content) else None
  {
  }

  lemma SuccessorIsTransitive(a: RevocationContent, b: RevocationContent, c: RevocationContent)
    requires RevocationSuccessor(a, b) && RevocationSuccessor(b, c)
    ensures RevocationSuccessor(a, c)
  {
  }

  lemma SuccessorOrder(a: RevocationContent, b: RevocationContent)
    requires RevocationSuccessor(a, b)
    ensures a.snapshotVersion < b.snapshotVersion && a.generatedAt <= b.generatedAt
  {
  }

  lemma SuccessorKeepsList(a: RevocationContent, b: RevocationContent)
    requires RevocationSuccessor(a, b)
    ensures forall entry :: entry in a.revocations ==> entry in b.revocations
  {
  }

  lemma ListingMembers(rows: seq<RevocationRow>, entry: RevocationEntry)
    ensures entry in Listing(rows) <==> exists i :: 0 <= i < |rows| && rows[i].entry == entry
  {
    SortKeepsMembers(SerialOf, Entries(rows));
    assert entry in Listing(rows) <==> entry in Entries(rows);
    if i: nat :| i < |rows| && rows[i].entry == entry {
      assert Entries(rows)[i] == entry;
    }
  }

  lemma CumulativeListGrows(rows: seq<RevocationRow>, additional: Option<RevocationEntry>, entry: RevocationEntry)
    requires CumulativeList(rows, additional).Some? && entry in Listing(rows)
    ensures entry in CumulativeList(rows, additional).value
  {
    ListingMembers(rows, entry);
    if additional.Some? {
      SortKeepsMembers(SerialOf, Entries(rows) + [additional.value]);
      var i :| 0 <= i < |rows| && rows[i].entry == entry;
      assert (Entries(rows) + [additional.value])[i] == entry;
    }
  }

  /** Whatever a stored snapshot lists is still in the table. */
  lemma StoredListIsInTable(t: Tables, v: nat)
    requires Numbered(t) && Chained(t) && ListsTable(t) && v in t.snapshots
    ensures forall entry :: entry in t.snapshots[v].content.revocations ==> entry in Listing(t.revocations)
  {
    hide RevocationSuccessor, Signable, Listing;
    assert Latest(t) in t.snapshots;
    if v < Latest(t) {
      SuccessorKeepsList(t.snapshots[v].content, t.snapshots[Latest(t)].content);
    }
  }

  /** The anti-rollback check never fails: whatever stored snapshot was read, and however
      many versions were stored before the table was read. */
  lemma RollbackIsUnreachable(t: Tables, run: Run, current: RevocationContent, issuerKeyId: Text)
    requires Consistent(t)
    requires current.snapshotVersion in t.snapshots && t.snapshots[current.snapshotVersion].content == current
    ensures Build(t, run, Some(current), issuerKeyId) != Failed(Rollback)
  {
    hide Consistent, Numbered, Chained, ListsTable, CumulativeList, ValidRevocations, EncodeRevocations;
    ConsistentParts(t);
    StoredIsSignable(t, current.snapshotVersion);
    StoredListIsInTable(t, current.snapshotVersion);
    var list := CumulativeList(t.revocations, Additional(run));
    if list.Some? {
      forall entry | entry in current.revocations ensures entry in list.value {
        CumulativeListGrows(t.revocations, Additional(run), entry);
      }
    }
  }

  lemma ConsistentParts(t: Tables)
    requires Consistent(t)
    ensures Numbered(t) && Chained(t) && ListsTable(t)
  {
  }

  lemma StoredIsSignable(t: Tables, v: nat)
    requires Chained(t) && v in t.snapshots
    ensures Signable(t.snapshots[v].content)
  {
  }

  // ----- Publishing keeps the tables consistent -----

  lemma DemotedKeepsContent(snapshots: map<nat, SnapshotRow>)
    ensures Demoted(snapshots).Keys == snapshots.Keys
    ensures |Demoted(snapshots)| == |snapshots|
    ensures forall v :: v in snapshots ==> Demoted(snapshots)[v] == SnapshotRow(snapshots[v].content, false)
  {
  }

  /** A save goes through exactly when its version is the next one. */
  lemma SaveCommitsOnNextVersion(t: Tables, content: RevocationContent)
    requires Numbered(t) && 1 <= content.snapshotVersion <= Latest(t) + 1
    ensures SaveBatch(t, content).Some? <==> content.snapshotVersion == Latest(t) + 1
  {
  }

  /** `u` stores one version more than `t`: the next one, with this content. */
  ghost predicate AddsVersion(t: Tables, u: Tables, content: RevocationContent) {
    var n := Latest(t) + 1;
    && Latest(u) == n
    && (forall v :: v in u.snapshots <==> v in t.snapshots || v == n)
    && (forall v :: v in t.snapshots ==> u.snapshots[v].content == t.snapshots[v].content)
    && u.snapshots[n].content == content
  }

  lemma SaveNumbers(t: Tables, content: RevocationContent)
    requires Numbered(t) && content.snapshotVersion == Latest(t) + 1
    ensures SaveBatch(t, content).Some?
    ensures AddsVersion(t, SaveBatch(t, content).value, content) && Numbered(SaveBatch(t, content).value)
  {
    hide Demoted;
    DemotedKeepsContent(t.snapshots);
    OneVersionMore(Demoted(t.snapshots), content.snapshotVersion, SnapshotRow(content, true));
    var u := SaveBatch(t, content).value;
    NumberedStays(t, u, content.snapshotVersion);
  }

  lemma OneVersionMore(snapshots: map<nat, SnapshotRow>, version: nat, row: SnapshotRow)
    requires version !in snapshots
    ensures |snapshots[version := row]| == |snapshots| + 1
  {
    assert snapshots[version := row].Keys == snapshots.Keys + {version};
  }

  lemma NumberedStays(t: Tables, u: Tables, n: nat)
    requires Numbered(t) && n == Latest(t) + 1 == Latest(u)
    requires forall v :: v in u.snapshots <==> v in t.snapshots || v == n
    requires forall v :: v in u.snapshots && v != n ==> u.snapshots[v] == t.snapshots[v].(current := false)
    requires u.snapshots[n].content.snapshotVersion == n && u.snapshots[n].current
    ensures Numbered(u)
  {
    hide Latest;
  }

  lemma SaveChains(t: Tables, content: RevocationContent, u: Tables)
    requires Numbered(t) && Chained(t) && AddsVersion(t, u, content)
    requires Signable(content) && content.expiresAt == content.generatedAt + SNAPSHOT_TTL_SECONDS
    requires Latest(t) in t.snapshots ==> RevocationSuccessor(t.snapshots[Latest(t)].content, content)
    ensures Chained(u)
  {
    var n := Latest(u);
    hide RevocationSuccessor, Signable, Latest;
    forall v, w | v in u.snapshots && w in u.snapshots && v < w
      ensures RevocationSuccessor(u.snapshots[v].content, u.snapshots[w].content)
    {
      assert v in t.snapshots;
      if w == n && v < n - 1 {
        assert n - 1 in t.snapshots;
        SuccessorIsTransitive(u.snapshots[v].content, u.snapshots[n - 1].content, content);
      }
    }
  }

  lemma SaveKeepsConsistent(t: Tables, content: RevocationContent)
    requires Consistent(t) && content.snapshotVersion == Latest(t) + 1
    requires Signable(content) && content.expiresAt == content.generatedAt + SNAPSHOT_TTL_SECONDS
    requires Latest(t) in t.snapshots ==> RevocationSuccessor(t.snapshots[Latest(t)].content, content)
    requires content.revocations == Listing(t.revocations)
    ensures SaveBatch(t, content).Some? && Consistent(SaveBatch(t, content).value)
  {
    hide Numbered, Chained, RevocationSuccessor, Signable, Demoted, AddsVersion, Listing, Latest;
    ConsistentParts(t);
    SaveNumbers(t, content);
    var u := SaveBatch(t, content).value;
    SaveChains(t, content, u);
    LatestIs(t, u, content);
  }

  lemma LatestIs(t: Tables, u: Tables, content: RevocationContent)
    requires AddsVersion(t, u, content)
    ensures Latest(u) in u.snapshots && u.snapshots[Latest(u)].content == content
  {
  }

  lemma ListingOfAppend(rows: seq<RevocationRow>, row: RevocationRow)
    ensures Listing(rows + [row]) == SortBy(SerialOf, Entries(rows) + [row.entry])
  {
    assert Entries(rows + [row]) == Entries(rows) + [row.entry];
  }

  /** No row of the table belongs to a certificate whose serial the list accepts as new. */
  lemma AcceptedSerialHasNoRow(t: Tables, id: Id, entry: RevocationEntry)
    requires RowsConsistent(t) && id in t.certificates && t.certificates[id].serial == entry.serial
    requires CumulativeList(t.revocations, Some(entry)).Some?
    ensures !HasRow(t.revocations, id)
  {
  }

  lemma RevokeKeepsRows(t: Tables, id: Id, reason: ReasonCode, at: nat, content: RevocationContent)
    requires CertificatesConsistent(t) && RowsConsistent(t) && id in t.certificates && !HasRow(t.revocations, id)
    requires RevokeBatch(t, id, reason, at, content).Some?
    ensures var u := RevokeBatch(t, id, reason, at, content).value;
      && u.revocations == t.revocations + [RevocationRow(id, RevocationEntry(t.certificates[id].serial, at, reason))]
      && RowsConsistent(u) && CertificatesConsistent(u)
  {
    var u := RevokeBatch(t, id, reason, at, content).value;
    var n := |t.revocations|;
    forall c | c in u.certificates && u.certificates[c].revoked ensures HasRow(u.revocations, c) {
      if c == id {
        assert u.revocations[n].certificate == id;
      } else {
        var i :| 0 <= i < n && t.revocations[i].certificate == c;
        assert u.revocations[i].certificate == c;
      }
    }
    forall i, j | 0 <= i < j < |u.revocations| ensures u.revocations[i].certificate != u.revocations[j].certificate {
      assert u.revocations[i] == t.revocations[i];
    }
  }

  lemma RevokeKeepsConsistent(t: Tables, id: Id, reason: ReasonCode, at: nat, content: RevocationContent)
    requires Consistent(t) && id in t.certificates && content.snapshotVersion == Latest(t) + 1
    requires Signable(content) && content.expiresAt == content.generatedAt + SNAPSHOT_TTL_SECONDS
    requires Latest(t) in t.snapshots ==> RevocationSuccessor(t.snapshots[Latest(t)].content, content)
    requires CumulativeList(t.revocations, Some(RevocationEntry(t.certificates[id].serial, at, reason)))
          == Some(content.revocations)
    ensures RevokeBatch(t, id, reason, at, content).Some?
    ensures Consistent(RevokeBatch(t, id, reason, at, content).value)
  {
    hide RevocationSuccessor, Signable, RevokeBatch, SaveBatch, Chained, RowsConsistent, CertificatesConsistent,
      Listing;
    var entry := RevocationEntry(t.certificates[id].serial, at, reason);
    RevokeNumbers(t, id, reason, at, content);
    var u := RevokeBatch(t, id, reason, at, content).value;
    AcceptedSerialHasNoRow(t, id, entry);
    RevokeKeepsRows(t, id, reason, at, content);
    SaveChains(t, content, u);
    ListingOfAppend(t.revocations, RevocationRow(id, entry));
  }

  lemma RevokeNumbers(t: Tables, id: Id, reason: ReasonCode, at: nat, content: RevocationContent)
    requires Numbered(t) && id in t.certificates && content.snapshotVersion == Latest(t) + 1
    ensures RevokeBatch(t, id, reason, at, content).Some?
    ensures AddsVersion(t, RevokeBatch(t, id, reason, at, content).value, content)
    ensures Numbered(RevokeBatch(t, id, reason, at, content).value)
  {
    SaveNumbers(t, content);
  }

  // ----- Growth: what other runs may rely on -----

  /** The tables only grow: certificates keep their serials, revocation is for good, stored
      snapshots stay, and at equal version the revocations did not change. */
  ghost predicate Grows(t: Tables, u: Tables) {
    && (forall c :: c in t.certificates ==>
          c in u.certificates && u.certificates[c].serial == t.certificates[c].serial
          && (t.certificates[c].revoked ==> u.certificates[c].revoked))
    && (forall v :: v in t.snapshots ==> v in u.snapshots && u.snapshots[v].content == t.snapshots[v].content)
    && Latest(t) <= Latest(u)
    && (Latest(t) == Latest(u) ==> t.revocations == u.revocations)
    && t.revocations <= u.revocations
  }

  lemma FreshnessGrows(t: Tables, u: Tables, clock: nat)
    requires Numbered(u) && Chained(u) && Grows(t, u) && FreshFor(t, clock)
    ensures FreshFor(u, clock)
  {
    hide RevocationSuccessor, Signable;
    assert Latest(t) in u.snapshots && Latest(u) in u.snapshots;
    if Latest(t) < Latest(u) {
      SuccessorOrder(u.snapshots[Latest(t)].content, u.snapshots[Latest(u)].content);
    }
  }

  lemma GrowthKeepsBuilt(t: Tables, u: Tables, run: Run, content: RevocationContent)
    requires Numbered(t) && Numbered(u) && Grows(t, u) && BuiltWell(t, run, content)
    ensures BuiltWell(u, run, content)
  {
    hide RevocationSuccessor, Signable, CumulativeList;
  }

  lemma GrowthKeepsRuns(t: Tables, u: Tables, run: Run)
    requires Consistent(t) && Consistent(u) && Grows(t, u) && RunConsistent(t, run)
    ensures RunConsistent(u, run)
  {
    hide Consistent, BuiltWell, FreshFor, Chained, Numbered, ListsTable, Latest;
    ConsistentParts(t);
    ConsistentParts(u);
    match run.phase
    case Built(content) => GrowthKeepsBuilt(t, u, run, content);
    case Finished =>
      if run.kind.Refresh? {
        FreshnessGrows(t, u, run.clock);
      }
    case _ =>
  }

  lemma PublishGrows(t: Tables, run: Run, content: RevocationContent)
    requires Numbered(t) && content.snapshotVersion == Latest(t) + 1
    requires Publish(t, run, content).Some?
    ensures Grows(t, Publish(t, run, content).value)
    ensures Latest(Publish(t, run, content).value) == Latest(t) + 1
    ensures Publish(t, run, content).value.snapshots[Latest(t) + 1].content == content
    ensures Latest(t) + 1 in Publish(t, run, content).value.snapshots
  {
    SaveNumbers(t, content);
  }

  // ----- One step of one run -----

  lemma PublishKeepsConsistent(t: Tables, run: Run, content: RevocationContent)
    requires Consistent(t) && run.phase == Built(content) && RunConsistent(t, run)
    ensures Publish(t, run, content).Some? <==> content.snapshotVersion == Latest(t) + 1
    ensures Publish(t, run, content).Some? ==> Consistent(Publish(t, run, content).value)
  {
    SaveCommitsOnNextVersion(t, content);
    if content.snapshotVersion == Latest(t) + 1 {
      match run.kind
      case Revoke(id, reason) => RevokeKeepsConsistent(t, id, reason, run.clock, content);
      case _ => SaveKeepsConsistent(t, content);
    }
  }

  lemma AdmitKeeps(t: Tables, run: Run)
    requires Numbered(t) && run.phase.Begun?
    ensures RunConsistent(t, Admit(t, run))
  {
  }

  lemma BuildIsWell(t: Tables, run: Run, current: Option<RevocationContent>, issuerKeyId: Text)
    requires Numbered(t) && run.phase == HasCurrent(current) && RunConsistent(t, run)
    requires Build(t, run, current, issuerKeyId).Built?
    ensures BuiltWell(t, run, Build(t, run, current, issuerKeyId).content)
  {
    hide RevocationSuccessor, Signable, CumulativeList;
  }

  lemma BuildKeeps(t: Tables, run: Run, current: Option<RevocationContent>, issuerKeyId: Text)
    requires Consistent(t) && run.phase == HasCurrent(current) && RunConsistent(t, run)
    ensures RunConsistent(t, run.(phase := Build(t, run, current, issuerKeyId)))
  {
    hide Consistent, Numbered, Chained, ListsTable, BuiltWell, CumulativeList, RevocationSuccessor, Signable;
    ConsistentParts(t);
    if current.Some? {
      RollbackIsUnreachable(t, run, current.value, issuerKeyId);
    }
    var phase := Build(t, run, current, issuerKeyId);
    assert phase.Failed? ==> phase.failure != Rollback;
    if phase.Built? {
      BuildIsWell(t, run, current, issuerKeyId);
      assert SubjectKnown(t, run.(phase := phase));
      BuiltIgnoresPhase(t, run, phase.content, phase);
    } else {
      EndedRunIsConsistent(t, run.(phase := phase));
    }
  }

  lemma BuiltIgnoresPhase(t: Tables, run: Run, content: RevocationContent, phase: Phase)
    requires BuiltWell(t, run, content)
    ensures BuiltWell(t, run.(phase := phase), content)
  {
    assert Additional(run.(phase := phase)) == Additional(run);
  }

  lemma CommitKeeps(t: Tables, run: Run, content: RevocationContent)
    requires Consistent(t) && run.phase == Built(content) && RunConsistent(t, run)
    ensures Publish(t, run, content).Some? ==>
      var u := Publish(t, run, content).value;
      Consistent(u) && Grows(t, u) && RunConsistent(u, run.(phase := Finished))
  {
    PublishKeepsConsistent(t, run, content);
    if Publish(t, run, content).Some? {
      PublishGrows(t, run, content);
    }
  }

  lemma SuspensionKeeps(t: Tables, id: Id, suspend: bool)
    requires Consistent(t)
    ensures Consistent(SuspensionBatch(t, id, suspend)) && Grows(t, SuspensionBatch(t, id, suspend))
  {
    hide RevocationSuccessor, Signable;
  }

  lemma GrowsReflexive(t: Tables)
    ensures Grows(t, t)
  {
  }

  lemma EndedRunIsConsistent(t: Tables, run: Run)
    requires (run.phase.Failed? && run.phase.failure != Rollback) || (run.phase.Finished? && run.kind.Suspension?)
    ensures RunConsistent(t, run)
  {
  }

  lemma ReadKeeps(t: Tables, run: Run)
    requires Numbered(t) && run.phase.Admitted? && !run.kind.Suspension? && RunConsistent(t, run)
    ensures RunConsistent(t, run.(phase := HasCurrent(CurrentContent(t))))
  {
  }

  /** The step changes the tables as growth allows and leaves the run as it must be. */
  lemma StepIsSound(s: State, id: nat, issuerKeyId: Text)
    requires Invariant(s) && id in s.runs
    ensures var n := StepRun(s, id, issuerKeyId);
      Consistent(n.db) && Grows(s.db, n.db) && RunConsistent(n.db, n.runs[id])
  {
    var run := s.runs[id];
    assert RunConsistent(s.db, run) && Consistent(s.db);
    ConsistentParts(s.db);
    GrowsReflexive(s.db);
    hide Invariant, Consistent, Numbered, Grows, RunConsistent, Build, Publish, Admit, SuspensionBatch, CurrentContent;
    match run.phase
    case Begun => AdmitKeeps(s.db, run);
    case Admitted =>
      if run.kind.Suspension? {
        SuspensionKeeps(s.db, run.kind.certificate, run.kind.suspend);
        EndedRunIsConsistent(SuspensionBatch(s.db, run.kind.certificate, run.kind.suspend), run.(phase := Finished));
      } else {
        ReadKeeps(s.db, run);
      }
    case HasCurrent(current) => BuildKeeps(s.db, run, current, issuerKeyId);
    case Built(content) =>
      CommitKeeps(s.db, run, content);
      EndedRunIsConsistent(s.db, run.(phase := Failed(Collision)));
    case _ =>
  }

  lemma StepTouchesOneRun(s: State, id: nat, issuerKeyId: Text, other: nat)
    requires id in s.runs && other in StepRun(s, id, issuerKeyId).runs && other != id
    ensures other in s.runs && StepRun(s, id, issuerKeyId).runs[other] == s.runs[other]
  {
    hide Build, Publish, Admit, SuspensionBatch, CurrentContent;
  }

  lemma StepKeepsInvariant(s: State, id: nat, issuerKeyId: Text)
    requires Invariant(s) && id in s.runs
    ensures Invariant(StepRun(s, id, issuerKeyId)) && Grows(s.db, StepRun(s, id, issuerKeyId).db)
  {
    hide Consistent, RunConsistent, StepRun, Grows;
    StepIsSound(s, id, issuerKeyId);
    var n := StepRun(s, id, issuerKeyId);
    forall other | other in n.runs ensures RunConsistent(n.db, n.runs[other]) {
      if other != id {
        StepTouchesOneRun(s, id, issuerKeyId, other);
        GrowthKeepsRuns(s.db, n.db, s.runs[other]);
      }
    }
  }

  lemma IssueKeepsTables(t: Tables, id: Id, serial: Text)
    requires Consistent(t) && id !in t.certificates
    requires forall c :: c in t.certificates ==> t.certificates[c].serial != serial
    ensures var u := t.(certificates := t.certificates[id := Certificate(serial, false)]);
      Consistent(u) && Grows(t, u)
  {
    hide CertificatesConsistent, RowsConsistent, Numbered, Chained, ListsTable;
    IssueKeepsRows(t, id, serial);
    SameSnapshotsKeep(t, t.(certificates := t.certificates[id := Certificate(serial, false)]));
  }

  /** A new certificate leaves the others and their rows as they are. */
  lemma IssueKeepsRows(t: Tables, id: Id, serial: Text)
    requires CertificatesConsistent(t) && RowsConsistent(t) && id !in t.certificates
    requires forall c :: c in t.certificates ==> t.certificates[c].serial != serial
    ensures var u := t.(certificates := t.certificates[id := Certificate(serial, false)]);
      CertificatesConsistent(u) && RowsConsistent(u)
  {
  }

  /** Three parts of consistency speak of snapshots and rows alone. */
  lemma SameSnapshotsKeep(t: Tables, u: Tables)
    requires u.snapshots == t.snapshots && u.revocations == t.revocations
    requires Numbered(t) && Chained(t) && ListsTable(t)
    ensures Numbered(u) && Chained(u) && ListsTable(u)
  {
    hide RevocationSuccessor, Signable;
  }

  lemma IssueKeepsInvariant(s: State, id: Id, serial: Text)
    requires Invariant(s)
    ensures Invariant(Apply(s, IssueCertificate(id, serial)))
    ensures Grows(s.db, Apply(s, IssueCertificate(id, serial)).db)
  {
    hide Consistent, RunConsistent;
    var n := Apply(s, IssueCertificate(id, serial));
    if n != s {
      IssueKeepsTables(s.db, id, serial);
      forall other | other in n.runs ensures RunConsistent(n.db, n.runs[other]) {
        GrowthKeepsRuns(s.db, n.db, s.runs[other]);
      }
    }
  }

  lemma StartKeeps(s: State, id: nat, kind: Kind, clock: nat)
    requires Invariant(s) && id !in s.runs
    ensures Invariant(s.(runs := s.runs[id := Run(kind, clock, [], Begun)]))
  {
    hide Consistent;
  }

  lemma CrashKeeps(s: State, id: nat)
    requires Invariant(s) && id in s.runs
    ensures Invariant(s.(runs := s.runs[id := s.runs[id].(phase := Failed(Crashed))]))
  {
  }

  lemma ApplyKeepsInvariant(s: State, action: Action)
    requires Invariant(s)
    ensures Invariant(Apply(s, action))
    ensures Grows(s.db, Apply(s, action).db)
  {
    hide Invariant, Grows, StepRun;
    GrowsReflexive(s.db);
    match action
    case Start(id, kind, clock) =>
      if id !in s.runs {
        StartKeeps(s, id, kind, clock);
      }
    case Step(id, issuerKeyId) =>
      if id in s.runs {
        StepKeepsInvariant(s, id, issuerKeyId);
      }
    case Crash(id) =>
      if id in s.runs {
        CrashKeeps(s, id);
      }
    case IssueCertificate(id, serial) => IssueKeepsInvariant(s, id, serial);
  }

  lemma {:induction false} EveryRunKeepsInvariant(s: State, actions: seq<Action>)
    requires Invariant(s)
    ensures Invariant(Play(s, actions))
  {
    hide Invariant, Apply;
    if actions != [] {
      EveryRunKeepsInvariant(s, actions[..|actions| - 1]);
      ApplyKeepsInvariant(Play(s, actions[..|actions| - 1]), actions[|actions| - 1]);
    }
  }

  // ----- The results, over every interleaving -----

  /** Stored versions are exactly 1..n, the current one is n, and its list is the table. */
  lemma PublishedListIsTheTable(s: State, actions: seq<Action>)
    requires Initial(s)
    ensures var t := Play(s, actions).db;
      && (forall v :: v in t.snapshots <==> 1 <= v <= |t.snapshots|)
      && CurrentContent(t) == (if |t.snapshots| > 0 then Some(t.snapshots[|t.snapshots|].content) else None)
      && (|t.snapshots| > 0 ==>
            && CurrentContent(t).value.snapshotVersion == |t.snapshots|
            && CurrentContent(t).value.revocations == Listing(t.revocations))
  {
    EveryRunKeepsInvariant(s, actions);
    CurrentIsLatest(Play(s, actions).db);
  }

  /** A batch commits exactly when no version was stored since its run read the current
      one; otherwise it leaves every table as it was. */
  lemma StaleBatchAborts(s: State, actions: seq<Action>, id: nat, issuerKeyId: Text)
    requires Initial(s)
    requires id in Play(s, actions).runs && Play(s, actions).runs[id].phase.Built?
    ensures var before := Play(s, actions);
      var after := Apply(before, Step(id, issuerKeyId));
      var read := before.runs[id].phase.content.snapshotVersion - 1;
      && read <= Latest(before.db)
      && (after.runs[id].phase == Finished <==> read == Latest(before.db))
      && (read < Latest(before.db) ==> after.db == before.db && after.runs[id].phase == Failed(Collision))
  {
    hide Play, Initial, Consistent, RunConsistent, Publish;
    InitialIsInvariant(s);
    EveryRunKeepsInvariant(s, actions);
    var before := Play(s, actions);
    var run := before.runs[id];
    BuiltIsBounded(before.db, run, run.phase.content);
    PublishKeepsConsistent(before.db, run, run.phase.content);
  }

  lemma BuiltIsBounded(t: Tables, run: Run, content: RevocationContent)
    requires RunConsistent(t, run) && run.phase == Built(content)
    ensures 1 <= content.snapshotVersion <= Latest(t) + 1
  {
  }

  /** Any two stored snapshots pass the anti-rollback validator, in version order. */
  lemma StoredPairsAreSuccessors(s: State, actions: seq<Action>, v: nat, w: nat)
    requires Initial(s)
    requires v in Play(s, actions).db.snapshots && w in Play(s, actions).db.snapshots && v < w
    ensures var t := Play(s, actions).db; RevocationSuccessor(t.snapshots[v].content, t.snapshots[w].content)
  {
    EveryRunKeepsInvariant(s, actions);
  }

  /** No run ever ends in the anti-rollback failure branch. */
  lemma NoRunRollsBack(s: State, actions: seq<Action>, id: nat)
    requires Initial(s) && id in Play(s, actions).runs
    ensures Play(s, actions).runs[id].phase != Failed(Rollback)
  {
    EveryRunKeepsInvariant(s, actions);
    assert RunConsistent(Play(s, actions).db, Play(s, actions).runs[id]);
  }

  lemma {:induction false} TablesOnlyGrow(s: State, actions: seq<Action>)
    requires Invariant(s)
    ensures Grows(s.db, Play(s, actions).db)
  {
    hide Invariant, Apply;
    if actions != [] {
      var front := actions[..|actions| - 1];
      TablesOnlyGrow(s, front);
      EveryRunKeepsInvariant(s, front);
      ApplyKeepsInvariant(Play(s, front), actions[|actions| - 1]);
    }
  }

  lemma InitialIsInvariant(s: State)
    requires Initial(s)
    ensures Invariant(s)
  {
    hide Consistent;
  }

  lemma GrowthKeepsRevoked(t: Tables, u: Tables, id: Id)
    requires Grows(t, u) && StatusOf(t, id) == Some(PermanentlyRevoked)
    ensures StatusOf(u, id) == Some(PermanentlyRevoked)
  {
  }

  lemma InvariantHasRows(s: State)
    requires Invariant(s)
    ensures CertificatesConsistent(s.db) && RowsConsistent(s.db)
  {
  }

  /** Revocation absorbs: from any reachable state, whatever suspensions, restores and other
      runs follow, a revoked certificate stays revoked and keeps exactly one row. */
  lemma RevocationAbsorbs(s: State, past: seq<Action>, future: seq<Action>, id: Id)
    requires Initial(s)
    requires StatusOf(Play(s, past).db, id) == Some(PermanentlyRevoked)
    ensures var t := Play(Play(s, past), future).db;
      && StatusOf(t, id) == Some(PermanentlyRevoked)
      && (exists i :: 0 <= i < |t.revocations| && t.revocations[i].certificate == id)
      && (forall i, j :: 0 <= i < j < |t.revocations| ==>
            !(t.revocations[i].certificate == id && t.revocations[j].certificate == id))
  {
    hide Invariant, Grows, Play, Initial;
    InitialIsInvariant(s);
    EveryRunKeepsInvariant(s, past);
    EveryRunKeepsInvariant(Play(s, past), future);
    TablesOnlyGrow(Play(s, past), future);
    GrowthKeepsRevoked(Play(s, past).db, Play(Play(s, past), future).db, id);
    InvariantHasRows(Play(Play(s, past), future));
  }

  /** Conversely a row exists only for a revoked certificate: status and rows agree. */
  lemma RowsMeanRevoked(s: State, actions: seq<Action>, id: Id)
    requires Initial(s) && id in Play(s, actions).db.certificates
    ensures HasRow(Play(s, actions).db.revocations, id)
      <==> StatusOf(Play(s, actions).db, id) == Some(PermanentlyRevoked)
  {
    EveryRunKeepsInvariant(s, actions);
  }

  // ----- What a refresh leaves behind -----

  /** However its steps interleave, a refresh that ends well leaves the current snapshot
      good for more than the refresh window after the refresh began. */
  lemma FinishedRefreshIsFresh(s: State, actions: seq<Action>, id: nat)
    requires Initial(s) && id in Play(s, actions).runs
    requires Play(s, actions).runs[id].kind == Refresh && Play(s, actions).runs[id].phase == Finished
    ensures CurrentContent(Play(s, actions).db).Some?
    ensures CurrentContent(Play(s, actions).db).value.expiresAt
          > Play(s, actions).runs[id].clock + REFRESH_WINDOW_SECONDS
  {
    EveryRunKeepsInvariant(s, actions);
    assert RunConsistent(Play(s, actions).db, Play(s, actions).runs[id]);
    CurrentIsLatest(Play(s, actions).db);
  }

  lemma InvariantHasChain(s: State)
    requires Invariant(s)
    ensures Numbered(s.db) && Chained(s.db)
  {
  }
}
