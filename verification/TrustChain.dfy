/** Chains of accepted trust snapshots, with status runs and signer runs interleaved at
    their awaits. Models `admin_register_trust_snapshot`, `admin_change_issuer_status` and
    `active_certificate_signer` of src/lib.rs. One registration checks and commits in a
    single step. */
module TrustChain {
  import opened Prelude
  import opened Cryptography
  import opened Sorting
  import opened TrustMaterial
  import opened TrustRegistry

  datatype StatusRun = StatusRun(key: Text, desired: IssuerStatus)

  /** A signer that has read and accepted the snapshot at `read`, and reads the row next. */
  datatype SignerRun = SignerRun(key: Text, read: nat)

  /** A signer went ahead with `key` while the snapshot at `at` was current. */
  datatype Choice = Choice(key: Text, at: nat)

  /** `history` is every accepted snapshot in order; the last one is current. */
  datatype State = State(
    history: seq<TrustContent>,
    registry: Registry,
    statusRuns: map<nat, StatusRun>,
    signerRuns: map<nat, SignerRun>,
    choices: seq<Choice>)

  datatype Action =
    | Register(content: TrustContent)
    | ReadForStatus(run: nat, key: Text, desired: IssuerStatus)
    | WriteStatus(run: nat)
    | ReadForSigning(run: nat, key: Text, clock: nat)
    | CheckRegistry(run: nat)

  // ----- Registration -----

  predicate RegistryAccepts(registry: Registry, content: TrustContent) {
    forall key :: key in registry ==>
      && FindIssuer(content.issuers, key).Some?
      && FindIssuer(content.issuers, key).value.publicKey == registry[key].publicKey
      && TransitionAllowed(registry[key].status, FindIssuer(content.issuers, key).value.status)
  }

  ghost predicate Accepted(c: Primitives, s: State, content: TrustContent) {
    && ValidTrust(c, content)
    && (s.history != [] ==> TrustSuccessor(c, s.history[|s.history| - 1], content))
    && RegistryAccepts(s.registry, content)
  }

  ghost predicate VersionStored(s: State, version: nat) {
    exists i :: 0 <= i < |s.history| && s.history[i].snapshotVersion == version
  }

  /** The committing batch, as Store.RegisterTrustSnapshot performs it. */
  ghost function Registered(s: State, content: TrustContent): State {
    if VersionStored(s, content.snapshotVersion) || !RolloverInOrder(s.registry, content.issuers) then s
    else s.(history := s.history + [content], registry := Projection(content.issuers, content.snapshotVersion))
  }

  // ----- Signing -----

  /** What the signer asks of the trust snapshot it has read. */
  predicate SnapshotAuthorizes(content: TrustContent, key: Text, clock: nat) {
    var issuer := FindIssuer(content.issuers, key);
    && issuer.Some? && issuer.value.status.Active?
    && CertificateSigning() in issuer.value.allowedKeyUsages
    && issuer.value.notBefore <= clock < issuer.value.notAfter
  }

  /** What it then asks of the registry row. */
  predicate RowAgrees(registry: Registry, content: TrustContent, key: Text) {
    && key in registry && FindIssuer(content.issuers, key).Some?
    && var issuer := FindIssuer(content.issuers, key).value;
      && registry[key].publicKey == issuer.publicKey
      && registry[key].status.Active?
      && registry[key].notBefore == issuer.notBefore
      && registry[key].notAfter == issuer.notAfter
      && registry[key].version == content.snapshotVersion
  }

  ghost function Apply(c: Primitives, s: State, action: Action): State {
    match action
    case Register(content) => if Accepted(c, s, content) then Registered(s, content) else s
    case ReadForStatus(run, key, desired) =>
      if s.history == [] || desired.Future? || run in s.statusRuns then s
      else
        var issuer := FindIssuer(s.history[|s.history| - 1].issuers, key);
        if issuer.Some? && issuer.value.status == desired then
          s.(statusRuns := s.statusRuns[run := StatusRun(key, desired)])
        else s
    case WriteStatus(run) =>
      if run !in s.statusRuns then s
      else
        var written := SetStatus(s.registry, s.statusRuns[run].key, s.statusRuns[run].desired);
        s.(statusRuns := s.statusRuns - {run}, registry := if written.Some? then written.value else s.registry)
    case ReadForSigning(run, key, clock) =>
      if s.history != [] && run !in s.signerRuns && SnapshotAuthorizes(s.history[|s.history| - 1], key, clock) then
        s.(signerRuns := s.signerRuns[run := SignerRun(key, |s.history| - 1)])
      else s
    case CheckRegistry(run) =>
      if run !in s.signerRuns || s.signerRuns[run].read >= |s.history| then s
      else
        var signer := s.signerRuns[run];
        s.(signerRuns := s.signerRuns - {run},
           choices := if RowAgrees(s.registry, s.history[signer.read], signer.key)
                      then s.choices + [Choice(signer.key, |s.history| - 1)] else s.choices)
  }

  ghost function Play(c: Primitives, actions: seq<Action>): State {
    if actions == [] then State([], map[], map[], map[], [])
    else Apply(c, Play(c, actions[..|actions| - 1]), actions[|actions| - 1])
  }

  // ----- The chain of snapshots -----

  ghost predicate Chain(c: Primitives, history: seq<TrustContent>) {
    && (forall i :: 0 <= i < |history| ==> ValidTrust(c, history[i]))
    && (forall i :: 0 < i < |history| ==> TrustSuccessor(c, history[i - 1], history[i]))
  }

  function Rank(status: IssuerStatus): nat {
    match status
    case Future => 0
    case Active => 1
    case Retired => 2
    case Revoked => 3
  }

  predicate ActiveAt(content: TrustContent, key: Text) {
    FindIssuer(content.issuers, key).Some? && FindIssuer(content.issuers, key).value.status.Active?
  }

  predicate RevokedAt(content: TrustContent, key: Text) {
    FindIssuer(content.issuers, key).Some? && FindIssuer(content.issuers, key).value.status.Revoked?
  }

  /** One step of the chain: the issuer is still there, under its key, no lower in rank. */
  lemma SuccessorKeepsIssuer(c: Primitives, current: TrustContent, next: TrustContent, key: Text)
    requires TrustSuccessor(c, current, next) && FindIssuer(current.issuers, key).Some?
    ensures FindIssuer(next.issuers, key).Some?
    ensures CarriesOn(FindIssuer(current.issuers, key).value, FindIssuer(next.issuers, key).value)
  {
    hide ValidTrust;
    var existing := FindIssuer(current.issuers, key).value;
    assert Continues(existing, next.issuers);
    var k :| 0 <= k < |next.issuers| && CarriesOn(existing, next.issuers[k]);
    ValidIsSorted(c, next);
    FoundIsUnique(next.issuers, next.issuers[k]);
  }

  /** Along a chain no issuer disappears, its public key never changes and its status rank
      never falls. */
  lemma {:induction false} ChainKeepsIssuers(c: Primitives, history: seq<TrustContent>, i: nat, j: nat, key: Text)
    requires Chain(c, history) && i <= j < |history| && FindIssuer(history[i].issuers, key).Some?
    ensures FindIssuer(history[j].issuers, key).Some?
    ensures FindIssuer(history[j].issuers, key).value.publicKey == FindIssuer(history[i].issuers, key).value.publicKey
    ensures Rank(FindIssuer(history[i].issuers, key).value.status)
         <= Rank(FindIssuer(history[j].issuers, key).value.status)
    decreases j
  {
    hide ValidTrust, TrustSuccessor, FindIssuer;
    if i < j {
      ChainKeepsIssuers(c, history, i, j - 1, key);
      SuccessorKeepsIssuer(c, history[j - 1], history[j], key);
    }
  }

  lemma {:induction false} ChainVersionsIncrease(c: Primitives, history: seq<TrustContent>, i: nat, j: nat)
    requires Chain(c, history) && i < j < |history|
    ensures history[i].snapshotVersion < history[j].snapshotVersion
    decreases j
  {
    assert TrustSuccessor(c, history[j - 1], history[j]);
    if i < j - 1 {
      ChainVersionsIncrease(c, history, i, j - 1);
    }
  }

  /** An issuer that was future and is now retired was active in some snapshot between. The
      transition relation is not transitive, so this says more than the endpoints do. */
  lemma {:induction false} RetiredWasActive(c: Primitives, history: seq<TrustContent>, i: nat, j: nat, key: Text)
    requires Chain(c, history) && i <= j < |history| && FindIssuer(history[i].issuers, key).Some?
    requires FindIssuer(history[i].issuers, key).value.status.Future?
    requires FindIssuer(history[j].issuers, key).Some? && FindIssuer(history[j].issuers, key).value.status.Retired?
    ensures exists k :: i < k < j && ActiveAt(history[k], key)
    decreases j
  {
    hide ValidTrust, TrustSuccessor, FindIssuer;
    ChainKeepsIssuers(c, history, i, j - 1, key);
    SuccessorKeepsIssuer(c, history[j - 1], history[j], key);
    if FindIssuer(history[j - 1].issuers, key).value.status.Retired? {
      RetiredWasActive(c, history, i, j - 1, key);
    }
  }

  // ----- What every interleaving keeps -----

  /** Only statuses can stray from the current snapshot. */
  ghost predicate RowsFollow(registry: Registry, content: TrustContent) {
    forall key ::
      && (key in registry <==> FindIssuer(content.issuers, key).Some?)
      && (key in registry ==>
            registry[key] == RowOf(FindIssuer(content.issuers, key).value, content.snapshotVersion).(
              status := registry[key].status))
  }

  ghost predicate Invariant(c: Primitives, s: State) {
    && Chain(c, s.history)
    && OneActive(s.registry)
    && (if s.history == [] then s.registry == map[] else RowsFollow(s.registry, s.history[|s.history| - 1]))
    && (forall run :: run in s.signerRuns ==> s.signerRuns[run].read < |s.history|)
    && (forall run :: run in s.signerRuns ==>
          ActiveAt(s.history[s.signerRuns[run].read], s.signerRuns[run].key))
    && (forall i :: 0 <= i < |s.choices| ==> s.choices[i].at < |s.history|)
    && (forall i :: 0 <= i < |s.choices| ==> ActiveAt(s.history[s.choices[i].at], s.choices[i].key))
  }

  /** A successor finds every row of the registry replaceable. */
  lemma SuccessorMeetsRegistry(c: Primitives, s: State, content: TrustContent)
    requires Invariant(c, s) && Accepted(c, s, content)
    ensures Replaceable(s.registry, content)
    ensures !VersionStored(s, content.snapshotVersion)
  {
    hide ValidTrust, FindIssuer;
    forall i | 0 <= i < |s.history| ensures s.history[i].snapshotVersion < content.snapshotVersion {
      if i < |s.history| - 1 {
        ChainVersionsIncrease(c, s.history, i, |s.history| - 1);
      }
    }
  }

  lemma RegisterApplies(c: Primitives, s: State, content: TrustContent)
    requires Accepted(c, s, content)
    ensures Apply(c, s, Register(content)) == Registered(s, content)
  {
  }

  lemma RegisterKeeps(c: Primitives, s: State, content: TrustContent)
    requires Invariant(c, s) && Accepted(c, s, content)
    ensures Invariant(c, Registered(s, content))
  {
    hide ValidTrust, FindIssuer, RolloverInOrder, VersionStored, RegistryAccepts, ActiveAt, TrustSuccessor;
    var n := Registered(s, content);
    if n != s {
      ValidIsSorted(c, content);
      ProjectionHasOneActive(content);
      ProjectionFollows(content);
      assert Chain(c, n.history);
    }
  }

  lemma ProjectionFollows(content: TrustContent)
    requires StrictlySortedBy(KeyOf, content.issuers)
    ensures RowsFollow(Projection(content.issuers, content.snapshotVersion), content)
  {
    hide FindIssuer;
    forall key
      ensures key in Projection(content.issuers, content.snapshotVersion) <==> FindIssuer(content.issuers, key).Some?
      ensures key in Projection(content.issuers, content.snapshotVersion) ==>
        Projection(content.issuers, content.snapshotVersion)[key]
        == RowOf(FindIssuer(content.issuers, key).value, content.snapshotVersion)
    {
      ProjectionAt(content, key);
    }
  }

  lemma StatusWriteKeeps(registry: Registry, content: TrustContent, key: Text, status: IssuerStatus)
    requires OneActive(registry) && RowsFollow(registry, content) && SetStatus(registry, key, status).Some?
    ensures OneActive(SetStatus(registry, key, status).value)
    ensures RowsFollow(SetStatus(registry, key, status).value, content)
  {
    hide FindIssuer;
  }

  /** A registry row that agrees with the snapshot read proves it still current. */
  lemma AgreementMeansCurrent(c: Primitives, s: State, read: nat, key: Text)
    requires Chain(c, s.history) && read < |s.history| && RowsFollow(s.registry, s.history[|s.history| - 1])
    requires RowAgrees(s.registry, s.history[read], key)
    ensures read == |s.history| - 1
  {
    hide FindIssuer, TrustSuccessor, ValidTrust, Chain;
    if read < |s.history| - 1 {
      ChainVersionsIncrease(c, s.history, read, |s.history| - 1);
    }
  }

  lemma CheckKeeps(c: Primitives, s: State, run: nat)
    requires Invariant(c, s)
    ensures Invariant(c, Apply(c, s, CheckRegistry(run)))
  {
    hide Chain, OneActive, RowsFollow, FindIssuer, RowAgrees, ActiveAt, Accepted, Registered, SetStatus,
      SnapshotAuthorizes;
    if run in s.signerRuns && RowAgrees(s.registry, s.history[s.signerRuns[run].read], s.signerRuns[run].key) {
      AgreementMeansCurrent(c, s, s.signerRuns[run].read, s.signerRuns[run].key);
    }
  }

  lemma ReadKeeps(c: Primitives, s: State, run: nat, key: Text, clock: nat)
    requires Invariant(c, s)
    ensures Invariant(c, Apply(c, s, ReadForSigning(run, key, clock)))
  {
    hide Chain, OneActive, RowsFollow, Accepted, Registered, SetStatus, RowAgrees;
  }

  lemma StatusRunsKeep(c: Primitives, s: State, action: Action)
    requires Invariant(c, s) && (action.ReadForStatus? || action.WriteStatus?)
    ensures Invariant(c, Apply(c, s, action))
  {
    hide Chain, OneActive, RowsFollow, ActiveAt, FindIssuer, SetStatus, Accepted, Registered, RowAgrees,
      SnapshotAuthorizes;
    if action.WriteStatus? {
      WriteKeepsRegistry(c, s, action.run);
    }
  }

  lemma ApplyKeepsInvariant(c: Primitives, s: State, action: Action)
    requires Invariant(c, s)
    ensures Invariant(c, Apply(c, s, action))
  {
    hide Invariant, Accepted, Registered;
    match action
    case Register(content) =>
      if Accepted(c, s, content) {
        RegisterKeeps(c, s, content);
      }
    case ReadForStatus(_, _, _) => StatusRunsKeep(c, s, action);
    case WriteStatus(_) => StatusRunsKeep(c, s, action);
    case ReadForSigning(run, key, clock) => ReadKeeps(c, s, run, key, clock);
    case CheckRegistry(run) => CheckKeeps(c, s, run);
  }

  lemma WriteKeepsRegistry(c: Primitives, s: State, run: nat)
    requires Invariant(c, s)
    ensures var n := Apply(c, s, WriteStatus(run));
      && OneActive(n.registry)
      && (if s.history == [] then n.registry == map[] else RowsFollow(n.registry, s.history[|s.history| - 1]))
  {
    hide Chain, FindIssuer, ActiveAt;
    if run in s.statusRuns && s.history != [] {
      var w := s.statusRuns[run];
      if SetStatus(s.registry, w.key, w.desired).Some? {
        StatusWriteKeeps(s.registry, s.history[|s.history| - 1], w.key, w.desired);
      }
    }
  }

  lemma {:induction false} EveryRunKeepsInvariant(c: Primitives, actions: seq<Action>)
    ensures Invariant(c, Play(c, actions))
  {
    hide Apply;
    if actions != [] {
      hide Invariant;
      EveryRunKeepsInvariant(c, actions[..|actions| - 1]);
      ApplyKeepsInvariant(c, Play(c, actions[..|actions| - 1]), actions[|actions| - 1]);
    }
  }

  // ----- Stale statuses -----

  /** A status that a snapshot has signed before, or still signs, may differ from `signed`
      only by being behind it; a future one is never behind. */
  predicate NotAhead(status: IssuerStatus, signed: IssuerStatus) {
    Rank(status) <= Rank(signed) && (status.Future? ==> signed.Future?)
  }

  predicate BehindSnapshot(content: TrustContent, key: Text, status: IssuerStatus) {
    FindIssuer(content.issuers, key).Some? && NotAhead(status, FindIssuer(content.issuers, key).value.status)
  }

  /** No row and no pending write is ahead of the current snapshot, and no write is to
      future. */
  ghost predicate StatusesBehind(s: State) {
    if s.history == [] then s.registry == map[] && s.statusRuns == map[]
    else
      var current := s.history[|s.history| - 1];
      && (forall key :: key in s.registry ==> BehindSnapshot(current, key, s.registry[key].status))
      && (forall run :: run in s.statusRuns ==>
            !s.statusRuns[run].desired.Future?
            && BehindSnapshot(current, s.statusRuns[run].key, s.statusRuns[run].desired))
  }

  lemma SuccessorStaysAhead(c: Primitives, current: TrustContent, next: TrustContent, key: Text, status: IssuerStatus)
    requires TrustSuccessor(c, current, next) && BehindSnapshot(current, key, status) && !status.Future?
    ensures BehindSnapshot(next, key, status)
  {
    hide TrustSuccessor, FindIssuer;
    SuccessorKeepsIssuer(c, current, next, key);
  }

  lemma RegisterKeepsBehind(c: Primitives, s: State, content: TrustContent)
    requires Accepted(c, s, content) && StatusesBehind(s)
    ensures StatusesBehind(Registered(s, content))
  {
    hide ValidTrust, TrustSuccessor, FindIssuer, RolloverInOrder, RegistryAccepts, VersionStored, BehindSnapshot;
    var n := Registered(s, content);
    if n != s {
      ValidIsSorted(c, content);
      forall key | key in n.registry ensures BehindSnapshot(content, key, n.registry[key].status) {
        ProjectionIsBehind(content, key);
      }
      forall run | run in s.statusRuns
        ensures BehindSnapshot(content, s.statusRuns[run].key, s.statusRuns[run].desired)
      {
        SuccessorStaysAhead(c, s.history[|s.history| - 1], content, s.statusRuns[run].key, s.statusRuns[run].desired);
      }
    }
  }

  lemma ProjectionIsBehind(content: TrustContent, key: Text)
    requires StrictlySortedBy(KeyOf, content.issuers) && key in Projection(content.issuers, content.snapshotVersion)
    ensures BehindSnapshot(content, key, Projection(content.issuers, content.snapshotVersion)[key].status)
  {
    ProjectionAt(content, key);
  }

  lemma ApplyKeepsBehind(c: Primitives, s: State, action: Action)
    requires StatusesBehind(s)
    ensures StatusesBehind(Apply(c, s, action))
  {
    hide Accepted, Registered, RowAgrees, SnapshotAuthorizes, FindIssuer;
    match action
    case Register(content) =>
      if Accepted(c, s, content) {
        RegisterKeepsBehind(c, s, content);
      }
    case _ =>
  }

  lemma {:induction false} EveryRunKeepsBehind(c: Primitives, actions: seq<Action>)
    ensures StatusesBehind(Play(c, actions))
  {
    hide Apply;
    if actions != [] {
      EveryRunKeepsBehind(c, actions[..|actions| - 1]);
      ApplyKeepsBehind(c, Play(c, actions[..|actions| - 1]), actions[|actions| - 1]);
    }
  }

  lemma TransitionFromBehind(row: IssuerStatus, signed: IssuerStatus, next: IssuerStatus)
    requires NotAhead(row, signed) && TransitionAllowed(signed, next)
    ensures TransitionAllowed(row, next)
  {
  }

  lemma RowPassesChecks(c: Primitives, s: State, content: TrustContent, key: Text)
    requires Invariant(c, s) && StatusesBehind(s) && s.history != [] && key in s.registry
    requires TrustSuccessor(c, s.history[|s.history| - 1], content)
    ensures FindIssuer(content.issuers, key).Some?
    ensures FindIssuer(content.issuers, key).value.publicKey == s.registry[key].publicKey
    ensures TransitionAllowed(s.registry[key].status, FindIssuer(content.issuers, key).value.status)
  {
    hide TrustSuccessor, FindIssuer, Chain, TransitionAllowed, ActiveAt;
    var current := s.history[|s.history| - 1];
    assert RowsFollow(s.registry, current) && BehindSnapshot(current, key, s.registry[key].status);
    SuccessorKeepsIssuer(c, current, content, key);
    TransitionFromBehind(s.registry[key].status, FindIssuer(current.issuers, key).value.status,
                         FindIssuer(content.issuers, key).value.status);
  }

  /** What the checks against snapshots alone accept. */
  ghost predicate Succeeds(c: Primitives, s: State, content: TrustContent) {
    ValidTrust(c, content) && (s.history != [] ==> TrustSuccessor(c, s.history[|s.history| - 1], content))
  }

  // ----- Results -----

  /** The checks against the registry refuse no successor, in any reachable state: no stale
      status write makes an issuer look omitted, re-keyed or out of transition. */
  lemma RegistryChecksNeverRefuse(c: Primitives, actions: seq<Action>, content: TrustContent)
    requires Succeeds(c, Play(c, actions), content)
    ensures RegistryAccepts(Play(c, actions).registry, content)
    ensures Accepted(c, Play(c, actions), content)
  {
    hide Apply, TrustSuccessor, ValidTrust, FindIssuer, TransitionAllowed;
    EveryRunKeepsInvariant(c, actions);
    EveryRunKeepsBehind(c, actions);
    var s := Play(c, actions);
    if s.history != [] {
      forall key | key in s.registry
        ensures FindIssuer(content.issuers, key).Some?
        ensures FindIssuer(content.issuers, key).value.publicKey == s.registry[key].publicKey
        ensures TransitionAllowed(s.registry[key].status, FindIssuer(content.issuers, key).value.status)
      {
        RowPassesChecks(c, s, content, key);
      }
    }
  }

  /** So a valid successor is registered exactly when the rollover is in order, whatever
      stale status writes have done; then registry and snapshot agree again. */
  lemma RegistrationCommits(c: Primitives, actions: seq<Action>, content: TrustContent)
    requires Succeeds(c, Play(c, actions), content)
    ensures var s, n := Play(c, actions), Apply(c, Play(c, actions), Register(content));
      && (RolloverInOrder(s.registry, content.issuers) ==>
            n.history == s.history + [content] && InSync(n.registry, content))
      && (!RolloverInOrder(s.registry, content.issuers) ==> n == s)
  {
    hide Apply, Succeeds;
    EveryRunKeepsInvariant(c, actions);
    RegistryChecksNeverRefuse(c, actions, content);
    SuccessorMeetsRegistry(c, Play(c, actions), content);
    RegisterApplies(c, Play(c, actions), content);
  }

  /** And the rollover can be out of order: two issuers sorted one after the other, the later
      one active. The successor that hands over to the earlier one passes every check, and
      its registration is refused. */
  lemma RolloverCanBeRefused(c: Primitives, first: TrustContent, second: TrustContent)
    requires ValidTrust(c, first) && ValidTrust(c, second)
    requires first.snapshotVersion < second.snapshotVersion && first.generatedAt <= second.generatedAt
    requires |first.issuers| == 2 && first.issuers[0].status.Future? && first.issuers[1].status.Active?
    requires second.issuers == [first.issuers[0].(status := Active), first.issuers[1].(status := Retired)]
    ensures var s := Play(c, [Register(first)]);
      && s.history == [first] && InSync(s.registry, first)
      && Accepted(c, s, second)
      && Apply(c, s, Register(second)) == s
  {
    hide ValidTrust, Apply, InSync;
    StartsEmpty(c, Register(first));
    RegistrationCommits(c, [], first);
    var s := Play(c, [Register(first)]);
    HandoverSucceeds(c, first, second);
    RegistryChecksNeverRefuse(c, [Register(first)], second);
    RegistrationCommits(c, [Register(first)], second);
    LaterIsActive(c, first, second, s.registry);
  }

  lemma StartsEmpty(c: Primitives, action: Action)
    ensures Play(c, []) == State([], map[], map[], map[], [])
    ensures Play(c, [action]) == Apply(c, Play(c, []), action)
  {
  }

  lemma HandoverSucceeds(c: Primitives, first: TrustContent, second: TrustContent)
    requires ValidTrust(c, first) && ValidTrust(c, second)
    requires first.snapshotVersion < second.snapshotVersion && first.generatedAt <= second.generatedAt
    requires |first.issuers| == 2 && first.issuers[0].status.Future? && first.issuers[1].status.Active?
    requires second.issuers == [first.issuers[0].(status := Active), first.issuers[1].(status := Retired)]
    ensures TrustSuccessor(c, first, second)
  {
    hide ValidTrust;
    assert CarriesOn(first.issuers[0], second.issuers[0]) && CarriesOn(first.issuers[1], second.issuers[1]);
  }

  lemma LaterIsActive(c: Primitives, first: TrustContent, second: TrustContent, registry: Registry)
    requires ValidTrust(c, first) && |first.issuers| == 2 && first.issuers[1].status.Active?
    requires second.issuers == [first.issuers[0].(status := Active), first.issuers[1].(status := Retired)]
    requires InSync(registry, first)
    ensures !RolloverInOrder(registry, second.issuers)
  {
    ValidIsSorted(c, first);
    hide ValidTrust;
    OverlayOfIssuer(map[], first.issuers, first.snapshotVersion, 1);
    SortedAt(first.issuers, 1, 0);
    SortedAt(first.issuers, 0, 1);
    PrecedesIsIrreflexive(first.issuers[0].issuerKeyId);
    assert second.issuers[0].status.Active? && first.issuers[1].issuerKeyId in registry;
  }

  /** Every reachable history is a chain: versions increase, issuers stay with their keys,
      and status ranks never fall. */
  lemma HistoriesAreChains(c: Primitives, actions: seq<Action>, i: nat, j: nat, key: Text)
    requires i < j < |Play(c, actions).history|
    ensures var h := Play(c, actions).history;
      && TrustSuccessor(c, h[j - 1], h[j])
      && h[i].snapshotVersion < h[j].snapshotVersion
      && (FindIssuer(h[i].issuers, key).Some? ==>
            && FindIssuer(h[j].issuers, key).Some?
            && FindIssuer(h[j].issuers, key).value.publicKey == FindIssuer(h[i].issuers, key).value.publicKey
            && Rank(FindIssuer(h[i].issuers, key).value.status) <= Rank(FindIssuer(h[j].issuers, key).value.status))
  {
    hide TrustSuccessor, FindIssuer, Apply;
    EveryRunKeepsInvariant(c, actions);
    var h := Play(c, actions).history;
    ChainVersionsIncrease(c, h, i, j);
    if FindIssuer(h[i].issuers, key).Some? {
      ChainKeepsIssuers(c, h, i, j, key);
    }
  }

  /** Once a snapshot revokes an issuer, no signer goes ahead with it any more, however
      stale what it read and whatever status runs have written to the registry. */
  lemma RevokedIsNeverChosen(c: Primitives, actions: seq<Action>, i: nat, choice: nat)
    requires i < |Play(c, actions).history| && choice < |Play(c, actions).choices|
    requires RevokedAt(Play(c, actions).history[i], Play(c, actions).choices[choice].key)
    ensures Play(c, actions).choices[choice].at < i
  {
    hide Apply, FindIssuer, TrustSuccessor;
    EveryRunKeepsInvariant(c, actions);
    var s := Play(c, actions);
    var chosen := s.choices[choice];
    assert ActiveAt(s.history[chosen.at], chosen.key);
    if i <= chosen.at {
      ChainKeepsIssuers(c, s.history, i, chosen.at, chosen.key);
    }
  }

  /** The run has no pending write, or one to the status that the current snapshot signs. */
  ghost predicate WriteIsCurrent(s: State, run: nat) {
    run in s.statusRuns ==>
      && s.history != []
      && var issuer := FindIssuer(s.history[|s.history| - 1].issuers, s.statusRuns[run].key);
      && issuer.Some? && issuer.value.status == s.statusRuns[run].desired
  }

  ghost predicate Synced(s: State) {
    s.history != [] && InSync(s.registry, s.history[|s.history| - 1])
  }

  lemma CurrentWriteChangesNothing(c: Primitives, s: State, run: nat)
    requires Invariant(c, s) && Synced(s) && run in s.statusRuns && WriteIsCurrent(s, run)
    ensures Apply(c, s, WriteStatus(run)) == s.(statusRuns := s.statusRuns - {run})
  {
    var current := s.history[|s.history| - 1];
    hide TrustSuccessor, FindIssuer, RowsFollow, ActiveAt;
    ValidIsSorted(c, current);
    StatusWriteKeepsSync(s.registry, current, s.statusRuns[run].key, s.statusRuns[run].desired);
  }

  lemma ApplyKeepsCurrent(c: Primitives, s: State, action: Action, run: nat)
    requires WriteIsCurrent(s, run) && !action.Register?
    ensures WriteIsCurrent(Apply(c, s, action), run) && Apply(c, s, action).history == s.history
  {
    hide FindIssuer, SnapshotAuthorizes, RowAgrees, SetStatus, Accepted, Registered;
  }

  lemma ApplyKeepsSync(c: Primitives, s: State, action: Action)
    requires Invariant(c, s) && Synced(s) && !action.Register?
    requires action.WriteStatus? ==> WriteIsCurrent(s, action.run)
    ensures Apply(c, s, action).registry == s.registry
  {
    hide Invariant, InSync, FindIssuer, SnapshotAuthorizes, RowAgrees, SetStatus;
    if action.WriteStatus? && action.run in s.statusRuns {
      CurrentWriteChangesNothing(c, s, action.run);
    }
  }

  lemma PlayOneMore(c: Primitives, actions: seq<Action>, action: Action)
    ensures Play(c, actions + [action]) == Apply(c, Play(c, actions), action)
  {
    hide Apply;
    assert (actions + [action])[..|actions|] == actions;
  }

  lemma {:induction false} WriteStaysCurrent(c: Primitives, actions: seq<Action>, between: seq<Action>, run: nat)
    requires WriteIsCurrent(Play(c, actions), run)
    requires forall i :: 0 <= i < |between| ==> !between[i].Register?
    ensures WriteIsCurrent(Play(c, actions + between), run)
    ensures Play(c, actions + between).history == Play(c, actions).history
  {
    hide Apply, WriteIsCurrent;
    if between == [] {
      assert actions + between == actions;
    } else {
      var front, last := between[..|between| - 1], between[|between| - 1];
      WriteStaysCurrent(c, actions, front, run);
      PlayOneMore(c, actions + front, last);
      assert actions + front + [last] == actions + between;
      ApplyKeepsCurrent(c, Play(c, actions + front), last, run);
    }
  }

  /** Once in sync with no stale write pending, a registry stays as it is until the next
      registration, however many status runs and signers read and write in between. */
  lemma {:induction false} SyncLastsUntilRegistration(c: Primitives, actions: seq<Action>, between: seq<Action>)
    requires Synced(Play(c, actions)) && forall run :: WriteIsCurrent(Play(c, actions), run)
    requires forall i :: 0 <= i < |between| ==> !between[i].Register?
    ensures var s, n := Play(c, actions), Play(c, actions + between);
      n.history == s.history && n.registry == s.registry
  {
    hide Apply, InSync, WriteIsCurrent;
    if between == [] {
      assert actions + between == actions;
    } else {
      var front, last := between[..|between| - 1], between[|between| - 1];
      SyncLastsUntilRegistration(c, actions, front);
      PlayOneMore(c, actions + front, last);
      assert actions + front + [last] == actions + between;
      EveryRunKeepsInvariant(c, actions + front);
      if last.WriteStatus? {
        WriteStaysCurrent(c, actions, front, last.run);
      }
      ApplyKeepsSync(c, Play(c, actions + front), last);
      HistoryKept(c, Play(c, actions + front), last);
    }
  }

  lemma HistoryKept(c: Primitives, s: State, action: Action)
    requires !action.Register?
    ensures Apply(c, s, action).history == s.history
  {
  }

  /** A status run with no registration between its read and its write changes nothing in a
      registry that is in sync when the write comes, whatever other status runs and signers
      did in between. */
  lemma PromptStatusRunKeepsSync(c: Primitives, actions: seq<Action>, run: nat, key: Text, desired: IssuerStatus,
                                 between: seq<Action>)
    requires run !in Play(c, actions).statusRuns
    requires forall i :: 0 <= i < |between| ==> !between[i].Register?
    requires Synced(Play(c, actions + [ReadForStatus(run, key, desired)] + between))
    ensures var s := Play(c, actions + [ReadForStatus(run, key, desired)] + between);
      var n := Apply(c, s, WriteStatus(run));
      n.registry == s.registry && n.history == s.history
  {
    hide Apply, Invariant, InSync;
    var read := actions + [ReadForStatus(run, key, desired)];
    PlayOneMore(c, actions, ReadForStatus(run, key, desired));
    ApplyKeepsCurrent(c, Play(c, actions), ReadForStatus(run, key, desired), run);
    WriteStaysCurrent(c, read, between, run);
    EveryRunKeepsInvariant(c, read + between);
    ApplyKeepsSync(c, Play(c, read + between), WriteStatus(run));
    HistoryKept(c, Play(c, read + between), WriteStatus(run));
  }

  /** And in sync nobody is refused for nothing: an issuer that the current snapshot
      authorizes passes the registry check. */
  lemma SyncedRegistryAgrees(registry: Registry, content: TrustContent, key: Text, clock: nat)
    requires InSync(registry, content) && StrictlySortedBy(KeyOf, content.issuers)
    requires SnapshotAuthorizes(content, key, clock)
    ensures RowAgrees(registry, content, key)
  {
    ProjectionAt(content, key);
  }

  /** Right after a registration, a signer whose key the new snapshot authorizes goes ahead. */
  lemma RegisteredIssuerIsChosen(c: Primitives, actions: seq<Action>, content: TrustContent,
                                 run: nat, key: Text, clock: nat)
    requires Succeeds(c, Play(c, actions), content)
    requires RolloverInOrder(Play(c, actions).registry, content.issuers)
    requires run !in Play(c, actions).signerRuns && SnapshotAuthorizes(content, key, clock)
    ensures var s := Apply(c, Play(c, actions), Register(content));
      var n := Apply(c, Apply(c, s, ReadForSigning(run, key, clock)), CheckRegistry(run));
      s.history != [] && n.choices == s.choices + [Choice(key, |s.history| - 1)]
  {
    hide Apply, Play, RolloverInOrder, InSync, SnapshotAuthorizes, RowAgrees, ValidTrust, TrustSuccessor;
    RegistrationCommits(c, actions, content);
    RegisteringKeepsRuns(c, Play(c, actions), content);
    ValidIsSorted(c, content);
    var s := Apply(c, Play(c, actions), Register(content));
    SyncedRegistryAgrees(s.registry, content, key, clock);
    SignerGoesAhead(c, s, run, key, clock);
  }

  lemma SignerGoesAhead(c: Primitives, s: State, run: nat, key: Text, clock: nat)
    requires s.history != [] && run !in s.signerRuns
    requires SnapshotAuthorizes(s.history[|s.history| - 1], key, clock)
    requires RowAgrees(s.registry, s.history[|s.history| - 1], key)
    ensures var n := Apply(c, Apply(c, s, ReadForSigning(run, key, clock)), CheckRegistry(run));
      n.choices == s.choices + [Choice(key, |s.history| - 1)]
  {
    hide SnapshotAuthorizes, RowAgrees;
  }

  lemma RegisteringKeepsRuns(c: Primitives, s: State, content: TrustContent)
    ensures Apply(c, s, Register(content)).signerRuns == s.signerRuns
  {
  }
}
