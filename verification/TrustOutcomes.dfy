/** What registrations, status runs and signers achieve when they reach the database, from any
    reachable state of TrustChain, and whatever stale runs have left behind. */
module TrustOutcomes {
  import opened Prelude
  import opened Cryptography
  import opened Sorting
  import opened TrustMaterial
  import opened TrustRegistry
  import opened TrustChain

  function Current(s: State): TrustContent
    requires s.history != []
  {
    s.history[|s.history| - 1]
  }

  /** The current snapshot has this issuer active. */
  predicate SignedActive(content: TrustContent, key: Text) {
    exists i :: 0 <= i < |content.issuers| && content.issuers[i].issuerKeyId == key && content.issuers[i].status.Active?
  }

  lemma FoundByIndex(content: TrustContent, i: nat)
    requires i < |content.issuers| && StrictlySortedBy(KeyOf, content.issuers)
    ensures FindIssuer(content.issuers, content.issuers[i].issuerKeyId) == Some(content.issuers[i])
  {
    assert content.issuers[i] in content.issuers;
    FoundIsUnique(content.issuers, content.issuers[i]);
  }

  lemma SignedActiveIsFound(content: TrustContent, key: Text)
    requires StrictlySortedBy(KeyOf, content.issuers)
    ensures SignedActive(content, key) <==> ActiveAt(content, key)
  {
    hide FindIssuer;
    if i :| 0 <= i < |content.issuers| && content.issuers[i].issuerKeyId == key && content.issuers[i].status.Active? {
      FoundByIndex(content, i);
    }
    if ActiveAt(content, key) {
      var issuer := FindIssuer(content.issuers, key).value;
      var i :| 0 <= i < |content.issuers| && content.issuers[i] == issuer;
    }
  }

  lemma Reachable(c: Primitives, actions: seq<Action>)
    ensures Invariant(c, Play(c, actions)) && StatusesBehind(Play(c, actions))
  {
    EveryRunKeepsInvariant(c, actions);
    EveryRunKeepsBehind(c, actions);
  }

  /** The row of the issuer that the current snapshot has active is active, and no other. */
  lemma ActiveRowIsSigned(c: Primitives, s: State, key: Text)
    requires Invariant(c, s) && StatusesBehind(s) && s.history != [] && ActiveAt(Current(s), key)
    ensures key in s.registry && s.registry[key].status.Active?
    ensures forall other :: other in s.registry && s.registry[other].status.Active? ==> other == key
  {
    hide FindIssuer, Chain;
    assert RowsFollow(s.registry, Current(s)) && OneActive(s.registry);
    assert BehindSnapshot(Current(s), key, s.registry[key].status);
  }

  // ----- Registration -----

  /** A successor that activates nobody commits in every reachable state: no stale status
      write can stand in its way. */
  lemma NoHandoverCommits(c: Primitives, actions: seq<Action>, content: TrustContent)
    requires Succeeds(c, Play(c, actions), content) && Play(c, actions).history != []
    requires forall i :: 0 <= i < |content.issuers| && content.issuers[i].status.Active? ==>
      SignedActive(Current(Play(c, actions)), content.issuers[i].issuerKeyId)
    ensures var s, n := Play(c, actions), Apply(c, Play(c, actions), Register(content));
      n.history == s.history + [content] && InSync(n.registry, content)
  {
    hide Apply, Play, FindIssuer, ValidTrust, TrustSuccessor, InSync, Invariant, StatusesBehind, SignedActive, Succeeds;
    var s := Play(c, actions);
    Reachable(c, actions);
    InvariantIsSorted(c, s);
    forall i, key | 0 <= i < |content.issuers| && content.issuers[i].status.Active? && key in s.registry
                    && s.registry[key].status.Active?
      ensures key == content.issuers[i].issuerKeyId
    {
      SignedActiveIsFound(Current(s), content.issuers[i].issuerKeyId);
      ActiveRowIsSigned(c, s, content.issuers[i].issuerKeyId);
    }
    RegistrationCommits(c, actions, content);
  }

  lemma InvariantIsSorted(c: Primitives, s: State)
    requires Invariant(c, s) && s.history != []
    ensures ValidTrust(c, Current(s)) && StrictlySortedBy(KeyOf, Current(s).issuers)
  {
    hide FindIssuer, ValidTrust;
    ValidIsSorted(c, Current(s));
  }

  /** In every reachable state any one issuer can be revoked, the active one can be retired,
      and every status can be repeated: the next snapshot is accepted and commits. */
  lemma StatusChangeCommits(c: Primitives, actions: seq<Action>, i: nat, status: IssuerStatus,
                            version: nat, at: nat, until: nat)
    requires Play(c, actions).history != []
    requires var current := Current(Play(c, actions));
      && i < |current.issuers|
      && current.snapshotVersion < version && current.generatedAt <= at < until <= at + 15_552_000
      && (status.Revoked? || status == current.issuers[i].status
          || (current.issuers[i].status.Active? && status.Retired?))
    ensures var s := Play(c, actions);
      var next := WithStatus(Current(s), i, status, version, at, until);
      var n := Apply(c, s, Register(next));
      n.history == s.history + [next] && InSync(n.registry, next)
  {
    hide Apply, Play, FindIssuer, ValidTrust, TrustSuccessor, InSync, Invariant, StatusesBehind;
    var s := Play(c, actions);
    Reachable(c, actions);
    InvariantIsSorted(c, s);
    var next := WithStatus(Current(s), i, status, version, at, until);
    ValidIsSorted(c, Current(s));
    OneStatusMayChange(c, Current(s), i, status, version, at, until);
    SuccessorIsValid(c, Current(s), next);
    forall j | 0 <= j < |next.issuers| && next.issuers[j].status.Active?
      ensures SignedActive(Current(s), next.issuers[j].issuerKeyId)
    {
      assert Current(s).issuers[j].status.Active? && Current(s).issuers[j].issuerKeyId == next.issuers[j].issuerKeyId;
    }
    NoHandoverCommits(c, actions, next);
  }

  lemma SuccessorIsValid(c: Primitives, current: TrustContent, next: TrustContent)
    requires TrustSuccessor(c, current, next)
    ensures ValidTrust(c, next)
  {
  }

  /** A future issuer is activated in every reachable state with no active row; with one, the
      registration commits exactly when that row sorts first. */
  lemma ActivationCommits(c: Primitives, actions: seq<Action>, i: nat, version: nat, at: nat, until: nat)
    requires Play(c, actions).history != []
    requires var current := Current(Play(c, actions));
      && i < |current.issuers| && current.issuers[i].status.Future?
      && (forall j :: 0 <= j < |current.issuers| ==> !current.issuers[j].status.Active?)
      && current.snapshotVersion < version && current.generatedAt <= at < until <= at + 15_552_000
    ensures var s := Play(c, actions);
      var next := WithStatus(Current(s), i, Active, version, at, until);
      var n := Apply(c, s, Register(next));
      if forall key :: key in s.registry && s.registry[key].status.Active? ==>
           key == next.issuers[i].issuerKeyId || Precedes(key, next.issuers[i].issuerKeyId)
      then n.history == s.history + [next] && InSync(n.registry, next)
      else n == s
  {
    hide Apply, Play, FindIssuer, ValidTrust, TrustSuccessor, InSync, Invariant, StatusesBehind, Precedes;
    var s := Play(c, actions);
    Reachable(c, actions);
    InvariantIsSorted(c, s);
    OneStatusMayChange(c, Current(s), i, Active, version, at, until);
    var next := WithStatus(Current(s), i, Active, version, at, until);
    SuccessorIsValid(c, Current(s), next);
    RegistrationCommits(c, actions, next);
    assert next.issuers[i].status.Active?;
  }

  // ----- Status runs -----

  /** A status run without interruption: the row takes the status that the current snapshot
      signs, in every reachable state; asked for any other status, or for "future", the run
      changes nothing. */
  lemma StatusRunRepairsRow(c: Primitives, actions: seq<Action>, run: nat, key: Text, desired: IssuerStatus)
    requires Play(c, actions).history != [] && run !in Play(c, actions).statusRuns
    ensures var s := Play(c, actions);
      var n := Apply(c, Apply(c, s, ReadForStatus(run, key, desired)), WriteStatus(run));
      var issuers := Current(s).issuers;
      && (if (exists i :: 0 <= i < |issuers| && issuers[i].issuerKeyId == key && issuers[i].status == desired)
             && !desired.Future?
          then key in s.registry && n.registry == s.registry[key := s.registry[key].(status := desired)]
          else n.registry == s.registry)
      && n.history == s.history && n.choices == s.choices
  {
    hide Apply, Play, FindIssuer, Invariant, StatusesBehind, SetStatus;
    var s := Play(c, actions);
    var issuers := Current(s).issuers;
    Reachable(c, actions);
    InvariantIsSorted(c, s);
    StatusRunWrites(c, s, run, key, desired);
    if i :| 0 <= i < |issuers| && issuers[i].issuerKeyId == key && issuers[i].status == desired {
      FoundByIndex(Current(s), i);
      SignedStatusGoesThrough(c, s, key);
    } else if FindIssuer(issuers, key).Some? {
      var i :| 0 <= i < |issuers| && issuers[i] == FindIssuer(issuers, key).value;
      assert issuers[i].status != desired;
    }
  }

  lemma StatusRunWrites(c: Primitives, s: State, run: nat, key: Text, desired: IssuerStatus)
    requires s.history != [] && run !in s.statusRuns
    ensures var n := Apply(c, Apply(c, s, ReadForStatus(run, key, desired)), WriteStatus(run));
      var issuer := FindIssuer(Current(s).issuers, key);
      var written := SetStatus(s.registry, key, desired);
      && n.history == s.history && n.choices == s.choices
      && n.registry == if !desired.Future? && issuer.Some? && issuer.value.status == desired && written.Some?
                       then written.value else s.registry
  {
    hide FindIssuer, SetStatus, Accepted, Registered, RowAgrees, SnapshotAuthorizes;
  }

  lemma SignedStatusGoesThrough(c: Primitives, s: State, key: Text)
    requires Invariant(c, s) && StatusesBehind(s) && s.history != [] && FindIssuer(Current(s).issuers, key).Some?
    ensures var status := FindIssuer(Current(s).issuers, key).value.status;
      && key in s.registry
      && SetStatus(s.registry, key, status) == Some(s.registry[key := s.registry[key].(status := status)])
  {
    hide FindIssuer, Chain;
    assert RowsFollow(s.registry, Current(s));
    if ActiveAt(Current(s), key) {
      ActiveRowIsSigned(c, s, key);
    }
  }

  // ----- Signers -----

  /** A signer that reads the current snapshot goes ahead exactly when that snapshot has its
      issuer active, with the usage and inside the window: in no reachable state does the
      registry refuse it. */
  lemma SignerIsChosenExactly(c: Primitives, actions: seq<Action>, run: nat, key: Text, clock: nat)
    requires Play(c, actions).history != [] && run !in Play(c, actions).signerRuns
    ensures var s := Play(c, actions);
      var n := Apply(c, Apply(c, s, ReadForSigning(run, key, clock)), CheckRegistry(run));
      var authorized := (exists issuer ::
        && issuer in Current(s).issuers && issuer.issuerKeyId == key
        && issuer.status.Active? && Ascii("developer-certificate-signing") in issuer.allowedKeyUsages
        && issuer.notBefore <= clock < issuer.notAfter);
      n.choices == if authorized then s.choices + [Choice(key, |s.history| - 1)] else s.choices
  {
    hide Apply, Play, FindIssuer, Invariant, StatusesBehind, RowAgrees, SnapshotAuthorizes;
    var s := Play(c, actions);
    Reachable(c, actions);
    InvariantIsSorted(c, s);
    AuthorizedIsFound(Current(s), key, clock);
    if SnapshotAuthorizes(Current(s), key, clock) {
      AuthorizedRowAgrees(c, s, key, clock);
      SignerGoesAhead(c, s, run, key, clock);
    } else {
      RefusedSignerDoesNothing(c, s, run, key, clock);
    }
  }

  lemma AuthorizedIsFound(content: TrustContent, key: Text, clock: nat)
    requires StrictlySortedBy(KeyOf, content.issuers)
    ensures SnapshotAuthorizes(content, key, clock) <==>
      exists issuer :: issuer in content.issuers && issuer.issuerKeyId == key
        && issuer.status.Active? && Ascii("developer-certificate-signing") in issuer.allowedKeyUsages
        && issuer.notBefore <= clock < issuer.notAfter
  {
    hide FindIssuer;
    forall issuer | issuer in content.issuers ensures FindIssuer(content.issuers, issuer.issuerKeyId) == Some(issuer) {
      FoundIsUnique(content.issuers, issuer);
    }
  }

  lemma AuthorizedRowAgrees(c: Primitives, s: State, key: Text, clock: nat)
    requires Invariant(c, s) && StatusesBehind(s) && s.history != [] && SnapshotAuthorizes(Current(s), key, clock)
    ensures RowAgrees(s.registry, Current(s), key)
  {
    hide FindIssuer, Chain;
    ActiveRowIsSigned(c, s, key);
    assert RowsFollow(s.registry, Current(s));
  }

  lemma RefusedSignerDoesNothing(c: Primitives, s: State, run: nat, key: Text, clock: nat)
    requires run !in s.signerRuns && s.history != [] && !SnapshotAuthorizes(Current(s), key, clock)
    ensures Apply(c, Apply(c, s, ReadForSigning(run, key, clock)), CheckRegistry(run)) == s
  {
    hide SnapshotAuthorizes;
  }
}
