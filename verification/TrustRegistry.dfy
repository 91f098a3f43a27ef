/** The issuer registry and the batch that registers a trust snapshot. Models
    `register_trust_snapshot` and `set_issuer_status` of src/store.rs under the "single
    active" unique index of migration 0002. */
module TrustRegistry {
  import opened Prelude
  import opened Sorting
  import opened TrustMaterial

  datatype IssuerRow = IssuerRow(
    publicKey: Text, status: IssuerStatus, notBefore: nat, notAfter: nat, allowedKeyUsages: seq<Text>, version: nat)

  type Registry = map<Text, IssuerRow>

  function RowOf(issuer: IssuerRecord, version: nat): IssuerRow {
    IssuerRow(issuer.publicKey, issuer.status, issuer.notBefore, issuer.notAfter, issuer.allowedKeyUsages, version)
  }

  predicate HasActiveBeside(registry: Registry, key: Text) {
    exists other :: other in registry && other != key && registry[other].status.Active?
  }

  /** One statement that writes a row; the unique index refuses a second active one. */
  function Write(registry: Registry, key: Text, row: IssuerRow): Option<Registry> {
    if row.status.Active? && HasActiveBeside(registry, key) then None else Some(registry[key := row])
  }

  /** INSERT ... ON CONFLICT DO UPDATE ... WHERE same key and older version. */
  function Upsert(registry: Registry, issuer: IssuerRecord, version: nat): Option<Registry> {
    var key := issuer.issuerKeyId;
    if key in registry && (registry[key].publicKey != issuer.publicKey || registry[key].version >= version) then
      Some(registry)
    else Write(registry, key, RowOf(issuer, version))
  }

  /** The UPDATE of `set_issuer_status`: an unknown key updates nothing. */
  function SetStatus(registry: Registry, key: Text, status: IssuerStatus): Option<Registry> {
    if key !in registry then Some(registry) else Write(registry, key, registry[key].(status := status))
  }

  /** What a snapshot says each row should be. */
  function Projection(issuers: seq<IssuerRecord>, version: nat): Registry {
    Overlay(map[], issuers, version)
  }

  /** The rows of the first issuers written over what was there. */
  function Overlay(registry: Registry, issuers: seq<IssuerRecord>, version: nat): Registry {
    if issuers == [] then registry
    else
      var last := issuers[|issuers| - 1];
      Overlay(registry, issuers[..|issuers| - 1], version)[last.issuerKeyId := RowOf(last, version)]
  }

  ghost predicate OneActive(registry: Registry) {
    forall a, b :: a in registry && b in registry && registry[a].status.Active? && registry[b].status.Active? ==> a == b
  }

  /** What the handler has checked of the registry before the batch. */
  ghost predicate Replaceable(registry: Registry, content: TrustContent) {
    && OneActive(registry)
    && forall key :: key in registry ==>
         && FindIssuer(content.issuers, key).Some?
         && FindIssuer(content.issuers, key).value.publicKey == registry[key].publicKey
         && registry[key].version < content.snapshotVersion
  }

  /** The old active issuer is absent, unchanged, or sorts before the new active one. */
  ghost predicate RolloverInOrder(registry: Registry, issuers: seq<IssuerRecord>) {
    forall i, key ::
      0 <= i < |issuers| && issuers[i].status.Active? && key in registry && registry[key].status.Active? ==>
      key == issuers[i].issuerKeyId || Precedes(key, issuers[i].issuerKeyId)
  }

  /** One row an issuer, each with the issuer's own fields and the snapshot's version. */
  ghost predicate HoldsExactly(registry: Registry, content: TrustContent) {
    && (forall i :: 0 <= i < |content.issuers| ==>
          var r := content.issuers[i];
          && r.issuerKeyId in registry
          && registry[r.issuerKeyId].publicKey == r.publicKey && registry[r.issuerKeyId].status == r.status
          && registry[r.issuerKeyId].notBefore == r.notBefore && registry[r.issuerKeyId].notAfter == r.notAfter
          && registry[r.issuerKeyId].allowedKeyUsages == r.allowedKeyUsages
          && registry[r.issuerKeyId].version == content.snapshotVersion)
    && (forall key :: key in registry ==>
          exists i :: 0 <= i < |content.issuers| && content.issuers[i].issuerKeyId == key)
  }

  class Store {
    var issuers: Registry
    var snapshots: map<nat, TrustContent>
    var current: Option<nat>

    /** The batch of `register_trust_snapshot`: the snapshot row, then one upsert an issuer in
        the snapshot's order; the first refused statement rolls all of them back. */
    method RegisterTrustSnapshot(content: TrustContent) returns (committed: bool)
      requires Replaceable(issuers, content)
      requires StrictlySortedBy(KeyOf, content.issuers) && SingleActive(content.issuers)
      modifies this
      ensures committed <==>
        content.snapshotVersion !in old(snapshots) && RolloverInOrder(old(issuers), content.issuers)
      ensures committed ==>
        && issuers == Projection(content.issuers, content.snapshotVersion)
        && snapshots == old(snapshots)[content.snapshotVersion := content]
        && current == Some(content.snapshotVersion)
      ensures committed ==> HoldsExactly(issuers, content)
      ensures !committed ==> issuers == old(issuers) && snapshots == old(snapshots) && current == old(current)
    {
      hide StrictlySortedBy, SingleActive, Replaceable, RolloverInOrder, Upsert, Overlay, HoldsExactly;
      var before, snapshotsBefore, currentBefore := issuers, snapshots, current;
      NothingWritten(before, content);
      current := None;
      if content.snapshotVersion in snapshots {
        current := currentBefore;
        return false;
      }
      snapshots := snapshots[content.snapshotVersion := content];
      current := Some(content.snapshotVersion);
      for i := 0 to |content.issuers|
        invariant issuers == Overlay(before, content.issuers[..i], content.snapshotVersion)
        invariant snapshots == snapshotsBefore[content.snapshotVersion := content]
        invariant current == Some(content.snapshotVersion)
        invariant RolloverInOrder(before, content.issuers[..i])
      {
        UpsertOutcome(before, content, i);
        var next := Upsert(issuers, content.issuers[i], content.snapshotVersion);
        if next.None? {
          RolloverOfPrefix(before, content.issuers, i + 1);
          issuers, snapshots, current := before, snapshotsBefore, currentBefore;
          return false;
        }
        issuers := next.value;
        assert content.issuers[..i + 1][..i] == content.issuers[..i];
      }
      assert content.issuers[..|content.issuers|] == content.issuers;
      OverlayOfAll(before, content);
      ProjectionHoldsExactly(content);
      committed := true;
    }

    /** `set_issuer_status`, whose only guard is the index. */
    method SetIssuerStatus(key: Text, status: IssuerStatus) returns (committed: bool)
      modifies this`issuers
      ensures committed <==> SetStatus(old(issuers), key, status).Some?
      ensures issuers == if committed then SetStatus(old(issuers), key, status).value else old(issuers)
      ensures !committed <==>
        && key in old(issuers) && status.Active?
        && exists other :: other in old(issuers) && other != key && old(issuers)[other].status.Active?
      ensures committed && key in old(issuers) ==> issuers[key] == old(issuers)[key].(status := status)
      ensures OneActive(old(issuers)) ==> OneActive(issuers)
      ensures issuers.Keys == old(issuers).Keys && forall other :: other in issuers && other != key ==>
        issuers[other] == old(issuers)[other]
    {
      committed := !(key in issuers && status.Active? && HasActiveBeside(issuers, key));
      if committed && key in issuers {
        issuers := issuers[key := issuers[key].(status := status)];
      }
    }
  }

  lemma NothingWritten(registry: Registry, content: TrustContent)
    ensures Overlay(registry, content.issuers[..0], content.snapshotVersion) == registry
    ensures RolloverInOrder(registry, content.issuers[..0])
  {
  }

  lemma RolloverOfPrefix(registry: Registry, issuers: seq<IssuerRecord>, n: nat)
    requires n <= |issuers|
    ensures RolloverInOrder(registry, issuers) ==> RolloverInOrder(registry, issuers[..n])
  {
  }

  // ----- What an overlay holds -----

  predicate Names(issuers: seq<IssuerRecord>, key: Text) {
    exists i :: 0 <= i < |issuers| && issuers[i].issuerKeyId == key
  }

  lemma {:induction false} OverlayAt(registry: Registry, issuers: seq<IssuerRecord>, version: nat, key: Text)
    ensures key in Overlay(registry, issuers, version) <==> key in registry || Names(issuers, key)
    ensures !Names(issuers, key) && key in registry ==> Overlay(registry, issuers, version)[key] == registry[key]
    ensures Names(issuers, key) ==>
      exists i :: 0 <= i < |issuers| && issuers[i].issuerKeyId == key
        && Overlay(registry, issuers, version)[key] == RowOf(issuers[i], version)
  {
    if issuers != [] {
      var front, last := issuers[..|issuers| - 1], issuers[|issuers| - 1];
      OverlayAt(registry, front, version, key);
      if Names(issuers, key) && last.issuerKeyId != key {
        var i :| 0 <= i < |issuers| && issuers[i].issuerKeyId == key;
        assert front[i].issuerKeyId == key;
      }
      if Names(front, key) {
        var i :| 0 <= i < |front| && front[i].issuerKeyId == key;
        assert issuers[i].issuerKeyId == key;
      }
    }
  }

  /** In a sorted list the row under a key is that of the one issuer with the key. */
  lemma OverlayOfIssuer(registry: Registry, issuers: seq<IssuerRecord>, version: nat, i: nat)
    requires StrictlySortedBy(KeyOf, issuers) && i < |issuers|
    ensures issuers[i].issuerKeyId in Overlay(registry, issuers, version)
    ensures Overlay(registry, issuers, version)[issuers[i].issuerKeyId] == RowOf(issuers[i], version)
  {
    var key := issuers[i].issuerKeyId;
    OverlayAt(registry, issuers, version, key);
    assert Names(issuers, key);
    var k :| 0 <= k < |issuers| && issuers[k].issuerKeyId == key
      && Overlay(registry, issuers, version)[key] == RowOf(issuers[k], version);
    if k < i {
      OrderExcludesDuplicates(issuers, k, i);
    } else if i < k {
      OrderExcludesDuplicates(issuers, i, k);
    }
  }

  /** Once every row has a successor in the snapshot, nothing of the old registry is left. */
  lemma OverlayOfAll(registry: Registry, content: TrustContent)
    requires Replaceable(registry, content)
    ensures Overlay(registry, content.issuers, content.snapshotVersion)
         == Projection(content.issuers, content.snapshotVersion)
  {
    var a := Overlay(registry, content.issuers, content.snapshotVersion);
    var b := Projection(content.issuers, content.snapshotVersion);
    forall key ensures key in a <==> key in b {
      OverlayAt(registry, content.issuers, content.snapshotVersion, key);
      OverlayAt(map[], content.issuers, content.snapshotVersion, key);
      if key in registry {
        FoundIsNamed(content.issuers, key);
      }
    }
    forall key | key in b ensures a[key] == b[key] {
      OverlayAt(map[], content.issuers, content.snapshotVersion, key);
      OverlaysAgree(registry, content.issuers, content.snapshotVersion, key);
    }
  }

  lemma FoundIsNamed(issuers: seq<IssuerRecord>, key: Text)
    requires FindIssuer(issuers, key).Some?
    ensures Names(issuers, key)
  {
  }

  lemma {:induction false} OverlaysAgree(registry: Registry, issuers: seq<IssuerRecord>, version: nat, key: Text)
    requires Names(issuers, key)
    ensures key in Overlay(registry, issuers, version) && key in Projection(issuers, version)
    ensures Overlay(registry, issuers, version)[key] == Projection(issuers, version)[key]
  {
    OverlayAt(registry, issuers, version, key);
    OverlayAt(map[], issuers, version, key);
    if issuers != [] && issuers[|issuers| - 1].issuerKeyId != key {
      var front := issuers[..|issuers| - 1];
      var i :| 0 <= i < |issuers| && issuers[i].issuerKeyId == key;
      assert front[i].issuerKeyId == key;
      OverlaysAgree(registry, front, version, key);
    }
  }

  /** The upsert at position i goes through exactly when the new issuer keeps the order of
      the rollover, and then it writes the issuer's row. */
  lemma UpsertOutcome(registry: Registry, content: TrustContent, i: nat)
    requires Replaceable(registry, content) && i < |content.issuers|
    requires StrictlySortedBy(KeyOf, content.issuers) && SingleActive(content.issuers)
    requires RolloverInOrder(registry, content.issuers[..i])
    ensures var now := Overlay(registry, content.issuers[..i], content.snapshotVersion);
      var next := Upsert(now, content.issuers[i], content.snapshotVersion);
      && (next.Some? <==> RolloverInOrder(registry, content.issuers[..i + 1]))
      && (next.Some? ==> next.value == Overlay(registry, content.issuers[..i + 1], content.snapshotVersion))
  {
    hide StrictlySortedBy, SingleActive, Replaceable, HasActiveBeside, Precedes, RolloverInOrder;
    var issuers, version := content.issuers, content.snapshotVersion;
    var now := Overlay(registry, issuers[..i], version);
    var issuer := issuers[i];
    var key := issuer.issuerKeyId;
    assert issuers[..i + 1][..i] == issuers[..i];
    RowIsOlder(registry, content, i);
    assert Upsert(now, issuer, version) == Write(now, key, RowOf(issuer, version));
    if issuer.status.Active? {
      OthersActive(registry, content, i);
      RolloverGrows(registry, content, i);
    } else {
      InactiveKeepsRollover(registry, issuers, i);
    }
  }

  lemma InactiveKeepsRollover(registry: Registry, issuers: seq<IssuerRecord>, i: nat)
    requires i < |issuers| && !issuers[i].status.Active? && RolloverInOrder(registry, issuers[..i])
    ensures RolloverInOrder(registry, issuers[..i + 1])
  {
  }

  lemma RowIsOlder(registry: Registry, content: TrustContent, i: nat)
    requires Replaceable(registry, content) && i < |content.issuers|
    requires StrictlySortedBy(KeyOf, content.issuers)
    ensures var now := Overlay(registry, content.issuers[..i], content.snapshotVersion);
      var issuer := content.issuers[i];
      issuer.issuerKeyId in now ==>
        && now[issuer.issuerKeyId].publicKey == issuer.publicKey
        && now[issuer.issuerKeyId].version < content.snapshotVersion
  {
    var issuers, key := content.issuers, content.issuers[i].issuerKeyId;
    OverlayAt(registry, issuers[..i], content.snapshotVersion, key);
    NotNamedBefore(issuers, i);
    assert issuers[i] in issuers;
    FoundIsUnique(issuers, issuers[i]);
  }

  lemma NotNamedBefore(issuers: seq<IssuerRecord>, i: nat)
    requires StrictlySortedBy(KeyOf, issuers) && i < |issuers|
    ensures !Names(issuers[..i], issuers[i].issuerKeyId)
  {
    if Names(issuers[..i], issuers[i].issuerKeyId) {
      var k :| 0 <= k < i && issuers[..i][k].issuerKeyId == issuers[i].issuerKeyId;
      OrderExcludesDuplicates(issuers, k, i);
    }
  }

  lemma EarlierIsNamed(issuers: seq<IssuerRecord>, i: nat, k: nat)
    requires i < |issuers| && k < |issuers|
    ensures k < i ==> Names(issuers[..i], issuers[k].issuerKeyId)
  {
  }

  lemma SortedAt(issuers: seq<IssuerRecord>, i: nat, j: nat)
    requires StrictlySortedBy(KeyOf, issuers) && i < |issuers| && j < |issuers|
    ensures i < j ==> Precedes(issuers[i].issuerKeyId, issuers[j].issuerKeyId)
    ensures j < i ==> !Precedes(issuers[i].issuerKeyId, issuers[j].issuerKeyId)
  {
    assert i < j ==> Precedes(KeyOf(issuers[i]), KeyOf(issuers[j]));
    if j < i {
      assert Precedes(KeyOf(issuers[j]), KeyOf(issuers[i]));
      PrecedesIsAsymmetric(issuers[j].issuerKeyId, issuers[i].issuerKeyId);
    }
  }

  /** A row already written beside an active issuer is not active, and sorts before it. */
  lemma WrittenIsInactive(registry: Registry, content: TrustContent, i: nat, other: Text)
    requires i < |content.issuers| && content.issuers[i].status.Active?
    requires StrictlySortedBy(KeyOf, content.issuers) && SingleActive(content.issuers)
    requires Names(content.issuers[..i], other)
    ensures var now := Overlay(registry, content.issuers[..i], content.snapshotVersion);
      other in now && !now[other].status.Active? && Precedes(other, content.issuers[i].issuerKeyId)
  {
    hide StrictlySortedBy;
    var issuers := content.issuers;
    var now := Overlay(registry, issuers[..i], content.snapshotVersion);
    OverlayAt(registry, issuers[..i], content.snapshotVersion, other);
    var k :| 0 <= k < |issuers[..i]| && issuers[..i][k].issuerKeyId == other
      && now[other] == RowOf(issuers[..i][k], content.snapshotVersion);
    assert issuers[..i][k] == issuers[k];
    SortedAt(issuers, k, i);
  }

  /** A row not yet written keeps its old status, and does not sort before. */
  lemma UnwrittenIsLater(registry: Registry, content: TrustContent, i: nat, other: Text)
    requires i < |content.issuers| && other != content.issuers[i].issuerKeyId
    requires StrictlySortedBy(KeyOf, content.issuers)
    requires other in registry && Names(content.issuers, other) && !Names(content.issuers[..i], other)
    ensures var now := Overlay(registry, content.issuers[..i], content.snapshotVersion);
      other in now && now[other] == registry[other] && !Precedes(other, content.issuers[i].issuerKeyId)
  {
    hide StrictlySortedBy;
    var issuers := content.issuers;
    OverlayAt(registry, issuers[..i], content.snapshotVersion, other);
    var k :| 0 <= k < |issuers| && issuers[k].issuerKeyId == other;
    EarlierIsNamed(issuers, i, k);
    SortedAt(issuers, k, i);
  }

  /** When an active issuer comes up, another row is active exactly when the old active
      issuer sorts after it, and so was not overwritten yet. */
  lemma OthersActive(registry: Registry, content: TrustContent, i: nat)
    requires Replaceable(registry, content) && i < |content.issuers| && content.issuers[i].status.Active?
    requires StrictlySortedBy(KeyOf, content.issuers) && SingleActive(content.issuers)
    ensures var key := content.issuers[i].issuerKeyId;
      HasActiveBeside(Overlay(registry, content.issuers[..i], content.snapshotVersion), key) <==>
      exists previous :: previous in registry && registry[previous].status.Active? && previous != key
        && !Precedes(previous, key)
  {
    hide StrictlySortedBy, SingleActive, Overlay;
    var issuers := content.issuers;
    var now, key := Overlay(registry, issuers[..i], content.snapshotVersion), issuers[i].issuerKeyId;
    forall other | other != key
      ensures other in now && now[other].status.Active? <==>
        other in registry && registry[other].status.Active? && !Precedes(other, key)
    {
      OverlayAt(registry, issuers[..i], content.snapshotVersion, other);
      if Names(issuers[..i], other) {
        WrittenIsInactive(registry, content, i, other);
      } else if other in registry {
        FoundIsNamed(issuers, other);
        UnwrittenIsLater(registry, content, i, other);
      }
    }
  }

  lemma RolloverGrows(registry: Registry, content: TrustContent, i: nat)
    requires i < |content.issuers| && content.issuers[i].status.Active?
    requires RolloverInOrder(registry, content.issuers[..i])
    ensures var key := content.issuers[i].issuerKeyId;
      RolloverInOrder(registry, content.issuers[..i + 1]) <==>
      !exists previous :: previous in registry && registry[previous].status.Active? && previous != key
        && !Precedes(previous, key)
  {
  }

  // ----- Status changes -----

  ghost predicate InSync(registry: Registry, content: TrustContent) {
    registry == Projection(content.issuers, content.snapshotVersion)
  }

  lemma ProjectionHasOneActive(content: TrustContent)
    requires StrictlySortedBy(KeyOf, content.issuers) && SingleActive(content.issuers)
    ensures OneActive(Projection(content.issuers, content.snapshotVersion))
  {
    var rows := Projection(content.issuers, content.snapshotVersion);
    forall a, b | a in rows && b in rows && rows[a].status.Active? && rows[b].status.Active? ensures a == b {
      OverlayAt(map[], content.issuers, content.snapshotVersion, a);
      OverlayAt(map[], content.issuers, content.snapshotVersion, b);
      var i :| 0 <= i < |content.issuers| && content.issuers[i].issuerKeyId == a
        && rows[a] == RowOf(content.issuers[i], content.snapshotVersion);
      var j :| 0 <= j < |content.issuers| && content.issuers[j].issuerKeyId == b
        && rows[b] == RowOf(content.issuers[j], content.snapshotVersion);
      assert !(i < j) && !(j < i);
    }
  }

  lemma ProjectionAt(content: TrustContent, key: Text)
    requires StrictlySortedBy(KeyOf, content.issuers)
    ensures var rows := Projection(content.issuers, content.snapshotVersion);
      && (key in rows <==> FindIssuer(content.issuers, key).Some?)
      && (key in rows ==> rows[key] == RowOf(FindIssuer(content.issuers, key).value, content.snapshotVersion))
  {
    OverlayAt(map[], content.issuers, content.snapshotVersion, key);
    if FindIssuer(content.issuers, key).Some? {
      FoundIsNamed(content.issuers, key);
    }
    if Names(content.issuers, key) {
      var i :| 0 <= i < |content.issuers| && content.issuers[i].issuerKeyId == key;
      assert content.issuers[i] in content.issuers;
      FoundIsUnique(content.issuers, content.issuers[i]);
      OverlayOfIssuer(map[], content.issuers, content.snapshotVersion, i);
    }
  }

  /** On a registry in sync with the current snapshot, a status write keeps it in sync
      exactly when it writes the status the snapshot signs; then it also goes through. */
  lemma StatusWriteKeepsSync(registry: Registry, content: TrustContent, key: Text, desired: IssuerStatus)
    requires InSync(registry, content) && StrictlySortedBy(KeyOf, content.issuers) && SingleActive(content.issuers)
    requires FindIssuer(content.issuers, key).Some?
    ensures SetStatus(registry, key, desired) == Some(registry)
      <==> FindIssuer(content.issuers, key).value.status == desired
    ensures SetStatus(registry, key, desired).Some? && SetStatus(registry, key, desired).value != registry ==>
      !InSync(SetStatus(registry, key, desired).value, content)
  {
    ProjectionAt(content, key);
    ProjectionHasOneActive(content);
    var signed := FindIssuer(content.issuers, key).value.status;
    if signed == desired {
      assert registry[key].(status := desired) == registry[key];
      assert registry[key := registry[key]] == registry;
    } else {
      assert registry[key].status == signed;
      var written := registry[key := registry[key].(status := desired)];
      assert written[key].status == desired;
    }
  }

  /** A projection has one row an issuer, field by field. */
  lemma ProjectionHoldsExactly(content: TrustContent)
    requires StrictlySortedBy(KeyOf, content.issuers)
    ensures HoldsExactly(Projection(content.issuers, content.snapshotVersion), content)
  {
    hide FindIssuer, Projection, StrictlySortedBy;
    var rows := Projection(content.issuers, content.snapshotVersion);
    forall i | 0 <= i < |content.issuers|
      ensures content.issuers[i].issuerKeyId in rows
      ensures rows[content.issuers[i].issuerKeyId] == RowOf(content.issuers[i], content.snapshotVersion)
    {
      assert content.issuers[i] in content.issuers;
      FoundIsUnique(content.issuers, content.issuers[i]);
      ProjectionAt(content, content.issuers[i].issuerKeyId);
    }
    forall key | key in rows ensures exists i :: 0 <= i < |content.issuers| && content.issuers[i].issuerKeyId == key {
      ProjectionAt(content, key);
      var issuer := FindIssuer(content.issuers, key).value;
      var i :| 0 <= i < |content.issuers| && content.issuers[i] == issuer;
    }
  }
}
