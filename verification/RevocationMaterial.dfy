/** Signed revocation snapshots: the content, what makes it valid, and what makes one the
    successor of another. Models crates/trust/src/lib.rs. */
module RevocationMaterial {
  import opened Prelude
  import opened Sorting
  import opened TrustMaterial

  const MAX_REVOCATIONS: nat := 100_000
  const MAX_SERIAL_LENGTH: nat := 32
  const MAX_REVOCATION_LIFETIME_SECONDS: nat := 7 * 24 * 60 * 60

  datatype ReasonCode =
    | KeyCompromise
    | DeveloperSuspended
    | CertificateReplaced
    | ScopeViolation
    | Administrative
    | Unspecified

  function ReasonText(reason: ReasonCode): Text {
    match reason
    case KeyCompromise => Ascii("key_compromise")
    case DeveloperSuspended => Ascii("developer_suspended")
    case CertificateReplaced => Ascii("certificate_replaced")
    case ScopeViolation => Ascii("scope_violation")
    case Administrative => Ascii("administrative")
    case Unspecified => Ascii("unspecified")
  }

  function ParseReason(text: Text): Option<ReasonCode> {
    if text == ReasonText(KeyCompromise) then Some(KeyCompromise)
    else if text == ReasonText(DeveloperSuspended) then Some(DeveloperSuspended)
    else if text == ReasonText(CertificateReplaced) then Some(CertificateReplaced)
    else if text == ReasonText(ScopeViolation) then Some(ScopeViolation)
    else if text == ReasonText(Administrative) then Some(Administrative)
    else if text == ReasonText(Unspecified) then Some(Unspecified)
    else None
  }

  /** Codes and texts determine each other: every text parses back to its code, and only
      the text of a code parses to it. */
  lemma ReasonRoundTrip(reason: ReasonCode)
    ensures |ReasonText(reason)| <= 20
    ensures ParseReason(ReasonText(reason)) == Some(reason)
    ensures forall text :: ParseReason(text) == Some(reason) ==> text == ReasonText(reason)
  {
    assert |ReasonText(KeyCompromise)| == 14;
    assert |ReasonText(DeveloperSuspended)| == 19;
    assert |ReasonText(CertificateReplaced)| == 20;
    assert |ReasonText(ScopeViolation)| == 15;
    assert |ReasonText(Administrative)| == 14;
    assert |ReasonText(Unspecified)| == 11;
    assert ReasonText(KeyCompromise)[0] == 'k' as int;
    assert ReasonText(Administrative)[0] == 'a' as int;
  }

  datatype RevocationEntry = RevocationEntry(serial: Text, revokedAt: nat, reason: ReasonCode)

  datatype RevocationContent = RevocationContent(
    formatVersion: nat,
    snapshotVersion: nat,
    generatedAt: nat,
    expiresAt: nat,
    issuerKeyId: Text,
    revocations: seq<RevocationEntry>,
    signatureAlgorithm: Text)

  datatype RevocationSnapshot = RevocationSnapshot(content: RevocationContent, signature: Text)

  function SerialOf(entry: RevocationEntry): Text { entry.serial }

  predicate ValidSerial(serial: Text) {
    0 < |serial| <= MAX_SERIAL_LENGTH && forall i :: 0 <= i < |serial| ==> 48 <= serial[i] <= 57
  }

  ghost predicate ValidRevocations(content: RevocationContent) {
    && content.formatVersion == 1
    && CommonError(content.snapshotVersion, content.generatedAt, content.expiresAt,
                   MAX_REVOCATION_LIFETIME_SECONDS, content.signatureAlgorithm).None?
    && ValidKeyId(content.issuerKeyId)
    && |content.revocations| <= MAX_REVOCATIONS
    && (forall entry :: entry in content.revocations ==> ValidSerial(entry.serial))
    && StrictlySortedBy(SerialOf, content.revocations)
  }

  ghost predicate RevocationDefect(content: RevocationContent, e: TrustError) {
    match e
    case UnsupportedFormat => content.formatVersion != 1
    case InvalidVersion => content.snapshotVersion == 0
    case InvalidValidity => content.generatedAt >= content.expiresAt
    case LifetimeTooLong => content.expiresAt - content.generatedAt > MAX_REVOCATION_LIFETIME_SECONDS
    case UnsupportedSignatureAlgorithm => content.signatureAlgorithm != SignatureAlgorithm()
    case InvalidKeyId => !ValidKeyId(content.issuerKeyId)
    case TooManyRevocations => |content.revocations| > MAX_REVOCATIONS
    case _ => EntriesDefect(content.revocations, e)
  }

  method ValidateRevocations(content: RevocationContent) returns (r: Result<(), TrustError>)
    ensures r.Ok? <==> ValidRevocations(content)
    ensures r.Err? ==> RevocationDefect(content, r.error)
  {
    if content.formatVersion != 1 {
      return Err(UnsupportedFormat);
    }
    var common := CommonError(content.snapshotVersion, content.generatedAt, content.expiresAt,
                              MAX_REVOCATION_LIFETIME_SECONDS, content.signatureAlgorithm);
    if common.Some? {
      return Err(common.value);
    }
    if !ValidKeyId(content.issuerKeyId) {
      return Err(InvalidKeyId);
    }
    if |content.revocations| > MAX_REVOCATIONS {
      return Err(TooManyRevocations);
    }
    r := ValidateEntries(content.revocations);
  }

  ghost predicate EntriesDefect(entries: seq<RevocationEntry>, e: TrustError) {
    match e
    case InvalidSerial => exists entry :: entry in entries && !ValidSerial(entry.serial)
    case DuplicateRevocation => exists i, j :: 0 <= i < j < |entries| && entries[i].serial == entries[j].serial
    case UnsortedRevocations =>
      exists i, j :: 0 <= i < j < |entries| && Precedes(entries[j].serial, entries[i].serial)
    case _ => false
  }

  lemma EntryDefectAt(entries: seq<RevocationEntry>, n: nat)
    requires n < |entries|
    ensures !ValidSerial(entries[n].serial) ==> EntriesDefect(entries, InvalidSerial)
    ensures n > 0 && entries[n - 1].serial == entries[n].serial ==> EntriesDefect(entries, DuplicateRevocation)
    ensures n > 0 && Precedes(entries[n].serial, entries[n - 1].serial) ==> EntriesDefect(entries, UnsortedRevocations)
  {
    hide ValidSerial, Precedes;
    assert entries[n] in entries;
  }

  /** The loop of the validator: each serial, and each pair of neighbours. */
  method ValidateEntries(entries: seq<RevocationEntry>) returns (r: Result<(), TrustError>)
    ensures r.Ok? <==>
      (forall entry :: entry in entries ==> ValidSerial(entry.serial)) && StrictlySortedBy(SerialOf, entries)
    ensures r.Err? ==> EntriesDefect(entries, r.error)
  {
    hide ValidSerial, Precedes, StrictUpTo, StrictlySortedBy, EntriesDefect;
    StrictAtEnds(SerialOf, entries);
    var previous: Option<RevocationEntry> := None;
    for n := 0 to |entries|
      invariant forall k :: 0 <= k < n ==> ValidSerial(entries[k].serial)
      invariant StrictUpTo(SerialOf, entries, n)
      invariant previous == if n == 0 then None else Some(entries[n - 1])
    {
      var entry := entries[n];
      assert entry in entries;
      EntryDefectAt(entries, n);
      if !ValidSerial(entry.serial) {
        return Err(InvalidSerial);
      }
      NeighbourDecides(SerialOf, entries, n);
      if previous.Some? {
        if previous.value.serial == entry.serial {
          return Err(DuplicateRevocation);
        }
        if Precedes(entry.serial, previous.value.serial) {
          return Err(UnsortedRevocations);
        }
      }
      previous := Some(entry);
    }
    r := Ok(());
  }

  /** The anti-rollback relation: a later version, no earlier time, and every revocation of
      the current list repeated unchanged. */
  ghost predicate RevocationSuccessor(current: RevocationContent, next: RevocationContent) {
    && ValidRevocations(current)
    && ValidRevocations(next)
    && current.snapshotVersion < next.snapshotVersion
    && current.generatedAt <= next.generatedAt
    && (forall entry :: entry in current.revocations ==> entry in next.revocations)
  }

  function FindRevocation(entries: seq<RevocationEntry>, serial: Text): (r: Option<RevocationEntry>)
    ensures r.Some? ==> r.value in entries && r.value.serial == serial
    ensures r.None? ==> forall entry :: entry in entries ==> entry.serial != serial
  {
    if entries == [] then None
    else if entries[0].serial == serial then Some(entries[0])
    else FindRevocation(entries[1..], serial)
  }

  lemma SerialsAreUnique(entries: seq<RevocationEntry>, a: RevocationEntry, b: RevocationEntry)
    requires StrictlySortedBy(SerialOf, entries)
    requires a in entries && b in entries && a.serial == b.serial
    ensures a == b
  {
    var i :| 0 <= i < |entries| && entries[i] == a;
    var j :| 0 <= j < |entries| && entries[j] == b;
    assert i >= j || Precedes(SerialOf(entries[i]), SerialOf(entries[j]));
    assert j >= i || Precedes(SerialOf(entries[j]), SerialOf(entries[i]));
    PrecedesIsIrreflexive(SerialOf(a));
  }

  method ValidateRevocationSuccessor(current: RevocationContent, next: RevocationContent)
    returns (r: Result<(), TrustError>)
    ensures r.Ok? <==> RevocationSuccessor(current, next)
    ensures r == Err(SnapshotRollback) ==>
      next.snapshotVersion <= current.snapshotVersion || next.generatedAt < current.generatedAt
    ensures r == Err(MissingRevocation) ==>
      exists e :: e in current.revocations && forall n :: n in next.revocations ==> n.serial != e.serial
    ensures r == Err(ConflictingRevocation) ==>
      exists e, n :: e in current.revocations && n in next.revocations && n.serial == e.serial && n != e
  {
    var valid := ValidateRevocations(current);
    if valid.Err? {
      return valid;
    }
    valid := ValidateRevocations(next);
    if valid.Err? {
      return valid;
    }
    if next.snapshotVersion <= current.snapshotVersion || next.generatedAt < current.generatedAt {
      return Err(SnapshotRollback);
    }
    for i := 0 to |current.revocations|
      invariant forall k :: 0 <= k < i ==> current.revocations[k] in next.revocations
    {
      var existing := current.revocations[i];
      assert existing in current.revocations;
      var replacement := FindRevocation(next.revocations, existing.serial);
      if replacement.None? {
        return Err(MissingRevocation);
      }
      if replacement.value != existing {
        if existing in next.revocations {
          SerialsAreUnique(next.revocations, existing, replacement.value);
        }
        return Err(ConflictingRevocation);
      }
    }
    r := Ok(());
  }
}
