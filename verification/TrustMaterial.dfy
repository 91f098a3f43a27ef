/** Root-signed trust snapshots: the content, what makes it valid, and what makes one the
    successor of another. Models crates/trust/src/lib.rs. */
module TrustMaterial {
  import opened Prelude
  import opened Cryptography
  import opened Wire
  import opened Sorting

  const MAX_ISSUERS: nat := 64
  const MAX_SNAPSHOT_BYTES: nat := 4 * 1024 * 1024
  const KEY_ID_LENGTH: nat := 64
  const MAX_TRUST_LIFETIME_SECONDS: nat := 180 * 24 * 60 * 60
  const CLOCK_SKEW_SECONDS: nat := 300

  function SignatureAlgorithm(): Text { Ascii("ed25519") }

  function CertificateSigning(): Text { Ascii("developer-certificate-signing") }

  function RevocationSigning(): Text { Ascii("revocation-signing") }

  datatype IssuerStatus = Future | Active | Retired | Revoked

  datatype IssuerRecord = IssuerRecord(
    issuerKeyId: Text,
    publicKey: Text,
    status: IssuerStatus,
    notBefore: nat,
    notAfter: nat,
    allowedKeyUsages: seq<Text>)

  datatype TrustContent = TrustContent(
    formatVersion: nat,
    snapshotVersion: nat,
    generatedAt: nat,
    expiresAt: nat,
    rootKeyId: Text,
    issuers: seq<IssuerRecord>,
    signatureAlgorithm: Text)

  datatype TrustSnapshot = TrustSnapshot(content: TrustContent, rootSignature: Text)

  datatype TrustError =
    | UnsupportedFormat
    | UnsupportedSignatureAlgorithm
    | InvalidVersion
    | InvalidValidity
    | LifetimeTooLong
    | TooManyIssuers
    | TooManyRevocations
    | InvalidKeyId
    | InvalidPublicKey
    | KeyIdMismatch
    | InvalidKeyUsage
    | DuplicateIssuer
    | UnsortedIssuers
    | MultipleActiveIssuers
    | InvalidSerial
    | DuplicateRevocation
    | UnsortedRevocations
    | InvalidSignature
    | SnapshotRollback
    | MissingIssuer
    | PublicKeyReplacement
    | InvalidStatusTransition
    | MissingRevocation
    | ConflictingRevocation
    | SnapshotTooLarge
    | EncodingOverflow

  /** `put_string`: the length must fit 32 bits. */
  function AppendText(bytes: Bytes, value: Text): Result<Bytes, TrustError> {
    if IsU32(|value|) then Ok(bytes + PutText(value)) else Err(EncodingOverflow)
  }

  // ----- What a valid snapshot is -----

  predicate IsHexDigit(b: byte) {
    48 <= b <= 57 || 65 <= b <= 70 || 97 <= b <= 102
  }

  predicate ValidKeyId(t: Text) {
    |t| == KEY_ID_LENGTH && forall i :: 0 <= i < |t| ==> IsHexDigit(t[i])
  }

  /** The checks that trust and revocation snapshots share, in the order they are made. */
  function CommonError(version: nat, generatedAt: nat, expiresAt: nat, maxLifetime: nat, algorithm: Text)
    : Option<TrustError>
  {
    if version == 0 then Some(InvalidVersion)
    else if generatedAt >= expiresAt then Some(InvalidValidity)
    else if expiresAt - generatedAt > maxLifetime then Some(LifetimeTooLong)
    else if algorithm != SignatureAlgorithm() then Some(UnsupportedSignatureAlgorithm)
    else None
  }

  predicate KnownUsage(usage: Text) {
    usage == CertificateSigning() || usage == RevocationSigning()
  }

  ghost predicate ValidUsages(usages: seq<Text>) {
    && 0 < |usages| <= 4
    && (forall u :: u in usages ==> KnownUsage(u))
    && StrictlySortedBy(Self, usages)
  }

  predicate ValidKey(c: Primitives, issuer: IssuerRecord) {
    var key := c.unbase64(issuer.publicKey);
    key.Some? && |key.value| == 32 && c.validPoint(key.value)
  }

  ghost predicate ValidIssuer(c: Primitives, issuer: IssuerRecord) {
    && ValidKeyId(issuer.issuerKeyId)
    && issuer.notBefore < issuer.notAfter
    && ValidKey(c, issuer)
    && c.keyId(c.unbase64(issuer.publicKey).value) == issuer.issuerKeyId
    && ValidUsages(issuer.allowedKeyUsages)
  }

  function KeyOf(issuer: IssuerRecord): Text { issuer.issuerKeyId }

  ghost predicate SingleActive(issuers: seq<IssuerRecord>) {
    forall i, j :: 0 <= i < j < |issuers| ==> !(issuers[i].status.Active? && issuers[j].status.Active?)
  }

  /** Validity, stated over the whole snapshot: every issuer valid, identifiers in strictly
      increasing order at any distance, and no two issuers active. */
  ghost predicate ValidTrust(c: Primitives, content: TrustContent) {
    && content.formatVersion == 1
    && CommonError(content.snapshotVersion, content.generatedAt, content.expiresAt,
                   MAX_TRUST_LIFETIME_SECONDS, content.signatureAlgorithm).None?
    && ValidKeyId(content.rootKeyId)
    && |content.issuers| <= MAX_ISSUERS
    && (forall issuer :: issuer in content.issuers ==> ValidIssuer(c, issuer))
    && StrictlySortedBy(KeyOf, content.issuers)
    && SingleActive(content.issuers)
  }

  /** The defect of one record that each of its errors reports. */
  ghost predicate RecordDefect(c: Primitives, r: IssuerRecord, e: TrustError) {
    match e
    case InvalidKeyId => !ValidKeyId(r.issuerKeyId) || r.notBefore >= r.notAfter
    case InvalidPublicKey => !ValidKey(c, r)
    case KeyIdMismatch => ValidKey(c, r) && c.keyId(c.unbase64(r.publicKey).value) != r.issuerKeyId
    case InvalidKeyUsage => !ValidUsages(r.allowedKeyUsages)
    case _ => false
  }

  /** The defect among the issuers that each error of the loop reports. */
  ghost predicate IssuerDefect(c: Primitives, issuers: seq<IssuerRecord>, e: TrustError) {
    match e
    case DuplicateIssuer =>
      exists i, j :: 0 <= i < j < |issuers| && issuers[i].issuerKeyId == issuers[j].issuerKeyId
    case UnsortedIssuers =>
      exists i, j :: 0 <= i < j < |issuers| && Precedes(issuers[j].issuerKeyId, issuers[i].issuerKeyId)
    case _ => exists r :: r in issuers && RecordDefect(c, r, e)
  }

  /** The defect that each error of the validator reports. */
  ghost predicate TrustDefect(c: Primitives, content: TrustContent, e: TrustError) {
    match e
    case UnsupportedFormat => content.formatVersion != 1
    case InvalidVersion => content.snapshotVersion == 0
    case InvalidValidity => content.generatedAt >= content.expiresAt
    case LifetimeTooLong => content.expiresAt - content.generatedAt > MAX_TRUST_LIFETIME_SECONDS
    case UnsupportedSignatureAlgorithm => content.signatureAlgorithm != SignatureAlgorithm()
    case TooManyIssuers => |content.issuers| > MAX_ISSUERS
    case InvalidKeyId => !ValidKeyId(content.rootKeyId) || IssuerDefect(c, content.issuers, e)
    case MultipleActiveIssuers => !SingleActive(content.issuers)
    case _ => IssuerDefect(c, content.issuers, e)
  }

  // ----- The validators -----

  method StrictlyIncreasing(texts: seq<Text>) returns (ok: bool)
    ensures ok <==> StrictlySortedBy(Self, texts)
  {
    for i := 0 to |texts|
      invariant StrictUpTo(Self, texts, i)
    {
      StrictPrefixGrows(Self, texts, i);
      if i > 0 && !Precedes(texts[i - 1], texts[i]) {
        return false;
      }
    }
    ok := true;
  }

  method ValidateUsages(usages: seq<Text>) returns (ok: bool)
    ensures ok <==> ValidUsages(usages)
  {
    if |usages| == 0 || |usages| > 4 || exists i :: 0 <= i < |usages| && !KnownUsage(usages[i]) {
      return false;
    }
    ok := StrictlyIncreasing(usages);
  }

  method ValidateIssuer(c: Primitives, issuer: IssuerRecord) returns (r: Result<(), TrustError>)
    ensures r.Ok? <==> ValidIssuer(c, issuer)
    ensures r.Err? ==> RecordDefect(c, issuer, r.error)
  {
    if !ValidKeyId(issuer.issuerKeyId) || issuer.notBefore >= issuer.notAfter {
      return Err(InvalidKeyId);
    }
    if !ValidKey(c, issuer) {
      return Err(InvalidPublicKey);
    }
    if c.keyId(c.unbase64(issuer.publicKey).value) != issuer.issuerKeyId {
      return Err(KeyIdMismatch);
    }
    var usagesOk := ValidateUsages(issuer.allowedKeyUsages);
    r := if usagesOk then Ok(()) else Err(InvalidKeyUsage);
  }

  ghost predicate ValidUpTo(c: Primitives, issuers: seq<IssuerRecord>, n: nat)
    requires n <= |issuers|
  {
    forall k :: 0 <= k < n ==> ValidIssuer(c, issuers[k])
  }

  /** What a failed comparison of neighbours, or an invalid record, shows of the list. */
  lemma DefectAt(c: Primitives, issuers: seq<IssuerRecord>, n: nat)
    requires n < |issuers|
    ensures n > 0 && issuers[n - 1].issuerKeyId == issuers[n].issuerKeyId ==> IssuerDefect(c, issuers, DuplicateIssuer)
    ensures n > 0 && Precedes(issuers[n].issuerKeyId, issuers[n - 1].issuerKeyId) ==>
      IssuerDefect(c, issuers, UnsortedIssuers)
    ensures forall e :: RecordDefect(c, issuers[n], e) ==> IssuerDefect(c, issuers, e)
  {
    assert issuers[n] in issuers;
    hide ValidUsages, ValidKeyId, ValidKey;
  }

  lemma ValidUpToGrows(c: Primitives, issuers: seq<IssuerRecord>, n: nat)
    requires n < |issuers| && ValidUpTo(c, issuers, n)
    ensures ValidUpTo(c, issuers, n + 1) <==> ValidIssuer(c, issuers[n])
    ensures !ValidIssuer(c, issuers[n]) ==> !ValidUpTo(c, issuers, |issuers|)
  {
    hide ValidIssuer;
  }

  /** One pass over the issuers: validates each, compares neighbours, counts the active. */
  method ValidateIssuers(c: Primitives, issuers: seq<IssuerRecord>) returns (r: Result<nat, TrustError>)
    ensures r.Ok? <==> ValidUpTo(c, issuers, |issuers|) && StrictUpTo(KeyOf, issuers, |issuers|)
    ensures r.Ok? ==> r.value == CountActive(issuers)
    ensures r.Err? ==> IssuerDefect(c, issuers, r.error)
  {
    hide ValidIssuer, ValidUpTo, StrictUpTo, RecordDefect, IssuerDefect, Precedes;
    NothingYet(c, issuers);
    var active := 0;
    var previous: Option<Text> := None;
    for n := 0 to |issuers|
      invariant ValidUpTo(c, issuers, n) && StrictUpTo(KeyOf, issuers, n)
      invariant previous == if n == 0 then None else Some(issuers[n - 1].issuerKeyId)
      invariant active == CountActive(issuers[..n])
    {
      assert issuers[..n + 1][..n] == issuers[..n];
      var issuer := issuers[n];
      DefectAt(c, issuers, n);
      ValidUpToGrows(c, issuers, n);
      NeighbourDecides(KeyOf, issuers, n);
      var valid := ValidateIssuer(c, issuer);
      if valid.Err? {
        return Err(valid.error);
      }
      if issuer.status.Active? {
        active := active + 1;
      }
      if previous.Some? {
        if previous.value == issuer.issuerKeyId {
          return Err(DuplicateIssuer);
        }
        if Precedes(issuer.issuerKeyId, previous.value) {
          return Err(UnsortedIssuers);
        }
      }
      previous := Some(issuer.issuerKeyId);
    }
    assert issuers[..|issuers|] == issuers;
    r := Ok(active);
  }

  lemma NothingYet(c: Primitives, issuers: seq<IssuerRecord>)
    ensures ValidUpTo(c, issuers, 0) && StrictUpTo(KeyOf, issuers, 0)
  {
  }

  /** Counting active issuers and comparing neighbours is enough for the global condition. */
  method ValidateTrust(c: Primitives, content: TrustContent) returns (r: Result<(), TrustError>)
    ensures r.Ok? <==> ValidTrust(c, content)
    ensures r.Err? ==> TrustDefect(c, content, r.error)
  {
    if content.formatVersion != 1 {
      return Err(UnsupportedFormat);
    }
    var common := CommonError(content.snapshotVersion, content.generatedAt, content.expiresAt,
                              MAX_TRUST_LIFETIME_SECONDS, content.signatureAlgorithm);
    if common.Some? {
      return Err(common.value);
    }
    if !ValidKeyId(content.rootKeyId) || |content.issuers| > MAX_ISSUERS {
      return Err(if |content.issuers| > MAX_ISSUERS then TooManyIssuers else InvalidKeyId);
    }
    var active :- ValidateIssuers(c, content.issuers);
    CountActiveSeesPairs(content.issuers);
    if active > 1 {
      return Err(MultipleActiveIssuers);
    }
    r := Ok(());
  }

  function CountActive(issuers: seq<IssuerRecord>): nat {
    if issuers == [] then 0
    else CountActive(issuers[..|issuers| - 1]) + if issuers[|issuers| - 1].status.Active? then 1 else 0
  }

  lemma OrderExcludesDuplicates(issuers: seq<IssuerRecord>, i: nat, j: nat)
    requires i < j < |issuers| && issuers[i].issuerKeyId == issuers[j].issuerKeyId
    ensures !StrictlySortedBy(KeyOf, issuers)
  {
    PrecedesIsIrreflexive(KeyOf(issuers[i]));
    assert !Precedes(KeyOf(issuers[i]), KeyOf(issuers[j]));
  }

  lemma {:induction false} NoneActive(issuers: seq<IssuerRecord>)
    ensures CountActive(issuers) == 0 <==> forall k :: 0 <= k < |issuers| ==> !issuers[k].status.Active?
  {
    if issuers != [] {
      NoneActive(issuers[..|issuers| - 1]);
    }
  }

  /** A count above one means two distinct active positions, and the other way round. */
  lemma {:induction false} CountActiveSeesPairs(issuers: seq<IssuerRecord>)
    ensures CountActive(issuers) <= 1 <==> SingleActive(issuers)
  {
    if issuers != [] {
      var front := issuers[..|issuers| - 1];
      CountActiveSeesPairs(front);
      NoneActive(front);
      if SingleActive(issuers) {
        assert SingleActive(front);
      }
    }
  }

  // ----- Succession -----

  predicate TransitionAllowed(previous: IssuerStatus, next: IssuerStatus) {
    match previous
    case Future => next.Future? || next.Active? || next.Revoked?
    case Active => next.Active? || next.Retired? || next.Revoked?
    case Retired => next.Retired? || next.Revoked?
    case Revoked => next.Revoked?
  }

  /** `next` carries the issuer of `existing` on, under the same key. */
  ghost predicate Continues(existing: IssuerRecord, next: seq<IssuerRecord>) {
    exists k :: 0 <= k < |next| && CarriesOn(existing, next[k])
  }

  predicate CarriesOn(existing: IssuerRecord, replacement: IssuerRecord) {
    && replacement.issuerKeyId == existing.issuerKeyId
    && replacement.publicKey == existing.publicKey
    && TransitionAllowed(existing.status, replacement.status)
  }

  ghost predicate TrustSuccessor(c: Primitives, current: TrustContent, next: TrustContent) {
    && ValidTrust(c, current)
    && ValidTrust(c, next)
    && current.snapshotVersion < next.snapshotVersion
    && current.generatedAt <= next.generatedAt
    && (forall issuer :: issuer in current.issuers ==> Continues(issuer, next.issuers))
  }

  function FindIssuer(issuers: seq<IssuerRecord>, key: Text): (r: Option<IssuerRecord>)
    ensures r.Some? ==> r.value in issuers && r.value.issuerKeyId == key
    ensures r.None? ==> forall issuer :: issuer in issuers ==> issuer.issuerKeyId != key
  {
    if issuers == [] then None
    else if issuers[0].issuerKeyId == key then Some(issuers[0])
    else FindIssuer(issuers[1..], key)
  }

  /** In a sorted list the first issuer found under a key is the only one. */
  lemma FoundIsUnique(issuers: seq<IssuerRecord>, issuer: IssuerRecord)
    requires StrictlySortedBy(KeyOf, issuers) && issuer in issuers
    ensures FindIssuer(issuers, issuer.issuerKeyId) == Some(issuer)
  {
    var found := FindIssuer(issuers, issuer.issuerKeyId);
    var i :| 0 <= i < |issuers| && issuers[i] == issuer;
    var j :| 0 <= j < |issuers| && issuers[j] == found.value;
    if i < j {
      OrderExcludesDuplicates(issuers, i, j);
    } else if j < i {
      OrderExcludesDuplicates(issuers, j, i);
    }
  }

  /** No defect of a single snapshot is reported as one between two. */
  lemma DefectsAreOfOneSnapshot(c: Primitives, content: TrustContent, e: TrustError)
    requires TrustDefect(c, content, e)
    ensures e != SnapshotRollback && e != MissingIssuer && e != PublicKeyReplacement && e != InvalidStatusTransition
  {
    hide ValidUsages, ValidKey, ValidKeyId;
  }

  lemma ValidIsSorted(c: Primitives, content: TrustContent)
    requires ValidTrust(c, content)
    ensures StrictlySortedBy(KeyOf, content.issuers) && SingleActive(content.issuers)
  {
  }

  method ValidateTrustSuccessor(c: Primitives, current: TrustContent, next: TrustContent)
    returns (r: Result<(), TrustError>)
    ensures r.Ok? <==> TrustSuccessor(c, current, next)
    ensures r == Err(SnapshotRollback) ==>
      next.snapshotVersion <= current.snapshotVersion || next.generatedAt < current.generatedAt
    ensures r == Err(MissingIssuer) ==>
      exists e :: e in current.issuers && forall n :: n in next.issuers ==> n.issuerKeyId != e.issuerKeyId
    ensures r == Err(PublicKeyReplacement) ==>
      exists e, n :: e in current.issuers && n in next.issuers
        && n.issuerKeyId == e.issuerKeyId && n.publicKey != e.publicKey
    ensures r == Err(InvalidStatusTransition) ==>
      exists e, n :: e in current.issuers && n in next.issuers
        && n.issuerKeyId == e.issuerKeyId && !StaysOrAdvances(e.status, n.status)
    ensures ValidTrust(c, current) && ValidTrust(c, next) ==>
      (r.Ok? <==> current.snapshotVersion < next.snapshotVersion && current.generatedAt <= next.generatedAt
                  && KeepsIssuers(current.issuers, next.issuers))
  {
    hide ValidTrust, TrustDefect, StrictlySortedBy, SingleActive, TransitionAllowed, FindIssuer, StaysOrAdvances,
      KeepsIssuers, TrustSuccessor;
    SuccessorUnfolds(c, current, next);
    if ValidTrust(c, current) && ValidTrust(c, next) {
      SuccessionIsByIssuer(c, current, next);
    }
    var valid := ValidateTrust(c, current);
    if valid.Err? {
      DefectsAreOfOneSnapshot(c, current, valid.error);
      return valid;
    }
    valid := ValidateTrust(c, next);
    if valid.Err? {
      DefectsAreOfOneSnapshot(c, next, valid.error);
      return valid;
    }
    ValidIsSorted(c, next);
    if next.snapshotVersion <= current.snapshotVersion || next.generatedAt < current.generatedAt {
      return Err(SnapshotRollback);
    }
    for i := 0 to |current.issuers|
      invariant forall k :: 0 <= k < i ==> Continues(current.issuers[k], next.issuers)
    {
      var existing := current.issuers[i];
      assert existing in current.issuers;
      var found := FindIssuer(next.issuers, existing.issuerKeyId);
      if found.None? {
        return Err(MissingIssuer);
      }
      var replacement := found.value;
      OnlyFoundContinues(existing, next.issuers, replacement);
      if replacement.publicKey != existing.publicKey {
        return Err(PublicKeyReplacement);
      }
      AllowedIsKeptOrAdvanced(existing.status, replacement.status);
      if !TransitionAllowed(existing.status, replacement.status) {
        return Err(InvalidStatusTransition);
      }
    }
    r := Ok(());
  }

  lemma OnlyFoundContinues(existing: IssuerRecord, next: seq<IssuerRecord>, found: IssuerRecord)
    requires StrictlySortedBy(KeyOf, next)
    requires found in next && found.issuerKeyId == existing.issuerKeyId
    ensures Continues(existing, next) <==> CarriesOn(existing, found)
  {
    var k :| 0 <= k < |next| && next[k] == found;
    if Continues(existing, next) {
      var j :| 0 <= j < |next| && CarriesOn(existing, next[j]);
      FoundIsUnique(next, found);
      FoundIsUnique(next, next[j]);
    }
  }

  // ----- What a successor may change -----

  /** An issuer keeps its status, moves one step from future to active or from active to
      retired, or is revoked. */
  predicate StaysOrAdvances(before: IssuerStatus, after: IssuerStatus) {
    || after == before
    || after.Revoked?
    || (before.Future? && after.Active?)
    || (before.Active? && after.Retired?)
  }

  lemma AllowedIsKeptOrAdvanced(before: IssuerStatus, after: IssuerStatus)
    ensures TransitionAllowed(before, after) <==> StaysOrAdvances(before, after)
  {
  }

  lemma SuccessorUnfolds(c: Primitives, current: TrustContent, next: TrustContent)
    ensures TrustSuccessor(c, current, next) <==>
      && ValidTrust(c, current) && ValidTrust(c, next)
      && current.snapshotVersion < next.snapshotVersion && current.generatedAt <= next.generatedAt
      && forall issuer :: issuer in current.issuers ==> Continues(issuer, next.issuers)
  {
  }

  /** Each issuer is still there, under the same key, with its status kept or advanced. */
  ghost predicate KeepsIssuers(before: seq<IssuerRecord>, after: seq<IssuerRecord>) {
    forall e :: e in before ==>
      exists n :: n in after && n.issuerKeyId == e.issuerKeyId && n.publicKey == e.publicKey
        && StaysOrAdvances(e.status, n.status)
  }

  /** Of two valid snapshots the later succeeds the earlier exactly when each issuer is still
      there, under the same key, with its status kept or advanced. */
  lemma SuccessionIsByIssuer(c: Primitives, current: TrustContent, next: TrustContent)
    requires ValidTrust(c, current) && ValidTrust(c, next)
    ensures TrustSuccessor(c, current, next) <==>
      && current.snapshotVersion < next.snapshotVersion && current.generatedAt <= next.generatedAt
      && KeepsIssuers(current.issuers, next.issuers)
  {
    hide ValidTrust;
    forall e | e in current.issuers
      ensures Continues(e, next.issuers) <==>
        exists n :: n in next.issuers && n.issuerKeyId == e.issuerKeyId && n.publicKey == e.publicKey
          && StaysOrAdvances(e.status, n.status)
    {
      if n :| n in next.issuers && n.issuerKeyId == e.issuerKeyId && n.publicKey == e.publicKey
              && StaysOrAdvances(e.status, n.status)
      {
        var k :| 0 <= k < |next.issuers| && next.issuers[k] == n;
        assert CarriesOn(e, next.issuers[k]);
      }
    }
  }

  /** The next snapshot with one status changed and nothing else but its numbers. */
  function WithStatus(current: TrustContent, i: nat, status: IssuerStatus, version: nat, at: nat, until: nat)
    : TrustContent
    requires i < |current.issuers|
  {
    current.(snapshotVersion := version, generatedAt := at, expiresAt := until,
             issuers := current.issuers[i := current.issuers[i].(status := status)])
  }

  lemma WithStatusKeepsOrder(current: TrustContent, i: nat, status: IssuerStatus)
    requires i < |current.issuers| && StrictlySortedBy(KeyOf, current.issuers)
    ensures StrictlySortedBy(KeyOf, current.issuers[i := current.issuers[i].(status := status)])
  {
  }

  lemma WithStatusIsValid(c: Primitives, current: TrustContent, i: nat, status: IssuerStatus,
                          version: nat, at: nat, until: nat)
    requires ValidTrust(c, current) && i < |current.issuers|
    requires 0 < version && at < until <= at + 15_552_000
    requires status.Active? ==> forall j :: 0 <= j < |current.issuers| && j != i ==> !current.issuers[j].status.Active?
    ensures ValidTrust(c, WithStatus(current, i, status, version, at, until))
  {
    hide ValidIssuer, ValidKeyId, StrictlySortedBy;
    var next := WithStatus(current, i, status, version, at, until);
    WithStatusKeepsOrder(current, i, status);
    forall issuer | issuer in next.issuers ensures ValidIssuer(c, issuer) {
      var k :| 0 <= k < |next.issuers| && next.issuers[k] == issuer;
      assert current.issuers[k] in current.issuers;
      AnyStatusIsValid(c, current.issuers[k], status);
    }
  }

  lemma AnyStatusIsValid(c: Primitives, issuer: IssuerRecord, status: IssuerStatus)
    ensures ValidIssuer(c, issuer.(status := status)) <==> ValidIssuer(c, issuer)
  {
  }

  lemma TwoActiveAreInvalid(c: Primitives, content: TrustContent, i: nat, j: nat)
    requires i < |content.issuers| && j < |content.issuers| && i != j
    requires content.issuers[i].status.Active? && content.issuers[j].status.Active?
    ensures !ValidTrust(c, content)
  {
    assert i < j || j < i;
  }

  /** From any valid snapshot one status may change in exactly these ways. Revoking is always
      possible, whatever the issuer was, and so is repeating every status. */
  lemma OneStatusMayChange(c: Primitives, current: TrustContent, i: nat, status: IssuerStatus,
                           version: nat, at: nat, until: nat)
    requires ValidTrust(c, current) && i < |current.issuers|
    requires current.snapshotVersion < version && current.generatedAt <= at < until <= at + 15_552_000
    ensures TrustSuccessor(c, current, WithStatus(current, i, status, version, at, until)) <==>
      && StaysOrAdvances(current.issuers[i].status, status)
      && (status.Active? ==> forall j :: 0 <= j < |current.issuers| && j != i ==> !current.issuers[j].status.Active?)
  {
    hide ValidTrust;
    var next := WithStatus(current, i, status, version, at, until);
    var alone := status.Active? ==>
      forall j :: 0 <= j < |current.issuers| && j != i ==> !current.issuers[j].status.Active?;
    if alone {
      WithStatusIsValid(c, current, i, status, version, at, until);
      SuccessionOfOneChange(c, current, next, i, status);
    } else {
      var j :| 0 <= j < |current.issuers| && j != i && current.issuers[j].status.Active?;
      TwoActiveAreInvalid(c, next, i, j);
    }
  }

  lemma SuccessionOfOneChange(c: Primitives, current: TrustContent, next: TrustContent, i: nat, status: IssuerStatus)
    requires ValidTrust(c, current) && ValidTrust(c, next) && i < |current.issuers|
    requires current.snapshotVersion < next.snapshotVersion && current.generatedAt <= next.generatedAt
    requires next.issuers == current.issuers[i := current.issuers[i].(status := status)]
    ensures TrustSuccessor(c, current, next) <==> StaysOrAdvances(current.issuers[i].status, status)
  {
    hide ValidTrust, StrictlySortedBy;
    ValidIsSorted(c, next);
    forall k | 0 <= k < |current.issuers|
      ensures Continues(current.issuers[k], next.issuers) <==>
        k != i || StaysOrAdvances(current.issuers[i].status, status)
    {
      assert next.issuers[k] in next.issuers;
      OnlyFoundContinues(current.issuers[k], next.issuers, next.issuers[k]);
    }
    assert current.issuers[i] in current.issuers;
  }
}
