/** What is signed online and what the status endpoint says of it later. Models
    `active_certificate_signer`, the signing part of `issue_certificate` and
    `certificate_status` of src/lib.rs, and `issue` of src/certificate.rs. What a handler
    reads from the database is a parameter, so the reads may be from different moments. */
module CertificateStatus {
  import opened Prelude
  import opened Cryptography
  import opened Sorting
  import opened TrustMaterial
  import TrustMessage
  import TrustRegistry
  import TrustChain
  import CertificateRequest
  import RevocationStore
  import RevocationPublication

  const MIN_TTL_SECONDS: nat := 60
  const MAX_TTL_SECONDS: nat := 31_536_000

  datatype Content = Content(
    serial: nat, issuerKeyId: Text, developerId: Text, subjectKeyId: Text, subjectPublicKey: Bytes,
    notBefore: nat, notAfter: nat, scopes: seq<CertificateRequest.Scope>, capabilities: seq<Text>)

  datatype Certificate = Certificate(content: Content, signature: Bytes)

  /** The MCER format of the certificate crate. */
  datatype Format = Format(
    tk: CertificateRequest.Toolkit,
    wellFormed: Content -> bool,
    message: Content -> Bytes,
    encode: Certificate -> Text,
    decode: Text -> Option<Certificate>,
    verifies: (Certificate, Bytes, nat) -> bool)
  {
    /** Encoding round trips, and a well-formed certificate signed by the key it names
        verifies inside its window. */
    ghost predicate Lawful() {
      && tk.Lawful()
      && (forall c :: decode(encode(c)) == Some(c))
      && (forall c, seed, at ::
            (wellFormed(c) && c.scopes != [] && c.issuerKeyId == tk.keys.keyId(tk.keys.publicKey(seed))
             && c.notBefore <= at < c.notAfter)
            ==> verifies(Certificate(c, tk.keys.sign(seed, message(c))), tk.keys.publicKey(seed), at))
    }
  }

  datatype Source = OnlineIntermediate | LegacyRoot | OtherSource

  datatype RowStatus = Current | SuspendedRow | RevokedRow | OtherStatus

  datatype Row = Row(
    developer: Text, serial: nat, issuerKeyId: Text, subjectKeyId: Text, wire: Text,
    notBefore: nat, notAfter: nat, source: Source, status: RowStatus)

  datatype Developer = Developer(active: bool, verified: bool, certificateDeveloperId: Text)

  // ----- Issuing -----

  /** What the signer accepts: a verifying snapshot, an issuer it authorizes now, and a
      registry row that agrees. */
  ghost predicate SignerAccepts(f: Format, trust: TrustSnapshot, rootKey: Bytes, seed: Bytes,
                                registry: TrustRegistry.Registry, at: nat) {
    var key := f.tk.keys.keyId(f.tk.keys.publicKey(seed));
    && TrustMessage.TrustVerifies(f.tk.keys, trust, rootKey, at)
    && TrustChain.SnapshotAuthorizes(trust.content, key, at)
    && TrustChain.RowAgrees(registry, trust.content, key)
  }

  /** A stored snapshot whose JSON may be unreadable. */
  datatype Stored = Unreadable | Readable(snapshot: TrustSnapshot)

  datatype SignerError =
    | TrustUnavailable
    | TrustInvalid
    | RootKeyUnavailable
    | SigningKeyUnavailable
    | SigningKeyInvalid
    | IssuerNotTrusted
    | IssuerNotAuthorized
    | IssuerNotRegistered
    | RegistryMismatch

  /** What the signer reads: the current snapshot, two secrets, and the registry. */
  datatype SignerReads = SignerReads(
    trust: Option<Stored>, rootKey: Option<Bytes>, secret: Option<Text>, registry: TrustRegistry.Registry)

  function SeedOf(f: Format, secret: Text): Option<Bytes> {
    var bytes := f.tk.keys.unbase64(secret);
    if bytes.Some? && |bytes.value| == 32 then bytes else None
  }

  function KeyOfSeed(f: Format, seed: Bytes): Text {
    f.tk.keys.keyId(f.tk.keys.publicKey(seed))
  }

  ghost predicate TrustStands(f: Format, seen: SignerReads, at: nat) {
    && seen.trust.Some? && seen.trust.value.Readable? && seen.rootKey.Some?
    && TrustMessage.TrustVerifies(f.tk.keys, seen.trust.value.snapshot, seen.rootKey.value, at)
  }

  ghost predicate HasSeed(f: Format, seen: SignerReads, at: nat) {
    TrustStands(f, seen, at) && seen.secret.Some? && SeedOf(f, seen.secret.value).Some?
  }

  /** Exactly when each refusal is given. */
  ghost predicate SignerRefuses(f: Format, seen: SignerReads, at: nat, e: SignerError) {
    match e
    case TrustUnavailable => seen.trust.None?
    case RootKeyUnavailable => seen.trust.Some? && seen.trust.value.Readable? && seen.rootKey.None?
    case TrustInvalid =>
      seen.trust.Some?
      && (seen.trust.value.Unreadable? || (seen.rootKey.Some? && !TrustStands(f, seen, at)))
    case SigningKeyUnavailable => TrustStands(f, seen, at) && seen.secret.None?
    case SigningKeyInvalid =>
      TrustStands(f, seen, at) && seen.secret.Some? && SeedOf(f, seen.secret.value).None?
    case _ =>
      && HasSeed(f, seen, at)
      && var content := seen.trust.value.snapshot.content;
      && var key := KeyOfSeed(f, SeedOf(f, seen.secret.value).value);
      && match e
         case IssuerNotTrusted => FindIssuer(content.issuers, key).None?
         case IssuerNotAuthorized =>
           FindIssuer(content.issuers, key).Some? && !TrustChain.SnapshotAuthorizes(content, key, at)
         case IssuerNotRegistered => TrustChain.SnapshotAuthorizes(content, key, at) && key !in seen.registry
         case _ =>
           && TrustChain.SnapshotAuthorizes(content, key, at) && key in seen.registry
           && !TrustChain.RowAgrees(seen.registry, content, key)
  }

  lemma LawfulKeys(f: Format)
    ensures f.Lawful() ==> f.tk.keys.Lawful()
  {
  }

  lemma SignerFacts(f: Format, trust: TrustSnapshot, rootKey: Bytes, seed: Bytes, registry: TrustRegistry.Registry,
                    at: nat)
    ensures var content, key := trust.content, KeyOfSeed(f, seed);
      && (TrustChain.SnapshotAuthorizes(content, key, at) ==> FindIssuer(content.issuers, key).Some?)
      && (TrustChain.RowAgrees(registry, content, key) ==> key in registry)
      && (TrustMessage.TrustVerifies(f.tk.keys, trust, rootKey, at)
          && TrustChain.SnapshotAuthorizes(content, key, at) && TrustChain.RowAgrees(registry, content, key) ==>
            SignerAccepts(f, trust, rootKey, seed, registry, at)
            && RegisteredAs(content, key, registry[key], at))
  {
    hide TrustMessage.TrustVerifies;
  }

  /** The snapshot has this issuer active, with the usage, inside its window, and this is its
      row. */
  ghost predicate RegisteredAs(content: TrustContent, key: Text, row: TrustRegistry.IssuerRow, at: nat) {
    exists issuer ::
      && issuer in content.issuers && issuer.issuerKeyId == key && issuer.status.Active?
      && Ascii("developer-certificate-signing") in issuer.allowedKeyUsages
      && issuer.notBefore <= at < issuer.notAfter
      && row == TrustRegistry.IssuerRow(issuer.publicKey, Active, issuer.notBefore, issuer.notAfter,
                                        row.allowedKeyUsages, content.snapshotVersion)
  }

  method ActiveSigner(f: Format, seen: SignerReads, at: nat)
    returns (r: Result<(Bytes, TrustRegistry.IssuerRow), SignerError>)
    requires seen.trust.Some? && seen.trust.value.Readable? ==>
      TrustMessage.MachineWidths(seen.trust.value.snapshot.content)
    ensures r.Ok? ==>
      && HasSeed(f, seen, at)
      && var seed := SeedOf(f, seen.secret.value).value;
      && SignerAccepts(f, seen.trust.value.snapshot, seen.rootKey.value, seed, seen.registry, at)
      && r.value == (seed, seen.registry[KeyOfSeed(f, seed)])
      && f.tk.keys.unbase64(seen.secret.value) == Some(seed) && |seed| == 32
      && RegisteredAs(seen.trust.value.snapshot.content, f.tk.keys.keyId(f.tk.keys.publicKey(seed)), r.value.1, at)
      && r.value.1.notBefore <= at < r.value.1.notAfter
    ensures f.Lawful() ==> forall e :: r == Err(e) <==> SignerRefuses(f, seen, at, e)
  {
    hide TrustMessage.TrustVerifies, TrustChain.SnapshotAuthorizes, TrustChain.RowAgrees, FindIssuer, f.Lawful,
      f.tk.keys.Lawful, SeedOf, KeyOfSeed, TrustMessage.MachineWidths, RegisteredAs;
    LawfulKeys(f);
    if seen.trust.None? {
      return Err(TrustUnavailable);
    }
    if seen.trust.value.Unreadable? {
      return Err(TrustInvalid);
    }
    if seen.rootKey.None? {
      return Err(RootKeyUnavailable);
    }
    var trust := seen.trust.value.snapshot;
    var verified := TrustMessage.VerifyTrust(f.tk.keys, trust, seen.rootKey.value, at);
    if verified.Err? {
      return Err(TrustInvalid);
    }
    if seen.secret.None? {
      return Err(SigningKeyUnavailable);
    }
    var seed := SeedOf(f, seen.secret.value);
    if seed.None? {
      return Err(SigningKeyInvalid);
    }
    var key := KeyOfSeed(f, seed.value);
    SignerFacts(f, trust, seen.rootKey.value, seed.value, seen.registry, at);
    if FindIssuer(trust.content.issuers, key).None? {
      return Err(IssuerNotTrusted);
    }
    if !TrustChain.SnapshotAuthorizes(trust.content, key, at) {
      return Err(IssuerNotAuthorized);
    }
    if key !in seen.registry {
      return Err(IssuerNotRegistered);
    }
    if !TrustChain.RowAgrees(seen.registry, trust.content, key) {
      return Err(RegistryMismatch);
    }
    SeedIsDecoded(f, seen.secret.value, seed.value);
    RegisteredIsOpen(trust.content, key, seen.registry[key], at);
    r := Ok((seed.value, seen.registry[key]));
  }

  lemma SeedIsDecoded(f: Format, secret: Text, seed: Bytes)
    requires SeedOf(f, secret) == Some(seed)
    ensures f.tk.keys.unbase64(secret) == Some(seed) && |seed| == 32
    ensures KeyOfSeed(f, seed) == f.tk.keys.keyId(f.tk.keys.publicKey(seed))
  {
  }

  lemma RegisteredIsOpen(content: TrustContent, key: Text, row: TrustRegistry.IssuerRow, at: nat)
    requires RegisteredAs(content, key, row, at)
    ensures row.notBefore <= at < row.notAfter
  {
  }

  /** The content that a request asks for, under the key of this seed. */
  function Requested(f: Format, serial: nat, developerId: Text, notBefore: nat, notAfter: nat,
                     request: CertificateRequest.Request, seed: Bytes): Content
    requires CertificateRequest.DecodeKey(f.tk, request.subjectPublicKey).Some?
  {
    var subject := CertificateRequest.DecodeKey(f.tk, request.subjectPublicKey).value;
    Content(serial, f.tk.keys.keyId(f.tk.keys.publicKey(seed)), developerId, f.tk.keys.keyId(subject), subject,
            notBefore, notAfter,
            SortBy(f.tk.scopeKey, CertificateRequest.Parsed(request.packageIdScopes)),
            SortBy(Self, request.allowedCapabilities))
  }

  /** Builds the certificate with an empty signature, then fills the signature in. */
  method Sign(f: Format, serial: nat, developerId: Text, notBefore: nat, notAfter: nat,
              request: CertificateRequest.Request, seed: Bytes) returns (wire: Option<Text>)
    ensures wire.Some? ==>
      && CertificateRequest.DecodeKey(f.tk, request.subjectPublicKey).Some?
      && SignedAs(f, Requested(f, serial, developerId, notBefore, notAfter, request, seed), seed, wire.value)
    ensures f.Lawful() || |request.packageIdScopes| == 1 ==>
      (wire.Some? <==>
        && CertificateRequest.Acceptable(f.tk, request)
        && f.wellFormed(Requested(f, serial, developerId, notBefore, notAfter, request, seed)))
  {
    var valid := CertificateRequest.Validate(f.tk, request);
    if valid.Err? {
      return None;
    }
    SortSorts(f.tk.scopeKey, CertificateRequest.Parsed(request.packageIdScopes));
    var scopes := CertificateRequest.ParseScopes(f.tk, request.packageIdScopes);
    if scopes.Err? {
      return None;
    }
    var content := Content(serial, f.tk.keys.keyId(f.tk.keys.publicKey(seed)), developerId,
                           f.tk.keys.keyId(valid.value), valid.value, notBefore, notAfter,
                           scopes.value, SortBy(Self, request.allowedCapabilities));
    var certificate := Certificate(content, []);
    if !f.wellFormed(certificate.content) {
      return None;
    }
    certificate := certificate.(signature := f.tk.keys.sign(seed, f.message(certificate.content)));
    wire := Some(f.encode(certificate));
  }

  predicate SignedAs(f: Format, content: Content, seed: Bytes, wire: Text) {
    && f.wellFormed(content) && content.scopes != []
    && wire == f.encode(Certificate(content, f.tk.keys.sign(seed, f.message(content))))
  }

  /** A certificate row that online issuance wrote at `at`. */
  ghost predicate IssuedAs(f: Format, row: Row, seed: Bytes, developerId: Text, at: nat) {
    && row.source.OnlineIntermediate?
    && row.notBefore == at
    && row.issuerKeyId == f.tk.keys.keyId(f.tk.keys.publicKey(seed))
    && exists content ::
         && SignedAs(f, content, seed, row.wire)
         && content.developerId == developerId && content.serial == row.serial
         && content.issuerKeyId == row.issuerKeyId && content.subjectKeyId == row.subjectKeyId
         && content.notBefore == row.notBefore && content.notAfter == row.notAfter
  }

  function ClampTtl(configured: Option<int>): nat {
    var ttl := if configured.Some? then configured.value else MAX_TTL_SECONDS;
    Min(Max(ttl, MIN_TTL_SECONDS), MAX_TTL_SECONDS)
  }

  /** From the signer's answer to the row: an online certificate lasts 60 to 31,536,000
      seconds and stays inside its issuer's window. An acceptable request is refused only
      when the issuer ends within 60 seconds or the format has no room for it. */
  method IssueOnline(f: Format, seed: Bytes, issuer: TrustRegistry.IssuerRow, developer: Text, developerId: Text,
                     serial: nat, request: CertificateRequest.Request, ttl: Option<int>, at: nat)
    returns (row: Option<Row>)
    requires issuer.notBefore <= at < issuer.notAfter
    requires CertificateRequest.Acceptable(f.tk, request)
    ensures f.Lawful() || |request.packageIdScopes| == 1 ==>
      (row.Some? <==>
        && at + 60 <= issuer.notAfter
        && f.wellFormed(Requested(f, serial, developerId, at, Min(at + ClampTtl(ttl), issuer.notAfter), request, seed)))
    ensures row.Some? ==>
      && IssuedAs(f, row.value, seed, developerId, at)
      && row.value.status.Current? && row.value.developer == developer && row.value.serial == serial
      && 60 <= row.value.notAfter - row.value.notBefore <= 31_536_000
      && issuer.notBefore <= row.value.notBefore < row.value.notAfter <= issuer.notAfter
    ensures row.Some? ==>
      var life := if ttl.None? || ttl.value > 31_536_000 then 31_536_000 else if ttl.value < 60 then 60 else ttl.value;
      row.value.notAfter == if at + life < issuer.notAfter then at + life else issuer.notAfter
    ensures row.Some? && f.Lawful() ==>
      f.decode(row.value.wire).Some?
      && CarriesRequest(f, f.decode(row.value.wire).value.content, request, developerId, row.value)
  {
    var notAfter := Min(at + ClampTtl(ttl), issuer.notAfter);
    if notAfter <= at + 59 {
      return None;
    }
    var wire := Sign(f, serial, developerId, at, notAfter, request, seed);
    if wire.None? {
      return None;
    }
    var issuerKeyId := f.tk.keys.keyId(f.tk.keys.publicKey(seed));
    var key := CertificateRequest.DecodeKey(f.tk, request.subjectPublicKey).value;
    ghost var content := Requested(f, serial, developerId, at, notAfter, request, seed);
    assert SignedAs(f, content, seed, wire.value);
    row := Some(Row(developer, serial, issuerKeyId, f.tk.keys.keyId(key), wire.value, at, notAfter,
                    OnlineIntermediate, Current));
    RequestedIsCarried(f, serial, developerId, at, notAfter, request, seed, row.value);
  }

  /** The certificate is for the key, the scopes and the capabilities that were asked for, no
      more and no fewer, and says what the row says. */
  ghost predicate CarriesRequest(f: Format, content: Content, request: CertificateRequest.Request, developerId: Text,
                                 row: Row) {
    && CertificateRequest.DecodeKey(f.tk, request.subjectPublicKey) == Some(content.subjectPublicKey)
    && content.subjectKeyId == row.subjectKeyId == f.tk.keys.keyId(content.subjectPublicKey)
    && (forall scope :: scope in content.scopes <==>
          exists t :: t in request.packageIdScopes && scope == CertificateRequest.ParseScope(t))
    && (forall capability :: capability in content.capabilities <==> capability in request.allowedCapabilities)
    && content.developerId == developerId && content.serial == row.serial
    && content.issuerKeyId == row.issuerKeyId
    && content.notBefore == row.notBefore && content.notAfter == row.notAfter
  }

  lemma RequestedIsCarried(f: Format, serial: nat, developerId: Text, notBefore: nat, notAfter: nat,
                           request: CertificateRequest.Request, seed: Bytes, row: Row)
    requires CertificateRequest.DecodeKey(f.tk, request.subjectPublicKey).Some?
    requires row.serial == serial && row.notBefore == notBefore && row.notAfter == notAfter
    requires row.issuerKeyId == f.tk.keys.keyId(f.tk.keys.publicKey(seed))
    requires row.subjectKeyId
          == f.tk.keys.keyId(CertificateRequest.DecodeKey(f.tk, request.subjectPublicKey).value)
    ensures CarriesRequest(f, Requested(f, serial, developerId, notBefore, notAfter, request, seed), request,
                           developerId, row)
  {
    hide CertificateRequest.DecodeKey, CertificateRequest.ParseScope;
    var parsed := CertificateRequest.Parsed(request.packageIdScopes);
    SortKeepsMembers(f.tk.scopeKey, parsed);
    SortKeepsMembers(Self, request.allowedCapabilities);
    forall scope
      ensures scope in parsed <==>
        exists t :: t in request.packageIdScopes && scope == CertificateRequest.ParseScope(t)
    {
      if t :| t in request.packageIdScopes && scope == CertificateRequest.ParseScope(t) {
        var i :| 0 <= i < |request.packageIdScopes| && request.packageIdScopes[i] == t;
        assert parsed[i] == scope;
      }
    }
  }

  // ----- The status endpoint -----

  /** What the handler has read. */
  datatype Reads = Reads(
    row: Option<Row>,
    revocation: bool,
    developer: Option<Developer>,
    rootKey: Option<Bytes>,
    trust: Option<TrustSnapshot>,
    registry: TrustRegistry.Registry)

  datatype Reason =
    | CertificateRevoked
    | CertificateSuspended
    | CertificateExpired
    | MetadataMismatch
    | DeveloperSuspended
    | DeveloperNotVerified
    | SignatureInvalid
    | IssuerUnknown
    | IssuerRevoked

  datatype Answer = UnknownCertificate | Valid(issuerKey: Bytes) | Invalid(reason: Reason)

  predicate IsRevoked(seen: Reads) {
    seen.row.Some? && (seen.row.value.status.RevokedRow? || seen.revocation)
  }

  predicate MetadataAgrees(row: Row, developer: Developer, content: Content) {
    && (content.developerId == developer.certificateDeveloperId
        || (row.source.LegacyRoot? && content.developerId == row.developer))
    && content.serial == row.serial
    && content.issuerKeyId == row.issuerKeyId
    && content.subjectKeyId == row.subjectKeyId
    && content.notBefore == row.notBefore
    && content.notAfter == row.notAfter
  }

  predicate DeveloperInOrder(seen: Reads) {
    seen.developer.Some? && seen.developer.value.active && seen.developer.value.verified
  }

  ghost predicate SnapshotVerifies(f: Format, seen: Reads, at: nat) {
    && seen.trust.Some? && seen.rootKey.Some?
    && TrustMessage.TrustVerifies(f.tk.keys, seen.trust.value, seen.rootKey.value, at)
  }

  /** A verifying snapshot keeps the issuer active or retired, with the usage and a window
      that covers the start. */
  ghost predicate IssuerVouched(f: Format, seen: Reads, key: Text, notBefore: nat, at: nat) {
    && SnapshotVerifies(f, seen, at)
    && FindIssuer(seen.trust.value.content.issuers, key).Some?
    && var issuer := FindIssuer(seen.trust.value.content.issuers, key).value;
    && (issuer.status.Active? || issuer.status.Retired?)
    && CertificateSigning() in issuer.allowedKeyUsages
    && issuer.notBefore <= notBefore < issuer.notAfter
  }

  /** The issuer part of an online certificate: the snapshot vouches for the issuer, and its
      registry row is in sync. */
  ghost predicate IssuerStands(f: Format, seen: Reads, key: Text, notBefore: nat, at: nat) {
    && IssuerVouched(f, seen, key, notBefore, at)
    && key in seen.registry
    && var issuer := FindIssuer(seen.trust.value.content.issuers, key).value;
    && seen.registry[key].publicKey == issuer.publicKey
    && seen.registry[key].status == issuer.status
    && seen.registry[key].version == seen.trust.value.content.snapshotVersion
  }

  function RegisteredKey(f: Format, registry: TrustRegistry.Registry, key: Text): Option<Bytes> {
    if key !in registry then None
    else
      var bytes := f.tk.keys.unbase64(registry[key].publicKey);
      if bytes.Some? && |bytes.value| == 32 then bytes else None
  }

  /** Neither revoked nor suspended nor over. */
  predicate Unexpired(seen: Reads, at: nat) {
    seen.row.Some? && !IsRevoked(seen) && seen.row.value.status.Current? && at < seen.row.value.notAfter
  }

  /** The key that an answer of "valid" names: the root for a legacy certificate. */
  function IssuingKey(f: Format, seen: Reads): Option<Bytes>
    requires seen.row.Some?
  {
    if seen.row.value.source.LegacyRoot? then seen.rootKey
    else RegisteredKey(f, seen.registry, seen.row.value.issuerKeyId)
  }

  /** Everything that "valid" asserts. */
  ghost predicate Reportable(f: Format, seen: Reads, at: nat) {
    && seen.row.Some? && seen.row.value.status.Current? && !seen.revocation
    && at < seen.row.value.notAfter
    && DeveloperInOrder(seen)
    && var row := seen.row.value;
    && f.decode(row.wire).Some?
    && var certificate := f.decode(row.wire).value;
    && MetadataAgrees(row, seen.developer.value, certificate.content)
    && match row.source
       case LegacyRoot =>
         && seen.rootKey.Some?
         && f.tk.keys.keyId(seen.rootKey.value) == certificate.content.issuerKeyId
         && f.verifies(certificate, seen.rootKey.value, at)
       case OnlineIntermediate =>
         && IssuerStands(f, seen, row.issuerKeyId, row.notBefore, at)
         && RegisteredKey(f, seen.registry, row.issuerKeyId).Some?
         && f.verifies(certificate, RegisteredKey(f, seen.registry, row.issuerKeyId).value, at)
       case OtherSource => false
  }

  /** Everything up to the issuer is in order. */
  ghost predicate Matched(f: Format, seen: Reads, at: nat) {
    && Unexpired(seen, at) && DeveloperInOrder(seen)
    && f.decode(seen.row.value.wire).Some?
    && MetadataAgrees(seen.row.value, seen.developer.value, f.decode(seen.row.value.wire).value.content)
  }

  /** Exactly when each reason comes from the issuer of an online certificate. */
  ghost predicate OnlineReason(f: Format, seen: Reads, parsed: Certificate, at: nat, reason: Reason)
    requires seen.row.Some?
  {
    var key, notBefore := seen.row.value.issuerKeyId, seen.row.value.notBefore;
    var vouched := IssuerVouched(f, seen, key, notBefore, at);
    var stands := IssuerStands(f, seen, key, notBefore, at);
    var revoked := SnapshotVerifies(f, seen, at) && TrustChain.RevokedAt(seen.trust.value.content, key);
    var rowRevoked := key in seen.registry && seen.registry[key].status == IssuerStatus.Revoked;
    match reason
    case IssuerRevoked => revoked || (vouched && rowRevoked)
    case IssuerUnknown =>
      || (!revoked && !vouched)
      || (vouched && key !in seen.registry)
      || (stands && RegisteredKey(f, seen.registry, key).None?)
    case MetadataMismatch => vouched && key in seen.registry && !rowRevoked && !stands
    case SignatureInvalid =>
      && stands && RegisteredKey(f, seen.registry, key).Some?
      && !f.verifies(parsed, RegisteredKey(f, seen.registry, key).value, at)
    case _ => false
  }

  /** The same for a legacy certificate, which the root signed itself. */
  ghost predicate LegacyReason(f: Format, seen: Reads, parsed: Certificate, at: nat, reason: Reason) {
    var rooted := seen.rootKey.Some? && f.tk.keys.keyId(seen.rootKey.value) == parsed.content.issuerKeyId;
    match reason
    case IssuerUnknown => !rooted
    case SignatureInvalid => rooted && !f.verifies(parsed, seen.rootKey.value, at)
    case _ => false
  }

  /** Exactly when each reason is given. */
  ghost predicate Reported(f: Format, seen: Reads, at: nat, reason: Reason) {
    || (match reason
        case CertificateRevoked => IsRevoked(seen)
        case CertificateSuspended =>
          seen.row.Some? && !IsRevoked(seen) && seen.row.value.status.SuspendedRow?
        case CertificateExpired =>
          seen.row.Some? && !IsRevoked(seen) && seen.row.value.status.Current? && seen.row.value.notAfter <= at
        case DeveloperSuspended => Unexpired(seen, at) && seen.developer.Some? && !seen.developer.value.active
        case DeveloperNotVerified =>
          Unexpired(seen, at) && seen.developer.Some? && seen.developer.value.active && !seen.developer.value.verified
        case MetadataMismatch =>
          || (seen.row.Some? && !IsRevoked(seen) && seen.row.value.status.OtherStatus?)
          || (Unexpired(seen, at) && seen.developer.None?)
          || (Unexpired(seen, at) && DeveloperInOrder(seen) && f.decode(seen.row.value.wire).Some?
              && !Matched(f, seen, at))
        case SignatureInvalid =>
          Unexpired(seen, at) && DeveloperInOrder(seen) && f.decode(seen.row.value.wire).None?
        case IssuerUnknown => Matched(f, seen, at) && seen.row.value.source.OtherSource?
        case IssuerRevoked => false)
    || (&& Matched(f, seen, at)
        && var parsed := f.decode(seen.row.value.wire).value;
        && match seen.row.value.source
           case OnlineIntermediate => OnlineReason(f, seen, parsed, at, reason)
           case LegacyRoot => LegacyReason(f, seen, parsed, at, reason)
           case OtherSource => false)
  }

  method Status(f: Format, seen: Reads, at: nat) returns (answer: Answer)
    requires seen.trust.Some? ==> TrustMessage.MachineWidths(seen.trust.value.content)
    ensures answer.Valid? ==> Reportable(f, seen, at) && Some(answer.issuerKey) == IssuingKey(f, seen)
    ensures f.Lawful() && Reportable(f, seen, at) ==> answer.Valid?
    ensures answer.UnknownCertificate? <==> seen.row.None?
    ensures answer == Invalid(CertificateRevoked) <==>
      seen.row.Some? && (seen.row.value.status.RevokedRow? || seen.revocation)
    ensures f.Lawful() ==> forall reason :: answer == Invalid(reason) <==> Reported(f, seen, at, reason)
  {
    hide TrustMessage.TrustVerifies, FindIssuer, RegisteredKey, f.Lawful, TrustMessage.MachineWidths,
      IssuerStands, OnlineReason;
    if seen.row.None? {
      return UnknownCertificate;
    }
    var row := seen.row.value;
    if row.status.RevokedRow? || seen.revocation {
      return Invalid(CertificateRevoked);
    }
    if row.status.SuspendedRow? {
      return Invalid(CertificateSuspended);
    }
    if !row.status.Current? {
      return Invalid(MetadataMismatch);
    }
    if row.notAfter <= at {
      return Invalid(CertificateExpired);
    }
    if seen.developer.None? {
      return Invalid(MetadataMismatch);
    }
    if !seen.developer.value.active {
      return Invalid(DeveloperSuspended);
    }
    if !seen.developer.value.verified {
      return Invalid(DeveloperNotVerified);
    }
    var parsed := f.decode(row.wire);
    if parsed.None? {
      return Invalid(SignatureInvalid);
    }
    if !MetadataAgrees(row, seen.developer.value, parsed.value.content) {
      return Invalid(MetadataMismatch);
    }
    if row.source.LegacyRoot? {
      if seen.rootKey.None? || f.tk.keys.keyId(seen.rootKey.value) != parsed.value.content.issuerKeyId {
        return Invalid(IssuerUnknown);
      }
      if !f.verifies(parsed.value, seen.rootKey.value, at) {
        return Invalid(SignatureInvalid);
      }
      return Valid(seen.rootKey.value);
    }
    if !row.source.OnlineIntermediate? {
      return Invalid(IssuerUnknown);
    }
    answer := OnlineStatus(f, seen, parsed.value, at);
  }

  /** The issuer part of the handler, for an online certificate whose metadata agrees. */
  method OnlineStatus(f: Format, seen: Reads, parsed: Certificate, at: nat) returns (answer: Answer)
    requires seen.row.Some?
    requires seen.trust.Some? ==> TrustMessage.MachineWidths(seen.trust.value.content)
    requires parsed.content.notBefore == seen.row.value.notBefore
    ensures var key := seen.row.value.issuerKeyId;
      var stands := IssuerStands(f, seen, key, seen.row.value.notBefore, at)
        && RegisteredKey(f, seen.registry, key).Some?
        && f.verifies(parsed, RegisteredKey(f, seen.registry, key).value, at);
      && (answer.Valid? ==> stands && Some(answer.issuerKey) == RegisteredKey(f, seen.registry, key))
      && (f.Lawful() && stands ==> answer.Valid?)
    ensures !answer.UnknownCertificate?
    ensures answer.Invalid? ==> answer.reason in {MetadataMismatch, SignatureInvalid, IssuerUnknown, IssuerRevoked}
    ensures f.Lawful() ==> forall reason :: answer == Invalid(reason) <==> OnlineReason(f, seen, parsed, at, reason)
  {
    hide TrustMessage.TrustVerifies, FindIssuer, RegisteredKey, f.Lawful, f.tk.keys.Lawful, TrustMessage.MachineWidths;
    LawfulKeys(f);
    if seen.trust.None? || seen.rootKey.None? {
      return Invalid(IssuerUnknown);
    }
    var row, content := seen.row.value, seen.trust.value.content;
    var verified := TrustMessage.VerifyTrust(f.tk.keys, seen.trust.value, seen.rootKey.value, at);
    if verified.Err? {
      return Invalid(IssuerUnknown);
    }
    var signed := FindIssuer(content.issuers, row.issuerKeyId);
    if signed.None? {
      return Invalid(IssuerUnknown);
    }
    if signed.value.status == IssuerStatus.Revoked {
      return Invalid(IssuerRevoked);
    }
    if !(signed.value.status.Active? || signed.value.status.Retired?)
       || CertificateSigning() !in signed.value.allowedKeyUsages
       || parsed.content.notBefore < signed.value.notBefore
       || parsed.content.notBefore >= signed.value.notAfter
    {
      return Invalid(IssuerUnknown);
    }
    if row.issuerKeyId !in seen.registry {
      return Invalid(IssuerUnknown);
    }
    var registered := seen.registry[row.issuerKeyId];
    if registered.status == IssuerStatus.Revoked {
      return Invalid(IssuerRevoked);
    }
    if registered.publicKey != signed.value.publicKey || registered.status != signed.value.status
       || registered.version != content.snapshotVersion
    {
      return Invalid(MetadataMismatch);
    }
    var key := RegisteredKey(f, seen.registry, row.issuerKeyId);
    if key.None? {
      return Invalid(IssuerUnknown);
    }
    if !f.verifies(parsed, key.value, at) {
      return Invalid(SignatureInvalid);
    }
    answer := Valid(key.value);
  }

  // ----- Agreement -----

  /** A snapshot that verifies names the signing key under its identifier, and no other. */
  lemma TrustedKeyIsSigningKey(f: Format, trust: TrustSnapshot, rootKey: Bytes, seed: Bytes, at: nat,
                               issuer: IssuerRecord)
    requires f.Lawful() && TrustMessage.TrustVerifies(f.tk.keys, trust, rootKey, at)
    requires issuer in trust.content.issuers && issuer.issuerKeyId == f.tk.keys.keyId(f.tk.keys.publicKey(seed))
    ensures f.tk.keys.unbase64(issuer.publicKey) == Some(f.tk.keys.publicKey(seed))
    ensures |f.tk.keys.publicKey(seed)| == 32
  {
    assert ValidIssuer(f.tk.keys, issuer);
  }

  /** For a certificate issued online, status and time aside, nothing but the developer and
      the issuer decides: its own metadata and signature always check out. So at any later
      time it is reported valid exactly while it is neither revoked nor suspended nor over,
      its developer is active and verified, and its issuer stands. */
  lemma IssuedIsReportedExactly(f: Format, seen: Reads, seed: Bytes, developerId: Text, issuedAt: nat, at: nat)
    requires f.Lawful() && issuedAt <= at && seen.row.Some?
    requires IssuedAs(f, seen.row.value, seed, developerId, issuedAt)
    ensures Reportable(f, seen, at) <==>
      && seen.row.value.status.Current? && !seen.revocation
      && at < seen.row.value.notAfter
      && DeveloperInOrder(seen) && seen.developer.value.certificateDeveloperId == developerId
      && IssuerStands(f, seen, seen.row.value.issuerKeyId, issuedAt, at)
  {
    hide TrustMessage.TrustVerifies, FindIssuer, f.tk.Lawful;
    var row := seen.row.value;
    var content :|
      && SignedAs(f, content, seed, row.wire)
      && content.developerId == developerId && content.serial == row.serial
      && content.issuerKeyId == row.issuerKeyId && content.subjectKeyId == row.subjectKeyId
      && content.notBefore == row.notBefore && content.notAfter == row.notAfter;
    var certificate := Certificate(content, f.tk.keys.sign(seed, f.message(content)));
    assert f.decode(row.wire) == Some(certificate);
    if IssuerStands(f, seen, row.issuerKeyId, issuedAt, at) && at < row.notAfter {
      var issuer := FindIssuer(seen.trust.value.content.issuers, row.issuerKeyId).value;
      TrustedKeyIsSigningKey(f, seen.trust.value, seen.rootKey.value, seed, at, issuer);
      assert f.verifies(certificate, f.tk.keys.publicKey(seed), at);
    }
  }

  /** The signer's own conditions already make the issuer stand at the moment of issue. */
  lemma SignerMakesIssuerStand(f: Format, seen: Reads, seed: Bytes, at: nat)
    requires seen.trust.Some? && seen.rootKey.Some?
    requires SignerAccepts(f, seen.trust.value, seen.rootKey.value, seed, seen.registry, at)
    ensures IssuerStands(f, seen, f.tk.keys.keyId(f.tk.keys.publicKey(seed)), at, at)
  {
  }

  /** Snapshot and registry in sync are enough for an issuer to stand that is active or
      retired, with the usage and the window it had at issue. */
  lemma SyncedIssuerStands(f: Format, seen: Reads, key: Text, notBefore: nat, at: nat)
    requires seen.trust.Some? && seen.rootKey.Some?
    requires TrustMessage.TrustVerifies(f.tk.keys, seen.trust.value, seen.rootKey.value, at)
    requires TrustRegistry.InSync(seen.registry, seen.trust.value.content)
    ensures var issuer := FindIssuer(seen.trust.value.content.issuers, key);
      IssuerStands(f, seen, key, notBefore, at) <==>
        && issuer.Some?
        && (issuer.value.status.Active? || issuer.value.status.Retired?)
        && CertificateSigning() in issuer.value.allowedKeyUsages
        && issuer.value.notBefore <= notBefore < issuer.value.notAfter
  {
    hide TrustMessage.EncodeTrust;
    TrustRegistry.ProjectionAt(seen.trust.value.content, key);
  }

  /** The handler reads the row first and the revocations later, and anything may run in
      between. A certificate that is revoked by the second read is reported so, even when its
      row was read before the revocation. */
  lemma RevokedByTheSecondRead(s: RevocationPublication.State, before: seq<RevocationPublication.Action>,
                               between: seq<RevocationPublication.Action>, id: RevocationStore.Id, f: Format,
                               seen: Reads, at: nat)
    requires RevocationPublication.Initial(s) && seen.row.Some?
    requires seen.row.value.status.RevokedRow? <==>
      RevocationStore.StatusOf(RevocationPublication.Play(s, before).db, id) == Some(RevocationStore.PermanentlyRevoked)
    requires seen.revocation <==>
      RevocationStore.HasRow(RevocationPublication.Play(s, before + between).db.revocations, id)
    requires RevocationStore.StatusOf(RevocationPublication.Play(s, before + between).db, id)
          == Some(RevocationStore.PermanentlyRevoked)
    ensures IsRevoked(seen) && !Reportable(f, seen, at)
  {
    hide RevocationPublication.Play, RevocationPublication.Initial;
    RevocationPublication.RowsMeanRevoked(s, before + between, id);
  }

  /** Once a certificate is revoked, whatever runs follow, any read of its row or of the
      revocations finds it so, and the endpoint never reports it valid again. */
  lemma {:induction false} RevokedIsNeverReported(
      s: RevocationPublication.State, past: seq<RevocationPublication.Action>,
      future: seq<RevocationPublication.Action>, id: RevocationStore.Id, f: Format, seen: Reads, at: nat)
    requires RevocationPublication.Initial(s)
    requires RevocationStore.StatusOf(RevocationPublication.Play(s, past).db, id)
          == Some(RevocationStore.PermanentlyRevoked)
    requires seen.row.Some?
    requires seen.row.value.status.RevokedRow? <==>
      RevocationStore.StatusOf(RevocationPublication.Play(RevocationPublication.Play(s, past), future).db, id)
      == Some(RevocationStore.PermanentlyRevoked)
    ensures IsRevoked(seen) && !Reportable(f, seen, at)
  {
    RevocationPublication.RevocationAbsorbs(s, past, future, id);
  }

  /** What an answer of "valid" tells about the row, the certificate in it and the key. */
  lemma ValidMeans(f: Format, seen: Reads, at: nat)
    requires Reportable(f, seen, at)
    ensures var row := seen.row.value;
      && row.status.Current? && !seen.revocation && at < row.notAfter
      && seen.developer.Some? && seen.developer.value.active && seen.developer.value.verified
      && f.decode(row.wire).Some?
      && var content := f.decode(row.wire).value.content;
      && content.serial == row.serial && content.issuerKeyId == row.issuerKeyId
      && content.subjectKeyId == row.subjectKeyId
      && content.notBefore == row.notBefore && content.notAfter == row.notAfter
      && (content.developerId == seen.developer.value.certificateDeveloperId
          || (row.source.LegacyRoot? && content.developerId == row.developer))
      && (if row.source.LegacyRoot? then
            seen.rootKey.Some? && f.verifies(f.decode(row.wire).value, seen.rootKey.value, at)
          else
            && row.source.OnlineIntermediate? && row.issuerKeyId in seen.registry
            && var key := f.tk.keys.unbase64(seen.registry[row.issuerKeyId].publicKey);
            && key.Some? && |key.value| == 32 && f.verifies(f.decode(row.wire).value, key.value, at))
  {
  }

  /** Read at one moment of any history, row and revocations give the three statuses apart: a
      suspended certificate is reported suspended and not revoked, and a usable one neither. */
  lemma StatusesAreToldApart(s: RevocationPublication.State, actions: seq<RevocationPublication.Action>,
                             id: RevocationStore.Id, f: Format, seen: Reads, at: nat)
    requires RevocationPublication.Initial(s) && seen.row.Some?
    requires id in RevocationPublication.Play(s, actions).db.certificates
    requires var t := RevocationPublication.Play(s, actions).db;
      && seen.row.value.status == (match RevocationStore.StatusOf(t, id).value
                                   case PermanentlyRevoked => RevokedRow
                                   case Suspended => SuspendedRow
                                   case Usable => Current)
      && seen.revocation == RevocationStore.HasRow(t.revocations, id)
    ensures var status := RevocationStore.StatusOf(RevocationPublication.Play(s, actions).db, id);
      && (Reported(f, seen, at, CertificateRevoked) <==> status == Some(RevocationStore.PermanentlyRevoked))
      && (Reported(f, seen, at, CertificateSuspended) <==> status == Some(RevocationStore.Suspended))
      && (Reportable(f, seen, at) ==> status == Some(RevocationStore.Usable))
  {
    hide RevocationPublication.Play, RevocationPublication.Initial, IssuerStands, IssuerVouched, FindIssuer,
      TrustMessage.TrustVerifies, RegisteredKey;
    RevocationPublication.RowsMeanRevoked(s, actions, id);
  }
}
