/** The canonical bytes under a root signature, and their decoder. Models the trust half of
    the signing code in crates/trust/src/lib.rs. */
module TrustMessage {
  import opened Prelude
  import opened Cryptography
  import opened Wire
  import opened Sorting
  import opened TrustMaterial

  function TrustDomain(): Text { Ascii("mochios-issuer-trust-snapshot-v1\0") }

  // ----- The format -----

  function StatusByte(status: IssuerStatus): byte {
    match status
    case Future => 1
    case Active => 2
    case Retired => 3
    case Revoked => 4
  }

  function EncodeIssuer(r: IssuerRecord): Bytes {
    PutText(r.issuerKeyId) + PutText(r.publicKey) + [StatusByte(r.status)]
    + PutU64(r.notBefore) + PutU64(r.notAfter)
    + PutU32(|r.allowedKeyUsages|) + PutAll(PutText, r.allowedKeyUsages)
  }

  function EncodeTrustHead(content: TrustContent): Bytes {
    TrustDomain() + PutU32(content.formatVersion) + PutU64(content.snapshotVersion)
    + PutU64(content.generatedAt) + PutU64(content.expiresAt) + PutText(content.rootKeyId)
    + PutU32(|content.issuers|)
  }

  function EncodeTrust(content: TrustContent): Bytes {
    EncodeTrustHead(content) + PutAll(EncodeIssuer, content.issuers) + PutText(content.signatureAlgorithm)
  }

  // ----- The decoder -----

  function DecodeStatus(b: Bytes): Option<(IssuerStatus, Bytes)> {
    if b == [] then None
    else if b[0] == 1 then Some((Future, b[1..]))
    else if b[0] == 2 then Some((Active, b[1..]))
    else if b[0] == 3 then Some((Retired, b[1..]))
    else if b[0] == 4 then Some((Revoked, b[1..]))
    else None
  }

  function DecodeIssuer(b: Bytes): Option<(IssuerRecord, Bytes)> {
    var (id, b1) :- GetText(b);
    var (key, b2) :- GetText(b1);
    var (status, b3) :- DecodeStatus(b2);
    var (notBefore, b4) :- GetU64(b3);
    var (notAfter, b5) :- GetU64(b4);
    var (count, b6) :- GetU32(b5);
    var (usages, b7) :- GetAll(GetText, count, b6);
    Some((IssuerRecord(id, key, status, notBefore, notAfter, usages), b7))
  }

  function DecodeTrustFields(b: Bytes): Option<(TrustContent, Bytes)> {
    var (format, b1) :- GetU32(b);
    var (version, b2) :- GetU64(b1);
    var (generatedAt, b3) :- GetU64(b2);
    var (expiresAt, b4) :- GetU64(b3);
    var (root, b5) :- GetText(b4);
    var (count, b6) :- GetU32(b5);
    var (issuers, b7) :- GetAll(DecodeIssuer, count, b6);
    var (algorithm, b8) :- GetText(b7);
    Some((TrustContent(format, version, generatedAt, expiresAt, root, issuers, algorithm), b8))
  }

  function DecodeTrust(b: Bytes): Option<TrustContent> {
    if !(TrustDomain() <= b) then None
    else
      var (content, rest) :- DecodeTrustFields(b[|TrustDomain()|..]);
      if rest == [] then Some(content) else None
  }

  // ----- The decoder inverts the format -----

  /** The numbers and lengths of a Rust value fit the widths they are written in. */
  ghost predicate IssuerFits(r: IssuerRecord) {
    && IsU32(|r.issuerKeyId|) && IsU32(|r.publicKey|) && IsU64(r.notBefore) && IsU64(r.notAfter)
    && IsU32(|r.allowedKeyUsages|) && (forall u :: u in r.allowedKeyUsages ==> IsU32(|u|))
  }

  ghost predicate TrustFits(content: TrustContent) {
    && IsU32(content.formatVersion) && IsU64(content.snapshotVersion)
    && IsU64(content.generatedAt) && IsU64(content.expiresAt)
    && IsU32(|content.rootKeyId|) && IsU32(|content.issuers|) && IsU32(|content.signatureAlgorithm|)
    && (forall r :: r in content.issuers ==> IssuerFits(r))
  }

  lemma ReadsUsages(usages: seq<Text>, rest: Bytes)
    requires forall u :: u in usages ==> IsU32(|u|)
    ensures GetAll(GetText, |usages|, PutAll(PutText, usages) + rest) == Some((usages, rest))
  {
    forall u | u in usages ensures Undoes(PutText, GetText, u) {
      forall after: Bytes ensures GetText(PutText(u) + after) == Some((u, after)) {
        ReadsText(u, after);
      }
    }
    ReadsAll(PutText, GetText, usages, rest);
  }

  lemma DecodesIssuerFields(r: IssuerRecord, b: Bytes, b1: Bytes, b2: Bytes, b3: Bytes, b4: Bytes, b5: Bytes,
                            b6: Bytes, rest: Bytes)
    requires GetText(b) == Some((r.issuerKeyId, b1)) && GetText(b1) == Some((r.publicKey, b2))
    requires DecodeStatus(b2) == Some((r.status, b3))
    requires GetU64(b3) == Some((r.notBefore, b4)) && GetU64(b4) == Some((r.notAfter, b5))
    requires GetU32(b5) == Some((|r.allowedKeyUsages|, b6))
    requires GetAll(GetText, |r.allowedKeyUsages|, b6) == Some((r.allowedKeyUsages, rest))
    ensures DecodeIssuer(b) == Some((r, rest))
  {
  }

  /** The last four fields of an issuer, from its status on. */
  function IssuerTail(r: IssuerRecord, rest: Bytes): Bytes {
    [StatusByte(r.status)] + (PutU64(r.notBefore) + (PutU64(r.notAfter)
    + (PutU32(|r.allowedKeyUsages|) + (PutAll(PutText, r.allowedKeyUsages) + rest))))
  }

  lemma IssuerLayout(r: IssuerRecord, rest: Bytes)
    ensures EncodeIssuer(r) + rest == PutText(r.issuerKeyId) + (PutText(r.publicKey) + IssuerTail(r, rest))
  {
  }

  lemma ReadsStatus(status: IssuerStatus, rest: Bytes)
    ensures DecodeStatus([StatusByte(status)] + rest) == Some((status, rest))
  {
  }

  lemma ReadsIssuer(r: IssuerRecord, rest: Bytes)
    requires IssuerFits(r)
    ensures DecodeIssuer(EncodeIssuer(r) + rest) == Some((r, rest))
  {
    IssuerLayout(r, rest);
    var b6 := PutAll(PutText, r.allowedKeyUsages) + rest;
    var b5 := PutU32(|r.allowedKeyUsages|) + b6;
    var b4 := PutU64(r.notAfter) + b5;
    var b3 := PutU64(r.notBefore) + b4;
    var b2 := IssuerTail(r, rest);
    var b1 := PutText(r.publicKey) + b2;
    ReadsText(r.issuerKeyId, b1);
    ReadsText(r.publicKey, b2);
    ReadsStatus(r.status, b3);
    ReadsU64(r.notBefore, b4);
    ReadsU64(r.notAfter, b5);
    ReadsU32(|r.allowedKeyUsages|, b6);
    ReadsUsages(r.allowedKeyUsages, rest);
    DecodesIssuerFields(r, EncodeIssuer(r) + rest, b1, b2, b3, b4, b5, b6, rest);
  }

  lemma ReadsIssuers(issuers: seq<IssuerRecord>, rest: Bytes)
    requires forall r :: r in issuers ==> IssuerFits(r)
    ensures GetAll(DecodeIssuer, |issuers|, PutAll(EncodeIssuer, issuers) + rest) == Some((issuers, rest))
  {
    forall r | r in issuers ensures Undoes(EncodeIssuer, DecodeIssuer, r) {
      forall after: Bytes ensures DecodeIssuer(EncodeIssuer(r) + after) == Some((r, after)) {
        ReadsIssuer(r, after);
      }
    }
    ReadsAll(EncodeIssuer, DecodeIssuer, issuers, rest);
  }

  lemma DecodesTrustFieldsFrom(content: TrustContent, b: Bytes, b1: Bytes, b2: Bytes, b3: Bytes, b4: Bytes, b5: Bytes,
                               b6: Bytes, b7: Bytes, rest: Bytes)
    requires GetU32(b) == Some((content.formatVersion, b1)) && GetU64(b1) == Some((content.snapshotVersion, b2))
    requires GetU64(b2) == Some((content.generatedAt, b3)) && GetU64(b3) == Some((content.expiresAt, b4))
    requires GetText(b4) == Some((content.rootKeyId, b5)) && GetU32(b5) == Some((|content.issuers|, b6))
    requires GetAll(DecodeIssuer, |content.issuers|, b6) == Some((content.issuers, b7))
    requires GetText(b7) == Some((content.signatureAlgorithm, rest))
    ensures DecodeTrustFields(b) == Some((content, rest))
  {
  }

  /** Everything after the version, nested the way it is read. */
  function TrustTail(content: TrustContent): Bytes {
    PutU64(content.generatedAt) + (PutU64(content.expiresAt) + (PutText(content.rootKeyId)
    + (PutU32(|content.issuers|) + (PutAll(EncodeIssuer, content.issuers)
    + PutText(content.signatureAlgorithm)))))
  }

  function TrustBody(content: TrustContent): Bytes {
    PutU32(content.formatVersion) + (PutU64(content.snapshotVersion) + TrustTail(content))
  }

  lemma TrustLayout(content: TrustContent)
    ensures EncodeTrust(content) == TrustDomain() + TrustBody(content)
  {
    var issuers, algorithm := PutAll(EncodeIssuer, content.issuers), PutText(content.signatureAlgorithm);
    Reassociate(EncodeTrustHead(content), issuers, algorithm);
    Reassociate7(TrustDomain(), PutU32(content.formatVersion), PutU64(content.snapshotVersion),
                 PutU64(content.generatedAt), PutU64(content.expiresAt), PutText(content.rootKeyId),
                 PutU32(|content.issuers|), issuers + algorithm);
  }

  lemma ReadsTrustBody(content: TrustContent)
    requires TrustFits(content)
    ensures DecodeTrustFields(TrustBody(content)) == Some((content, []))
  {
    var b7 := PutText(content.signatureAlgorithm);
    var b6 := PutAll(EncodeIssuer, content.issuers) + b7;
    var b5 := PutU32(|content.issuers|) + b6;
    var b4 := PutText(content.rootKeyId) + b5;
    var b3 := PutU64(content.expiresAt) + b4;
    var b2 := TrustTail(content);
    var b1 := PutU64(content.snapshotVersion) + b2;
    ReadsU32(content.formatVersion, b1);
    ReadsU64(content.snapshotVersion, b2);
    ReadsU64(content.generatedAt, b3);
    ReadsU64(content.expiresAt, b4);
    ReadsText(content.rootKeyId, b5);
    ReadsU32(|content.issuers|, b6);
    ReadsIssuers(content.issuers, b7);
    ReadsText(content.signatureAlgorithm, []);
    assert b7 + [] == b7;
    DecodesTrustFieldsFrom(content, TrustBody(content), b1, b2, b3, b4, b5, b6, b7, []);
  }

  /** Every content whose fields fit is read back from its own message. */
  lemma TrustRoundTrip(content: TrustContent)
    requires TrustFits(content)
    ensures DecodeTrust(EncodeTrust(content)) == Some(content)
  {
    TrustLayout(content);
    ReadsTrustBody(content);
    DropsPrefix(TrustDomain(), TrustBody(content));
  }

  /** Hence no two contents share a message. */
  lemma TrustMessageIsInjective(a: TrustContent, b: TrustContent)
    requires TrustFits(a) && TrustFits(b)
    ensures EncodeTrust(a) == EncodeTrust(b) <==> a == b
  {
    TrustRoundTrip(a);
    TrustRoundTrip(b);
  }

  // ----- Every valid content has a message -----

  lemma ValidUsagesAreShort(usages: seq<Text>)
    requires ValidUsages(usages)
    ensures |usages| <= 2 && forall u :: u in usages ==> |u| <= 29
  {
    assert |CertificateSigning()| == 29 && |RevocationSigning()| == 18;
    forall u | u in usages ensures |u| <= 29 {
      assert KnownUsage(u);
    }
    if |usages| > 2 {
      var a, b, d := usages[0], usages[1], usages[2];
      assert a in usages && b in usages && d in usages;
      assert KnownUsage(a) && KnownUsage(b) && KnownUsage(d);
      assert Precedes(Self(a), Self(b)) && Precedes(Self(b), Self(d));
      assert Precedes(Self(a), Self(d));
      PrecedesIsAsymmetric(a, b);
      PrecedesIsAsymmetric(b, d);
      PrecedesIsAsymmetric(a, d);
    }
  }

  lemma ValidIssuerFits(c: Primitives, r: IssuerRecord)
    requires c.Lawful() && ValidIssuer(c, r) && IsU64(r.notBefore) && IsU64(r.notAfter)
    ensures IssuerFits(r)
    ensures |EncodeIssuer(r)| <= 203
  {
    var key := c.unbase64(r.publicKey).value;
    assert c.base64(key) == r.publicKey && |r.publicKey| == 44;
    ValidUsagesAreShort(r.allowedKeyUsages);
    forall u | u in r.allowedKeyUsages ensures |PutText(u)| <= 33 {
      PutTextLength(u);
    }
    PutAllLength(PutText, r.allowedKeyUsages, 33);
    PutTextLength(r.issuerKeyId);
    PutTextLength(r.publicKey);
    PutUintLength(8, r.notBefore);
    PutUintLength(8, r.notAfter);
    PutUintLength(4, |r.allowedKeyUsages|);
  }

  /** The numeric fields of a Rust content are 32 and 64 bits wide. */
  ghost predicate MachineWidths(content: TrustContent) {
    && IsU32(content.formatVersion) && IsU64(content.snapshotVersion)
    && IsU64(content.generatedAt) && IsU64(content.expiresAt)
    && (forall r :: r in content.issuers ==> IsU64(r.notBefore) && IsU64(r.notAfter))
  }

  /** The overflow and size errors of the encoder cannot happen on a valid trust content. */
  lemma ValidTrustFits(c: Primitives, content: TrustContent)
    requires c.Lawful() && ValidTrust(c, content) && MachineWidths(content)
    ensures TrustFits(content)
    ensures |EncodeTrust(content)| <= MAX_SNAPSHOT_BYTES
  {
    hide EncodeIssuer;
    forall r | r in content.issuers ensures IssuerFits(r) && |EncodeIssuer(r)| <= 203 {
      ValidIssuerFits(c, r);
    }
    PutAllLength(EncodeIssuer, content.issuers, 203);
    TrustHeadLength(content);
    assert |SignatureAlgorithm()| == 7;
    PutTextLength(content.signatureAlgorithm);
  }

  lemma TrustHeadLength(content: TrustContent)
    ensures |EncodeTrustHead(content)| == 69 + |content.rootKeyId|
  {
    assert |TrustDomain()| == 33;
    PutUintLength(4, content.formatVersion);
    PutUintLength(8, content.snapshotVersion);
    PutUintLength(8, content.generatedAt);
    PutUintLength(8, content.expiresAt);
    PutTextLength(content.rootKeyId);
    PutUintLength(4, |content.issuers|);
  }

  // ----- The encoder as it is written: one growing buffer -----

  method AppendUsages(bytes: Bytes, usages: seq<Text>) returns (r: Result<Bytes, TrustError>)
    ensures (forall u :: u in usages ==> IsU32(|u|)) ==> r == Ok(bytes + PutAll(PutText, usages))
    ensures !(forall u :: u in usages ==> IsU32(|u|)) ==> r == Err(EncodingOverflow)
  {
    var buffer := bytes;
    for i := 0 to |usages|
      invariant buffer == bytes + PutAll(PutText, usages[..i])
      invariant forall k :: 0 <= k < i ==> IsU32(|usages[k]|)
    {
      assert usages[i] in usages;
      buffer :- AppendText(buffer, usages[i]);
      PutAllOneMore(PutText, usages, i, bytes);
    }
    assert usages[..|usages|] == usages;
    r := Ok(buffer);
  }

  method AppendIssuer(bytes: Bytes, issuer: IssuerRecord) returns (r: Result<Bytes, TrustError>)
    requires IsU64(issuer.notBefore) && IsU64(issuer.notAfter)
    ensures IssuerFits(issuer) ==> r == Ok(bytes + EncodeIssuer(issuer))
    ensures !IssuerFits(issuer) ==> r == Err(EncodingOverflow)
  {
    var buffer := bytes;
    buffer :- AppendText(buffer, issuer.issuerKeyId);
    buffer :- AppendText(buffer, issuer.publicKey);
    buffer := buffer + [StatusByte(issuer.status)];
    buffer := buffer + PutU64(issuer.notBefore);
    buffer := buffer + PutU64(issuer.notAfter);
    if !IsU32(|issuer.allowedKeyUsages|) {
      return Err(EncodingOverflow);
    }
    buffer := buffer + PutU32(|issuer.allowedKeyUsages|);
    buffer :- AppendUsages(buffer, issuer.allowedKeyUsages);
    Appends7(bytes, PutText(issuer.issuerKeyId), PutText(issuer.publicKey), [StatusByte(issuer.status)],
             PutU64(issuer.notBefore), PutU64(issuer.notAfter), PutU32(|issuer.allowedKeyUsages|),
             PutAll(PutText, issuer.allowedKeyUsages));
    r := Ok(buffer);
  }

  method AppendIssuers(bytes: Bytes, issuers: seq<IssuerRecord>) returns (r: Result<Bytes, TrustError>)
    requires forall n :: n in issuers ==> IsU64(n.notBefore) && IsU64(n.notAfter)
    ensures (forall n :: n in issuers ==> IssuerFits(n)) ==> r == Ok(bytes + PutAll(EncodeIssuer, issuers))
    ensures !(forall n :: n in issuers ==> IssuerFits(n)) ==> r == Err(EncodingOverflow)
  {
    hide EncodeIssuer;
    var buffer := bytes;
    for i := 0 to |issuers|
      invariant buffer == bytes + PutAll(EncodeIssuer, issuers[..i])
      invariant forall k :: 0 <= k < i ==> IssuerFits(issuers[k])
    {
      assert issuers[i] in issuers;
      buffer :- AppendIssuer(buffer, issuers[i]);
      PutAllOneMore(EncodeIssuer, issuers, i, bytes);
    }
    assert issuers[..|issuers|] == issuers;
    r := Ok(buffer);
  }

  method EncodeContent(content: TrustContent) returns (r: Result<Bytes, TrustError>)
    requires MachineWidths(content)
    ensures r.Ok? ==> TrustFits(content) && r.value == EncodeTrust(content) && |r.value| <= MAX_SNAPSHOT_BYTES
    ensures r.Err? ==> !TrustFits(content) || |EncodeTrust(content)| > MAX_SNAPSHOT_BYTES
  {
    var buffer := TrustDomain();
    buffer := buffer + PutU32(content.formatVersion);
    buffer := buffer + PutU64(content.snapshotVersion);
    buffer := buffer + PutU64(content.generatedAt);
    buffer := buffer + PutU64(content.expiresAt);
    buffer :- AppendText(buffer, content.rootKeyId);
    if !IsU32(|content.issuers|) {
      return Err(EncodingOverflow);
    }
    buffer := buffer + PutU32(|content.issuers|);
    buffer :- AppendIssuers(buffer, content.issuers);
    buffer :- AppendText(buffer, content.signatureAlgorithm);
    if |buffer| > MAX_SNAPSHOT_BYTES {
      return Err(SnapshotTooLarge);
    }
    r := Ok(buffer);
  }

  method TrustSigningMessage(c: Primitives, content: TrustContent) returns (r: Result<Bytes, TrustError>)
    requires MachineWidths(content)
    ensures r.Ok? ==> ValidTrust(c, content) && TrustFits(content) && r.value == EncodeTrust(content)
    ensures c.Lawful() ==> (r.Ok? <==> ValidTrust(c, content))
  {
    var valid := ValidateTrust(c, content);
    if valid.Err? {
      return Err(valid.error);
    }
    r := EncodeContent(content);
    if c.Lawful() {
      ValidTrustFits(c, content);
    }
  }

  // ----- Issuing and verifying -----

  /** What `verify` accepts: valid content, the key that the content names, a clock inside
      the window widened by the skew, and a signature over the content's own message. */
  ghost predicate TrustVerifies(c: Primitives, snapshot: TrustSnapshot, rootKey: Bytes, now: nat) {
    var content := snapshot.content;
    && ValidTrust(c, content)
    && content.rootKeyId == c.keyId(rootKey)
    && content.generatedAt <= now + CLOCK_SKEW_SECONDS
    && now < content.expiresAt
    && c.validPoint(rootKey)
    && c.unbase64(snapshot.rootSignature).Some?
    && c.checks(rootKey, EncodeTrust(content), c.unbase64(snapshot.rootSignature).value)
  }

  method IssueTrust(c: Primitives, content: TrustContent, seed: Bytes) returns (r: Result<TrustSnapshot, TrustError>)
    requires MachineWidths(content)
    ensures r.Ok? ==> ValidTrust(c, content) && content.rootKeyId == c.keyId(c.publicKey(seed))
    ensures r.Ok? ==> r.value == TrustSnapshot(content, c.base64(c.sign(seed, EncodeTrust(content))))
    ensures c.Lawful() && ValidTrust(c, content) && content.rootKeyId == c.keyId(c.publicKey(seed)) ==> r.Ok?
  {
    var valid := ValidateTrust(c, content);
    if valid.Err? {
      return Err(valid.error);
    }
    if content.rootKeyId != c.keyId(c.publicKey(seed)) {
      return Err(KeyIdMismatch);
    }
    var message :- TrustSigningMessage(c, content);
    r := Ok(TrustSnapshot(content, c.base64(c.sign(seed, message))));
  }

  method VerifyTrust(c: Primitives, snapshot: TrustSnapshot, rootKey: Bytes, now: nat)
    returns (r: Result<(), TrustError>)
    requires MachineWidths(snapshot.content)
    ensures r.Ok? ==> TrustVerifies(c, snapshot, rootKey, now)
    ensures c.Lawful() && TrustVerifies(c, snapshot, rootKey, now) ==> r.Ok?
  {
    var content := snapshot.content;
    var valid := ValidateTrust(c, content);
    if valid.Err? {
      return Err(valid.error);
    }
    if content.rootKeyId != c.keyId(rootKey) {
      return Err(KeyIdMismatch);
    }
    if content.generatedAt > now + CLOCK_SKEW_SECONDS || content.expiresAt <= now {
      return Err(InvalidValidity);
    }
    var message :- TrustSigningMessage(c, content);
    if !c.validPoint(rootKey) {
      return Err(InvalidPublicKey);
    }
    var signature := c.unbase64(snapshot.rootSignature);
    if signature.None? || !c.checks(rootKey, message, signature.value) {
      return Err(InvalidSignature);
    }
    r := Ok(());
  }

  /** A signature made by `issue` verifies for the issued content exactly inside its window,
      and for no other content at any time. */
  lemma IssuedTrustBindsContent(c: Primitives, seed: Bytes, content: TrustContent, other: TrustContent, now: nat)
    requires c.Lawful() && MachineWidths(content) && MachineWidths(other)
    requires ValidTrust(c, content) && content.rootKeyId == c.keyId(c.publicKey(seed))
    ensures var signature := c.base64(c.sign(seed, EncodeTrust(content)));
      TrustVerifies(c, TrustSnapshot(other, signature), c.publicKey(seed), now)
      <==> other == content && content.generatedAt <= now + CLOCK_SKEW_SECONDS && now < content.expiresAt
  {
    var raw := c.sign(seed, EncodeTrust(content));
    assert c.unbase64(c.base64(raw)) == Some(raw);
    assert c.checks(c.publicKey(seed), EncodeTrust(content), raw);
    if TrustVerifies(c, TrustSnapshot(other, c.base64(raw)), c.publicKey(seed), now) {
      assert EncodeTrust(other) == EncodeTrust(content);
      ValidTrustFits(c, content);
      ValidTrustFits(c, other);
      TrustMessageIsInjective(content, other);
    }
  }
}
