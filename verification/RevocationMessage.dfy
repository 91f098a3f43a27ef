/** The canonical bytes under a revocation signature, and their decoder. Models the
    revocation half of the signing code in crates/trust/src/lib.rs. */
module RevocationMessage {
  import opened Prelude
  import opened Cryptography
  import opened Wire
  import opened TrustMaterial
  import opened RevocationMaterial

  function RevocationDomain(): Text { Ascii("mochios-revocation-snapshot-v1\0") }

  // ----- The format -----

  function EncodeEntry(entry: RevocationEntry): Bytes {
    PutText(entry.serial) + PutU64(entry.revokedAt) + PutText(ReasonText(entry.reason))
  }

  function EncodeRevocationHead(content: RevocationContent): Bytes {
    RevocationDomain() + PutU32(content.formatVersion) + PutU64(content.snapshotVersion)
    + PutU64(content.generatedAt) + PutU64(content.expiresAt) + PutText(content.issuerKeyId)
    + PutU32(|content.revocations|)
  }

  function EncodeRevocations(content: RevocationContent): Bytes {
    EncodeRevocationHead(content) + PutAll(EncodeEntry, content.revocations) + PutText(content.signatureAlgorithm)
  }

  // ----- The decoder -----

  function DecodeEntry(b: Bytes): Option<(RevocationEntry, Bytes)> {
    var (serial, b1) :- GetText(b);
    var (revokedAt, b2) :- GetU64(b1);
    var (reason, b3) :- GetText(b2);
    var code :- ParseReason(reason);
    Some((RevocationEntry(serial, revokedAt, code), b3))
  }

  function DecodeRevocationFields(b: Bytes): Option<(RevocationContent, Bytes)> {
    var (format, b1) :- GetU32(b);
    var (version, b2) :- GetU64(b1);
    var (generatedAt, b3) :- GetU64(b2);
    var (expiresAt, b4) :- GetU64(b3);
    var (issuer, b5) :- GetText(b4);
    var (count, b6) :- GetU32(b5);
    var (entries, b7) :- GetAll(DecodeEntry, count, b6);
    var (algorithm, b8) :- GetText(b7);
    Some((RevocationContent(format, version, generatedAt, expiresAt, issuer, entries, algorithm), b8))
  }

  function DecodeRevocations(b: Bytes): Option<RevocationContent> {
    if !(RevocationDomain() <= b) then None
    else
      var (content, rest) :- DecodeRevocationFields(b[|RevocationDomain()|..]);
      if rest == [] then Some(content) else None
  }

  // ----- The decoder inverts the format -----

  ghost predicate EntryFits(entry: RevocationEntry) {
    IsU32(|entry.serial|) && IsU64(entry.revokedAt)
  }

  ghost predicate RevocationsFit(content: RevocationContent) {
    && IsU32(content.formatVersion) && IsU64(content.snapshotVersion)
    && IsU64(content.generatedAt) && IsU64(content.expiresAt)
    && IsU32(|content.issuerKeyId|) && IsU32(|content.revocations|) && IsU32(|content.signatureAlgorithm|)
    && (forall entry :: entry in content.revocations ==> EntryFits(entry))
  }

  lemma ReadsEntry(entry: RevocationEntry, rest: Bytes)
    requires EntryFits(entry)
    ensures DecodeEntry(EncodeEntry(entry) + rest) == Some((entry, rest))
  {
    var serial, at, reason := PutText(entry.serial), PutU64(entry.revokedAt), PutText(ReasonText(entry.reason));
    Reassociate(serial + at, reason, rest);
    Reassociate(serial, at, reason + rest);
    ReasonRoundTrip(entry.reason);
    ReadsText(entry.serial, at + (reason + rest));
    ReadsU64(entry.revokedAt, reason + rest);
    ReadsText(ReasonText(entry.reason), rest);
  }

  lemma ReadsEntries(entries: seq<RevocationEntry>, rest: Bytes)
    requires forall entry :: entry in entries ==> EntryFits(entry)
    ensures GetAll(DecodeEntry, |entries|, PutAll(EncodeEntry, entries) + rest) == Some((entries, rest))
  {
    forall entry | entry in entries ensures Undoes(EncodeEntry, DecodeEntry, entry) {
      forall after: Bytes ensures DecodeEntry(EncodeEntry(entry) + after) == Some((entry, after)) {
        ReadsEntry(entry, after);
      }
    }
    ReadsAll(EncodeEntry, DecodeEntry, entries, rest);
  }

  lemma DecodesFieldsFrom(content: RevocationContent, b: Bytes, b1: Bytes, b2: Bytes, b3: Bytes, b4: Bytes, b5: Bytes,
                          b6: Bytes, b7: Bytes, rest: Bytes)
    requires GetU32(b) == Some((content.formatVersion, b1)) && GetU64(b1) == Some((content.snapshotVersion, b2))
    requires GetU64(b2) == Some((content.generatedAt, b3)) && GetU64(b3) == Some((content.expiresAt, b4))
    requires GetText(b4) == Some((content.issuerKeyId, b5)) && GetU32(b5) == Some((|content.revocations|, b6))
    requires GetAll(DecodeEntry, |content.revocations|, b6) == Some((content.revocations, b7))
    requires GetText(b7) == Some((content.signatureAlgorithm, rest))
    ensures DecodeRevocationFields(b) == Some((content, rest))
  {
  }

  /** Everything after the version, nested the way it is read. */
  function RevocationTail(content: RevocationContent): Bytes {
    PutU64(content.generatedAt) + (PutU64(content.expiresAt) + (PutText(content.issuerKeyId)
    + (PutU32(|content.revocations|) + (PutAll(EncodeEntry, content.revocations)
    + PutText(content.signatureAlgorithm)))))
  }

  function RevocationBody(content: RevocationContent): Bytes {
    PutU32(content.formatVersion) + (PutU64(content.snapshotVersion) + RevocationTail(content))
  }

  lemma RevocationLayout(content: RevocationContent)
    ensures EncodeRevocations(content) == RevocationDomain() + RevocationBody(content)
  {
    var entries, algorithm := PutAll(EncodeEntry, content.revocations), PutText(content.signatureAlgorithm);
    Reassociate(EncodeRevocationHead(content), entries, algorithm);
    Reassociate7(RevocationDomain(), PutU32(content.formatVersion), PutU64(content.snapshotVersion),
                 PutU64(content.generatedAt), PutU64(content.expiresAt), PutText(content.issuerKeyId),
                 PutU32(|content.revocations|), entries + algorithm);
  }

  lemma ReadsRevocationBody(content: RevocationContent)
    requires RevocationsFit(content)
    ensures DecodeRevocationFields(RevocationBody(content)) == Some((content, []))
  {
    var b7 := PutText(content.signatureAlgorithm);
    var b6 := PutAll(EncodeEntry, content.revocations) + b7;
    var b5 := PutU32(|content.revocations|) + b6;
    var b4 := PutText(content.issuerKeyId) + b5;
    var b3 := PutU64(content.expiresAt) + b4;
    var b2 := RevocationTail(content);
    var b1 := PutU64(content.snapshotVersion) + b2;
    ReadsU32(content.formatVersion, b1);
    ReadsU64(content.snapshotVersion, b2);
    ReadsU64(content.generatedAt, b3);
    ReadsU64(content.expiresAt, b4);
    ReadsText(content.issuerKeyId, b5);
    ReadsU32(|content.revocations|, b6);
    ReadsEntries(content.revocations, b7);
    ReadsText(content.signatureAlgorithm, []);
    assert b7 + [] == b7;
    DecodesFieldsFrom(content, RevocationBody(content), b1, b2, b3, b4, b5, b6, b7, []);
  }

  lemma RevocationRoundTrip(content: RevocationContent)
    requires RevocationsFit(content)
    ensures DecodeRevocations(EncodeRevocations(content)) == Some(content)
  {
    RevocationLayout(content);
    ReadsRevocationBody(content);
    DropsPrefix(RevocationDomain(), RevocationBody(content));
  }

  lemma RevocationMessageIsInjective(a: RevocationContent, b: RevocationContent)
    requires RevocationsFit(a) && RevocationsFit(b)
    ensures EncodeRevocations(a) == EncodeRevocations(b) <==> a == b
  {
    RevocationRoundTrip(a);
    RevocationRoundTrip(b);
  }

  /** The numeric fields of a Rust content are 32 and 64 bits wide. */
  ghost predicate RevocationWidths(content: RevocationContent) {
    && IsU32(content.formatVersion) && IsU64(content.snapshotVersion)
    && IsU64(content.generatedAt) && IsU64(content.expiresAt)
    && (forall entry :: entry in content.revocations ==> IsU64(entry.revokedAt))
  }

  /** A valid list never overflows a length field; only its total size can be refused. */
  lemma ValidRevocationsFit(content: RevocationContent)
    requires ValidRevocations(content) && RevocationWidths(content)
    ensures RevocationsFit(content)
  {
  }

  // ----- The encoder as it is written: one growing buffer -----

  method AppendEntry(bytes: Bytes, entry: RevocationEntry) returns (r: Result<Bytes, TrustError>)
    requires IsU64(entry.revokedAt)
    ensures r == if EntryFits(entry) then Ok(bytes + EncodeEntry(entry)) else Err(EncodingOverflow)
  {
    ReasonRoundTrip(entry.reason);
    var buffer := bytes;
    buffer :- AppendText(buffer, entry.serial);
    buffer := buffer + PutU64(entry.revokedAt);
    buffer := buffer + PutText(ReasonText(entry.reason));
    Appends3(bytes, PutText(entry.serial), PutU64(entry.revokedAt), PutText(ReasonText(entry.reason)));
    r := Ok(buffer);
  }

  lemma Appends3(x: Bytes, a: Bytes, b: Bytes, c: Bytes)
    ensures x + a + b + c == x + (a + b + c)
  {
  }

  method AppendEntries(bytes: Bytes, entries: seq<RevocationEntry>) returns (r: Result<Bytes, TrustError>)
    requires forall entry :: entry in entries ==> IsU64(entry.revokedAt)
    ensures (forall entry :: entry in entries ==> EntryFits(entry)) ==> r == Ok(bytes + PutAll(EncodeEntry, entries))
    ensures !(forall entry :: entry in entries ==> EntryFits(entry)) ==> r == Err(EncodingOverflow)
  {
    hide EncodeEntry;
    var buffer := bytes;
    for i := 0 to |entries|
      invariant buffer == bytes + PutAll(EncodeEntry, entries[..i])
      invariant forall k :: 0 <= k < i ==> EntryFits(entries[k])
    {
      assert entries[i] in entries;
      buffer :- AppendEntry(buffer, entries[i]);
      PutAllOneMore(EncodeEntry, entries, i, bytes);
    }
    assert entries[..|entries|] == entries;
    r := Ok(buffer);
  }

  method EncodeContent(content: RevocationContent) returns (r: Result<Bytes, TrustError>)
    requires RevocationWidths(content)
    ensures r.Ok? ==>
      RevocationsFit(content) && r.value == EncodeRevocations(content) && |r.value| <= MAX_SNAPSHOT_BYTES
    ensures r.Err? ==> !RevocationsFit(content) || |EncodeRevocations(content)| > MAX_SNAPSHOT_BYTES
  {
    var buffer := RevocationDomain();
    buffer := buffer + PutU32(content.formatVersion);
    buffer := buffer + PutU64(content.snapshotVersion);
    buffer := buffer + PutU64(content.generatedAt);
    buffer := buffer + PutU64(content.expiresAt);
    buffer :- AppendText(buffer, content.issuerKeyId);
    if !IsU32(|content.revocations|) {
      return Err(EncodingOverflow);
    }
    buffer := buffer + PutU32(|content.revocations|);
    buffer :- AppendEntries(buffer, content.revocations);
    buffer :- AppendText(buffer, content.signatureAlgorithm);
    if |buffer| > MAX_SNAPSHOT_BYTES {
      return Err(SnapshotTooLarge);
    }
    r := Ok(buffer);
  }

  /** Signing bytes exist exactly for valid contents of at most 4 MiB. */
  method RevocationSigningMessage(content: RevocationContent) returns (r: Result<Bytes, TrustError>)
    requires RevocationWidths(content)
    ensures r.Ok? <==> ValidRevocations(content) && |EncodeRevocations(content)| <= MAX_SNAPSHOT_BYTES
    ensures r.Ok? ==> r.value == EncodeRevocations(content)
  {
    var valid := ValidateRevocations(content);
    if valid.Err? {
      return Err(valid.error);
    }
    ValidRevocationsFit(content);
    r := EncodeContent(content);
  }

  // ----- Issuing and verifying -----

  ghost predicate Signable(content: RevocationContent) {
    ValidRevocations(content) && |EncodeRevocations(content)| <= MAX_SNAPSHOT_BYTES
  }

  ghost predicate RevocationsVerify(c: Primitives, snapshot: RevocationSnapshot, issuerKey: Bytes, now: nat) {
    var content := snapshot.content;
    && Signable(content)
    && content.issuerKeyId == c.keyId(issuerKey)
    && content.generatedAt <= now + CLOCK_SKEW_SECONDS
    && now < content.expiresAt
    && c.validPoint(issuerKey)
    && c.unbase64(snapshot.signature).Some?
    && c.checks(issuerKey, EncodeRevocations(content), c.unbase64(snapshot.signature).value)
  }

  method IssueRevocations(c: Primitives, content: RevocationContent, seed: Bytes)
    returns (r: Result<RevocationSnapshot, TrustError>)
    requires RevocationWidths(content)
    ensures r.Ok? <==> Signable(content) && content.issuerKeyId == c.keyId(c.publicKey(seed))
    ensures r.Ok? ==> r.value == RevocationSnapshot(content, c.base64(c.sign(seed, EncodeRevocations(content))))
  {
    var valid := ValidateRevocations(content);
    if valid.Err? {
      return Err(valid.error);
    }
    if content.issuerKeyId != c.keyId(c.publicKey(seed)) {
      return Err(KeyIdMismatch);
    }
    var message :- RevocationSigningMessage(content);
    r := Ok(RevocationSnapshot(content, c.base64(c.sign(seed, message))));
  }

  method VerifyRevocations(c: Primitives, snapshot: RevocationSnapshot, issuerKey: Bytes, now: nat)
    returns (r: Result<(), TrustError>)
    requires RevocationWidths(snapshot.content)
    ensures r.Ok? <==> RevocationsVerify(c, snapshot, issuerKey, now)
  {
    var content := snapshot.content;
    var valid := ValidateRevocations(content);
    if valid.Err? {
      return Err(valid.error);
    }
    if content.issuerKeyId != c.keyId(issuerKey) {
      return Err(KeyIdMismatch);
    }
    if content.generatedAt > now + CLOCK_SKEW_SECONDS || content.expiresAt <= now {
      return Err(InvalidValidity);
    }
    var message :- RevocationSigningMessage(content);
    if !c.validPoint(issuerKey) {
      return Err(InvalidPublicKey);
    }
    var signature := c.unbase64(snapshot.signature);
    if signature.None? || !c.checks(issuerKey, message, signature.value) {
      return Err(InvalidSignature);
    }
    r := Ok(());
  }

  lemma IssuedRevocationsBindContent(c: Primitives, seed: Bytes, content: RevocationContent,
                                     other: RevocationContent, now: nat)
    requires c.Lawful() && RevocationWidths(content) && RevocationWidths(other)
    requires Signable(content) && content.issuerKeyId == c.keyId(c.publicKey(seed))
    ensures var signature := c.base64(c.sign(seed, EncodeRevocations(content)));
      RevocationsVerify(c, RevocationSnapshot(other, signature), c.publicKey(seed), now)
      <==> other == content && content.generatedAt <= now + CLOCK_SKEW_SECONDS && now < content.expiresAt
  {
    var raw := c.sign(seed, EncodeRevocations(content));
    assert c.unbase64(c.base64(raw)) == Some(raw);
    assert c.checks(c.publicKey(seed), EncodeRevocations(content), raw);
    if RevocationsVerify(c, RevocationSnapshot(other, c.base64(raw)), c.publicKey(seed), now) {
      assert EncodeRevocations(other) == EncodeRevocations(content);
      ValidRevocationsFit(content);
      ValidRevocationsFit(other);
      RevocationMessageIsInjective(content, other);
    }
  }
}
