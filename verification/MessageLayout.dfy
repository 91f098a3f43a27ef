/** Where each field of a signed message stands and in which bytes, for every content: what
    another implementation of the formats in crates/trust/src/lib.rs has to match. */
module MessageLayout {
  import opened Prelude
  import opened Cryptography
  import opened Wire
  import opened TrustMaterial
  import opened TrustMessage
  import opened RevocationMaterial
  import opened RevocationMessage

  function EightDigits(n: nat): Bytes {
    FourDigits(n) + FourDigits(n / 0x1_0000_0000)
  }

  /** `m` has this field at this offset. */
  predicate Has(m: Bytes, offset: nat, field: Bytes) {
    offset + |field| <= |m| && m[offset..offset + |field|] == field
  }

  /** And this is all there is from this offset on. */
  predicate EndsWith(m: Bytes, offset: nat, rest: Bytes) {
    offset <= |m| && m[offset..] == rest
  }

  /** A four-byte length and the bytes of the text. */
  predicate HasText(m: Bytes, offset: nat, t: Text) {
    Has(m, offset, FourDigits(|t|)) && Has(m, offset + 4, t)
  }

  /** Reads one field off what follows an offset. */
  lemma Peel(m: Bytes, offset: nat, field: Bytes, rest: Bytes)
    requires offset <= |m| && m[offset..] == field + rest
    ensures Has(m, offset, field) && offset + |field| <= |m| && m[offset + |field|..] == rest
  {
    assert m[offset..offset + |field|] == m[offset..][..|field|];
    assert m[offset + |field|..] == m[offset..][|field|..];
  }

  lemma PeelU32(m: Bytes, offset: nat, n: nat, rest: Bytes)
    requires IsU32(n) && offset <= |m| && m[offset..] == PutU32(n) + rest
    ensures Has(m, offset, FourDigits(n)) && offset + 4 <= |m| && m[offset + 4..] == rest
  {
    U32IsLittleEndian(n);
    Peel(m, offset, PutU32(n), rest);
  }

  lemma PeelU64(m: Bytes, offset: nat, n: nat, rest: Bytes)
    requires IsU64(n) && offset <= |m| && m[offset..] == PutU64(n) + rest
    ensures Has(m, offset, EightDigits(n)) && offset + 8 <= |m| && m[offset + 8..] == rest
  {
    U64IsLittleEndian(n);
    Peel(m, offset, PutU64(n), rest);
  }

  lemma PeelText(m: Bytes, offset: nat, t: Text, rest: Bytes)
    requires IsU32(|t|) && offset <= |m| && m[offset..] == PutText(t) + rest
    ensures HasText(m, offset, t) && offset + 4 + |t| <= |m| && m[offset + 4 + |t|..] == rest
  {
    Reassociate(PutU32(|t|), t, rest);
    PeelU32(m, offset, |t|, t + rest);
    Peel(m, offset + 4, t, rest);
  }

  /** The trust message: a 33-byte domain, four numbers, the root key, the number of issuers,
      the issuers, and the algorithm. */
  lemma TrustFieldsAreAt(content: TrustContent)
    requires TrustFits(content)
    ensures var m, n := EncodeTrust(content), |content.rootKeyId|;
      && Has(m, 0, Ascii("mochios-issuer-trust-snapshot-v1\0"))
      && Has(m, 33, FourDigits(content.formatVersion))
      && Has(m, 37, EightDigits(content.snapshotVersion))
      && Has(m, 45, EightDigits(content.generatedAt))
      && Has(m, 53, EightDigits(content.expiresAt))
      && HasText(m, 61, content.rootKeyId)
      && Has(m, 65 + n, FourDigits(|content.issuers|))
      && EndsWith(m, 69 + n, PutAll(EncodeIssuer, content.issuers) + PutText(content.signatureAlgorithm))
  {
    hide Has, HasText, FourDigits, PutAll, EncodeIssuer;
    var m, n := EncodeTrust(content), |content.rootKeyId|;
    TrustLayout(content);
    assert |TrustDomain()| == 33;
    assert m[0..] == m;
    Peel(m, 0, TrustDomain(), TrustBody(content));
    var b6 := PutAll(EncodeIssuer, content.issuers) + PutText(content.signatureAlgorithm);
    var b5 := PutU32(|content.issuers|) + b6;
    var b4 := PutText(content.rootKeyId) + b5;
    var b3 := PutU64(content.expiresAt) + b4;
    PeelU32(m, 33, content.formatVersion, PutU64(content.snapshotVersion) + TrustTail(content));
    PeelU64(m, 37, content.snapshotVersion, TrustTail(content));
    PeelU64(m, 45, content.generatedAt, b3);
    PeelU64(m, 53, content.expiresAt, b4);
    PeelText(m, 61, content.rootKeyId, b5);
    PeelU32(m, 65 + n, |content.issuers|, b6);
  }

  /** An issuer in it: two texts, one byte for the status, its window, its usages. */
  lemma IssuerFieldsAreAt(r: IssuerRecord)
    requires IssuerFits(r)
    ensures var m, at := EncodeIssuer(r), 8 + |r.issuerKeyId| + |r.publicKey|;
      && HasText(m, 0, r.issuerKeyId)
      && HasText(m, 4 + |r.issuerKeyId|, r.publicKey)
      && Has(m, at, [match r.status case Future => 1 case Active => 2 case Retired => 3 case Revoked => 4])
      && Has(m, at + 1, EightDigits(r.notBefore))
      && Has(m, at + 9, EightDigits(r.notAfter))
      && Has(m, at + 17, FourDigits(|r.allowedKeyUsages|))
      && EndsWith(m, at + 21, PutAll(PutText, r.allowedKeyUsages))
  {
    hide Has, HasText, FourDigits, PutAll, EncodeIssuer, IssuerTail, PutText;
    var m, at := EncodeIssuer(r), 8 + |r.issuerKeyId| + |r.publicKey|;
    IssuerLayout(r, []);
    assert m[0..] == m + [];
    PeelText(m, 0, r.issuerKeyId, PutText(r.publicKey) + IssuerTail(r, []));
    PeelText(m, 4 + |r.issuerKeyId|, r.publicKey, IssuerTail(r, []));
    TailFieldsAreAt(m, at, r);
  }

  lemma TailFieldsAreAt(m: Bytes, at: nat, r: IssuerRecord)
    requires IssuerFits(r) && at <= |m| && m[at..] == IssuerTail(r, [])
    ensures Has(m, at, [match r.status case Future => 1 case Active => 2 case Retired => 3 case Revoked => 4])
    ensures Has(m, at + 1, EightDigits(r.notBefore)) && Has(m, at + 9, EightDigits(r.notAfter))
    ensures Has(m, at + 17, FourDigits(|r.allowedKeyUsages|))
    ensures EndsWith(m, at + 21, PutAll(PutText, r.allowedKeyUsages))
  {
    hide Has, FourDigits, PutAll, PutText, PutU64, PutU32;
    var b6 := PutAll(PutText, r.allowedKeyUsages) + [];
    var b5 := PutU32(|r.allowedKeyUsages|) + b6;
    var b4 := PutU64(r.notAfter) + b5;
    Peel(m, at, [StatusByte(r.status)], PutU64(r.notBefore) + b4);
    PeelU64(m, at + 1, r.notBefore, b4);
    PeelU64(m, at + 9, r.notAfter, b5);
    PeelU32(m, at + 17, |r.allowedKeyUsages|, b6);
  }

  /** The revocation message: the same head after a domain of 31 bytes. */
  lemma RevocationFieldsAreAt(content: RevocationContent)
    requires RevocationsFit(content)
    ensures var m, n := EncodeRevocations(content), |content.issuerKeyId|;
      && Has(m, 0, Ascii("mochios-revocation-snapshot-v1\0"))
      && Has(m, 31, FourDigits(content.formatVersion))
      && Has(m, 35, EightDigits(content.snapshotVersion))
      && Has(m, 43, EightDigits(content.generatedAt))
      && Has(m, 51, EightDigits(content.expiresAt))
      && HasText(m, 59, content.issuerKeyId)
      && Has(m, 63 + n, FourDigits(|content.revocations|))
      && EndsWith(m, 67 + n, PutAll(EncodeEntry, content.revocations) + PutText(content.signatureAlgorithm))
  {
    hide Has, HasText, FourDigits, PutAll, EncodeEntry;
    var m, n := EncodeRevocations(content), |content.issuerKeyId|;
    RevocationLayout(content);
    assert |RevocationDomain()| == 31;
    assert m[0..] == m;
    Peel(m, 0, RevocationDomain(), RevocationBody(content));
    var b6 := PutAll(EncodeEntry, content.revocations) + PutText(content.signatureAlgorithm);
    var b5 := PutU32(|content.revocations|) + b6;
    var b4 := PutText(content.issuerKeyId) + b5;
    var b3 := PutU64(content.expiresAt) + b4;
    PeelU32(m, 31, content.formatVersion, PutU64(content.snapshotVersion) + RevocationTail(content));
    PeelU64(m, 35, content.snapshotVersion, RevocationTail(content));
    PeelU64(m, 43, content.generatedAt, b3);
    PeelU64(m, 51, content.expiresAt, b4);
    PeelText(m, 59, content.issuerKeyId, b5);
    PeelU32(m, 63 + n, |content.revocations|, b6);
  }

  /** An entry in it: the serial, the time, and the reason in words. */
  lemma EntryFieldsAreAt(entry: RevocationEntry)
    requires EntryFits(entry)
    ensures var m, n := EncodeEntry(entry), |entry.serial|;
      && HasText(m, 0, entry.serial)
      && Has(m, 4 + n, EightDigits(entry.revokedAt))
      && HasText(m, 12 + n, match entry.reason
           case KeyCompromise => Ascii("key_compromise")
           case DeveloperSuspended => Ascii("developer_suspended")
           case CertificateReplaced => Ascii("certificate_replaced")
           case ScopeViolation => Ascii("scope_violation")
           case Administrative => Ascii("administrative")
           case Unspecified => Ascii("unspecified"))
      && |m| == 16 + n + |ReasonText(entry.reason)|
  {
    hide Has, HasText, FourDigits;
    var m, n, reason := EncodeEntry(entry), |entry.serial|, ReasonText(entry.reason);
    Reassociate(PutText(entry.serial), PutU64(entry.revokedAt), PutText(reason));
    assert m[0..] == m && PutText(reason) == PutText(reason) + [];
    ReasonRoundTrip(entry.reason);
    PeelText(m, 0, entry.serial, PutU64(entry.revokedAt) + PutText(reason));
    PeelU64(m, 4 + n, entry.revokedAt, PutText(reason));
    PeelText(m, 12 + n, reason, []);
    PutTextLength(reason);
  }
}
