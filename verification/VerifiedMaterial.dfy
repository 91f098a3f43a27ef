/** What a relying party learns from a verified snapshot, said of its own fields and numbers.
    Models the validators and both `verify` functions of crates/trust/src/lib.rs. */
module VerifiedMaterial {
  import opened Prelude
  import opened Cryptography
  import opened Sorting
  import opened TrustMaterial
  import opened TrustMessage
  import opened RevocationMaterial
  import opened RevocationMessage

  predicate HexName(t: Text) {
    && |t| == 64
    && forall i :: 0 <= i < 64 ==>
         || '0' as int <= t[i] <= '9' as int || 'a' as int <= t[i] <= 'f' as int || 'A' as int <= t[i] <= 'F' as int
  }

  predicate Digits(t: Text) {
    1 <= |t| <= 32 && forall i :: 0 <= i < |t| ==> '0' as int <= t[i] <= '9' as int
  }

  /** Only these three lists of usages are sorted, known and not empty. */
  predicate SoundUsages(usages: seq<Text>) {
    || usages == [Ascii("developer-certificate-signing")]
    || usages == [Ascii("revocation-signing")]
    || usages == [Ascii("developer-certificate-signing"), Ascii("revocation-signing")]
  }

  /** The issuer is named by the hash of a curve point of 32 bytes, and its window is open. */
  predicate SoundIssuer(c: Primitives, r: IssuerRecord) {
    && HexName(r.issuerKeyId)
    && r.notBefore < r.notAfter
    && SoundUsages(r.allowedKeyUsages)
    && c.unbase64(r.publicKey).Some?
    && var key := c.unbase64(r.publicKey).value;
      |key| == 32 && c.validPoint(key) && c.keyId(key) == r.issuerKeyId
  }

  ghost predicate SoundTrust(c: Primitives, content: TrustContent) {
    && content.formatVersion == 1 && content.snapshotVersion >= 1
    && content.generatedAt < content.expiresAt <= content.generatedAt + 15_552_000
    && content.signatureAlgorithm == Ascii("ed25519") && HexName(content.rootKeyId)
    && |content.issuers| <= 64
    && (forall i :: 0 <= i < |content.issuers| ==> SoundIssuer(c, content.issuers[i]))
    && (forall i, j :: 0 <= i < j < |content.issuers| ==>
          && Precedes(content.issuers[i].issuerKeyId, content.issuers[j].issuerKeyId)
          && !(content.issuers[i].status.Active? && content.issuers[j].status.Active?))
  }

  ghost predicate SoundRevocations(content: RevocationContent) {
    && content.formatVersion == 1 && content.snapshotVersion >= 1
    && content.generatedAt < content.expiresAt <= content.generatedAt + 604_800
    && content.signatureAlgorithm == Ascii("ed25519") && HexName(content.issuerKeyId)
    && |content.revocations| <= 100_000
    && (forall i :: 0 <= i < |content.revocations| ==> Digits(content.revocations[i].serial))
    && (forall i, j :: 0 <= i < j < |content.revocations| ==>
          Precedes(content.revocations[i].serial, content.revocations[j].serial))
  }

  lemma UsagesAreOrdered()
    ensures CertificateSigning() == Ascii("developer-certificate-signing")
    ensures RevocationSigning() == Ascii("revocation-signing")
    ensures Precedes(CertificateSigning(), RevocationSigning())
    ensures !Precedes(RevocationSigning(), CertificateSigning())
  {
    assert CertificateSigning()[0] == 'd' as int && RevocationSigning()[0] == 'r' as int;
  }

  lemma UsagesAreJudgedExactly(usages: seq<Text>)
    ensures ValidUsages(usages) <==> SoundUsages(usages)
  {
    UsagesAreOrdered();
    hide CertificateSigning, RevocationSigning, Precedes;
    if ValidUsages(usages) {
      ValidUsagesAreShort(usages);
      assert usages[0] in usages;
      PrecedesIsIrreflexive(usages[0]);
      if |usages| == 2 {
        assert usages[1] in usages;
        assert Precedes(Self(usages[0]), Self(usages[1]));
        assert usages == [usages[0], usages[1]];
      } else {
        assert usages == [usages[0]];
      }
    }
  }

  lemma KeyIdsAreJudgedExactly(t: Text)
    ensures ValidKeyId(t) <==> HexName(t)
  {
  }

  lemma IssuersAreJudgedExactly(c: Primitives, r: IssuerRecord)
    ensures ValidIssuer(c, r) <==> SoundIssuer(c, r)
  {
    hide ValidUsages, SoundUsages, ValidKeyId, HexName;
    UsagesAreJudgedExactly(r.allowedKeyUsages);
    KeyIdsAreJudgedExactly(r.issuerKeyId);
  }

  /** The trust validator accepts exactly the sound contents. */
  lemma TrustIsJudgedExactly(c: Primitives, content: TrustContent)
    ensures ValidTrust(c, content) <==> SoundTrust(c, content)
  {
    hide ValidIssuer, SoundIssuer, ValidKeyId, HexName, Precedes;
    KeyIdsAreJudgedExactly(content.rootKeyId);
    forall i | 0 <= i < |content.issuers|
      ensures ValidIssuer(c, content.issuers[i]) <==> SoundIssuer(c, content.issuers[i])
    {
      IssuersAreJudgedExactly(c, content.issuers[i]);
    }
    if ValidTrust(c, content) {
      assert forall i :: 0 <= i < |content.issuers| ==> content.issuers[i] in content.issuers;
      forall i, j | 0 <= i < j < |content.issuers|
        ensures Precedes(content.issuers[i].issuerKeyId, content.issuers[j].issuerKeyId)
      {
        assert Precedes(KeyOf(content.issuers[i]), KeyOf(content.issuers[j]));
      }
    }
  }

  /** The revocation validator accepts exactly the sound contents. */
  lemma RevocationsAreJudgedExactly(content: RevocationContent)
    ensures ValidRevocations(content) <==> SoundRevocations(content)
  {
    hide ValidKeyId, HexName, Precedes;
    KeyIdsAreJudgedExactly(content.issuerKeyId);
    if ValidRevocations(content) {
      assert forall i :: 0 <= i < |content.revocations| ==> content.revocations[i] in content.revocations;
      forall i, j | 0 <= i < j < |content.revocations|
        ensures Precedes(content.revocations[i].serial, content.revocations[j].serial)
      {
        assert Precedes(SerialOf(content.revocations[i]), SerialOf(content.revocations[j]));
      }
    }
  }

  /** The signature is base64 of a checking signature over these bytes. */
  predicate SignedBy(c: Primitives, key: Bytes, message: Bytes, signature: Text) {
    && c.validPoint(key) && c.unbase64(signature).Some?
    && c.checks(key, message, c.unbase64(signature).value)
  }

  /** A trust snapshot verifies exactly when it is sound, names the root key, carries its
      signature, and the clock is at most 300 s before its making and before its expiry. */
  lemma TrustIsVerifiedExactly(c: Primitives, snapshot: TrustSnapshot, rootKey: Bytes, now: nat)
    ensures TrustVerifies(c, snapshot, rootKey, now) <==>
      && SoundTrust(c, snapshot.content)
      && snapshot.content.rootKeyId == c.keyId(rootKey)
      && SignedBy(c, rootKey, EncodeTrust(snapshot.content), snapshot.rootSignature)
      && snapshot.content.generatedAt <= now + 300 && now < snapshot.content.expiresAt
  {
    hide SoundTrust, ValidTrust, EncodeTrust;
    TrustIsJudgedExactly(c, snapshot.content);
  }

  /** The same for a revocation snapshot, whose message must fit 4 MiB. */
  lemma RevocationsAreVerifiedExactly(c: Primitives, snapshot: RevocationSnapshot, key: Bytes, now: nat)
    ensures RevocationsVerify(c, snapshot, key, now) <==>
      && SoundRevocations(snapshot.content) && |EncodeRevocations(snapshot.content)| <= 4_194_304
      && snapshot.content.issuerKeyId == c.keyId(key)
      && SignedBy(c, key, EncodeRevocations(snapshot.content), snapshot.signature)
      && snapshot.content.generatedAt <= now + 300 && now < snapshot.content.expiresAt
  {
    hide SoundRevocations, ValidRevocations, EncodeRevocations;
    RevocationsAreJudgedExactly(snapshot.content);
  }
}
