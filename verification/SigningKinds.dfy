/** The three kinds of signed message never meet, so no signature serves two kinds. */
module SigningKinds {
  import opened Prelude
  import opened Cryptography
  import TrustMaterial
  import TrustMessage
  import RevocationMaterial
  import RevocationMessage
  import DelegationToken

  /** All three domains start with "mochios-" and part at the next byte. */
  const KIND_BYTE: nat := 8

  lemma TrustKind(content: TrustMaterial.TrustContent)
    ensures var m := TrustMessage.EncodeTrust(content); |m| > KIND_BYTE && m[KIND_BYTE] == 'i' as int
  {
  }

  lemma RevocationKind(content: RevocationMaterial.RevocationContent)
    ensures var m := RevocationMessage.EncodeRevocations(content); |m| > KIND_BYTE && m[KIND_BYTE] == 'r' as int
  {
  }

  lemma TokenKind(payload: Bytes)
    ensures var m := DelegationToken.EncodePayload(payload); |m| > KIND_BYTE && m[KIND_BYTE] == 'd' as int
  {
  }

  lemma KindsNeverMeet(trust: TrustMaterial.TrustContent, list: RevocationMaterial.RevocationContent, payload: Bytes)
    ensures TrustMessage.EncodeTrust(trust) != RevocationMessage.EncodeRevocations(list)
    ensures TrustMessage.EncodeTrust(trust) != DelegationToken.EncodePayload(payload)
    ensures RevocationMessage.EncodeRevocations(list) != DelegationToken.EncodePayload(payload)
  {
    TrustKind(trust);
    RevocationKind(list);
    TokenKind(payload);
  }

  /** Under one key, whatever verifies as one kind of material verifies as no other. */
  lemma SignatureServesOneKind(c: Primitives, key: Bytes, signature: Bytes, trust: TrustMaterial.TrustContent,
                               list: RevocationMaterial.RevocationContent, payload: Bytes)
    requires c.Lawful()
    ensures !(c.checks(key, TrustMessage.EncodeTrust(trust), signature)
              && c.checks(key, RevocationMessage.EncodeRevocations(list), signature))
    ensures !(c.checks(key, TrustMessage.EncodeTrust(trust), signature)
              && c.checks(key, DelegationToken.EncodePayload(payload), signature))
    ensures !(c.checks(key, RevocationMessage.EncodeRevocations(list), signature)
              && c.checks(key, DelegationToken.EncodePayload(payload), signature))
  {
    KindsNeverMeet(trust, list, payload);
  }
}
