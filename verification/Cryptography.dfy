/** The primitives that live outside the repository: SHA-256 key identifiers, base64 and
    Ed25519. They are a parameter of everything that uses them, and `Lawful` lists all
    that is assumed of them. */
module Cryptography {
  import opened Prelude

  type Bytes = seq<byte>

  datatype Primitives = Primitives(
    keyId: Bytes -> Text,                 // hex of the SHA-256 of a public key
    base64: Bytes -> Text,                // padded standard alphabet
    unbase64: Text -> Option<Bytes>,
    validPoint: Bytes -> bool,            // does a public key decompress
    publicKey: Bytes -> Bytes,            // of a 32-byte seed
    sign: (Bytes, Bytes) -> Bytes,        // seed, message
    checks: (Bytes, Bytes, Bytes) -> bool // public key, message, signature (strict)
  )
  {
    ghost predicate Lawful() {
      && Base64Lawful()
      && KeysLawful()
      && SignaturesLawful()
    }

    /** Base64 round trips, decodes canonical texts only, stretches 3 bytes to 4, and writes
        printable characters only. */
    ghost predicate Base64Lawful() {
      && (forall b, x :: x in base64(b) ==> 32 < x < 127)
      && (forall b :: unbase64(base64(b)) == Some(b))
      && (forall t :: unbase64(t).Some? ==> base64(unbase64(t).value) == t)
      && (forall b :: |base64(b)| == (|b| + 2) / 3 * 4)
    }

    /** Key identifiers of 32-byte keys are 64 bytes long and collision free. */
    ghost predicate KeysLawful() {
      && (forall k :: |k| == 32 ==> |keyId(k)| == 64)
      && (forall k, l :: |k| == |l| == 32 && keyId(k) == keyId(l) ==> k == l)
      && (forall s :: |publicKey(s)| == 32 && validPoint(publicKey(s)))
    }

    /** Signing and checking agree, and under one key a signature fixes its message.
        The length of a signature is left open: `checks` also refuses malformed ones. */
    ghost predicate SignaturesLawful() {
      && (forall s, m :: checks(publicKey(s), m, sign(s, m)))
      && (forall k, m, n, g :: checks(k, m, g) && checks(k, n, g) ==> m == n)
    }
  }
}
