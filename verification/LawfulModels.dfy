/** The assumed laws contradict each other nowhere: here are primitives, a token codec, a
    request toolkit and a certificate format that meet all of theirs at once. They are no
    cryptography; only their laws matter. */
module LawfulModels {
  import opened Prelude
  import opened Cryptography
  import opened Sorting
  import opened TrustMaterial
  import CertificateRequest
  import CertificateStatus
  import DelegationToken
  import TrustChain

  const PAD: byte := 126

  function Digit(n: nat): byte
    requires n < 64
  {
    33 + n
  }

  function Group(a: byte, b: byte, c: byte): Text {
    [Digit(a / 4), Digit(a % 4 * 16 + b / 16), Digit(b % 16 * 4 + c / 64), Digit(c % 64)]
  }

  /** Base64 over another alphabet of printable characters. */
  function Encode64(bytes: Bytes): Text {
    if bytes == [] then []
    else if |bytes| == 1 then Group(bytes[0], 0, 0)[..2] + [PAD, PAD]
    else if |bytes| == 2 then Group(bytes[0], bytes[1], 0)[..3] + [PAD]
    else Group(bytes[0], bytes[1], bytes[2]) + Encode64(bytes[3..])
  }

  lemma SecondDigit(a: byte, b: byte, d: byte, e: byte)
    requires a % 4 * 16 + b / 16 == d % 4 * 16 + e / 16
    ensures a % 4 == d % 4 && b / 16 == e / 16
  {
  }

  lemma ThirdDigit(b: byte, c: byte, e: byte, f: byte)
    requires b % 16 * 4 + c / 64 == e % 16 * 4 + f / 64
    ensures b % 16 == e % 16 && c / 64 == f / 64
  {
  }

  lemma GroupDecides(a: byte, b: byte, c: byte, d: byte, e: byte, f: byte)
    ensures Group(a, b, c)[0] == Group(d, e, f)[0] && Group(a, b, c)[1] == Group(d, e, f)[1] ==> a == d
    ensures Group(a, b, c)[..3] == Group(d, e, f)[..3] ==> a == d && b == e
    ensures Group(a, b, c) == Group(d, e, f) ==> a == d && b == e && c == f
  {
    var p, q := Group(a, b, c), Group(d, e, f);
    assert p[..3] == [p[0], p[1], p[2]] && q[..3] == [q[0], q[1], q[2]];
    if p[0] == q[0] && p[1] == q[1] {
      SecondDigit(a, b, d, e);
      if p[2] == q[2] {
        ThirdDigit(b, c, e, f);
      }
    }
  }

  lemma {:induction false} Encode64Shape(bytes: Bytes)
    ensures |Encode64(bytes)| == (|bytes| + 2) / 3 * 4
    ensures forall x :: x in Encode64(bytes) ==> 32 < x < 127
  {
    if |bytes| > 2 {
      Encode64Shape(bytes[3..]);
    }
  }

  /** The padding tells the length of the last group, and a group its bytes. */
  lemma {:induction false} Encode64IsInjective(a: Bytes, b: Bytes)
    requires Encode64(a) == Encode64(b)
    ensures a == b
  {
    Encode64Shape(a);
    Encode64Shape(b);
    var t := Encode64(a);
    if |a| > 2 && |b| > 2 {
      assert t[..4] == Group(a[0], a[1], a[2]) == Group(b[0], b[1], b[2]);
      assert t[4..] == Encode64(a[3..]) == Encode64(b[3..]);
      GroupDecides(a[0], a[1], a[2], b[0], b[1], b[2]);
      Encode64IsInjective(a[3..], b[3..]);
      assert a == [a[0], a[1], a[2]] + a[3..] && b == [b[0], b[1], b[2]] + b[3..];
    } else if a != [] && b != [] {
      assert t[2] == PAD <==> |a| == 1;
      assert t[3] == PAD <==> |a| <= 2;
      assert t[2] == PAD <==> |b| == 1;
      assert t[3] == PAD <==> |b| <= 2;
      if |a| == 1 {
        assert t[..2] == Group(a[0], 0, 0)[..2] == Group(b[0], 0, 0)[..2];
        assert t[0] == t[..2][0] && t[1] == t[..2][1];
        GroupDecides(a[0], 0, 0, b[0], 0, 0);
      } else {
        assert t[..3] == Group(a[0], a[1], 0)[..3] == Group(b[0], b[1], 0)[..3];
        GroupDecides(a[0], a[1], 0, b[0], b[1], 0);
      }
    }
  }

  ghost function Decode64(t: Text): Option<Bytes> {
    if exists bytes :: Encode64(bytes) == t then
      var bytes :| Encode64(bytes) == t;
      Some(bytes)
    else None
  }

  lemma Decode64Inverts()
    ensures forall bytes :: Decode64(Encode64(bytes)) == Some(bytes)
    ensures forall t :: Decode64(t).Some? ==> Encode64(Decode64(t).value) == t
  {
    forall bytes ensures Decode64(Encode64(bytes)) == Some(bytes) {
      Encode64IsInjective(bytes, Decode64(Encode64(bytes)).value);
    }
  }

  function Zeros(): Bytes {
    seq(32, _ => 0)
  }

  ghost function Example(): Primitives {
    Primitives(
      k => CertificateRequest.HexText(k),
      b => Encode64(b),
      t => Decode64(t),
      k => |k| == 32,
      s => Zeros(),
      (s, m) => m,
      (k, m, g) => m == g)
  }

  lemma ExampleIsLawful()
    ensures Example().Lawful()
  {
    var c := Example();
    Decode64Inverts();
    forall b: Bytes ensures |c.base64(b)| == (|b| + 2) / 3 * 4 && forall x :: x in c.base64(b) ==> 32 < x < 127 {
      Encode64Shape(b);
    }
    forall k, l: Bytes | |k| == |l| == 32 && c.keyId(k) == c.keyId(l) ensures k == l {
      CertificateRequest.HexRoundTrip(k);
      CertificateRequest.HexRoundTrip(l);
    }
  }

  lemma LawfulPrimitivesExist()
    ensures exists c: Primitives :: c.Lawful()
  {
    ExampleIsLawful();
  }

  // ----- Writing lists of texts -----

  /** A text with a mark before each byte and another at its end. */
  function Mark(t: Text): Bytes {
    if t == [] then [0] else [1, t[0]] + Mark(t[1..])
  }

  function Flatten(ts: seq<Text>): Bytes {
    if ts == [] then [0] else [1] + Mark(ts[0]) + Flatten(ts[1..])
  }

  lemma {:induction false} MarkIsPrefixFree(a: Text, b: Text, x: Bytes, y: Bytes)
    requires Mark(a) + x == Mark(b) + y
    ensures a == b && x == y
  {
    var u, v := Mark(a) + x, Mark(b) + y;
    assert u[0] == v[0];
    if a != [] && b != [] {
      assert u[1] == a[0] && v[1] == b[0];
      assert u[2..] == Mark(a[1..]) + x && v[2..] == Mark(b[1..]) + y;
      MarkIsPrefixFree(a[1..], b[1..], x, y);
      assert a == [a[0]] + a[1..] && b == [b[0]] + b[1..];
    } else {
      assert u[1..] == x && v[1..] == y;
    }
  }

  lemma {:induction false} FlattenIsInjective(a: seq<Text>, b: seq<Text>)
    requires Flatten(a) == Flatten(b)
    ensures a == b
  {
    hide Mark;
    var u, v := Flatten(a), Flatten(b);
    assert u[0] == v[0];
    if a != [] && b != [] {
      assert u[1..] == Mark(a[0]) + Flatten(a[1..]) && v[1..] == Mark(b[0]) + Flatten(b[1..]);
      MarkIsPrefixFree(a[0], b[0], Flatten(a[1..]), Flatten(b[1..]));
      FlattenIsInjective(a[1..], b[1..]);
      assert a == [a[0]] + a[1..] && b == [b[0]] + b[1..];
    }
  }

  function Tally(n: nat): Text {
    seq(n, _ => 0)
  }

  function Optional(t: Option<Text>): Text {
    if t.Some? then [1] + t.value else []
  }

  lemma OptionalIsInjective(a: Option<Text>, b: Option<Text>)
    requires Optional(a) == Optional(b)
    ensures a == b
  {
    if a.Some? {
      assert Optional(a)[1..] == a.value && Optional(b)[1..] == b.value;
    }
  }

  // ----- A token codec -----

  function ClaimTexts(c: DelegationToken.Claims): seq<Text> {
    [c.iss, c.sub, c.aud, Tally(c.iat), Tally(c.exp), c.jti, c.role,
     Optional(c.act), Optional(c.clientId), Optional(c.scope), Optional(c.sessionId)]
  }

  lemma ClaimsAreDetermined(a: DelegationToken.Claims, b: DelegationToken.Claims)
    requires Flatten(ClaimTexts(a)) == Flatten(ClaimTexts(b))
    ensures a == b
  {
    var x, y := ClaimTexts(a), ClaimTexts(b);
    FlattenIsInjective(x, y);
    assert x[0] == y[0] && x[1] == y[1] && x[2] == y[2] && x[5] == y[5] && x[6] == y[6];
    assert |x[3]| == |y[3]| && |x[4]| == |y[4]|;
    assert x[7] == y[7] && x[8] == y[8] && x[9] == y[9] && x[10] == y[10];
    OptionalIsInjective(a.act, b.act);
    OptionalIsInjective(a.clientId, b.clientId);
    OptionalIsInjective(a.scope, b.scope);
    OptionalIsInjective(a.sessionId, b.sessionId);
  }

  ghost function ReadClaims(b: Bytes): Option<DelegationToken.Claims> {
    if exists c :: Flatten(ClaimTexts(c)) == b then
      var c :| Flatten(ClaimTexts(c)) == b;
      Some(c)
    else None
  }

  ghost function ReadHex(t: Text): Option<Bytes> {
    if exists b :: CertificateRequest.HexText(b) == t then
      var b :| CertificateRequest.HexText(b) == t;
      Some(b)
    else None
  }

  lemma LawfulCodecExists()
    ensures exists x: DelegationToken.Codec :: x.Lawful()
  {
    var x := DelegationToken.Codec(
      Example(), c => Flatten(ClaimTexts(c)), b => ReadClaims(b), b => CertificateRequest.HexText(b), t => ReadHex(t));
    ExampleIsLawful();
    hide Flatten, ClaimTexts, Example, CertificateRequest.HexText;
    forall c ensures x.fromJson(x.toJson(c)) == Some(c) {
      ClaimsAreDetermined(c, ReadClaims(Flatten(ClaimTexts(c))).value);
    }
    forall b ensures x.unbase64url(x.base64url(b)) == Some(b) && DelegationToken.DOT !in x.base64url(b) {
      HexDecides(b, ReadHex(CertificateRequest.HexText(b)).value);
    }
    assert x.Lawful();
  }

  lemma HexDecides(a: Bytes, b: Bytes)
    requires CertificateRequest.HexText(a) == CertificateRequest.HexText(b)
    ensures a == b && DelegationToken.DOT !in CertificateRequest.HexText(a)
  {
    CertificateRequest.HexRoundTrip(a);
    CertificateRequest.HexRoundTrip(b);
  }

  // ----- A request toolkit -----

  function ScopeTag(scope: CertificateRequest.Scope): Text {
    match scope
    case Exact(id) => [0] + id
    case Prefix(id) => [1] + id
  }

  lemma ScopeTagIsInjective(a: CertificateRequest.Scope, b: CertificateRequest.Scope)
    requires ScopeTag(a) == ScopeTag(b)
    ensures a == b
  {
    assert ScopeTag(a)[1..] == a.packageId && ScopeTag(b)[1..] == b.packageId;
    assert ScopeTag(a)[0] == ScopeTag(b)[0];
  }

  function HashedTexts(c: CertificateRequest.HashedContent): seq<Text> {
    [c.developerId, c.subjectPublicKey, Flatten(c.packageIdScopes), Flatten(c.capabilities)]
  }

  lemma HashedIsDetermined(a: CertificateRequest.HashedContent, b: CertificateRequest.HashedContent)
    requires Flatten(HashedTexts(a)) == Flatten(HashedTexts(b))
    ensures a == b
  {
    var x, y := HashedTexts(a), HashedTexts(b);
    FlattenIsInjective(x, y);
    assert x[0] == y[0] && x[1] == y[1] && x[2] == y[2] && x[3] == y[3];
    FlattenIsInjective(a.packageIdScopes, b.packageIdScopes);
    FlattenIsInjective(a.capabilities, b.capabilities);
  }

  ghost function Toolkit(): CertificateRequest.Toolkit {
    CertificateRequest.Toolkit(
      Example(), t => true, t => true, s => ScopeTag(s), scopes => true, c => Flatten(HashedTexts(c)), b => b)
  }

  lemma LawfulToolkitExists()
    ensures Toolkit().Lawful()
    ensures exists tk: CertificateRequest.Toolkit :: tk.Lawful()
  {
    ExampleIsLawful();
    hide Flatten, HashedTexts, ScopeTag, Example;
    forall a, b | Toolkit().json(a) == Toolkit().json(b) ensures a == b {
      HashedIsDetermined(a, b);
    }
    forall a, b | Toolkit().scopeKey(a) == Toolkit().scopeKey(b) ensures a == b {
      ScopeTagIsInjective(a, b);
    }
    assert Injective(Toolkit().scopeKey);
  }

  // ----- A certificate format -----

  function ScopeTags(scopes: seq<CertificateRequest.Scope>): seq<Text> {
    seq(|scopes|, i requires 0 <= i < |scopes| => ScopeTag(scopes[i]))
  }

  lemma ScopeTagsAreInjective(a: seq<CertificateRequest.Scope>, b: seq<CertificateRequest.Scope>)
    requires ScopeTags(a) == ScopeTags(b)
    ensures a == b
  {
    assert |ScopeTags(a)| == |ScopeTags(b)|;
    forall i | 0 <= i < |a| ensures a[i] == b[i] {
      assert ScopeTags(a)[i] == ScopeTags(b)[i];
      ScopeTagIsInjective(a[i], b[i]);
    }
  }

  function ContentTexts(c: CertificateStatus.Content): seq<Text> {
    [Tally(c.serial), c.issuerKeyId, c.developerId, c.subjectKeyId, c.subjectPublicKey,
     Tally(c.notBefore), Tally(c.notAfter), Flatten(ScopeTags(c.scopes)), Flatten(c.capabilities)]
  }

  function Message(c: CertificateStatus.Content): Bytes {
    Flatten(ContentTexts(c))
  }

  lemma ContentIsDetermined(a: CertificateStatus.Content, b: CertificateStatus.Content)
    requires Message(a) == Message(b)
    ensures a == b
  {
    var x, y := ContentTexts(a), ContentTexts(b);
    FlattenIsInjective(x, y);
    assert |x[0]| == |y[0]| && x[1] == y[1] && x[2] == y[2] && x[3] == y[3] && x[4] == y[4];
    assert |x[5]| == |y[5]| && |x[6]| == |y[6]| && x[7] == y[7] && x[8] == y[8];
    FlattenIsInjective(ScopeTags(a.scopes), ScopeTags(b.scopes));
    ScopeTagsAreInjective(a.scopes, b.scopes);
    FlattenIsInjective(a.capabilities, b.capabilities);
  }

  function WriteCertificate(c: CertificateStatus.Certificate): Text {
    Flatten([Message(c.content), c.signature])
  }

  ghost function ReadCertificate(t: Text): Option<CertificateStatus.Certificate> {
    if exists c :: WriteCertificate(c) == t then
      var c :| WriteCertificate(c) == t;
      Some(c)
    else None
  }

  lemma CertificateIsDetermined(a: CertificateStatus.Certificate, b: CertificateStatus.Certificate)
    requires WriteCertificate(a) == WriteCertificate(b)
    ensures a == b
  {
    hide Message;
    var x, y := [Message(a.content), a.signature], [Message(b.content), b.signature];
    FlattenIsInjective(x, y);
    assert x[0] == y[0] && x[1] == y[1];
    ContentIsDetermined(a.content, b.content);
  }

  ghost predicate Checks(c: CertificateStatus.Certificate, key: Bytes, at: nat) {
    && Toolkit().keys.checks(key, Message(c.content), c.signature)
    && Toolkit().keys.keyId(key) == c.content.issuerKeyId
    && c.content.notBefore <= at < c.content.notAfter
  }

  lemma WrittenIsRead(c: CertificateStatus.Certificate)
    ensures ReadCertificate(WriteCertificate(c)) == Some(c)
  {
    hide WriteCertificate;
    CertificateIsDetermined(c, ReadCertificate(WriteCertificate(c)).value);
  }

  lemma SignedChecks(c: CertificateStatus.Content, seed: Bytes, at: nat)
    requires c.issuerKeyId == Toolkit().keys.keyId(Toolkit().keys.publicKey(seed)) && c.notBefore <= at < c.notAfter
    ensures Checks(CertificateStatus.Certificate(c, Toolkit().keys.sign(seed, Message(c))),
                   Toolkit().keys.publicKey(seed), at)
  {
    hide Message, CertificateRequest.HexText;
  }

  lemma LawfulFormatExists()
    ensures exists f: CertificateStatus.Format :: f.Lawful()
  {
    LawfulToolkitExists();
    var tk := Toolkit();
    hide Message, WriteCertificate, Toolkit, Checks, tk.Lawful, ReadCertificate;
    var f := CertificateStatus.Format(
      Toolkit(), c => true, c => Message(c), c => WriteCertificate(c), t => ReadCertificate(t),
      (c: CertificateStatus.Certificate, k: Bytes, at: nat) => Checks(c, k, at));
    forall c ensures f.decode(f.encode(c)) == Some(c) {
      WrittenIsRead(c);
    }
    forall c: CertificateStatus.Content, seed: Bytes, at: nat
      | c.issuerKeyId == f.tk.keys.keyId(f.tk.keys.publicKey(seed)) && c.notBefore <= at < c.notAfter
      ensures f.verifies(CertificateStatus.Certificate(c, f.tk.keys.sign(seed, f.message(c))),
                         f.tk.keys.publicKey(seed), at)
    {
      SignedChecks(c, seed, at);
    }
    assert f.Lawful();
  }

  // ----- A rollover that is refused -----

  function KeyBytes(b: byte): Bytes {
    seq(32, _ => b)
  }

  function Issuer(b: byte, status: IssuerStatus): IssuerRecord {
    IssuerRecord(CertificateRequest.HexText(KeyBytes(b)), Encode64(KeyBytes(b)), status, 0, 1, [CertificateSigning()])
  }

  function Snapshot(version: nat, first: IssuerStatus, second: IssuerStatus): TrustContent {
    TrustContent(1, version, 0, 1, CertificateRequest.HexText(KeyBytes(0)), [Issuer(0, first), Issuer(1, second)],
                 SignatureAlgorithm())
  }

  lemma HexIsKeyId(b: byte)
    ensures ValidKeyId(CertificateRequest.HexText(KeyBytes(b)))
  {
    CertificateRequest.HexRoundTrip(KeyBytes(b));
    CertificateRequest.HexLength(KeyBytes(b));
  }

  lemma OneUsageIsValid()
    ensures ValidUsages([CertificateSigning()])
  {
  }

  lemma IssuerIsValid(b: byte, status: IssuerStatus)
    ensures ValidIssuer(Example(), Issuer(b, status))
  {
    hide ValidUsages, Encode64, CertificateRequest.HexText, ValidKeyId;
    HexIsKeyId(b);
    OneUsageIsValid();
    Decode64Inverts();
  }

  lemma ZeroPrecedesOne()
    ensures Precedes(CertificateRequest.HexText(KeyBytes(0)), CertificateRequest.HexText(KeyBytes(1)))
  {
    var a, b := CertificateRequest.HexText(KeyBytes(0)), CertificateRequest.HexText(KeyBytes(1));
    assert a[0] == b[0] && a[1] < b[1];
    assert a[1..][0] == a[1] && b[1..][0] == b[1];
    assert Precedes(a[1..], b[1..]);
  }

  lemma SnapshotIsValid(version: nat, first: IssuerStatus, second: IssuerStatus)
    requires version > 0 && !(first.Active? && second.Active?)
    ensures ValidTrust(Example(), Snapshot(version, first, second))
  {
    hide ValidIssuer, Example, ValidKeyId, CertificateRequest.HexText, Encode64;
    IssuerIsValid(0, first);
    IssuerIsValid(1, second);
    HexIsKeyId(0);
    ZeroPrecedesOne();
  }

  /** The history of TrustChain.RolloverCanBeRefused exists, under lawful primitives. */
  lemma RefusedRolloverExists()
    ensures Example().Lawful()
    ensures var s := TrustChain.Play(Example(), [TrustChain.Register(Snapshot(1, Future, Active))]);
      var second := Snapshot(2, Active, Retired);
      && s.history == [Snapshot(1, Future, Active)]
      && TrustChain.Accepted(Example(), s, second)
      && TrustChain.Apply(Example(), s, TrustChain.Register(second)) == s
  {
    hide Example, ValidTrust, TrustChain.Play, TrustChain.Apply, TrustChain.Accepted, Encode64,
      CertificateRequest.HexText;
    ExampleIsLawful();
    SnapshotIsValid(1, Future, Active);
    SnapshotIsValid(2, Active, Retired);
    TrustChain.RolloverCanBeRefused(Example(), Snapshot(1, Future, Active), Snapshot(2, Active, Retired));
  }
}
