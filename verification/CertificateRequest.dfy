/** Certificate requests and their canonical form. Models src/certificate.rs and
    `certificate_request_hash` of src/lib.rs. The MCER validators, canonical JSON and
    SHA-256 are parameters. */
module CertificateRequest {
  import opened Prelude
  import opened Cryptography
  import opened Sorting
  import TrustMaterial

  datatype Scope = Exact(packageId: Text) | Prefix(packageId: Text)

  datatype IssueInput = IssueInput(subjectPublicKey: Text, packageId: Text, capabilities: seq<Text>)

  datatype Request = Request(
    signatureAlgorithm: Text,
    subjectPublicKey: Text,
    packageIdScopes: seq<Text>,
    allowedCapabilities: seq<Text>)

  /** What is hashed: the JSON object of `certificate_request_hash`. */
  datatype HashedContent = HashedContent(
    developerId: Text, subjectPublicKey: Text, packageIdScopes: seq<Text>, capabilities: seq<Text>)

  datatype Toolkit = Toolkit(
    keys: Primitives,
    validPackageId: Text -> bool,
    validCapability: Text -> bool,
    scopeKey: Scope -> Text,
    validScopes: seq<Scope> -> bool,
    json: HashedContent -> Bytes,
    sha256: Bytes -> Bytes)
  {
    ghost predicate Lawful() {
      && keys.Lawful()
      && (forall a, b :: json(a) == json(b) ==> a == b)
      && (forall a, b :: sha256(a) == sha256(b) ==> a == b)
      && Injective(scopeKey)
    }
  }

  datatype Rejection =
    | InvalidPackageId
    | UnsupportedAlgorithm
    | ScopeMissing
    | DuplicateScope
    | InvalidScope
    | InvalidCapability
    | DuplicateCapability
    | InvalidPublicKey

  // ----- Hexadecimal -----

  function HexDigit(n: nat): byte
    requires n < 16
  {
    if n < 10 then 48 + n else 87 + n
  }

  function HexValue(b: byte): nat
    requires TrustMaterial.IsHexDigit(b)
  {
    if b <= 57 then b - 48 else if b <= 70 then b - 55 else b - 87
  }

  function HexText(bytes: Bytes): Text {
    seq(2 * |bytes|, k requires 0 <= k < 2 * |bytes| =>
      HexDigit(if k % 2 == 0 then bytes[k / 2] / 16 else bytes[k / 2] % 16))
  }

  /** `hex` of the source: two pushes a byte. */
  method Hex(bytes: Bytes) returns (output: Text)
    ensures output == HexText(bytes)
    ensures |output| == 2 * |bytes|
    ensures forall i :: 0 <= i < |bytes| ==>
      && output[2 * i] == Ascii("0123456789abcdef")[bytes[i] / 16]
      && output[2 * i + 1] == Ascii("0123456789abcdef")[bytes[i] % 16]
  {
    DigitsAreTheTable();
    output := [];
    for i := 0 to |bytes|
      invariant |output| == 2 * i
      invariant forall k :: 0 <= k < 2 * i ==> output[k] == HexText(bytes)[k]
    {
      output := output + [HexDigit(bytes[i] / 16)];
      output := output + [HexDigit(bytes[i] % 16)];
    }
  }

  lemma DigitsAreTheTable()
    ensures |Ascii("0123456789abcdef")| == 16
    ensures forall n :: 0 <= n < 16 ==> HexDigit(n) == Ascii("0123456789abcdef")[n]
  {
  }

  predicate IsHex(t: Text) {
    forall i :: 0 <= i < |t| ==> TrustMaterial.IsHexDigit(t[i])
  }

  function HexBytes(t: Text): Bytes
    requires |t| % 2 == 0 && IsHex(t)
  {
    seq(|t| / 2, i requires 0 <= i < |t| / 2 => 16 * HexValue(t[2 * i]) + HexValue(t[2 * i + 1]))
  }

  lemma HexRoundTrip(bytes: Bytes)
    ensures IsHex(HexText(bytes)) && HexBytes(HexText(bytes)) == bytes
  {
  }

  /** Two spellings name the same bytes exactly when their digits have the same values, so
      the case of a digit never matters. */
  lemma HexSpellings(a: Text, b: Text)
    requires |a| == |b| && |a| % 2 == 0 && IsHex(a) && IsHex(b)
    ensures HexBytes(a) == HexBytes(b) <==> forall k :: 0 <= k < |a| ==> HexValue(a[k]) == HexValue(b[k])
  {
    if forall k :: 0 <= k < |a| ==> HexValue(a[k]) == HexValue(b[k]) {
      assert HexBytes(a) == HexBytes(b);
    }
    if HexBytes(a) == HexBytes(b) {
      forall k | 0 <= k < |a| ensures HexValue(a[k]) == HexValue(b[k]) {
        HexPair(a, k / 2);
        HexPair(b, k / 2);
      }
    }
  }

  lemma HexPair(t: Text, i: nat)
    requires |t| % 2 == 0 && IsHex(t) && 2 * i + 1 < |t|
    ensures HexBytes(t)[i] / 16 == HexValue(t[2 * i])
    ensures HexBytes(t)[i] % 16 == HexValue(t[2 * i + 1])
  {
  }

  // ----- Public keys -----

  predicate Space(b: byte) { 9 <= b <= 13 || b == 32 }

  function TrimStart(t: Text): Text {
    if t != [] && Space(t[0]) then TrimStart(t[1..]) else t
  }

  function TrimEnd(t: Text): Text {
    if t != [] && Space(t[|t| - 1]) then TrimEnd(t[..|t| - 1]) else t
  }

  function Trim(t: Text): Text { TrimEnd(TrimStart(t)) }

  function DecodeKey(tk: Toolkit, encoded: Text): Option<Bytes> {
    var value := Trim(encoded);
    var bytes := if |value| == 64 && IsHex(value) then Some(HexBytes(value)) else tk.keys.unbase64(value);
    if bytes.Some? && |bytes.value| == 32 && tk.keys.validPoint(bytes.value) then bytes else None
  }

  /** The canonical spelling of a key, base64, decodes back to the key. */
  lemma Base64Decodes(tk: Toolkit, key: Bytes)
    requires tk.Lawful() && |key| == 32 && tk.keys.validPoint(key)
    ensures DecodeKey(tk, tk.keys.base64(key)) == Some(key)
  {
    var t := tk.keys.base64(key);
    assert |t| == 44 && t[0] in t && t[43] in t;
    assert Trim(t) == t;
  }

  /** Base64, lower-case hex, and any other casing of it name the same 32 bytes. */
  lemma SpellingsOfOneKey(tk: Toolkit, key: Bytes, spelling: Text)
    requires tk.Lawful() && |key| == 32 && tk.keys.validPoint(key)
    requires |spelling| == 64 && IsHex(spelling)
    requires forall k :: 0 <= k < 64 ==> IsHex(HexText(key)) && HexValue(spelling[k]) == HexValue(HexText(key)[k])
    ensures DecodeKey(tk, spelling) == DecodeKey(tk, HexText(key)) == DecodeKey(tk, tk.keys.base64(key)) == Some(key)
  {
    hide DecodeKey, HexText, HexBytes, HexValue, TrustMaterial.IsHexDigit, tk.Lawful;
    Base64Decodes(tk, key);
    HexRoundTrip(key);
    assert |HexText(key)| == 64 by { HexLength(key); }
    HexSpellings(spelling, HexText(key));
    HexDecodes(tk, spelling);
    HexDecodes(tk, HexText(key));
  }

  lemma HexLength(bytes: Bytes)
    ensures |HexText(bytes)| == 2 * |bytes|
  {
  }

  /** Text of 64 hexadecimal digits is read as such. */
  lemma HexDecodes(tk: Toolkit, t: Text)
    requires |t| == 64 && IsHex(t)
    ensures DecodeKey(tk, t) == if tk.keys.validPoint(HexBytes(t)) then Some(HexBytes(t)) else None
  {
    hide HexBytes;
    assert TrustMaterial.IsHexDigit(t[0]) && TrustMaterial.IsHexDigit(t[63]);
    assert Trim(t) == t;
    HexBytesLength(t);
  }

  lemma HexBytesLength(t: Text)
    requires |t| % 2 == 0 && IsHex(t)
    ensures |HexBytes(t)| == |t| / 2
  {
  }

  predicate Blank(t: Text) {
    forall i :: 0 <= i < |t| ==> t[i] in {9, 10, 11, 12, 13, 32}
  }

  /** The canonical base64 of the key, or 64 hexadecimal digits of either case. */
  predicate NamesKey(tk: Toolkit, t: Text, key: Bytes) {
    t == tk.keys.base64(key) || (|t| == 64 && IsHex(t) && HexBytes(t) == key)
  }

  lemma {:induction false} TrimStartOf(a: Text, v: Text)
    requires Blank(a) && (v != [] ==> !Space(v[0]))
    ensures TrimStart(a + v) == v
  {
    if a == [] {
      assert a + v == v;
    } else {
      TrimStartOf(a[1..], v);
      assert (a + v)[1..] == a[1..] + v;
    }
  }

  lemma {:induction false} TrimEndOf(v: Text, b: Text)
    requires Blank(b) && (v != [] ==> !Space(v[|v| - 1]))
    ensures TrimEnd(v + b) == v
  {
    if b == [] {
      assert v + b == v;
    } else {
      TrimEndOf(v, b[..|b| - 1]);
      assert (v + b)[..|v + b| - 1] == v + b[..|b| - 1];
    }
  }

  lemma {:induction false} TrimStartIsSuffix(t: Text) returns (a: Text)
    ensures Blank(a) && t == a + TrimStart(t)
  {
    a := [];
    if t != [] && Space(t[0]) {
      a := TrimStartIsSuffix(t[1..]);
      a := [t[0]] + a;
    }
  }

  lemma {:induction false} TrimEndIsPrefix(t: Text) returns (b: Text)
    ensures Blank(b) && t == TrimEnd(t) + b
  {
    b := [];
    if t != [] && Space(t[|t| - 1]) {
      b := TrimEndIsPrefix(t[..|t| - 1]);
      b := b + [t[|t| - 1]];
    }
  }

  lemma KeyNamesHaveNoBlankEnds(tk: Toolkit, t: Text, key: Bytes)
    requires tk.Lawful() && |key| == 32 && NamesKey(tk, t, key)
    ensures t != [] && !Space(t[0]) && !Space(t[|t| - 1])
  {
    if t == tk.keys.base64(key) {
      assert |t| == 44 && t[0] in t && t[43] in t;
    } else {
      assert TrustMaterial.IsHexDigit(t[0]) && TrustMaterial.IsHexDigit(t[63]);
    }
  }

  lemma TrimmedNamesKey(tk: Toolkit, t: Text, key: Bytes)
    requires tk.Lawful()
    ensures DecodeKey(tk, t) == Some(key) <==> |key| == 32 && tk.keys.validPoint(key) && NamesKey(tk, Trim(t), key)
  {
    hide HexBytes, Trim, IsHex;
    var v := Trim(t);
    assert tk.keys.Base64Lawful();
    assert |key| == 32 ==> |tk.keys.base64(key)| == 44;
  }

  lemma TrimTakesBlanks(t: Text) returns (a: Text, b: Text)
    ensures t == a + Trim(t) + b && Blank(a) && Blank(b)
  {
    a := TrimStartIsSuffix(t);
    b := TrimEndIsPrefix(TrimStart(t));
  }

  lemma TrimOf(a: Text, v: Text, b: Text)
    requires Blank(a) && Blank(b) && v != [] && !Space(v[0]) && !Space(v[|v| - 1])
    ensures Trim(a + v + b) == v
  {
    assert a + v + b == a + (v + b);
    TrimStartOf(a, v + b);
    TrimEndOf(v, b);
  }

  ghost predicate NamesKeyBetweenBlanks(tk: Toolkit, t: Text, key: Bytes) {
    exists a, v, b :: t == a + v + b && Blank(a) && Blank(b) && NamesKey(tk, v, key)
  }

  /** A text names a key exactly when, but for blanks around it, it is the base64 or the
      hexadecimal of 32 bytes that are a point. */
  lemma KeysAreDecodedExactly(tk: Toolkit, t: Text, key: Bytes)
    requires tk.Lawful()
    ensures DecodeKey(tk, t) == Some(key) <==>
      |key| == 32 && tk.keys.validPoint(key) && NamesKeyBetweenBlanks(tk, t, key)
  {
    hide DecodeKey, NamesKey, Blank, Trim, Space, tk.Lawful;
    TrimmedNamesKey(tk, t, key);
    if NamesKey(tk, Trim(t), key) {
      var a, b := TrimTakesBlanks(t);
    }
    if |key| == 32 && NamesKeyBetweenBlanks(tk, t, key) {
      var a, v, b :| t == a + v + b && Blank(a) && Blank(b) && NamesKey(tk, v, key);
      KeyNamesHaveNoBlankEnds(tk, v, key);
      TrimOf(a, v, b);
    }
  }

  // ----- Scopes -----

  function ParseScope(t: Text): Scope {
    if |t| >= 2 && t[|t| - 2..] == Ascii(".*") then Prefix(t[..|t| - 2]) else Exact(t)
  }

  function ScopeText(scope: Scope): Text {
    match scope
    case Exact(id) => id
    case Prefix(id) => id + Ascii(".*")
  }

  lemma ScopeRoundTrip(t: Text)
    ensures ScopeText(ParseScope(t)) == t
  {
  }

  /** A text is a prefix scope exactly when it ends in ".*", and then for what comes before. */
  lemma PrefixScopesEndInStar(t: Text, id: Text)
    ensures ParseScope(t) == Prefix(id) <==> t == id + Ascii(".*")
    ensures ParseScope(t) == Exact(id) <==> t == id && forall p: Text :: t != p + Ascii(".*")
  {
    assert |Ascii(".*")| == 2;
    forall p: Text ensures t == p + Ascii(".*") <==> |t| >= 2 && t[|t| - 2..] == Ascii(".*") && t[..|t| - 2] == p {
      if |t| >= 2 {
        assert t == t[..|t| - 2] + t[|t| - 2..];
      }
    }
  }

  // ----- Accepting and canonicalising -----

  /** What an accepted input is, said without any order on its capabilities. */
  ghost predicate Accepted(tk: Toolkit, input: IssueInput) {
    && tk.validPackageId(input.packageId)
    && DecodeKey(tk, input.subjectPublicKey).Some?
    && tk.validScopes([ParseScope(input.packageId)])
    && (forall c :: c in input.capabilities ==> tk.validCapability(c))
    && DistinctBy(Self, input.capabilities)
  }

  function Canonical(tk: Toolkit, input: IssueInput): Request
    requires DecodeKey(tk, input.subjectPublicKey).Some?
  {
    Request(TrustMaterial.SignatureAlgorithm(),
            tk.keys.base64(DecodeKey(tk, input.subjectPublicKey).value),
            [input.packageId],
            SortBy(Self, input.capabilities))
  }

  function Parsed(scopes: seq<Text>): seq<Scope> {
    seq(|scopes|, i requires 0 <= i < |scopes| => ParseScope(scopes[i]))
  }

  lemma ParsedIsInjective(a: Text, b: Text)
    requires ParseScope(a) == ParseScope(b)
    ensures a == b
  {
    ScopeRoundTrip(a);
    ScopeRoundTrip(b);
  }

  /** Scopes are repeated after parsing exactly when their texts are. */
  lemma ParsedKeepsDistinct(tk: Toolkit, scopes: seq<Text>)
    requires Injective(tk.scopeKey)
    ensures DistinctBy(tk.scopeKey, Parsed(scopes)) <==> DistinctBy(Self, scopes)
  {
    forall i, j | 0 <= i < j < |scopes|
      ensures tk.scopeKey(Parsed(scopes)[i]) == tk.scopeKey(Parsed(scopes)[j]) <==> scopes[i] == scopes[j]
    {
      if tk.scopeKey(Parsed(scopes)[i]) == tk.scopeKey(Parsed(scopes)[j]) {
        ParsedIsInjective(scopes[i], scopes[j]);
      }
    }
    if DistinctBy(Self, scopes) {
      forall i, j | 0 <= i < j < |scopes| ensures tk.scopeKey(Parsed(scopes)[i]) != tk.scopeKey(Parsed(scopes)[j]) {
        assert Self(scopes[i]) != Self(scopes[j]);
      }
    }
    if DistinctBy(tk.scopeKey, Parsed(scopes)) {
      forall i, j | 0 <= i < j < |scopes| ensures Self(scopes[i]) != Self(scopes[j]) {
        assert tk.scopeKey(Parsed(scopes)[i]) != tk.scopeKey(Parsed(scopes)[j]);
      }
    }
  }

  /** The scopes of a request, sorted, as the certificate format wants them. */
  ghost predicate AcceptableScopes(tk: Toolkit, scopes: seq<Text>) {
    DistinctBy(Self, scopes) && tk.validScopes(SortBy(tk.scopeKey, Parsed(scopes)))
  }

  method ParseScopes(tk: Toolkit, scopes: seq<Text>) returns (r: Result<seq<Scope>, Rejection>)
    ensures r.Ok? ==> r.value == SortBy(tk.scopeKey, Parsed(scopes)) && tk.validScopes(r.value)
    ensures tk.Lawful() || |scopes| == 1 ==> (r.Ok? <==> AcceptableScopes(tk, scopes))
    ensures tk.Lawful() || |scopes| == 1 ==> (r == Err(DuplicateScope) <==> !DistinctBy(Self, scopes))
    ensures |scopes| <= 1 ==> (r.Ok? <==> tk.validScopes(Parsed(scopes)))
    ensures r.Err? ==> r.error.DuplicateScope? || r.error.InvalidScope?
  {
    var parsed := Parsed(scopes);
    if |parsed| <= 1 {
      SortFixesSorted(tk.scopeKey, parsed);
    } else if tk.Lawful() {
      ParsedKeepsDistinct(tk, scopes);
      DuplicatesShow(tk.scopeKey, parsed);
    }
    parsed := SortBy(tk.scopeKey, parsed);
    if !NoNeighboursEqual(parsed) {
      return Err(DuplicateScope);
    }
    if !tk.validScopes(parsed) {
      return Err(InvalidScope);
    }
    r := Ok(parsed);
  }

  /** What every request must meet, whatever the order of its scopes and capabilities. */
  ghost predicate Acceptable(tk: Toolkit, request: Request) {
    && request.signatureAlgorithm == TrustMaterial.SignatureAlgorithm()
    && request.packageIdScopes != [] && AcceptableScopes(tk, request.packageIdScopes)
    && (forall c :: c in request.allowedCapabilities ==> tk.validCapability(c))
    && DistinctBy(Self, request.allowedCapabilities)
    && DecodeKey(tk, request.subjectPublicKey).Some?
  }

  lemma OneScopeIsSorted(tk: Toolkit, scope: Text)
    ensures SortBy(tk.scopeKey, Parsed([scope])) == [ParseScope(scope)]
    ensures AcceptableScopes(tk, [scope]) <==> tk.validScopes([ParseScope(scope)])
  {
    assert Parsed([scope]) == [ParseScope(scope)];
    SortFixesSorted(tk.scopeKey, Parsed([scope]));
  }

  /** A canonicalised input is acceptable as a request. */
  lemma CanonicalIsAcceptable(tk: Toolkit, input: IssueInput)
    requires tk.Lawful() && Accepted(tk, input)
    ensures Acceptable(tk, Canonical(tk, input))
  {
    OneScopeIsSorted(tk, input.packageId);
    Base64Decodes(tk, DecodeKey(tk, input.subjectPublicKey).value);
    SortedStaysDistinct(input.capabilities);
    SortKeepsMembers(Self, input.capabilities);
  }

  method Validate(tk: Toolkit, request: Request) returns (r: Result<Bytes, Rejection>)
    ensures r.Ok? ==> DecodeKey(tk, request.subjectPublicKey) == Some(r.value) && request.packageIdScopes != []
    ensures r.Ok? ==> tk.validScopes(SortBy(tk.scopeKey, Parsed(request.packageIdScopes)))
    ensures tk.Lawful() || |request.packageIdScopes| == 1 ==> (r.Ok? <==> Acceptable(tk, request))
    ensures r.Ok? ==>
      && request.signatureAlgorithm == Ascii("ed25519")
      && (forall c :: c in request.allowedCapabilities ==> tk.validCapability(c))
      && (forall i, j :: 0 <= i < j < |request.allowedCapabilities| ==>
            request.allowedCapabilities[i] != request.allowedCapabilities[j])
    ensures r == Err(UnsupportedAlgorithm) <==> request.signatureAlgorithm != Ascii("ed25519")
    ensures r != Err(InvalidPackageId)
  {
    if request.signatureAlgorithm != TrustMaterial.SignatureAlgorithm() {
      return Err(UnsupportedAlgorithm);
    }
    var scopes :- ParseScopes(tk, request.packageIdScopes);
    if |request.packageIdScopes| == 0 {
      return Err(ScopeMissing);
    }
    var capabilities := request.allowedCapabilities;
    if exists i :: 0 <= i < |capabilities| && !tk.validCapability(capabilities[i]) {
      return Err(InvalidCapability);
    }
    DuplicatesShow(Self, capabilities);
    capabilities := SortBy(Self, capabilities);
    if !NoNeighboursEqual(capabilities) {
      return Err(DuplicateCapability);
    }
    DistinctTextsDiffer(request.allowedCapabilities);
    var key := DecodeKey(tk, request.subjectPublicKey);
    if key.None? {
      return Err(InvalidPublicKey);
    }
    r := Ok(key.value);
  }

  lemma DistinctTextsDiffer(xs: seq<Text>)
    ensures DistinctBy(Self, xs) <==> forall i, j :: 0 <= i < j < |xs| ==> xs[i] != xs[j]
  {
    if DistinctBy(Self, xs) {
      forall i, j | 0 <= i < j < |xs| ensures xs[i] != xs[j] {
        assert Self(xs[i]) != Self(xs[j]);
      }
    }
  }

  lemma SortedStaysDistinct(xs: seq<Text>)
    ensures DistinctBy(Self, SortBy(Self, xs)) <==> DistinctBy(Self, xs)
  {
    DuplicatesShow(Self, xs);
    DuplicatesShow(Self, SortBy(Self, xs));
    SortIsIdempotent(Self, xs);
  }

  /** What is accepted, and what becomes of it, without the words for it. */
  lemma AcceptedMeans(tk: Toolkit, input: IssueInput)
    ensures Accepted(tk, input) <==>
      && tk.validPackageId(input.packageId) && tk.validScopes([ParseScope(input.packageId)])
      && DecodeKey(tk, input.subjectPublicKey).Some?
      && (forall c :: c in input.capabilities ==> tk.validCapability(c))
      && (forall i, j :: 0 <= i < j < |input.capabilities| ==> input.capabilities[i] != input.capabilities[j])
    ensures Accepted(tk, input) ==>
      var request := Canonical(tk, input);
      && request.signatureAlgorithm == Ascii("ed25519") && request.packageIdScopes == [input.packageId]
      && request.subjectPublicKey == tk.keys.base64(DecodeKey(tk, input.subjectPublicKey).value)
      && multiset(request.allowedCapabilities) == multiset(input.capabilities)
      && (forall i, j :: 0 <= i < j < |request.allowedCapabilities| ==>
            Precedes(request.allowedCapabilities[i], request.allowedCapabilities[j]))
  {
    hide DecodeKey, Precedes, ParseScope;
    DistinctTextsDiffer(input.capabilities);
    SortSorts(Self, input.capabilities);
    if Accepted(tk, input) {
      SortedStrictly(input.capabilities);
    }
  }

  lemma SortedStrictly(xs: seq<Text>)
    requires DistinctBy(Self, xs)
    ensures |SortBy(Self, xs)| == |xs|
    ensures forall i, j :: 0 <= i < j < |xs| ==> Precedes(SortBy(Self, xs)[i], SortBy(Self, xs)[j])
  {
    var sorted := SortBy(Self, xs);
    SortSorts(Self, xs);
    DuplicatesShow(Self, xs);
    NeighboursSuffice(Self, sorted);
    forall i, j | 0 <= i < j < |sorted| ensures Precedes(sorted[i], sorted[j]) {
      assert Precedes(Self(sorted[i]), Self(sorted[j]));
    }
  }

  method IntoRequest(tk: Toolkit, input: IssueInput) returns (r: Result<Request, Rejection>)
    requires tk.Lawful()
    ensures r.Ok? <==> Accepted(tk, input)
    ensures r.Ok? ==> r.value == Canonical(tk, input)
    ensures r == Err(InvalidPackageId) <==> !tk.validPackageId(input.packageId)
  {
    hide Accepted, Acceptable, Canonical, DecodeKey, tk.Lawful, SortBy, ParseScope;
    if !tk.validPackageId(input.packageId) {
      AcceptedMeans(tk, input);
      return Err(InvalidPackageId);
    }
    var capabilities := input.capabilities;
    capabilities := SortBy(Self, capabilities);
    var key := DecodeKey(tk, input.subjectPublicKey);
    if key.None? {
      AcceptedMeans(tk, input);
      return Err(InvalidPublicKey);
    }
    var request := Request(TrustMaterial.SignatureAlgorithm(), tk.keys.base64(key.value), [input.packageId],
                           capabilities);
    CanonicalIsAcceptableExactly(tk, input, request);
    var valid :- Validate(tk, request);
    r := Ok(request);
  }

  /** The rest of what is accepted shows in the canonical request. */
  lemma CanonicalIsAcceptableExactly(tk: Toolkit, input: IssueInput, request: Request)
    requires tk.Lawful() && tk.validPackageId(input.packageId) && DecodeKey(tk, input.subjectPublicKey).Some?
    requires request == Request(TrustMaterial.SignatureAlgorithm(),
                                tk.keys.base64(DecodeKey(tk, input.subjectPublicKey).value),
                                [input.packageId], SortBy(Self, input.capabilities))
    ensures request == Canonical(tk, input)
    ensures Acceptable(tk, request) <==> Accepted(tk, input)
  {
    hide DecodeKey, AcceptableScopes;
    KeyIsPoint(tk, input.subjectPublicKey);
    Base64Decodes(tk, DecodeKey(tk, input.subjectPublicKey).value);
    OneScopeIsSorted(tk, input.packageId);
    SortedStaysDistinct(input.capabilities);
    SortKeepsMembers(Self, input.capabilities);
  }

  lemma KeyIsPoint(tk: Toolkit, t: Text)
    ensures DecodeKey(tk, t).Some? ==> |DecodeKey(tk, t).value| == 32 && tk.keys.validPoint(DecodeKey(tk, t).value)
  {
  }

  /** Canonicalising a canonical request again changes nothing. */
  lemma CanonicalIsIdempotent(tk: Toolkit, input: IssueInput)
    requires tk.Lawful() && Accepted(tk, input)
    ensures var request := Canonical(tk, input);
      var again := IssueInput(request.subjectPublicKey, request.packageIdScopes[0], request.allowedCapabilities);
      Accepted(tk, again) && Canonical(tk, again) == request
  {
    Base64Decodes(tk, DecodeKey(tk, input.subjectPublicKey).value);
    SortedStaysDistinct(input.capabilities);
    SortKeepsMembers(Self, input.capabilities);
    SortIsIdempotent(Self, input.capabilities);
  }

  // ----- The request hash -----

  /** `certificate_request_hash`: key re-encoded, scopes parsed and written back, sorted. */
  function RequestHash(tk: Toolkit, developerId: Text, request: Request): Text
    requires DecodeKey(tk, request.subjectPublicKey).Some?
  {
    var scopes := SortBy(tk.scopeKey, Parsed(request.packageIdScopes));
    HexText(tk.sha256(tk.json(HashedContent(
      developerId,
      tk.keys.base64(DecodeKey(tk, request.subjectPublicKey).value),
      seq(|scopes|, i requires 0 <= i < |scopes| => ScopeText(scopes[i])),
      SortBy(Self, request.allowedCapabilities)))))
  }

  lemma HashOfCanonical(tk: Toolkit, developerId: Text, input: IssueInput)
    requires tk.Lawful() && Accepted(tk, input)
    ensures DecodeKey(tk, Canonical(tk, input).subjectPublicKey) == DecodeKey(tk, input.subjectPublicKey)
    ensures RequestHash(tk, developerId, Canonical(tk, input))
         == HexText(tk.sha256(tk.json(HashedContent(
              developerId, Canonical(tk, input).subjectPublicKey, [input.packageId],
              SortBy(Self, input.capabilities)))))
  {
    var request := Canonical(tk, input);
    Base64Decodes(tk, DecodeKey(tk, input.subjectPublicKey).value);
    SortIsIdempotent(Self, input.capabilities);
    ScopeRoundTrip(input.packageId);
    var scopes := SortBy(tk.scopeKey, Parsed(request.packageIdScopes));
    SortFixesSorted(tk.scopeKey, Parsed(request.packageIdScopes));
    assert scopes == [ParseScope(input.packageId)];
    assert seq(|scopes|, i requires 0 <= i < |scopes| => ScopeText(scopes[i])) == [input.packageId];
  }

  lemma HashIsInjective(tk: Toolkit, a: HashedContent, b: HashedContent)
    requires tk.Lawful()
    requires HexText(tk.sha256(tk.json(a))) == HexText(tk.sha256(tk.json(b)))
    ensures a == b
  {
    HexRoundTrip(tk.sha256(tk.json(a)));
    HexRoundTrip(tk.sha256(tk.json(b)));
  }

  /** Two accepted inputs share a hash exactly when they are of one developer and ask for the
      same key, package and set of capabilities. */
  lemma SameHashMeansSameRequest(tk: Toolkit, developerA: Text, developerB: Text, a: IssueInput, b: IssueInput)
    requires tk.Lawful() && Accepted(tk, a) && Accepted(tk, b)
    ensures DecodeKey(tk, Canonical(tk, a).subjectPublicKey).Some?
    ensures DecodeKey(tk, Canonical(tk, b).subjectPublicKey).Some?
    ensures RequestHash(tk, developerA, Canonical(tk, a)) == RequestHash(tk, developerB, Canonical(tk, b))
      <==>
      && developerA == developerB
      && DecodeKey(tk, a.subjectPublicKey) == DecodeKey(tk, b.subjectPublicKey)
      && a.packageId == b.packageId
      && (forall c :: c in a.capabilities <==> c in b.capabilities)
  {
    HashOfCanonical(tk, developerA, a);
    HashOfCanonical(tk, developerB, b);
    var ka, kb := Canonical(tk, a).subjectPublicKey, Canonical(tk, b).subjectPublicKey;
    var sa, sb := SortBy(Self, a.capabilities), SortBy(Self, b.capabilities);
    if RequestHash(tk, developerA, Canonical(tk, a)) == RequestHash(tk, developerB, Canonical(tk, b)) {
      HashIsInjective(tk, HashedContent(developerA, ka, [a.packageId], sa),
                      HashedContent(developerB, kb, [b.packageId], sb));
      SortKeepsMembers(Self, a.capabilities);
      SortKeepsMembers(Self, b.capabilities);
      assert [a.packageId][0] == [b.packageId][0];
      forall c ensures c in a.capabilities <==> c in b.capabilities {
        assert c in sa <==> c in sb;
      }
    } else if DecodeKey(tk, a.subjectPublicKey) == DecodeKey(tk, b.subjectPublicKey)
              && a.packageId == b.packageId && forall c :: c in a.capabilities <==> c in b.capabilities {
      SortDependsOnMembers(Self, a.capabilities, b.capabilities);
    }
  }
}
