/** Delegation tokens of the console: `mca1.<payload>.<signature>`. Models
    crates/auth-token/src/lib.rs. JSON and the URL-safe base64 alphabet are parameters. */
module DelegationToken {
  import opened Prelude
  import opened Cryptography
  import opened Wire

  const MAX_TOKEN_BYTES: nat := 4096
  const MAX_PAYLOAD_BYTES: nat := 2048
  const MAX_TOKEN_LIFETIME_SECONDS: nat := 900
  const EARLY_SECONDS: nat := 30
  const DOT: byte := 46

  function TokenDomain(): Text { Ascii("mochios-developer-ca-delegation-v1\0") }

  function TokenPrefix(): Text { Ascii("mca1") }

  datatype Claims = Claims(
    iss: Text, sub: Text, aud: Text, iat: nat, exp: nat, jti: Text, role: Text,
    act: Option<Text>, clientId: Option<Text>, scope: Option<Text>, sessionId: Option<Text>)

  datatype TokenError =
    | TooLarge
    | Format
    | InvalidSignature
    | InvalidClaims
    | NotYetValid
    | Expired
    | LifetimeTooLong

  datatype Codec = Codec(
    keys: Primitives,
    toJson: Claims -> Bytes,
    fromJson: Bytes -> Option<Claims>,
    base64url: Bytes -> Text,
    unbase64url: Text -> Option<Bytes>)
  {
    /** JSON and base64 round trip, and the URL-safe alphabet has no dot. */
    ghost predicate Lawful() {
      && keys.Lawful()
      && (forall c :: fromJson(toJson(c)) == Some(c))
      && (forall b :: unbase64url(base64url(b)) == Some(b))
      && (forall b :: DOT !in base64url(b))
    }
  }

  // ----- Claims -----

  predicate TextByte(b: byte) {
    48 <= b <= 57 || 65 <= b <= 90 || 97 <= b <= 122 || b == 46 || b == 45 || b == 95 || b == 58 || b == 47
  }

  predicate ValidText(t: Text, maximum: nat) {
    0 < |t| <= maximum && forall i :: 0 <= i < |t| ==> TextByte(t[i])
  }

  predicate ValidAccountId(t: Text) {
    |t| == 36 && forall i :: 0 <= i < |t| ==>
      48 <= t[i] <= 57 || 65 <= t[i] <= 70 || 97 <= t[i] <= 102 || t[i] == 45
  }

  predicate WellFormed(c: Claims) {
    && ValidText(c.iss, 255) && ValidAccountId(c.sub) && ValidText(c.aud, 64)
    && ValidText(c.jti, 128) && ValidText(c.role, 64)
    && (c.act.Some? ==> ValidText(c.act.value, 128))
    && (c.clientId.Some? ==> ValidText(c.clientId.value, 64))
    && (c.scope.Some? ==> 0 < |c.scope.value| <= 512)
    && (c.sessionId.Some? ==> ValidText(c.sessionId.value, 128))
    && c.iat < c.exp
  }

  function ClaimsError(c: Claims, now: nat): Option<TokenError> {
    if !WellFormed(c) then Some(InvalidClaims)
    else if c.exp - c.iat > MAX_TOKEN_LIFETIME_SECONDS then Some(LifetimeTooLong)
    else if c.iat > now + EARLY_SECONDS then Some(NotYetValid)
    else if c.exp <= now then Some(Expired)
    else None
  }

  // ----- The signed message -----

  function EncodePayload(payload: Bytes): Bytes {
    TokenDomain() + PutU32(|payload|) + payload
  }

  function DecodePayload(b: Bytes): Option<Bytes> {
    if !(TokenDomain() <= b) then None
    else
      var (payload, rest) :- GetText(b[|TokenDomain()|..]);
      if rest == [] then Some(payload) else None
  }

  lemma PayloadRoundTrip(payload: Bytes)
    requires IsU32(|payload|)
    ensures DecodePayload(EncodePayload(payload)) == Some(payload)
  {
    Reassociate(TokenDomain(), PutU32(|payload|), payload);
    ReadsText(payload, []);
    assert PutText(payload) + [] == PutText(payload);
    assert (TokenDomain() + PutText(payload))[|TokenDomain()|..] == PutText(payload);
  }

  method SigningMessage(payload: Bytes) returns (r: Result<Bytes, TokenError>)
    ensures r == if IsU32(|payload|) then Ok(EncodePayload(payload)) else Err(TooLarge)
    ensures r.Ok? ==> DecodePayload(r.value) == Some(payload)
  {
    if !IsU32(|payload|) {
      return Err(TooLarge);
    }
    var message := TokenDomain();
    message := message + PutU32(|payload|);
    message := message + payload;
    PayloadRoundTrip(payload);
    r := Ok(message);
  }

  // ----- The text form -----

  function Split(t: Text): (parts: seq<Text>)
    ensures parts != []
  {
    if t == [] then [[]]
    else if t[0] == DOT then [[]] + Split(t[1..])
    else
      var rest := Split(t[1..]);
      [[t[0]] + rest[0]] + rest[1..]
  }

  lemma {:induction false} SplitPlain(t: Text)
    requires DOT !in t
    ensures Split(t) == [t]
  {
    if t != [] {
      SplitPlain(t[1..]);
      assert [t[0]] + t[1..] == t;
    }
  }

  lemma {:induction false} SplitAtDot(t: Text, rest: Text)
    requires DOT !in t
    ensures Split(t + [DOT] + rest) == [t] + Split(rest)
  {
    if t == [] {
      assert (t + [DOT] + rest)[1..] == rest;
    } else {
      SplitAtDot(t[1..], rest);
      assert (t + [DOT] + rest)[1..] == t[1..] + [DOT] + rest;
      assert [t[0]] + t[1..] == t;
      assert ([t[1..]] + Split(rest))[1..] == Split(rest);
    }
  }

  function Render(x: Codec, payload: Bytes, signature: Bytes): Text {
    TokenPrefix() + [DOT] + (x.base64url(payload) + [DOT] + x.base64url(signature))
  }

  lemma PrefixIsPlain()
    ensures DOT !in TokenPrefix()
  {
  }

  lemma SplitRendered(x: Codec, payload: Bytes, signature: Bytes)
    requires x.Lawful()
    ensures Split(Render(x, payload, signature)) == [TokenPrefix(), x.base64url(payload), x.base64url(signature)]
  {
    var first, second := x.base64url(payload), x.base64url(signature);
    PrefixIsPlain();
    SplitPlain(second);
    SplitAtDot(first, second);
    SplitAtDot(TokenPrefix(), first + [DOT] + second);
  }

  // ----- Issuing and verifying -----

  predicate Issuable(x: Codec, c: Claims, seed: Bytes) {
    var payload := x.toJson(c);
    && ClaimsError(c, c.iat).None?
    && |payload| <= MAX_PAYLOAD_BYTES
    && |Render(x, payload, x.keys.sign(seed, EncodePayload(payload)))| <= MAX_TOKEN_BYTES
  }

  method Issue(x: Codec, c: Claims, seed: Bytes) returns (r: Result<Text, TokenError>)
    ensures r.Ok? <==> Issuable(x, c, seed)
    ensures r.Ok? ==> r.value == Render(x, x.toJson(c), x.keys.sign(seed, EncodePayload(x.toJson(c))))
    ensures r.Err? && ClaimsError(c, c.iat).None? ==> r.error == TooLarge
    ensures r.Ok? ==> Presentable(c) && c.iat < c.exp <= c.iat + 900
    ensures r == Err(LifetimeTooLong) <==> Presentable(c) && c.iat + 900 < c.exp
  {
    hide Presentable;
    ClaimsAreJudgedExactly(c, c.iat);
    var invalid := ClaimsError(c, c.iat);
    if invalid.Some? {
      return Err(invalid.value);
    }
    var payload := x.toJson(c);
    if |payload| > MAX_PAYLOAD_BYTES {
      return Err(TooLarge);
    }
    var message := SigningMessage(payload);
    var signature := x.keys.sign(seed, message.value);
    var token := Render(x, payload, signature);
    if |token| > MAX_TOKEN_BYTES {
      return Err(TooLarge);
    }
    r := Ok(token);
  }

  /** A token carries `payload` under a signature of `key`. */
  predicate Carries(x: Codec, token: Text, key: Bytes, payload: Bytes) {
    var parts := Split(token);
    && 0 < |token| <= MAX_TOKEN_BYTES
    && |parts| == 3 && parts[0] == TokenPrefix()
    && x.unbase64url(parts[1]) == Some(payload)
    && |payload| <= MAX_PAYLOAD_BYTES
    && x.unbase64url(parts[2]).Some?
    && x.keys.validPoint(key)
    && x.keys.checks(key, EncodePayload(payload), x.unbase64url(parts[2]).value)
  }

  /** What `verify` accepts, and the claims it answers. */
  ghost predicate Accepts(x: Codec, token: Text, key: Bytes, now: nat, claims: Claims) {
    exists payload ::
      Carries(x, token, key, payload) && x.fromJson(payload) == Some(claims) && ClaimsError(claims, now).None?
  }

  method Verify(x: Codec, token: Text, key: Bytes, now: nat) returns (r: Result<Claims, TokenError>)
    ensures r.Ok? ==> Accepts(x, token, key, now, r.value)
    ensures forall claims :: Accepts(x, token, key, now, claims) ==> r == Ok(claims)
    ensures r.Ok? ==>
      && Presentable(r.value) && r.value.iat < r.value.exp <= r.value.iat + 900
      && r.value.iat <= now + 30 && now < r.value.exp
    ensures r == Err(TooLarge) <==> !(1 <= |token| <= 4096)
    ensures r == Err(LifetimeTooLong) || r == Err(NotYetValid) || r == Err(Expired) ==>
      exists payload :: Carries(x, token, key, payload) && x.fromJson(payload).Some?
        && ClaimsError(x.fromJson(payload).value, now) == Some(r.error)
  {
    if token == [] || |token| > MAX_TOKEN_BYTES {
      return Err(TooLarge);
    }
    var parts := Split(token);
    var next := 0;
    if parts[next] != TokenPrefix() {
      return Err(Format);
    }
    next := next + 1;
    if next == |parts| {
      return Err(Format);
    }
    var payload := x.unbase64url(parts[next]);
    if payload.None? {
      return Err(Format);
    }
    next := next + 1;
    if next == |parts| {
      return Err(Format);
    }
    var signature := x.unbase64url(parts[next]);
    if signature.None? {
      return Err(Format);
    }
    next := next + 1;
    if next < |parts| || |payload.value| > MAX_PAYLOAD_BYTES {
      return Err(Format);
    }
    if !x.keys.validPoint(key) {
      return Err(InvalidSignature);
    }
    var message := SigningMessage(payload.value);
    if !x.keys.checks(key, message.value, signature.value) {
      return Err(InvalidSignature);
    }
    var claims := x.fromJson(payload.value);
    if claims.None? {
      return Err(InvalidClaims);
    }
    assert Carries(x, token, key, payload.value);
    ClaimsAreJudgedExactly(claims.value, now);
    var invalid := ClaimsError(claims.value, now);
    if invalid.Some? {
      return Err(invalid.value);
    }
    r := Ok(claims.value);
  }

  /** An issued token answers exactly its own claims, and only from 30 s before it was
      issued until it expires. */
  lemma IssuedTokenAnswersItsClaims(x: Codec, c: Claims, seed: Bytes, now: nat, answer: Claims)
    requires x.Lawful() && Issuable(x, c, seed)
    ensures var token := Render(x, x.toJson(c), x.keys.sign(seed, EncodePayload(x.toJson(c))));
      Accepts(x, token, x.keys.publicKey(seed), now, answer)
      <==> answer == c && c.iat <= now + EARLY_SECONDS && now < c.exp
  {
    var payload := x.toJson(c);
    var signature := x.keys.sign(seed, EncodePayload(payload));
    var token := Render(x, payload, signature);
    var key := x.keys.publicKey(seed);
    SplitRendered(x, payload, signature);
    assert x.keys.checks(key, EncodePayload(payload), signature);
    assert Carries(x, token, key, payload);
    if Accepts(x, token, key, now, answer) {
      var other :| Carries(x, token, key, other) && x.fromJson(other) == Some(answer);
      assert other == payload;
    }
  }

  /** A signature taken from an issued token carries no other payload. */
  lemma SignatureBindsPayload(x: Codec, payload: Bytes, seed: Bytes, token: Text, other: Bytes)
    requires x.Lawful() && |payload| <= MAX_PAYLOAD_BYTES
    requires Carries(x, token, x.keys.publicKey(seed), other)
    requires x.unbase64url(Split(token)[2]).value == x.keys.sign(seed, EncodePayload(payload))
    ensures other == payload
  {
    var key := x.keys.publicKey(seed);
    assert x.keys.checks(key, EncodePayload(payload), x.keys.sign(seed, EncodePayload(payload)));
    assert EncodePayload(other) == EncodePayload(payload);
    PayloadRoundTrip(payload);
    PayloadRoundTrip(other);
  }

  // ----- What is accepted, said of the texts and the bytes -----

  predicate Plain(t: Text, most: nat) {
    && 1 <= |t| <= most
    && forall i :: 0 <= i < |t| ==>
         || 'a' as int <= t[i] <= 'z' as int || 'A' as int <= t[i] <= 'Z' as int || '0' as int <= t[i] <= '9' as int
         || t[i] in Ascii(".-_:/")
  }

  /** No text is empty, too long, or has a character outside its alphabet. */
  predicate Presentable(c: Claims) {
    && Plain(c.iss, 255) && Plain(c.aud, 64) && Plain(c.jti, 128) && Plain(c.role, 64)
    && |c.sub| == 36
    && (forall i :: 0 <= i < 36 ==>
          || 'a' as int <= c.sub[i] <= 'f' as int || 'A' as int <= c.sub[i] <= 'F' as int
          || '0' as int <= c.sub[i] <= '9' as int || c.sub[i] == '-' as int)
    && (c.act.None? || Plain(c.act.value, 128))
    && (c.clientId.None? || Plain(c.clientId.value, 64))
    && (c.scope.None? || 1 <= |c.scope.value| <= 512)
    && (c.sessionId.None? || Plain(c.sessionId.value, 128))
  }

  lemma PlainIsValid(t: Text, most: nat)
    ensures Plain(t, most) <==> ValidText(t, most)
  {
    var marks := Ascii(".-_:/");
    assert |marks| == 5 && marks[0] == 46 && marks[1] == 45 && marks[2] == 95 && marks[3] == 58 && marks[4] == 47;
    forall i | 0 <= i < |t|
      ensures t[i] in marks <==> t[i] == 46 || t[i] == 45 || t[i] == 95 || t[i] == 58 || t[i] == 47
    {
      assert marks[0] in marks && marks[1] in marks && marks[2] in marks && marks[3] in marks && marks[4] in marks;
    }
  }

  lemma PresentableIsWellFormed(c: Claims)
    ensures WellFormed(c) <==> Presentable(c) && c.iat < c.exp
  {
    hide Plain, ValidText;
    PlainIsValid(c.iss, 255);
    PlainIsValid(c.aud, 64);
    PlainIsValid(c.jti, 128);
    PlainIsValid(c.role, 64);
    if c.act.Some? {
      PlainIsValid(c.act.value, 128);
    }
    if c.clientId.Some? {
      PlainIsValid(c.clientId.value, 64);
    }
    if c.sessionId.Some? {
      PlainIsValid(c.sessionId.value, 128);
    }
  }

  /** Claims are good for at most 900 s, from 30 s before their issue until their expiry, and
      each of the four refusals is given exactly when it is due. */
  lemma ClaimsAreJudgedExactly(c: Claims, now: nat)
    ensures ClaimsError(c, now).None? <==>
      Presentable(c) && c.iat < c.exp <= c.iat + 900 && c.iat <= now + 30 && now < c.exp
    ensures ClaimsError(c, now) == Some(InvalidClaims) <==> !Presentable(c) || c.exp <= c.iat
    ensures ClaimsError(c, now) == Some(LifetimeTooLong) <==> Presentable(c) && c.iat + 900 < c.exp
    ensures ClaimsError(c, now) == Some(NotYetValid) <==>
      Presentable(c) && c.iat < c.exp <= c.iat + 900 && now + 30 < c.iat
    ensures ClaimsError(c, now) == Some(Expired) <==>
      Presentable(c) && c.iat < c.exp <= c.iat + 900 && c.iat <= now + 30 && c.exp <= now
  {
    hide Presentable, WellFormed;
    PresentableIsWellFormed(c);
  }

  function Join(parts: seq<Text>): Text
    requires parts != []
  {
    if |parts| == 1 then parts[0] else parts[0] + [DOT] + Join(parts[1..])
  }

  lemma {:induction false} SplitIsExact(t: Text)
    ensures Join(Split(t)) == t
    ensures forall i :: 0 <= i < |Split(t)| ==> DOT !in Split(t)[i]
  {
    if t != [] {
      SplitIsExact(t[1..]);
      var rest := Split(t[1..]);
      assert [t[0]] + t[1..] == t;
      if t[0] == DOT {
        assert ([[]] + rest)[1..] == rest;
      } else {
        assert ([[t[0]] + rest[0]] + rest[1..])[1..] == rest[1..];
      }
    }
  }

  /** The bytes under a token's signature. */
  function Signed(payload: Bytes): Bytes {
    Ascii("mochios-developer-ca-delegation-v1\0") + FourDigits(|payload|) + payload
  }

  /** The token is "mca1.", two texts without a dot, and a dot between them: a payload and its
      signature. */
  ghost predicate Spells(x: Codec, token: Text, key: Bytes, claims: Claims, first: Text, second: Text) {
    && token == Ascii("mca1.") + first + [DOT] + second && DOT !in first && DOT !in second && |token| <= 4096
    && x.unbase64url(first).Some? && |x.unbase64url(first).value| <= 2048
    && x.unbase64url(second).Some? && x.keys.validPoint(key)
    && x.keys.checks(key, Signed(x.unbase64url(first).value), x.unbase64url(second).value)
    && x.fromJson(x.unbase64url(first).value) == Some(claims)
  }

  lemma SpelledIsSplit(token: Text, first: Text, second: Text)
    requires DOT !in first && DOT !in second
    ensures token == Ascii("mca1.") + first + [DOT] + second <==> Split(token) == [Ascii("mca1"), first, second]
  {
    var prefix, rest := Ascii("mca1"), first + [DOT] + second;
    assert Ascii("mca1.") == prefix + [DOT];
    assert prefix + [DOT] + first + [DOT] + second == prefix + [DOT] + rest;
    if token == prefix + [DOT] + rest {
      PrefixIsPlain();
      SplitPlain(second);
      SplitAtDot(first, second);
      SplitAtDot(prefix, rest);
    }
    if Split(token) == [prefix, first, second] {
      SplitIsExact(token);
      assert Split(token)[1..] == [first, second] && [first, second][1..] == [second];
      assert Join([second]) == second && Join([first, second]) == first + [DOT] + second;
    }
  }

  lemma CarriedIsSpelled(x: Codec, token: Text, key: Bytes, claims: Claims, payload: Bytes)
    returns (first: Text, second: Text)
    requires Carries(x, token, key, payload) && x.fromJson(payload) == Some(claims)
    ensures Spells(x, token, key, claims, first, second)
  {
    var parts := Split(token);
    first, second := parts[1], parts[2];
    SplitIsExact(token);
    assert parts == [Ascii("mca1"), first, second];
    SpelledIsSplit(token, first, second);
    U32IsLittleEndian(|payload|);
  }

  lemma SpelledIsCarried(x: Codec, token: Text, key: Bytes, claims: Claims, first: Text, second: Text)
    returns (payload: Bytes)
    requires Spells(x, token, key, claims, first, second)
    ensures Carries(x, token, key, payload) && x.fromJson(payload) == Some(claims)
  {
    payload := x.unbase64url(first).value;
    SpelledIsSplit(token, first, second);
    U32IsLittleEndian(|payload|);
  }

  /** A token answers its claims exactly when its three parts, its bytes and its claims are in
      order. */
  lemma TokensAreAcceptedExactly(x: Codec, token: Text, key: Bytes, now: nat, claims: Claims)
    ensures Accepts(x, token, key, now, claims) <==>
      && (exists first, second :: Spells(x, token, key, claims, first, second))
      && Presentable(claims) && claims.iat < claims.exp <= claims.iat + 900
      && claims.iat <= now + 30 && now < claims.exp
  {
    hide Carries, Spells, Presentable, ClaimsError;
    ClaimsAreJudgedExactly(claims, now);
    if Accepts(x, token, key, now, claims) {
      var payload :| Carries(x, token, key, payload) && x.fromJson(payload) == Some(claims)
        && ClaimsError(claims, now).None?;
      var first, second := CarriedIsSpelled(x, token, key, claims, payload);
    }
    if ClaimsError(claims, now).None? && exists first, second :: Spells(x, token, key, claims, first, second) {
      var first, second :| Spells(x, token, key, claims, first, second);
      var payload := SpelledIsCarried(x, token, key, claims, first, second);
      assert Accepts(x, token, key, now, claims);
    }
  }

  /** Whatever its claims say, no token is accepted at two times 930 s apart or more. */
  lemma TokensLiveBriefly(x: Codec, token: Text, key: Bytes, now: nat, later: nat, claims: Claims, again: Claims)
    requires Accepts(x, token, key, now, claims) && Accepts(x, token, key, later, again)
    ensures claims == again && later < now + 930
  {
    hide Carries, Presentable;
    TokensAreAcceptedExactly(x, token, key, now, claims);
    TokensAreAcceptedExactly(x, token, key, later, again);
    var p :| Carries(x, token, key, p) && x.fromJson(p) == Some(claims);
    var q :| Carries(x, token, key, q) && x.fromJson(q) == Some(again);
    assert p == q by {
      OnePayload(x, token, key, p, q);
    }
  }

  lemma OnePayload(x: Codec, token: Text, key: Bytes, p: Bytes, q: Bytes)
    requires Carries(x, token, key, p) && Carries(x, token, key, q)
    ensures p == q
  {
  }
}
