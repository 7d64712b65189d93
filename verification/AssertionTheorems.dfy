/** What signing accepts, and that verification gives the signed claims back. */
module AssertionTheorems {
  import opened Wrappers
  import opened GoText
  import opened GoStrings
  import opened Sequences
  import opened Utf8
  import opened Fingerprint
  import opened Base64
  import opened GoJson
  import opened Jcs
  import opened JcsTrailing
  import opened JcsRoundTrip
  import opened Assertion
  import Path
  import PathTheorems

  // ---- the window ----

  predicate InRange(c: Claims) {
    INT64_MIN <= c.issuedAt <= INT64_MAX && INT64_MIN <= c.expiresAt <= INT64_MAX
  }

  /** Truncating both ends to seconds keeps a window of at most a minute within a minute, and keeps it
      nonempty exactly when it reaches the next whole second. */
  lemma WindowInSeconds(now: int, ttl: int)
    requires 0 < ttl <= DEFAULT_TTL
    ensures var width := UnixSeconds(now + ttl) - UnixSeconds(now);
            && 0 <= width <= 60
            && (width >= 1 <==> now % SECOND + ttl >= SECOND)
  {
    var s, f := now / SECOND, now % SECOND;
    assert now == s * SECOND + f;
    var q := (f + ttl) / SECOND;
    assert (f + ttl) == q * SECOND + (f + ttl) % SECOND;
    assert now + ttl == (s + q) * SECOND + (f + ttl) % SECOND;
  }

  function Lifetime(input: Input): int {
    if input.ttl == 0 then DEFAULT_TTL else input.ttl
  }

  function IssueTime(input: Input, clock: Instant): Instant {
    match input.issuedAt case Some(t) => t case None => clock
  }

  /** The claims are made exactly for lifetimes of at most a minute that reach the next whole second
      after the issue time, as every lifetime of a second or more does; the claimed window is then one
      to sixty seconds, whatever the sub-second part. */
  lemma LifetimesAccepted(input: Input, fingerprint: Bytes, clock: Instant, nonce: Bytes)
    ensures var ttl := Lifetime(input);
            var claims := MakeClaims(input, fingerprint, clock, nonce);
            && (claims.Ok? <==> 0 < ttl <= DEFAULT_TTL && IssueTime(input, clock) % SECOND + ttl >= SECOND)
            && (SECOND <= ttl <= DEFAULT_TTL ==> claims.Ok?)
            && (claims.Ok? ==> 1 <= claims.value.expiresAt - claims.value.issuedAt <= 60 && InRange(claims.value))
  {
    if 0 < Lifetime(input) <= DEFAULT_TTL {
      WindowInSeconds(IssueTime(input, clock), Lifetime(input));
    }
  }

  // ---- canonical structs ----

  lemma CanonicalTextIsComplete(v: Value)
    requires Readable(v)
    ensures Decode(Encode(Text(v))) == Some(Text(v)) && Complete(Text(v))
  {
    DecodeEncode(Text(v));
    ParseText(v, "");
    assert Text(v) + "" == Text(v);
  }

  /** The object a marshalled struct reads as. */
  function ObjectOf(fields: seq<GoField>): map<string, Value> {
    Gather(Marshalled(fields), ReadValues(fields), map[])
  }

  predicate Holds(m: map<string, Value>, f: GoField) {
    f.name in m && m[f.name] == ValueRead(f.value)
  }

  lemma ObjectHolds(fields: seq<GoField>)
    requires WellFormed(fields)
    ensures var m := ObjectOf(fields);
            && (forall i | 0 <= i < |fields| :: Holds(m, fields[i]))
            && (forall k | k in m :: exists i :: 0 <= i < |fields| && fields[i].name == k)
  {
    var names, values := Marshalled(fields), ReadValues(fields);
    GatherHolds(names, values, map[]);
    forall i | 0 <= i < |fields|
      ensures Holds(ObjectOf(fields), fields[i])
    {
      assert names[i].name == fields[i].name && values[i] == ValueRead(fields[i].value);
    }
    forall k | k in ObjectOf(fields)
      ensures exists i :: 0 <= i < |fields| && fields[i].name == k
    {
      var i :| 0 <= i < |names| && names[i].name == k;
      assert fields[i].name == k;
    }
  }

  lemma ObjectKeysAllowed(fields: seq<GoField>)
    requires WellFormed(fields)
    ensures KeysAllowed(Obj(ObjectOf(fields)))
  {
    ObjectHolds(fields);
    forall k | k in ObjectOf(fields)
      ensures KeyAllowed(k) && KeysAllowed(ObjectOf(fields)[k])
    {
      var i :| 0 <= i < |fields| && fields[i].name == k;
      assert PlainName(fields[i].name) && Holds(ObjectOf(fields), fields[i]);
    }
  }

  /** canonicalJSON of a struct never fails, and what it returns reads back as the struct's fields. */
  lemma StructIsCanonicalized(fields: seq<GoField>)
    requires fields != [] && WellFormed(fields)
    ensures CanonicalJSON(fields).Ok?
    ensures ReadObject(CanonicalJSON(fields).value) == Some(ObjectOf(fields))
  {
    var text, v := StructText(Marshalled(fields)), Obj(ObjectOf(fields));
    MarshalledReads(fields);
    StructReads(Marshalled(fields), ReadValues(fields));
    ReadsCanonically(text, v);
    ObjectKeysAllowed(fields);
    ReadIsReadable(Encode(text));
    ReadBack(v);
    CanonicalTextIsComplete(v);
  }

  // ---- the claims and the header as JSON ----

  lemma ClaimNames(c: Claims)
    ensures |ClaimsStruct(c)| == |CLAIM_NAMES|
    ensures forall i | 0 <= i < |CLAIM_NAMES| :: ClaimsStruct(c)[i].name == CLAIM_NAMES[i] && PlainName(CLAIM_NAMES[i])
    ensures forall i, j | 0 <= i < j < |CLAIM_NAMES| :: CLAIM_NAMES[i] != CLAIM_NAMES[j]
  {
  }

  lemma ClaimsWellFormed(c: Claims)
    requires InRange(c)
    ensures WellFormed(ClaimsStruct(c))
  {
    ClaimNames(c);
  }

  /** The claims after their strings have passed through JSON: malformed bytes become U+FFFD. */
  function Sanitized(c: Claims): Claims {
    Claims(Sanitize(c.issuer), Sanitize(c.subject), Sanitize(c.audience), Sanitize(c.tenantID),
           Sanitize(c.sessionID), Sanitize(c.operation), Sanitize(c.requestFingerprint),
           c.issuedAt, c.expiresAt, Sanitize(c.nonce))
  }

  predicate HoldsString(m: map<string, Value>, name: string, b: Bytes) {
    name in m && m[name] == Str(Runes(b))
  }

  predicate HoldsInt(m: map<string, Value>, name: string, n: int) {
    name in m && m[name] == Num(FormatInt(n))
  }

  predicate HoldsClaims(m: map<string, Value>, c: Claims) {
    && HoldsString(m, "iss", c.issuer) && HoldsString(m, "sub", c.subject) && HoldsString(m, "aud", c.audience)
    && HoldsString(m, "tenant_id", c.tenantID) && HoldsString(m, "session_id", c.sessionID)
    && HoldsString(m, "operation", c.operation) && HoldsString(m, "request_fingerprint", c.requestFingerprint)
    && HoldsInt(m, "iat", c.issuedAt) && HoldsInt(m, "exp", c.expiresAt) && HoldsString(m, "nonce", c.nonce)
  }

  lemma ClaimsHeld(m: map<string, Value>, c: Claims)
    requires forall i | 0 <= i < 10 :: Holds(m, ClaimsStruct(c)[i])
    ensures HoldsClaims(m, c)
  {
    var fields := ClaimsStruct(c);
    assert Holds(m, fields[0]) && Holds(m, fields[1]) && Holds(m, fields[2]) && Holds(m, fields[3]);
    assert Holds(m, fields[4]) && Holds(m, fields[5]) && Holds(m, fields[6]) && Holds(m, fields[7]);
    assert Holds(m, fields[8]) && Holds(m, fields[9]);
  }

  lemma ClaimsObjectHolds(c: Claims)
    requires InRange(c)
    ensures HoldsClaims(ObjectOf(ClaimsStruct(c)), c)
    ensures forall k | k in ObjectOf(ClaimsStruct(c)) :: k in CLAIM_NAMES
  {
    ClaimsWellFormed(c);
    ClaimNames(c);
    ObjectHolds(ClaimsStruct(c));
    ClaimsHeld(ObjectOf(ClaimsStruct(c)), c);
  }

  lemma StringFieldHeld(m: map<string, Value>, name: string, b: Bytes)
    requires HoldsString(m, name, b)
    ensures StringField(m, name) == Some(Sanitize(b))
  {
  }

  lemma IntFieldHeld(m: map<string, Value>, name: string, n: int)
    requires HoldsInt(m, name, n) && INT64_MIN <= n <= INT64_MAX
    ensures IntField(m, name) == Some(n)
  {
    ParseFormatInt(n);
  }

  lemma ClaimsUnmarshal(m: map<string, Value>, c: Claims)
    requires InRange(c) && HoldsClaims(m, c)
    ensures UnmarshalClaims(m) == Some(Sanitized(c))
  {
    StringFieldHeld(m, "iss", c.issuer);
    StringFieldHeld(m, "sub", c.subject);
    StringFieldHeld(m, "aud", c.audience);
    StringFieldHeld(m, "tenant_id", c.tenantID);
    StringFieldHeld(m, "session_id", c.sessionID);
    StringFieldHeld(m, "operation", c.operation);
    StringFieldHeld(m, "request_fingerprint", c.requestFingerprint);
    IntFieldHeld(m, "iat", c.issuedAt);
    IntFieldHeld(m, "exp", c.expiresAt);
    StringFieldHeld(m, "nonce", c.nonce);
  }

  // ---- strings JSON leaves alone ----

  lemma SanitizeAscii(b: Bytes)
    requires IsAscii(b)
    ensures Sanitize(b) == b && Valid(b)
  {
    EncodeAscii(b);
    DecodeEncode(b);
    SanitizeKeepsValid(b);
  }

  lemma SanitizeEncoded(b: Bytes)
    ensures Sanitize(Encode64(b)) == Encode64(b)
  {
    Base64RoundTrip(b);
    SanitizeAscii(Encode64(b));
  }

  lemma SanitizeEmpty(b: Bytes)
    ensures Sanitize(b) == "" <==> b == ""
  {
  }

  lemma GatewayOperationsAreAscii(upper: Bytes, path: string)
    requires Path.OperationOf(upper, path).Some?
    ensures IsAscii(Path.OperationOf(upper, path).value.0.Text())
  {
  }

  lemma RuntimeOperationsAreAscii(m: Path.RuntimeMethod)
    requires m.Operation().Some?
    ensures IsAscii(m.Operation().value)
  {
  }

  lemma OperationIsAscii(fold: Fold, verb: Bytes, path: string, operation: Bytes)
    requires Path.ValidateCanonicalPath(path) == None && Path.ValidOperationAndMethod(fold, verb, path, operation)
    ensures IsAscii(operation)
  {
    if Path.IsRegisteredGatewayPath(path) {
      GatewayOperationsAreAscii(Upper(fold, verb), path);
    } else {
      PathTheorems.AcceptedRuntimeOperation(path);
      var m: Path.RuntimeMethod :| m.Name() == Path.RuntimeOperation(path) && m.Operation() == Some(operation);
      RuntimeOperationsAreAscii(m);
    }
  }

  // ---- verification of what was signed ----

  /** What is assumed of the primitives: SHA-256 gives 32 bytes, and what a signer signs verifies. */
  ghost predicate Sound(crypto: Crypto, signer: Signer) {
    && (forall text :: |crypto.sha256(text)| == 32)
    && (forall text :: signer.sign(text).Some? ==>
          signer.sign(text).value != "" && crypto.verify(signer.algorithm, text, signer.sign(text).value))
  }

  lemma EncodedLengthOf(b: Bytes)
    ensures EncodedLength(Sanitize(Encode64(b))) == Some(|b|)
  {
    SanitizeEncoded(b);
    Base64RoundTrip(b);
  }

  lemma AudienceIsAscii(audience: Bytes)
    requires audience == AUDIENCE
    ensures IsAscii(audience)
  {
  }

  lemma ClaimsAreValid(c: Claims)
    requires c.issuer != "" && c.subject != "" && c.tenantID != "" && c.sessionID != "" && c.operation != ""
    requires c.audience == AUDIENCE && c.requestFingerprint != "" && 1 <= c.expiresAt - c.issuedAt <= 60
    requires EncodedLength(Sanitize(c.nonce)) == Some(NONCE_BYTES)
    requires EncodedLength(Sanitize(c.requestFingerprint)) == Some(32)
    ensures ValidClaims(Sanitized(c)) <==> c.issuedAt > 0
  {
    SanitizeEmpty(c.issuer);
    SanitizeEmpty(c.subject);
    SanitizeEmpty(c.tenantID);
    SanitizeEmpty(c.sessionID);
    SanitizeEmpty(c.operation);
    SanitizeEmpty(c.requestFingerprint);
    AudienceIsAscii(c.audience);
    SanitizeAscii(c.audience);
  }

  lemma ClaimsOfObject(m: map<string, Value>, c: Claims)
    requires InRange(c) && HoldsClaims(m, c) && forall k | k in m :: k in CLAIM_NAMES
    ensures ClaimsOf(m) == if ValidClaims(Sanitized(c)) then Some(Sanitized(c)) else None
  {
    ClaimsUnmarshal(m, c);
  }

  lemma PayloadVerifies(c: Claims)
    requires InRange(c)
    ensures CanonicalJSON(ClaimsStruct(c)).Ok?
    ensures PayloadClaims(CanonicalJSON(ClaimsStruct(c)).value)
            == if ValidClaims(Sanitized(c)) then Some(Sanitized(c)) else None
  {
    ClaimsWellFormed(c);
    StructIsCanonicalized(ClaimsStruct(c));
    ClaimsObjectHolds(c);
    ClaimsOfObject(ObjectOf(ClaimsStruct(c)), c);
  }

  lemma HeaderObjectHolds(signer: Signer)
    ensures WellFormed(HeaderStruct(signer))
    ensures var m := ObjectOf(HeaderStruct(signer));
            && HoldsString(m, "alg", signer.algorithm) && HoldsString(m, "kid", signer.keyID)
            && forall k | k in m :: k == "alg" || k == "kid"
  {
    var fields, m := HeaderStruct(signer), ObjectOf(HeaderStruct(signer));
    ObjectHolds(fields);
    assert Holds(m, fields[0]) && Holds(m, fields[1]);
  }

  lemma AlgorithmOfObject(m: map<string, Value>, signer: Signer)
    requires signer.keyID != "" && (signer.algorithm == "EdDSA" || signer.algorithm == "ES256")
    requires HoldsString(m, "alg", signer.algorithm) && HoldsString(m, "kid", signer.keyID)
    requires forall k | k in m :: k == "alg" || k == "kid"
    ensures AlgorithmOf(m) == Some(signer.algorithm)
  {
    StringFieldHeld(m, "alg", signer.algorithm);
    StringFieldHeld(m, "kid", signer.keyID);
    SanitizeAscii(signer.algorithm);
    SanitizeEmpty(signer.keyID);
  }

  lemma HeaderVerifies(signer: Signer)
    requires signer.keyID != "" && (signer.algorithm == "EdDSA" || signer.algorithm == "ES256")
    ensures CanonicalJSON(HeaderStruct(signer)).Ok?
    ensures HeaderAlgorithm(CanonicalJSON(HeaderStruct(signer)).value) == Some(signer.algorithm)
  {
    HeaderObjectHolds(signer);
    StructIsCanonicalized(HeaderStruct(signer));
    AlgorithmOfObject(ObjectOf(HeaderStruct(signer)), signer);
  }

  lemma CompactSplits(header: Bytes, payload: Bytes, signature: Bytes)
    ensures Split(Encode64(header) + "." + Encode64(payload) + "." + Encode64(signature), '.')
            == [Encode64(header), Encode64(payload), Encode64(signature)]
  {
    Base64RoundTrip(header);
    Base64RoundTrip(payload);
    Base64RoundTrip(signature);
    var h, p, s := Encode64(header), Encode64(payload), Encode64(signature);
    var parts := [h, p, s];
    assert parts[1..] == [p, s] && parts[1..][1..] == [s];
    assert Join(parts[1..], ".") == p + "." + s;
    Assoc(h + ".", p, ".");
    Assoc(h + ".", p + ".", s);
    SplitJoin(parts, '.');
  }

  lemma PartsVerify<C>(
      crypto: Crypto, alg: Bytes, readHeader: Bytes -> Option<Bytes>, readPayload: Bytes -> Option<C>,
      header: Bytes, payload: Bytes, signature: Bytes)
    requires readHeader(header) == Some(alg)
    requires crypto.verify(alg, Encode64(header) + "." + Encode64(payload), signature)
    ensures VerifyParts(crypto, readHeader, readPayload, [Encode64(header), Encode64(payload), Encode64(signature)])
            == readPayload(payload)
  {
    Base64RoundTrip(header);
    Base64RoundTrip(payload);
    Base64RoundTrip(signature);
  }

  lemma SplitVerifies<C>(
      crypto: Crypto, readHeader: Bytes -> Option<Bytes>, readPayload: Bytes -> Option<C>,
      compact: Bytes, header: Bytes, payload: Bytes, signature: Bytes)
    requires compact == Encode64(header) + "." + Encode64(payload) + "." + Encode64(signature)
    requires header != "" && payload != "" && signature != ""
    ensures VerifyCompact(crypto, readHeader, readPayload, compact)
            == VerifyParts(crypto, readHeader, readPayload,
                           [Encode64(header), Encode64(payload), Encode64(signature)])
  {
    CompactSplits(header, payload, signature);
  }

  /** A compact form made of parts that verify is accepted with what its payload is read as. */
  lemma SignedPartsVerify<C>(
      crypto: Crypto, signer: Signer, readHeader: Bytes -> Option<Bytes>, readPayload: Bytes -> Option<C>,
      header: Bytes, payload: Bytes)
    requires Sound(crypto, signer) && readHeader(header) == Some(signer.algorithm)
    requires SignParts(signer, header, payload).Ok? && header != "" && payload != ""
    ensures VerifyCompact(crypto, readHeader, readPayload, SignParts(signer, header, payload).value)
            == readPayload(payload)
  {
    var signature := signer.sign(Encode64(header) + "." + Encode64(payload)).value;
    var compact := Encode64(header) + "." + Encode64(payload) + "." + Encode64(signature);
    assert SignParts(signer, header, payload).value == compact;
    PartsVerify(crypto, signer.algorithm, readHeader, readPayload, header, payload, signature);
    SplitVerifies(crypto, readHeader, readPayload, compact, header, payload, signature);
  }

  lemma CanonicalIsNonempty(fields: seq<GoField>)
    requires fields != [] && WellFormed(fields)
    ensures CanonicalJSON(fields).Ok? && CanonicalJSON(fields).value != ""
  {
    StructIsCanonicalized(fields);
    EncodeAscii("");
  }

  lemma CompactVerifies(crypto: Crypto, signer: Signer, c: Claims)
    requires Sound(crypto, signer) && InRange(c) && Compact(signer, c).Ok?
    requires signer.keyID != "" && (signer.algorithm == "EdDSA" || signer.algorithm == "ES256")
    ensures VerifyCompactJWS(crypto, Compact(signer, c).value)
            == if ValidClaims(Sanitized(c)) then Some(Sanitized(c)) else None
  {
    HeaderVerifies(signer);
    PayloadVerifies(c);
    HeaderObjectHolds(signer);
    ClaimsWellFormed(c);
    CanonicalIsNonempty(HeaderStruct(signer));
    CanonicalIsNonempty(ClaimsStruct(c));
    SignedPartsVerify(crypto, signer, HeaderAlgorithm, PayloadClaims,
                      CanonicalJSON(HeaderStruct(signer)).value, CanonicalJSON(ClaimsStruct(c)).value);
  }

  /** The identity strings are valid UTF-8. */
  predicate Utf8Identity(c: Claims) {
    Valid(c.issuer) && Valid(c.subject) && Valid(c.tenantID) && Valid(c.sessionID)
  }

  lemma SanitizedClaims(c: Claims, nonce: Bytes, digest: Bytes)
    requires IsAscii(c.operation) && c.audience == AUDIENCE
    requires c.nonce == Encode64(nonce) && c.requestFingerprint == Encode64(digest)
    ensures Sanitized(c) == c <==> Utf8Identity(c)
  {
    SanitizeKeepsValid(c.issuer);
    SanitizeKeepsValid(c.subject);
    SanitizeKeepsValid(c.tenantID);
    SanitizeKeepsValid(c.sessionID);
    SanitizeAscii(c.operation);
    AudienceIsAscii(c.audience);
    SanitizeAscii(c.audience);
    SanitizeEncoded(nonce);
    SanitizeEncoded(digest);
  }

  lemma CheckedInput(fold: Fold, signer: Signer, input: Input)
    requires CheckInput(fold, signer, input) == None
    ensures signer.keyID != "" && (signer.algorithm == "EdDSA" || signer.algorithm == "ES256")
    ensures input.instanceID != "" && input.tenantID != "" && input.sessionID != "" && input.request.actor != ""
    ensures input.operation != "" && IsAscii(input.operation)
  {
    OperationIsAscii(fold, input.request.verb, input.request.path, input.operation);
  }

  lemma ClaimsMade(input: Input, fingerprint: Bytes, clock: Instant, nonce: Bytes)
    requires MakeClaims(input, fingerprint, clock, nonce).Ok?
    ensures var c := MakeClaims(input, fingerprint, clock, nonce).value;
            && c.issuer == input.instanceID && c.subject == input.request.actor && c.audience == AUDIENCE
            && c.tenantID == input.tenantID && c.sessionID == input.sessionID && c.operation == input.operation
            && c.requestFingerprint == fingerprint && c.nonce == Encode64(nonce)
            && InRange(c) && 1 <= c.expiresAt - c.issuedAt <= 60
  {
    LifetimesAccepted(input, fingerprint, clock, nonce);
  }

  /** Claims with a registered operation, a fresh nonce and a real fingerprint. */
  predicate Signable(c: Claims, nonce: Bytes, digest: Bytes) {
    && c.issuer != "" && c.subject != "" && c.tenantID != "" && c.sessionID != "" && c.operation != ""
    && c.audience == AUDIENCE && c.nonce == Encode64(nonce) && c.requestFingerprint == Encode64(digest)
    && |nonce| == NONCE_BYTES && |digest| == 32 && 1 <= c.expiresAt - c.issuedAt <= 60
    && InRange(c) && IsAscii(c.operation)
  }

  lemma SignableClaimsVerify(crypto: Crypto, signer: Signer, c: Claims, nonce: Bytes, digest: Bytes, compact: Bytes)
    requires Sound(crypto, signer) && Compact(signer, c) == Ok(compact) && Signable(c, nonce, digest)
    requires signer.keyID != "" && (signer.algorithm == "EdDSA" || signer.algorithm == "ES256")
    ensures VerifyCompactJWS(crypto, compact) == if c.issuedAt > 0 then Some(Sanitized(c)) else None
    ensures Sanitized(c) == c <==> Utf8Identity(c)
  {
    EncodedLengthOf(nonce);
    EncodedLengthOf(digest);
    ClaimsAreValid(c);
    CompactVerifies(crypto, signer, c);
    SanitizedClaims(c, nonce, digest);
  }

  lemma SignedParts(fold: Fold, crypto: Crypto, signer: Signer, input: Input, clock: Instant, nonce: Bytes,
                    compact: Bytes, claims: Claims)
    requires SignAssertion(fold, crypto, signer, input, clock, nonce) == Ok((compact, claims))
    ensures ClaimsFor(fold, crypto, signer, input, clock, nonce) == Ok(claims)
    ensures Compact(signer, claims) == Ok(compact)
  {
  }

  lemma SignedClaims(fold: Fold, crypto: Crypto, signer: Signer, input: Input, clock: Instant, nonce: Bytes)
      returns (digest: Bytes)
    requires Sound(crypto, signer) && |nonce| == NONCE_BYTES
    requires ClaimsFor(fold, crypto, signer, input, clock, nonce).Ok?
    ensures Signable(ClaimsFor(fold, crypto, signer, input, clock, nonce).value, nonce, digest)
    ensures signer.keyID != "" && (signer.algorithm == "EdDSA" || signer.algorithm == "ES256")
  {
    digest := crypto.sha256(Preimage(fold, input.request).value);
    ClaimsMade(input, Encode64(digest), clock, nonce);
    CheckedInput(fold, signer, input);
  }

  /** The claims carry the fingerprint of the request they are made for. */
  lemma ClaimsCarryFingerprint(
      fold: Fold, crypto: Crypto, signer: Signer, input: Input, clock: Instant, nonce: Bytes)
    requires ClaimsFor(fold, crypto, signer, input, clock, nonce).Ok?
    ensures RequestFingerprint(fold, crypto.sha256, input.request)
            == Ok(ClaimsFor(fold, crypto, signer, input, clock, nonce).value.requestFingerprint)
  {
    ClaimsMade(input, RequestFingerprint(fold, crypto.sha256, input.request).value, clock, nonce);
  }

  /** Whatever SignAssertion signs verifies to the same claims exactly when the issue time is after
      Unix second 0 and the identity strings are valid UTF-8; strings that are not come back with their
      malformed bytes replaced. */
  lemma SignThenVerify(fold: Fold, crypto: Crypto, signer: Signer, input: Input, clock: Instant, nonce: Bytes,
                       compact: Bytes, claims: Claims)
    requires Sound(crypto, signer) && |nonce| == NONCE_BYTES
    requires SignAssertion(fold, crypto, signer, input, clock, nonce) == Ok((compact, claims))
    ensures VerifyCompactJWS(crypto, compact) == if claims.issuedAt > 0 then Some(Sanitized(claims)) else None
    ensures Sanitized(claims) == claims <==> Utf8Identity(claims)
  {
    SignedParts(fold, crypto, signer, input, clock, nonce, compact, claims);
    var digest := SignedClaims(fold, crypto, signer, input, clock, nonce);
    SignableClaimsVerify(crypto, signer, claims, nonce, digest, compact);
  }

  /** Once the claims are made, only the signer can fail: the claims and the header always have a
      canonical form. */
  lemma OnlyTheSignerFails(signer: Signer, c: Claims)
    requires InRange(c)
    ensures Compact(signer, c) != Err(PayloadError)
  {
    ClaimsWellFormed(c);
    HeaderObjectHolds(signer);
    CanonicalIsNonempty(ClaimsStruct(c));
    CanonicalIsNonempty(HeaderStruct(signer));
  }

  // ---- one assertion per signature ----

  lemma PayloadPart(h: Bytes, p: Bytes, s: Bytes, compact: Bytes)
    requires compact == Encode64(h) + "." + Encode64(p) + "." + Encode64(s)
    ensures |Split(compact, '.')| == 3 && Decode64(Split(compact, '.')[1]) == Some(p)
  {
    CompactSplits(h, p, s);
    Base64RoundTrip(p);
  }

  lemma SignPartsDeterminesPayload(signer: Signer, h1: Bytes, p1: Bytes, h2: Bytes, p2: Bytes)
    requires SignParts(signer, h1, p1).Ok? && SignParts(signer, h1, p1) == SignParts(signer, h2, p2)
    ensures p1 == p2
  {
    var s1 := signer.sign(Encode64(h1) + "." + Encode64(p1)).value;
    var s2 := signer.sign(Encode64(h2) + "." + Encode64(p2)).value;
    var compact := SignParts(signer, h1, p1).value;
    PayloadPart(h1, p1, s1, compact);
    PayloadPart(h2, p2, s2, compact);
  }

  /** A compact assertion determines its claims, so assertions with different nonces differ. */
  lemma CompactDeterminesClaims(signer: Signer, c: Claims, d: Claims)
    requires InRange(c) && InRange(d) && Compact(signer, c).Ok? && Compact(signer, c) == Compact(signer, d)
    ensures Sanitized(c) == Sanitized(d)
  {
    var p, q := CanonicalJSON(ClaimsStruct(c)), CanonicalJSON(ClaimsStruct(d));
    var header := CanonicalJSON(HeaderStruct(signer));
    SignPartsDeterminesPayload(signer, header.value, p.value, header.value, q.value);
    ClaimsWellFormed(c);
    ClaimsWellFormed(d);
    StructIsCanonicalized(ClaimsStruct(c));
    StructIsCanonicalized(ClaimsStruct(d));
    ClaimsObjectHolds(c);
    ClaimsObjectHolds(d);
    ClaimsUnmarshal(ObjectOf(ClaimsStruct(c)), c);
    ClaimsUnmarshal(ObjectOf(ClaimsStruct(d)), d);
  }
}
