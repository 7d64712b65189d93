/** SignAssertion and VerifyCompactJWS: the claims, the window they may span, and the compact form. */
module Assertion {
  import opened Wrappers
  import opened GoText
  import opened GoStrings
  import opened Utf8
  import opened Path
  import opened Fingerprint
  import opened Base64
  import opened GoJson
  import opened Jcs
  import opened JcsTrailing

  const AUDIENCE: Bytes := "sluice-runtime"
  const SECOND: int := 1_000_000_000
  const DEFAULT_TTL: int := 60 * SECOND
  const NONCE_BYTES: nat := 16

  datatype Claims = Claims(
    issuer: Bytes, subject: Bytes, audience: Bytes, tenantID: Bytes, sessionID: Bytes, operation: Bytes,
    requestFingerprint: Bytes, issuedAt: int, expiresAt: int, nonce: Bytes)

  /** `issuedAt` is None for the zero time; instants and durations are in nanoseconds. */
  datatype Input = Input(
    instanceID: Bytes, tenantID: Bytes, sessionID: Bytes, operation: Bytes, request: Request,
    issuedAt: Option<Instant>, ttl: int)

  /** An instant whose Unix seconds, and those a minute later, fit int64, as time.Time's always do. */
  type Instant = ns: int | INT64_MIN * SECOND <= ns <= (INT64_MAX - 60) * SECOND

  /** The primitives: SHA-256, a key's signature algorithm, and verification under its public key. */
  datatype Signer = Signer(keyID: Bytes, algorithm: Bytes, sign: string -> Option<Bytes>)

  datatype Crypto = Crypto(sha256: Bytes -> Bytes, verify: (Bytes, string, Bytes) -> bool)

  datatype SignError =
    | NoKeyID | UnknownAlgorithm | PathError(path: PathError) | OperationError | KeyRequired | KeyForbidden
    | IdentityIncomplete | IdentityInvalid | RequestError(request: FingerprintError)
    | LifetimeError | WindowError | PayloadError | SignatureError

  // ---- signing ----

  /** time.Time.Unix: whole seconds, rounded down. */
  function UnixSeconds(ns: int): int {
    ns / SECOND
  }

  function CheckKeyRule(rule: KeyRule, key: Bytes): Option<SignError> {
    if rule.required && key == "" then Some(KeyRequired)
    else if rule.forbidden && key != "" then Some(KeyForbidden)
    else None
  }

  function CheckSigner(signer: Signer): Option<SignError> {
    if signer.keyID == "" then Some(NoKeyID)
    else if signer.algorithm != "EdDSA" && signer.algorithm != "ES256" then Some(UnknownAlgorithm)
    else None
  }

  function CheckOperation(fold: Fold, q: Request, operation: Bytes): Option<SignError> {
    match ValidateCanonicalPath(q.path)
    case Some(e) => Some(PathError(e))
    case None =>
      if !ValidOperationAndMethod(fold, q.verb, q.path, operation) then Some(OperationError)
      else CheckKeyRule(IdempotencyRule(fold, q.verb, q.path), q.key)
  }

  function CheckContext(input: Input): Option<SignError> {
    var actor := input.request.actor;
    if input.instanceID == "" || input.tenantID == "" || input.sessionID == "" || actor == "" then
      Some(IdentityIncomplete)
    else if HasLineBreak(input.instanceID + input.tenantID + input.sessionID + actor) then Some(IdentityInvalid)
    else None
  }

  /** SignAssertion's checks before anything is computed, in its order. */
  function CheckInput(fold: Fold, signer: Signer, input: Input): Option<SignError> {
    var ofSigner := CheckSigner(signer);
    if ofSigner.Some? then ofSigner
    else
      var ofOperation := CheckOperation(fold, input.request, input.operation);
      if ofOperation.Some? then ofOperation else CheckContext(input)
  }

  function MakeClaims(input: Input, fingerprint: Bytes, clock: Instant, nonce: Bytes): Result<Claims, SignError> {
    var now: int := match input.issuedAt case Some(t) => t case None => clock;
    var ttl := if input.ttl == 0 then DEFAULT_TTL else input.ttl;
    if ttl <= 0 || ttl > DEFAULT_TTL then Err(LifetimeError)
    else
      var iat, exp := UnixSeconds(now), UnixSeconds(now + ttl);
      if exp <= iat || exp - iat > 60 then Err(WindowError)
      else Ok(Claims(input.instanceID, input.request.actor, AUDIENCE, input.tenantID, input.sessionID,
                     input.operation, fingerprint, iat, exp, Encode64(nonce)))
  }

  /** The claims SignAssertion signs, or the first check that fails. */
  ghost function ClaimsFor(
      fold: Fold, crypto: Crypto, signer: Signer, input: Input, clock: Instant, nonce: Bytes): Result<Claims, SignError>
  {
    var checked := CheckInput(fold, signer, input);
    if checked.Some? then Err(checked.value)
    else match RequestFingerprint(fold, crypto.sha256, input.request)
      case Err(e) => Err(RequestError(e))
      case Ok(fingerprint) => MakeClaims(input, fingerprint, clock, nonce)
  }

  function ClaimsStruct(c: Claims): (fields: seq<GoField>)
    ensures fields != []
  {
    [GoField("iss", GoString(c.issuer)), GoField("sub", GoString(c.subject)), GoField("aud", GoString(c.audience)),
     GoField("tenant_id", GoString(c.tenantID)), GoField("session_id", GoString(c.sessionID)),
     GoField("operation", GoString(c.operation)), GoField("request_fingerprint", GoString(c.requestFingerprint)),
     GoField("iat", GoInt(c.issuedAt)), GoField("exp", GoInt(c.expiresAt)), GoField("nonce", GoString(c.nonce))]
  }

  function HeaderStruct(signer: Signer): (fields: seq<GoField>)
    ensures fields != []
  {
    [GoField("alg", GoString(signer.algorithm)), GoField("kid", GoString(signer.keyID))]
  }

  /** canonicalJSON: json.Marshal, then CanonicalizeJSON. */
  ghost function CanonicalJSON(fields: seq<GoField>): Outcome<Bytes>
    requires fields != []
  {
    Canonicalize(Encode(StructText(Marshalled(fields))))
  }

  /** The compact form of a header and a payload. */
  function SignParts(signer: Signer, header: Bytes, payload: Bytes): Result<Bytes, SignError> {
    var signingInput := Encode64(header) + "." + Encode64(payload);
    match signer.sign(signingInput)
    case None => Err(SignatureError)
    case Some(signature) => Ok(signingInput + "." + Encode64(signature))
  }

  ghost function Compact(signer: Signer, c: Claims): Result<Bytes, SignError> {
    var payload, header := CanonicalJSON(ClaimsStruct(c)), CanonicalJSON(HeaderStruct(signer));
    if payload.Err? || header.Err? then Err(PayloadError) else SignParts(signer, header.value, payload.value)
  }

  ghost function SignAssertion(
      fold: Fold, crypto: Crypto, signer: Signer, input: Input, clock: Instant, nonce: Bytes):
      Result<(Bytes, Claims), SignError>
  {
    var claims :- ClaimsFor(fold, crypto, signer, input, clock, nonce);
    var compact :- Compact(signer, claims);
    Ok((compact, claims))
  }

  // ---- verification ----

  /** The object both json.Unmarshal and CanonicalizeJSON accept: a complete text without duplicate keys. */
  ghost function ReadObject(raw: Bytes): Option<map<string, Value>> {
    if Canonicalize(raw).Ok? && Complete(Decode(raw).value) && ReadValue(raw).value.Obj?
    then Some(ReadValue(raw).value.members)
    else None
  }

  /** json.Unmarshal into a string field: absent and null leave it empty. */
  function StringField(m: map<string, Value>, name: string): Option<Bytes> {
    if name !in m || m[name].Null? then Some("")
    else if m[name].Str? then Some(Encode(m[name].s))
    else None
  }

  function IntField(m: map<string, Value>, name: string): Option<int> {
    if name !in m || m[name].Null? then Some(0)
    else if m[name].Num? then ParseInt64(m[name].literal)
    else None
  }

  const CLAIM_NAMES: seq<string> :=
    ["iss", "sub", "aud", "tenant_id", "session_id", "operation", "request_fingerprint", "iat", "exp", "nonce"]

  function UnmarshalClaims(m: map<string, Value>): Option<Claims> {
    var issuer :- StringField(m, "iss");
    var subject :- StringField(m, "sub");
    var audience :- StringField(m, "aud");
    var tenantID :- StringField(m, "tenant_id");
    var sessionID :- StringField(m, "session_id");
    var operation :- StringField(m, "operation");
    var fingerprint :- StringField(m, "request_fingerprint");
    var issuedAt :- IntField(m, "iat");
    var expiresAt :- IntField(m, "exp");
    var nonce :- StringField(m, "nonce");
    Some(Claims(issuer, subject, audience, tenantID, sessionID, operation, fingerprint, issuedAt, expiresAt, nonce))
  }

  /** The number of bytes `text` encodes, if it is their canonical base64url form. */
  function EncodedLength(text: Bytes): Option<nat> {
    var b :- Decode64(text);
    if Encode64(b) == text then Some(|b|) else None
  }

  predicate ValidClaims(c: Claims) {
    && c.issuer != "" && c.subject != "" && c.audience == AUDIENCE && c.tenantID != "" && c.sessionID != ""
    && c.operation != "" && c.requestFingerprint != ""
    && c.issuedAt > 0 && c.expiresAt > c.issuedAt && c.expiresAt - c.issuedAt <= 60
    && EncodedLength(c.nonce).Some? && EncodedLength(c.nonce).value >= NONCE_BYTES
    && EncodedLength(c.requestFingerprint) == Some(32)
  }

  /** The checks on the protected header's fields: its algorithm when they pass. */
  function AlgorithmOf(m: map<string, Value>): Option<Bytes> {
    var alg :- StringField(m, "alg");
    var kid :- StringField(m, "kid");
    if kid != "" && (forall k | k in m :: k == "alg" || k == "kid") && (alg == "EdDSA" || alg == "ES256")
    then Some(alg)
    else None
  }

  function ClaimsOf(m: map<string, Value>): Option<Claims> {
    if forall k | k in m :: k in CLAIM_NAMES then
      var c :- UnmarshalClaims(m);
      if ValidClaims(c) then Some(c) else None
    else None
  }

  ghost function HeaderAlgorithm(header: Bytes): Option<Bytes> {
    var m :- ReadObject(header);
    AlgorithmOf(m)
  }

  ghost function PayloadClaims(payload: Bytes): Option<Claims> {
    var m :- ReadObject(payload);
    ClaimsOf(m)
  }

  /** The three parts, given how a header and a payload are read. */
  ghost function VerifyParts<C>(
      crypto: Crypto, readHeader: Bytes -> Option<Bytes>, readPayload: Bytes -> Option<C>, parts: seq<string>):
      Option<C>
    requires |parts| == 3
  {
    var header :- Decode64(parts[0]);
    var payload :- Decode64(parts[1]);
    var signature :- Decode64(parts[2]);
    var alg :- readHeader(header);
    if crypto.verify(alg, parts[0] + "." + parts[1], signature) then readPayload(payload) else None
  }

  ghost function VerifyCompact<C>(
      crypto: Crypto, readHeader: Bytes -> Option<Bytes>, readPayload: Bytes -> Option<C>, compact: Bytes): Option<C>
  {
    var parts := Split(compact, '.');
    if |parts| != 3 || "" in parts then None else VerifyParts(crypto, readHeader, readPayload, parts)
  }

  /** VerifyCompactJWS: the claims, or None for any of its errors. */
  ghost function VerifyCompactJWS(crypto: Crypto, compact: Bytes): Option<Claims> {
    VerifyCompact(crypto, HeaderAlgorithm, PayloadClaims, compact)
  }
}
