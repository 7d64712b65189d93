/** Which typed runtime requests SignAssertion accepts, and accepted ones that do not verify. */
module AssertionWitness {
  import opened Wrappers
  import opened GoStrings
  import opened Utf8
  import opened Path
  import opened PathTheorems
  import opened Fingerprint
  import opened Assertion
  import opened AssertionTheorems
  import Jcs

  // ---- runtime requests ----

  /** `q` is a call of the runtime method `m`. */
  predicate Calls(q: Request, m: RuntimeMethod) {
    q.path == RuntimePath(m.Name()) && q.verb != "" && !HasLineBreak(q.verb)
  }

  lemma RuntimePathFacts(path: string, m: RuntimeMethod)
    requires path == RuntimePath(m.Name())
    ensures ValidateCanonicalPath(path) == None && !IsRegisteredGatewayPath(path)
    ensures RuntimeOperation(path) == m.Name() && m.Name() != ""
  {
    assert IsRuntimeMethod(m.Name());
    RuntimePathIsAccepted(m.Name());
    RuntimePathIsNotGateway(m.Name());
    RuntimeNameOf(m.Name());
  }

  lemma NoGatewayOperation(fold: Fold, verb: Bytes, path: string)
    requires !IsRegisteredGatewayPath(path)
    ensures GatewayOperationAndMethod(fold, verb, path) == None
  {
  }

  lemma RuntimeKeyRule(fold: Fold, verb: Bytes, path: string, m: RuntimeMethod)
    requires path == RuntimePath(m.Name())
    ensures IdempotencyRule(fold, verb, path) == KeyRule(false, m.IsQuery())
  {
    RuntimePathFacts(path, m);
    NoGatewayOperation(fold, verb, path);
    if n: RuntimeMethod :| n.IsQuery() && n.Name() == RuntimeOperation(path) {
      NamesAreDistinct(m, n);
    }
  }

  lemma RuntimeOperationAccepted(fold: Fold, q: Request, m: RuntimeMethod, operation: Bytes)
    requires Calls(q, m) && m.Operation() == Some(operation)
    ensures ValidOperationAndMethod(fold, q.verb, q.path, operation)
  {
    RuntimePathFacts(q.path, m);
    RuntimeOperationsAreNamed(m);
  }

  lemma RuntimeOperationsAreNamed(m: RuntimeMethod)
    requires m.Operation().Some?
    ensures m.Operation().value != "" && !HasLineBreak(m.Operation().value)
  {
  }

  /** An assertion for a runtime method passes the operation checks exactly when a query carries no
      idempotency key. */
  lemma RuntimeOperationChecked(fold: Fold, q: Request, m: RuntimeMethod, operation: Bytes)
    requires Calls(q, m) && m.Operation() == Some(operation)
    ensures CheckOperation(fold, q, operation) == None <==> m.IsQuery() ==> q.key == ""
  {
    RuntimePathFacts(q.path, m);
    RuntimeOperationAccepted(fold, q, m, operation);
    RuntimeKeyRule(fold, q.verb, q.path, m);
  }

  lemma RuntimeRouteChecked(fold: Fold, q: Request, m: RuntimeMethod)
    requires Calls(q, m)
    ensures CheckRoute(fold, q) == None
  {
    RuntimePathFacts(q.path, m);
  }

  /** The fields a request must have for an assertion, apart from its route. */
  ghost predicate Complete(input: Input) {
    && CheckContext(input) == None && CheckFields(input.request) == None && Jcs.Canonicalize(input.request.body).Ok?
  }

  lemma ClaimsFromFingerprint(
      fold: Fold, crypto: Crypto, signer: Signer, input: Input, clock: Instant, nonce: Bytes, fingerprint: Bytes)
    requires CheckInput(fold, signer, input) == None
    requires RequestFingerprint(fold, crypto.sha256, input.request) == Ok(fingerprint)
    ensures ClaimsFor(fold, crypto, signer, input, clock, nonce) == MakeClaims(input, fingerprint, clock, nonce)
  {
  }

  lemma ClaimsInTime(input: Input, fingerprint: Bytes, clock: Instant, nonce: Bytes) returns (claims: Claims)
    requires SECOND <= Lifetime(input) <= DEFAULT_TTL
    ensures MakeClaims(input, fingerprint, clock, nonce) == Ok(claims) && InRange(claims)
    ensures claims.subject == input.request.actor && claims.issuedAt == UnixSeconds(IssueTime(input, clock))
  {
    LifetimesAccepted(input, fingerprint, clock, nonce);
    claims := MakeClaims(input, fingerprint, clock, nonce).value;
  }

  /** A working signer: what it signs verifies, and it never fails. */
  ghost predicate Working(crypto: Crypto, signer: Signer) {
    && Sound(crypto, signer) && CheckSigner(signer) == None && forall text :: signer.sign(text).Some?
  }

  lemma WorkingSignerSigns(signer: Signer, c: Claims) returns (compact: Bytes)
    requires InRange(c) && forall text :: signer.sign(text).Some?
    ensures Compact(signer, c) == Ok(compact)
  {
    OnlyTheSignerFails(signer, c);
    compact := Compact(signer, c).value;
  }

  lemma RuntimeInputChecked(fold: Fold, signer: Signer, input: Input, m: RuntimeMethod)
    requires CheckSigner(signer) == None && Complete(input)
    requires Calls(input.request, m) && m.Operation() == Some(input.operation)
    requires m.IsQuery() ==> input.request.key == ""
    ensures CheckInput(fold, signer, input) == None && Preimage(fold, input.request).Ok?
  {
    RuntimeOperationChecked(fold, input.request, m, input.operation);
    RuntimeRouteChecked(fold, input.request, m);
    CheckedRequestHasPreimage(fold, input.request);
  }

  /** Checked input with an acceptable lifetime is signed by a working signer. */
  lemma CheckedInputIsSigned(
      fold: Fold, crypto: Crypto, signer: Signer, input: Input, clock: Instant, nonce: Bytes)
      returns (compact: Bytes, claims: Claims)
    requires Working(crypto, signer) && CheckInput(fold, signer, input) == None && Preimage(fold, input.request).Ok?
    requires SECOND <= Lifetime(input) <= DEFAULT_TTL
    ensures ClaimsFor(fold, crypto, signer, input, clock, nonce) == Ok(claims) && Compact(signer, claims) == Ok(compact)
    ensures claims.subject == input.request.actor && claims.issuedAt == UnixSeconds(IssueTime(input, clock))
  {
    var fingerprint := RequestFingerprint(fold, crypto.sha256, input.request).value;
    ClaimsFromFingerprint(fold, crypto, signer, input, clock, nonce, fingerprint);
    claims := ClaimsInTime(input, fingerprint, clock, nonce);
    compact := WorkingSignerSigns(signer, claims);
  }

  lemma SignedFromParts(fold: Fold, crypto: Crypto, signer: Signer, input: Input, clock: Instant, nonce: Bytes,
                        claims: Claims, compact: Bytes)
    requires ClaimsFor(fold, crypto, signer, input, clock, nonce) == Ok(claims)
    requires Compact(signer, claims) == Ok(compact)
    ensures SignAssertion(fold, crypto, signer, input, clock, nonce) == Ok((compact, claims))
  {
  }

  /** A complete input for a runtime method that has an assertion, without a key if it is a query, is
      signed by a working signer for every lifetime of one second to a minute. */
  lemma RuntimeInputIsSigned(
      fold: Fold, crypto: Crypto, signer: Signer, input: Input, m: RuntimeMethod, clock: Instant, nonce: Bytes)
      returns (compact: Bytes, claims: Claims)
    requires Working(crypto, signer) && Complete(input)
    requires Calls(input.request, m) && m.Operation() == Some(input.operation)
    requires m.IsQuery() ==> input.request.key == ""
    requires SECOND <= Lifetime(input) <= DEFAULT_TTL
    ensures SignAssertion(fold, crypto, signer, input, clock, nonce) == Ok((compact, claims))
    ensures claims.subject == input.request.actor && claims.issuedAt == UnixSeconds(IssueTime(input, clock))
  {
    RuntimeInputChecked(fold, signer, input, m);
    compact, claims := CheckedInputIsSigned(fold, crypto, signer, input, clock, nonce);
    SignedFromParts(fold, crypto, signer, input, clock, nonce, claims, compact);
  }

  // ---- accepted, but not verified as signed ----

  const PATH: Bytes := "/runtime.v1.RuntimeService/GetBalance"

  /** A balance query by `actor`, issued at `t` for the default lifetime. */
  function Query(actor: Bytes, t: Instant): Input {
    Input("i", "t", "s", "balance:get", Request("GRPC", PATH, actor, "", "{}"), Some(t), 0)
  }

  lemma QueryCalls(actor: Bytes, t: Instant)
    ensures Calls(Query(actor, t).request, GetBalance)
    ensures GetBalance.Operation() == Some(Query(actor, t).operation)
  {
  }

  lemma QueryComplete(actor: Bytes, t: Instant)
    requires actor != "" && !HasLineBreak(actor)
    ensures Complete(Query(actor, t))
  {
    ReadEmptyObject();
    assert !HasLineBreak("i" + "t" + "s" + actor);
  }

  lemma QuerySigned(
      fold: Fold, crypto: Crypto, signer: Signer, input: Input, actor: Bytes, t: Instant, clock: Instant, nonce: Bytes)
      returns (compact: Bytes, claims: Claims)
    requires input == Query(actor, t) && Working(crypto, signer) && actor != "" && !HasLineBreak(actor)
    ensures SignAssertion(fold, crypto, signer, input, clock, nonce) == Ok((compact, claims))
    ensures claims.subject == actor && claims.issuedAt == UnixSeconds(t)
  {
    QueryCalls(actor, t);
    QueryComplete(actor, t);
    compact, claims := RuntimeInputIsSigned(fold, crypto, signer, input, GetBalance, clock, nonce);
  }

  /** At the first second of Unix time an assertion is signed and then refused. */
  lemma EpochDoesNotVerify(
      fold: Fold, crypto: Crypto, signer: Signer, input: Input, clock: Instant, nonce: Bytes)
      returns (compact: Bytes, claims: Claims)
    requires input == Query("a", 0) && Working(crypto, signer) && |nonce| == NONCE_BYTES
    ensures SignAssertion(fold, crypto, signer, input, clock, nonce) == Ok((compact, claims))
    ensures VerifyCompactJWS(crypto, compact) == None
  {
    compact, claims := QuerySigned(fold, crypto, signer, input, "a", 0, clock, nonce);
    SignThenVerify(fold, crypto, signer, input, clock, nonce, compact, claims);
  }

  /** A byte that starts no UTF-8 sequence. */
  const MALFORMED: Bytes := ['\U{FF}']

  /** An actor that is not valid UTF-8 comes back as another one. */
  lemma MalformedActorDoesNotVerify(
      fold: Fold, crypto: Crypto, signer: Signer, input: Input, clock: Instant, nonce: Bytes)
      returns (compact: Bytes, claims: Claims)
    requires input == Query(MALFORMED, SECOND) && Working(crypto, signer) && |nonce| == NONCE_BYTES
    ensures SignAssertion(fold, crypto, signer, input, clock, nonce) == Ok((compact, claims))
    ensures VerifyCompactJWS(crypto, compact).Some? && VerifyCompactJWS(crypto, compact) != Some(claims)
  {
    compact, claims := QuerySigned(fold, crypto, signer, input, MALFORMED, SECOND, clock, nonce);
    SignThenVerify(fold, crypto, signer, input, clock, nonce, compact, claims);
    assert !Valid(MALFORMED);
  }
}
