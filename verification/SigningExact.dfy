/** What SignAssertion promises of its input: which it signs, what the claims say of it, and that only the
    signer's own signature makes the compact form verify. */
module SigningExact {
  import opened Wrappers
  import opened GoStrings
  import opened Utf8
  import opened Path
  import opened PathTheorems
  import opened Fingerprint
  import opened Base64
  import opened Assertion
  import opened AssertionTheorems
  import opened AssertionExact
  import AssertionWitness

  // ---- other signatures ----

  function Dotted(a: Bytes, b: Bytes): Bytes {
    a + "." + b
  }

  /** The text a compact form signs: everything before its last dot. */
  ghost predicate SignedOver(compact: Bytes, front: Bytes) {
    '.' in front && exists signature: Bytes :: compact == Dotted(front, Encode64(signature))
  }

  lemma SignedHeader(signer: Signer) returns (h: Bytes)
    requires signer.keyID != "" && (signer.algorithm == "EdDSA" || signer.algorithm == "ES256")
    ensures CanonicalJSON(HeaderStruct(signer)) == Ok(h) && h != "" && HeaderAlgorithm(h) == Some(signer.algorithm)
  {
    HeaderVerifies(signer);
    HeaderObjectHolds(signer);
    CanonicalIsNonempty(HeaderStruct(signer));
    h := CanonicalJSON(HeaderStruct(signer)).value;
  }

  lemma SignedPayload(c: Claims, nonce: Bytes, digest: Bytes) returns (p: Bytes)
    requires Signable(c, nonce, digest) && c.issuedAt > 0
    ensures CanonicalJSON(ClaimsStruct(c)) == Ok(p) && p != "" && PayloadClaims(p) == Some(Sanitized(c))
  {
    EncodedLengthOf(nonce);
    EncodedLengthOf(digest);
    ClaimsAreValid(c);
    PayloadVerifies(c);
    ClaimsWellFormed(c);
    CanonicalIsNonempty(ClaimsStruct(c));
    p := CanonicalJSON(ClaimsStruct(c)).value;
  }

  lemma PartsAreSigned(signer: Signer, h: Bytes, p: Bytes)
    requires SignParts(signer, h, p).Ok?
    ensures SignedOver(SignParts(signer, h, p).value, Dotted(Encode64(h), Encode64(p)))
  {
    var front := Dotted(Encode64(h), Encode64(p));
    assert front[|Encode64(h)|] == '.';
    var signature := signer.sign(front).value;
    assert SignParts(signer, h, p).value == Dotted(front, Encode64(signature));
  }

  /** With any other signature put in its place, what was signed is accepted exactly if that signature
      verifies too. */
  lemma ForgedSignatureIsRefused(
      fold: Fold, crypto: Crypto, signer: Signer, input: Input, clock: Instant, nonce: Bytes,
      compact: Bytes, claims: Claims, forged: Bytes) returns (front: Bytes, other: Bytes)
    requires Sound(crypto, signer) && |nonce| == NONCE_BYTES
    requires SignAssertion(fold, crypto, signer, input, clock, nonce) == Ok((compact, claims))
    requires claims.issuedAt > 0 && forged != ""
    ensures SignedOver(compact, front) && other == Dotted(front, Encode64(forged))
    ensures VerifyCompactJWS(crypto, other)
            == if crypto.verify(signer.algorithm, front, forged) then Some(Sanitized(claims)) else None
  {
    SignedParts(fold, crypto, signer, input, clock, nonce, compact, claims);
    var digest := SignedClaims(fold, crypto, signer, input, clock, nonce);
    var h := SignedHeader(signer);
    var p := SignedPayload(claims, nonce, digest);
    CompactOfParts(signer, claims, h, p);
    PartsAreSigned(signer, h, p);
    front := Dotted(Encode64(h), Encode64(p));
    other := Dotted(front, Encode64(forged));
    OtherSignature(crypto, other, h, p, forged, signer.algorithm, Sanitized(claims));
  }

  lemma CompactOfParts(signer: Signer, c: Claims, h: Bytes, p: Bytes)
    requires CanonicalJSON(HeaderStruct(signer)) == Ok(h) && CanonicalJSON(ClaimsStruct(c)) == Ok(p)
    ensures Compact(signer, c) == SignParts(signer, h, p)
  {
  }

  lemma OtherSignature(
      crypto: Crypto, other: Bytes, h: Bytes, p: Bytes, signature: Bytes, alg: Bytes, c: Claims)
    requires other == Dotted(Dotted(Encode64(h), Encode64(p)), Encode64(signature))
    requires h != "" && p != "" && signature != "" && HeaderAlgorithm(h) == Some(alg) && PayloadClaims(p) == Some(c)
    ensures VerifyCompactJWS(crypto, other)
            == if crypto.verify(alg, Dotted(Encode64(h), Encode64(p)), signature) then Some(c) else None
  {
    EncodedPartsAreExact(crypto, other, h, p, signature, c);
    if VerifyCompactJWS(crypto, other).Some? {
      EncodedPartsAreExact(crypto, other, h, p, signature, VerifyCompactJWS(crypto, other).value);
    }
  }

  /** A balance query's assertion with a signature put in its place that does not verify is refused. */
  lemma ForgedQueryIsRefused(
      fold: Fold, crypto: Crypto, signer: Signer, input: Input, actor: Bytes, t: Instant, clock: Instant,
      nonce: Bytes, forged: Bytes)
      returns (compact: Bytes, claims: Claims, front: Bytes, other: Bytes)
    requires input == AssertionWitness.Query(actor, t) && AssertionWitness.Working(crypto, signer)
    requires actor != "" && !HasLineBreak(actor) && t >= SECOND && |nonce| == NONCE_BYTES
    requires forged != ""
    requires forall text :: !crypto.verify(signer.algorithm, text, forged)
    ensures SignAssertion(fold, crypto, signer, input, clock, nonce) == Ok((compact, claims))
    ensures VerifyCompactJWS(crypto, compact).Some?
    ensures SignedOver(compact, front) && other == Dotted(front, Encode64(forged))
    ensures VerifyCompactJWS(crypto, other) == None
  {
    compact, claims := AssertionWitness.QuerySigned(fold, crypto, signer, input, actor, t, clock, nonce);
    SignThenVerify(fold, crypto, signer, input, clock, nonce, compact, claims);
    front, other := ForgedSignatureIsRefused(fold, crypto, signer, input, clock, nonce, compact, claims, forged);
  }

  // ---- what the claims say ----

  /** `n` is the last whole second at or before the instant `ns`. */
  predicate IsSecondOf(n: int, ns: int) {
    n * 1_000_000_000 <= ns < (n + 1) * 1_000_000_000
  }

  /** The claims of an input: its identity, the fingerprint of its request, the seconds of its issue time
      and of the end of its lifetime, and the nonce. */
  predicate Describes(c: Claims, input: Input, fingerprint: Bytes, now: int, end: int, nonce: Bytes) {
    && c.issuer == input.instanceID && c.subject == input.request.actor && c.tenantID == input.tenantID
    && c.sessionID == input.sessionID && c.operation == input.operation && c.audience == "sluice-runtime"
    && c.requestFingerprint == fingerprint && c.nonce == Encode64(nonce)
    && IsSecondOf(c.issuedAt, now) && IsSecondOf(c.expiresAt, end)
  }

  /** The end of an input's lifetime: a minute after its issue time unless it says otherwise. */
  function EndOf(input: Input, clock: Instant): int {
    IssueTime(input, clock) + if input.ttl == 0 then 60_000_000_000 else input.ttl
  }

  lemma SecondOf(ns: int)
    ensures IsSecondOf(UnixSeconds(ns), ns)
  {
  }

  lemma ClaimsDescribeInput(input: Input, fingerprint: Bytes, clock: Instant, nonce: Bytes)
    requires MakeClaims(input, fingerprint, clock, nonce).Ok?
    ensures Describes(MakeClaims(input, fingerprint, clock, nonce).value, input, fingerprint,
                      IssueTime(input, clock), EndOf(input, clock), nonce)
  {
    ClaimsMade(input, fingerprint, clock, nonce);
    SecondOf(IssueTime(input, clock));
    SecondOf(EndOf(input, clock));
  }

  /** From input to verified claims: what is signed after the first Unix second, for a valid UTF-8 identity,
      verifies to claims that describe the input. */
  lemma VerifiedClaimsDescribeInput(
      fold: Fold, crypto: Crypto, signer: Signer, input: Input, clock: Instant, nonce: Bytes, compact: Bytes,
      claims: Claims)
    requires Sound(crypto, signer) && |nonce| == NONCE_BYTES
    requires SignAssertion(fold, crypto, signer, input, clock, nonce) == Ok((compact, claims))
    requires IssueTime(input, clock) >= 1_000_000_000
    requires Valid(input.instanceID) && Valid(input.request.actor) && Valid(input.tenantID) && Valid(input.sessionID)
    ensures VerifyCompactJWS(crypto, compact) == Some(claims)
    ensures RequestFingerprint(fold, crypto.sha256, input.request).Ok?
    ensures Describes(claims, input, RequestFingerprint(fold, crypto.sha256, input.request).value,
                      IssueTime(input, clock), EndOf(input, clock), nonce)
  {
    SignedParts(fold, crypto, signer, input, clock, nonce, compact, claims);
    ClaimsCarryFingerprint(fold, crypto, signer, input, clock, nonce);
    ClaimsDescribeInput(input, claims.requestFingerprint, clock, nonce);
    SignThenVerify(fold, crypto, signer, input, clock, nonce, compact, claims);
  }

  // ---- which inputs are signed ----

  /** The operations a runtime method can be asserted for. */
  predicate RuntimeOperationNamed(name: string, operation: Bytes) {
    (name, operation) in {
      ("ConfirmRegistration", "registration:confirm"), ("CreateOrder", "order:create"), ("GetOrder", "order:get"),
      ("GetBalance", "balance:get"), ("ListLedger", "ledger:list")}
  }

  /** The operation of a method on a gateway path. */
  predicate GatewayOperationNamed(upper: Bytes, t: Target, operation: Bytes) {
    match t
    case Collection => upper == "POST" && operation == "invocation:create"
    case Invocation(_) =>
      (upper == "GET" && operation == "invocation:get") || (upper == "DELETE" && operation == "invocation:cancel")
    case Artifact(_, _) => upper == "GET" && operation == "invocation:get_artifact"
  }

  lemma RuntimeTable(m: RuntimeMethod, operation: Bytes)
    ensures m.Operation() == Some(operation) <==> RuntimeOperationNamed(m.Name(), operation)
  {
    NameHasKey(m);
  }

  /** The runtime methods that must not carry an idempotency key, as far as they have assertions. */
  const QUERIES: set<string> := {"GetOrder", "GetBalance", "ListLedger"}

  lemma RuntimeQueries(m: RuntimeMethod)
    requires m.Operation().Some?
    ensures m.IsQuery() <==> m.Name() in QUERIES
  {
    NameHasKey(m);
  }

  /** The method, the operation and the key go together on a runtime path. */
  ghost predicate RuntimeAsserted(q: Request, operation: Bytes, name: string) {
    && q.path == "/runtime.v1.RuntimeService/" + name
    && RuntimeOperationNamed(name, operation) && (name in QUERIES ==> q.key == "")
  }

  /** The method, the operation and the key go together on a gateway path: what changes something needs a
      key, what reads must not have one. */
  ghost predicate GatewayAsserted(upper: Bytes, q: Request, operation: Bytes, t: Target) {
    && ValidTarget(t) && q.path == PathOf(t)
    && GatewayOperationNamed(upper, t, operation) && (q.key == "" <==> upper == "GET")
  }

  lemma RuntimePathSpelled(name: string)
    ensures RuntimePath(name) == "/runtime.v1.RuntimeService/" + name
  {
  }

  lemma GatewayTable(upper: Bytes, t: Target, operation: Bytes)
    ensures GatewayOperationNamed(upper, t, operation)
            <==> RouteOn(upper, t).Some? && RouteOn(upper, t).value.Text() == operation
    ensures GatewayOperationNamed(upper, t, operation) ==> operation != "" && !HasLineBreak(operation)
  {
  }

  /** What the two checks of the operation see on a gateway path. */
  lemma GatewayRouteFound(fold: Fold, verb: Bytes, path: Bytes, t: Target)
    requires ValidTarget(t) && path == PathOf(t)
    ensures ValidateCanonicalPath(path) == None && IsRegisteredGatewayPath(path)
    ensures GatewayOperationAndMethod(fold, verb, path)
            == match RouteOn(Upper(fold, verb), t) case None => None case Some(r) => Some((r, Upper(fold, verb)))
  {
    TargetIsAccepted(t);
    PathOfTarget(t);
    OperationOfTarget(Upper(fold, verb), t);
  }

  lemma GatewayOperationSteps(fold: Fold, verb: Bytes, path: Bytes, operation: Bytes)
    requires IsRegisteredGatewayPath(path) && verb != "" && IsLine(verb)
    ensures ValidOperationAndMethod(fold, verb, path, operation)
            <==> && operation != "" && !HasLineBreak(operation) && GatewayOperationAndMethod(fold, verb, path).Some?
                 && GatewayOperationAndMethod(fold, verb, path).value.0.Text() == operation
  {
  }

  lemma GatewayOperationChecked(fold: Fold, verb: Bytes, path: Bytes, operation: Bytes, t: Target)
    requires ValidTarget(t) && path == PathOf(t) && verb != "" && IsLine(verb)
    ensures ValidOperationAndMethod(fold, verb, path, operation)
            <==> GatewayOperationNamed(Upper(fold, verb), t, operation)
  {
    GatewayRouteFound(fold, verb, path, t);
    GatewayOperationSteps(fold, verb, path, operation);
    GatewayTable(Upper(fold, verb), t, operation);
  }

  lemma GatewayKeyChecked(fold: Fold, verb: Bytes, path: Bytes, key: Bytes, t: Target)
    requires ValidTarget(t) && path == PathOf(t) && RouteOn(Upper(fold, verb), t).Some?
    ensures CheckKeyRule(IdempotencyRule(fold, verb, path), key) == None
            <==> (key == "" <==> Upper(fold, verb) == "GET")
  {
    GatewayRouteFound(fold, verb, path, t);
  }

  lemma GatewayPathChecked(fold: Fold, q: Request, operation: Bytes, t: Target)
    requires ValidTarget(t) && q.path == PathOf(t) && q.verb != "" && IsLine(q.verb)
    ensures CheckOperation(fold, q, operation) == None <==> GatewayAsserted(Upper(fold, q.verb), q, operation, t)
  {
    GatewayRouteFound(fold, q.verb, q.path, t);
    GatewayOperationChecked(fold, q.verb, q.path, operation, t);
    OperationSteps(fold, q, operation);
    if GatewayOperationNamed(Upper(fold, q.verb), t, operation) {
      GatewayTable(Upper(fold, q.verb), t, operation);
      GatewayKeyChecked(fold, q.verb, q.path, q.key, t);
    }
  }

  lemma OperationSteps(fold: Fold, q: Request, operation: Bytes)
    ensures CheckOperation(fold, q, operation) == None
            <==> && ValidateCanonicalPath(q.path) == None && ValidOperationAndMethod(fold, q.verb, q.path, operation)
                 && CheckKeyRule(IdempotencyRule(fold, q.verb, q.path), q.key) == None
  {
  }

  lemma RuntimePathChecked(fold: Fold, q: Request, operation: Bytes, m: RuntimeMethod)
    requires q.path == RuntimePath(m.Name()) && q.verb != "" && IsLine(q.verb)
    ensures CheckOperation(fold, q, operation) == None <==> RuntimeAsserted(q, operation, m.Name())
  {
    RuntimePathSpelled(m.Name());
    RuntimeTable(m, operation);
    if m.Operation() == Some(operation) {
      AssertionWitness.RuntimeOperationChecked(fold, q, m, operation);
      RuntimeQueries(m);
    } else {
      RuntimeOperationRefused(fold, q, operation, m);
    }
  }

  lemma RuntimeOperationRefused(fold: Fold, q: Request, operation: Bytes, m: RuntimeMethod)
    requires q.path == RuntimePath(m.Name()) && m.Operation() != Some(operation)
    ensures CheckOperation(fold, q, operation) != None
  {
    AssertionWitness.RuntimePathFacts(q.path, m);
    if CheckOperation(fold, q, operation) == None {
      OperationSteps(fold, q, operation);
      var n: RuntimeMethod :| n.Name() == m.Name() && n.Operation() == Some(operation);
      NamesAreDistinct(m, n);
    }
  }

  lemma MethodMustBeALine(fold: Fold, q: Request, operation: Bytes)
    requires q.verb == "" || !IsLine(q.verb)
    ensures CheckOperation(fold, q, operation) != None
  {
  }

  /** Some target or method at the path makes the method, the operation and the key go together. */
  ghost predicate Asserted(fold: Fold, q: Request, operation: Bytes) {
    && q.verb != "" && IsLine(q.verb)
    && ((exists t :: GatewayAsserted(Upper(fold, q.verb), q, operation, t))
        || (exists name: string :: RuntimeAsserted(q, operation, name)))
  }

  lemma OperationChecked(fold: Fold, q: Request, operation: Bytes)
    ensures CheckOperation(fold, q, operation) == None <==> Asserted(fold, q, operation)
  {
    if q.verb == "" || !IsLine(q.verb) {
      MethodMustBeALine(fold, q, operation);
    } else {
      if CheckOperation(fold, q, operation) == None {
        AcceptedIsAsserted(fold, q, operation);
      }
      if t :| GatewayAsserted(Upper(fold, q.verb), q, operation, t) {
        GatewayPathChecked(fold, q, operation, t);
      } else if name: string :| RuntimeAsserted(q, operation, name) {
        var m := NamedMethod(name, operation);
        RuntimePathSpelled(name);
        RuntimePathChecked(fold, q, operation, m);
      }
    }
  }

  lemma NamedMethod(name: string, operation: Bytes) returns (m: RuntimeMethod)
    requires RuntimeOperationNamed(name, operation)
    ensures m.Name() == name
  {
    m := if name == "ConfirmRegistration" then ConfirmRegistration
         else if name == "CreateOrder" then CreateOrder
         else if name == "GetOrder" then GetOrder
         else if name == "GetBalance" then GetBalance
         else ListLedger;
  }

  lemma AcceptedIsAsserted(fold: Fold, q: Request, operation: Bytes)
    requires CheckOperation(fold, q, operation) == None && q.verb != "" && IsLine(q.verb)
    ensures Asserted(fold, q, operation)
  {
    ValidatorIsExact(q.path);
    if t :| ValidTarget(t) && PathOf(t) == q.path {
      GatewayPathChecked(fold, q, operation, t);
    } else {
      var name :| IsRuntimeMethod(name) && RuntimePath(name) == q.path;
      var m: RuntimeMethod :| m.Name() == name;
      RuntimePathChecked(fold, q, operation, m);
    }
  }

  predicate RegisteredSigner(signer: Signer) {
    signer.keyID != "" && signer.algorithm in {"EdDSA", "ES256"}
  }

  /** The four identity strings are nonempty lines. */
  predicate IdentityGiven(input: Input) {
    && input.instanceID != "" && input.tenantID != "" && input.sessionID != "" && input.request.actor != ""
    && IsLine(input.instanceID) && IsLine(input.tenantID) && IsLine(input.sessionID) && IsLine(input.request.actor)
  }

  lemma ContextChecked(input: Input)
    ensures CheckContext(input) == None <==> IdentityGiven(input)
  {
    var all := input.instanceID + input.tenantID + input.sessionID + input.request.actor;
    assert forall c :: c in all <==> c in input.instanceID || c in input.tenantID || c in input.sessionID
                                     || c in input.request.actor;
  }

  /** At most a minute, and reaching into the second after the one of the issue time. */
  predicate LifetimeFits(input: Input, clock: Instant) {
    var ttl: int := EndOf(input, clock) - IssueTime(input, clock);
    0 < ttl <= 60_000_000_000 && IssueTime(input, clock) % 1_000_000_000 + ttl >= 1_000_000_000
  }

  lemma SignerChecked(signer: Signer)
    ensures CheckSigner(signer) == None <==> RegisteredSigner(signer)
  {
  }

  lemma InputSteps(fold: Fold, signer: Signer, input: Input)
    ensures CheckInput(fold, signer, input) == None
            <==> && CheckSigner(signer) == None && CheckOperation(fold, input.request, input.operation) == None
                 && CheckContext(input) == None
  {
  }

  lemma ClaimsSteps(fold: Fold, crypto: Crypto, signer: Signer, input: Input, clock: Instant, nonce: Bytes)
    ensures ClaimsFor(fold, crypto, signer, input, clock, nonce).Ok?
            <==> && CheckInput(fold, signer, input) == None
                 && RequestFingerprint(fold, crypto.sha256, input.request).Ok?
                 && MakeClaims(input, RequestFingerprint(fold, crypto.sha256, input.request).value, clock, nonce).Ok?
  {
  }

  /** Exactly the inputs SignAssertion makes claims for; after that only the signer itself can fail. */
  lemma ClaimsAreMadeFor(fold: Fold, crypto: Crypto, signer: Signer, input: Input, clock: Instant, nonce: Bytes)
    ensures ClaimsFor(fold, crypto, signer, input, clock, nonce).Ok?
            <==> && RegisteredSigner(signer) && Asserted(fold, input.request, input.operation)
                 && IdentityGiven(input) && Preimage(fold, input.request).Ok? && LifetimeFits(input, clock)
  {
    ClaimsSteps(fold, crypto, signer, input, clock, nonce);
    InputSteps(fold, signer, input);
    SignerChecked(signer);
    OperationChecked(fold, input.request, input.operation);
    ContextChecked(input);
    if RequestFingerprint(fold, crypto.sha256, input.request).Ok? {
      LifetimesAccepted(input, RequestFingerprint(fold, crypto.sha256, input.request).value, clock, nonce);
    }
  }
}
