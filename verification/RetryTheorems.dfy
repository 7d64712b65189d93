/** What the retry loops guarantee, and the typed runtime calls built on them. */
module RetryTheorems {
  import opened Wrappers
  import opened GoStrings
  import opened Sequences
  import opened Utf8
  import opened Fingerprint
  import opened Assertion
  import opened RetryLoops
  import Protocol = TokenProtocol
  import TokenTheorems
  import AssertionTheorems
  import Base64

  // ---- the loops are callers of the token protocol ----

  type Action = TokenTheorems.Action

  function ActionOf(e: Event): seq<Action> {
    match e
    case Sent(_, reply) => [TokenTheorems.Sent(IsRuntimeUnauthenticated(reply))]
    case Invalidated => [TokenTheorems.Discarded]
    case _ => []
  }

  /** The sends and Invalidates of a log. */
  function Actions(log: seq<Event>): seq<Action> {
    if log == [] then [] else ActionOf(log[0]) + Actions(log[1..])
  }

  lemma {:induction false} ActionsConcat(a: seq<Event>, b: seq<Event>)
    ensures Actions(a + b) == Actions(a) + Actions(b)
  {
    if a == [] {
      assert a + b == b;
    } else {
      ActionsConcat(a[1..], b);
      DropPrefix(a, b);
      Assoc(ActionOf(a[0]), Actions(a[1..]), Actions(b));
    }
  }

  lemma {:induction false} NoActions(events: seq<Event>)
    requires NothingSent(events)
    ensures Actions(events) == []
  {
    if events != [] {
      NoActions(events[1..]);
    }
  }

  lemma AttemptActions(a: Attempt)
    ensures Actions(EventsOf(a)) == [TokenTheorems.Sent(IsRuntimeUnauthenticated(a.reply))]
  {
    var front := EventsOf(a)[..|EventsOf(a)| - 1];
    NoActions(front);
    ActionsConcat(front, [Sent(a.call, a.reply)]);
    assert EventsOf(a) == front + [Sent(a.call, a.reply)];
    assert Actions([Sent(a.call, a.reply)]) == ActionOf(Sent(a.call, a.reply)) + [];
  }

  lemma {:induction false} LogActions(attempts: seq<Attempt>, rest: seq<Event>)
    requires NothingSent(rest)
    ensures Actions(LogOf(attempts, rest))
            == if attempts == [] then []
               else
                 var first := TokenTheorems.Sent(IsRuntimeUnauthenticated(attempts[0].reply));
                 if |attempts| == 1 && rest == [] then [first]
                 else [first, TokenTheorems.Discarded] + Actions(LogOf(attempts[1..], rest))
  {
    if attempts == [] {
      NoActions(rest);
    } else {
      AttemptActions(attempts[0]);
      var first, tail := EventsOf(attempts[0]), LogOf(attempts[1..], rest);
      ActionsConcat(first + [Invalidated], tail);
      ActionsConcat(first, [Invalidated]);
      assert Actions([Invalidated]) == [TokenTheorems.Discarded] + [];
    }
  }

  /** Over a token source that can be invalidated, a finished loop has done what a finished caller of the
      token protocol may have done: one send; or an unauthenticated send, one Invalidate and at most one
      more send; it returns no error only if its last action was a send that returned none. */
  lemma LoopsAreCallers(attempts: seq<Attempt>, rest: seq<Event>, err: Option<Failure>, target: Bytes)
    requires Disciplined(attempts, rest, err, target, true)
    ensures var done := Actions(LogOf(attempts, rest));
            && TokenTheorems.HasDone(Protocol.Finished, done)
            && (err.None? ==> done != [] && done[|done| - 1] == TokenTheorems.Sent(false))
    ensures err.None? ==> attempts != [] && rest == [] && attempts[|attempts| - 1].reply.None?
  {
    LogActions(attempts, rest);
    if attempts != [] {
      LogActions(attempts[1..], rest);
      if |attempts| == 2 {
        var last := TokenTheorems.Sent(IsRuntimeUnauthenticated(attempts[1].reply));
        assert [TokenTheorems.Sent(true), TokenTheorems.Discarded] + [last]
               == [TokenTheorems.Sent(true), TokenTheorems.Discarded, last];
      }
    }
  }

  // ---- what the Sign callback signs ----

  const GRPC: Bytes := "GRPC"

  function RequestOf(target: Bytes, m: Message): Request {
    Request(GRPC, target, m.actor, m.key, m.body)
  }

  /** `fingerprintOf` computes RequestFingerprint. */
  ghost predicate Computes(
      fingerprintOf: Request -> Result<Bytes, Failure>, fold: Fold, sha256: Bytes -> Bytes)
  {
    forall q :: match RequestFingerprint(fold, sha256, q)
                case Ok(f) => fingerprintOf(q) == Ok(f)
                case Err(_) => fingerprintOf(q).Err?
  }

  /** The Sign callback signs assertions for `q`, each time with a nonce and a clock of its own. */
  ghost predicate SignsFor(world: Surroundings, fold: Fold, crypto: Crypto, signer: Signer, q: Request) {
    forall h, token | world.signAnswer(h, token).Ok? ::
      SignatureFor(fold, crypto, signer, q, world.signAnswer(h, token).value)
  }

  ghost predicate SignatureFor(fold: Fold, crypto: Crypto, signer: Signer, q: Request, s: Signature) {
    exists input: Input, clock: Instant, nonce: Bytes ::
      && input.request == q && |nonce| == NONCE_BYTES
      && SignAssertion(fold, crypto, signer, input, clock, nonce) == Ok((s.compact, s.claims))
  }

  lemma SignatureCarriesFingerprint(fold: Fold, crypto: Crypto, signer: Signer, q: Request, s: Signature)
    requires SignatureFor(fold, crypto, signer, q, s)
    ensures RequestFingerprint(fold, crypto.sha256, q) == Ok(s.claims.requestFingerprint)
  {
    var input: Input, clock: Instant, nonce: Bytes :|
      && input.request == q && |nonce| == NONCE_BYTES
      && SignAssertion(fold, crypto, signer, input, clock, nonce) == Ok((s.compact, s.claims));
    AssertionTheorems.SignedParts(fold, crypto, signer, input, clock, nonce, s.compact, s.claims);
    AssertionTheorems.ClaimsCarryFingerprint(fold, crypto, signer, input, clock, nonce);
  }

  // ---- what is sent, and what its assertion says ----

  /** The attempt sends an assertion made for `signed`, whose fingerprint is also that of `sent`. */
  ghost predicate Carries(
      fold: Fold, crypto: Crypto, signer: Signer, signed: Request, sent: Request, a: Attempt)
  {
    && a.signature.Some? && a.call.assertion == Some(a.signature.value.compact)
    && SignatureFor(fold, crypto, signer, signed, a.signature.value)
    && RequestFingerprint(fold, crypto.sha256, sent) == Ok(a.signature.value.claims.requestFingerprint)
  }

  /** The very bytes sent, once verified, give claims with the fingerprint of the request sent; and they
      do verify when issued after Unix second 0. */
  lemma SentAssertionVerifies(
      fold: Fold, crypto: Crypto, signer: Signer, signed: Request, sent: Request, a: Attempt)
    requires Carries(fold, crypto, signer, signed, sent, a) && AssertionTheorems.Sound(crypto, signer)
    ensures var verified := VerifyCompactJWS(crypto, a.call.assertion.value);
            && (verified.Some? <==> a.signature.value.claims.issuedAt > 0)
            && (verified.Some? ==>
                  RequestFingerprint(fold, crypto.sha256, sent) == Ok(verified.value.requestFingerprint))
  {
    var s := a.signature.value;
    var input: Input, clock: Instant, nonce: Bytes :|
      && input.request == signed && |nonce| == NONCE_BYTES
      && SignAssertion(fold, crypto, signer, input, clock, nonce) == Ok((s.compact, s.claims));
    AssertionTheorems.SignThenVerify(fold, crypto, signer, input, clock, nonce, s.compact, s.claims);
    FingerprintSurvives(fold, crypto, sent, s.claims);
  }

  lemma FingerprintSurvives(fold: Fold, crypto: Crypto, q: Request, c: Claims)
    requires RequestFingerprint(fold, crypto.sha256, q) == Ok(c.requestFingerprint)
    ensures AssertionTheorems.Sanitized(c).requestFingerprint == c.requestFingerprint
  {
    AssertionTheorems.SanitizeEncoded(crypto.sha256(Preimage(fold, q).value));
  }

  /** Two accepted requests whose different texts have one digest. */
  ghost predicate Collide(fold: Fold, sha256: Bytes -> Bytes, q: Request, r: Request) {
    && Preimage(fold, q).Ok? && Preimage(fold, r).Ok?
    && Preimage(fold, q) != Preimage(fold, r) && sha256(Preimage(fold, q).value) == sha256(Preimage(fold, r).value)
  }

  lemma SameDigest(fold: Fold, sha256: Bytes -> Bytes, q: Request, r: Request)
    requires Preimage(fold, q).Ok? && RequestFingerprint(fold, sha256, q) == RequestFingerprint(fold, sha256, r)
    ensures Preimage(fold, r).Ok? && sha256(Preimage(fold, q).value) == sha256(Preimage(fold, r).value)
  {
    Base64.Base64RoundTrip(sha256(Preimage(fold, q).value));
    Base64.Base64RoundTrip(sha256(Preimage(fold, r).value));
  }

  /** What is sent is the business request that was signed, up to the spelling of the body, unless these
      two requests are a collision of the hash. */
  lemma CarriedMeansUnchanged(
      fold: Fold, crypto: Crypto, signer: Signer, signed: Request, sent: Request, a: Attempt)
    requires Carries(fold, crypto, signer, signed, sent, a)
    ensures SameIdentity(fold, signed, sent) <==> !Collide(fold, crypto.sha256, signed, sent)
  {
    SignatureCarriesFingerprint(fold, crypto, signer, signed, a.signature.value);
    SameDigest(fold, crypto.sha256, signed, sent);
    PreimageIsTheIdentity(fold, signed, sent);
  }

  /** The request an HTTP attempt sends. */
  function HttpRequestOf(verb: Bytes, a: Attempt): Request {
    Request(verb, a.call.target, a.call.message.actor, a.call.message.key, a.call.message.body)
  }

  /** Every HTTP attempt carries an assertion made for the very request it sends, when the signer signs
      for the arguments of the call. */
  lemma HttpAttemptCarriesItsRequest(
      world: Surroundings, fold: Fold, crypto: Crypto, signer: Signer, verb: Bytes, path: Bytes, message: Message,
      a: Attempt)
    requires WellFormed(a, path) && HttpAttempt(world, message, a)
    requires SignsFor(world, fold, crypto, signer, Request(verb, path, message.actor, message.key, message.body))
    ensures Carries(fold, crypto, signer, HttpRequestOf(verb, a), HttpRequestOf(verb, a), a)
  {
    var h :| world.signAnswer(h, a.token) == Ok(a.signature.value);
    SignatureCarriesFingerprint(fold, crypto, signer, HttpRequestOf(verb, a), a.signature.value);
  }

  // ---- typed runtime calls ----

  function IdentityReader(fingerprintOf: Request -> Result<Bytes, Failure>, target: Bytes): Identify {
    (m: Message) => match fingerprintOf(RequestOf(target, m))
                    case Ok(f) => Ok((m.key, f))
                    case Err(e) => Err(e)
  }

  /** The attempt sends the original key, and an assertion made for the original request whose
      fingerprint is that of the fields sent. */
  ghost predicate Covered(
      fold: Fold, crypto: Crypto, signer: Signer, target: Bytes, original: Message, a: Attempt)
  {
    && a.call.message.key == original.key && a.call.target == target
    && var sent := a.call.message;
       Carries(fold, crypto, signer,
               Request("GRPC", target, original.actor, original.key, original.body),
               Request("GRPC", target, sent.actor, sent.key, sent.body), a)
  }

  lemma ReaderChecks(
      fingerprintOf: Request -> Result<Bytes, Failure>, target: Bytes, key: Bytes, fingerprint: Bytes, m: Message)
    requires CheckIdentity(AssertionCall(key, fingerprint, Some(IdentityReader(fingerprintOf, target))), m) == None
    ensures m.key == key && fingerprintOf(RequestOf(target, m)) == Ok(fingerprint)
  {
  }

  lemma ComputedFingerprint(
      fingerprintOf: Request -> Result<Bytes, Failure>, fold: Fold, sha256: Bytes -> Bytes, q: Request, f: Bytes)
    requires Computes(fingerprintOf, fold, sha256) && fingerprintOf(q) == Ok(f)
    ensures RequestFingerprint(fold, sha256, q) == Ok(f)
  {
  }

  lemma FaithfulIsCovered(
      world: Surroundings, fold: Fold, crypto: Crypto, signer: Signer,
      fingerprintOf: Request -> Result<Bytes, Failure>, target: Bytes, original: Message, fingerprint: Bytes,
      a: Attempt)
    requires Computes(fingerprintOf, fold, crypto.sha256)
    requires fingerprintOf(RequestOf(target, original)) == Ok(fingerprint)
    requires SignsFor(world, fold, crypto, signer, RequestOf(target, original))
    requires WellFormed(a, target)
    requires Faithful(world, AssertionCall(original.key, fingerprint, Some(IdentityReader(fingerprintOf, target))), a)
    ensures Covered(fold, crypto, signer, target, original, a)
  {
    var s := a.signature.value;
    var h :| world.signAnswer(h, a.token) == Ok(s);
    SignatureCarriesFingerprint(fold, crypto, signer, RequestOf(target, original), s);
    ReaderChecks(fingerprintOf, target, original.key, fingerprint, a.call.message);
    ComputedFingerprint(fingerprintOf, fold, crypto.sha256, RequestOf(target, original), fingerprint);
    ComputedFingerprint(fingerprintOf, fold, crypto.sha256, RequestOf(target, a.call.message), fingerprint);
  }

  /** RuntimeClient.invokeAssertion: every request it sends carries an assertion whose fingerprint is the
      one recomputed from the fields sent, whatever happened to the live request in between. */
  method InvokeAssertion(
      world: Surroundings, ghost fold: Fold, ghost crypto: Crypto, ghost signer: Signer,
      fingerprintOf: Request -> Result<Bytes, Failure>, target: Bytes, original: Message)
      returns (err: Option<Failure>, ghost t: Trace)
    requires Computes(fingerprintOf, fold, crypto.sha256)
    requires SignsFor(world, fold, crypto, signer, RequestOf(target, original))
    modifies world`log, world.request
    ensures world.log == old(world.log) + LogOf(t.attempts, t.rest)
    ensures Disciplined(t.attempts, t.rest, err, target, world.canInvalidate)
    ensures forall i | 0 <= i < |t.attempts| :: Covered(fold, crypto, signer, target, original, t.attempts[i])
  {
    var fingerprint := fingerprintOf(RequestOf(target, original));
    if fingerprint.Err? {
      return Some(fingerprint.error), Trace([], []);
    }
    var call := AssertionCall(original.key, fingerprint.value, Some(IdentityReader(fingerprintOf, target)));
    err, t := InvokeWithAssertion(world, target, call);
    forall i | 0 <= i < |t.attempts|
      ensures Covered(fold, crypto, signer, target, original, t.attempts[i])
    {
      FaithfulIsCovered(world, fold, crypto, signer, fingerprintOf, target, original, fingerprint.value, t.attempts[i]);
    }
  }
}
