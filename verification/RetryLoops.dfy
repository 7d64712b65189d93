/** The two-attempt loops: AuthenticatedClient.Invoke and InvokeWithAssertion, GatewayClient.doInvocation
    and RuntimeClient.invokeAssertion.  What they ask of their surroundings is kept in a log; every
    answer is an arbitrary function of the log so far. */
module RetryLoops {
  import opened Wrappers
  import opened Sequences
  import opened Utf8
  import opened TokenSource
  import opened Assertion

  /** An error, by the code ErrorCode finds in it. */
  datatype Failure = Failure(code: Bytes)

  const UNAUTHENTICATED: Bytes := "runtime_unauthenticated"

  predicate IsRuntimeUnauthenticated(err: Option<Failure>) {
    err.Some? && err.value.code == UNAUTHENTICATED
  }

  /** The business fields of a request. */
  datatype Message = Message(actor: Bytes, key: Bytes, body: Bytes)

  datatype Call = Call(target: Bytes, bearer: Bytes, assertion: Option<Bytes>, message: Message)

  datatype Signature = Signature(compact: Bytes, claims: Claims)

  datatype Event =
    | TokenAsked(token: Result<Token, Failure>)
    | Signed(signature: Result<Signature, Failure>)
    | Sent(call: Call, reply: Option<Failure>)
    | Invalidated

  /** The reply to an HTTP request. */
  datatype HttpReply = TransportError(cancelled: bool) | Response(status: int, code: Bytes)

  const INTERNAL_ERROR: Failure := Failure("internal_error")
  const NO_CODE: Failure := Failure("")

  /** The live request object: its fields can change whenever control is outside the loop. */
  class LiveRequest {
    var message: Message
    var assertion: Option<Bytes>

    constructor (message: Message)
      ensures this.message == message && assertion == None
    {
      this.message, assertion := message, None;
    }
  }

  class Surroundings {
    const canInvalidate: bool
    const tokenAnswer: seq<Event> -> Result<Token, Failure>
    const signAnswer: (seq<Event>, Token) -> Result<Signature, Failure>
    const applyAnswer: seq<Event> -> Option<Failure>
    const buildAnswer: seq<Event> -> bool
    const sendAnswer: seq<Event> -> Option<Failure>
    const httpAnswer: seq<Event> -> HttpReply
    const interference: seq<Event> -> Message
    const request: LiveRequest
    var log: seq<Event>

    constructor (
        canInvalidate: bool, tokenAnswer: seq<Event> -> Result<Token, Failure>,
        signAnswer: (seq<Event>, Token) -> Result<Signature, Failure>, applyAnswer: seq<Event> -> Option<Failure>,
        buildAnswer: seq<Event> -> bool, sendAnswer: seq<Event> -> Option<Failure>, httpAnswer: seq<Event> -> HttpReply,
        interference: seq<Event> -> Message, request: LiveRequest)
      ensures this.request == request && log == []
    {
      this.canInvalidate, this.tokenAnswer, this.signAnswer := canInvalidate, tokenAnswer, signAnswer;
      this.applyAnswer, this.buildAnswer := applyAnswer, buildAnswer;
      this.sendAnswer, this.httpAnswer := sendAnswer, httpAnswer;
      this.interference, this.request, log := interference, request, [];
    }

    /** tokens.Token. */
    method AskToken() returns (r: Result<Token, Failure>)
      modifies this`log, request`message
      ensures r == tokenAnswer(old(log)) && log == old(log) + [TokenAsked(r)]
    {
      r := tokenAnswer(log);
      log := log + [TokenAsked(r)];
      request.message := interference(log);
    }

    /** The Sign callback; what it answers is up to signAnswer. */
    method Sign(token: Token) returns (r: Result<Signature, Failure>)
      modifies this`log, request`message
      ensures r == signAnswer(old(log), token) && log == old(log) + [Signed(r)]
    {
      r := signAnswer(log, token);
      log := log + [Signed(r)];
      request.message := interference(log);
    }

    /** The ApplyAssertion callback: writes the assertion into the live request. */
    method ApplyAssertion(assertion: Bytes) returns (err: Option<Failure>)
      modifies request
      ensures err == applyAnswer(log) && request.message == interference(log)
      ensures err.None? ==> request.assertion == Some(assertion)
    {
      err := applyAnswer(log);
      if err.None? {
        request.assertion := Some(assertion);
      }
      request.message := interference(log);
    }

    /** http.NewRequestWithContext, which refuses some methods and URLs. */
    method BuildRequest() returns (ok: bool)
      ensures ok == buildAnswer(log)
    {
      ok := buildAnswer(log);
    }

    /** connection.Invoke: sends the request as it stands. */
    method Invoke(target: Bytes, bearer: Bytes, assertion: Option<Bytes>) returns (err: Option<Failure>)
      modifies this`log, request`message
      ensures log == old(log) + [Sent(Call(target, bearer, assertion, old(request.message)), err)]
    {
      err := sendAnswer(log);
      log := log + [Sent(Call(target, bearer, assertion, request.message), err)];
      request.message := interference(log);
    }

    /** httpClient.Do, with the error doInvocation makes of the reply. */
    method Do(target: Bytes, bearer: Bytes, assertion: Bytes, message: Message) returns (reply: HttpReply)
      modifies this`log
      ensures log == old(log) + [Sent(Call(target, bearer, Some(assertion), message), ErrorOf(reply))]
    {
      reply := httpAnswer(log);
      log := log + [Sent(Call(target, bearer, Some(assertion), message), ErrorOf(reply))];
    }

    /** TokenInvalidator.Invalidate. */
    method Invalidate()
      modifies this`log
      ensures log == old(log) + [Invalidated]
    {
      log := log + [Invalidated];
    }
  }

  /** Only a 401 is an error to doInvocation; every other response is handed to its caller. */
  function ErrorOf(reply: HttpReply): Option<Failure> {
    match reply
    case TransportError(cancelled) => Some(if cancelled then NO_CODE else INTERNAL_ERROR)
    case Response(status, code) => if status == 401 then Some(Failure(code)) else None
  }

  /** A transport failure is internal, unless the caller cancelled; of the responses only a 401 is an error,
      with the code it carries. */
  lemma RepliesAsErrors(reply: HttpReply)
    ensures ErrorOf(reply) == None <==> reply.Response? && reply.status != 401
    ensures reply.Response? && reply.status == 401 ==> ErrorOf(reply) == Some(Failure(reply.code))
    ensures reply == TransportError(false) ==> ErrorOf(reply) == Some(Failure("internal_error"))
    ensures reply == TransportError(true) ==> ErrorOf(reply) == Some(Failure(""))
  {
  }

  // ---- what a loop may do ----

  /** An attempt that got as far as sending. */
  datatype Attempt = Attempt(token: Token, signature: Option<Signature>, call: Call, reply: Option<Failure>)

  predicate WellFormed(a: Attempt, target: Bytes) {
    && a.call.target == target && a.call.bearer == a.token.accessToken
    && a.call.assertion == (if a.signature.Some? then Some(a.signature.value.compact) else None)
  }

  function EventsOf(a: Attempt): seq<Event> {
    [TokenAsked(Ok(a.token))] + (if a.signature.Some? then [Signed(Ok(a.signature.value))] else [])
    + [Sent(a.call, a.reply)]
  }

  /** The log of a loop: its attempts, an Invalidate before each but the first, and what an attempt that
      never sent left behind. */
  function LogOf(attempts: seq<Attempt>, rest: seq<Event>): seq<Event> {
    if attempts == [] then rest
    else if |attempts| == 1 && rest == [] then EventsOf(attempts[0])
    else EventsOf(attempts[0]) + [Invalidated] + LogOf(attempts[1..], rest)
  }

  predicate NothingSent(events: seq<Event>) {
    forall i | 0 <= i < |events| :: !events[i].Sent? && !events[i].Invalidated?
  }

  /** The discipline of every loop here.  A call refused before its loop has neither attempts nor rest. */
  predicate Disciplined(
      attempts: seq<Attempt>, rest: seq<Event>, err: Option<Failure>, target: Bytes, canInvalidate: bool)
  {
    && |attempts| <= 2 && (forall i | 0 <= i < |attempts| :: WellFormed(attempts[i], target))
    && (|attempts| == 2 || (attempts != [] && rest != []) ==>
          canInvalidate && IsRuntimeUnauthenticated(attempts[0].reply))
    && if attempts == [] && rest == [] then err.Some?
       else if rest == [] then
         && err == attempts[|attempts| - 1].reply
         && (|attempts| == 1 && canInvalidate ==> !IsRuntimeUnauthenticated(err))
       else
         |attempts| <= 1 && NothingSent(rest) && err.Some?
  }

  // ---- the loops ----

  /** Ghost bookkeeping of a loop: the attempts that were sent and the events of one that was not. */
  datatype Trace = Trace(attempts: seq<Attempt>, rest: seq<Event>)

  /** The log at the top of an iteration, after the attempts made so far. */
  function LogBefore(attempts: seq<Attempt>): seq<Event> {
    if attempts == [] then [] else EventsOf(attempts[0]) + [Invalidated]
  }

  /** The state at the top of an iteration: at most one attempt has been made, and it was rejected. */
  predicate AtTop(attempts: seq<Attempt>, attempt: nat, target: Bytes, canInvalidate: bool) {
    && attempt == |attempts| <= 1
    && (attempts != [] ==>
          WellFormed(attempts[0], target) && canInvalidate && IsRuntimeUnauthenticated(attempts[0].reply))
  }

  /** An attempt was sent that the loop returns. */
  lemma Finish(
      base: seq<Event>, attempts: seq<Attempt>, last: Attempt, attempt: nat, target: Bytes, canInvalidate: bool)
    requires AtTop(attempts, attempt, target, canInvalidate) && WellFormed(last, target)
    requires !IsRuntimeUnauthenticated(last.reply) || attempt == 1 || !canInvalidate
    ensures base + LogBefore(attempts) + EventsOf(last) == base + LogOf(attempts + [last], [])
    ensures Disciplined(attempts + [last], [], last.reply, target, canInvalidate)
  {
    Assoc(base, LogBefore(attempts), EventsOf(last));
    if attempts == [] {
      assert attempts + [last] == [last] && [] + EventsOf(last) == EventsOf(last);
    } else {
      assert attempts + [last] == [attempts[0], last] && (attempts + [last])[1..] == [last];
    }
  }

  /** An attempt failed before it was sent. */
  lemma Abort(base: seq<Event>, attempts: seq<Attempt>, rest: seq<Event>, err: Option<Failure>, attempt: nat,
              target: Bytes, canInvalidate: bool)
    requires AtTop(attempts, attempt, target, canInvalidate) && rest != [] && NothingSent(rest) && err.Some?
    ensures base + LogBefore(attempts) + rest == base + LogOf(attempts, rest)
    ensures Disciplined(attempts, rest, err, target, canInvalidate)
  {
    Assoc(base, LogBefore(attempts), rest);
    if attempts == [] {
      assert [] + rest == rest;
    } else {
      assert attempts[1..] == [];
    }
  }

  /** The first attempt was rejected and the token invalidated. */
  lemma Again(base: seq<Event>, attempts: seq<Attempt>, last: Attempt, attempt: nat, target: Bytes)
    requires AtTop(attempts, attempt, target, true) && attempt == 0
    requires WellFormed(last, target) && IsRuntimeUnauthenticated(last.reply)
    ensures AtTop([last], 1, target, true)
    ensures base + LogBefore(attempts) + EventsOf(last) + [Invalidated] == base + LogBefore([last])
  {
    assert base + [] == base;
    Assoc(base, EventsOf(last), [Invalidated]);
  }

  /** The attempt makes a loop try again: it was refused with the one code that allows it, and the token can
      be discarded. */
  predicate Retriable(a: Attempt, canInvalidate: bool) {
    canInvalidate && a.reply == Some(Failure("runtime_unauthenticated"))
  }

  /** What an attempt leaves behind: itself if it was sent, else the events before it failed. */
  datatype Made = Made(last: Option<Attempt>, events: seq<Event>)

  predicate MadeWell(m: Made, err: Option<Failure>, target: Bytes) {
    match m.last
    case None => m.events != [] && NothingSent(m.events) && err.Some?
    case Some(a) => m.events == EventsOf(a) && WellFormed(a, target) && err == a.reply
  }

  /** What keeps an attempt of Invoke that starts with this log from sending. */
  ghost function PlainObstacle(world: Surroundings, log: seq<Event>): Option<Failure> {
    match world.tokenAnswer(log)
    case Ok(_) => None
    case Err(e) => Some(e)
  }

  /** One attempt of Invoke. */
  method AttemptPlain(world: Surroundings, target: Bytes) returns (sent: bool, err: Option<Failure>, ghost m: Made)
    modifies world`log, world.request`message
    ensures world.log == old(world.log) + m.events && MadeWell(m, err, target) && sent == m.last.Some?
    ensures sent ==> m.last.value.signature.None?
    ensures sent <==> PlainObstacle(world, old(world.log)) == None
    ensures !sent ==> err == PlainObstacle(world, old(world.log))
  {
    var token := world.AskToken();
    if token.Err? {
      return false, Some(token.error), Made(None, [TokenAsked(token)]);
    }
    ghost var call := Call(target, token.value.accessToken, None, world.request.message);
    err := world.Invoke(target, token.value.accessToken, None);
    ghost var a := Attempt(token.value, None, call, err);
    PlainEvents(old(world.log), a);
    sent, m := true, Made(Some(a), EventsOf(a));
  }

  lemma PlainEvents(base: seq<Event>, a: Attempt)
    requires a.signature.None?
    ensures base + [TokenAsked(Ok(a.token))] + [Sent(a.call, a.reply)] == base + EventsOf(a)
  {
  }

  /** AuthenticatedClient.Invoke. */
  method Invoke(world: Surroundings, target: Bytes) returns (err: Option<Failure>, ghost t: Trace)
    modifies world`log, world.request`message
    ensures world.log == old(world.log) + LogOf(t.attempts, t.rest)
    ensures Disciplined(t.attempts, t.rest, err, target, world.canInvalidate)
    ensures forall i | 0 <= i < |t.attempts| :: t.attempts[i].signature.None?
    ensures t.attempts != [] <==> PlainObstacle(world, old(world.log)) == None
    ensures |t.attempts| == 2
            <==> && t.attempts != [] && Retriable(t.attempts[0], world.canInvalidate)
                 && PlainObstacle(world, old(world.log) + LogBefore(t.attempts)) == None
    ensures t.rest != [] ==> err == PlainObstacle(world, old(world.log) + LogBefore(t.attempts))
  {
    ghost var attempts: seq<Attempt> := [];
    var attempt := 0;
    while attempt < 2
      invariant AtTop(attempts, attempt, target, world.canInvalidate)
      invariant world.log == old(world.log) + LogBefore(attempts)
      invariant attempts != [] ==> attempts[0].signature.None? && PlainObstacle(world, old(world.log)) == None
      decreases 2 - attempt
    {
      ghost var m;
      var sent;
      sent, err, m := AttemptPlain(world, target);
      if !sent {
        Abort(old(world.log), attempts, m.events, err, attempt, target, world.canInvalidate);
        return err, Trace(attempts, m.events);
      }
      if !IsRuntimeUnauthenticated(err) || attempt == 1 || !world.canInvalidate {
        Finish(old(world.log), attempts, m.last.value, attempt, target, world.canInvalidate);
        return err, Trace(attempts + [m.last.value], []);
      }
      world.Invalidate();
      Again(old(world.log), attempts, m.last.value, attempt, target);
      attempts := [m.last.value];
      attempt := attempt + 1;
    }
    // Not reached: the second attempt always returns.
    assert false;
  }

  // ---- with an assertion ----

  /** What `identify` reads from the live request: its idempotency key and fingerprint. */
  type Identify = Message -> Result<(Bytes, Bytes), Failure>

  datatype AssertionCall = AssertionCall(key: Bytes, fingerprint: Bytes, identify: Option<Identify>)

  const CHANGED: Failure := NO_CODE

  /** The ReadIdentity check: None when the live request still is the one the call was made for. */
  function CheckIdentity(call: AssertionCall, m: Message): Option<Failure> {
    if call.identify.None? then None
    else match call.identify.value(m)
      case Err(e) => Some(e)
      case Ok((key, fingerprint)) =>
        if key != call.key || fingerprint != call.fingerprint then Some(CHANGED) else None
  }

  /** A signature is what the Sign callback answered at some point for that attempt's token. */
  ghost predicate SignedBy(world: Surroundings, a: Attempt) {
    a.signature.Some? && exists h :: world.signAnswer(h, a.token) == Ok(a.signature.value)
  }

  /** An attempt signed its own assertion and, when it was sent, passed the identity check. */
  ghost predicate Faithful(world: Surroundings, call: AssertionCall, a: Attempt) {
    SignedBy(world, a) && CheckIdentity(call, a.call.message) == None
  }

  lemma AttemptEvents(base: seq<Event>, a: Attempt)
    requires a.signature.Some?
    ensures base + [TokenAsked(Ok(a.token)), Signed(Ok(a.signature.value))] + [Sent(a.call, a.reply)]
            == base + EventsOf(a)
  {
  }

  /** What keeps an attempt of InvokeWithAssertion that starts with this log from sending: no token, no
      signature, an assertion that cannot be written into the request, or a request that has changed. */
  ghost function AssertionObstacle(world: Surroundings, call: AssertionCall, log: seq<Event>): Option<Failure> {
    match world.tokenAnswer(log)
    case Err(e) => Some(e)
    case Ok(token) =>
      var asked := log + [TokenAsked(Ok(token))];
      match world.signAnswer(asked, token)
      case Err(e) => Some(e)
      case Ok(signature) =>
        var signed := asked + [Signed(Ok(signature))];
        if world.applyAnswer(signed).Some? then world.applyAnswer(signed)
        else CheckIdentity(call, world.interference(signed))
  }

  /** The part of an attempt before the send: a token, a fresh signature, the assertion written into the
      live request, and the identity check. */
  method Prepare(world: Surroundings, call: AssertionCall)
      returns (r: Result<Token, Failure>, ghost signature: Signature, ghost events: seq<Event>)
    modifies world`log, world.request
    ensures world.log == old(world.log) + events && events != [] && NothingSent(events)
    ensures AssertionObstacle(world, call, old(world.log)) == if r.Ok? then None else Some(r.error)
    ensures r.Ok? ==>
      && events == [TokenAsked(r), Signed(Ok(signature))]
      && (exists h :: world.signAnswer(h, r.value) == Ok(signature))
      && world.request.assertion == Some(signature.compact)
      && CheckIdentity(call, world.request.message) == None
  {
    signature := Signature("", Claims("", "", "", "", "", "", "", 0, 0, ""));
    r := world.AskToken();
    events := [TokenAsked(r)];
    if r.Err? {
      return;
    }
    ghost var asked := world.log;
    var signed := world.Sign(r.value);
    events := [TokenAsked(r), Signed(signed)];
    if signed.Err? {
      r := Err(signed.error);
      return;
    }
    signature := signed.value;
    assert world.signAnswer(asked, r.value) == Ok(signature);
    var refused := world.ApplyAssertion(signed.value.compact);
    if refused.Some? {
      r := Err(refused.value);
      return;
    }
    var changed := CheckIdentity(call, world.request.message);
    if changed.Some? {
      r := Err(changed.value);
    }
  }

  /** One attempt of InvokeWithAssertion: prepare and send. */
  method AttemptWithAssertion(world: Surroundings, target: Bytes, call: AssertionCall)
      returns (sent: bool, err: Option<Failure>, ghost m: Made)
    modifies world`log, world.request
    ensures world.log == old(world.log) + m.events && MadeWell(m, err, target) && sent == m.last.Some?
    ensures sent ==> Faithful(world, call, m.last.value)
    ensures sent <==> AssertionObstacle(world, call, old(world.log)) == None
    ensures !sent ==> err == AssertionObstacle(world, call, old(world.log))
  {
    ghost var signature, events;
    var token;
    token, signature, events := Prepare(world, call);
    if token.Err? {
      return false, Some(token.error), Made(None, events);
    }
    ghost var message := Call(target, token.value.accessToken, world.request.assertion, world.request.message);
    err := world.Invoke(target, token.value.accessToken, world.request.assertion);
    ghost var a := Attempt(token.value, Some(signature), message, err);
    AttemptEvents(old(world.log), a);
    sent, m := true, Made(Some(a), EventsOf(a));
  }

  /** AuthenticatedClient.InvokeWithAssertion. */
  method InvokeWithAssertion(world: Surroundings, target: Bytes, call: AssertionCall)
      returns (err: Option<Failure>, ghost t: Trace)
    modifies world`log, world.request
    ensures world.log == old(world.log) + LogOf(t.attempts, t.rest)
    ensures Disciplined(t.attempts, t.rest, err, target, world.canInvalidate)
    ensures forall i | 0 <= i < |t.attempts| :: Faithful(world, call, t.attempts[i])
    ensures CheckIdentity(call, old(world.request.message)) != None ==>
      err == CheckIdentity(call, old(world.request.message)) && t == Trace([], [])
    ensures CheckIdentity(call, old(world.request.message)) == None ==>
      (t.attempts != [] <==> AssertionObstacle(world, call, old(world.log)) == None)
    ensures |t.attempts| == 2
            <==> && t.attempts != [] && Retriable(t.attempts[0], world.canInvalidate)
                 && AssertionObstacle(world, call, old(world.log) + LogBefore(t.attempts)) == None
    ensures t.rest != [] ==> err == AssertionObstacle(world, call, old(world.log) + LogBefore(t.attempts))
  {
    var changed := CheckIdentity(call, world.request.message);
    if changed.Some? {
      return changed, Trace([], []);
    }
    ghost var attempts: seq<Attempt> := [];
    var attempt := 0;
    while attempt < 2
      invariant AtTop(attempts, attempt, target, world.canInvalidate)
      invariant world.log == old(world.log) + LogBefore(attempts)
      invariant attempts != [] ==>
        Faithful(world, call, attempts[0]) && AssertionObstacle(world, call, old(world.log)) == None
      decreases 2 - attempt
    {
      ghost var m;
      var sent;
      sent, err, m := AttemptWithAssertion(world, target, call);
      if !sent {
        Abort(old(world.log), attempts, m.events, err, attempt, target, world.canInvalidate);
        return err, Trace(attempts, m.events);
      }
      if !IsRuntimeUnauthenticated(err) || attempt == 1 || !world.canInvalidate {
        Finish(old(world.log), attempts, m.last.value, attempt, target, world.canInvalidate);
        return err, Trace(attempts + [m.last.value], []);
      }
      world.Invalidate();
      Again(old(world.log), attempts, m.last.value, attempt, target);
      attempts := [m.last.value];
      attempt := attempt + 1;
    }
    // Not reached: the second attempt always returns.
    assert false;
  }

  // ---- over HTTP ----

  /** An attempt of doInvocation sends the given message with a bearer token and its own signature. */
  ghost predicate HttpAttempt(world: Surroundings, message: Message, a: Attempt) {
    SignedBy(world, a) && a.call.message == message && a.token.tokenType == "Bearer" && a.token.accessToken != ""
  }

  /** What keeps an attempt of doInvocation that starts with this log from sending: no usable bearer token,
      no signature, or a request that cannot be built. */
  ghost function HttpObstacle(world: Surroundings, log: seq<Event>): Option<Failure> {
    match world.tokenAnswer(log)
    case Err(e) => Some(e)
    case Ok(token) =>
      var asked := log + [TokenAsked(Ok(token))];
      if token.tokenType != "Bearer" || token.accessToken == "" then Some(Failure("internal_error"))
      else match world.signAnswer(asked, token)
        case Err(e) => Some(e)
        case Ok(signature) =>
          if world.buildAnswer(asked + [Signed(Ok(signature))]) then None else Some(Failure("internal_error"))
  }

  /** One attempt of doInvocation: the reply, if the request was sent. */
  method AttemptOverHttp(world: Surroundings, path: Bytes, message: Message)
      returns (reply: Option<HttpReply>, err: Option<Failure>, ghost m: Made)
    modifies world`log, world.request`message
    ensures world.log == old(world.log) + m.events && MadeWell(m, err, path) && reply.Some? == m.last.Some?
    ensures reply.Some? ==> err == ErrorOf(reply.value) && HttpAttempt(world, message, m.last.value)
    ensures reply.Some? <==> HttpObstacle(world, old(world.log)) == None
    ensures reply.None? ==> err == HttpObstacle(world, old(world.log))
  {
    var token := world.AskToken();
    m := Made(None, [TokenAsked(token)]);
    if token.Err? {
      return None, Some(token.error), m;
    }
    if token.value.tokenType != "Bearer" || token.value.accessToken == "" {
      return None, Some(INTERNAL_ERROR), m;
    }
    ghost var asked := world.log;
    var signed := world.Sign(token.value);
    m := Made(None, [TokenAsked(token), Signed(signed)]);
    if signed.Err? {
      return None, Some(signed.error), m;
    }
    var built := world.BuildRequest();
    if !built {
      return None, Some(INTERNAL_ERROR), m;
    }
    var answer := world.Do(path, token.value.accessToken, signed.value.compact, message);
    ghost var call := Call(path, token.value.accessToken, Some(signed.value.compact), message);
    ghost var a := Attempt(token.value, Some(signed.value), call, ErrorOf(answer));
    assert world.signAnswer(asked, a.token) == Ok(a.signature.value);
    AttemptEvents(old(world.log), a);
    return Some(answer), ErrorOf(answer), Made(Some(a), EventsOf(a));
  }

  /** GatewayClient.doInvocation: the response, or the error.  `resolved` is resolveActor's answer. */
  method DoInvocation(world: Surroundings, path: Bytes, resolved: Result<Bytes, Failure>, key: Bytes, body: Bytes)
      returns (response: Option<HttpReply>, err: Option<Failure>, ghost t: Trace)
    modifies world`log, world.request`message
    ensures world.log == old(world.log) + LogOf(t.attempts, t.rest)
    ensures Disciplined(t.attempts, t.rest, err, path, world.canInvalidate)
    ensures resolved.Err? ==> err == Some(resolved.error) && t == Trace([], [])
    ensures resolved.Ok? ==>
      forall i | 0 <= i < |t.attempts| :: HttpAttempt(world, Message(resolved.value, key, body), t.attempts[i])
    ensures response.Some? <==> err.None?
    ensures response.Some? ==> response.value.Response? && response.value.status != 401
    ensures t.attempts != [] <==> resolved.Ok? && HttpObstacle(world, old(world.log)) == None
    ensures |t.attempts| == 2
            <==> && t.attempts != [] && Retriable(t.attempts[0], world.canInvalidate)
                 && HttpObstacle(world, old(world.log) + LogBefore(t.attempts)) == None
    ensures t.rest != [] ==> err == HttpObstacle(world, old(world.log) + LogBefore(t.attempts))
  {
    if resolved.Err? {
      return None, Some(resolved.error), Trace([], []);
    }
    var message := Message(resolved.value, key, body);
    ghost var attempts: seq<Attempt> := [];
    var attempt := 0;
    while attempt < 2
      invariant AtTop(attempts, attempt, path, world.canInvalidate)
      invariant world.log == old(world.log) + LogBefore(attempts)
      invariant attempts != [] ==>
        HttpAttempt(world, message, attempts[0]) && HttpObstacle(world, old(world.log)) == None
      decreases 2 - attempt
    {
      ghost var m;
      var reply;
      reply, err, m := AttemptOverHttp(world, path, message);
      if reply.None? {
        Abort(old(world.log), attempts, m.events, err, attempt, path, world.canInvalidate);
        return None, err, Trace(attempts, m.events);
      }
      if !IsRuntimeUnauthenticated(err) || attempt != 0 || !world.canInvalidate {
        Finish(old(world.log), attempts, m.last.value, attempt, path, world.canInvalidate);
        return if err.None? then reply else None, err, Trace(attempts + [m.last.value], []);
      }
      world.Invalidate();
      Again(old(world.log), attempts, m.last.value, attempt, path);
      attempts := [m.last.value];
      attempt := attempt + 1;
    }
    // Not reached: the second attempt always returns.
    assert false;
  }
}
