/** What holds of every event a stream ever delivers, over any bytes and any number of calls of
    Next, including calls after errors. */
module SseRuns {
  import opened GoText
  import opened Sequences
  import opened Utf8
  import opened Sse

  // ---- runs ----

  /** The outcomes of `n` successive calls of Next. */
  function Outcomes(cx: Context, s: State, n: nat): seq<Outcome>
    decreases n
  {
    if n == 0 then []
    else
      var (outcome, t) := Next(cx, s);
      [outcome] + Outcomes(cx, t, n - 1)
  }

  /** The state after `n` successive calls. */
  function After(cx: Context, s: State, n: nat): State
    decreases n
  {
    if n == 0 then s else After(cx, Next(cx, s).1, n - 1)
  }

  /** The events among the outcomes. */
  function Events(outcomes: seq<Outcome>): seq<Event> {
    if outcomes == [] then []
    else (if outcomes[0].Delivered? then [outcomes[0].event] else []) + Events(outcomes[1..])
  }

  function Names(events: seq<Event>): (names: seq<Bytes>)
    ensures |names| == |events| && forall i | 0 <= i < |events| :: names[i] == events[i].event
  {
    seq(|events|, i requires 0 <= i < |events| => events[i].event)
  }

  // ---- the legal orders ----

  predicate IsKnown(name: Bytes) {
    name == ACCEPTED || name == DELTA || name == USAGE || IsTerminal(name)
  }

  /** The name at position `i` is legal after the names before it. */
  predicate LegalAt(names: seq<Bytes>, i: nat)
    requires i < |names|
  {
    && IsKnown(names[i])
    && (names[i] == ACCEPTED <==> i == 0)
    && (forall j | 0 <= j < i :: !IsTerminal(names[j]))
    && (names[i] == DELTA || names[i] == USAGE ==> USAGE !in names[..i])
    && (names[i] == COMPLETED ==> USAGE in names[..i])
  }

  predicate LegalOrder(names: seq<Bytes>) {
    forall i | 0 <= i < |names| :: LegalAt(names, i)
  }

  /** The flags are exactly what the delivered names say. */
  predicate FlagsMatch(o: Order, names: seq<Bytes>) {
    && (o.accepted <==> ACCEPTED in names)
    && (o.usageFinal <==> USAGE in names)
    && (o.terminal <==> exists i :: 0 <= i < |names| && IsTerminal(names[i]))
    && (o.pending <==> PENDING in names)
  }

  /** validateEventOrder accepts a name exactly when it legally extends what was delivered (a pending
      event additionally needs an allowed payload), and then keeps the flags in step. */
  lemma OrderIsExact(cx: Context, o: Order, names: seq<Bytes>, name: Bytes, payload: Bytes)
    requires LegalOrder(names) && FlagsMatch(o, names)
    ensures OrderAllows(cx, o, name, payload)
            <==> LegalOrder(names + [name]) && (name == PENDING ==> cx.pendingAllowed(payload))
    ensures OrderAllows(cx, o, name, payload) ==> FlagsMatch(Advance(o, name), names + [name])
  {
    var more := names + [name];
    LegalExtension(names, name);
    AcceptedFirst(names);
    assert more[|names|] == name && forall i | 0 <= i < |names| :: more[i] == names[i];
    assert forall x :: x in more <==> x in names || x == name;
  }

  lemma LegalExtension(names: seq<Bytes>, name: Bytes)
    requires LegalOrder(names)
    ensures LegalOrder(names + [name]) <==> LegalAt(names + [name], |names|)
  {
    var more := names + [name];
    forall i | 0 <= i < |names|
      ensures LegalAt(more, i)
    {
      assert LegalAt(names, i) && more[..i] == names[..i] && more[i] == names[i];
      assert forall j | 0 <= j < i :: more[j] == names[j];
    }
  }

  lemma AcceptedFirst(names: seq<Bytes>)
    requires LegalOrder(names)
    ensures ACCEPTED in names <==> names != []
  {
    assert names != [] ==> LegalAt(names, 0);
  }

  // ---- identities ----

  function IdOf(e: Event): int {
    match ParseInt64(e.id) case Some(n) => n case None => -1
  }

  /** Ids and sequences strictly increase and the request and invocation never change. */
  predicate Consistent(events: seq<Event>) {
    && (forall i | 0 <= i < |events| ::
          IdOf(events[i]) >= 0 && events[i].requestID != "" && events[i].invocationID != "")
    && (forall i, j | 0 <= i < j < |events| ::
          && IdOf(events[i]) < IdOf(events[j])
          && events[i].sequence < events[j].sequence
          && events[i].requestID == events[j].requestID
          && events[i].invocationID == events[j].invocationID)
  }

  /** The stored identity has reached at least the events delivered; rejected ones may have moved it on. */
  predicate IdentityCovers(k: Identity, events: seq<Event>) {
    forall i | 0 <= i < |events| ::
      && k.idSeen && IdOf(events[i]) <= k.lastID
      && k.sequenceSeen && events[i].sequence <= k.lastSequence
      && k.requestID == events[i].requestID && k.invocationID == events[i].invocationID
  }

  /** The invariant tying a stream's state to the events it has delivered. */
  predicate Inv(s: State, events: seq<Event>) {
    && LegalOrder(Names(events)) && FlagsMatch(s.order, Names(events))
    && Consistent(events) && IdentityCovers(s.identity, events)
  }

  // ---- every step keeps the invariant ----

  lemma IdentityStep(cx: Context, k: Identity, f: Fields, e: Envelope, events: seq<Event>)
    requires IdentityCovers(k, events) && Consistent(events) && Admissible(cx, k, ParseInt64(f.eventID), e)
    ensures var known := Identify(ParseInt64(f.eventID).value, e);
            && IdentityCovers(known, events)
            && IdentityCovers(known, events + [EventOf(f, e)])
            && Consistent(events + [EventOf(f, e)])
  {
    var more := events + [EventOf(f, e)];
    assert forall i | 0 <= i < |events| :: more[i] == events[i];
  }

  lemma OrderStep(cx: Context, o: Order, f: Fields, e: Envelope, events: seq<Event>)
    requires LegalOrder(Names(events)) && FlagsMatch(o, Names(events))
    requires OrderAllows(cx, o, f.eventName, e.payload)
    ensures LegalOrder(Names(events + [EventOf(f, e)]))
    ensures FlagsMatch(Advance(o, f.eventName), Names(events + [EventOf(f, e)]))
  {
    OrderIsExact(cx, o, Names(events), f.eventName, e.payload);
    assert Names(events + [EventOf(f, e)]) == Names(events) + [f.eventName];
  }

  function DeliveredBy(d: Dispatched): seq<Event> {
    if d.Accepted? then [d.event] else []
  }

  lemma DispatchKeeps(cx: Context, s: State, events: seq<Event>)
    requires Inv(s, events)
    ensures Inv(Dispatch(cx, s).1, events + DeliveredBy(Dispatch(cx, s).0))
  {
    var f := s.fields;
    assert events + [] == events;
    if f.dataLines != [] && EnvelopeOf(cx, f).Some? {
      var e := EnvelopeOf(cx, f).value;
      if Admissible(cx, s.identity, ParseInt64(f.eventID), e) {
        IdentityStep(cx, s.identity, f, e, events);
        if OrderAllows(cx, s.order, f.eventName, e.payload) {
          OrderStep(cx, s.order, f, e, events);
        }
      }
    }
  }

  function DeliveredIn(o: Outcome): seq<Event> {
    if o.Delivered? then [o.event] else []
  }

  lemma ProcessKeeps(cx: Context, s: State, line: Bytes, events: seq<Event>)
    requires Inv(s, events)
    ensures var (found, t) := ProcessLine(cx, s, line);
            Inv(t, events + if found.Some? then DeliveredIn(found.value) else [])
  {
    assert events + [] == events;
    DispatchKeeps(cx, s, events);
  }

  lemma EndKeeps(cx: Context, s: State, events: seq<Event>)
    requires Inv(s, events)
    ensures Inv(AtEnd(cx, s).1, events + DeliveredIn(AtEnd(cx, s).0))
  {
    assert events + [] == events;
    DispatchKeeps(cx, s, events);
  }

  lemma {:induction false} NextKeeps(cx: Context, s: State, events: seq<Event>)
    requires Inv(s, events)
    ensures Inv(Next(cx, s).1, events + DeliveredIn(Next(cx, s).0))
    decreases |s.body|
  {
    assert events + [] == events;
    if !s.closed {
      var (line, rest, ended) := ReadLine(s.body);
      var u := s.(body := rest);
      ProcessKeeps(cx, u, line, events);
      var (found, t) := ProcessLine(cx, u, line);
      if found.None? {
        if ended {
          EndKeeps(cx, t, events);
        } else {
          NextKeeps(cx, t, events);
        }
      }
    }
  }

  lemma FirstCall(cx: Context, s: State, t: State, o: Outcome, n: nat)
    requires n > 0 && Next(cx, s) == (o, t)
    ensures Events(Outcomes(cx, s, n)) == DeliveredIn(o) + Events(Outcomes(cx, t, n - 1))
    ensures After(cx, s, n) == After(cx, t, n - 1)
  {
    assert ([o] + Outcomes(cx, t, n - 1))[1..] == Outcomes(cx, t, n - 1);
  }

  /** The invariant holds after `n` calls, `before` having been delivered before them. */
  predicate InvAfter(cx: Context, s: State, n: nat, before: seq<Event>) {
    Inv(After(cx, s, n), before + Events(Outcomes(cx, s, n)))
  }

  lemma RunStep(cx: Context, s: State, t: State, o: Outcome, n: nat, before: seq<Event>)
    requires n > 0 && Next(cx, s) == (o, t) && InvAfter(cx, t, n - 1, before + DeliveredIn(o))
    ensures InvAfter(cx, s, n, before)
  {
    FirstCall(cx, s, t, o, n);
    Assoc(before, DeliveredIn(o), Events(Outcomes(cx, t, n - 1)));
  }

  lemma NoCalls(cx: Context, s: State, before: seq<Event>)
    requires Inv(s, before)
    ensures InvAfter(cx, s, 0, before)
  {
    assert before + [] == before;
  }

  lemma {:induction false} RunKeeps(cx: Context, s: State, n: nat, before: seq<Event>)
    requires Inv(s, before)
    ensures InvAfter(cx, s, n, before)
    decreases n
  {
    if n == 0 {
      NoCalls(cx, s, before);
    } else {
      var (o, t) := Next(cx, s);
      NextKeeps(cx, s, before);
      RunKeeps(cx, t, n - 1, before + DeliveredIn(o));
      RunStep(cx, s, t, o, n, before);
    }
  }

  // ---- the theorems ----

  /** Over every body and every number of calls: the events delivered come in a legal order, their ids
      and sequences strictly increase, their request and invocation never change, and the flags the
      stream reports are exactly those of the events delivered. */
  lemma DeliveredEventsAreSound(cx: Context, body: Bytes, n: nat)
    ensures var events := Events(Outcomes(cx, Initial(body), n));
            && LegalOrder(Names(events))
            && Consistent(events)
            && FlagsMatch(After(cx, Initial(body), n).order, Names(events))
  {
    RunKeeps(cx, Initial(body), n, []);
    var events := Events(Outcomes(cx, Initial(body), n));
    assert [] + events == events;
  }

  function Deltas(k: nat): seq<Bytes> {
    seq(k, _ => DELTA)
  }

  /** The orders written out: accepted, any number of deltas, perhaps the usage, perhaps a terminal
      event, where completed needs the usage. */
  ghost predicate HasShape(names: seq<Bytes>, k: nat, tail: seq<Bytes>) {
    && names == [ACCEPTED] + Deltas(k) + tail
    && |tail| <= 2
    && (|tail| == 2 ==> tail[0] == USAGE && IsTerminal(tail[1]))
    && (|tail| == 1 ==> tail[0] == USAGE || (IsTerminal(tail[0]) && tail[0] != COMPLETED))
  }

  ghost predicate IsPrefixOfALegalStream(names: seq<Bytes>) {
    names == [] || exists k: nat, tail: seq<Bytes> :: HasShape(names, k, tail)
  }

  /** A legal order is a prefix of: accepted, delta*, [usage.final], terminal. */
  lemma {:induction false} LegalOrderShape(names: seq<Bytes>)
    requires LegalOrder(names)
    ensures IsPrefixOfALegalStream(names)
    decreases |names|
  {
    if names != [] {
      var n := |names| - 1;
      var front, name := names[..n], names[n];
      assert names == front + [name];
      forall i | 0 <= i < n
        ensures LegalAt(front, i)
      {
        assert LegalAt(names, i) && front[..i] == names[..i];
      }
      assert LegalAt(names, n);
      if front == [] {
        assert HasShape(names, 0, []);
      } else {
        LegalOrderShape(front);
        var k: nat, tail: seq<Bytes> :| HasShape(front, k, tail);
        assert forall x :: x in tail ==> x in front;
        ExtendShape(front, k, tail, name);
      }
    }
  }

  lemma ExtendShape(front: seq<Bytes>, k: nat, tail: seq<Bytes>, name: Bytes)
    requires HasShape(front, k, tail) && LegalAt(front + [name], |front|)
    ensures IsPrefixOfALegalStream(front + [name])
  {
    var names := front + [name];
    assert names[..|front|] == front;
    assert forall i | 0 <= i < |tail| :: names[1 + k + i] == tail[i];
    assert USAGE in front <==> USAGE in tail;
    if name == DELTA {
      assert tail == [];
      assert names == [ACCEPTED] + Deltas(k + 1) + [];
      assert HasShape(names, k + 1, []);
    } else {
      assert names == [ACCEPTED] + Deltas(k) + (tail + [name]);
      assert HasShape(names, k, tail + [name]);
    }
  }
}
