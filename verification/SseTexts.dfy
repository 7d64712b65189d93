/** The stream seen from outside: which texts an event is written as and read from, which dispatches and
    bodies are refused, and what every delivered event was made of. */
module SseTexts {
  import opened Wrappers
  import opened Sequences
  import opened GoText
  import opened Utf8
  import opened Sse
  import opened SseRuns
  import opened SseFrames

  // ---- the data text ----

  lemma {:induction false} DataTextIsJoin(lines: seq<Bytes>)
    requires lines != []
    ensures DataText(lines) == Join(lines, "\n")
  {
    if |lines| > 1 {
      DataTextIsJoin(lines[1..]);
    }
  }

  /** Lines without line feeds make up a text exactly if they are that text split at its line feeds: no line
      is dropped and nothing but line feeds is put between them. */
  lemma DataTextIsExact(lines: seq<Bytes>, t: Bytes)
    ensures lines == Split(t, '\n') <==> lines != [] && (forall l | l in lines :: '\n' !in l) && DataText(lines) == t
  {
    JoinSplit(t, '\n');
    if lines != [] {
      DataTextIsJoin(lines);
      if forall l | l in lines :: '\n' !in l {
        SplitJoin(lines, '\n');
      }
    }
  }

  // ---- the names on the wire ----

  /** The event names, and those that end the stream. */
  lemma EventNames(name: Bytes)
    ensures IsKnown(name)
            <==> name in {"invocation.accepted", "output.delta", "usage.final", "invocation.completed",
                          "invocation.failed", "invocation.cancelled", "invocation.pending"}
    ensures IsTerminal(name)
            <==> name in {"invocation.completed", "invocation.failed", "invocation.cancelled", "invocation.pending"}
    ensures name == PENDING <==> name == "invocation.pending"
    ensures name == COMPLETED <==> name == "invocation.completed"
    ensures name == ACCEPTED <==> name == "invocation.accepted"
    ensures name == USAGE <==> name == "usage.final"
  {
  }

  // ---- events and the lines that write them ----

  /** The values of the data lines, in order. */
  function DataValues(ls: seq<Line>): seq<Bytes> {
    if ls == [] then []
    else (if ls[0].content.Data? then [ls[0].content.value] else []) + DataValues(ls[1..])
  }

  /** The last line that names an event names this one. */
  ghost predicate LastNames(ls: seq<Line>, name: Bytes) {
    exists i :: 0 <= i < |ls| && ls[i].content == Name(name) && forall j | i < j < |ls| :: !ls[j].content.Name?
  }

  ghost predicate LastIds(ls: seq<Line>, id: Bytes) {
    exists i :: 0 <= i < |ls| && ls[i].content == Id(id) && forall j | i < j < |ls| :: !ls[j].content.Id?
  }

  /** The event is what the data text says, as encoding/json reads it, and dispatch can accept it. */
  predicate Says(cx: Context, t: Bytes, e: Event) {
    && cx.envelope(t) == Some(Envelope(e.requestID, e.invocationID, e.sequence, e.occurredAtMS, e.payload))
    && cx.isObject(e.payload) && e.sequence > 0 && (e.event == PENDING ==> cx.pendingAllowed(e.payload))
  }

  /** The lines write the event `e`: its name, its id, and its data text over any number of data lines. */
  ghost predicate WritesEvent(cx: Context, ls: seq<Line>, e: Event, t: Bytes) {
    && (forall i | 0 <= i < |ls| :: Writable(ls[i]))
    && DataValues(ls) == Split(t, '\n') && LastNames(ls, e.event) && LastIds(ls, e.id)
    && Says(cx, t, e)
  }

  lemma {:induction false} AppliedData(f: Fields, ls: seq<Line>)
    ensures ApplyAll(f, ls).dataLines == f.dataLines + DataValues(ls)
    decreases |ls|
  {
    if ls == [] {
      assert f.dataLines + [] == f.dataLines;
    } else {
      var first := if ls[0].content.Data? then [ls[0].content.value] else [];
      AppliedData(Apply(f, ls[0].content), ls[1..]);
      assert Apply(f, ls[0].content).dataLines == f.dataLines + first;
      Assoc(f.dataLines, first, DataValues(ls[1..]));
    }
  }

  lemma {:induction false} AppliedName(f: Fields, ls: seq<Line>, i: nat)
    requires i < |ls| && ls[i].content.Name? && forall j | i < j < |ls| :: !ls[j].content.Name?
    ensures ApplyAll(f, ls).eventName == ls[i].content.value
    decreases |ls|
  {
    if i == 0 {
      NameKept(Apply(f, ls[0].content), ls[1..]);
    } else {
      AppliedName(Apply(f, ls[0].content), ls[1..], i - 1);
    }
  }

  lemma {:induction false} NameKept(f: Fields, ls: seq<Line>)
    requires forall j | 0 <= j < |ls| :: !ls[j].content.Name?
    ensures ApplyAll(f, ls).eventName == f.eventName
    decreases |ls|
  {
    if ls != [] {
      NameKept(Apply(f, ls[0].content), ls[1..]);
    }
  }

  lemma {:induction false} AppliedId(f: Fields, ls: seq<Line>, i: nat)
    requires i < |ls| && ls[i].content.Id? && forall j | i < j < |ls| :: !ls[j].content.Id?
    ensures ApplyAll(f, ls).eventID == ls[i].content.value
    decreases |ls|
  {
    if i == 0 {
      IdKept(Apply(f, ls[0].content), ls[1..]);
    } else {
      AppliedId(Apply(f, ls[0].content), ls[1..], i - 1);
    }
  }

  lemma {:induction false} IdKept(f: Fields, ls: seq<Line>)
    requires forall j | 0 <= j < |ls| :: !ls[j].content.Id?
    ensures ApplyAll(f, ls).eventID == f.eventID
    decreases |ls|
  {
    if ls != [] {
      IdKept(Apply(f, ls[0].content), ls[1..]);
    }
  }

  /** The fields assembled from lines that write an event. */
  lemma WrittenFields(cx: Context, ls: seq<Line>, e: Event, t: Bytes)
    requires WritesEvent(cx, ls, e, t)
    ensures var f := ApplyAll(NO_FIELDS, ls);
            && f.eventName == e.event && f.eventID == e.id && f.dataLines != [] && DataText(f.dataLines) == t
  {
    var i :| 0 <= i < |ls| && ls[i].content == Name(e.event) && forall j | i < j < |ls| :: !ls[j].content.Name?;
    var k :| 0 <= k < |ls| && ls[k].content == Id(e.id) && forall j | k < j < |ls| :: !ls[j].content.Id?;
    AppliedName(NO_FIELDS, ls, i);
    AppliedId(NO_FIELDS, ls, k);
    AppliedData(NO_FIELDS, ls);
    assert [] + DataValues(ls) == DataValues(ls);
    DataTextIsExact(DataValues(ls), t);
  }

  /** Lines that write an event carry exactly that event. */
  lemma WrittenIsCarried(cx: Context, ls: seq<Line>, e: Event, t: Bytes)
    requires WritesEvent(cx, ls, e, t) && e.event != "" && e.id != ""
    ensures WellWritten(cx, ls) && Carried(cx, ls) == [e]
  {
    WrittenFields(cx, ls, e, t);
  }

  ghost predicate AllWrite(cx: Context, frames: seq<Frame>, events: seq<Event>, texts: seq<Bytes>) {
    && |frames| == |events| == |texts|
    && forall i | 0 <= i < |frames| :: WritesEvent(cx, frames[i].lines, events[i], texts[i])
  }

  ghost predicate CarriesOne(cx: Context, frame: Frame, e: Event) {
    WellWritten(cx, frame.lines) && Carried(cx, frame.lines) == [e]
  }

  lemma EachIsWellWritten(cx: Context, frames: seq<Frame>, events: seq<Event>)
    requires |frames| == |events| && forall i | 0 <= i < |frames| :: CarriesOne(cx, frames[i], events[i])
    ensures AllWellWritten(cx, frames, [])
  {
    forall i | 0 <= i < |frames|
      ensures WellWritten(cx, frames[i].lines)
    {
      assert CarriesOne(cx, frames[i], events[i]);
    }
  }

  lemma CarriedCons(cx: Context, frames: seq<Frame>, e: Event, later: seq<Event>)
    requires frames != [] && AllWellWritten(cx, frames, []) && AllWellWritten(cx, frames[1..], [])
    requires Carried(cx, frames[0].lines) == [e] && AllCarried(cx, frames[1..], []) == later
    ensures AllCarried(cx, frames, []) == [e] + later
  {
  }

  lemma {:induction false} AllAreCarried(cx: Context, frames: seq<Frame>, events: seq<Event>)
    requires |frames| == |events| && forall i | 0 <= i < |frames| :: CarriesOne(cx, frames[i], events[i])
    ensures AllWellWritten(cx, frames, []) && AllCarried(cx, frames, []) == events
    decreases |frames|
  {
    EachIsWellWritten(cx, frames, events);
    if frames != [] {
      assert CarriesOne(cx, frames[0], events[0]);
      forall i | 0 <= i < |frames[1..]|
        ensures CarriesOne(cx, frames[1..][i], events[1..][i])
      {
        assert CarriesOne(cx, frames[i + 1], events[i + 1]);
      }
      AllAreCarried(cx, frames[1..], events[1..]);
      CarriedCons(cx, frames, events[0], events[1..]);
      assert [events[0]] + events[1..] == events;
    }
  }

  lemma LegalEventsAreNamed(events: seq<Event>)
    requires LegalEvents(events)
    ensures forall i | 0 <= i < |events| :: events[i].event != "" && events[i].id != ""
  {
    forall i | 0 <= i < |events|
      ensures events[i].event != "" && events[i].id != ""
    {
      assert LegalAt(Names(events), i);
    }
  }

  /** A legal list of events, each written as a frame in any spelling, its data text split over data lines at
      its line feeds, is delivered exactly as given, field by field, and then the end is reported. */
  lemma EventsRoundTrip(cx: Context, frames: seq<Frame>, events: seq<Event>, texts: seq<Bytes>, n: nat)
    requires !cx.faulty && AllWrite(cx, frames, events, texts) && LegalEvents(events)
    ensures Outcomes(cx, Initial(StreamText(frames, [], false)), |events| + n)
            == AllDelivered(events) + Finals(events, n)
  {
    LegalEventsAreNamed(events);
    forall i | 0 <= i < |frames|
      ensures CarriesOne(cx, frames[i], events[i])
    {
      WrittenIsCarried(cx, frames[i].lines, events[i], texts[i]);
    }
    AllAreCarried(cx, frames, events);
    FramesRoundTrip(cx, frames, [], false, n);
    DeliversFromStart(cx, Initial(StreamText(frames, [], false)), events, n);
  }

  lemma DeliversFromStart(cx: Context, s: State, events: seq<Event>, n: nat)
    requires Delivers(cx, s, events, [], n)
    ensures Outcomes(cx, s, |events| + n) == AllDelivered(events) + Finals(events, n)
  {
    assert [] + events == events;
  }

  // ---- what dispatch refuses ----

  /** The assembled fields and their data text make up the event. */
  predicate Assembles(cx: Context, f: Fields, e: Event) {
    e.event == f.eventName && e.id == f.eventID && Says(cx, DataText(f.dataLines), e)
  }

  lemma AcceptedAssembles(cx: Context, s: State, e: Event)
    requires Dispatch(cx, s).0 == Accepted(e)
    ensures Assembles(cx, s.fields, e)
  {
  }

  /** After legal events and no rejection, dispatch accepts exactly the assembled event that legally extends
      them, and refuses everything else. */
  lemma DispatchIsExact(cx: Context, s: State, done: seq<Event>, e: Event)
    requires FlagsMatch(s.order, Names(done)) && s.identity == IdentityAfter(done) && LegalEvents(done)
    requires s.fields.dataLines != []
    ensures Dispatch(cx, s).0 == Accepted(e) <==> Assembles(cx, s.fields, e) && LegalEvents(done + [e])
    ensures Dispatch(cx, s).0 != Nothing
  {
    if Dispatch(cx, s).0 == Accepted(e) {
      AcceptedAssembles(cx, s, e);
      AcceptedIsLegal(cx, s, done, e);
    }
    if Assembles(cx, s.fields, e) && LegalEvents(done + [e]) {
      LegalIsAccepted(cx, s, done, e);
    }
  }

  lemma CoveredByLast(done: seq<Event>)
    requires LegalEvents(done)
    ensures IdentityCovers(IdentityAfter(done), done)
  {
  }

  lemma AcceptedIsLegal(cx: Context, s: State, done: seq<Event>, e: Event)
    requires FlagsMatch(s.order, Names(done)) && s.identity == IdentityAfter(done) && LegalEvents(done)
    requires Dispatch(cx, s).0 == Accepted(e)
    ensures LegalEvents(done + [e])
  {
    CoveredByLast(done);
    DispatchKeeps(cx, s, done);
  }

  lemma LegalIsAccepted(cx: Context, s: State, done: seq<Event>, e: Event)
    requires FlagsMatch(s.order, Names(done)) && s.identity == IdentityAfter(done) && LegalEvents(done)
    requires s.fields.dataLines != [] && Assembles(cx, s.fields, e) && LegalEvents(done + [e])
    ensures Dispatch(cx, s).0 == Accepted(e)
  {
    var f := s.fields;
    LegalEventsAreNamed(done + [e]);
    assert (done + [e])[|done|] == e;
    var clean := s.(fields := NO_FIELDS, closed := false);
    assert Decodes(cx, f) && EventOf(f, EnvelopeOf(cx, f).value) == e;
    DispatchCarried(cx, clean, f, done);
    SameButClosed(cx, s, clean.(fields := f));
  }

  lemma SameButClosed(cx: Context, s: State, t: State)
    requires s.(closed := t.closed) == t
    ensures Dispatch(cx, s).0 == Dispatch(cx, t).0
  {
  }

  // ---- what Next refuses ----

  /** A line that is not valid UTF-8 is a protocol error, whatever was assembled, and is consumed. */
  lemma MalformedLineIsRefused(cx: Context, s: State, line: Bytes, rest: Bytes)
    requires !s.closed && s.body == line + "\n" + rest && '\n' !in line && !Valid(line + "\n")
    ensures Next(cx, s) == (ProtocolError, s.(body := rest))
  {
    IndexOfAfter(line, '\n', rest);
    assert s.body == line + ['\n'] + rest;
    assert s.body[..|line| + 1] == line + "\n" && s.body[|line| + 1..] == rest;
  }

  /** A body that breaks off with an error other than its end is a protocol error, even after a terminal
      event or with a complete event assembled. */
  lemma FaultyBodyIsRefused(cx: Context, s: State)
    requires !s.closed && cx.faulty && s.body == ""
    ensures Next(cx, s) == (ProtocolError, s)
  {
  }

  /** A closed stream says so and stays as it is. */
  lemma ClosedStreamIsRefused(cx: Context, s: State)
    requires s.closed
    ensures Next(cx, s) == (ClosedPipe, s)
  {
  }

  // ---- what every delivered event was made of ----

  /** Some data text says the event. */
  ghost predicate Genuine(cx: Context, e: Event) {
    exists t: Bytes :: Says(cx, t, e)
  }

  lemma AcceptedIsGenuine(cx: Context, s: State)
    ensures Dispatch(cx, s).0.Accepted? ==> Genuine(cx, Dispatch(cx, s).0.event)
  {
    if Dispatch(cx, s).0.Accepted? {
      AcceptedAssembles(cx, s, Dispatch(cx, s).0.event);
    }
  }

  lemma {:induction false} NextIsGenuine(cx: Context, s: State)
    ensures Next(cx, s).0.Delivered? ==> Genuine(cx, Next(cx, s).0.event)
    decreases |s.body|
  {
    if !s.closed {
      var (line, rest, ended) := ReadLine(s.body);
      var u := s.(body := rest);
      AcceptedIsGenuine(cx, u);
      var (found, t) := ProcessLine(cx, u, line);
      if found.None? {
        if ended {
          AcceptedIsGenuine(cx, t);
        } else {
          NextIsGenuine(cx, t);
        }
      }
    }
  }

  /** Over every body and any number of calls, also after errors, each delivered event is exactly what
      encoding/json read from some data text, with a positive sequence and an object for its payload. */
  lemma {:induction false} DeliveredEventsAreGenuine(cx: Context, s: State, n: nat)
    ensures forall e | e in Events(Outcomes(cx, s, n)) :: Genuine(cx, e)
    decreases n
  {
    if n > 0 {
      var (o, t) := Next(cx, s);
      NextIsGenuine(cx, s);
      DeliveredEventsAreGenuine(cx, t, n - 1);
      FirstCall(cx, s, t, o, n);
    }
  }
}
