/** GatewaySSEStream: line assembly, dispatch and the event-order checks, as a pure step function
    and as the class whose methods compute it. */
module Sse {
  import opened Wrappers
  import opened GoText
  import opened Utf8

  /** The fields json.Unmarshal found in an event's data. */
  datatype Envelope = Envelope(
    requestID: Bytes, invocationID: Bytes, sequence: int, occurredAtMS: int, payload: Bytes)

  /** What the stream takes from its surroundings: encoding/json's view of a data text (None when it
      does not decode or a field is missing), of a payload, and how the body ends. */
  datatype Context = Context(
    envelope: Bytes -> Option<Envelope>,
    isObject: Bytes -> bool,
    pendingAllowed: Bytes -> bool,
    faulty: bool)

  datatype Event = Event(
    id: Bytes, event: Bytes, requestID: Bytes, invocationID: Bytes, sequence: int, occurredAtMS: int, payload: Bytes)

  datatype Outcome = Delivered(event: Event) | ProtocolError | EndOfStream | Disconnected | ClosedPipe

  const ACCEPTED: Bytes := "invocation.accepted"
  const DELTA: Bytes := "output.delta"
  const USAGE: Bytes := "usage.final"
  const COMPLETED: Bytes := "invocation.completed"
  const FAILED: Bytes := "invocation.failed"
  const CANCELLED: Bytes := "invocation.cancelled"
  const PENDING: Bytes := "invocation.pending"

  /** The fields of the event being assembled. */
  datatype Fields = Fields(dataLines: seq<Bytes>, eventName: Bytes, eventID: Bytes)

  /** The event-order automaton's flags. */
  datatype Order = Order(accepted: bool, usageFinal: bool, terminal: bool, pending: bool)

  /** The identity every further event is compared with. */
  datatype Identity = Identity(
    lastID: int, idSeen: bool, lastSequence: int, sequenceSeen: bool, requestID: Bytes, invocationID: Bytes)

  datatype State = State(body: Bytes, fields: Fields, order: Order, identity: Identity, closed: bool)

  const NO_FIELDS: Fields := Fields([], "", "")

  function Initial(body: Bytes): State {
    State(body, NO_FIELDS, Order(false, false, false, false), Identity(0, false, 0, false, "", ""), false)
  }

  // ---- one line ----

  /** bufio.Reader.ReadString: the line with its terminator, the rest, and whether the body ended. */
  function ReadLine(body: Bytes): (r: (Bytes, Bytes, bool))
    ensures !r.2 ==> |r.1| < |body| && r.0 != ""
  {
    var n := IndexOf(body, '\n');
    if n < |body| then (body[..n + 1], body[n + 1..], false) else (body, "", true)
  }

  function TrimSuffix(s: Bytes, c: Byte): Bytes {
    if s != "" && s[|s| - 1] == c then s[..|s| - 1] else s
  }

  function TrimLine(line: Bytes): Bytes {
    TrimSuffix(TrimSuffix(line, '\n'), '\r')
  }

  function FieldName(line: Bytes): Bytes {
    line[..IndexOf(line, ':')]
  }

  function FieldValue(line: Bytes): Bytes {
    var n := IndexOf(line, ':');
    if n == |line| then ""
    else if n + 1 < |line| && line[n + 1] == ' ' then line[n + 2..]
    else line[n + 1..]
  }

  function Consume(f: Fields, line: Bytes): Fields {
    if HasPrefix(line, ":") then f
    else if FieldName(line) == "data" then f.(dataLines := f.dataLines + [FieldValue(line)])
    else if FieldName(line) == "event" then f.(eventName := FieldValue(line))
    else if FieldName(line) == "id" then f.(eventID := FieldValue(line))
    else f
  }

  // ---- dispatch ----

  predicate IsTerminal(name: Bytes) {
    name == COMPLETED || name == FAILED || name == CANCELLED || name == PENDING
  }

  /** validateEventOrder's verdict. */
  predicate OrderAllows(cx: Context, o: Order, name: Bytes, payload: Bytes) {
    && !o.terminal
    && if name == ACCEPTED then !o.accepted
       else if name == DELTA || name == USAGE then o.accepted && !o.usageFinal
       else if name == COMPLETED then o.accepted && o.usageFinal
       else if name == FAILED || name == CANCELLED then o.accepted
       else name == PENDING && o.accepted && cx.pendingAllowed(payload)
  }

  function Advance(o: Order, name: Bytes): Order {
    Order(o.accepted || name == ACCEPTED, o.usageFinal || name == USAGE,
          o.terminal || IsTerminal(name), o.pending || name == PENDING)
  }

  datatype Dispatched = Nothing | Rejected | Accepted(event: Event)

  /** The identity checks of dispatchEvent on a decoded envelope. */
  predicate Admissible(cx: Context, k: Identity, id: Option<int>, e: Envelope) {
    && e.requestID != "" && e.invocationID != "" && e.sequence > 0
    && cx.isObject(e.payload)
    && id.Some? && id.value >= 0 && (k.idSeen ==> id.value > k.lastID)
    && (k.sequenceSeen ==> e.sequence > k.lastSequence)
    && (k.requestID != "" ==> k.requestID == e.requestID)
    && (k.invocationID != "" ==> k.invocationID == e.invocationID)
  }

  /** The identity an admissible event leaves behind, whether or not its order is then accepted. */
  function Identify(id: int, e: Envelope): Identity {
    Identity(id, true, e.sequence, true, e.requestID, e.invocationID)
  }

  /** The data lines, joined as dispatchEvent joins them. */
  function DataText(lines: seq<Bytes>): Bytes {
    if lines == [] then "" else if |lines| == 1 then lines[0] else lines[0] + "\n" + DataText(lines[1..])
  }

  function EventOf(f: Fields, e: Envelope): Event {
    Event(f.eventID, f.eventName, e.requestID, e.invocationID, e.sequence, e.occurredAtMS, e.payload)
  }

  /** The envelope of the assembled fields, when they are complete and decode. */
  function EnvelopeOf(cx: Context, f: Fields): Option<Envelope> {
    if f.eventName == "" || f.eventID == "" then None else cx.envelope(DataText(f.dataLines))
  }

  function Dispatch(cx: Context, s: State): (r: (Dispatched, State))
    ensures r.1.body == s.body && r.1.closed == s.closed && r.1.fields == NO_FIELDS
  {
    var f, cleared := s.fields, s.(fields := NO_FIELDS);
    if f.dataLines == [] then (Nothing, cleared)
    else match EnvelopeOf(cx, f)
      case None => (Rejected, cleared)
      case Some(e) =>
        var id := ParseInt64(f.eventID);
        if !Admissible(cx, cleared.identity, id, e) then (Rejected, cleared)
        else
          var known := cleared.(identity := Identify(id.value, e));
          if !OrderAllows(cx, known.order, f.eventName, e.payload) then (Rejected, known)
          else (Accepted(EventOf(f, e)), known.(order := Advance(known.order, f.eventName)))
  }

  // ---- Next ----

  /** What one line does: an outcome to return, or None to read on. */
  function ProcessLine(cx: Context, s: State, line: Bytes): (r: (Option<Outcome>, State))
    ensures r.1.body == s.body && r.1.closed == s.closed
  {
    if line == "" then (None, s)
    else if !Valid(line) then (Some(ProtocolError), s)
    else if TrimLine(line) != "" then (None, s.(fields := Consume(s.fields, TrimLine(line))))
    else match Dispatch(cx, s)
      case (Nothing, t) => (None, t)
      case (Rejected, t) => (Some(ProtocolError), t)
      case (Accepted(e), t) => (Some(Delivered(e)), t)
  }

  /** What happens when the body has ended. */
  function AtEnd(cx: Context, s: State): (Outcome, State) {
    if cx.faulty then (ProtocolError, s)
    else if s.fields.dataLines == [] then (if s.order.terminal then EndOfStream else Disconnected, s)
    else match Dispatch(cx, s)
      case (Nothing, t) => (if t.order.terminal then EndOfStream else Disconnected, t)
      case (Rejected, t) => (ProtocolError, t)
      case (Accepted(e), t) => (Delivered(e), t)
  }

  function Next(cx: Context, s: State): (Outcome, State)
    decreases |s.body|
  {
    if s.closed then (ClosedPipe, s)
    else
      var (line, rest, ended) := ReadLine(s.body);
      match ProcessLine(cx, s.(body := rest), line)
      case (Some(outcome), t) => (outcome, t)
      case (None, t) => if ended then AtEnd(cx, t) else Next(cx, t)
  }

  class GatewaySSEStream {
    const cx: Context
    var body: Bytes
    var dataLines: seq<Bytes>
    var eventName: Bytes
    var eventID: Bytes
    var accepted: bool
    var usageFinal: bool
    var terminal: bool
    var pending: bool
    var lastID: int
    var idSeen: bool
    var lastSequence: int
    var sequenceSeen: bool
    var requestID: Bytes
    var invocationID: Bytes
    var closed: bool

    function FieldsNow(): Fields
      reads this
    {
      Fields(dataLines, eventName, eventID)
    }

    function OrderNow(): Order
      reads this
    {
      Order(accepted, usageFinal, terminal, pending)
    }

    function IdentityNow(): Identity
      reads this
    {
      Identity(lastID, idSeen, lastSequence, sequenceSeen, requestID, invocationID)
    }

    function At(): State
      reads this
    {
      State(body, FieldsNow(), OrderNow(), IdentityNow(), closed)
    }

    constructor (cx: Context, body: Bytes)
      ensures this.cx == cx && At() == Initial(body)
    {
      this.cx, this.body := cx, body;
      dataLines, eventName, eventID := [], "", "";
      accepted, usageFinal, terminal, pending := false, false, false, false;
      lastID, idSeen, lastSequence, sequenceSeen := 0, false, 0, false;
      requestID, invocationID, closed := "", "", false;
    }

    method Close()
      modifies this
      ensures At() == old(At()).(closed := true)
    {
      closed := true;
    }

    /** The next line with its terminator; `ended` when the body stops before one. */
    method ReadString() returns (line: Bytes, ended: bool)
      modifies this`body
      ensures (line, body, ended) == ReadLine(old(body))
    {
      var n := IndexOf(body, '\n');
      if n < |body| {
        line, body, ended := body[..n + 1], body[n + 1..], false;
      } else {
        line, body, ended := body, "", true;
      }
    }

    method ConsumeLine(line: Bytes)
      modifies `dataLines, `eventName, `eventID
      ensures FieldsNow() == Consume(old(FieldsNow()), line)
    {
      if HasPrefix(line, ":") {
        return;
      }
      var field, value := line, "";
      var separator := IndexOf(line, ':');
      assert line[..|line|] == line;
      if separator < |line| {
        field, value := line[..separator], line[separator + 1..];
        if HasPrefix(value, " ") {
          value := value[1..];
        }
      }
      if field == "data" {
        dataLines := dataLines + [value];
      } else if field == "event" {
        eventName := value;
      } else if field == "id" {
        eventID := value;
      }
    }

    method ResetEventFields()
      modifies `dataLines, `eventName, `eventID
      ensures FieldsNow() == NO_FIELDS
    {
      dataLines, eventName, eventID := [], "", "";
    }

    method ValidateEventOrder(name: Bytes, payload: Bytes) returns (ok: bool)
      modifies `accepted, `usageFinal, `terminal, `pending
      ensures ok == OrderAllows(cx, old(OrderNow()), name, payload)
      ensures OrderNow() == if ok then Advance(old(OrderNow()), name) else old(OrderNow())
    {
      if terminal {
        return false;
      }
      if name == ACCEPTED {
        if accepted {
          return false;
        }
        accepted := true;
      } else if name == DELTA {
        if !accepted || usageFinal {
          return false;
        }
      } else if name == USAGE {
        if !accepted || usageFinal {
          return false;
        }
        usageFinal := true;
      } else if name == COMPLETED {
        if !accepted || !usageFinal {
          return false;
        }
        terminal := true;
      } else if name == FAILED || name == CANCELLED {
        if !accepted {
          return false;
        }
        terminal := true;
      } else if name == PENDING {
        if !accepted || !cx.pendingAllowed(payload) {
          return false;
        }
        terminal := true;
        pending := true;
      } else {
        return false;
      }
      return true;
    }

    /** The checks of an envelope against the identity seen so far; on success the identity is stored. */
    method CheckIdentity(idText: Bytes, e: Envelope) returns (ok: bool)
      modifies `lastID, `idSeen, `lastSequence, `sequenceSeen, `requestID, `invocationID
      ensures ok == Admissible(cx, old(IdentityNow()), ParseInt64(idText), e)
      ensures IdentityNow() == if ok then Identify(ParseInt64(idText).value, e) else old(IdentityNow())
    {
      if e.requestID == "" || e.invocationID == "" || e.sequence <= 0 || !cx.isObject(e.payload) {
        return false;
      }
      var id := ParseInt64(idText);
      if id.None? || id.value < 0 || (idSeen && id.value <= lastID) {
        return false;
      }
      if sequenceSeen && e.sequence <= lastSequence {
        return false;
      }
      if (requestID != "" && requestID != e.requestID) || (invocationID != "" && invocationID != e.invocationID) {
        return false;
      }
      requestID, invocationID := e.requestID, e.invocationID;
      lastID, idSeen, lastSequence, sequenceSeen := id.value, true, e.sequence, true;
      return true;
    }

    /** The identity checks and then the order check; a rejected order leaves the identity advanced. */
    method AdmitEvent(idText: Bytes, name: Bytes, e: Envelope) returns (ok: bool)
      modifies this
      ensures FieldsNow() == old(FieldsNow()) && body == old(body) && closed == old(closed)
      ensures var known := Admissible(cx, old(IdentityNow()), ParseInt64(idText), e);
              && ok == (known && OrderAllows(cx, old(OrderNow()), name, e.payload))
              && IdentityNow() == (if known then Identify(ParseInt64(idText).value, e) else old(IdentityNow()))
              && OrderNow() == (if ok then Advance(old(OrderNow()), name) else old(OrderNow()))
    {
      ok := CheckIdentity(idText, e);
      if ok {
        ok := ValidateEventOrder(name, e.payload);
      }
    }

    method DispatchEvent() returns (d: Dispatched)
      modifies this
      ensures (d, At()) == Dispatch(cx, old(At()))
    {
      if dataLines == [] {
        ResetEventFields();
        return Nothing;
      }
      var data, name, idText := DataText(dataLines), eventName, eventID;
      ResetEventFields();
      if name == "" || idText == "" {
        return Rejected;
      }
      var decoded := cx.envelope(data);
      if decoded.None? {
        return Rejected;
      }
      var e := decoded.value;
      var ok := AdmitEvent(idText, name, e);
      if !ok {
        return Rejected;
      }
      return Accepted(Event(idText, name, e.requestID, e.invocationID, e.sequence, e.occurredAtMS, e.payload));
    }

    /** The body of Next's loop for one line: an outcome to return, or None to read on. */
    method HandleLine(line: Bytes) returns (found: Option<Outcome>)
      modifies this
      ensures (found, At()) == ProcessLine(cx, old(At()), line)
    {
      if line == "" {
        return None;
      }
      if !Valid(line) {
        return Some(ProtocolError);
      }
      var trimmed := TrimLine(line);
      if trimmed != "" {
        ConsumeLine(trimmed);
        return None;
      }
      var d := DispatchEvent();
      match d
      case Nothing => return None;
      case Rejected => return Some(ProtocolError);
      case Accepted(event) => return Some(Delivered(event));
    }

    /** Next's handling of the end of the body. */
    method HandleEnd() returns (outcome: Outcome)
      modifies this
      ensures (outcome, At()) == AtEnd(cx, old(At()))
    {
      if cx.faulty {
        return ProtocolError;
      }
      if dataLines != [] {
        var d := DispatchEvent();
        if d.Rejected? {
          return ProtocolError;
        }
        if d.Accepted? {
          return Delivered(d.event);
        }
      }
      return if terminal then EndOfStream else Disconnected;
    }

    /** Next: the read loop. */
    method NextEvent() returns (outcome: Outcome)
      modifies this
      ensures (outcome, At()) == Next(cx, old(At()))
    {
      if closed {
        return ClosedPipe;
      }
      while true
        invariant !closed && Next(cx, At()) == Next(cx, old(At()))
        decreases |body|
      {
        var line, ended := ReadString();
        var found := HandleLine(line);
        if found.Some? {
          return found.value;
        }
        if ended {
          outcome := HandleEnd();
          return;
        }
      }
    }
  }
}
