/** Writing a legal list of events as text/event-stream frames and reading it back: every spelling
    of the frames is delivered exactly, and the end of the body is reported correctly ever after. */
module SseFrames {
  import opened Sequences
  import opened GoText
  import opened Utf8
  import opened Sse
  import opened SseRuns

  // ---- how a frame may be written ----

  /** `data`, `data:value` or `data: value`. */
  datatype Style = Bare | Tight | Spaced

  /** A line of a frame: one of the three fields, or a comment or unknown field. */
  datatype Content = Data(value: Bytes) | Name(value: Bytes) | Id(value: Bytes) | Noise(text: Bytes)

  datatype Line = Line(content: Content, style: Style, crlf: bool)

  function Spell(name: Bytes, value: Bytes, style: Style): Bytes {
    match style
    case Bare => name
    case Tight => name + ":" + value
    case Spaced => name + ": " + value
  }

  function LineText(l: Line): Bytes {
    match l.content
    case Data(v) => Spell("data", v, l.style)
    case Name(v) => Spell("event", v, l.style)
    case Id(v) => Spell("id", v, l.style)
    case Noise(text) => text
  }

  function Eol(crlf: bool): Bytes {
    if crlf then "\r\n" else "\n"
  }

  predicate StyleFits(style: Style, value: Bytes) {
    match style
    case Bare => value == ""
    case Tight => !HasPrefix(value, " ")
    case Spaced => true
  }

  predicate IsNoise(text: Bytes) {
    text != "" && (HasPrefix(text, ":") || FieldName(text) !in {"data", "event", "id"})
  }

  /** The line can stand in a stream: one line of UTF-8 that spells what it should. */
  predicate Writable(l: Line) {
    && (if l.content.Noise? then IsNoise(l.content.text) else StyleFits(l.style, l.content.value))
    && '\n' !in LineText(l)
    && Valid(LineText(l))
    && (!l.crlf ==> LineText(l)[|LineText(l)| - 1] != '\r')
  }

  function LinesText(ls: seq<Line>): Bytes {
    if ls == [] then "" else LineText(ls[0]) + Eol(ls[0].crlf) + LinesText(ls[1..])
  }

  /** Lines in any number and order, closed by a blank line. */
  datatype Frame = Frame(lines: seq<Line>, crlf: bool)

  /** A last line whose terminator the body's end has cut off: the line feed is missing. */
  function OpenText(l: Line): Bytes {
    LineText(l) + if l.crlf then "\r" else ""
  }

  /** The lines of a last frame; `cut` when the very last one is not terminated. */
  function LastText(ls: seq<Line>, cut: bool): Bytes {
    if ls == [] || !cut then LinesText(ls) else LinesText(ls[..|ls| - 1]) + OpenText(ls[|ls| - 1])
  }

  /** Frames, then possibly the lines of a last frame whose blank line is missing. */
  function StreamText(frames: seq<Frame>, last: seq<Line>, cut: bool): Bytes {
    if frames == [] then LastText(last, cut)
    else LinesText(frames[0].lines) + Eol(frames[0].crlf) + StreamText(frames[1..], last, cut)
  }

  // ---- what a frame says ----

  function Apply(f: Fields, c: Content): Fields {
    match c
    case Data(v) => f.(dataLines := f.dataLines + [v])
    case Name(v) => f.(eventName := v)
    case Id(v) => f.(eventID := v)
    case Noise(_) => f
  }

  function ApplyAll(f: Fields, ls: seq<Line>): Fields
    decreases |ls|
  {
    if ls == [] then f else ApplyAll(Apply(f, ls[0].content), ls[1..])
  }

  /** The data lines decode to an envelope that dispatch can accept. */
  predicate Decodes(cx: Context, f: Fields) {
    && EnvelopeOf(cx, f).Some?
    && var e := EnvelopeOf(cx, f).value;
       cx.isObject(e.payload) && e.sequence > 0 && (f.eventName == PENDING ==> cx.pendingAllowed(e.payload))
  }

  predicate WellWritten(cx: Context, ls: seq<Line>) {
    && (forall i | 0 <= i < |ls| :: Writable(ls[i]))
    && (ApplyAll(NO_FIELDS, ls).dataLines != [] ==> Decodes(cx, ApplyAll(NO_FIELDS, ls)))
  }

  /** The event some lines carry; lines without data carry none. */
  function Carried(cx: Context, ls: seq<Line>): seq<Event>
    requires WellWritten(cx, ls)
  {
    var f := ApplyAll(NO_FIELDS, ls);
    if f.dataLines == [] then [] else [EventOf(f, EnvelopeOf(cx, f).value)]
  }

  predicate AllWellWritten(cx: Context, frames: seq<Frame>, last: seq<Line>) {
    (forall i | 0 <= i < |frames| :: WellWritten(cx, frames[i].lines)) && WellWritten(cx, last)
  }

  function AllCarried(cx: Context, frames: seq<Frame>, last: seq<Line>): seq<Event>
    requires AllWellWritten(cx, frames, last)
  {
    if frames == [] then Carried(cx, last)
    else Carried(cx, frames[0].lines) + AllCarried(cx, frames[1..], last)
  }

  predicate LegalEvents(events: seq<Event>) {
    LegalOrder(Names(events)) && Consistent(events)
  }

  // ---- reading one line ----

  lemma SpelledField(name: Bytes, value: Bytes, style: Style)
    requires ':' !in name && name != "" && StyleFits(style, value)
    ensures var line := Spell(name, value, style);
            FieldName(line) == name && FieldValue(line) == value && !HasPrefix(line, ":")
  {
    var line := Spell(name, value, style);
    assert line[0] == name[0] && name[0] in name;
    match style
    case Bare =>
      assert name[..|name|] == name;
    case Tight =>
      IndexOfAfter(name, ':', value);
      assert value != "" ==> line[|name| + 1] == value[0];
    case Spaced =>
      IndexOfAfter(name, ':', " " + value);
      assert line == name + [':'] + (" " + value);
  }

  lemma ConsumeWritten(f: Fields, l: Line)
    requires Writable(l)
    ensures LineText(l) != "" && Consume(f, LineText(l)) == Apply(f, l.content)
  {
    match l.content
    case Data(v) => SpelledField("data", v, l.style);
    case Name(v) => SpelledField("event", v, l.style);
    case Id(v) => SpelledField("id", v, l.style);
    case Noise(_) =>
  }

  lemma ReadOneLine(text: Bytes, crlf: bool, rest: Bytes)
    requires '\n' !in text && (!crlf && text != "" ==> text[|text| - 1] != '\r')
    ensures ReadLine(text + Eol(crlf) + rest) == (text + Eol(crlf), rest, false)
    ensures TrimLine(text + Eol(crlf)) == text
  {
    var head: Bytes := if crlf then text + "\r" else text;
    assert '\n' !in head;
    IndexOfAfter(head, '\n', rest);
    assert text + Eol(crlf) + rest == head + ['\n'] + rest;
    assert text + Eol(crlf) == head + "\n";
  }

  lemma ValidLine(text: Bytes, crlf: bool)
    requires Valid(text)
    ensures Valid(text + Eol(crlf))
  {
    EncodeDecode(text);
    EncodeAscii(Eol(crlf));
    EncodeConcat(Decode(text).value, Eol(crlf));
    DecodeEncode(Decode(text).value + Eol(crlf));
  }

  /** Next on a body that starts with a written line is Next after that line. */
  lemma NextPastLine(cx: Context, s: State, l: Line, rest: Bytes)
    requires Writable(l) && !s.closed && s.body == LineText(l) + Eol(l.crlf) + rest
    ensures Next(cx, s) == Next(cx, s.(body := rest, fields := Apply(s.fields, l.content)))
  {
    ConsumeWritten(s.fields, l);
    ReadOneLine(LineText(l), l.crlf, rest);
    ValidLine(LineText(l), l.crlf);
  }

  lemma {:induction false} NextPastLines(cx: Context, s: State, ls: seq<Line>, rest: Bytes)
    requires forall i | 0 <= i < |ls| :: Writable(ls[i])
    requires !s.closed && s.body == LinesText(ls) + rest
    ensures Next(cx, s) == Next(cx, s.(body := rest, fields := ApplyAll(s.fields, ls)))
    decreases |ls|
  {
    if ls == [] {
      assert s.body == rest;
    } else {
      var tail := LinesText(ls[1..]) + rest;
      Assoc(LineText(ls[0]) + Eol(ls[0].crlf), LinesText(ls[1..]), rest);
      NextPastLine(cx, s, ls[0], tail);
      NextPastLines(cx, s.(body := tail, fields := Apply(s.fields, ls[0].content)), ls[1..], rest);
    }
  }

  /** Next on a body that starts with a blank line dispatches. */
  lemma NextAtBlank(cx: Context, s: State, crlf: bool, rest: Bytes)
    requires !s.closed && s.body == Eol(crlf) + rest
    ensures var (d, t) := Dispatch(cx, s.(body := rest));
            Next(cx, s) == match d
                           case Nothing => Next(cx, t)
                           case Rejected => (ProtocolError, t)
                           case Accepted(e) => (Delivered(e), t)
  {
    assert "" + Eol(crlf) == Eol(crlf);
    ReadOneLine("", crlf, rest);
    ValidLine("", crlf);
  }

  // ---- the state between frames ----

  /** The identity after delivering exactly `events`. */
  function IdentityAfter(events: seq<Event>): Identity {
    if events == [] then Identity(0, false, 0, false, "", "")
    else
      var e := events[|events| - 1];
      Identity(IdOf(e), true, e.sequence, true, e.requestID, e.invocationID)
  }

  /** `done` has been delivered, nothing was rejected, and no event is being assembled. */
  predicate Ready(s: State, done: seq<Event>) {
    && !s.closed && s.fields == NO_FIELDS
    && FlagsMatch(s.order, Names(done)) && s.identity == IdentityAfter(done)
  }

  lemma LegalPrefix(events: seq<Event>, more: seq<Event>)
    requires LegalEvents(events + more)
    ensures LegalEvents(events)
  {
    var all := events + more;
    assert forall i | 0 <= i < |events| :: all[i] == events[i];
    forall i | 0 <= i < |events|
      ensures LegalAt(Names(events), i)
    {
      assert LegalAt(Names(all), i) && Names(all)[..i] == Names(events)[..i];
    }
  }

  lemma DispatchCarried(cx: Context, s: State, f: Fields, done: seq<Event>)
    requires Ready(s, done) && f.dataLines != [] && Decodes(cx, f)
    requires LegalEvents(done + [EventOf(f, EnvelopeOf(cx, f).value)])
    ensures var e := EventOf(f, EnvelopeOf(cx, f).value);
            var (d, t) := Dispatch(cx, s.(fields := f));
            d == Accepted(e) && Ready(t, done + [e]) && t.body == s.body
  {
    var env := EnvelopeOf(cx, f).value;
    var e := EventOf(f, env);
    var all := done + [e];
    LegalPrefix(done, [e]);
    OrderIsExact(cx, s.order, Names(done), f.eventName, env.payload);
    assert Names(all) == Names(done) + [f.eventName];
    assert all[|done|] == e;
    assert done != [] ==> all[|done| - 1] == done[|done| - 1];
    assert Admissible(cx, s.identity, ParseInt64(f.eventID), env);
  }

  // ---- delivery ----

  function AllDelivered(events: seq<Event>): seq<Outcome> {
    seq(|events|, i requires 0 <= i < |events| => Delivered(events[i]))
  }

  /** How every call ends once the events are through. */
  function Final(events: seq<Event>): Outcome {
    if events != [] && IsTerminal(events[|events| - 1].event) then EndOfStream else Disconnected
  }

  function Finals(events: seq<Event>, n: nat): seq<Outcome> {
    seq(n, _ => Final(events))
  }

  lemma SameNextSameOutcomes(cx: Context, s: State, t: State, n: nat)
    requires Next(cx, s) == Next(cx, t)
    ensures Outcomes(cx, s, n) == Outcomes(cx, t, n)
  {
  }

  lemma FinalByFlags(o: Order, done: seq<Event>)
    requires LegalOrder(Names(done)) && FlagsMatch(o, Names(done))
    ensures Final(done) == if o.terminal then EndOfStream else Disconnected
  {
    var names := Names(done);
    if o.terminal {
      var i :| 0 <= i < |names| && IsTerminal(names[i]);
      assert LegalAt(names, |names| - 1);
    }
  }

  lemma {:induction false} AfterTheEnd(cx: Context, s: State, done: seq<Event>, n: nat)
    requires !cx.faulty && !s.closed && s.body == "" && s.fields.dataLines == []
    requires LegalOrder(Names(done)) && FlagsMatch(s.order, Names(done))
    ensures Outcomes(cx, s, n) == Finals(done, n)
    decreases n
  {
    if n > 0 {
      FinalByFlags(s.order, done);
      assert Next(cx, s) == (Final(done), s);
      AfterTheEnd(cx, s, done, n - 1);
      assert [Final(done)] + Finals(done, n - 1) == Finals(done, n);
    }
  }

  /** From `s`, calls of Next deliver `events` and then report the end, given that `done` came before. */
  predicate Delivers(cx: Context, s: State, events: seq<Event>, done: seq<Event>, n: nat) {
    Outcomes(cx, s, |events| + n) == AllDelivered(events) + Finals(done + events, n)
  }

  lemma DeliversSkip(cx: Context, s: State, u: State, later: seq<Event>, done: seq<Event>, n: nat)
    requires Next(cx, s) == Next(cx, u) && Delivers(cx, u, later, done, n)
    ensures Delivers(cx, s, later, done, n)
  {
    SameNextSameOutcomes(cx, s, u, |later| + n);
  }

  lemma OutcomesCons(cx: Context, s: State, u: State, e: Event, m: nat)
    requires Next(cx, s) == (Delivered(e), u)
    ensures Outcomes(cx, s, m + 1) == [Delivered(e)] + Outcomes(cx, u, m)
  {
  }

  lemma DeliveredCons(
      all: seq<Outcome>, others: seq<Outcome>, e: Event, later: seq<Event>, done: seq<Event>, n: nat)
    requires all == [Delivered(e)] + others && others == AllDelivered(later) + Finals(done + [e] + later, n)
    ensures all == AllDelivered([e] + later) + Finals(done + ([e] + later), n)
  {
    Assoc(done, [e], later);
    Assoc([Delivered(e)], AllDelivered(later), Finals(done + [e] + later, n));
    assert AllDelivered([e] + later) == [Delivered(e)] + AllDelivered(later);
  }

  lemma OutcomesDelivered(cx: Context, s: State, u: State, e: Event, later: seq<Event>, done: seq<Event>, n: nat)
    requires Next(cx, s) == (Delivered(e), u) && Delivers(cx, u, later, done + [e], n)
    ensures Outcomes(cx, s, |later| + n + 1) == AllDelivered([e] + later) + Finals(done + ([e] + later), n)
  {
    OutcomesCons(cx, s, u, e, |later| + n);
    DeliveredCons([Delivered(e)] + Outcomes(cx, u, |later| + n), Outcomes(cx, u, |later| + n), e, later, done, n);
  }

  lemma DeliversCons(cx: Context, s: State, u: State, e: Event, later: seq<Event>, done: seq<Event>, n: nat)
    requires Next(cx, s) == (Delivered(e), u) && Delivers(cx, u, later, done + [e], n)
    ensures Delivers(cx, s, [e] + later, done, n)
  {
    OutcomesDelivered(cx, s, u, e, later, done, n);
    assert |[e] + later| + n == |later| + n + 1;
  }

  lemma DeliversMore(cx: Context, s: State, u: State, first: seq<Event>, later: seq<Event>, done: seq<Event>, n: nat)
    requires |first| <= 1
    requires if first == [] then Next(cx, s) == Next(cx, u) else Next(cx, s) == (Delivered(first[0]), u)
    requires Delivers(cx, u, later, done + first, n)
    ensures Delivers(cx, s, first + later, done, n)
  {
    if first == [] {
      assert first + later == later && done + first == done;
      DeliversSkip(cx, s, u, later, done, n);
    } else {
      assert first == [first[0]];
      DeliversCons(cx, s, u, first[0], later, done, n);
    }
  }

  lemma ReadToTheEnd(text: Bytes, cr: bool)
    requires '\n' !in text && (!cr && text != "" ==> text[|text| - 1] != '\r')
    ensures var line: Bytes := text + if cr then "\r" else "";
            ReadLine(line) == (line, "", true) && TrimLine(line) == text
  {
    var line: Bytes := text + if cr then "\r" else "";
    assert forall i | 0 <= i < |text| :: text[i] in text;
    assert forall i | 0 <= i < |line| :: line[i] != '\n';
  }

  lemma ValidWithReturn(text: Bytes, cr: bool)
    requires Valid(text)
    ensures Valid(text + if cr then "\r" else "")
  {
    var end: Bytes := if cr then "\r" else "";
    EncodeDecode(text);
    EncodeAscii(end);
    EncodeConcat(Decode(text).value, end);
    DecodeEncode(Decode(text).value + end);
  }

  /** At the end of the body an unterminated line is read like any other. */
  lemma NextPastOpenLine(cx: Context, s: State, l: Line)
    requires Writable(l) && !s.closed && s.body == OpenText(l)
    ensures Next(cx, s) == Next(cx, s.(body := "", fields := Apply(s.fields, l.content)))
  {
    ConsumeWritten(s.fields, l);
    ReadToTheEnd(LineText(l), l.crlf);
    ValidWithReturn(LineText(l), l.crlf);
  }

  lemma {:induction false} ApplyLast(f: Fields, ls: seq<Line>)
    requires ls != []
    ensures ApplyAll(f, ls) == Apply(ApplyAll(f, ls[..|ls| - 1]), ls[|ls| - 1].content)
    decreases |ls|
  {
    if |ls| > 1 {
      ApplyLast(Apply(f, ls[0].content), ls[1..]);
      assert ls[1..][..|ls| - 2] == ls[..|ls| - 1][1..];
    }
  }

  lemma NextPastLast(cx: Context, s: State, ls: seq<Line>, cut: bool)
    requires forall i | 0 <= i < |ls| :: Writable(ls[i])
    requires !s.closed && s.body == LastText(ls, cut)
    ensures Next(cx, s) == Next(cx, s.(body := "", fields := ApplyAll(s.fields, ls)))
  {
    if ls == [] || !cut {
      assert s.body == LinesText(ls) + "";
      NextPastLines(cx, s, ls, "");
    } else {
      var n := |ls| - 1;
      NextPastLines(cx, s, ls[..n], OpenText(ls[n]));
      NextPastOpenLine(cx, s.(body := OpenText(ls[n]), fields := ApplyAll(s.fields, ls[..n])), ls[n]);
      ApplyLast(s.fields, ls);
    }
  }

  /** The call of Next that reads a last frame without its blank line. */
  lemma LastStep(cx: Context, s: State, last: seq<Line>, cut: bool, done: seq<Event>) returns (u: State)
    requires !cx.faulty && Ready(s, done) && s.body == LastText(last, cut)
    requires WellWritten(cx, last) && LegalEvents(done + Carried(cx, last))
    ensures !u.closed && u.body == "" && u.fields.dataLines == []
    ensures FlagsMatch(u.order, Names(done + Carried(cx, last)))
    ensures Carried(cx, last) == [] ==> Next(cx, s) == Next(cx, u)
    ensures Carried(cx, last) != [] ==> Next(cx, s) == (Delivered(Carried(cx, last)[0]), u)
  {
    var f := ApplyAll(NO_FIELDS, last);
    u := s.(body := "", fields := f);
    NextPastLast(cx, s, last, cut);
    assert done + [] == done;
    if f.dataLines != [] {
      DispatchCarried(cx, s.(body := ""), f, done);
      u := Dispatch(cx, u).1;
    }
  }

  lemma DeliverLast(cx: Context, s: State, last: seq<Line>, cut: bool, done: seq<Event>, n: nat)
    requires !cx.faulty && Ready(s, done) && s.body == LastText(last, cut)
    requires WellWritten(cx, last) && LegalEvents(done + Carried(cx, last))
    ensures Delivers(cx, s, Carried(cx, last), done, n)
  {
    var u := LastStep(cx, s, last, cut, done);
    var events := Carried(cx, last);
    AfterTheEnd(cx, u, done + events, n);
    assert done + events + [] == done + events && events + [] == events;
    assert AllDelivered([]) + Finals(done + events, n) == Finals(done + events, n);
    DeliversMore(cx, s, u, events, [], done, n);
  }

  /** The call of Next that reads one whole frame. */
  lemma FrameStep(cx: Context, s: State, frame: Frame, rest: Bytes, done: seq<Event>) returns (u: State)
    requires Ready(s, done) && s.body == LinesText(frame.lines) + Eol(frame.crlf) + rest
    requires WellWritten(cx, frame.lines) && LegalEvents(done + Carried(cx, frame.lines))
    ensures Ready(u, done + Carried(cx, frame.lines)) && u.body == rest
    ensures Carried(cx, frame.lines) == [] ==> Next(cx, s) == Next(cx, u)
    ensures Carried(cx, frame.lines) != [] ==> Next(cx, s) == (Delivered(Carried(cx, frame.lines)[0]), u)
  {
    var lines, crlf := frame.lines, frame.crlf;
    var f := ApplyAll(NO_FIELDS, lines);
    Assoc(LinesText(lines), Eol(crlf), rest);
    NextPastLines(cx, s, lines, Eol(crlf) + rest);
    var t := s.(body := Eol(crlf) + rest, fields := f);
    NextAtBlank(cx, t, crlf, rest);
    assert done + [] == done;
    if f.dataLines != [] {
      DispatchCarried(cx, s.(body := rest), f, done);
    }
    u := Dispatch(cx, t.(body := rest)).1;
  }

  lemma {:induction false} DeliverFrames(
      cx: Context, s: State, frames: seq<Frame>, last: seq<Line>, cut: bool, done: seq<Event>, n: nat)
    requires !cx.faulty && Ready(s, done) && s.body == StreamText(frames, last, cut)
    requires AllWellWritten(cx, frames, last) && LegalEvents(done + AllCarried(cx, frames, last))
    ensures Delivers(cx, s, AllCarried(cx, frames, last), done, n)
    decreases |frames|
  {
    if frames == [] {
      DeliverLast(cx, s, last, cut, done, n);
    } else {
      var first, later := Carried(cx, frames[0].lines), AllCarried(cx, frames[1..], last);
      Assoc(done, first, later);
      LegalPrefix(done + first, later);
      var u := FrameStep(cx, s, frames[0], StreamText(frames[1..], last, cut), done);
      DeliverFrames(cx, u, frames[1..], last, cut, done + first, n);
      DeliversMore(cx, s, u, first, later, done, n);
    }
  }

  lemma ReadyAtFirst(body: Bytes, events: seq<Event>)
    ensures Ready(Initial(body), []) && [] + events == events
  {
  }

  /** A legal list of events, written as frames in any way, with or without the last blank line and the
      last line's terminator, is delivered exactly, in order; after it every further call reports EOF if
      the list ends in a terminal event and a disconnect otherwise. */
  lemma FramesRoundTrip(cx: Context, frames: seq<Frame>, last: seq<Line>, cut: bool, n: nat)
    requires !cx.faulty && AllWellWritten(cx, frames, last)
    requires LegalEvents(AllCarried(cx, frames, last))
    ensures Delivers(cx, Initial(StreamText(frames, last, cut)), AllCarried(cx, frames, last), [], n)
  {
    ReadyAtFirst(StreamText(frames, last, cut), AllCarried(cx, frames, last));
    DeliverFrames(cx, Initial(StreamText(frames, last, cut)), frames, last, cut, [], n);
  }
}
