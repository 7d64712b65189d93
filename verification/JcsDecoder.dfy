/** decodeJSONValue over encoding/json's token stream, proved to read exactly the grammar and to
    apply the subset's rules in document order. */
module JcsDecoder {
  import opened Wrappers
  import opened GoText
  import opened JsonGrammar
  import opened Jcs

  /** encoding/json's tokenState. */
  datatype TokenState =
    | TopValue | ArrayStart | ArrayValue | ArrayComma
    | ObjectStart | ObjectKey | ObjectColon | ObjectValue | ObjectComma

  datatype Token =
    | TDelim(c: char) | TString(s: string) | TNumber(literal: string) | TBool(b: bool) | TNull

  /** Where a decoder stands: the unread text, its state, and the states to return to. */
  datatype Cursor = Cursor(rest: string, state: TokenState, stack: seq<TokenState>)

  predicate ValueAllowed(state: TokenState) {
    state.TopValue? || state.ArrayStart? || state.ArrayValue? || state.ObjectValue?
  }

  function AfterValue(state: TokenState): TokenState {
    match state
    case ArrayStart => ArrayComma
    case ArrayValue => ArrayComma
    case ObjectValue => ObjectComma
    case _ => state
  }

  function ScalarToken(d: Doc): Token
    requires !d.DArr? && !d.DObj?
  {
    match d
    case DNull => TNull
    case DBool(b) => TBool(b)
    case DNum(literal) => TNumber(literal)
    case DStr(us) => TString(Unquote(us))
  }

  /** One step of Decoder.Token that yields a token; separators are handled by `Separator`. */
  function TokenHere(c: Cursor): Option<(Token, Cursor)> {
    var t := SkipSpace(c.rest);
    if t == "" then None
    else if t[0] == '[' then
      if ValueAllowed(c.state) then Some((TDelim('['), Cursor(t[1..], ArrayStart, [c.state] + c.stack))) else None
    else if t[0] == '{' then
      if ValueAllowed(c.state) then Some((TDelim('{'), Cursor(t[1..], ObjectStart, [c.state] + c.stack))) else None
    else if t[0] == ']' then
      if (c.state.ArrayStart? || c.state.ArrayComma?) && c.stack != [] then
        Some((TDelim(']'), Cursor(t[1..], AfterValue(c.stack[0]), c.stack[1..])))
      else None
    else if t[0] == '}' then
      if (c.state.ObjectStart? || c.state.ObjectComma?) && c.stack != [] then
        Some((TDelim('}'), Cursor(t[1..], AfterValue(c.stack[0]), c.stack[1..])))
      else None
    else if t[0] == '"' && (c.state.ObjectStart? || c.state.ObjectKey?) then
      var (us, rest) :- LexString(t[1..]);
      Some((TString(Unquote(us)), Cursor(rest, ObjectColon, c.stack)))
    else if ValueAllowed(c.state) then
      var (d, rest) :- ParseScalar(t);
      Some((ScalarToken(d), Cursor(rest, AfterValue(c.state), c.stack)))
    else None
  }

  /** The cursor after the separator in front of it, when the state expects that separator. */
  function Separator(c: Cursor): Option<Cursor> {
    var t := SkipSpace(c.rest);
    if StartsWith(t, ':') && c.state.ObjectColon? then Some(Cursor(t[1..], ObjectValue, c.stack))
    else if StartsWith(t, ',') && c.state.ArrayComma? then Some(Cursor(t[1..], ArrayValue, c.stack))
    else if StartsWith(t, ',') && c.state.ObjectComma? then Some(Cursor(t[1..], ObjectKey, c.stack))
    else None
  }

  /** Decoder.Token: no state expects two separators in a row, so at most one is skipped. */
  function NextToken(c: Cursor): Option<(Token, Cursor)> {
    match Separator(c)
    case None => TokenHere(c)
    case Some(next) => TokenHere(next)
  }

  class Decoder {
    var rest: string
    var state: TokenState
    var stack: seq<TokenState>

    function At(): Cursor
      reads this
    {
      Cursor(rest, state, stack)
    }

    constructor (text: string)
      ensures At() == Cursor(text, TopValue, [])
    {
      rest, state, stack := text, TopValue, [];
    }

    /** Decoder.More: whether another element follows; a closing bracket of either kind ends it. */
    method More() returns (more: bool)
      ensures more == HasMore(rest)
    {
      var t := SkipSpace(rest);
      more := t != "" && t[0] != ']' && t[0] != '}';
    }

    /** Decoder.Token, as its loop: a separator the state expects is consumed and the loop goes round. */
    method Token() returns (token: Option<Token>)
      modifies this
      ensures match NextToken(old(At()))
              case None => token.None?
              case Some((t, next)) => token == Some(t) && At() == next
      ensures |rest| <= old(|rest|)
      ensures token.Some? ==> |rest| < old(|rest|)
    {
      ghost var start := At();
      ghost var skipped := false;
      while true
        invariant !skipped ==> At() == start
        invariant skipped ==> Separator(start) == Some(At())
        invariant |rest| <= |start.rest|
        decreases |rest|
      {
        var t := SkipSpace(rest);
        if StartsWith(t, ':') || StartsWith(t, ',') {
          var next := Separator(At());
          if next.None? {
            NoValueAtSeparator(At());
            return None;
          }
          rest, state := next.value.rest, next.value.state;
          skipped := true;
        } else {
          var step := TokenHere(At());
          if step.None? {
            return None;
          }
          var (found, next) := step.value;
          rest, state, stack := next.rest, next.state, next.stack;
          return Some(found);
        }
      }
    }
  }

  lemma NoValueAtSeparator(c: Cursor)
    requires StartsWith(SkipSpace(c.rest), ':') || StartsWith(SkipSpace(c.rest), ',')
    ensures TokenHere(c).None?
  {
  }

  // ---- where values begin ----

  /** The text at which a value read from `c` begins: past the separator, if one is due. */
  function ValueStart(c: Cursor): Option<string> {
    if ValueAllowed(c.state) then Some(c.rest)
    else match Separator(c)
      case Some(next) => if ValueAllowed(next.state) then Some(next.rest) else None
      case None => None
  }

  /** The state in which such a value is read. */
  function ValueState(state: TokenState): TokenState {
    match state
    case ArrayComma => ArrayValue
    case ObjectColon => ObjectValue
    case _ => state
  }

  /** What reading a value from `c` must yield: the grammar's document, elaborated. */
  predicate Reads(c: Cursor, r: Outcome<Value>, c': Cursor) {
    match ValueStart(c)
    case None => r.Err?
    case Some(s) =>
      match ParseValue(s)
      case None => r.Err?
      case Some((doc, rest)) =>
        && r == Elaborate(doc)
        && (r.Ok? ==> c' == Cursor(rest, AfterValue(ValueState(c.state)), c.stack))
  }

  /** A cursor at which no separator is due: its value and the token that opens the value agree. */
  lemma OpeningToken(c: Cursor)
    requires ValueAllowed(c.state)
    ensures match TokenHere(c)
            case None => ParseValue(c.rest).None?
            case Some((TDelim(d), next)) =>
              && (d == '[' ==> next.state == ArrayStart && next.stack == [c.state] + c.stack
                               && ParseValue(c.rest) == AsArray(ArrayBody(next.rest)))
              && (d == '{' ==> next.state == ObjectStart && next.stack == [c.state] + c.stack
                               && ParseValue(c.rest) == AsObject(ObjectBody(next.rest)))
              && (d != '[' && d != '{' ==> ParseValue(c.rest).None?)
            case Some((token, next)) =>
              && ParseValue(c.rest).Some?
              && var (doc, rest) := ParseValue(c.rest).value;
                 !doc.DArr? && !doc.DObj? && token == ScalarToken(doc)
                 && next == Cursor(rest, AfterValue(c.state), c.stack)
  {
    var t := SkipSpace(c.rest);
    if StartsWith(t, ']') || StartsWith(t, '}') || t == "" {
      NoValueAtBracket(c.rest);
    }
  }

  lemma FirstToken(c: Cursor)
    requires ValueAllowed(ValueState(c.state))
    ensures ValueStart(c).None? ==> NextToken(c).None? || NextToken(c).value.0 == TDelim(']')
    ensures ValueStart(c).Some? ==>
              NextToken(c) == TokenHere(Cursor(ValueStart(c).value, ValueState(c.state), c.stack))
  {
  }

  // ---- lists ----

  /** `ds` in front of the rest of a list. */
  function Before<T>(ds: seq<T>, tail: Option<(seq<T>, string)>): Option<(seq<T>, string)> {
    match tail
    case None => None
    case Some((more, rest)) => Some((ds + more, rest))
  }

  lemma BeforeCons<T>(ds: seq<T>, d: T, tail: Option<(seq<T>, string)>)
    ensures Before(ds, Before([d], tail)) == Before(ds + [d], tail)
    ensures ds == [] ==> Before(ds, tail) == tail
  {
    if tail.Some? {
      assert ds + ([d] + tail.value.0) == ds + [d] + tail.value.0;
      assert [] + tail.value.0 == tail.value.0;
    }
  }

  lemma NoValueAtBracket(s: string)
    requires var t := SkipSpace(s); t == "" || t[0] == ']' || t[0] == '}'
    ensures ParseValue(s).None? && ParseMember(s).None?
  {
  }

  lemma {:induction false} ElaborateItemsConcat(ds: seq<Doc>, more: seq<Doc>)
    ensures ElaborateItems(ds + more)
            == match ElaborateItems(ds)
               case Err(e) => Err(e)
               case Ok(vs) => match ElaborateItems(more) case Err(e) => Err(e) case Ok(ws) => Ok(vs + ws)
  {
    if ds == [] {
      assert ds + more == more;
      assert ElaborateItems(more).Ok? ==> [] + ElaborateItems(more).value == ElaborateItems(more).value;
    } else {
      assert (ds + more)[1..] == ds[1..] + more;
      ElaborateItemsConcat(ds[1..], more);
      if Elaborate(ds[0]).Ok? && ElaborateItems(ds[1..]).Ok? && ElaborateItems(more).Ok? {
        var v, vs, ws := Elaborate(ds[0]).value, ElaborateItems(ds[1..]).value, ElaborateItems(more).value;
        assert [v] + (vs + ws) == [v] + vs + ws;
      }
    }
  }

  lemma {:induction false} ElaborateMembersConcat(ms: seq<Member>, more: seq<Member>, seen: map<string, Value>)
    ensures ElaborateMembers(ms + more, seen)
            == match ElaborateMembers(ms, seen) case Err(e) => Err(e) case Ok(m) => ElaborateMembers(more, m)
  {
    if ms == [] {
      assert ms + more == more;
    } else {
      assert (ms + more)[1..] == ms[1..] + more;
      if Unquote(ms[0].key) !in seen && Elaborate(ms[0].value).Ok? {
        ElaborateMembersConcat(ms[1..], more, seen[Unquote(ms[0].key) := Elaborate(ms[0].value).value]);
      }
    }
  }

  /** What follows "[". */
  function ArrayBody(body: string): Option<(seq<Doc>, string)> {
    var u := SkipSpace(body);
    if StartsWith(u, ']') then Some(([], u[1..])) else ParseElements(body)
  }

  /** What follows "{". */
  function ObjectBody(body: string): Option<(seq<Member>, string)> {
    var u := SkipSpace(body);
    if StartsWith(u, '}') then Some(([], u[1..])) else ParseMembers(body)
  }

  function AsArray(body: Option<(seq<Doc>, string)>): Option<(Doc, string)> {
    match body case None => None case Some((ds, rest)) => Some((DArr(ds), rest))
  }

  function AsObject(body: Option<(seq<Member>, string)>): Option<(Doc, string)> {
    match body case None => None case Some((ms, rest)) => Some((DObj(ms), rest))
  }

  /** The body of an array equals the elements read so far in front of what is still unread. */
  ghost predicate ArrayProgress(body: string, ds: seq<Doc>, c: Cursor) {
    if ds == [] then c.state == ArrayStart && c.rest == body
    else c.state == ArrayComma && ArrayBody(body) == Before(ds, ParseElementsTail(c.rest))
  }

  ghost predicate ObjectProgress(body: string, ms: seq<Member>, c: Cursor) {
    if ms == [] then c.state == ObjectStart && c.rest == body
    else c.state == ObjectComma && ObjectBody(body) == Before(ms, ParseMembersTail(c.rest))
  }

  /** Reading one more element keeps the progress. */
  lemma ArrayStep(body: string, ds: seq<Doc>, c: Cursor)
    requires ArrayProgress(body, ds, c) && HasMore(c.rest)
    ensures ValueStart(c).None? ==> ArrayBody(body).None?
    ensures ValueStart(c).Some? ==>
              match ParseValue(ValueStart(c).value)
              case None => ArrayBody(body).None?
              case Some((d, rest)) => ArrayBody(body) == Before(ds + [d], ParseElementsTail(rest))
  {
    if ValueStart(c).Some? && ParseValue(ValueStart(c).value).Some? {
      var (d, rest) := ParseValue(ValueStart(c).value).value;
      BeforeCons(ds, d, ParseElementsTail(rest));
      assert Before(ds, ParseElements(ValueStart(c).value)) == Before(ds + [d], ParseElementsTail(rest));
      BeforeCons(ds, d, ParseElements(body));
    } else if ValueStart(c).Some? {
      assert ParseElements(ValueStart(c).value).None?;
    }
  }

  lemma ArrayEnd(body: string, ds: seq<Doc>, c: Cursor)
    requires ArrayProgress(body, ds, c) && !HasMore(c.rest)
    ensures ArrayBody(body) == if StartsWith(SkipSpace(c.rest), ']') then Some((ds, SkipSpace(c.rest)[1..])) else None
  {
    assert ds + [] == ds;
    NoValueAtBracket(c.rest);
  }

  method DecodeArray(decoder: Decoder) returns (r: Outcome<Value>)
    requires decoder.state == ArrayStart && decoder.stack != []
    modifies decoder
    ensures match ArrayBody(old(decoder.rest))
            case None => r.Err?
            case Some((ds, rest)) =>
              && r == Elaborate(DArr(ds))
              && (r.Ok? ==> decoder.At() == Cursor(rest, AfterValue(old(decoder.stack[0])), old(decoder.stack[1..])))
    ensures |decoder.rest| <= old(|decoder.rest|)
    decreases |decoder.rest|, 2
  {
    ghost var body, ds := decoder.rest, [];
    var items: seq<Value> := [];
    var more := decoder.More();
    while more
      invariant ArrayProgress(body, ds, decoder.At()) && decoder.stack == old(decoder.stack)
      invariant ElaborateItems(ds) == Ok(items)
      invariant more == HasMore(decoder.rest)
      invariant |decoder.rest| <= old(|decoder.rest|)
      decreases |decoder.rest|
    {
      ghost var before := decoder.At();
      ArrayStep(body, ds, before);
      var child := DecodeJSONValue(decoder);
      ghost var parsed := if ValueStart(before).Some? then ParseValue(ValueStart(before).value) else None;
      if child.Err? {
        if parsed.Some? {
          StopsAtItem(ds, parsed.value.0, items, body, ParseElementsTail(parsed.value.1));
        }
        return Err(child.error);
      }
      ElaborateItemsConcat(ds, [parsed.value.0]);
      assert ElaborateItems([parsed.value.0]) == Ok([child.value] + []);
      assert [child.value] + [] == [child.value];
      ds := ds + [parsed.value.0];
      items := items + [child.value];
      more := decoder.More();
    }
    ArrayEnd(body, ds, decoder.At());
    var end := decoder.Token();
    if end != Some(TDelim(']')) {
      return Err(Syntax);
    }
    return Ok(Arr(items));
  }

  lemma StopsAtItem(ds: seq<Doc>, d: Doc, vs: seq<Value>, body: string, tail: Option<(seq<Doc>, string)>)
    requires ElaborateItems(ds) == Ok(vs) && Elaborate(d).Err?
    requires ArrayBody(body) == Before(ds + [d], tail)
    ensures ArrayBody(body).Some? ==> Elaborate(DArr(ArrayBody(body).value.0)) == Err(Elaborate(d).error)
  {
    if tail.Some? {
      var more := tail.value.0;
      assert ds + [d] + more == ds + ([d] + more);
      ElaborateItemsConcat(ds, [d] + more);
    }
  }

  lemma ObjectEnd(body: string, ms: seq<Member>, c: Cursor)
    requires ObjectProgress(body, ms, c) && !HasMore(c.rest)
    ensures ObjectBody(body) == if StartsWith(SkipSpace(c.rest), '}') then Some((ms, SkipSpace(c.rest)[1..])) else None
  {
    assert ms + [] == ms;
    NoValueAtBracket(c.rest);
  }

  /** Where the next member's key literal begins, past the separator, if one is due. */
  function MemberStart(c: Cursor): Option<string> {
    match Separator(c)
    case None => if c.state.ObjectStart? then Some(c.rest) else None
    case Some(next) => Some(next.rest)
  }

  lemma ObjectStep(body: string, ms: seq<Member>, c: Cursor)
    requires ObjectProgress(body, ms, c) && HasMore(c.rest)
    ensures MemberStart(c).None? ==> ObjectBody(body).None?
    ensures MemberStart(c).Some? ==>
              match ParseMember(MemberStart(c).value)
              case None => ObjectBody(body).None?
              case Some((m, rest)) => ObjectBody(body) == Before(ms + [m], ParseMembersTail(rest))
  {
    if MemberStart(c).Some? && ParseMember(MemberStart(c).value).Some? {
      var (m, rest) := ParseMember(MemberStart(c).value).value;
      BeforeCons(ms, m, ParseMembersTail(rest));
      assert Before(ms, ParseMembers(MemberStart(c).value)) == Before(ms + [m], ParseMembersTail(rest));
      BeforeCons(ms, m, ParseMembers(body));
    } else if MemberStart(c).Some? {
      assert ParseMembers(MemberStart(c).value).None?;
    }
  }

  /** The token read where a member is due is its key, or there is none. */
  lemma MemberToken(c: Cursor)
    requires (c.state == ObjectStart || c.state == ObjectComma) && HasMore(c.rest)
    ensures MemberStart(c).None? ==> NextToken(c).None?
    ensures MemberStart(c).Some? ==>
              var t := SkipSpace(MemberStart(c).value);
              if !StartsWith(t, '"') then NextToken(c).None?
              else NextToken(c) == match LexString(t[1..])
                                   case None => None
                                   case Some((us, rest)) =>
                                     Some((TString(Unquote(us)), Cursor(rest, ObjectColon, c.stack)))
  {
  }

  /** Past its key, a member is read like a value that a colon introduces. */
  lemma MemberValue(s: string, c: Cursor)
    requires c.state == ObjectColon
    requires StartsWith(SkipSpace(s), '"') && LexString(SkipSpace(s)[1..]).Some?
    requires c.rest == LexString(SkipSpace(s)[1..]).value.1
    ensures ParseMember(s)
            == match ValueStart(c)
               case None => None
               case Some(v) =>
                 match ParseValue(v)
                 case None => None
                 case Some((d, rest)) => Some((Member(LexString(SkipSpace(s)[1..]).value.0, d), rest))
  {
  }

  /** What one "key": value entry yields when the keys in `seen` came before it. */
  function EntryValue(m: Member, seen: set<string>): Outcome<(string, Value)> {
    if Unquote(m.key) in seen then Err(DuplicateKey)
    else match Elaborate(m.value)
      case Err(e) => Err(e)
      case Ok(v) => Ok((Unquote(m.key), v))
  }

  predicate ReadsEntry(c: Cursor, seen: set<string>, r: Outcome<(string, Value)>, c': Cursor) {
    match MemberStart(c)
    case None => r.Err?
    case Some(s) =>
      match ParseMember(s)
      case None => r.Err?
      case Some((m, rest)) =>
        && r == EntryValue(m, seen)
        && (r.Ok? ==> c' == Cursor(rest, ObjectComma, c.stack))
  }

  /** One turn of decodeJSONValue's object loop: the key, the duplicate check, the value. */
  method DecodeEntry(decoder: Decoder, seen: set<string>) returns (r: Outcome<(string, Value)>)
    requires (decoder.state == ObjectStart || decoder.state == ObjectComma) && HasMore(decoder.rest)
    modifies decoder
    ensures ReadsEntry(old(decoder.At()), seen, r, decoder.At())
    ensures |decoder.rest| <= old(|decoder.rest|)
    ensures r.Ok? ==> |decoder.rest| < old(|decoder.rest|)
    decreases |decoder.rest|, 2
  {
    ghost var start := decoder.At();
    MemberToken(start);
    var keyToken := decoder.Token();
    if keyToken.None? || !keyToken.value.TString? {
      return Err(Syntax);
    }
    var key := keyToken.value.s;
    if key in seen {
      return Err(DuplicateKey);
    }
    MemberValue(MemberStart(start).value, decoder.At());
    var child := DecodeJSONValue(decoder);
    if child.Err? {
      return Err(child.error);
    }
    return Ok((key, child.value));
  }

  method DecodeObject(decoder: Decoder) returns (r: Outcome<Value>)
    requires decoder.state == ObjectStart && decoder.stack != []
    modifies decoder
    ensures match ObjectBody(old(decoder.rest))
            case None => r.Err?
            case Some((ms, rest)) =>
              && r == Elaborate(DObj(ms))
              && (r.Ok? ==> decoder.At() == Cursor(rest, AfterValue(old(decoder.stack[0])), old(decoder.stack[1..])))
    ensures |decoder.rest| <= old(|decoder.rest|)
    decreases |decoder.rest|, 3
  {
    ghost var body, ms := decoder.rest, [];
    var entries: map<string, Value> := map[];
    var seen: set<string> := {};
    var more := decoder.More();
    while more
      invariant ObjectProgress(body, ms, decoder.At()) && decoder.stack == old(decoder.stack)
      invariant ElaborateMembers(ms, map[]) == Ok(entries) && seen == entries.Keys
      invariant more == HasMore(decoder.rest)
      invariant |decoder.rest| <= old(|decoder.rest|)
      decreases |decoder.rest|
    {
      ghost var before := decoder.At();
      ObjectStep(body, ms, before);
      var entry := DecodeEntry(decoder, seen);
      ghost var parsed := if MemberStart(before).Some? then ParseMember(MemberStart(before).value) else None;
      if entry.Err? {
        if parsed.Some? {
          StopsAtMember(ms, parsed.value.0, entries, body, ParseMembersTail(parsed.value.1));
        }
        return Err(entry.error);
      }
      ElaborateMembersConcat(ms, [parsed.value.0], map[]);
      ms := ms + [parsed.value.0];
      var (key, child) := entry.value;
      seen := seen + {key};
      entries := entries[key := child];
      more := decoder.More();
    }
    ObjectEnd(body, ms, decoder.At());
    var end := decoder.Token();
    if end != Some(TDelim('}')) {
      return Err(Syntax);
    }
    return Ok(Obj(entries));
  }

  lemma StopsAtMember(ms: seq<Member>, m: Member, entries: map<string, Value>, body: string,
                      tail: Option<(seq<Member>, string)>)
    requires ElaborateMembers(ms, map[]) == Ok(entries)
    requires Unquote(m.key) in entries || Elaborate(m.value).Err?
    requires ObjectBody(body) == Before(ms + [m], tail)
    ensures ObjectBody(body).Some? ==>
              Elaborate(DObj(ObjectBody(body).value.0))
              == Err(if Unquote(m.key) in entries then DuplicateKey else Elaborate(m.value).error)
  {
    if tail.Some? {
      var more := tail.value.0;
      assert ms + [m] + more == ms + ([m] + more);
      ElaborateMembersConcat(ms, [m] + more, map[]);
    }
  }

  /** decodeJSONValue. */
  method DecodeJSONValue(decoder: Decoder) returns (r: Outcome<Value>)
    requires ValueAllowed(ValueState(decoder.state))
    modifies decoder
    ensures Reads(old(decoder.At()), r, decoder.At())
    ensures |decoder.rest| <= old(|decoder.rest|)
    ensures r.Ok? ==> |decoder.rest| < old(|decoder.rest|)
    decreases |decoder.rest|, 1
  {
    FirstToken(decoder.At());
    ghost var start := ValueStart(decoder.At());
    if start.Some? {
      OpeningToken(Cursor(start.value, ValueState(decoder.state), decoder.stack));
    }
    var token := decoder.Token();
    if token.None? {
      return Err(Syntax);
    }
    match token.value
    case TDelim(c) =>
      if c == '{' {
        r := DecodeObject(decoder);
      } else if c == '[' {
        r := DecodeArray(decoder);
      } else {
        return Err(Syntax);
      }
    case TNumber(literal) =>
      if HasFractionOrExponent(literal) {
        return Err(NumberForm);
      }
      if ParseInt64(literal).None? {
        return Err(NumberRange);
      }
      return Ok(Num(literal));
    case TString(s) => return Ok(Str(s));
    case TBool(b) => return Ok(Bool(b));
    case TNull => return Ok(Null);
  }
}
