/** encoding/json's compact output for strings and structs, and what the canonical subset reads from it. */
module GoJson {
  import opened Wrappers
  import opened GoText
  import opened GoStrings
  import opened Sequences
  import opened JsonGrammar
  import opened JsonLocality
  import opened Jcs
  import opened JcsScanner
  import opened JcsRoundTrip
  import opened JcsTrailing
  import Utf8

  type Bytes = Utf8.Bytes

  // ---- strings ----

  /** How encoding/json writes a rune inside a string literal: like the canonical writer, but with the
      characters HTML and JavaScript care about escaped. */
  function GoUnit(c: char): Unit {
    match c
    case '"' => Esc('"')
    case '\\' => Esc('\\')
    case '\U{8}' => Esc('b')
    case '\U{C}' => Esc('f')
    case '\n' => Esc('n')
    case '\r' => Esc('r')
    case '\t' => Esc('t')
    case _ =>
      if c < ' ' || c == '<' || c == '>' || c == '&' || c == '\U{2028}' || c == '\U{2029}' then Hex(c as int)
      else Raw(c)
  }

  /** The literal elements of a Go string; a malformed byte is written as \ufffd. */
  function GoUnits(b: Bytes): seq<Unit> {
    if b == "" then []
    else match Utf8.DecodeRune(b)
      case None => [Hex(0xFFFD)] + GoUnits(b[1..])
      case Some((c, n)) => [GoUnit(c)] + GoUnits(b[n..])
  }

  function Spelled(u: Unit): string {
    match u
    case Raw(c) => [c]
    case Esc(e) => ['\\', e]
    case Hex(code) =>
      if 0 <= code < 0x10000 then
        ['\\', 'u', HexLower(code / 16 / 16 / 16), HexLower(code / 16 / 16 % 16),
         HexLower(code / 16 % 16), HexLower(code % 16)]
      else ""
  }

  function Spell(us: seq<Unit>): string {
    if us == [] then "" else Spelled(us[0]) + Spell(us[1..])
  }

  /** json.Marshal of a string, as text. */
  function GoQuote(b: Bytes): string {
    "\"" + Spell(GoUnits(b)) + "\""
  }

  predicate Spellable(u: Unit) {
    match u
    case Raw(c) => c != '"' && c != '\\' && c >= ' '
    case Esc(e) => IsSimpleEscape(e)
    case Hex(code) => 0 <= code < 0x10000
  }

  lemma HexLowerDigit(d: nat)
    requires d < 16
    ensures HexDigit(HexLower(d)) == d
  {
  }

  lemma LastHexDigit(code: nat)
    ensures code / 16 * 16 + code % 16 == code
  {
  }

  lemma LexSpelledHex(code: nat, s: string)
    requires code < 0x10000 && LexString(s).Some?
    ensures LexString(Spelled(Hex(code)) + s) == Some(([Hex(code)] + LexString(s).value.0, LexString(s).value.1))
  {
    var x, y, z := code / 16, code / 16 / 16, code / 16 / 16 / 16;
    var a, b, c, d := HexLower(z), HexLower(y % 16), HexLower(x % 16), HexLower(code % 16);
    HexLowerDigit(z);
    HexLowerDigit(y % 16);
    HexLowerDigit(x % 16);
    HexLowerDigit(code % 16);
    LastHexDigit(code);
    LastHexDigit(x);
    LastHexDigit(y);
    HexOfFour(a, b, c, d, s);
    LexHexEscape([a, b, c, d], code, s);
    assert Spelled(Hex(code)) == "\\u" + [a, b, c, d];
  }

  lemma LexSpelled(u: Unit, s: string)
    requires Spellable(u) && LexString(s).Some?
    ensures LexString(Spelled(u) + s) == Some(([u] + LexString(s).value.0, LexString(s).value.1))
  {
    if u.Hex? {
      LexSpelledHex(u.code, s);
    } else {
      DropPrefix(Spelled(u), s);
    }
  }

  lemma {:induction false} LexSpell(us: seq<Unit>, rest: string)
    requires forall u | u in us :: Spellable(u)
    ensures LexString(Spell(us) + "\"" + rest) == Some((us, rest))
  {
    if us == [] {
      assert Spell(us) + "\"" + rest == "\"" + rest;
    } else {
      var tail := Spell(us[1..]) + "\"" + rest;
      LexSpell(us[1..], rest);
      LexSpelled(us[0], tail);
      Assoc(Spelled(us[0]), Spell(us[1..]), "\"");
      Assoc(Spelled(us[0]), Spell(us[1..]) + "\"", rest);
      assert [us[0]] + us[1..] == us;
    }
  }

  lemma GoUnitRead(c: char, us: seq<Unit>)
    ensures Unquote([GoUnit(c)] + us) == [c] + Unquote(us)
    ensures Spellable(GoUnit(c)) && !HighAt([GoUnit(c)], 0) && !LowAt([GoUnit(c)], 0)
  {
    assert ([GoUnit(c)] + us)[1..] == us;
  }

  lemma {:induction false} GoUnitsRead(b: Bytes)
    ensures Unquote(GoUnits(b)) == Runes(b) && Paired(GoUnits(b))
    ensures forall u | u in GoUnits(b) :: Spellable(u)
  {
    if b != "" {
      match Utf8.DecodeRune(b)
      case None =>
        GoUnitsRead(b[1..]);
        PairedCons(Hex(0xFFFD), GoUnits(b[1..]));
        assert ([Hex(0xFFFD)] + GoUnits(b[1..]))[1..] == GoUnits(b[1..]);
      case Some((c, n)) =>
        GoUnitsRead(b[n..]);
        GoUnitRead(c, GoUnits(b[n..]));
        PairedCons(GoUnit(c), GoUnits(b[n..]));
    }
  }

  /** `text` is one JSON value with nothing but space after it, which the strict decoder reads as `v`. */
  predicate Reads(text: string, v: Value) {
    && ParseValue(text).Some? && SkipSpace(ParseValue(text).value.1) == ""
    && AllPaired(ParseValue(text).value.0) && Elaborate(ParseValue(text).value.0) == Ok(v)
  }

  lemma ParseSpelled(us: seq<Unit>)
    requires forall u | u in us :: Spellable(u)
    ensures ParseValue("\"" + Spell(us) + "\"") == Some((DStr(us), ""))
  {
    var body := Spell(us) + "\"";
    LexSpell(us, "");
    assert body + "" == body;
    Assoc("\"", Spell(us), "\"");
    ParseLiteral(body, us, "");
  }

  /** A rune is written as the canonical writer writes it, except for the five characters HTML and
      JavaScript care about, which are written as escapes. */
  lemma RunesAreWritten(c: char)
    ensures if c in {'<', '>', '&', '\U{2028}', '\U{2029}'} then GoUnit(c) == Hex(c as int)
            else Spelled(GoUnit(c)) == QuoteRune(c)
  {
    if c < ' ' {
      SmallCode(c as int);
    }
  }

  lemma SmallCode(code: nat)
    requires code < 32
    ensures Spelled(Hex(code)) == ['\\', 'u', '0', '0', HexLower(code / 16), HexLower(code % 16)]
  {
    assert code / 16 / 16 == 0 && code / 16 % 16 == code / 16;
  }

  predicate SafeCharacter(c: char) {
    c !in {'<', '>', '&', '\U{2028}', '\U{2029}'} && c >= ' '
  }

  predicate HtmlSafe(s: string) {
    forall c | c in s :: SafeCharacter(c)
  }

  lemma HexLowerIsSafe(d: int)
    requires 0 <= d < 16
    ensures SafeCharacter(HexLower(d))
  {
  }

  lemma HexIsSafe(code: int)
    ensures HtmlSafe(Spelled(Hex(code)))
  {
    if 0 <= code < 0x10000 {
      HexLowerIsSafe(code / 16 / 16 / 16);
      HexLowerIsSafe(code / 16 / 16 % 16);
      HexLowerIsSafe(code / 16 % 16);
      HexLowerIsSafe(code % 16);
    }
  }

  lemma UnitIsSafe(c: char)
    ensures HtmlSafe(Spelled(GoUnit(c)))
  {
    if GoUnit(c).Hex? {
      HexIsSafe(c as int);
    }
  }

  lemma {:induction false} UnitsAreSafe(b: Bytes)
    ensures HtmlSafe(Spell(GoUnits(b)))
  {
    if b != "" {
      var n, c := 1, 'a';
      if Utf8.DecodeRune(b).Some? {
        c, n := Utf8.DecodeRune(b).value.0, Utf8.DecodeRune(b).value.1;
      }
      UnitIsSafe(c);
      HexIsSafe(0xFFFD);
      UnitsAreSafe(b[n..]);
      var us := GoUnits(b);
      assert us[1..] == GoUnits(b[n..]);
    }
  }

  /** A marshalled string contains no control character below U+0020 and none that HTML or JavaScript
      would take for their own. */
  lemma QuoteIsSafe(b: Bytes)
    ensures HtmlSafe(GoQuote(b))
  {
    UnitsAreSafe(b);
  }

  /** A marshalled string reads as its runes. */
  lemma QuoteReads(b: Bytes)
    ensures Reads(GoQuote(b), Str(Runes(b)))
  {
    GoUnitsRead(b);
    ParseSpelled(GoUnits(b));
  }

  /** A marshalled integer reads as its decimal literal. */
  lemma IntReads(n: int)
    requires INT64_MIN <= n <= INT64_MAX
    ensures Reads(FormatInt(n), Num(FormatInt(n)))
  {
    var literal := FormatInt(n);
    assert n < 0 ==> literal[1..] == FormatNat(-n);
    assert literal + "" == literal;
    ParseNumber(literal, "");
    ParseFormatInt(n);
    assert !HasFractionOrExponent(literal);
  }

  /** Text that reads as `v` is canonicalized to the canonical text of `v`. */
  lemma ReadsCanonically(text: string, v: Value)
    requires Reads(text, v)
    ensures ReadValue(Utf8.Encode(text)) == Ok(v)
    ensures KeysAllowed(v) ==> Canonicalize(Utf8.Encode(text)) == Ok(Utf8.Encode(Text(v)))
  {
    Utf8.DecodeEncode(text);
    ScannerIsExact(Utf8.Encode(text), text);
    NotBlank(text);
  }

  // ---- structs ----

  /** A struct field as json.Marshal writes it: its tag and the text of its value. */
  datatype Field = Field(name: string, text: string)

  predicate PlainName(name: string) {
    forall i | 0 <= i < |name| :: 'a' <= name[i] <= 'z' || name[i] == '_'
  }

  function FieldText(f: Field): string {
    "\"" + f.name + "\":" + f.text
  }

  function FieldsText(fields: seq<Field>): string
    requires fields != []
  {
    FieldText(fields[0]) + if |fields| == 1 then "" else "," + FieldsText(fields[1..])
  }

  function StructText(fields: seq<Field>): string
    requires fields != []
  {
    "{" + FieldsText(fields) + "}"
  }

  function RawUnits(name: string): seq<Unit> {
    if name == "" then [] else [Raw(name[0])] + RawUnits(name[1..])
  }

  lemma {:induction false} RawUnitsRead(name: string)
    requires PlainName(name)
    ensures Spell(RawUnits(name)) == name && Unquote(RawUnits(name)) == name && Paired(RawUnits(name))
    ensures forall u | u in RawUnits(name) :: Spellable(u)
  {
    if name != "" {
      RawUnitsRead(name[1..]);
      PairedCons(Raw(name[0]), RawUnits(name[1..]));
      assert [name[0]] + name[1..] == name;
    }
  }

  /** The document a text parses to. */
  function DocOf(text: string): Doc
    requires ParseValue(text).Some?
  {
    ParseValue(text).value.0
  }

  predicate EndsValue(more: string) {
    StartsWith(more, ',') || StartsWith(more, '}')
  }

  lemma ParseBefore(text: string, v: Value, more: string)
    requires Reads(text, v) && EndsValue(more)
    ensures ParseValue(text + more).Some?
    ensures DocOf(text + more) == DocOf(text) && SkipSpace(ParseValue(text + more).value.1) == more
  {
    ParseValueLocal(text, more);
    SkipAllSpace(ParseValue(text).value.1, more);
  }

  lemma FieldParts(name: string, text: string, more: string)
    ensures FieldText(Field(name, text)) + more == "\"" + (name + "\"" + (":" + (text + more)))
  {
    assert "\":" == "\"" + ":";
    Assoc("\"", name, "\":");
    Assoc(name, "\"", ":");
    Assoc("\"", name + "\":", text);
    Assoc(name + "\"", ":", text);
    Assoc("\"", name + "\":" + text, more);
    Assoc(name + "\"", ":" + text, more);
    Assoc(":", text, more);
  }

  lemma ParseField(f: Field, v: Value, more: string)
    requires FieldReads(f, v) && EndsValue(more)
    ensures ParseMember(FieldText(f) + more).Some?
    ensures var (m, rest) := ParseMember(FieldText(f) + more).value;
            m == Member(RawUnits(f.name), DocOf(f.text)) && SkipSpace(rest) == more
  {
    ParseBefore(f.text, v, more);
    RawUnitsRead(f.name);
    LexSpell(RawUnits(f.name), "");
    var body := f.name + "\"";
    assert body + "" == body;
    ParseMemberOf(body, RawUnits(f.name), f.text + more);
    FieldParts(f.name, f.text, more);
  }

  predicate FieldReads(f: Field, v: Value) {
    PlainName(f.name) && Reads(f.text, v)
  }

  predicate FieldsRead(fields: seq<Field>, values: seq<Value>) {
    && |fields| == |values|
    && forall i | 0 <= i < |fields| :: FieldReads(fields[i], values[i])
  }

  function MembersOf(fields: seq<Field>): seq<Member>
    requires forall i | 0 <= i < |fields| :: ParseValue(fields[i].text).Some?
  {
    if fields == [] then []
    else [Member(RawUnits(fields[0].name), DocOf(fields[0].text))] + MembersOf(fields[1..])
  }

  lemma ParseLastField(f: Field, v: Value, rest: string)
    requires FieldReads(f, v)
    ensures ParseMembers(FieldText(f) + ("}" + rest)) == Some(([Member(RawUnits(f.name), DocOf(f.text))], rest))
  {
    var m := Member(RawUnits(f.name), DocOf(f.text));
    assert ("}" + rest)[1..] == rest && [m] + [] == [m];
    ParseField(f, v, "}" + rest);
  }

  lemma ParseNextField(f: Field, v: Value, next: string)
    requires FieldReads(f, v) && ParseMembers(next).Some?
    ensures ParseMembers(FieldText(f) + ("," + next))
            == Some(([Member(RawUnits(f.name), DocOf(f.text))] + ParseMembers(next).value.0,
                     ParseMembers(next).value.1))
  {
    assert ("," + next)[1..] == next;
    ParseField(f, v, "," + next);
  }

  lemma {:induction false} ParseFields(fields: seq<Field>, values: seq<Value>, rest: string)
    requires fields != [] && FieldsRead(fields, values)
    ensures ParseMembers(FieldsText(fields) + "}" + rest) == Some((MembersOf(fields), rest))
  {
    if |fields| == 1 {
      Assoc(FieldText(fields[0]), "}", rest);
      ParseLastField(fields[0], values[0], rest);
      var m := Member(RawUnits(fields[0].name), DocOf(fields[0].text));
      assert FieldsText(fields) == FieldText(fields[0]) && fields[1..] == [] && [m] + [] == [m];
    } else {
      var next := FieldsText(fields[1..]) + "}" + rest;
      ParseFields(fields[1..], values[1..], rest);
      FieldsTextParts(FieldText(fields[0]), FieldsText(fields[1..]), rest);
      ParseNextField(fields[0], values[0], next);
    }
  }

  lemma FieldsTextParts(first: string, others: string, rest: string)
    ensures first + ("," + others) + "}" + rest == first + ("," + (others + "}" + rest))
  {
    Assoc(first, "," + others, "}");
    Assoc(first, "," + others + "}", rest);
    Assoc(",", others, "}");
    Assoc(",", others + "}", rest);
  }

  /** The object with these fields, on top of `seen`. */
  function Gather(fields: seq<Field>, values: seq<Value>, seen: map<string, Value>): map<string, Value>
    requires |fields| == |values|
  {
    if fields == [] then seen else Gather(fields[1..], values[1..], seen[fields[0].name := values[0]])
  }

  predicate DistinctNames(fields: seq<Field>) {
    forall i, j | 0 <= i < j < |fields| :: fields[i].name != fields[j].name
  }

  lemma {:induction false} ElaborateFields(fields: seq<Field>, values: seq<Value>, seen: map<string, Value>)
    requires FieldsRead(fields, values) && DistinctNames(fields)
    requires forall i | 0 <= i < |fields| :: fields[i].name !in seen
    ensures ElaborateMembers(MembersOf(fields), seen) == Ok(Gather(fields, values, seen))
    ensures MembersPaired(MembersOf(fields))
  {
    if fields != [] {
      RawUnitsRead(fields[0].name);
      ElaborateFields(fields[1..], values[1..], seen[fields[0].name := values[0]]);
    }
  }

  /** What the gathered object holds. */
  lemma {:induction false} GatherHolds(fields: seq<Field>, values: seq<Value>, seen: map<string, Value>)
    requires |fields| == |values| && DistinctNames(fields)
    requires forall i | 0 <= i < |fields| :: fields[i].name !in seen
    ensures var m := Gather(fields, values, seen);
            && (forall i | 0 <= i < |fields| :: fields[i].name in m && m[fields[i].name] == values[i])
            && (forall k | k in seen :: k in m && m[k] == seen[k])
            && (forall k | k in m :: k in seen || exists i :: 0 <= i < |fields| && fields[i].name == k)
  {
    if fields != [] {
      var more := seen[fields[0].name := values[0]];
      GatherHolds(fields[1..], values[1..], more);
      var m := Gather(fields[1..], values[1..], more);
      assert fields[0].name in more && more[fields[0].name] == values[0];
      forall k | k in m && k !in seen
        ensures exists i :: 0 <= i < |fields| && fields[i].name == k
      {
        if k in more {
          assert fields[0].name == k;
        } else {
          var i :| 0 <= i < |fields[1..]| && fields[1..][i].name == k;
          assert fields[i + 1].name == k;
        }
      }
    }
  }

  /** A marshalled struct reads as the object of its fields. */
  lemma StructReads(fields: seq<Field>, values: seq<Value>)
    requires fields != [] && FieldsRead(fields, values) && DistinctNames(fields)
    ensures Reads(StructText(fields), Obj(Gather(fields, values, map[])))
  {
    var body := FieldsText(fields) + "}" + "";
    assert body == FieldsText(fields) + "}";
    ParseFields(fields, values, "");
    ParseObject(body);
    Assoc("{", FieldsText(fields), "}");
    ElaborateFields(fields, values, map[]);
  }

  // ---- structs of strings and integers ----

  datatype GoValue = GoString(b: Bytes) | GoInt(n: int)

  datatype GoField = GoField(name: string, value: GoValue)

  function ValueText(v: GoValue): string {
    match v
    case GoString(b) => GoQuote(b)
    case GoInt(n) => FormatInt(n)
  }

  function ValueRead(v: GoValue): Value {
    match v
    case GoString(b) => Str(Runes(b))
    case GoInt(n) => Num(FormatInt(n))
  }

  function Marshalled(fields: seq<GoField>): (r: seq<Field>)
    ensures |r| == |fields|
  {
    seq(|fields|, i requires 0 <= i < |fields| => Field(fields[i].name, ValueText(fields[i].value)))
  }

  function ReadValues(fields: seq<GoField>): (r: seq<Value>)
    ensures |r| == |fields|
  {
    seq(|fields|, i requires 0 <= i < |fields| => ValueRead(fields[i].value))
  }

  /** Tags are plain names, and integers fit int64 as Go's do. */
  predicate WellFormed(fields: seq<GoField>) {
    && (forall i | 0 <= i < |fields| :: PlainName(fields[i].name))
    && (forall i | 0 <= i < |fields| :: fields[i].value.GoInt? ==> INT64_MIN <= fields[i].value.n <= INT64_MAX)
    && (forall i, j | 0 <= i < j < |fields| :: fields[i].name != fields[j].name)
  }

  lemma ValueTextReads(v: GoValue)
    requires v.GoInt? ==> INT64_MIN <= v.n <= INT64_MAX
    ensures Reads(ValueText(v), ValueRead(v))
  {
    match v
    case GoString(b) => QuoteReads(b);
    case GoInt(n) => IntReads(n);
  }

  lemma MarshalledReads(fields: seq<GoField>)
    requires WellFormed(fields)
    ensures FieldsRead(Marshalled(fields), ReadValues(fields)) && DistinctNames(Marshalled(fields))
  {
    forall i | 0 <= i < |fields|
      ensures FieldReads(Marshalled(fields)[i], ReadValues(fields)[i])
    {
      ValueTextReads(fields[i].value);
    }
  }
}
