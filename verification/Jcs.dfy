/** The canonical JSON subset: which documents are accepted, the value they denote, and the one
    text that value is written as.  The methods of the other Jcs modules are proved against the
    functions here. */
module Jcs {
  import opened Wrappers
  import opened GoText
  import opened JsonGrammar
  import opened Utf16Order
  import Utf8

  /** A decoded value.  Numbers keep the text of their literal; objects are maps. */
  datatype Value =
    | Null
    | Bool(b: bool)
    | Num(literal: string)
    | Str(s: string)
    | Arr(items: seq<Value>)
    | Obj(members: map<string, Value>)

  datatype JcsError =
    | InvalidUtf8 | InvalidEscape | Syntax | DuplicateKey | NumberForm | NumberRange | TrailingData | ControlKey

  type Outcome<T> = Result<T, JcsError>

  // ---- decoding ----

  predicate HasFractionOrExponent(literal: string) {
    '.' in literal || 'e' in literal || 'E' in literal
  }

  function NumberValue(literal: string): Outcome<Value> {
    if HasFractionOrExponent(literal) then Err(NumberForm)
    else if ParseInt64(literal).None? then Err(NumberRange)
    else Ok(Num(literal))
  }

  /** The value of a document, or the first rule it breaks in document order. */
  function Elaborate(d: Doc): Outcome<Value> {
    match d
    case DNull => Ok(Null)
    case DBool(b) => Ok(Bool(b))
    case DNum(literal) => NumberValue(literal)
    case DStr(us) => Ok(Str(Unquote(us)))
    case DArr(items) =>
      var vs :- ElaborateItems(items);
      Ok(Arr(vs))
    case DObj(members) =>
      var m :- ElaborateMembers(members, map[]);
      Ok(Obj(m))
  }

  function ElaborateItems(ds: seq<Doc>): (r: Outcome<seq<Value>>) {
    if ds == [] then Ok([])
    else
      var v :- Elaborate(ds[0]);
      var vs :- ElaborateItems(ds[1..]);
      Ok([v] + vs)
  }

  function ElaborateMembers(ms: seq<Member>, seen: map<string, Value>): Outcome<map<string, Value>> {
    if ms == [] then Ok(seen)
    else
      var key := Unquote(ms[0].key);
      if key in seen then Err(DuplicateKey)
      else
        var v :- Elaborate(ms[0].value);
        ElaborateMembers(ms[1..], seen[key := v])
  }

  // ---- the surrogate scan ----

  /** `s` starts with the \uXXXX escape of a low surrogate. */
  predicate LowEscape(s: string)
    ensures LowEscape(s) ==> |s| >= 6
  {
    |s| >= 6 && s[0] == '\\' && s[1] == 'u' && HexCode(s[2..]).Some? && IsLow(HexCode(s[2..]).value)
  }

  /** validateRawJSONUnicode's walk over the text: `inString` flips at every unescaped quote, and
      inside strings each \uXXXX must be a scalar or the first half of a surrogate pair. */
  function Scan(s: string, inString: bool): bool
    decreases |s|
  {
    if s == "" then true
    else if s[0] == '"' then Scan(s[1..], !inString)
    else if s[0] != '\\' || !inString then Scan(s[1..], inString)
    else if |s| < 2 then false
    else if s[1] != 'u' then Scan(s[2..], true)
    else match HexCode(s[2..])
      case None => false
      case Some(unit) =>
        if IsHigh(unit) then
          LowEscape(s[6..]) && Scan(s[12..], true)
        else !IsLow(unit) && Scan(s[6..], true)
  }

  // ---- writing ----

  function HexLower(d: int): char
    requires 0 <= d < 16
  {
    if d < 10 then (d + '0' as int) as char else (d - 10 + 'a' as int) as char
  }

  function QuoteRune(c: char): string {
    match c
    case '"' => "\\\""
    case '\\' => "\\\\"
    case '\U{8}' => "\\b"
    case '\U{C}' => "\\f"
    case '\n' => "\\n"
    case '\r' => "\\r"
    case '\t' => "\\t"
    case _ =>
      if c < ' ' then ['\\', 'u', '0', '0', HexLower(c as int / 16), HexLower(c as int % 16)] else [c]
  }

  function QuoteBody(s: string): string {
    if s == "" then "" else QuoteRune(s[0]) + QuoteBody(s[1..])
  }

  function Quote(s: string): string {
    "\"" + QuoteBody(s) + "\""
  }

  ghost predicate Sorted(keys: seq<string>) {
    forall i, j | 0 <= i < j < |keys| :: Less16(keys[i], keys[j])
  }

  /** The keys of an object in canonical order. */
  ghost function SortedKeys(keys: set<string>): (ks: seq<string>)
    ensures Sorted(ks)
    ensures forall k :: k in ks <==> k in keys
    decreases |keys|
  {
    if keys == {} then []
    else
      LeastKeyExists(keys);
      var least :| IsLeastKey(least, keys);
      var rest := SortedKeys(keys - {least});
      assert forall i | 0 <= i < |rest| :: rest[i] in keys - {least};
      [least] + rest
  }

  ghost predicate IsLeastKey(least: string, keys: set<string>) {
    least in keys && forall k | k in keys && k != least :: Less16(least, k)
  }

  lemma {:induction false} LeastKeyExists(keys: set<string>)
    requires keys != {}
    ensures exists least :: IsLeastKey(least, keys)
    decreases |keys|
  {
    var k :| k in keys;
    var rest := keys - {k};
    if rest == {} {
      assert forall j | j in keys :: j == k || j in rest;
      assert IsLeastKey(k, keys);
    } else {
      LeastKeyExists(rest);
      var m :| IsLeastKey(m, rest);
      Less16StrictTotalOrder(k, m, m);
      forall j | j in rest
        ensures Less16(k, m) && m != j ==> Less16(k, j)
      {
        Less16StrictTotalOrder(k, m, j);
      }
      assert IsLeastKey(if Less16(k, m) then k else m, keys);
    }
  }

  /** The canonical text of a value. */
  ghost function Text(v: Value): string
    decreases v, 3
  {
    match v
    case Null => "null"
    case Bool(b) => if b then "true" else "false"
    case Num(literal) => literal
    case Str(s) => Quote(s)
    case Arr(items) => "[" + ItemsText(items) + "]"
    case Obj(members) => "{" + MembersText(SortedKeys(members.Keys), v) + "}"
  }

  ghost function ItemsText(items: seq<Value>): string
    decreases items, 0
  {
    if items == [] then ""
    else Text(items[0]) + if |items| == 1 then "" else "," + ItemsText(items[1..])
  }

  ghost function MemberText(key: string, obj: Value): string
    requires obj.Obj? && key in obj.members
    decreases obj, 1
  {
    Quote(key) + ":" + Text(obj.members[key])
  }

  ghost function MembersText(keys: seq<string>, obj: Value): string
    requires obj.Obj? && forall k | k in keys :: k in obj.members
    decreases obj, 2, |keys|
  {
    if keys == [] then ""
    else MemberText(keys[0], obj) + if |keys| == 1 then "" else "," + MembersText(keys[1..], obj)
  }

  predicate KeyAllowed(key: string) {
    forall i | 0 <= i < |key| :: !IsControl(key[i])
  }

  /** No property name anywhere in the value contains a control character. */
  ghost predicate KeysAllowed(v: Value) {
    match v
    case Arr(items) => forall i | 0 <= i < |items| :: KeysAllowed(items[i])
    case Obj(members) => forall k | k in members :: KeyAllowed(k) && KeysAllowed(members[k])
    case _ => true
  }

  // ---- canonicalization ----

  /** decoder.More() after the top-level value: a closing bracket does not count. */
  predicate HasMore(rest: string) {
    var t := SkipSpace(rest);
    t != "" && t[0] != ']' && t[0] != '}'
  }

  /** The value CanonicalizeJSON reads from decoded text. */
  function DecodeText(t: string): Outcome<Value> {
    match ParseValue(if Blank(t) then "{}" else t)
    case None => Err(Syntax)
    case Some((doc, rest)) =>
      var v :- Elaborate(doc);
      if HasMore(rest) then Err(TrailingData) else Ok(v)
  }

  /** The value of raw bytes. */
  function ReadValue(raw: Utf8.Bytes): Outcome<Value> {
    match Utf8.Decode(raw)
    case None => Err(InvalidUtf8)
    case Some(t) => if Scan(raw, false) then DecodeText(t) else Err(InvalidEscape)
  }

  /** The canonical text of raw bytes, before it is encoded as UTF-8. */
  ghost function CanonicalText(raw: Utf8.Bytes): Outcome<string> {
    var v :- ReadValue(raw);
    if KeysAllowed(v) then Ok(Text(v)) else Err(ControlKey)
  }

  /** CanonicalizeJSON. */
  ghost function Canonicalize(raw: Utf8.Bytes): Outcome<Utf8.Bytes> {
    var text :- CanonicalText(raw);
    Ok(Utf8.Encode(text))
  }
}
