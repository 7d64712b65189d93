/** The JSON grammar of RFC 8259 as a recursive-descent parser over decoded text, and what the
    string literals it finds mean.  This is the reference the token-stream decoder is proved
    against; it knows nothing of the canonical subset. */
module JsonGrammar {
  import opened Wrappers
  import opened GoText

  /** One element of a string literal: a plain character, a two-character escape, or \uXXXX. */
  datatype Unit = Raw(c: char) | Esc(e: char) | Hex(code: int)

  datatype Doc =
    | DNull
    | DBool(b: bool)
    | DNum(literal: string)
    | DStr(units: seq<Unit>)
    | DArr(items: seq<Doc>)
    | DObj(members: seq<Member>)

  datatype Member = Member(key: seq<Unit>, value: Doc)

  // ---- lexing ----

  predicate IsJsonSpace(c: char) {
    c == ' ' || c == '\t' || c == '\r' || c == '\n'
  }

  function SkipSpace(s: string): (t: string)
    ensures |t| <= |s|
    ensures t != "" ==> !IsJsonSpace(t[0])
  {
    if s != "" && IsJsonSpace(s[0]) then SkipSpace(s[1..]) else s
  }

  predicate StartsWith(s: string, c: char) {
    s != "" && s[0] == c
  }

  function HexDigit(c: char): (d: int)
    ensures -1 <= d < 16
  {
    if '0' <= c <= '9' then c as int - '0' as int
    else if 'a' <= c <= 'f' then c as int - 'a' as int + 10
    else if 'A' <= c <= 'F' then c as int - 'A' as int + 10
    else -1
  }

  /** The value of the `n` hexadecimal digits at the front of `s`, appended to `value`. */
  function HexValue(s: string, n: nat, value: nat): (r: Option<nat>)
    ensures r.Some? ==> n <= |s|
    decreases n
  {
    if n == 0 then Some(value)
    else if s == "" || HexDigit(s[0]) < 0 then None
    else HexValue(s[1..], n - 1, value * 16 + HexDigit(s[0]))
  }

  /** The code unit written by the four hexadecimal digits at the front of `s`. */
  function HexCode(s: string): (r: Option<int>)
    ensures r.Some? ==> |s| >= 4
  {
    HexValue(s, 4, 0)
  }

  lemma HexCodeIsCodeUnit(s: string)
    requires HexCode(s).Some?
    ensures 0 <= HexCode(s).value < 0x10000
  {
    var a := HexDigit(s[0]);
    var b := a * 16 + HexDigit(s[1..][0]);
    var c := b * 16 + HexDigit(s[1..][1..][0]);
    assert HexCode(s) == HexValue(s[1..], 3, a) == HexValue(s[1..][1..], 2, b) == HexValue(s[1..][1..][1..], 1, c);
  }

  predicate IsSimpleEscape(c: char) {
    c in "\"\\/bfnrt"
  }

  /** The body of a string literal; `s` starts just after the opening quote. */
  function LexString(s: string): (r: Option<(seq<Unit>, string)>)
    ensures r.Some? ==> |r.value.1| < |s|
    decreases |s|
  {
    if s == "" then None
    else if s[0] == '"' then Some(([], s[1..]))
    else if s[0] == '\\' then
      if |s| < 2 then None
      else if s[1] == 'u' then
        var code :- HexCode(s[2..]);
        var (us, rest) :- LexString(s[6..]);
        Some(([Hex(code)] + us, rest))
      else if IsSimpleEscape(s[1]) then
        var (us, rest) :- LexString(s[2..]);
        Some(([Esc(s[1])] + us, rest))
      else None
    else if s[0] < ' ' then None
    else
      var (us, rest) :- LexString(s[1..]);
      Some(([Raw(s[0])] + us, rest))
  }

  function SkipDigits(s: string): (t: string)
    ensures |t| <= |s|
  {
    if s != "" && IsDigit(s[0]) then SkipDigits(s[1..]) else s
  }

  /** What follows one or more digits. */
  function AfterDigits(s: string): (r: Option<string>)
    ensures r.Some? ==> |r.value| < |s|
  {
    if s != "" && IsDigit(s[0]) then Some(SkipDigits(s[1..])) else None
  }

  function AfterInteger(s: string): (r: Option<string>)
    ensures r.Some? ==> |r.value| < |s|
  {
    if StartsWith(s, '0') then Some(s[1..]) else AfterDigits(s)
  }

  function AfterFraction(s: string): (r: Option<string>)
    ensures r.Some? ==> |r.value| <= |s|
  {
    if StartsWith(s, '.') then AfterDigits(s[1..]) else Some(s)
  }

  function AfterExponent(s: string): (r: Option<string>)
    ensures r.Some? ==> |r.value| <= |s|
  {
    if !StartsWith(s, 'e') && !StartsWith(s, 'E') then Some(s)
    else AfterDigits(if StartsWith(s[1..], '+') || StartsWith(s[1..], '-') then s[2..] else s[1..])
  }

  /** What follows the number literal at the front of `s`. */
  function AfterNumber(s: string): (r: Option<string>)
    ensures r.Some? ==> |r.value| < |s|
  {
    var integer :- AfterInteger(if StartsWith(s, '-') then s[1..] else s);
    var fraction :- AfterFraction(integer);
    AfterExponent(fraction)
  }

  // ---- parsing ----

  /** One scalar value at the front of `t`: a literal name, a string or a number. */
  function ParseScalar(t: string): (r: Option<(Doc, string)>)
    ensures r.Some? ==> |r.value.1| < |t|
  {
    if "null" <= t then Some((DNull, t[4..]))
    else if "true" <= t then Some((DBool(true), t[4..]))
    else if "false" <= t then Some((DBool(false), t[5..]))
    else if StartsWith(t, '"') then
      var (us, rest) :- LexString(t[1..]);
      Some((DStr(us), rest))
    else
      var rest :- AfterNumber(t);
      Some((DNum(t[..|t| - |rest|]), rest))
  }

  function ParseValue(s: string): (r: Option<(Doc, string)>)
    ensures r.Some? ==> |r.value.1| < |s|
    decreases |s|, 0
  {
    var t := SkipSpace(s);
    if StartsWith(t, '[') then
      var u := SkipSpace(t[1..]);
      if StartsWith(u, ']') then Some((DArr([]), u[1..]))
      else
        var (ds, rest) :- ParseElements(t[1..]);
        Some((DArr(ds), rest))
    else if StartsWith(t, '{') then
      var u := SkipSpace(t[1..]);
      if StartsWith(u, '}') then Some((DObj([]), u[1..]))
      else
        var (ms, rest) :- ParseMembers(t[1..]);
        Some((DObj(ms), rest))
    else ParseScalar(t)
  }

  /** value { "," value } "]" */
  function ParseElements(s: string): (r: Option<(seq<Doc>, string)>)
    ensures r.Some? ==> |r.value.1| < |s|
    decreases |s|, 1
  {
    var (d, rest) :- ParseValue(s);
    var (ds, rest') :- ParseElementsTail(rest);
    Some(([d] + ds, rest'))
  }

  /** { "," value } "]" */
  function ParseElementsTail(s: string): (r: Option<(seq<Doc>, string)>)
    ensures r.Some? ==> |r.value.1| < |s|
    decreases |s|, 0
  {
    var t := SkipSpace(s);
    if StartsWith(t, ']') then Some(([], t[1..]))
    else if StartsWith(t, ',') then ParseElements(t[1..])
    else None
  }

  /** string ":" value */
  function ParseMember(s: string): (r: Option<(Member, string)>)
    ensures r.Some? ==> |r.value.1| < |s|
    decreases |s|, 1
  {
    var t := SkipSpace(s);
    if !StartsWith(t, '"') then None
    else
      var (key, afterKey) :- LexString(t[1..]);
      var u := SkipSpace(afterKey);
      if !StartsWith(u, ':') then None
      else
        var (value, rest) :- ParseValue(u[1..]);
        Some((Member(key, value), rest))
  }

  /** member { "," member } "}" */
  function ParseMembers(s: string): (r: Option<(seq<Member>, string)>)
    ensures r.Some? ==> |r.value.1| < |s|
    decreases |s|, 2
  {
    var (m, rest) :- ParseMember(s);
    var (ms, rest') :- ParseMembersTail(rest);
    Some(([m] + ms, rest'))
  }

  /** { "," member } "}" */
  function ParseMembersTail(s: string): (r: Option<(seq<Member>, string)>)
    ensures r.Some? ==> |r.value.1| < |s|
    decreases |s|, 0
  {
    var t := SkipSpace(s);
    if StartsWith(t, '}') then Some(([], t[1..]))
    else if StartsWith(t, ',') then ParseMembers(t[1..])
    else None
  }

  // ---- what a string literal means ----

  predicate IsHigh(u: int) { 0xD800 <= u <= 0xDBFF }

  predicate IsLow(u: int) { 0xDC00 <= u <= 0xDFFF }

  function FromSurrogates(high: int, low: int): (c: char)
    requires IsHigh(high) && IsLow(low)
    ensures c as int >= 0x10000
  {
    (0x10000 + (high - 0xD800) * 0x400 + (low - 0xDC00)) as char
  }

  function EscapeValue(e: char): char {
    match e
    case 'b' => '\U{8}'
    case 'f' => '\U{C}'
    case 'n' => '\n'
    case 'r' => '\r'
    case 't' => '\t'
    case _ => e
  }

  const REPLACEMENT: char := '\U{FFFD}'

  /** encoding/json's reading of a literal: a surrogate escape without its partner becomes U+FFFD. */
  function Unquote(us: seq<Unit>): string {
    if us == [] then ""
    else match us[0]
      case Raw(c) => [c] + Unquote(us[1..])
      case Esc(e) => [EscapeValue(e)] + Unquote(us[1..])
      case Hex(code) =>
        if IsHigh(code) && |us| > 1 && us[1].Hex? && IsLow(us[1].code) then
          [FromSurrogates(code, us[1].code)] + Unquote(us[2..])
        else if 0 <= code < 0xD800 || 0xDFFF < code < 0x10000 then [code as char] + Unquote(us[1..])
        else [REPLACEMENT] + Unquote(us[1..])
  }

  predicate HighAt(us: seq<Unit>, i: int) {
    0 <= i < |us| && us[i].Hex? && IsHigh(us[i].code)
  }

  predicate LowAt(us: seq<Unit>, i: int) {
    0 <= i < |us| && us[i].Hex? && IsLow(us[i].code)
  }

  /** A low surrogate escape stands exactly where a high one stands directly before. */
  predicate Paired(us: seq<Unit>) {
    forall i | 0 <= i <= |us| :: LowAt(us, i) <==> HighAt(us, i - 1)
  }

  /** Paired, for every string literal in a document. */
  predicate AllPaired(d: Doc) {
    match d
    case DStr(us) => Paired(us)
    case DArr(items) => ItemsPaired(items)
    case DObj(members) => MembersPaired(members)
    case _ => true
  }

  predicate ItemsPaired(ds: seq<Doc>) {
    ds != [] ==> AllPaired(ds[0]) && ItemsPaired(ds[1..])
  }

  predicate MembersPaired(ms: seq<Member>) {
    ms != [] ==> Paired(ms[0].key) && AllPaired(ms[0].value) && MembersPaired(ms[1..])
  }
}
