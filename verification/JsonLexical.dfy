/** The lexical grammar of RFC 8259, sections 6 and 7, written declaratively, and that the parser's
    string and number readers accept exactly it. */
module JsonLexical {
  import opened Wrappers
  import opened Sequences
  import opened GoText
  import opened JsonGrammar
  import opened Jcs
  import opened JsonLocality
  import opened JcsRoundTrip
  import Utf8

  // ---- hexadecimal digits ----

  const LOWER: string := "0123456789abcdef"
  const UPPER: string := "0123456789ABCDEF"

  /** `c` is the digit of value `v`, in either case. */
  predicate DigitIs(c: char, v: nat) {
    v < 16 && (c == LOWER[v] || c == UPPER[v])
  }

  lemma HexDigitIsExact(c: char, v: nat)
    ensures HexDigit(c) == v <==> DigitIs(c, v)
  {
  }

  lemma OtherCharactersAreNoDigits(c: char)
    ensures HexDigit(c) < 0 <==> c !in LOWER && c !in UPPER
  {
    if HexDigit(c) >= 0 {
      HexDigitIsExact(c, HexDigit(c));
    } else if c in LOWER || c in UPPER {
      var v: nat :| v < 16 && (LOWER[v] == c || UPPER[v] == c);
      HexDigitIsExact(c, v);
    }
  }

  /** Four hexadecimal digits, most significant first. */
  ghost predicate FourDigits(a: char, b: char, c: char, d: char, code: int) {
    exists w: nat, x: nat, y: nat, z: nat ::
      DigitIs(a, w) && DigitIs(b, x) && DigitIs(c, y) && DigitIs(d, z) && code == w * 4096 + x * 256 + y * 16 + z
  }

  lemma HexValueSteps(s: string)
    requires |s| >= 4
    ensures HexCode(s)
            == if HexDigit(s[0]) < 0 || HexDigit(s[1]) < 0 || HexDigit(s[2]) < 0 || HexDigit(s[3]) < 0 then None
               else Some(((HexDigit(s[0]) * 16 + HexDigit(s[1])) * 16 + HexDigit(s[2])) * 16 + HexDigit(s[3]))
  {
    var t, u, v := s[1..], s[1..][1..], s[1..][1..][1..];
    assert t[0] == s[1] && u[0] == s[2] && v[0] == s[3];
    if HexDigit(s[0]) >= 0 {
      var a := HexDigit(s[0]);
      assert HexCode(s) == HexValue(t, 3, a);
      if HexDigit(s[1]) >= 0 {
        var b := a * 16 + HexDigit(s[1]);
        assert HexValue(t, 3, a) == HexValue(u, 2, b);
        if HexDigit(s[2]) >= 0 {
          assert HexValue(u, 2, b) == HexValue(v, 1, b * 16 + HexDigit(s[2]));
        }
      }
    }
  }

  /** The four digits of an escape, of either case, give their positional value; nothing else gives one. */
  lemma HexCodeIsExact(s: string, code: int)
    ensures HexCode(s) == Some(code) <==> |s| >= 4 && FourDigits(s[0], s[1], s[2], s[3], code)
  {
    if |s| >= 4 {
      HexValueSteps(s);
      if HexCode(s) == Some(code) {
        var w, x, y, z := HexDigit(s[0]), HexDigit(s[1]), HexDigit(s[2]), HexDigit(s[3]);
        HexDigitIsExact(s[0], w);
        HexDigitIsExact(s[1], x);
        HexDigitIsExact(s[2], y);
        HexDigitIsExact(s[3], z);
        assert code == w * 4096 + x * 256 + y * 16 + z;
      }
      if w: nat, x: nat, y: nat, z: nat :| && DigitIs(s[0], w) && DigitIs(s[1], x) && DigitIs(s[2], y)
                                           && DigitIs(s[3], z) && code == w * 4096 + x * 256 + y * 16 + z {
        HexDigitIsExact(s[0], w);
        HexDigitIsExact(s[1], x);
        HexDigitIsExact(s[2], y);
        HexDigitIsExact(s[3], z);
      }
    }
  }

  /** The white space of RFC 8259. */
  lemma JsonSpacesAre(c: char)
    ensures IsJsonSpace(c) <==> c in " \t\r\n"
  {
  }

  // ---- string literals ----

  const ESCAPES: string := "\"\\/bfnrt"
  const ESCAPED: string := "\"\\/\U{8}\U{C}\n\r\t"

  predicate IsEscape(e: char) {
    e == '"' || e == '\\' || e == '/' || e == 'b' || e == 'f' || e == 'n' || e == 'r' || e == 't'
  }

  lemma EscapeNamed(e: char)
    ensures IsEscape(e) <==> IsSimpleEscape(e)
  {
  }

  function Size(u: Unit): nat {
    match u
    case Raw(_) => 1
    case Esc(_) => 2
    case Hex(_) => 6
  }

  /** `t` is a way of writing the element `u`. */
  ghost predicate Writes(t: string, u: Unit) {
    match u
    case Raw(c) => t == [c] && c != '"' && c != '\\' && c >= ' '
    case Esc(e) => t == ['\\', e] && IsEscape(e)
    case Hex(code) => |t| == 6 && t[0] == '\\' && t[1] == 'u' && FourDigits(t[2], t[3], t[4], t[5], code)
  }

  /** `t` is a way of writing the elements `us`, one after the other. */
  ghost predicate WritesAll(t: string, us: seq<Unit>)
    decreases |us|
  {
    if us == [] then t == ""
    else |t| >= Size(us[0]) && Writes(t[..Size(us[0])], us[0]) && WritesAll(t[Size(us[0])..], us[1..])
  }

  /** Reading a literal that starts with an escape of four digits. */
  lemma HexFirst(s: string, code: int)
    requires |s| >= 6 && s[0] == '\\' && s[1] == 'u'
    ensures FourDigits(s[2], s[3], s[4], s[5], code) <==> HexCode(s[2..]) == Some(code)
    ensures LexString(s) == match HexCode(s[2..])
                            case None => None
                            case Some(n) => Prepend(Hex(n), LexString(s[6..]))
  {
    var t := s[2..];
    HexCodeIsExact(t, code);
    assert t[0] == s[2] && t[1] == s[3] && t[2] == s[4] && t[3] == s[5];
  }

  function Prepend(u: Unit, r: Option<(seq<Unit>, string)>): Option<(seq<Unit>, string)> {
    match r
    case None => None
    case Some((us, rest)) => Some(([u] + us, rest))
  }

  lemma EscapeFirst(s: string)
    requires |s| >= 2 && s[0] == '\\' && s[1] != 'u'
    ensures LexString(s) == if IsEscape(s[1]) then Prepend(Esc(s[1]), LexString(s[2..])) else None
  {
    EscapeNamed(s[1]);
  }

  lemma PlainFirst(s: string)
    requires s != "" && s[0] != '"' && s[0] != '\\'
    ensures LexString(s) == if s[0] >= ' ' then Prepend(Raw(s[0]), LexString(s[1..])) else None
  {
  }

  lemma WrittenHex(s: string, code: int)
    requires |s| >= 6 && Writes(s[..6], Hex(code))
    ensures LexString(s) == Prepend(Hex(code), LexString(s[6..]))
  {
    HexFirst(s, code);
  }

  lemma WrittenEscape(s: string, e: char)
    requires |s| >= 2 && Writes(s[..2], Esc(e))
    ensures LexString(s) == Prepend(Esc(e), LexString(s[2..]))
  {
    var t := s[..2];
    assert t == ['\\', e];
    assert s[0] == t[0] && s[1] == t[1];
    EscapeFirst(s);
  }

  lemma WrittenPlain(s: string, c: char)
    requires |s| >= 1 && Writes(s[..1], Raw(c))
    ensures LexString(s) == Prepend(Raw(c), LexString(s[1..]))
  {
    assert s[0] == s[..1][0];
    PlainFirst(s);
  }

  lemma FirstUnit(s: string, u: Unit)
    requires Size(u) <= |s| && Writes(s[..Size(u)], u)
    ensures LexString(s) == Prepend(u, LexString(s[Size(u)..]))
  {
    match u
    case Hex(code) => WrittenHex(s, code);
    case Esc(e) => WrittenEscape(s, e);
    case Raw(c) => WrittenPlain(s, c);
  }

  /** The element a literal starts with. */
  lemma LexedFirst(s: string) returns (u: Unit)
    requires LexString(s).Some? && s[0] != '"'
    ensures Size(u) <= |s| && Writes(s[..Size(u)], u) && LexString(s) == Prepend(u, LexString(s[Size(u)..]))
  {
    if s[0] == '\\' && s[1] == 'u' {
      assert |s[2..]| >= 4;
      u := Hex(HexCode(s[2..]).value);
      HexFirst(s, u.code);
    } else if s[0] == '\\' {
      EscapeFirst(s);
      u := Esc(s[1]);
    } else {
      PlainFirst(s);
      u := Raw(s[0]);
    }
  }

  lemma {:induction false} WrittenIsLexed(t: string, us: seq<Unit>, rest: string)
    requires WritesAll(t, us)
    ensures LexString(t + "\"" + rest) == Some((us, rest))
    decreases |us|
  {
    var s := t + "\"" + rest;
    if us == [] {
      assert s == "\"" + rest && s[1..] == rest;
    } else {
      var n := Size(us[0]);
      assert s[..n] == t[..n] && s[n..] == t[n..] + "\"" + rest;
      FirstUnit(s, us[0]);
      WrittenIsLexed(t[n..], us[1..], rest);
      assert [us[0]] + us[1..] == us;
    }
  }

  lemma {:induction false} LexedIsWritten(s: string) returns (t: string)
    requires LexString(s).Some?
    ensures WritesAll(t, LexString(s).value.0) && s == t + "\"" + LexString(s).value.1
    decreases |s|
  {
    var (us, rest) := LexString(s).value;
    if s[0] == '"' {
      t := "";
      assert s == t + "\"" + s[1..];
    } else {
      var u := LexedFirst(s);
      var n := Size(u);
      var tail := LexedIsWritten(s[n..]);
      t := s[..n] + tail;
      assert t[..n] == s[..n] && t[n..] == tail && us[1..] == LexString(s[n..]).value.0;
      SplitAt(s, n);
      assert t + "\"" + rest == s[..n] + (tail + "\"" + rest);
    }
  }

  /** The string reader accepts exactly the literals of the grammar, and reads the elements written. */
  lemma LexIsExact(s: string, us: seq<Unit>, rest: string)
    ensures LexString(s) == Some((us, rest)) <==> exists t :: WritesAll(t, us) && s == t + "\"" + rest
  {
    if LexString(s) == Some((us, rest)) {
      var t := LexedIsWritten(s);
    }
    if t :| WritesAll(t, us) && s == t + "\"" + rest {
      WrittenIsLexed(t, us, rest);
    }
  }

  /** What each of the eight two-character escapes stands for. */
  lemma EscapesMean(i: nat)
    requires i < 8
    ensures EscapeValue(ESCAPES[i]) == ESCAPED[i]
  {
  }

  /** The writer escapes as little as RFC 8785, section 3.2.2.2, asks for: the two-character escapes but
      "\\/", four lower-case digits for the other control characters below U+0020, nothing else. */
  lemma QuoteIsMinimal(c: char)
    ensures c !in ESCAPED && c >= ' ' ==> QuoteRune(c) == [c]
    ensures c !in ESCAPED && c < ' ' ==>
      QuoteRune(c) == ['\\', 'u', '0', '0', LOWER[c as int / 16], LOWER[c as int % 16]]
    ensures QuoteRune('/') == "/"
    ensures forall i | 0 <= i < 8 && i != 2 && c == ESCAPED[i] :: QuoteRune(c) == ['\\', ESCAPES[i]]
  {
  }

  /** An escape alone decodes to its scalar, and one of half a surrogate pair to U+FFFD. */
  lemma LoneEscapeDecodes(code: int)
    requires 0 <= code < 0x10000
    ensures Unquote([Hex(code)]) == if 0xD800 <= code <= 0xDFFF then "\U{FFFD}" else [code as char]
  {
    assert [Hex(code)][1..] == [];
  }

  // ---- numbers ----

  /** The pieces of a number literal. */
  datatype Number = Number(negative: bool, integer: string, fraction: string, exponent: string)

  predicate SomeDigits(s: string) {
    s != "" && forall c | c in s :: c in "0123456789"
  }

  /** "." and digits, or nothing. */
  predicate IsFraction(s: string) {
    s == "" || (s[0] == '.' && SomeDigits(s[1..]))
  }

  /** "e" or "E", an optional sign, and digits; or nothing. */
  predicate IsExponent(s: string) {
    s == "" || (s[0] in "eE" && |s| >= 2 && SomeDigits(if s[1] in "+-" then s[2..] else s[1..]))
  }

  /** Digits without a leading zero, except for zero itself. */
  predicate IsWhole(s: string) {
    SomeDigits(s) && (s[0] == '0' ==> s == "0")
  }

  predicate IsNumber(n: Number) {
    IsWhole(n.integer) && IsFraction(n.fraction) && IsExponent(n.exponent)
  }

  function NumberText(n: Number): string {
    (if n.negative then "-" else "") + n.integer + n.fraction + n.exponent
  }

  lemma DigitsAre(s: string)
    ensures AllDigits(s) <==> forall c | c in s :: c in "0123456789"
  {
    if AllDigits(s) {
      forall c | c in s
        ensures c in "0123456789"
      {
        DigitIsNamed(c);
      }
    } else {
      var i :| 0 <= i < |s| && !IsDigit(s[i]);
      DigitIsNamed(s[i]);
    }
  }

  lemma DigitIsNamed(c: char)
    ensures IsDigit(c) <==> c in "0123456789"
  {
    if IsDigit(c) {
      assert "0123456789"[c as int - '0' as int] == c;
    }
  }

  /** What a reader has taken from the front of `s`. */
  function Taken(s: string, rest: string): string
    requires |rest| <= |s|
  {
    s[..|s| - |rest|]
  }

  lemma DigitsTaken(s: string)
    ensures var rest := SkipDigits(s);
            && s == Taken(s, rest) + rest && (forall c | c in Taken(s, rest) :: c in "0123456789")
            && (rest != "" ==> rest[0] !in "0123456789")
  {
    SkipDigitsSplits(s);
    DigitsAre(Taken(s, SkipDigits(s)));
    SplitAt(s, |s| - |SkipDigits(s)|);
    SkipDigitsStops(s);
  }

  lemma {:induction false} SkipDigitsStops(s: string)
    ensures SkipDigits(s) != "" ==> SkipDigits(s)[0] !in "0123456789"
  {
    if s != "" {
      DigitIsNamed(s[0]);
      if IsDigit(s[0]) {
        SkipDigitsStops(s[1..]);
      }
    }
  }

  // ---- what the number reader takes ----

  /** `rest` is what is left of `s`, and the text before it is `taken`. */
  predicate Leaves(s: string, taken: string, rest: string) {
    s == taken + rest
  }

  lemma DigitsRead(s: string) returns (taken: string)
    requires AfterDigits(s).Some?
    ensures SomeDigits(taken) && Leaves(s, taken, AfterDigits(s).value) && taken[0] == s[0]
  {
    var more := s[1..];
    var others := Taken(more, SkipDigits(more));
    DigitIsNamed(s[0]);
    DigitsTaken(more);
    taken := [s[0]] + others;
    assert s == [s[0]] + more;
    Assoc([s[0]], others, SkipDigits(more));
  }

  lemma IntegerRead(s: string) returns (taken: string)
    requires AfterInteger(s).Some?
    ensures IsWhole(taken) && Leaves(s, taken, AfterInteger(s).value)
  {
    if StartsWith(s, '0') {
      taken := "0";
      assert s == "0" + s[1..];
    } else {
      taken := DigitsRead(s);
    }
  }

  lemma FractionRead(s: string) returns (taken: string)
    requires AfterFraction(s).Some?
    ensures IsFraction(taken) && Leaves(s, taken, AfterFraction(s).value)
  {
    if StartsWith(s, '.') {
      var digits := DigitsRead(s[1..]);
      taken := "." + digits;
      assert s == "." + s[1..] && taken[1..] == digits;
    } else {
      taken := "";
    }
  }

  lemma ExponentShape(head: string, digits: string)
    requires head in {"e", "E", "e+", "e-", "E+", "E-"} && SomeDigits(digits)
    ensures IsExponent(head + digits)
  {
    var t := head + digits;
    assert t[|head|..] == digits;
    if |head| == 1 {
      assert t[1] == digits[0] && digits[0] in digits;
    } else {
      assert t[1] == head[1];
    }
  }

  /** How many characters of an exponent come before its digits. */
  function HeadLength(s: string): (n: nat)
    requires s != ""
    ensures n <= |s|
  {
    if StartsWith(s[1..], '+') || StartsWith(s[1..], '-') then 2 else 1
  }

  lemma ExponentHead(s: string)
    requires StartsWith(s, 'e') || StartsWith(s, 'E')
    ensures s[..HeadLength(s)] in {"e", "E", "e+", "e-", "E+", "E-"}
    ensures AfterExponent(s) == AfterDigits(s[HeadLength(s)..])
  {
    assert s[..HeadLength(s)] == if HeadLength(s) == 1 then [s[0]] else [s[0], s[1..][0]];
  }

  lemma ExponentRead(s: string) returns (taken: string)
    requires AfterExponent(s).Some?
    ensures IsExponent(taken) && Leaves(s, taken, AfterExponent(s).value)
  {
    if StartsWith(s, 'e') || StartsWith(s, 'E') {
      var head := s[..HeadLength(s)];
      ExponentHead(s);
      var digits := DigitsRead(s[HeadLength(s)..]);
      taken := head + digits;
      ExponentShape(head, digits);
      SplitAt(s, HeadLength(s));
      Assoc(head, digits, AfterExponent(s).value);
    } else {
      taken := "";
    }
  }

  /** What the number reader takes is a number literal. */
  lemma NumberRead(s: string) returns (n: Number)
    requires AfterNumber(s).Some?
    ensures IsNumber(n) && s == NumberText(n) + AfterNumber(s).value
  {
    var negative := StartsWith(s, '-');
    var u := if negative then s[1..] else s;
    var integer := IntegerRead(u);
    var a := AfterInteger(u).value;
    var fraction := FractionRead(a);
    var b := AfterFraction(a).value;
    var exponent := ExponentRead(b);
    n := Number(negative, integer, fraction, exponent);
    var sign := if negative then "-" else "";
    assert s == sign + u;
    Assoc(fraction, exponent, AfterExponent(b).value);
    Assoc(integer, fraction + exponent, AfterExponent(b).value);
    Assoc(sign, integer + (fraction + exponent), AfterExponent(b).value);
    Assoc(integer, fraction, exponent);
    Assoc(sign, integer + fraction, exponent);
    Assoc(sign, integer, fraction);
  }

  /** `rest` starts with no digit. */
  predicate DigitStop(rest: string) {
    rest != "" ==> !IsDigit(rest[0])
  }

  lemma {:induction false} SkipDigitsTo(digits: string, rest: string)
    requires AllDigits(digits) && DigitStop(rest)
    ensures SkipDigits(digits + rest) == rest
  {
    if digits != "" {
      assert (digits + rest)[1..] == digits[1..] + rest;
      SkipDigitsTo(digits[1..], rest);
    } else {
      assert digits + rest == rest;
    }
  }

  lemma DigitsWritten(digits: string, rest: string)
    requires SomeDigits(digits) && DigitStop(rest)
    ensures AfterDigits(digits + rest) == Some(rest)
  {
    DigitsAre(digits);
    assert (digits + rest)[1..] == digits[1..] + rest;
    SkipDigitsTo(digits[1..], rest);
  }

  lemma IntegerWritten(integer: string, rest: string)
    requires IsWhole(integer) && DigitStop(rest)
    ensures AfterInteger(integer + rest) == Some(rest)
  {
    if integer == "0" {
      assert ("0" + rest)[1..] == rest;
    } else {
      DigitsWritten(integer, rest);
    }
  }

  lemma FractionWritten(fraction: string, rest: string)
    requires IsFraction(fraction) && DigitStop(rest) && !StartsWith(rest, '.')
    ensures AfterFraction(fraction + rest) == Some(rest)
  {
    if fraction != "" {
      assert (fraction + rest)[1..] == fraction[1..] + rest;
      DigitsWritten(fraction[1..], rest);
    } else {
      assert fraction + rest == rest;
    }
  }

  lemma ExponentWritten(exponent: string, rest: string)
    requires IsExponent(exponent) && NumberStop(rest)
    ensures AfterExponent(exponent + rest) == Some(rest)
  {
    if exponent != "" {
      var n := if exponent[1] in "+-" then 2 else 1;
      var all := exponent + rest;
      assert all[n..] == exponent[n..] + rest && all[1..][0] == exponent[1];
      DigitsWritten(exponent[n..], rest);
      DigitIsNamed(exponent[1]);
    } else {
      assert exponent + rest == rest;
    }
  }

  /** The text of a number is its sign and then its three pieces. */
  lemma NumberParts(n: Number, rest: string)
    ensures NumberText(n) + rest
            == (if n.negative then "-" else "") + (n.integer + (n.fraction + (n.exponent + rest)))
  {
    var sign := if n.negative then "-" else "";
    Assoc(sign + n.integer + n.fraction, n.exponent, rest);
    Assoc(sign + n.integer, n.fraction, n.exponent + rest);
    Assoc(sign, n.integer, n.fraction + (n.exponent + rest));
  }

  lemma StopsAt(n: Number, rest: string)
    requires IsNumber(n) && NumberStop(rest)
    ensures DigitStop(n.exponent + rest) && !StartsWith(n.exponent + rest, '.')
    ensures DigitStop(n.fraction + (n.exponent + rest))
  {
    assert n.exponent == "" ==> n.exponent + rest == rest;
    assert n.exponent != "" ==> (n.exponent + rest)[0] == n.exponent[0];
    var more := n.exponent + rest;
    assert n.fraction == "" ==> n.fraction + more == more;
    assert n.fraction != "" ==> (n.fraction + more)[0] == n.fraction[0];
  }

  /** The number reader takes a whole number literal, when nothing behind it continues one. */
  lemma NumberWritten(n: Number, rest: string)
    requires IsNumber(n) && NumberStop(rest)
    ensures AfterNumber(NumberText(n) + rest) == Some(rest)
  {
    var b := n.exponent + rest;
    var a := n.fraction + b;
    var u := n.integer + a;
    NumberParts(n, rest);
    StopsAt(n, rest);
    IntegerWritten(n.integer, a);
    FractionWritten(n.fraction, b);
    ExponentWritten(n.exponent, rest);
    WholeHead(n.integer);
    assert u[0] == n.integer[0];
    if n.negative {
      assert ("-" + u)[1..] == u;
    } else {
      assert "" + u == u;
    }
  }

  lemma WholeHead(integer: string)
    requires IsWhole(integer)
    ensures IsDigit(integer[0]) && integer[0] != '-' && AllDigits(integer)
  {
    DigitsAre(integer);
  }

  // ---- which numbers are accepted ----

  lemma LastDigit(integer: string, k: nat)
    requires |integer| == k + 1 && AllDigits(integer)
    ensures AllDigits(integer[..k])
    ensures 0 <= integer[k] as int - '0' as int < 10
    ensures DigitsValue(integer) == DigitsValue(integer[..k]) * 10 + (integer[k] as int - '0' as int)
    ensures integer == integer[..k] + [integer[k]]
  {
  }

  lemma {:induction false} WholeIsFormatted(integer: string)
    requires IsWhole(integer) && AllDigits(integer)
    ensures FormatNat(DigitsValue(integer)) == integer
    ensures DigitsValue(integer) == 0 <==> integer == "0"
  {
    var k := |integer| - 1;
    var front, last := integer[..k], integer[k] as int - '0' as int;
    LastDigit(integer, k);
    if k == 0 {
      assert front == "" && DigitsValue(front) == 0;
    } else {
      WholeFront(integer, front);
      WholeIsFormatted(front);
      OneMoreDigit(DigitsValue(front), last);
    }
  }

  lemma WholeFront(integer: string, front: string)
    requires IsWhole(integer) && 0 < |front| < |integer| && front == integer[..|front|]
    ensures IsWhole(front) && front != "0"
  {
    assert front[0] == integer[0] && forall c | c in front :: c in integer;
  }

  lemma OneMoreDigit(n: nat, d: nat)
    requires n > 0 && d < 10
    ensures FormatNat(n * 10 + d) == FormatNat(n) + [(d + '0' as int) as char]
  {
  }

  lemma FractionSeen(n: Number)
    requires IsNumber(n)
    ensures HasFractionOrExponent(NumberText(n)) <==> n.fraction != "" || n.exponent != ""
  {
    var t := NumberText(n);
    NumberParts(n, "");
    WholeHead(n.integer);
    DigitsHaveNoMarks(n.integer);
    assert n.exponent + "" == n.exponent && t + "" == t;
    if n.fraction != "" {
      assert n.fraction[0] in t;
    }
    if n.exponent != "" {
      assert n.exponent[0] in t;
    }
  }

  lemma DigitsHaveNoMarks(integer: string)
    requires AllDigits(integer)
    ensures '.' !in integer && 'e' !in integer && 'E' !in integer
  {
  }

  /** The value of an integer literal. */
  function IntegerValue(n: Number): int
    requires AllDigits(n.integer)
  {
    var magnitude: int := DigitsValue(n.integer);
    if n.negative then -magnitude else magnitude
  }

  lemma IntegerParsed(n: Number)
    requires IsNumber(n) && n.fraction == "" && n.exponent == "" && AllDigits(n.integer)
    ensures ParseInt64(NumberText(n)).Some? <==> -0x8000_0000_0000_0000 <= IntegerValue(n) < 0x8000_0000_0000_0000
    ensures NumberText(n) == FormatInt(IntegerValue(n)) || NumberText(n) == "-0"
  {
    WholeHead(n.integer);
    WholeIsFormatted(n.integer);
    NumberParts(n, "");
    var t := NumberText(n);
    assert t + "" == t && "" + ("" + "") == "" && n.integer + "" == n.integer;
    if n.negative {
      assert t == "-" + n.integer && t[1..] == n.integer;
    } else {
      assert t == n.integer;
    }
  }

  lemma FormattedIs(n: Number, v: int)
    requires IsNumber(n) && AllDigits(n.integer) && n.fraction == "" && n.exponent == ""
    requires NumberText(n) == FormatInt(v)
    ensures v == IntegerValue(n)
  {
    IntegerParsed(n);
    WholeHead(n.integer);
    NumberParts(n, "");
    DigitsValueOfFormat(if v < 0 then -v else v);
    var t := NumberText(n);
    assert t + "" == t && "" + ("" + "") == "" && n.integer + "" == n.integer;
    if n.negative {
      assert t[1..] == n.integer && t[0] == '-';
      assert v < 0 ==> t[1..] == FormatNat(-v);
    } else {
      assert t == n.integer;
    }
  }

  /** The canonicalizer takes a number literal exactly if it is the decimal form of an int64, or "-0": so
      every accepted number but zero has one spelling.  A fraction or an exponent is refused as such. */
  lemma AcceptedNumbers(n: Number)
    requires IsNumber(n)
    ensures var t := NumberText(n);
            && (NumberValue(t) == Err(NumberForm) <==> n.fraction != "" || n.exponent != "")
            && (NumberValue(t) == Ok(Num(t))
                <==> || t == "-0"
                     || exists v: int :: -0x8000_0000_0000_0000 <= v < 0x8000_0000_0000_0000 && t == FormatInt(v))
  {
    var t := NumberText(n);
    WholeHead(n.integer);
    FractionSeen(n);
    if n.fraction == "" && n.exponent == "" {
      IntegerParsed(n);
      if v: int :| -0x8000_0000_0000_0000 <= v < 0x8000_0000_0000_0000 && t == FormatInt(v) {
        FormattedIs(n, v);
      }
      if t == "-0" {
        MinusZero(n);
      }
    } else {
      forall v: int
        ensures t != FormatInt(v)
      {
        FormatHasNoMarks(v);
      }
      assert '.' !in "-0" && 'e' !in "-0" && 'E' !in "-0";
    }
  }

  lemma MinusZero(n: Number)
    requires IsNumber(n) && AllDigits(n.integer) && n.fraction == "" && n.exponent == "" && NumberText(n) == "-0"
    ensures IntegerValue(n) == 0
  {
    NumberParts(n, "");
    WholeHead(n.integer);
    assert NumberText(n)[0] == '-';
    assert n.integer == NumberText(n)[1..] == "0";
    WholeIsFormatted(n.integer);
  }

  lemma FormatHasNoMarks(v: int)
    ensures !HasFractionOrExponent(FormatInt(v))
  {
    DigitsHaveNoMarks(FormatNat(if v < 0 then -v else v));
  }

  /** Zero is the one number with two canonical forms. */
  lemma ZeroHasTwoForms(plain: Utf8.Bytes, signed: Utf8.Bytes)
    requires plain == "0" && signed == "-0"
    ensures Canonicalize(plain) == Ok(plain) && Canonicalize(signed) == Ok(signed)
  {
    IntegersAreFixed("0", plain);
    IntegersAreFixed("-0", signed);
  }

  lemma IntegersAreFixed(literal: string, raw: Utf8.Bytes)
    requires raw == literal && literal in {"0", "-0"}
    ensures Canonicalize(raw) == Ok(raw)
  {
    assert literal[1..] == if literal == "0" then "" else "0";
    assert "0"[..0] == "" && DigitsValue("0") == 0;
    Utf8.EncodeAscii(literal);
    ReadBack(Num(literal));
  }
}
