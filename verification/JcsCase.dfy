/** The letter case of hexadecimal digits in escapes does not matter to the canonicalizer. */
module JcsCase {
  import opened Wrappers
  import opened Sequences
  import opened GoText
  import opened JsonGrammar
  import opened JsonLexical
  import opened Jcs
  import JcsScanner
  import JcsRoundTrip
  import GoJson
  import Utf8

  function LowerHex(c: char): char {
    if 'A' <= c <= 'F' then (c as int + 32) as char else c
  }

  /** `s` with the four digits of every \uXXXX inside a string literal in lower case. */
  function LowerEscapes(s: string, inString: bool): (t: string)
    ensures |t| == |s|
    decreases |s|
  {
    if s == "" then ""
    else if s[0] == '"' then "\"" + LowerEscapes(s[1..], !inString)
    else if s[0] != '\\' || !inString || |s| < 2 then [s[0]] + LowerEscapes(s[1..], inString)
    else if s[1] != 'u' || |s| < 6 then s[..2] + LowerEscapes(s[2..], true)
    else "\\u" + [LowerHex(s[2]), LowerHex(s[3]), LowerHex(s[4]), LowerHex(s[5])] + LowerEscapes(s[6..], true)
  }

  // ---- one character or escape ----

  lemma LowerIsSameDigit(c: char)
    ensures HexDigit(LowerHex(c)) == HexDigit(c)
  {
  }

  /** Outside strings nothing changes up to the next quote. */
  lemma LowerPlain(s: string)
    requires s != "" && s[0] != '"'
    ensures LowerEscapes(s, false) == [s[0]] + LowerEscapes(s[1..], false)
  {
  }

  lemma LowerHead(s: string, c: char)
    ensures StartsWith(LowerEscapes(s, false), c) == StartsWith(s, c)
    ensures s != "" ==>
      LowerEscapes(s, false)[0] == s[0] && LowerEscapes(s, false)[1..] == LowerEscapes(s[1..], s[0] == '"')
  {
  }

  /** The code depends on the values of the four digits only. */
  lemma SameDigitsSameCode(s: string, t: string)
    requires |s| >= 6 && |t| >= 6
    requires HexDigit(s[2]) == HexDigit(t[2]) && HexDigit(s[3]) == HexDigit(t[3])
    requires HexDigit(s[4]) == HexDigit(t[4]) && HexDigit(s[5]) == HexDigit(t[5])
    ensures HexCode(s[2..]) == HexCode(t[2..])
  {
    var u, v := s[2..], t[2..];
    assert u[0] == s[2] && u[1] == s[3] && u[2] == s[4] && u[3] == s[5];
    assert v[0] == t[2] && v[1] == t[3] && v[2] == t[4] && v[3] == t[5];
    HexValueSteps(u);
    HexValueSteps(v);
  }

  lemma LowerDigits(s: string)
    requires |s| >= 6 && s[0] == '\\' && s[1] == 'u'
    ensures var t := LowerEscapes(s, true);
            && t[0] == '\\' && t[1] == 'u' && t[2] == LowerHex(s[2]) && t[3] == LowerHex(s[3])
            && t[4] == LowerHex(s[4]) && t[5] == LowerHex(s[5]) && t[6..] == LowerEscapes(s[6..], true)
  {
  }

  lemma LowerCode(s: string)
    requires |s| >= 6 && s[0] == '\\' && s[1] == 'u'
    ensures var t := LowerEscapes(s, true);
            && t[0] == '\\' && t[1] == 'u' && HexCode(t[2..]) == HexCode(s[2..]) && t[6..] == LowerEscapes(s[6..], true)
  {
    LowerDigits(s);
    LowerIsSameDigit(s[2]);
    LowerIsSameDigit(s[3]);
    LowerIsSameDigit(s[4]);
    LowerIsSameDigit(s[5]);
    SameDigitsSameCode(s, LowerEscapes(s, true));
  }

  lemma LowerEscape(s: string)
    requires |s| >= 2 && s[0] == '\\' && (s[1] != 'u' || |s| < 6)
    ensures var t := LowerEscapes(s, true);
            t[0] == s[0] && t[1] == s[1] && t[2..] == LowerEscapes(s[2..], true)
  {
  }

  // ---- the scan ----

  lemma LowerLow(s: string)
    ensures LowEscape(LowerEscapes(s, true)) == LowEscape(s)
    ensures LowEscape(s) ==> LowerEscapes(s, true)[6..] == LowerEscapes(s[6..], true)
  {
    if |s| >= 6 && s[0] == '\\' && s[1] == 'u' {
      LowerCode(s);
    } else if |s| >= 6 && s[0] == '\\' {
      LowerEscape(s);
    }
  }

  lemma {:induction false} ScanLower(s: string, inString: bool)
    ensures Scan(LowerEscapes(s, inString), inString) == Scan(s, inString)
    decreases |s|
  {
    var t := LowerEscapes(s, inString);
    if s == "" {
    } else if s[0] == '"' {
      assert t[1..] == LowerEscapes(s[1..], !inString);
      ScanLower(s[1..], !inString);
    } else if s[0] != '\\' || !inString || |s| < 2 {
      assert t[1..] == LowerEscapes(s[1..], inString);
      ScanLower(s[1..], inString);
    } else if s[1] != 'u' || |s| < 6 {
      LowerEscape(s);
      ScanLower(s[2..], true);
    } else {
      LowerCode(s);
      ScanLowerCode(s);
    }
  }

  lemma {:induction false} ScanLowerCode(s: string)
    requires |s| >= 6 && s[0] == '\\' && s[1] == 'u'
    ensures Scan(LowerEscapes(s, true), true) == Scan(s, true)
    decreases |s|, 0
  {
    var t := LowerEscapes(s, true);
    LowerCode(s);
    LowerLow(s[6..]);
    ScanLower(s[6..], true);
    if LowEscape(s[6..]) {
      assert s[6..][6..] == s[12..] && t[6..][6..] == t[12..];
      ScanLower(s[12..], true);
    }
  }

  // ---- the lexer ----

  /** A literal's elements, and the text behind it with its escapes lowered. */
  function LowerRest<T>(r: Option<(T, string)>): Option<(T, string)> {
    match r
    case None => None
    case Some((x, rest)) => Some((x, LowerEscapes(rest, false)))
  }

  lemma {:induction false} LexLower(s: string)
    ensures LexString(LowerEscapes(s, true)) == LowerRest(LexString(s))
    decreases |s|
  {
    var t := LowerEscapes(s, true);
    if s == "" {
    } else if s[0] == '"' {
      assert t[1..] == LowerEscapes(s[1..], false);
    } else if s[0] != '\\' || |s| < 2 {
      assert t[1..] == LowerEscapes(s[1..], true);
      LexLower(s[1..]);
    } else if s[1] != 'u' || |s| < 6 {
      LowerEscape(s);
      LexLower(s[2..]);
    } else {
      LowerCode(s);
      LexLower(s[6..]);
    }
  }

  lemma {:induction false} SkipSpaceLower(s: string)
    ensures SkipSpace(LowerEscapes(s, false)) == LowerEscapes(SkipSpace(s), false)
  {
    LowerHead(s, ' ');
    if s != "" && IsJsonSpace(s[0]) {
      SkipSpaceLower(s[1..]);
    }
  }

  /** The tail behind a head that is no quote. */
  lemma LowerTail(s: string)
    requires s != "" && s[0] != '"'
    ensures LowerEscapes(s, false) != "" && LowerEscapes(s, false)[0] == s[0]
    ensures LowerEscapes(s, false)[1..] == LowerEscapes(s[1..], false)
  {
  }

  lemma {:induction false} WordLower(word: string, s: string)
    requires '"' !in word
    ensures word <= LowerEscapes(s, false) <==> word <= s
    ensures word <= s ==> LowerEscapes(s, false)[|word|..] == LowerEscapes(s[|word|..], false)
    decreases |word|
  {
    var t := LowerEscapes(s, false);
    if word == "" {
      assert t[0..] == t && s[0..] == s;
    } else {
      LowerHead(s, word[0]);
      if s != "" && s[0] == word[0] {
        LowerTail(s);
        WordLower(word[1..], s[1..]);
        assert word <= t <==> word[1..] <= t[1..];
        assert word <= s <==> word[1..] <= s[1..];
        if word <= s {
          assert s[1..][|word| - 1..] == s[|word|..] && t[1..][|word| - 1..] == t[|word|..];
        }
      }
    }
  }

  // ---- numbers ----

  lemma {:induction false} SkipDigitsLower(s: string)
    ensures SkipDigits(LowerEscapes(s, false)) == LowerEscapes(SkipDigits(s), false)
  {
    LowerHead(s, '0');
    if s != "" && IsDigit(s[0]) {
      SkipDigitsLower(s[1..]);
    }
  }

  function LowerTextRest(r: Option<string>): Option<string> {
    match r
    case None => None
    case Some(rest) => Some(LowerEscapes(rest, false))
  }

  lemma AfterDigitsLower(s: string)
    ensures AfterDigits(LowerEscapes(s, false)) == LowerTextRest(AfterDigits(s))
  {
    LowerHead(s, '0');
    if s != "" && IsDigit(s[0]) {
      SkipDigitsLower(s[1..]);
    }
  }

  lemma AfterIntegerLower(s: string)
    ensures AfterInteger(LowerEscapes(s, false)) == LowerTextRest(AfterInteger(s))
  {
    LowerHead(s, '0');
    AfterDigitsLower(s);
  }

  lemma AfterFractionLower(s: string)
    ensures AfterFraction(LowerEscapes(s, false)) == LowerTextRest(AfterFraction(s))
  {
    LowerHead(s, '.');
    if s != "" {
      AfterDigitsLower(s[1..]);
    }
  }

  lemma AfterExponentLower(s: string)
    ensures AfterExponent(LowerEscapes(s, false)) == LowerTextRest(AfterExponent(s))
  {
    LowerHead(s, 'e');
    LowerHead(s, 'E');
    if StartsWith(s, 'e') || StartsWith(s, 'E') {
      var t, u := LowerEscapes(s, false), s[1..];
      LowerTail(s);
      LowerHead(u, '+');
      LowerHead(u, '-');
      AfterDigitsLower(u);
      if StartsWith(u, '+') || StartsWith(u, '-') {
        LowerTail(u);
        AfterDigitsLower(u[1..]);
        assert u[1..] == s[2..] && t[1..][1..] == t[2..];
      }
    }
  }

  lemma AfterNumberLower(s: string)
    ensures AfterNumber(LowerEscapes(s, false)) == LowerTextRest(AfterNumber(s))
  {
    LowerHead(s, '-');
    var u := if StartsWith(s, '-') then s[1..] else s;
    if StartsWith(s, '-') {
      LowerTail(s);
    }
    AfterIntegerLower(u);
    if AfterInteger(u).Some? {
      AfterFractionLower(AfterInteger(u).value);
      if AfterFraction(AfterInteger(u).value).Some? {
        AfterExponentLower(AfterFraction(AfterInteger(u).value).value);
      }
    }
  }

  // ---- documents ----

  lemma NumberHasNoQuote(n: Number)
    requires IsNumber(n)
    ensures '"' !in NumberText(n)
  {
    assert forall c | c in n.integer :: c != '"';
    FractionHasNoQuote(n.fraction);
    ExponentHasNoQuote(n.exponent);
  }

  lemma FractionHasNoQuote(s: string)
    requires IsFraction(s)
    ensures '"' !in s
  {
    if s != "" {
      assert forall c | c in s[1..] :: c != '"';
      assert s == [s[0]] + s[1..];
    }
  }

  lemma ExponentHasNoQuote(s: string)
    requires IsExponent(s)
    ensures '"' !in s
  {
    if s != "" {
      var n := if s[1] in "+-" then 2 else 1;
      assert forall c | c in s[n..] :: c != '"';
      SplitAt(s, n);
      assert forall c | c in s[..n] :: c == s[0] || c == s[1];
    }
  }

  lemma PlainPrefix(p: string, rest: string)
    requires '"' !in p
    ensures LowerEscapes(p + rest, false) == p + LowerEscapes(rest, false)
  {
    DropPrefix(p, rest);
    WordLower(p, p + rest);
    SplitAt(LowerEscapes(p + rest, false), |p|);
  }

  lemma NumberLower(t: string)
    requires AfterNumber(t).Some?
    ensures var rest, u := AfterNumber(t).value, LowerEscapes(t, false);
            u[..|u| - |LowerEscapes(rest, false)|] == t[..|t| - |rest|]
  {
    var n := NumberRead(t);
    NumberHasNoQuote(n);
    PlainPrefix(NumberText(n), AfterNumber(t).value);
  }

  function NumberDoc(t: string): Option<(Doc, string)> {
    match AfterNumber(t)
    case None => None
    case Some(rest) => Some((DNum(t[..|t| - |rest|]), rest))
  }

  lemma NumberDocLower(t: string)
    ensures NumberDoc(LowerEscapes(t, false)) == LowerRest(NumberDoc(t))
  {
    AfterNumberLower(t);
    if AfterNumber(t).Some? {
      NumberLower(t);
    }
  }

  /** null, true or false at the front of `t`. */
  function Keyword(t: string): Option<(Doc, string)> {
    if "null" <= t then Some((DNull, t[4..]))
    else if "true" <= t then Some((DBool(true), t[4..]))
    else if "false" <= t then Some((DBool(false), t[5..]))
    else None
  }

  lemma KeywordLower(t: string)
    ensures Keyword(LowerEscapes(t, false)) == LowerRest(Keyword(t))
  {
    WordLower("null", t);
    WordLower("true", t);
    WordLower("false", t);
  }

  function StringDoc(t: string): Option<(Doc, string)>
    requires t != ""
  {
    match LexString(t[1..])
    case None => None
    case Some((us, rest)) => Some((DStr(us), rest))
  }

  lemma ScalarParts(t: string)
    ensures ParseScalar(t)
            == if Keyword(t).Some? then Keyword(t) else if StartsWith(t, '"') then StringDoc(t) else NumberDoc(t)
  {
  }

  lemma ScalarLower(t: string)
    ensures ParseScalar(LowerEscapes(t, false)) == LowerRest(ParseScalar(t))
  {
    ScalarParts(t);
    ScalarParts(LowerEscapes(t, false));
    KeywordLower(t);
    LowerHead(t, '"');
    if StartsWith(t, '"') {
      LexLower(t[1..]);
    } else {
      NumberDocLower(t);
    }
  }

  lemma {:induction false} ParseLower(s: string)
    ensures ParseValue(LowerEscapes(s, false)) == LowerRest(ParseValue(s))
    decreases |s|, 0
  {
    var t := SkipSpace(s);
    SkipSpaceLower(s);
    LowerHead(t, '[');
    LowerHead(t, '{');
    if StartsWith(t, '[') {
      SkipSpaceLower(t[1..]);
      LowerHead(SkipSpace(t[1..]), ']');
      ElementsLower(t[1..]);
    } else if StartsWith(t, '{') {
      SkipSpaceLower(t[1..]);
      LowerHead(SkipSpace(t[1..]), '}');
      MembersLower(t[1..]);
    } else {
      ScalarLower(t);
    }
  }

  lemma {:induction false} ElementsLower(s: string)
    ensures ParseElements(LowerEscapes(s, false)) == LowerRest(ParseElements(s))
    decreases |s|, 1
  {
    ParseLower(s);
    if ParseValue(s).Some? {
      ElementsTailLower(ParseValue(s).value.1);
    }
  }

  lemma {:induction false} ElementsTailLower(s: string)
    ensures ParseElementsTail(LowerEscapes(s, false)) == LowerRest(ParseElementsTail(s))
    decreases |s|, 0
  {
    var t := SkipSpace(s);
    SkipSpaceLower(s);
    LowerHead(t, ']');
    LowerHead(t, ',');
    if StartsWith(t, ',') {
      ElementsLower(t[1..]);
    }
  }

  lemma {:induction false} MemberLower(s: string)
    ensures ParseMember(LowerEscapes(s, false)) == LowerRest(ParseMember(s))
    decreases |s|, 1
  {
    var t := SkipSpace(s);
    SkipSpaceLower(s);
    LowerHead(t, '"');
    if StartsWith(t, '"') {
      LexLower(t[1..]);
      if LexString(t[1..]).Some? {
        var u := SkipSpace(LexString(t[1..]).value.1);
        SkipSpaceLower(LexString(t[1..]).value.1);
        LowerHead(u, ':');
        if StartsWith(u, ':') {
          ParseLower(u[1..]);
        }
      }
    }
  }

  lemma {:induction false} MembersLower(s: string)
    ensures ParseMembers(LowerEscapes(s, false)) == LowerRest(ParseMembers(s))
    decreases |s|, 2
  {
    MemberLower(s);
    if ParseMember(s).Some? {
      MembersTailLower(ParseMember(s).value.1);
    }
  }

  lemma {:induction false} MembersTailLower(s: string)
    ensures ParseMembersTail(LowerEscapes(s, false)) == LowerRest(ParseMembersTail(s))
    decreases |s|, 0
  {
    var t := SkipSpace(s);
    SkipSpaceLower(s);
    LowerHead(t, '}');
    LowerHead(t, ',');
    if StartsWith(t, ',') {
      MembersLower(t[1..]);
    }
  }

  // ---- the theorem ----

  lemma {:induction false} BlankLower(t: string)
    ensures Blank(LowerEscapes(t, false)) == Blank(t)
    ensures Blank(t) ==> LowerEscapes(t, false) == t
  {
    if t != "" {
      LowerHead(t, '"');
      if t[0] == '"' {
        assert !IsSpace(t[0]) && LowerEscapes(t, false)[0] == t[0];
      } else {
        LowerTail(t);
        BlankLower(t[1..]);
        BlankByHead(t);
        BlankByHead(LowerEscapes(t, false));
      }
    }
  }

  lemma BlankByHead(t: string)
    requires t != ""
    ensures Blank(t) <==> IsSpace(t[0]) && Blank(t[1..])
  {
    if Blank(t[1..]) && IsSpace(t[0]) {
      assert forall i | 1 <= i < |t| :: t[i] == t[1..][i - 1];
    }
  }

  lemma DecodeTextLower(t: string)
    ensures DecodeText(LowerEscapes(t, false)) == DecodeText(t)
  {
    BlankLower(t);
    if !Blank(t) {
      ParseLower(t);
      if ParseValue(t).Some? {
        var rest := ParseValue(t).value.1;
        SkipSpaceLower(rest);
        LowerHead(SkipSpace(rest), ']');
      }
    }
  }

  /** Changing the letter case of the digits of escapes changes neither the verdict nor the canonical form. */
  lemma EscapeCaseIsIgnored(t: string, u: string)
    requires LowerEscapes(t, false) == LowerEscapes(u, false)
    ensures Canonicalize(Utf8.Encode(t)) == Canonicalize(Utf8.Encode(u))
  {
    LoweredReadsTheSame(t);
    LoweredReadsTheSame(u);
  }

  lemma LoweredReadsTheSame(t: string)
    ensures ReadValue(Utf8.Encode(LowerEscapes(t, false))) == ReadValue(Utf8.Encode(t))
  {
    var u := LowerEscapes(t, false);
    Utf8.DecodeEncode(t);
    Utf8.DecodeEncode(u);
    JcsScanner.ScanOfEncoding(t, false);
    JcsScanner.ScanOfEncoding(u, false);
    ScanLower(t, false);
    DecodeTextLower(t);
  }

  // ---- one escape ----

  /** The string literal of the one escape \\u and these digits. */
  function EscapeText(a: char, b: char, c: char, d: char): string {
    "\"\\u" + [a, b, c, d] + "\""
  }

  lemma EscapeBodyLexes(s: string, code: int)
    requires |s| == 7 && s[0] == '\\' && s[1] == 'u' && FourDigits(s[2], s[3], s[4], s[5], code) && s[6] == '"'
    ensures LexString(s) == Some(([Hex(code)], ""))
  {
    HexFirst(s, code);
    assert s[6..] == "\"" && s[6..][1..] == "";
    assert [Hex(code)] + [] == [Hex(code)];
  }

  lemma EscapeTextParses(t: string, a: char, b: char, c: char, d: char, code: int)
    requires t == EscapeText(a, b, c, d) && FourDigits(a, b, c, d, code)
    ensures ParseValue(t) == Some((DStr([Hex(code)]), ""))
  {
    var s := t[1..];
    assert s[0] == '\\' && s[1] == 'u' && s[2] == a && s[3] == b && s[4] == c && s[5] == d && s[6] == '"';
    EscapeBodyLexes(s, code);
    JcsRoundTrip.ParseLiteral(s, [Hex(code)], "");
    assert t == "\"" + s;
  }

  lemma PlainQuote(c: char)
    requires c >= ' ' && c !in "\"\\"
    ensures Text(Str([c])) == "\"" + [c] + "\"" && KeysAllowed(Str([c]))
  {
    assert [c][1..] == "" && QuoteBody([c]) == QuoteRune(c) + "";
  }

  lemma EscapeReads(t: string, code: int)
    requires ParseValue(t) == Some((DStr([Hex(code)]), "")) && 0 <= code < 0xD800
    ensures GoJson.Reads(t, Str([code as char]))
  {
    LoneEscapeDecodes(code);
  }

  /** An escaped printable character, its digits in either case, has the canonical form of the character. */
  lemma EscapedCharacter(t: string, a: char, b: char, c: char, d: char, code: int)
    requires t == EscapeText(a, b, c, d)
    requires FourDigits(a, b, c, d, code) && 0x20 <= code < 0xD800 && code as char !in "\"\\"
    ensures Canonicalize(Utf8.Encode(t)) == Ok(Utf8.Encode("\"" + [code as char] + "\""))
  {
    EscapeTextParses(t, a, b, c, d, code);
    EscapeReads(t, code);
    PlainQuote(code as char);
    GoJson.ReadsCanonically(t, Str([code as char]));
  }

  lemma DigitsOfE9(c: char)
    requires c == 'E' || c == 'e'
    ensures FourDigits('0', '0', c, '9', 0xE9)
  {
    assert DigitIs('0', 0) && DigitIs(c, 14) && DigitIs('9', 9);
    assert 0xE9 == 0 * 4096 + 0 * 256 + 14 * 16 + 9;
  }

  /** The usual escaped spelling of U+00E9, in either case. */
  lemma UpperCaseEscape(t: string, c: char)
    requires t == EscapeText('0', '0', c, '9') && (c == 'E' || c == 'e')
    ensures Canonicalize(Utf8.Encode(t)) == Ok(Utf8.Encode("\"\U{E9}\""))
  {
    DigitsOfE9(c);
    EscapedCharacter(t, '0', '0', c, '9', 0xE9);
    assert "\"" + [0xE9 as char] + "\"" == "\"\U{E9}\"";
  }
}
