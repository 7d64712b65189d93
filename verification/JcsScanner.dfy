/** validateRawJSONUnicode: the loop over the raw bytes, and what it decides about JSON text. */
module JcsScanner {
  import opened Wrappers
  import opened GoText
  import opened Sequences
  import opened JsonGrammar
  import opened Jcs
  import opened Utf8
  import opened Utf16Order

  /** parseJSONHexCodeUnit: accumulates four hexadecimal digits starting at `start`. */
  method ParseJSONHexCodeUnit(raw: Bytes, start: nat) returns (unit: int, ok: bool)
    ensures ok <==> start + 4 <= |raw| && HexCode(raw[start..]).Some?
    ensures ok ==> unit == HexCode(raw[start..]).value
  {
    if start + 4 > |raw| {
      return 0, false;
    }
    unit, ok := 0, true;
    for k := 0 to 4
      invariant unit >= 0
      invariant HexCode(raw[start..]) == HexValue(raw[start + k..], 4 - k, unit)
    {
      var d := HexDigit(raw[start + k]);
      assert raw[start + k..][1..] == raw[start + k + 1..];
      if d < 0 {
        return 0, false;
      }
      unit := unit * 16 + d;
    }
  }

  /** The escape case of validateRawJSONUnicode's loop: the index after the escape at `index`, or None
      when the escape is truncated, malformed or an unpaired surrogate. */
  method SkipEscape(raw: Bytes, index: nat) returns (next: Option<nat>)
    requires index < |raw| && raw[index] == '\\'
    ensures next.Some? ==> index < next.value <= |raw|
    ensures Scan(raw[index..], true) <==> next.Some? && Scan(raw[next.value..], true)
  {
    ghost var s := raw[index..];
    if index + 1 >= |raw| {
      return None;
    }
    assert s[2..] == raw[index + 2..];
    if raw[index + 1] != 'u' {
      return Some(index + 2);
    }
    var unit, ok := ParseJSONHexCodeUnit(raw, index + 2);
    if !ok {
      return None;
    }
    assert s[6..] == raw[index + 6..];
    if IsHigh(unit) {
      var pairStart := index + 6;
      if pairStart + 6 > |raw| || raw[pairStart] != '\\' || raw[pairStart + 1] != 'u' {
        return None;
      }
      assert s[6..][2..] == raw[pairStart + 2..];
      var low, lowOk := ParseJSONHexCodeUnit(raw, pairStart + 2);
      if !lowOk || !IsLow(low) {
        return None;
      }
      assert s[12..] == raw[pairStart + 6..];
      return Some(pairStart + 6);
    }
    if IsLow(unit) {
      return None;
    }
    return Some(index + 6);
  }

  /** validateRawJSONUnicode. */
  method ValidateRawJSONUnicode(raw: Bytes) returns (error: Option<JcsError>)
    ensures error == if !Valid(raw) then Some(InvalidUtf8)
                     else if Scan(raw, false) then None else Some(InvalidEscape)
  {
    if !Valid(raw) {
      return Some(InvalidUtf8);
    }
    var inString, index := false, 0;
    while index < |raw|
      invariant index <= |raw|
      invariant Scan(raw, false) == Scan(raw[index..], inString)
    {
      assert raw[index..][1..] == raw[index + 1..];
      if raw[index] == '\\' && inString {
        var next := SkipEscape(raw, index);
        if next.None? {
          return Some(InvalidEscape);
        }
        index := next.value;
      } else {
        if raw[index] == '"' {
          inString := !inString;
        }
        index := index + 1;
      }
    }
    return None;
  }

  // ---- the scan of bytes is the scan of the text they encode ----

  lemma EncodeHead(s: string)
    ensures Encode(s) == "" <==> s == ""
    ensures s != "" && s[0] as int < 0x80 ==> Encode(s) == [s[0]] + Encode(s[1..])
    ensures s != "" && s[0] as int >= 0x80 ==> Encode(s)[0] as int >= 0x80
  {
  }

  lemma {:induction false} HexValueOfEncoding(s: string, n: nat, value: nat)
    ensures HexValue(Encode(s), n, value) == HexValue(s, n, value)
    ensures HexValue(s, n, value).Some? ==> Encode(s)[n..] == Encode(s[n..])
    decreases n
  {
    if n > 0 && s != "" {
      EncodeHead(s);
      if HexDigit(s[0]) >= 0 {
        assert Encode(s)[1..] == Encode(s[1..]);
        HexValueOfEncoding(s[1..], n - 1, value * 16 + HexDigit(s[0]));
        if HexValue(s, n, value).Some? {
          assert Encode(s)[n..] == Encode(s)[1..][n - 1..] && s[n..] == s[1..][n - 1..];
        }
      }
    }
  }

  lemma LowEscapeOfEncoding(s: string)
    ensures LowEscape(Encode(s)) == LowEscape(s)
    ensures LowEscape(s) ==> Encode(s)[6..] == Encode(s[6..])
  {
    EncodeHead(s);
    if s != "" && s[0] == '\\' {
      EncodeHead(s[1..]);
      assert Encode(s)[1..] == Encode(s[1..]);
      if |s| > 1 && s[1] == 'u' {
        assert Encode(s)[2..] == Encode(s[1..])[1..] == Encode(s[2..]);
        assert s[1..][1..] == s[2..];
        HexValueOfEncoding(s[2..], 4, 0);
        if HexCode(s[2..]).Some? {
          assert Encode(s)[6..] == Encode(s)[2..][4..] && s[2..][4..] == s[6..];
        }
      }
    }
  }

  lemma {:induction false} ScanPastNonAscii(b: string, s: string, inString: bool)
    requires forall i | 0 <= i < |b| :: b[i] as int >= 0x80
    ensures Scan(b + s, inString) == Scan(s, inString)
  {
    if b == "" {
      assert b + s == s;
    } else {
      assert (b + s)[1..] == b[1..] + s;
      ScanPastNonAscii(b[1..], s, inString);
    }
  }

  lemma {:induction false} ScanOfEncoding(s: string, inString: bool)
    ensures Scan(Encode(s), inString) == Scan(s, inString)
    decreases |s|
  {
    if s != "" {
      EncodeHead(s);
      if s[0] as int >= 0x80 {
        ScanPastNonAscii(EncodeRune(s[0]), Encode(s[1..]), inString);
        ScanOfEncoding(s[1..], inString);
      } else {
        assert Encode(s)[1..] == Encode(s[1..]);
        if s[0] != '\\' || !inString {
          ScanOfEncoding(s[1..], if s[0] == '"' then !inString else inString);
        } else {
          ScanEscapeOfEncoding(s);
        }
      }
    }
  }

  lemma {:induction false} ScanEscapeOfEncoding(s: string)
    requires s != "" && s[0] == '\\'
    ensures Scan(Encode(s), true) == Scan(s, true)
    decreases |s|, 1
  {
    var e := Encode(s);
    EncodeHead(s);
    EncodeHead(s[1..]);
    assert e[1..] == Encode(s[1..]);
    if |s| >= 2 {
      assert s[1..][1..] == s[2..];
      if s[1] == 'u' {
        ScanHexOfEncoding(s);
      } else {
        ScanOfEncoding(s[2..], true);
        var r := EncodeRune(s[1]);
        assert e[2..] == r[1..] + Encode(s[2..]);
        ScanPastNonAscii(r[1..], Encode(s[2..]), true);
      }
    }
  }

  lemma {:induction false} ScanHexOfEncoding(s: string)
    requires |s| >= 2 && s[0] == '\\' && s[1] == 'u'
    ensures Scan(Encode(s), true) == Scan(s, true)
    decreases |s|, 0
  {
    var e := Encode(s);
    EncodeHead(s);
    EncodeHead(s[1..]);
    assert s[1..][1..] == s[2..];
    assert e[2..] == Encode(s[2..]) && |e| >= 2 && e[0] == '\\' && e[1] == 'u';
    HexValueOfEncoding(s[2..], 4, 0);
    if HexCode(s[2..]).Some? {
      assert e[6..] == e[2..][4..] == Encode(s[6..]) && s[2..][4..] == s[6..];
      LowEscapeOfEncoding(s[6..]);
      ScanOfEncoding(s[6..], true);
      if LowEscape(s[6..]) {
        assert e[12..] == e[6..][6..] && s[6..][6..] == s[12..];
        ScanOfEncoding(s[12..], true);
      }
    }
  }

  // ---- the scan of JSON text checks exactly its string literals ----

  lemma {:induction false} ScanPast(p: string, s: string)
    requires '"' !in p
    ensures Scan(p + s, false) == Scan(s, false)
  {
    if p == "" {
      assert p + s == s;
    } else {
      assert (p + s)[1..] == p[1..] + s;
      ScanPast(p[1..], s);
    }
  }

  lemma {:induction false} ScanPastSpace(s: string)
    ensures Scan(s, false) == Scan(SkipSpace(s), false)
  {
    if s != "" && IsJsonSpace(s[0]) {
      ScanPastSpace(s[1..]);
    }
  }

  lemma PairedCons(u: Unit, us: seq<Unit>)
    requires u.Hex? ==> !IsHigh(u.code)
    ensures Paired([u] + us) <==> (u.Hex? ==> !IsLow(u.code)) && Paired(us)
  {
    var all := [u] + us;
    assert !HighAt(all, 0) && !HighAt(us, -1) && !HighAt(all, -1);
    assert forall i | 0 <= i <= |us| :: LowAt(us, i) == LowAt(all, i + 1) && HighAt(us, i - 1) == HighAt(all, i);
    assert forall i | 1 <= i <= |all| :: LowAt(all, i) == LowAt(us, i - 1);
    assert LowAt(all, 0) <==> u.Hex? && IsLow(u.code);
  }

  lemma PairedPair(high: int, low: int, us: seq<Unit>)
    requires IsHigh(high) && IsLow(low)
    ensures Paired([Hex(high), Hex(low)] + us) <==> Paired(us)
  {
    var all := [Hex(high), Hex(low)] + us;
    assert !HighAt(all, -1) && HighAt(all, 0) && !HighAt(all, 1) && !HighAt(us, -1) && !LowAt(all, 0) && LowAt(all, 1);
    assert forall i | 0 <= i <= |us| :: LowAt(us, i) == LowAt(all, i + 2) && HighAt(us, i - 1) == HighAt(all, i + 1);
    assert forall i | 2 <= i <= |all| :: LowAt(all, i) == LowAt(us, i - 2);
  }

  lemma LoneHigh(high: int, us: seq<Unit>)
    requires IsHigh(high) && !LowAt(us, 0)
    ensures !Paired([Hex(high)] + us)
  {
    var all := [Hex(high)] + us;
    assert HighAt(all, 0) && !LowAt(all, 1);
  }

  lemma {:induction false} ScanString(s: string)
    requires LexString(s).Some?
    ensures Scan(s, true) <==> Paired(LexString(s).value.0) && Scan(LexString(s).value.1, false)
    decreases |s|, 1
  {
    var us := LexString(s).value.0;
    if s[0] == '"' {
    } else if s[0] != '\\' {
      ScanString(s[1..]);
      PairedCons(us[0], us[1..]);
    } else if s[1] != 'u' {
      ScanString(s[2..]);
      PairedCons(us[0], us[1..]);
    } else {
      ScanStringHex(s);
    }
  }

  lemma {:induction false} ScanStringHex(s: string)
    requires LexString(s).Some? && s[0] == '\\' && s[1] == 'u'
    ensures Scan(s, true) <==> Paired(LexString(s).value.0) && Scan(LexString(s).value.1, false)
    decreases |s|, 0
  {
    var us := LexString(s).value.0;
    var code, tail := HexCode(s[2..]).value, LexString(s[6..]).value.0;
    assert us == [Hex(code)] + tail;
    ScanString(s[6..]);
    if !IsHigh(code) {
      PairedCons(Hex(code), tail);
    } else if LowEscape(s[6..]) {
      assert s[6..][2..] == s[8..] && s[6..][6..] == s[12..];
      ScanString(s[12..]);
      var low, more := HexCode(s[8..]).value, LexString(s[12..]).value.0;
      assert tail == [Hex(low)] + more;
      assert us == [Hex(code), Hex(low)] + more;
      PairedPair(code, low, more);
    } else {
      LoneHigh(code, tail);
    }
  }

  lemma {:induction false} ScanPastDigits(s: string)
    ensures Scan(s, false) == Scan(SkipDigits(s), false)
  {
    if s != "" && IsDigit(s[0]) {
      ScanPastDigits(s[1..]);
    }
  }

  lemma ScanPastNumber(s: string)
    requires AfterNumber(s).Some?
    ensures Scan(s, false) == Scan(AfterNumber(s).value, false)
  {
    var u := if StartsWith(s, '-') then s[1..] else s;
    ScanPastDigits(u[1..]);
    var integer := AfterInteger(u).value;
    if StartsWith(integer, '.') {
      ScanPastDigits(integer[2..]);
      assert integer[1..][1..] == integer[2..];
    }
    ScanPastExponent(AfterFraction(integer).value);
  }

  lemma ScanPastExponent(s: string)
    requires AfterExponent(s).Some?
    ensures Scan(s, false) == Scan(AfterExponent(s).value, false)
  {
    if StartsWith(s, 'e') || StartsWith(s, 'E') {
      var v := if StartsWith(s[1..], '+') || StartsWith(s[1..], '-') then s[2..] else s[1..];
      assert Scan(s, false) == Scan(s[1..], false) && s[1..][1..] == s[2..];
      assert Scan(s, false) == Scan(v, false);
      ScanPastDigits(v[1..]);
    }
  }

  lemma ScanScalar(t: string)
    requires ParseScalar(t).Some?
    ensures Scan(t, false) <==> AllPaired(ParseScalar(t).value.0) && Scan(ParseScalar(t).value.1, false)
  {
    var (d, rest) := ParseScalar(t).value;
    if d.DStr? {
      ScanString(t[1..]);
    } else if d.DNum? {
      ScanPastNumber(t);
    } else {
      var n := |t| - |rest|;
      assert t[..n] == "null" || t[..n] == "true" || t[..n] == "false";
      ScanPast(t[..n], t[n..]);
      assert t == t[..n] + t[n..];
    }
  }

  lemma {:induction false} ScanValue(s: string)
    requires ParseValue(s).Some?
    ensures Scan(s, false) <==> AllPaired(ParseValue(s).value.0) && Scan(ParseValue(s).value.1, false)
    decreases |s|, 0
  {
    var t := SkipSpace(s);
    ScanPastSpace(s);
    if StartsWith(t, '[') || StartsWith(t, '{') {
      ScanPastSpace(t[1..]);
      if StartsWith(t, '[') && ParseElements(t[1..]).Some? {
        ScanElements(t[1..]);
      }
      if StartsWith(t, '{') && ParseMembers(t[1..]).Some? {
        ScanMembers(t[1..]);
      }
    } else {
      ScanScalar(t);
    }
  }

  lemma {:induction false} ScanElements(s: string)
    requires ParseElements(s).Some?
    ensures Scan(s, false) <==> ItemsPaired(ParseElements(s).value.0) && Scan(ParseElements(s).value.1, false)
    decreases |s|, 1
  {
    var (d, rest) := ParseValue(s).value;
    ScanValue(s);
    ScanPastSpace(rest);
    var t := SkipSpace(rest);
    var ds := ParseElementsTail(rest).value.0;
    if StartsWith(t, ',') {
      ScanElements(t[1..]);
    }
    assert ([d] + ds)[1..] == ds;
  }

  lemma {:induction false} ScanMembers(s: string)
    requires ParseMembers(s).Some?
    ensures Scan(s, false) <==> MembersPaired(ParseMembers(s).value.0) && Scan(ParseMembers(s).value.1, false)
    decreases |s|, 2
  {
    var (m, rest) := ParseMember(s).value;
    ScanMember(s);
    ScanPastSpace(rest);
    var t := SkipSpace(rest);
    var ms := ParseMembersTail(rest).value.0;
    if StartsWith(t, ',') {
      ScanMembers(t[1..]);
    }
    assert ([m] + ms)[1..] == ms;
  }

  lemma {:induction false} ScanMember(s: string)
    requires ParseMember(s).Some?
    ensures var (m, rest) := ParseMember(s).value;
            Scan(s, false) <==> Paired(m.key) && AllPaired(m.value) && Scan(rest, false)
    decreases |s|, 1
  {
    var t := SkipSpace(s);
    ScanPastSpace(s);
    ScanString(t[1..]);
    var afterKey := LexString(t[1..]).value.1;
    ScanPastSpace(afterKey);
    ScanValue(SkipSpace(afterKey)[1..]);
  }

  /** On a complete JSON text the scanner accepts exactly when the bytes are valid UTF-8 and no
      string literal holds an unpaired surrogate escape. */
  lemma ScannerIsExact(raw: Bytes, t: string)
    requires raw == Encode(t)
    requires ParseValue(t).Some? && SkipSpace(ParseValue(t).value.1) == ""
    ensures Scan(raw, false) <==> AllPaired(ParseValue(t).value.0)
  {
    ScanOfEncoding(t, false);
    ScanValue(t);
    ScanPastSpace(ParseValue(t).value.1);
  }

  // ---- no replacement characters ----

  /** The UTF-16 code units a literal spells out. */
  function LiteralUnits(us: seq<Unit>): seq<int> {
    if us == [] then []
    else UnitUnits(us[0]) + LiteralUnits(us[1..])
  }

  function UnitUnits(u: Unit): seq<int> {
    match u
    case Raw(c) => RuneUnits(c)
    case Esc(e) => RuneUnits(EscapeValue(e))
    case Hex(code) => [code]
  }

  /** The decoded string spells the same code units as the literal exactly when every surrogate
      escape is paired; otherwise encoding/json has substituted U+FFFD. */
  lemma {:induction false} DecodingIsFaithful(us: seq<Unit>)
    requires forall i | 0 <= i < |us| && us[i].Hex? :: 0 <= us[i].code < 0x10000
    ensures Units(Unquote(us)) == LiteralUnits(us) <==> Paired(us)
    decreases |us|
  {
    if us == [] {
    } else if HighAt(us, 0) && LowAt(us, 1) {
      DecodingIsFaithful(us[2..]);
      FaithfulPair(us);
    } else {
      DecodingIsFaithful(us[1..]);
      assert us == [us[0]] + us[1..];
      if HighAt(us, 0) {
        LoneHigh(us[0].code, us[1..]);
      } else {
        PairedCons(us[0], us[1..]);
      }
      if HighAt(us, 0) || LowAt(us, 0) {
        assert Units(Unquote(us))[0] == 0xFFFD && LiteralUnits(us)[0] == us[0].code;
      } else {
        SamePrefix(UnitUnits(us[0]), Units(Unquote(us[1..])), LiteralUnits(us[1..]));
        assert Unquote(us)[1..] == Unquote(us[1..]);
      }
    }
  }

  lemma LiteralUnitsOfPair(us: seq<Unit>)
    requires HighAt(us, 0) && LowAt(us, 1)
    ensures LiteralUnits(us) == [us[0].code, us[1].code] + LiteralUnits(us[2..])
  {
    var tail := us[1..];
    assert tail[1..] == us[2..];
    assert LiteralUnits(tail) == [us[1].code] + LiteralUnits(us[2..]);
    Assoc([us[0].code], [us[1].code], LiteralUnits(us[2..]));
  }

  lemma FaithfulPair(us: seq<Unit>)
    requires HighAt(us, 0) && LowAt(us, 1)
    requires Units(Unquote(us[2..])) == LiteralUnits(us[2..]) <==> Paired(us[2..])
    ensures Units(Unquote(us)) == LiteralUnits(us) <==> Paired(us)
  {
    var high, low, tail := us[0].code, us[1].code, us[2..];
    assert us == [Hex(high), Hex(low)] + tail;
    PairedPair(high, low, tail);
    LiteralUnitsOfPair(us);
    var c := FromSurrogates(high, low);
    assert RuneUnits(c) == [high, low];
    DropPrefix([c], Unquote(tail));
    assert Units(Unquote(us)) == [high, low] + Units(Unquote(tail));
    SamePrefix([high, low], Units(Unquote(tail)), LiteralUnits(tail));
  }

  lemma SamePrefix(p: seq<int>, a: seq<int>, b: seq<int>)
    ensures p + a == p + b <==> a == b
  {
    assert (p + a)[|p|..] == a && (p + b)[|p|..] == b;
  }
}
