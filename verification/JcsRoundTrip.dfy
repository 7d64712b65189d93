/** Reading what was written gives the value back, so canonical text is a fixed point and
    determines its value. */
module JcsRoundTrip {
  import opened Wrappers
  import opened GoText
  import opened Sequences
  import opened JsonGrammar
  import opened JsonLocality
  import opened Jcs
  import opened JcsScanner
  import opened Utf16Order
  import Utf8

  /** A nonnegative integer literal without leading zeros. */
  predicate IsUnsigned(s: string) {
    s != "" && AllDigits(s) && (s[0] == '0' ==> |s| == 1)
  }

  predicate IsInteger(literal: string) {
    IsUnsigned(if StartsWith(literal, '-') then literal[1..] else literal)
  }

  /** The values the decoder can produce: every number is an integer literal within int64. */
  ghost predicate Readable(v: Value) {
    match v
    case Num(literal) => IsInteger(literal) && ParseInt64(literal).Some?
    case Arr(items) => forall i | 0 <= i < |items| :: Readable(items[i])
    case Obj(members) => forall k | k in members :: Readable(members[k])
    case _ => true
  }

  // ---- strings ----

  /** The literal element the writer uses for a character. */
  function UnitFor(c: char): Unit {
    match c
    case '"' => Esc('"')
    case '\\' => Esc('\\')
    case '\U{8}' => Esc('b')
    case '\U{C}' => Esc('f')
    case '\n' => Esc('n')
    case '\r' => Esc('r')
    case '\t' => Esc('t')
    case _ => if c < ' ' then Hex(c as int) else Raw(c)
  }

  function UnitsFor(s: string): seq<Unit> {
    if s == "" then [] else [UnitFor(s[0])] + UnitsFor(s[1..])
  }

  lemma HexOfFour(a: char, b: char, c: char, d: char, s: string)
    requires HexDigit(a) >= 0 && HexDigit(b) >= 0 && HexDigit(c) >= 0 && HexDigit(d) >= 0
    ensures HexCode([a, b, c, d] + s)
            == Some(((HexDigit(a) * 16 + HexDigit(b)) * 16 + HexDigit(c)) * 16 + HexDigit(d))
  {
    DropPrefix([a, b, c, d], s);
    DropPrefix([b, c, d], s);
    DropPrefix([c, d], s);
    DropPrefix([d], s);
    var x := HexDigit(a) * 16 + HexDigit(b);
    assert HexCode([a, b, c, d] + s) == HexValue([b, c, d] + s, 3, HexDigit(a)) == HexValue([c, d] + s, 2, x);
  }

  lemma LexHexEscape(digits: string, code: int, s: string)
    requires |digits| == 4 && HexCode(digits + s) == Some(code) && LexString(s).Some?
    ensures LexString("\\u" + digits + s) == Some(([Hex(code)] + LexString(s).value.0, LexString(s).value.1))
  {
    var all := "\\u" + digits + s;
    Assoc("\\u", digits, s);
    DropPrefix("\\u", digits + s);
    DropPrefix("\\u" + digits, s);
    assert all[0] == '\\' && all[1] == 'u';
  }

  lemma LexQuotedControl(c: char, s: string)
    requires UnitFor(c).Hex? && LexString(s).Some?
    ensures LexString(QuoteRune(c) + s) == Some(([UnitFor(c)] + LexString(s).value.0, LexString(s).value.1))
  {
    var high, low := HexLower(c as int / 16), HexLower(c as int % 16);
    assert HexDigit(high) == c as int / 16 && HexDigit(low) == c as int % 16;
    HexOfFour('0', '0', high, low, s);
    LexHexEscape(['0', '0', high, low], c as int, s);
    assert QuoteRune(c) == "\\u" + ['0', '0', high, low];
  }

  lemma LexQuotedRune(c: char, s: string)
    requires LexString(s).Some?
    ensures LexString(QuoteRune(c) + s) == Some(([UnitFor(c)] + LexString(s).value.0, LexString(s).value.1))
  {
    if UnitFor(c).Hex? {
      LexQuotedControl(c, s);
    } else {
      DropPrefix(QuoteRune(c), s);
    }
  }

  lemma {:induction false} LexQuoted(s: string, rest: string)
    ensures LexString(QuoteBody(s) + "\"" + rest) == Some((UnitsFor(s), rest))
    decreases |s|
  {
    if s == "" {
      assert QuoteBody(s) + "\"" + rest == "\"" + rest;
    } else {
      LexQuoted(s[1..], rest);
      var tail := QuoteBody(s[1..]) + "\"" + rest;
      assert QuoteBody(s) + "\"" + rest == QuoteRune(s[0]) + tail;
      LexQuotedRune(s[0], tail);
    }
  }

  lemma UnquoteUnitFor(c: char, us: seq<Unit>)
    ensures Unquote([UnitFor(c)] + us) == [c] + Unquote(us)
    ensures !HighAt([UnitFor(c)], 0) && !LowAt([UnitFor(c)], 0)
  {
    assert ([UnitFor(c)] + us)[1..] == us;
  }

  lemma {:induction false} UnquoteUnitsFor(s: string)
    ensures Unquote(UnitsFor(s)) == s
    ensures Paired(UnitsFor(s))
  {
    if s != "" {
      UnquoteUnitsFor(s[1..]);
      UnquoteUnitFor(s[0], UnitsFor(s[1..]));
      PairedCons(UnitFor(s[0]), UnitsFor(s[1..]));
      assert [s[0]] + s[1..] == s;
    }
  }

  // ---- the document a value is written as ----

  ghost function ToDoc(v: Value): Doc
    decreases v, 3
  {
    match v
    case Null => DNull
    case Bool(b) => DBool(b)
    case Num(literal) => DNum(literal)
    case Str(s) => DStr(UnitsFor(s))
    case Arr(items) => DArr(ToDocs(items))
    case Obj(members) => DObj(ToMembers(SortedKeys(members.Keys), v))
  }

  ghost function ToDocs(items: seq<Value>): seq<Doc>
    decreases items, 0
  {
    if items == [] then [] else [ToDoc(items[0])] + ToDocs(items[1..])
  }

  ghost function ToMembers(keys: seq<string>, obj: Value): seq<Member>
    requires obj.Obj? && forall k | k in keys :: k in obj.members
    decreases obj, 2, |keys|
  {
    if keys == [] then []
    else [Member(UnitsFor(keys[0]), ToDoc(obj.members[keys[0]]))] + ToMembers(keys[1..], obj)
  }

  // ---- parsing written text ----

  lemma {:induction false} SkipAllDigits(s: string, rest: string)
    requires AllDigits(s) && NumberStop(rest)
    ensures SkipDigits(s + rest) == rest
  {
    if s != "" {
      assert (s + rest)[1..] == s[1..] + rest;
      SkipAllDigits(s[1..], rest);
    } else {
      assert s + rest == rest;
    }
  }

  lemma AfterIntegerLiteral(literal: string, rest: string)
    requires IsInteger(literal) && NumberStop(rest)
    ensures AfterNumber(literal + rest) == Some(rest)
  {
    var u := if StartsWith(literal, '-') then literal[1..] else literal;
    var all := literal + rest;
    assert (if StartsWith(all, '-') then all[1..] else all) == u + rest;
    assert (u + rest)[1..] == u[1..] + rest;
    SkipAllDigits(u[1..], rest);
  }

  /** Written text starts with the first character of some value, never with space or a bracket
      that closes. */
  lemma TextHead(v: Value)
    requires Readable(v)
    ensures Text(v) != "" && !IsSpace(Text(v)[0]) && Text(v)[0] != ']'
  {
  }

  lemma ItemsTextHead(items: seq<Value>)
    requires items != [] && Readable(items[0])
    ensures ItemsText(items) != "" && !IsJsonSpace(ItemsText(items)[0]) && ItemsText(items)[0] != ']'
  {
    TextHead(items[0]);
  }

  lemma MembersTextHead(keys: seq<string>, obj: Value)
    requires obj.Obj? && keys != [] && forall k | k in keys :: k in obj.members
    ensures StartsWith(MembersText(keys, obj), '"')
  {
    assert MemberText(keys[0], obj)[0] == '"';
  }

  lemma MemberTextParts(body: string, value: string, rest: string)
    ensures ("\"" + body) + ":" + value + rest == "\"" + (body + (":" + (value + rest)))
  {
  }

  lemma QuoteParts(s: string, rest: string)
    ensures Quote(s) + rest == "\"" + (QuoteBody(s) + "\"" + rest)
  {
    Assoc("\"" + QuoteBody(s), "\"", rest);
    Assoc("\"", QuoteBody(s), "\"" + rest);
    Assoc(QuoteBody(s), "\"", rest);
  }

  lemma ParseLiteral(body: string, us: seq<Unit>, rest: string)
    requires LexString(body) == Some((us, rest))
    ensures ParseValue("\"" + body) == Some((DStr(us), rest))
  {
    DropPrefix("\"", body);
  }

  lemma ParseQuoted(s: string, rest: string)
    ensures ParseValue(Quote(s) + rest) == Some((DStr(UnitsFor(s)), rest))
  {
    LexQuoted(s, rest);
    QuoteParts(s, rest);
    ParseLiteral(QuoteBody(s) + "\"" + rest, UnitsFor(s), rest);
  }

  lemma ParseNumber(literal: string, rest: string)
    requires IsInteger(literal) && NumberStop(rest)
    ensures ParseValue(literal + rest) == Some((DNum(literal), rest))
  {
    var t := literal + rest;
    AfterIntegerLiteral(literal, rest);
    assert t[..|t| - |rest|] == literal;
  }

  lemma {:induction false} ParseText(v: Value, rest: string)
    requires Readable(v) && (v.Num? ==> NumberStop(rest))
    ensures ParseValue(Text(v) + rest) == Some((ToDoc(v), rest))
    decreases v, 3
  {
    match v
    case Null =>
      assert ("null" + rest)[4..] == rest;
    case Bool(b) =>
      assert ("true" + rest)[4..] == rest && ("false" + rest)[5..] == rest;
    case Num(literal) =>
      ParseNumber(literal, rest);
    case Str(s) =>
      ParseQuoted(s, rest);
    case Arr(items) =>
      ParseArrText(v, rest);
    case Obj(members) =>
      ParseObjText(v, rest);
  }

  lemma {:induction false} ParseArrText(v: Value, rest: string)
    requires v.Arr? && Readable(v)
    ensures ParseValue(Text(v) + rest) == Some((ToDoc(v), rest))
    decreases v, 2
  {
    if v.items == [] {
      assert (Text(v) + rest)[1..] == "]" + rest && ("]" + rest)[1..] == rest;
    } else {
      var body := ItemsText(v.items) + "]" + rest;
      ItemsTextHead(v.items);
      ParseItemsText(v.items, rest);
      ParseArray(body);
      Assoc("[", ItemsText(v.items) + "]", rest);
      Assoc("[", ItemsText(v.items), "]");
    }
  }

  lemma {:induction false} ParseItemsText(items: seq<Value>, rest: string)
    requires items != [] && forall x | x in items :: Readable(x)
    ensures ParseElements(ItemsText(items) + "]" + rest) == Some((ToDocs(items), rest))
    decreases items, 0
  {
    var s := ItemsText(items) + "]" + rest;
    assert items[0] in items;
    if |items| == 1 {
      assert s == Text(items[0]) + ("]" + rest);
      ParseText(items[0], "]" + rest);
      ParseLastElement(s, ToDoc(items[0]), rest);
      assert ToDocs(items[1..]) == [];
    } else {
      var next := ItemsText(items[1..]) + "]" + rest;
      assert s == Text(items[0]) + ("," + next);
      ParseText(items[0], "," + next);
      ParseItemsText(items[1..], rest);
      ParseMoreElements(s, ToDoc(items[0]), next);
    }
  }

  lemma {:induction false} ParseObjText(v: Value, rest: string)
    requires v.Obj? && Readable(v)
    ensures ParseValue(Text(v) + rest) == Some((ToDoc(v), rest))
    decreases v, 2
  {
    var keys := SortedKeys(v.members.Keys);
    if keys == [] {
      assert (Text(v) + rest)[1..] == "}" + rest && ("}" + rest)[1..] == rest;
    } else {
      var body := MembersText(keys, v) + "}" + rest;
      MembersTextHead(keys, v);
      ParseMembersText(keys, v, rest);
      ParseObject(body);
      Assoc("{", MembersText(keys, v) + "}", rest);
      Assoc("{", MembersText(keys, v), "}");
    }
  }

  lemma {:induction false} ParseMemberText(key: string, obj: Value, rest: string)
    requires obj.Obj? && key in obj.members && Readable(obj) && NumberStop(rest)
    ensures ParseMember(MemberText(key, obj) + rest)
            == Some((Member(UnitsFor(key), ToDoc(obj.members[key])), rest))
    decreases obj, 0
  {
    var value := Text(obj.members[key]) + rest;
    ParseText(obj.members[key], rest);
    LexQuoted(key, "");
    var body := QuoteBody(key) + "\"";
    assert body + "" == body;
    ParseMemberOf(body, UnitsFor(key), value);
    MemberTextParts(body, Text(obj.members[key]), rest);
    Assoc("\"", QuoteBody(key), "\"");
  }

  lemma {:induction false} ParseMembersText(keys: seq<string>, obj: Value, rest: string)
    requires obj.Obj? && Readable(obj) && keys != [] && forall k | k in keys :: k in obj.members
    ensures ParseMembers(MembersText(keys, obj) + "}" + rest) == Some((ToMembers(keys, obj), rest))
    decreases obj, 1, |keys|
  {
    var s := MembersText(keys, obj) + "}" + rest;
    var m := Member(UnitsFor(keys[0]), ToDoc(obj.members[keys[0]]));
    if |keys| == 1 {
      assert s == MemberText(keys[0], obj) + ("}" + rest);
      ParseMemberText(keys[0], obj, "}" + rest);
      ParseLastMember(s, m, rest);
      assert ToMembers(keys[1..], obj) == [];
    } else {
      var next := MembersText(keys[1..], obj) + "}" + rest;
      assert s == MemberText(keys[0], obj) + ("," + next);
      ParseMemberText(keys[0], obj, "," + next);
      ParseMembersText(keys[1..], obj, rest);
      ParseMoreMembers(s, m, next);
    }
  }

  // ---- elaborating the document gives the value back ----

  /** The part of an object held under `keys`. */
  function Part(keys: seq<string>, members: map<string, Value>): map<string, Value> {
    map k | k in keys && k in members :: members[k]
  }

  lemma PartCons(keys: seq<string>, members: map<string, Value>, seen: map<string, Value>)
    requires keys != [] && keys[0] in members
    ensures seen[keys[0] := members[keys[0]]] + Part(keys[1..], members) == seen + Part(keys, members)
  {
    assert forall k :: k in keys <==> k == keys[0] || k in keys[1..];
  }

  lemma PartWhole(members: map<string, Value>, keys: seq<string>)
    requires forall k :: k in keys <==> k in members.Keys
    ensures map[] + Part(keys, members) == members
  {
  }

  lemma {:induction false} ElaborateToDoc(v: Value)
    requires Readable(v)
    ensures Elaborate(ToDoc(v)) == Ok(v)
    ensures AllPaired(ToDoc(v))
    decreases v, 3
  {
    match v
    case Str(s) =>
      UnquoteUnitsFor(s);
    case Arr(items) =>
      ElaborateToDocs(items);
    case Obj(members) =>
      var keys := SortedKeys(members.Keys);
      PartWhole(members, keys);
      ElaborateToMembers(keys, v, map[]);
    case _ =>
  }

  lemma {:induction false} ElaborateToDocs(items: seq<Value>)
    requires forall x | x in items :: Readable(x)
    ensures ElaborateItems(ToDocs(items)) == Ok(items)
    ensures ItemsPaired(ToDocs(items))
    decreases items, 0
  {
    if items != [] {
      assert items[0] in items;
      ElaborateToDoc(items[0]);
      ElaborateToDocs(items[1..]);
      assert [items[0]] + items[1..] == items;
    }
  }

  lemma KeysAfterFirst(keys: seq<string>, seen: map<string, Value>, v: Value)
    requires keys != [] && Sorted(keys) && forall k | k in keys :: k !in seen
    ensures Sorted(keys[1..]) && forall k | k in keys[1..] :: k !in seen[keys[0] := v]
  {
    forall j | j in keys[1..]
      ensures j != keys[0]
    {
      Less16StrictTotalOrder(j, j, j);
    }
  }

  lemma {:induction false} ElaborateToMembers(keys: seq<string>, obj: Value, seen: map<string, Value>)
    requires obj.Obj? && Readable(obj) && forall k | k in keys :: k in obj.members && k !in seen
    requires Sorted(keys)
    ensures ElaborateMembers(ToMembers(keys, obj), seen) == Ok(seen + Part(keys, obj.members))
    ensures MembersPaired(ToMembers(keys, obj))
    decreases obj, 2, |keys|
  {
    if keys != [] {
      var v := obj.members[keys[0]];
      UnquoteUnitsFor(keys[0]);
      ElaborateToDoc(v);
      KeysAfterFirst(keys, seen, v);
      ElaborateToMembers(keys[1..], obj, seen[keys[0] := v]);
      PartCons(keys, obj.members, seen);
    } else {
      assert seen + Part(keys, obj.members) == seen;
    }
  }

  // ---- what is read is readable ----

  /** Every number the parser produced is a whole literal. */
  predicate WellLexed(d: Doc) {
    match d
    case DNum(literal) => IsInteger(literal) || HasFractionOrExponent(literal)
    case DArr(items) => ItemsWellLexed(items)
    case DObj(members) => MembersWellLexed(members)
    case _ => true
  }

  predicate ItemsWellLexed(ds: seq<Doc>) {
    ds != [] ==> WellLexed(ds[0]) && ItemsWellLexed(ds[1..])
  }

  predicate MembersWellLexed(ms: seq<Member>) {
    ms != [] ==> WellLexed(ms[0].value) && MembersWellLexed(ms[1..])
  }

  lemma {:induction false} SkipDigitsSplits(s: string)
    ensures s[|s| - |SkipDigits(s)|..] == SkipDigits(s)
    ensures AllDigits(s[..|s| - |SkipDigits(s)|])
  {
    if s != "" && IsDigit(s[0]) {
      SkipDigitsSplits(s[1..]);
    }
  }

  lemma AfterIntegerSplits(s: string)
    requires AfterInteger(s).Some?
    ensures var rest := AfterInteger(s).value;
            s[|s| - |rest|..] == rest && IsUnsigned(s[..|s| - |rest|])
  {
    SkipDigitsSplits(s[1..]);
  }

  /** A number literal is a plain integer, or contains a fraction or an exponent. */
  lemma NumberLiteralForms(s: string)
    requires AfterNumber(s).Some?
    ensures var literal := s[..|s| - |AfterNumber(s).value|];
            IsInteger(literal) || HasFractionOrExponent(literal)
  {
    var sign := if StartsWith(s, '-') then 1 else 0;
    var u := s[sign..];
    AfterIntegerSplits(u);
    var a, rest := AfterInteger(u).value, AfterNumber(s).value;
    var literal, n := s[..|s| - |rest|], |s| - |a|;
    if |rest| == |a| {
      assert literal[sign..] == u[..|u| - |a|];
    } else {
      assert literal[n] == s[n] == u[n - sign] == a[0];
    }
  }

  lemma {:induction false} ParsedWellLexed(s: string)
    ensures ParseValue(s).Some? ==> WellLexed(ParseValue(s).value.0)
    decreases |s|, 0
  {
    var t := SkipSpace(s);
    if StartsWith(t, '[') {
      ParsedElementsWellLexed(t[1..]);
    } else if StartsWith(t, '{') {
      ParsedMembersWellLexed(t[1..]);
    } else if AfterNumber(t).Some? {
      NumberLiteralForms(t);
    }
  }

  lemma {:induction false} ParsedElementsWellLexed(s: string)
    ensures ParseElements(s).Some? ==> ItemsWellLexed(ParseElements(s).value.0)
    decreases |s|, 1
  {
    ParsedWellLexed(s);
    if ParseElements(s).Some? {
      var (d, rest) := ParseValue(s).value;
      if StartsWith(SkipSpace(rest), ',') {
        ParsedElementsWellLexed(SkipSpace(rest)[1..]);
      }
      var ds := ParseElementsTail(rest).value.0;
      assert ([d] + ds)[1..] == ds;
    }
  }

  lemma {:induction false} ParsedMembersWellLexed(s: string)
    ensures ParseMembers(s).Some? ==> MembersWellLexed(ParseMembers(s).value.0)
    decreases |s|, 1
  {
    if ParseMembers(s).Some? {
      var (m, rest) := ParseMember(s).value;
      ParsedWellLexed(SkipSpace(LexString(SkipSpace(s)[1..]).value.1)[1..]);
      if StartsWith(SkipSpace(rest), ',') {
        ParsedMembersWellLexed(SkipSpace(rest)[1..]);
      }
      var ms := ParseMembersTail(rest).value.0;
      assert ([m] + ms)[1..] == ms;
    }
  }

  lemma {:induction false} ElaboratedReadable(d: Doc)
    requires WellLexed(d)
    ensures Elaborate(d).Ok? ==> Readable(Elaborate(d).value)
    decreases d, 0
  {
    match d
    case DArr(items) => ElaboratedItemsReadable(items);
    case DObj(members) => ElaboratedMembersReadable(members, map[]);
    case _ =>
  }

  lemma {:induction false} ElaboratedItemsReadable(ds: seq<Doc>)
    requires ItemsWellLexed(ds)
    ensures ElaborateItems(ds).Ok? ==> forall v | v in ElaborateItems(ds).value :: Readable(v)
    decreases ds, 0
  {
    if ds != [] {
      ElaboratedReadable(ds[0]);
      ElaboratedItemsReadable(ds[1..]);
    }
  }

  lemma {:induction false} ElaboratedMembersReadable(ms: seq<Member>, seen: map<string, Value>)
    requires MembersWellLexed(ms) && Readable(Obj(seen))
    ensures ElaborateMembers(ms, seen).Ok? ==> Readable(Obj(ElaborateMembers(ms, seen).value))
    decreases ms, 0
  {
    if ms != [] {
      ElaboratedReadable(ms[0].value);
      if ElaborateMembers(ms, seen).Ok? {
        var v := Elaborate(ms[0].value).value;
        ElaboratedMembersReadable(ms[1..], seen[Unquote(ms[0].key) := v]);
      }
    }
  }

  lemma ReadIsReadable(raw: Utf8.Bytes)
    requires ReadValue(raw).Ok?
    ensures Readable(ReadValue(raw).value)
  {
    var t := Utf8.Decode(raw).value;
    var t' := if Blank(t) then "{}" else t;
    ParsedWellLexed(t');
    ElaboratedReadable(ParseValue(t').value.0);
  }

  // ---- the written form ----

  predicate Printable(s: string) {
    forall c | c in s :: c >= ' '
  }

  lemma RuneIsPrintable(c: char)
    ensures Printable(QuoteRune(c))
  {
    if c < ' ' {
      HexIsPrintable(c as int / 16);
      HexIsPrintable(c as int % 16);
    }
  }

  lemma HexIsPrintable(d: int)
    requires 0 <= d < 16
    ensures HexLower(d) >= ' '
  {
  }

  lemma {:induction false} QuoteIsPrintable(s: string)
    ensures Printable(Quote(s)) && Printable(QuoteBody(s))
  {
    if s != "" {
      RuneIsPrintable(s[0]);
      QuoteIsPrintable(s[1..]);
    }
  }

  lemma {:induction false} ItemsArePrintable(items: seq<Value>)
    requires forall v | v in items :: Readable(v)
    ensures Printable(ItemsText(items))
    decreases items, 0
  {
    if items != [] {
      TextIsPrintable(items[0]);
      ItemsArePrintable(items[1..]);
    }
  }

  lemma {:induction false} MembersArePrintable(keys: seq<string>, obj: Value)
    requires obj.Obj? && Readable(obj) && forall k | k in keys :: k in obj.members
    ensures Printable(MembersText(keys, obj))
    decreases obj, 0, |keys|
  {
    if keys != [] {
      QuoteIsPrintable(keys[0]);
      TextIsPrintable(obj.members[keys[0]]);
      MembersArePrintable(keys[1..], obj);
    }
  }

  /** Canonical text has no control characters below U+0020, so no line breaks and no tabs. */
  lemma {:induction false} TextIsPrintable(v: Value)
    requires Readable(v)
    ensures Printable(Text(v))
    decreases v, 1
  {
    match v
    case Str(s) => QuoteIsPrintable(s);
    case Arr(items) => ItemsArePrintable(items);
    case Obj(members) => MembersArePrintable(SortedKeys(members.Keys), v);
    case _ =>
  }

  // ---- the theorems ----

  /** Reading the written form of a value gives back exactly that value. */
  lemma ReadBack(v: Value)
    requires Readable(v)
    ensures ReadValue(Utf8.Encode(Text(v))) == Ok(v)
  {
    var t := Text(v);
    Utf8.DecodeEncode(t);
    TextHead(v);
    assert !Blank(t) by {
      assert !IsSpace(t[0]);
    }
    ParseText(v, "");
    assert t + "" == t;
    ElaborateToDoc(v);
    ScannerIsExact(Utf8.Encode(t), t);
  }

  /** Canonical text is canonical: canonicalizing again reads the same value and changes nothing. */
  lemma CanonicalizeIdempotent(raw: Utf8.Bytes)
    requires Canonicalize(raw).Ok?
    ensures ReadValue(Canonicalize(raw).value) == ReadValue(raw)
    ensures Canonicalize(Canonicalize(raw).value) == Canonicalize(raw)
  {
    ReadIsReadable(raw);
    ReadBack(ReadValue(raw).value);
  }

  /** Two accepted texts have the same canonical form exactly when they denote the same value:
      member order, spacing and escapes do not matter, number literals do. */
  lemma CanonicalFormDeterminesValue(a: Utf8.Bytes, b: Utf8.Bytes)
    requires Canonicalize(a).Ok? && Canonicalize(b).Ok?
    ensures Canonicalize(a) == Canonicalize(b) <==> ReadValue(a) == ReadValue(b)
  {
    CanonicalizeIdempotent(a);
    CanonicalizeIdempotent(b);
  }
}
