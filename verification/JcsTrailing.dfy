/** How far CanonicalizeJSON's check for trailing data reaches. */
module JcsTrailing {
  import opened Wrappers
  import opened GoText
  import opened JsonGrammar
  import opened JsonLocality
  import opened Jcs
  import opened JcsScanner
  import opened JcsRoundTrip
  import Utf8

  /** `t` is one JSON value with nothing but white space around it. */
  predicate Complete(t: string) {
    ParseValue(t).Some? && SkipSpace(ParseValue(t).value.1) == ""
  }

  /** Behind the value `t` starts with, the first character that is not white space closes a bracket. */
  predicate StrayBracket(t: string) {
    ParseValue(t).Some?
    && var rest := SkipSpace(ParseValue(t).value.1); StartsWith(rest, ']') || StartsWith(rest, '}')
  }

  /** An accepted text that is not blank is a complete JSON text, unless a stray closing bracket
      follows its value; with such a bracket it never is. */
  lemma AcceptedIsCompleteUnlessStray(raw: Utf8.Bytes)
    requires Canonicalize(raw).Ok? && !Blank(Utf8.Decode(raw).value)
    ensures Complete(Utf8.Decode(raw).value) <==> !StrayBracket(Utf8.Decode(raw).value)
  {
  }

  lemma {:induction false} SkipAllSpace(s: string, more: string)
    requires SkipSpace(s) == ""
    ensures SkipSpace(s + more) == SkipSpace(more)
    ensures Scan(s + more, false) == Scan(more, false)
  {
    if s == "" {
      assert s + more == more;
    } else {
      assert (s + more)[1..] == s[1..] + more;
      SkipAllSpace(s[1..], more);
    }
  }

  /** `tail` does not continue the literal of the number `t` ends in. */
  predicate Follows(t: string, tail: string)
    requires Complete(t)
  {
    ParseValue(t).value.0.DNum? && ParseValue(t).value.1 == "" ==> NumberStop(tail)
  }

  lemma ParseBeforeTail(t: string, tail: string)
    requires Complete(t) && Follows(t, tail)
    ensures ParseValue(t + tail).Some? && ParseValue(t + tail).value.0 == ParseValue(t).value.0
    ensures SkipSpace(ParseValue(t + tail).value.1) == SkipSpace(tail)
    ensures !Blank(t) && !Blank(t + tail)
  {
    ParseValueLocal(t, tail);
    SkipAllSpace(ParseValue(t).value.1, tail);
    NotBlank(t);
    NotBlank(t + tail);
  }

  lemma ScanBeforeTail(t: string, tail: string)
    requires Complete(t) && Follows(t, tail)
    ensures Scan(Utf8.Encode(t + tail), false) <==> Scan(Utf8.Encode(t), false) && Scan(tail, false)
  {
    ScanOfEncoding(t, false);
    ScanOfEncoding(t + tail, false);
    ScanValue(t);
    ScanPastSpace(ParseValue(t).value.1);
    ParseBeforeTail(t, tail);
    ScanValue(t + tail);
    ScanPastSpace(ParseValue(t + tail).value.1);
    ScanPastSpace(tail);
  }

  /** What may follow an accepted complete text: it stays accepted, with the same canonical form, exactly
      when the first character behind it that is not white space, if any, closes a bracket of either
      kind, and the surrogate scan finds nothing wrong further on. */
  lemma TrailingTextIsIgnored(t: string, tail: string)
    requires Complete(t) && Canonicalize(Utf8.Encode(t)).Ok? && Follows(t, tail)
    ensures Canonicalize(Utf8.Encode(t + tail)).Ok? <==> !HasMore(tail) && Scan(tail, false)
    ensures !HasMore(tail) && Scan(tail, false) ==> Canonicalize(Utf8.Encode(t + tail)) == Canonicalize(Utf8.Encode(t))
  {
    Utf8.DecodeEncode(t);
    Utf8.DecodeEncode(t + tail);
    ScanBeforeTail(t, tail);
    ParseBeforeTail(t, tail);
  }

  /** In particular nothing behind a stray closing bracket is looked at, beyond the surrogate scan. */
  lemma StrayBracketIsIgnored(t: string, bracket: char, garbage: string)
    requires Complete(t) && Canonicalize(Utf8.Encode(t)).Ok?
    requires (bracket == ']' || bracket == '}') && Scan(garbage, false)
    ensures Canonicalize(Utf8.Encode(t + ([bracket] + garbage))) == Canonicalize(Utf8.Encode(t))
  {
    assert ([bracket] + garbage)[1..] == garbage;
    TrailingTextIsIgnored(t, [bracket] + garbage);
  }

  lemma NotBlank(t: string)
    requires ParseValue(t).Some?
    ensures !Blank(t)
  {
    var s := SkipSpace(t);
    SkippedIsSuffix(t);
    assert !IsSpace(s[0]);
  }

  lemma {:induction false} SkippedIsSuffix(t: string)
    ensures t[|t| - |SkipSpace(t)|..] == SkipSpace(t)
  {
    if t != "" && IsJsonSpace(t[0]) {
      SkippedIsSuffix(t[1..]);
    }
  }

  lemma IntegerIsCanonical(literal: string)
    requires IsInteger(literal) && ParseInt64(literal).Some?
    ensures Canonicalize(Utf8.Encode(literal)) == Ok(Utf8.Encode(literal)) && Complete(literal)
  {
    ReadBack(Num(literal));
    ParseNumber(literal, "");
    assert literal + "" == literal;
  }

  lemma NotCompleteBefore(literal: string, tail: string)
    requires IsInteger(literal) && StartsWith(tail, ']')
    ensures !Complete(literal + tail)
  {
    ParseNumber(literal, tail);
  }

  /** In particular after an integer: the text is not JSON, yet it canonicalizes to the integer. */
  lemma StrayAfterInteger(literal: string, garbage: string)
    requires IsInteger(literal) && ParseInt64(literal).Some? && Scan(garbage, false)
    ensures Canonicalize(Utf8.Encode(literal + ("]" + garbage))) == Ok(Utf8.Encode(literal))
    ensures !Complete(literal + ("]" + garbage))
  {
    IntegerIsCanonical(literal);
    StrayBracketIsIgnored(literal, ']', garbage);
    assert [']'] + garbage == "]" + garbage;
    NotCompleteBefore(literal, "]" + garbage);
  }

  lemma OneIsInteger()
    ensures IsInteger("1") && ParseInt64("1") == Some(1)
  {
    var one := "1";
    assert one[..0] == "";
    assert DigitsValue(one) == 1;
  }

  /** CanonicalizeJSON does not reject everything that is not JSON: "1]x" canonicalizes to "1". */
  lemma StrayBracketWitness()
    ensures Canonicalize("1]x") == Ok("1") && !Complete("1]x")
  {
    OneIsInteger();
    assert Scan("x", false) by {
      assert "x"[1..] == "";
    }
    StrayAfterInteger("1", "x");
    assert "1" + ("]" + "x") == "1]x";
    Utf8.EncodeAscii("1");
    Utf8.EncodeAscii("1]x");
  }
}
