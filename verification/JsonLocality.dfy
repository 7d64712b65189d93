/** A value's parse depends on the value's own text only: appending more text leaves it alone. */
module JsonLocality {
  import opened Wrappers
  import opened GoText
  import opened Sequences
  import opened JsonGrammar

  /** `s` cannot continue a number literal. */
  predicate NumberStop(s: string) {
    s != "" ==> !IsDigit(s[0]) && s[0] != '.' && s[0] != 'e' && s[0] != 'E'
  }

  lemma {:induction false} SkipSpaceLocal(s: string, more: string)
    requires SkipSpace(s) != ""
    ensures SkipSpace(s + more) == SkipSpace(s) + more
  {
    assert (s + more)[1..] == s[1..] + more;
    if IsJsonSpace(s[0]) {
      SkipSpaceLocal(s[1..], more);
    }
  }

  lemma {:induction false} HexValueLocal(s: string, n: nat, value: nat, more: string)
    requires HexValue(s, n, value).Some?
    ensures HexValue(s + more, n, value) == HexValue(s, n, value)
    decreases n
  {
    if n > 0 {
      DropPrefix(s, more);
      HexValueLocal(s[1..], n - 1, value * 16 + HexDigit(s[0]), more);
    }
  }

  lemma {:induction false} LexStringLocal(s: string, more: string)
    requires LexString(s).Some?
    ensures var (us, rest) := LexString(s).value; LexString(s + more) == Some((us, rest + more))
    decreases |s|
  {
    var all := s + more;
    assert all[1..] == s[1..] + more;
    if s[0] == '\\' {
      assert all[2..] == s[2..] + more;
      if s[1] == 'u' {
        HexValueLocal(s[2..], 4, 0, more);
        assert all[6..] == s[6..] + more;
        LexStringLocal(s[6..], more);
      } else {
        LexStringLocal(s[2..], more);
      }
    } else if s[0] != '"' {
      LexStringLocal(s[1..], more);
    }
  }

  lemma {:induction false} SkipDigitsLocal(s: string, more: string)
    requires SkipDigits(s) != "" || NumberStop(more)
    ensures SkipDigits(s + more) == SkipDigits(s) + more
  {
    if s == "" {
      assert s + more == more;
    } else {
      assert (s + more)[1..] == s[1..] + more;
      if IsDigit(s[0]) {
        SkipDigitsLocal(s[1..], more);
      }
    }
  }

  lemma AfterDigitsLocal(s: string, more: string)
    requires AfterDigits(s).Some? && (AfterDigits(s).value != "" || NumberStop(more))
    ensures AfterDigits(s + more) == Some(AfterDigits(s).value + more)
  {
    assert (s + more)[1..] == s[1..] + more;
    SkipDigitsLocal(s[1..], more);
  }

  lemma AfterExponentLocal(s: string, more: string)
    requires AfterExponent(s).Some? && (AfterExponent(s).value != "" || NumberStop(more))
    ensures AfterExponent(s + more) == Some(AfterExponent(s).value + more)
  {
    if s == "" {
      assert s + more == more;
    } else if s[0] == 'e' || s[0] == 'E' {
      assert (s + more)[1..] == s[1..] + more;
      if StartsWith(s[1..], '+') || StartsWith(s[1..], '-') {
        assert (s + more)[2..] == s[2..] + more;
        AfterDigitsLocal(s[2..], more);
      } else {
        AfterDigitsLocal(s[1..], more);
      }
    }
  }

  lemma AfterFractionLocal(s: string, more: string)
    requires AfterFraction(s).Some? && (AfterFraction(s).value != "" || NumberStop(more))
    ensures AfterFraction(s + more) == Some(AfterFraction(s).value + more)
  {
    if s == "" {
      assert s + more == more;
    } else if s[0] == '.' {
      assert (s + more)[1..] == s[1..] + more;
      AfterDigitsLocal(s[1..], more);
    }
  }

  lemma AfterIntegerLocal(s: string, more: string)
    requires AfterInteger(s).Some? && (AfterInteger(s).value != "" || NumberStop(more))
    ensures AfterInteger(s + more) == Some(AfterInteger(s).value + more)
  {
    if StartsWith(s, '0') {
      assert (s + more)[1..] == s[1..] + more;
    } else {
      AfterDigitsLocal(s, more);
    }
  }

  lemma AfterNumberLocal(s: string, more: string)
    requires AfterNumber(s).Some? && (AfterNumber(s).value != "" || NumberStop(more))
    ensures AfterNumber(s + more) == Some(AfterNumber(s).value + more)
  {
    var u := if StartsWith(s, '-') then s[1..] else s;
    assert (s + more)[1..] == s[1..] + more;
    AfterIntegerLocal(u, more);
    AfterFractionLocal(AfterInteger(u).value, more);
    AfterExponentLocal(AfterFraction(AfterInteger(u).value).value, more);
  }

  lemma ParseNameLocal(t: string, more: string)
    requires "null" <= t || "true" <= t || "false" <= t
    ensures var (d, rest) := ParseScalar(t).value; ParseScalar(t + more) == Some((d, rest + more))
  {
    var n := if "false" <= t then 5 else 4;
    DropPrefix(t, more);
    assert (t + more)[..n] == t[..n] && (t + more)[n..] == t[n..] + more;
  }

  lemma ParseScalarLocal(t: string, more: string)
    requires ParseScalar(t).Some?
    requires ParseScalar(t).value.0.DNum? && ParseScalar(t).value.1 == "" ==> NumberStop(more)
    ensures var (d, rest) := ParseScalar(t).value; ParseScalar(t + more) == Some((d, rest + more))
  {
    var all := t + more;
    DropPrefix(t, more);
    if "null" <= t || "true" <= t || "false" <= t {
      ParseNameLocal(t, more);
    } else if StartsWith(t, '"') {
      LexStringLocal(t[1..], more);
    } else {
      AfterNumberLocal(t, more);
      var n := |t| - |ParseScalar(t).value.1|;
      assert all[..n] == t[..n];
    }
  }

  lemma {:induction false} ParseValueLocal(s: string, more: string)
    requires ParseValue(s).Some?
    requires ParseValue(s).value.0.DNum? && ParseValue(s).value.1 == "" ==> NumberStop(more)
    ensures var (d, rest) := ParseValue(s).value; ParseValue(s + more) == Some((d, rest + more))
    decreases |s|, 0
  {
    var t := SkipSpace(s);
    SkipSpaceLocal(s, more);
    assert (t + more)[1..] == t[1..] + more;
    if StartsWith(t, '[') || StartsWith(t, '{') {
      var u := SkipSpace(t[1..]);
      SomeMeansNonempty(t[1..]);
      SkipSpaceLocal(t[1..], more);
      assert (u + more)[1..] == u[1..] + more;
      if StartsWith(t, '[') && !StartsWith(u, ']') {
        ParseElementsLocal(t[1..], more);
      } else if StartsWith(t, '{') && !StartsWith(u, '}') {
        ParseMembersLocal(t[1..], more);
      }
    } else {
      ParseScalarLocal(t, more);
    }
  }

  lemma SomeMeansNonempty(s: string)
    ensures SkipSpace(s) == "" ==> ParseElements(s).None? && ParseMembers(s).None?
  {
  }

  lemma {:induction false} ParseElementsLocal(s: string, more: string)
    requires ParseElements(s).Some?
    ensures var (ds, rest) := ParseElements(s).value; ParseElements(s + more) == Some((ds, rest + more))
    decreases |s|, 1
  {
    var (d, rest) := ParseValue(s).value;
    ParseValueLocal(s, more);
    var t := SkipSpace(rest);
    SkipSpaceLocal(rest, more);
    assert (t + more)[1..] == t[1..] + more;
    if StartsWith(t, ',') {
      ParseElementsLocal(t[1..], more);
    }
  }

  lemma {:induction false} ParseMemberLocal(s: string, more: string)
    requires ParseMember(s).Some? && ParseMember(s).value.1 != ""
    ensures var (m, rest) := ParseMember(s).value; ParseMember(s + more) == Some((m, rest + more))
    decreases |s|, 1
  {
    var t := SkipSpace(s);
    SkipSpaceLocal(s, more);
    assert (t + more)[1..] == t[1..] + more;
    LexStringLocal(t[1..], more);
    var afterKey := LexString(t[1..]).value.1;
    var u := SkipSpace(afterKey);
    SkipSpaceLocal(afterKey, more);
    assert (u + more)[1..] == u[1..] + more;
    ParseValueLocal(u[1..], more);
  }

  lemma {:induction false} ParseMembersLocal(s: string, more: string)
    requires ParseMembers(s).Some?
    ensures var (ms, rest) := ParseMembers(s).value; ParseMembers(s + more) == Some((ms, rest + more))
    decreases |s|, 2
  {
    ParseMemberLocal(s, more);
    ParseMembersTailLocal(ParseMember(s).value.1, more);
  }

  lemma {:induction false} ParseMembersTailLocal(s: string, more: string)
    requires ParseMembersTail(s).Some?
    ensures var (ms, rest) := ParseMembersTail(s).value; ParseMembersTail(s + more) == Some((ms, rest + more))
    decreases |s|, 0
  {
    var t := SkipSpace(s);
    SkipSpaceLocal(s, more);
    assert (t + more)[1..] == t[1..] + more;
    if StartsWith(t, ',') {
      ParseMembersLocal(t[1..], more);
    }
  }

  // ---- composing texts ----

  lemma ParseArray(body: string)
    requires body != "" && !IsJsonSpace(body[0]) && body[0] != ']' && ParseElements(body).Some?
    ensures ParseValue("[" + body) == Some((DArr(ParseElements(body).value.0), ParseElements(body).value.1))
  {
    assert ("[" + body)[1..] == body;
  }

  lemma ParseObject(body: string)
    requires StartsWith(body, '"') && ParseMembers(body).Some?
    ensures ParseValue("{" + body) == Some((DObj(ParseMembers(body).value.0), ParseMembers(body).value.1))
  {
    assert ("{" + body)[1..] == body;
  }

  lemma ParseMoreElements(s: string, d: Doc, next: string)
    requires ParseValue(s) == Some((d, "," + next)) && ParseElements(next).Some?
    ensures ParseElements(s) == Some(([d] + ParseElements(next).value.0, ParseElements(next).value.1))
  {
    assert ("," + next)[1..] == next;
  }

  lemma ParseLastElement(s: string, d: Doc, rest: string)
    requires ParseValue(s) == Some((d, "]" + rest))
    ensures ParseElements(s) == Some(([d], rest))
  {
    assert ("]" + rest)[1..] == rest;
    assert [d] + [] == [d];
  }

  lemma ParseMoreMembers(s: string, m: Member, next: string)
    requires ParseMember(s) == Some((m, "," + next)) && ParseMembers(next).Some?
    ensures ParseMembers(s) == Some(([m] + ParseMembers(next).value.0, ParseMembers(next).value.1))
  {
    assert ("," + next)[1..] == next;
  }

  lemma ParseLastMember(s: string, m: Member, rest: string)
    requires ParseMember(s) == Some((m, "}" + rest))
    ensures ParseMembers(s) == Some(([m], rest))
  {
    assert ("}" + rest)[1..] == rest;
    assert [m] + [] == [m];
  }

  /** `body` is the inside of a string literal, up to and including its closing quote. */
  lemma ParseMemberOf(body: string, key: seq<Unit>, value: string)
    requires LexString(body) == Some((key, "")) && ParseValue(value).Some?
    ensures ParseMember("\"" + (body + (":" + value)))
            == Some((Member(key, ParseValue(value).value.0), ParseValue(value).value.1))
  {
    var tail := ":" + value;
    LexStringLocal(body, tail);
    assert "" + tail == tail && tail[1..] == value && tail[0] == ':';
    assert ("\"" + (body + tail))[1..] == body + tail;
  }
}
