/** The pieces of Go's strings, strconv and unicode packages the SDK relies on. */
module GoText {
  import opened Wrappers

  predicate IsDigit(c: char) {
    '0' <= c <= '9'
  }

  predicate AllDigits(s: string) {
    forall i | 0 <= i < |s| :: IsDigit(s[i])
  }

  function DigitsValue(s: string): (n: nat)
    requires AllDigits(s)
  {
    if s == "" then 0 else DigitsValue(s[..|s| - 1]) * 10 + (s[|s| - 1] as int - '0' as int)
  }

  const INT64_MIN: int := -0x8000_0000_0000_0000
  const INT64_MAX: int := 0x7FFF_FFFF_FFFF_FFFF

  /** strconv.ParseInt(s, 10, 64): an optional sign, then at least one decimal digit. */
  function ParseInt64(s: string): (r: Option<int>)
    ensures r.Some? ==> INT64_MIN <= r.value <= INT64_MAX
  {
    if s == "" then None
    else
      var digits := if s[0] == '-' || s[0] == '+' then s[1..] else s;
      if digits == "" || !AllDigits(digits) then None
      else
        var magnitude: int := DigitsValue(digits);
        var n: int := if s[0] == '-' then -magnitude else magnitude;
        if INT64_MIN <= n <= INT64_MAX then Some(n) else None
  }

  function Signed(negative: bool, magnitude: int): int {
    if negative then -magnitude else magnitude
  }

  /** `s` is `sign` and `digits`, and their value is the int64 `n`. */
  predicate WritesInt64(s: string, sign: string, digits: string, n: int) {
    && sign in {"", "+", "-"} && digits != "" && AllDigits(digits) && s == sign + digits
    && Signed(sign == "-", DigitsValue(digits)) == n
    && -0x8000_0000_0000_0000 <= n < 0x8000_0000_0000_0000
  }

  lemma ParsedIsWritten(s: string, n: int) returns (sign: string, digits: string)
    requires ParseInt64(s) == Some(n)
    ensures WritesInt64(s, sign, digits, n)
  {
    if s[0] == '-' || s[0] == '+' {
      sign, digits := [s[0]], s[1..];
      assert s == [s[0]] + s[1..];
    } else {
      sign, digits := "", s;
      assert "" + s == s;
    }
  }

  lemma WrittenIsParsed(s: string, sign: string, digits: string, n: int)
    requires WritesInt64(s, sign, digits, n)
    ensures ParseInt64(s) == Some(n)
  {
    assert s[|sign|..] == digits && (sign == "" ==> s == digits && s[0] == digits[0]);
  }

  /** The texts of an int64: digits behind an optional sign of either kind, with a value in range. */
  lemma ParsedIntegers(s: string, n: int)
    ensures ParseInt64(s) == Some(n) <==> exists sign, digits :: WritesInt64(s, sign, digits, n)
  {
    if ParseInt64(s) == Some(n) {
      var sign, digits := ParsedIsWritten(s, n);
    }
    if sign, digits :| WritesInt64(s, sign, digits, n) {
      WrittenIsParsed(s, sign, digits, n);
    }
  }

  function FormatNat(n: nat): (s: string)
    ensures s != "" && AllDigits(s)
    ensures s[0] == '0' ==> n == 0 && s == "0"
  {
    var last := [(n % 10 + '0' as int) as char];
    if n < 10 then last else FormatNat(n / 10) + last
  }

  function FormatInt(n: int): string {
    if n < 0 then "-" + FormatNat(-n) else FormatNat(n)
  }

  lemma {:induction false} DigitsValueOfFormat(n: nat)
    ensures DigitsValue(FormatNat(n)) == n
  {
    var s := FormatNat(n);
    if n >= 10 {
      DigitsValueOfFormat(n / 10);
      assert s[..|s| - 1] == FormatNat(n / 10);
    } else {
      assert s[..|s| - 1] == "";
    }
  }

  lemma ParseFormatInt(n: int)
    requires INT64_MIN <= n <= INT64_MAX
    ensures ParseInt64(FormatInt(n)) == Some(n)
  {
    DigitsValueOfFormat(if n < 0 then -n else n);
    if n < 0 {
      assert FormatInt(n)[1..] == FormatNat(-n);
    }
  }

  /** unicode.IsSpace. */
  predicate IsSpace(c: char) {
    var r := c as int;
    0x09 <= r <= 0x0D || r == 0x20 || r == 0x85 || r == 0xA0 || r == 0x1680 || 0x2000 <= r <= 0x200A
    || r == 0x2028 || r == 0x2029 || r == 0x202F || r == 0x205F || r == 0x3000
  }

  /** strings.TrimSpace(s) == "". */
  predicate Blank(s: string) {
    forall i | 0 <= i < |s| :: IsSpace(s[i])
  }

  function TrimLeft(s: string): string {
    if s != "" && IsSpace(s[0]) then TrimLeft(s[1..]) else s
  }

  function TrimRight(s: string): string {
    if s != "" && IsSpace(s[|s| - 1]) then TrimRight(s[..|s| - 1]) else s
  }

  /** strings.TrimSpace. */
  function TrimSpace(s: string): string {
    TrimRight(TrimLeft(s))
  }

  lemma {:induction false} TrimLeftOf(s: string)
    ensures TrimLeft(s) == "" <==> Blank(s)
    ensures TrimLeft(s) != "" ==> !IsSpace(TrimLeft(s)[0])
  {
    if s != "" && IsSpace(s[0]) {
      TrimLeftOf(s[1..]);
      assert forall i | 1 <= i < |s| :: s[i] == s[1..][i - 1];
    }
  }

  lemma {:induction false} TrimRightKeepsHead(s: string)
    requires s != "" && !IsSpace(s[0])
    ensures TrimRight(s) != "" && TrimRight(s)[0] == s[0]
  {
    if IsSpace(s[|s| - 1]) {
      TrimRightKeepsHead(s[..|s| - 1]);
    }
  }

  /** Trimming leaves nothing exactly of blank text. */
  lemma TrimSpaceOf(s: string)
    ensures TrimSpace(s) == "" <==> Blank(s)
  {
    TrimLeftOf(s);
    if TrimLeft(s) != "" {
      TrimRightKeepsHead(TrimLeft(s));
    }
  }

  /** Trimming takes off the white space on both sides and nothing else. */
  lemma TrimmedIs(s: string) returns (before: string, after: string)
    ensures Blank(before) && Blank(after) && s == before + TrimSpace(s) + after
    ensures var t := TrimSpace(s); t != "" ==> !IsSpace(t[0]) && !IsSpace(t[|t| - 1])
  {
    before := LeftOf(s);
    after := RightOf(TrimLeft(s));
    var t := TrimSpace(s);
    assert s == before + (t + after);
    assert before + (t + after) == before + t + after;
    if t != "" {
      TrimLeftOf(s);
      TrimRightKeepsHead(TrimLeft(s));
    }
  }

  lemma {:induction false} LeftOf(s: string) returns (before: string)
    ensures Blank(before) && s == before + TrimLeft(s)
  {
    before := "";
    if s != "" && IsSpace(s[0]) {
      var more := LeftOf(s[1..]);
      before := [s[0]] + more;
      assert s == [s[0]] + s[1..];
    }
  }

  lemma {:induction false} RightOf(s: string) returns (after: string)
    ensures Blank(after) && s == TrimRight(s) + after
    ensures TrimRight(s) != "" ==> !IsSpace(TrimRight(s)[|TrimRight(s)| - 1])
  {
    after := "";
    if s != "" && IsSpace(s[|s| - 1]) {
      var more := RightOf(s[..|s| - 1]);
      after := more + [s[|s| - 1]];
      assert s == s[..|s| - 1] + [s[|s| - 1]];
    }
  }

  /** Trimming finds exactly the one text that has no white space at its ends. */
  lemma TrimIsExact(s: string, t: string)
    requires t != "" && !IsSpace(t[0]) && !IsSpace(t[|t| - 1])
    ensures TrimSpace(s) == t <==> exists before, after :: Blank(before) && Blank(after) && s == before + t + after
  {
    if TrimSpace(s) == t {
      var before, after := TrimmedIs(s);
    }
    if before, after :| Blank(before) && Blank(after) && s == before + t + after {
      TrimLeftPast(before, t + after);
      TrimRightPast(t, after);
      assert s == before + (t + after);
    }
  }

  lemma {:induction false} TrimLeftPast(before: string, s: string)
    requires Blank(before) && s != "" && !IsSpace(s[0])
    ensures TrimLeft(before + s) == s
  {
    if before == "" {
      assert before + s == s;
    } else {
      assert (before + s)[1..] == before[1..] + s;
      TrimLeftPast(before[1..], s);
    }
  }

  lemma {:induction false} TrimRightPast(s: string, after: string)
    requires Blank(after) && s != "" && !IsSpace(s[|s| - 1])
    ensures TrimRight(s + after) == s
    decreases |after|
  {
    if after == "" {
      assert s + after == s;
    } else {
      var k := |after| - 1;
      assert (s + after)[..|s| + k] == s + after[..k];
      TrimRightPast(s, after[..k]);
    }
  }

  /** The white space of Unicode. */
  lemma SpacesAre(c: char)
    ensures IsSpace(c)
            <==> || c in "\t\n\U{B}\U{C}\r \U{85}\U{A0}\U{1680}\U{2028}\U{2029}\U{202F}\U{205F}\U{3000}"
                 || c in "\U{2000}\U{2001}\U{2002}\U{2003}\U{2004}\U{2005}\U{2006}\U{2007}\U{2008}\U{2009}\U{200A}"
  {
  }

  /** unicode.IsControl. */
  predicate IsControl(c: char) {
    c as int < 0x20 || 0x7F <= c as int <= 0x9F
  }

  /** The control characters: the two blocks of 32 at U+0000 and U+0080, and U+007F. */
  lemma ControlsAre(c: char)
    ensures IsControl(c) <==> c == '\U{7F}' || (c < '\U{100}' && c as int % 0x80 < 0x20)
  {
  }

  predicate HasPrefix(s: string, prefix: string) {
    prefix <= s
  }

  /** strings.Split(s, sep) for a one-character separator. */
  function Split(s: string, sep: char): (parts: seq<string>)
    ensures |parts| >= 1
    decreases |s|
  {
    var n := IndexOf(s, sep);
    if n == |s| then [s] else [s[..n]] + Split(s[n + 1..], sep)
  }

  /** The position of the first `c` in `s`, or |s|. */
  function IndexOf(s: string, c: char): (n: nat)
    ensures n <= |s|
    ensures c !in s[..n]
    ensures n < |s| ==> s[n] == c
  {
    if s == "" || s[0] == c then 0
    else
      var n := IndexOf(s[1..], c) + 1;
      assert s[..n] == [s[0]] + s[1..][..n - 1];
      n
  }

  function Join(parts: seq<string>, sep: string): string
    requires |parts| >= 1
  {
    if |parts| == 1 then parts[0] else parts[0] + sep + Join(parts[1..], sep)
  }

  lemma IndexOfAfter(a: string, c: char, b: string)
    requires c !in a
    ensures IndexOf(a + [c] + b, c) == |a|
  {
    var s := a + [c] + b;
    var n := IndexOf(s, c);
    assert s[|a|] == c;
    assert forall i | 0 <= i < |a| :: s[i] == a[i];
    assert forall i | 0 <= i < n :: s[i] == s[..n][i];
  }

  lemma {:induction false} JoinSplit(s: string, sep: char)
    ensures Join(Split(s, sep), [sep]) == s
    ensures forall p | p in Split(s, sep) :: sep !in p
    decreases |s|
  {
    var n := IndexOf(s, sep);
    if n < |s| {
      JoinSplit(s[n + 1..], sep);
      assert s == s[..n] + [sep] + s[n + 1..];
      assert Split(s, sep)[1..] == Split(s[n + 1..], sep);
    } else {
      assert s == s[..n];
    }
  }

  lemma {:induction false} SplitJoin(parts: seq<string>, sep: char)
    requires |parts| >= 1
    requires forall p | p in parts :: sep !in p
    ensures Split(Join(parts, [sep]), sep) == parts
  {
    var s := Join(parts, [sep]);
    if |parts| == 1 {
      assert IndexOf(s, sep) == |s| by {
        if IndexOf(s, sep) < |s| {
          assert s[IndexOf(s, sep)] in parts[0];
          assert false;
        }
      }
    } else {
      var rest := Join(parts[1..], [sep]);
      assert s == parts[0] + [sep] + rest;
      IndexOfAfter(parts[0], sep, rest);
      assert s[|parts[0]| + 1..] == rest && s[..|parts[0]|] == parts[0];
      SplitJoin(parts[1..], sep);
    }
  }
}
