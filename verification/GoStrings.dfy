/** Go's view of byte strings as text: ranging over runes, ToUpper, and searching. */
module GoStrings {
  import opened Sequences
  import opened Utf8

  /** The runes of `for _, c := range b`: a byte that starts no well-formed sequence counts as U+FFFD. */
  function Runes(b: Bytes): string {
    if b == "" then ""
    else match DecodeRune(b)
      case None => ['\U{FFFD}'] + Runes(b[1..])
      case Some((c, n)) => [c] + Runes(b[n..])
  }

  /** `b` with every malformed byte replaced. */
  function Sanitize(b: Bytes): Bytes {
    Encode(Runes(b))
  }

  lemma {:induction false} RunesOfValid(b: Bytes)
    requires Valid(b)
    ensures Runes(b) == Decode(b).value
  {
    if b != "" {
      RunesOfValid(b[DecodeRune(b).value.1..]);
    }
  }

  lemma FirstRune(c: char, rest: Bytes)
    ensures Runes(EncodeRune(c) + rest) == [c] + Runes(rest)
  {
    DecodeRuneOfEncoding(c, rest);
    DropPrefix(EncodeRune(c), rest);
  }

  lemma EncodedBefore(s: string, rest: Bytes)
    ensures s == "" ==> Encode(s) + rest == rest
    ensures s != "" ==> Encode(s) + rest == EncodeRune(s[0]) + (Encode(s[1..]) + rest)
  {
    if s != "" {
      Assoc(EncodeRune(s[0]), Encode(s[1..]), rest);
    }
  }

  lemma {:induction false} RunesOfEncoding(s: string, rest: Bytes)
    ensures Runes(Encode(s) + rest) == s + Runes(rest)
  {
    var tail := Runes(rest);
    EncodedBefore(s, rest);
    if s == "" {
      assert s + tail == tail;
    } else {
      FirstRune(s[0], Encode(s[1..]) + rest);
      RunesOfEncoding(s[1..], rest);
      Assoc([s[0]], s[1..], tail);
      SplitAt(s, 1);
      assert s[..1] == [s[0]];
    }
  }

  /** A byte that can never start a well-formed sequence counts as U+FFFD, wherever it stands. */
  lemma MalformedByteIsReplaced(s: string, x: Byte, rest: Bytes)
    requires 0x80 <= x as int <= 0xC1 || 0xF5 <= x as int
    ensures Runes(Encode(s) + ([x] + rest)) == s + (['\U{FFFD}'] + Runes(rest))
  {
    RunesOfEncoding(s, [x] + rest);
    assert ([x] + rest)[1..] == rest;
  }

  /** Sanitizing changes exactly the strings that are not valid UTF-8. */
  lemma SanitizeKeepsValid(b: Bytes)
    ensures Sanitize(b) == b <==> Valid(b)
  {
    if Valid(b) {
      RunesOfValid(b);
      EncodeDecode(b);
    }
    DecodeEncode(Runes(b));
  }

  /** unicode.ToUpper: exact on ASCII; the rest of Unicode's table is a parameter. */
  type Fold = f: char -> char | forall c: char :: f(c) != '\n' && f(c) != '\r' witness c => 'A'

  function UpperRune(fold: Fold, c: char): char {
    if 'a' <= c <= 'z' then (c as int - 32) as char
    else if c as int < 0x80 then c
    else fold(c)
  }

  function UpperRunes(fold: Fold, s: string): string {
    if s == "" then "" else [UpperRune(fold, s[0])] + UpperRunes(fold, s[1..])
  }

  /** strings.ToUpper. */
  function Upper(fold: Fold, b: Bytes): Bytes {
    Encode(UpperRunes(fold, Runes(b)))
  }

  /** Of ASCII, ToUpper changes the 26 small letters into the capital ones and nothing else. */
  lemma UpperLetters(fold: Fold, c: char)
    requires c as int < 0x80
    ensures UpperRune(fold, 'a') == 'A' && UpperRune(fold, 'z') == 'Z'
    ensures 'a' <= c < 'z' ==> UpperRune(fold, (c as int + 1) as char) as int == UpperRune(fold, c) as int + 1
    ensures !('a' <= c <= 'z') ==> UpperRune(fold, c) == c
  {
  }

  /** ToUpper of an ASCII string goes letter by letter. */
  lemma UpperAscii(fold: Fold, b: Bytes)
    requires IsAscii(b)
    ensures |Upper(fold, b)| == |b| && forall i | 0 <= i < |b| :: Upper(fold, b)[i] == UpperRune(fold, b[i])
  {
    EncodeAscii(b);
    DecodeEncode(b);
    RunesOfValid(b);
    UpperEach(fold, b);
    EncodeAscii(UpperRunes(fold, b));
  }

  lemma {:induction false} UpperEach(fold: Fold, s: string)
    requires IsAscii(s)
    ensures |UpperRunes(fold, s)| == |s| && IsAscii(UpperRunes(fold, s))
    ensures forall i | 0 <= i < |s| :: UpperRunes(fold, s)[i] == UpperRune(fold, s[i])
  {
    if s != "" {
      UpperEach(fold, s[1..]);
    }
  }

  /** ToUpper brings in no line break. */
  lemma {:induction false} UpperRunesKeepsLine(fold: Fold, s: string)
    requires '\n' !in s
    ensures '\n' !in UpperRunes(fold, s)
  {
    if s != "" {
      UpperRunesKeepsLine(fold, s[1..]);
    }
  }

  lemma {:induction false} RunesKeepsOut(b: Bytes, c: char)
    requires c as int < 0x80 && c !in b
    ensures c !in Runes(b)
  {
    if b != "" {
      match DecodeRune(b)
      case None => RunesKeepsOut(b[1..], c);
      case Some((d, n)) =>
        assert d != c;
        RunesKeepsOut(b[n..], c);
    }
  }

  lemma UpperKeepsLine(fold: Fold, b: Bytes)
    requires '\n' !in b
    ensures '\n' !in Upper(fold, b)
  {
    RunesKeepsOut(b, '\n');
    UpperRunesKeepsLine(fold, Runes(b));
    EncodeKeepsOut(UpperRunes(fold, Runes(b)), '\n');
  }

  /** strings.ContainsAny(s, "\r\n"). */
  predicate HasLineBreak(s: string) {
    '\r' in s || '\n' in s
  }

  /** strings.Count for a one-byte substring. */
  function Count(s: string, c: char): nat {
    if s == "" then 0 else (if s[0] == c then 1 else 0) + Count(s[1..], c)
  }

  lemma {:induction false} CountConcat(a: string, b: string, c: char)
    ensures Count(a + b, c) == Count(a, c) + Count(b, c)
  {
    if a == "" {
      assert a + b == b;
    } else {
      DropPrefix(a, b);
      CountConcat(a[1..], b, c);
    }
  }

  lemma {:induction false} CountAbsent(s: string, c: char)
    requires c !in s
    ensures Count(s, c) == 0
  {
    if s != "" {
      CountAbsent(s[1..], c);
    }
  }

  /** strings.Contains. */
  predicate Contains(s: string, part: string) {
    exists i :: 0 <= i <= |s| && part <= s[i..]
  }
}
