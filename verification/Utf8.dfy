/** Bytes and the UTF-8 encoding form.  A Go string or byte slice is a `Bytes`: a sequence of
    characters below 256.  Decoded text is a Dafny `string`, whose characters are exactly the
    Unicode scalar values. */
module Utf8 {
  import opened Wrappers
  import opened Sequences

  type Byte = c: char | c as int < 256 witness 'a'
  type Bytes = seq<Byte>

  function EncodeRune(c: char): (b: Bytes)
    ensures 1 <= |b| <= 4
  {
    var r := c as int;
    if r < 0x80 then [c]
    else if r < 0x800 then [(0xC0 + r / 64) as char, (0x80 + r % 64) as char]
    else if r < 0x10000 then
      [(0xE0 + r / 64 / 64) as char, (0x80 + r / 64 % 64) as char, (0x80 + r % 64) as char]
    else
      [(0xF0 + r / 64 / 64 / 64) as char, (0x80 + r / 64 / 64 % 64) as char,
       (0x80 + r / 64 % 64) as char, (0x80 + r % 64) as char]
  }

  function Encode(s: string): Bytes {
    if s == "" then "" else EncodeRune(s[0]) + Encode(s[1..])
  }

  predicate IsContinuation(b: Byte) {
    0x80 <= b as int <= 0xBF
  }

  /** The well-formed sequence at the front of `b` and its length (Unicode table 3-7). */
  function DecodeRune(b: Bytes): (r: Option<(char, nat)>)
    ensures r.Some? ==> 1 <= r.value.1 <= |b|
  {
    if |b| == 0 then None
    else
      var x := b[0] as int;
      if x < 0x80 then Some((b[0], 1))
      else if 0xC2 <= x <= 0xDF && |b| >= 2 && IsContinuation(b[1]) then
        Some((((x - 0xC0) * 64 + (b[1] as int - 0x80)) as char, 2))
      else if 0xE0 <= x <= 0xEF && |b| >= 3 && IsContinuation(b[1]) && IsContinuation(b[2])
              && (x == 0xE0 ==> 0xA0 <= b[1] as int) && (x == 0xED ==> b[1] as int <= 0x9F) then
        Some((((x - 0xE0) * 4096 + (b[1] as int - 0x80) * 64 + (b[2] as int - 0x80)) as char, 3))
      else if 0xF0 <= x <= 0xF4 && |b| >= 4 && IsContinuation(b[1]) && IsContinuation(b[2]) && IsContinuation(b[3])
              && (x == 0xF0 ==> 0x90 <= b[1] as int) && (x == 0xF4 ==> b[1] as int <= 0x8F) then
        Some((((x - 0xF0) * 262144 + (b[1] as int - 0x80) * 4096
               + (b[2] as int - 0x80) * 64 + (b[3] as int - 0x80)) as char, 4))
      else None
  }

  /** The text `b` encodes, or None when `b` is not valid UTF-8. */
  function Decode(b: Bytes): Option<string> {
    if b == "" then Some("")
    else match DecodeRune(b)
      case None => None
      case Some((c, n)) =>
        match Decode(b[n..])
        case None => None
        case Some(rest) => Some([c] + rest)
  }

  predicate Valid(b: Bytes) {
    Decode(b).Some?
  }

  predicate IsAscii(s: string) {
    forall i | 0 <= i < |s| :: s[i] as int < 0x80
  }

  lemma Sextets(r: nat)
    ensures r == r / 64 * 64 + r % 64
    ensures r == r / 64 / 64 * 4096 + r / 64 % 64 * 64 + r % 64
    ensures r == r / 64 / 64 / 64 * 262144 + r / 64 / 64 % 64 * 4096 + r / 64 % 64 * 64 + r % 64
  {
  }

  lemma SextetOff(q: nat, x: nat, r: nat)
    requires x < 64 && r == q * 64 + x
    ensures r / 64 == q && r % 64 == x
  {
  }

  lemma SextetsUnique(w: nat, z: nat, y: nat, x: nat, r: nat)
    requires z < 64 && y < 64 && x < 64 && r == w * 262144 + z * 4096 + y * 64 + x
    ensures r % 64 == x && r / 64 % 64 == y && r / 64 / 64 % 64 == z && r / 64 / 64 / 64 == w
    ensures r / 64 == w * 4096 + z * 64 + y && r / 64 / 64 == w * 64 + z
  {
    SextetOff(w * 4096 + z * 64 + y, x, r);
    SextetOff(w * 64 + z, y, r / 64);
    SextetOff(w, z, r / 64 / 64);
  }

  lemma DecodeRuneOfEncoding(c: char, rest: Bytes)
    ensures DecodeRune(EncodeRune(c) + rest) == Some((c, |EncodeRune(c)|))
  {
    var r, e := c as int, EncodeRune(c);
    var b := e + rest;
    Sextets(r);
    assert forall i | 0 <= i < |e| :: b[i] == e[i];
  }

  lemma EncodingOfDecodedRune(b: Bytes)
    requires DecodeRune(b).Some?
    ensures EncodeRune(DecodeRune(b).value.0) == b[..DecodeRune(b).value.1]
  {
    var (c, n) := DecodeRune(b).value;
    var r, x := c as int, b[0] as int;
    if n == 2 {
      SextetsUnique(0, 0, x - 0xC0, b[1] as int - 0x80, r);
    } else if n == 3 {
      SextetsUnique(0, x - 0xE0, b[1] as int - 0x80, b[2] as int - 0x80, r);
    } else if n == 4 {
      SextetsUnique(x - 0xF0, b[1] as int - 0x80, b[2] as int - 0x80, b[3] as int - 0x80, r);
    }
  }

  /** A well-formed sequence is exactly the encoding of a scalar. */
  lemma DecodeRuneIsExact(b: Bytes, c: char, n: nat)
    ensures DecodeRune(b) == Some((c, n)) <==> n == |EncodeRune(c)| && EncodeRune(c) <= b
  {
    if DecodeRune(b) == Some((c, n)) {
      EncodingOfDecodedRune(b);
    }
    if n == |EncodeRune(c)| && EncodeRune(c) <= b {
      DecodeRuneOfEncoding(c, b[n..]);
      SplitAt(b, n);
    }
  }

  lemma {:induction false} DecodeEncode(s: string)
    ensures Decode(Encode(s)) == Some(s)
  {
    if s != "" {
      var e, rest := EncodeRune(s[0]), Encode(s[1..]);
      DecodeRuneOfEncoding(s[0], rest);
      assert (e + rest)[|e|..] == rest;
      DecodeEncode(s[1..]);
      assert [s[0]] + s[1..] == s;
    }
  }

  lemma EncodeCons(c: char, s: string)
    ensures Encode([c] + s) == EncodeRune(c) + Encode(s)
  {
    assert ([c] + s)[1..] == s;
  }

  lemma {:induction false} EncodeDecode(b: Bytes)
    requires Valid(b)
    ensures Encode(Decode(b).value) == b
  {
    if b != "" {
      var (c, n) := DecodeRune(b).value;
      EncodingOfDecodedRune(b);
      var tail := b[n..];
      EncodeDecode(tail);
      EncodeCons(c, Decode(tail).value);
      SplitAt(b, n);
    }
  }

  lemma EncodeInjective(s: string, t: string)
    requires Encode(s) == Encode(t)
    ensures s == t
  {
    DecodeEncode(s);
    DecodeEncode(t);
  }

  lemma {:induction false} EncodeConcat(s: string, t: string)
    ensures Encode(s + t) == Encode(s) + Encode(t)
  {
    if s == "" {
      assert s + t == t;
    } else {
      EncodeConcat(s[1..], t);
      DropPrefix(s, t);
      Assoc(EncodeRune(s[0]), Encode(s[1..]), Encode(t));
    }
  }

  lemma {:induction false} EncodeAscii(s: string)
    requires IsAscii(s)
    ensures Encode(s) == s
  {
    if s != "" {
      EncodeAscii(s[1..]);
    }
  }

  /** ASCII characters survive encoding in place: no byte of a longer sequence is ASCII. */
  lemma {:induction false} EncodeKeepsOut(s: string, c: char)
    requires c as int < 0x80 && c !in s
    ensures c !in Encode(s)
  {
    if s != "" {
      EncodeKeepsOut(s[1..], c);
      assert c !in EncodeRune(s[0]);
    }
  }
}
