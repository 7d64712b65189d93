/** encoding/base64's RawURLEncoding: the URL alphabet without padding (section 5 of RFC 4648). */
module Base64 {
  import opened Wrappers
  import opened Sequences
  import opened Utf8

  function Symbol(n: nat): Byte
    requires n < 64
  {
    if n < 26 then ('A' as int + n) as char
    else if n < 52 then ('a' as int + n - 26) as char
    else if n < 62 then ('0' as int + n - 52) as char
    else if n == 62 then '-' else '_'
  }

  function SymbolValue(c: char): (r: Option<nat>)
    ensures r.Some? ==> r.value < 64
  {
    if 'A' <= c <= 'Z' then Some(c as int - 'A' as int)
    else if 'a' <= c <= 'z' then Some(c as int - 'a' as int + 26)
    else if '0' <= c <= '9' then Some(c as int - '0' as int + 52)
    else if c == '-' then Some(62)
    else if c == '_' then Some(63)
    else None
  }

  /** The four sextets of three bytes. */
  datatype Group = Group(p: nat, q: nat, r: nat, t: nat)

  /** Sextets that are in range and hold the bits of `x`, `y` and `z`. */
  predicate Packs(g: Group, x: nat, y: nat, z: nat) {
    && g.p < 64 && g.q < 64 && g.r < 64 && g.t < 64
    && g.p * 4 + g.q / 16 == x && g.q % 16 * 16 + g.r / 4 == y && g.r % 4 * 64 + g.t == z
  }

  function Pack(x: nat, y: nat, z: nat): (g: Group)
    requires x < 256 && y < 256 && z < 256
    ensures Packs(g, x, y, z)
  {
    SplitSextet(x % 4, 16, y / 16);
    SplitSextet(y % 16, 4, z / 64);
    Group(x / 4, x % 4 * 16 + y / 16, y % 16 * 4 + z / 64, z % 64)
  }

  function ByteAt(b: Bytes, i: nat): (x: nat)
    ensures x < 256
  {
    if i < |b| then b[i] as int else 0
  }

  /** EncodeToString: four symbols for three bytes, two or three for what is left at the end. */
  function Encode64(b: Bytes): (s: Bytes)
    ensures s == "" <==> b == ""
  {
    if b == "" then ""
    else
      var g := Pack(ByteAt(b, 0), ByteAt(b, 1), ByteAt(b, 2));
      if |b| == 1 then [Symbol(g.p), Symbol(g.q)]
      else if |b| == 2 then [Symbol(g.p), Symbol(g.q), Symbol(g.r)]
      else [Symbol(g.p), Symbol(g.q), Symbol(g.r), Symbol(g.t)] + Encode64(b[3..])
  }

  /** The decoder passes over line breaks. */
  function DropLineBreaks(s: string): string {
    if s == "" then ""
    else if s[0] == '\r' || s[0] == '\n' then DropLineBreaks(s[1..])
    else [s[0]] + DropLineBreaks(s[1..])
  }

  /** The bytes of whole and partial groups; bits left over in a partial group are ignored. */
  function DecodeGroups(s: string): Option<Bytes> {
    if s == "" then Some("")
    else if |s| == 1 then None
    else
      var p :- SymbolValue(s[0]);
      var q :- SymbolValue(s[1]);
      var x := (p * 4 + q / 16) as char;
      if |s| == 2 then Some([x])
      else
        var r :- SymbolValue(s[2]);
        var y := (q % 16 * 16 + r / 4) as char;
        if |s| == 3 then Some([x, y])
        else
          var t :- SymbolValue(s[3]);
          var rest :- DecodeGroups(s[4..]);
          Some([x, y, (r % 4 * 64 + t) as char] + rest)
  }

  /** DecodeString. */
  function Decode64(s: string): Option<Bytes> {
    DecodeGroups(DropLineBreaks(s))
  }

  /** The alphabet of RFC 4648, table 2: capital letters, small letters, digits, and two more. */
  lemma AlphabetOrder(n: nat)
    requires n < 64
    ensures Symbol(0) == 'A' && Symbol(25) == 'Z' && Symbol(26) == 'a' && Symbol(51) == 'z'
    ensures Symbol(52) == '0' && Symbol(61) == '9' && Symbol(62) == '-' && Symbol(63) == '_'
    ensures n !in {25, 51, 61, 62, 63} ==> Symbol(n + 1) as int == Symbol(n) as int + 1
  {
  }

  /** The example of RFC 4648, section 10. */
  lemma EncodedExample(b: Bytes)
    requires b == "foobar"
    ensures Encode64(b) == "Zm9vYmFy" && Encode64(b[..5]) == "Zm9vYmE" && Encode64(b[..4]) == "Zm9vYg"
  {
    assert b[3..] == "bar" && b[..5][3..] == "ba" && b[..4][3..] == "b" && b[3..][3..] == "";
  }

  /** Four symbols for three bytes; two or three, without padding, for the one or two left over. */
  lemma {:induction false} EncodedSize(b: Bytes)
    ensures |Encode64(b)| == (|b| * 4 + 2) / 3
  {
    if |b| >= 3 {
      EncodedSize(b[3..]);
    }
  }

  lemma {:induction false} DroppedLineBreak(a: string, c: char, b: string)
    requires c == '\r' || c == '\n'
    ensures DropLineBreaks(a + [c] + b) == DropLineBreaks(a + b)
  {
    if a == "" {
      assert ("" + [c] + b)[1..] == b && "" + b == b;
    } else {
      assert (a + [c] + b)[1..] == a[1..] + [c] + b && (a + b)[1..] == a[1..] + b;
      DroppedLineBreak(a[1..], c, b);
    }
  }

  /** The decoder takes no notice of line breaks, wherever they stand. */
  lemma LineBreaksAreIgnored(a: string, c: char, b: string)
    requires c == '\r' || c == '\n'
    ensures Decode64(a + [c] + b) == Decode64(a + b)
  {
    DroppedLineBreak(a, c, b);
  }

  /** Nor of the bits of a last symbol that belong to no byte. */
  lemma LeftoverBitsAreIgnored(p: nat, q: nat)
    requires p < 64 && q < 64
    ensures DecodeGroups([Symbol(p), Symbol(q)]) == DecodeGroups([Symbol(p), Symbol(q / 16 * 16)])
    ensures DecodeGroups([Symbol(p), Symbol(q)]).Some? && DecodeGroups([Symbol(p)]) == None
  {
    SymbolRoundTrip(p);
    SymbolRoundTrip(q);
    SymbolRoundTrip(q / 16 * 16);
  }

  lemma SymbolRoundTrip(n: nat)
    requires n < 64
    ensures SymbolValue(Symbol(n)) == Some(n)
  {
  }

  lemma SplitSextet(high: nat, unit: nat, low: nat)
    requires unit in {4, 16} && low < unit
    ensures (high * unit + low) / unit == high && (high * unit + low) % unit == low
  {
  }

  lemma DecodePair(g: Group, x: nat, y: nat, z: nat)
    requires Packs(g, x, y, z) && x < 256
    ensures DecodeGroups([Symbol(g.p), Symbol(g.q)]) == Some([x as char])
  {
    SymbolRoundTrip(g.p);
    SymbolRoundTrip(g.q);
  }

  lemma DecodeTriple(g: Group, x: nat, y: nat, z: nat)
    requires Packs(g, x, y, z) && x < 256 && y < 256
    ensures DecodeGroups([Symbol(g.p), Symbol(g.q), Symbol(g.r)]) == Some([x as char, y as char])
  {
    SymbolRoundTrip(g.p);
    SymbolRoundTrip(g.q);
    SymbolRoundTrip(g.r);
  }

  lemma DecodeWhole(g: Group, x: nat, y: nat, z: nat, more: string)
    requires Packs(g, x, y, z) && x < 256 && y < 256 && z < 256 && DecodeGroups(more).Some?
    ensures DecodeGroups([Symbol(g.p), Symbol(g.q), Symbol(g.r), Symbol(g.t)] + more)
            == Some([x as char, y as char, z as char] + DecodeGroups(more).value)
  {
    SymbolRoundTrip(g.p);
    SymbolRoundTrip(g.q);
    SymbolRoundTrip(g.r);
    SymbolRoundTrip(g.t);
    DropPrefix([Symbol(g.p), Symbol(g.q), Symbol(g.r), Symbol(g.t)], more);
  }

  /** What Encode64 writes first. */
  lemma FirstGroup(b: Bytes) returns (g: Group)
    requires b != ""
    ensures Packs(g, ByteAt(b, 0), ByteAt(b, 1), ByteAt(b, 2))
    ensures Encode64(b) == if |b| == 1 then [Symbol(g.p), Symbol(g.q)]
                           else if |b| == 2 then [Symbol(g.p), Symbol(g.q), Symbol(g.r)]
                           else [Symbol(g.p), Symbol(g.q), Symbol(g.r), Symbol(g.t)] + Encode64(b[3..])
  {
    g := Pack(ByteAt(b, 0), ByteAt(b, 1), ByteAt(b, 2));
  }

  lemma LastGroup(b: Bytes, g: Group)
    requires 1 <= |b| <= 2 && Packs(g, ByteAt(b, 0), ByteAt(b, 1), ByteAt(b, 2))
    ensures |b| == 1 ==> DecodeGroups([Symbol(g.p), Symbol(g.q)]) == Some(b)
    ensures |b| == 2 ==> DecodeGroups([Symbol(g.p), Symbol(g.q), Symbol(g.r)]) == Some(b)
  {
    if |b| == 1 {
      DecodePair(g, ByteAt(b, 0), ByteAt(b, 1), ByteAt(b, 2));
      assert b == [b[0]];
    } else {
      DecodeTriple(g, ByteAt(b, 0), ByteAt(b, 1), ByteAt(b, 2));
      assert b == [b[0], b[1]];
    }
  }

  lemma WholeGroup(b: Bytes, g: Group, more: string)
    requires |b| >= 3 && Packs(g, ByteAt(b, 0), ByteAt(b, 1), ByteAt(b, 2)) && DecodeGroups(more) == Some(b[3..])
    ensures DecodeGroups([Symbol(g.p), Symbol(g.q), Symbol(g.r), Symbol(g.t)] + more) == Some(b)
  {
    DecodeWhole(g, ByteAt(b, 0), ByteAt(b, 1), ByteAt(b, 2), more);
    assert b == [b[0], b[1], b[2]] + b[3..];
  }

  lemma {:induction false} GroupsRoundTrip(b: Bytes)
    ensures DecodeGroups(Encode64(b)) == Some(b)
  {
    if b != "" {
      var g := FirstGroup(b);
      if |b| <= 2 {
        LastGroup(b, g);
      } else {
        GroupsRoundTrip(b[3..]);
        WholeGroup(b, g, Encode64(b[3..]));
      }
    }
  }

  predicate AllSymbols(s: string) {
    forall c | c in s :: SymbolValue(c).Some?
  }

  lemma {:induction false} EncodedInAlphabet(b: Bytes)
    ensures AllSymbols(Encode64(b))
  {
    if |b| > 2 {
      EncodedInAlphabet(b[3..]);
    }
  }

  lemma {:induction false} NoLineBreaks(s: string)
    requires AllSymbols(s)
    ensures DropLineBreaks(s) == s
  {
    if s != "" {
      assert s[0] in s;
      NoLineBreaks(s[1..]);
    }
  }

  lemma AlphabetIsAscii(s: string)
    requires AllSymbols(s)
    ensures '.' !in s && IsAscii(s)
  {
    assert forall i | 0 <= i < |s| :: s[i] in s;
  }

  /** Decoding undoes encoding, and encoded text never contains a dot. */
  lemma Base64RoundTrip(b: Bytes)
    ensures Decode64(Encode64(b)) == Some(b)
    ensures '.' !in Encode64(b) && IsAscii(Encode64(b))
  {
    EncodedInAlphabet(b);
    NoLineBreaks(Encode64(b));
    AlphabetIsAscii(Encode64(b));
    GroupsRoundTrip(b);
  }
}
