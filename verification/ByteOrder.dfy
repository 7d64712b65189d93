/** Go's string order, by bytes, and sort.Strings for distinct strings. */
module ByteOrder {
  import opened Sequences
  import opened Utf16Order
  import Utf8

  type Bytes = Utf8.Bytes

  /** a < b for Go strings. */
  predicate BytesLess(a: Bytes, b: Bytes) {
    b != "" && (a == "" || a[0] < b[0] || (a[0] == b[0] && BytesLess(a[1..], b[1..])))
  }

  /** The order of decoded text as Go strings. */
  predicate TextLess(s: string, t: string) {
    BytesLess(Utf8.Encode(s), Utf8.Encode(t))
  }

  lemma {:induction false} BytesLessByDivergence(a: Bytes, b: Bytes, k: nat)
    requires Diverge(a, b, k)
    ensures BytesLess(a, b) <==> LessAt(CodePoints(a), CodePoints(b), k)
  {
    if k > 0 {
      assert a[0] == a[..k][0] == b[..k][0] == b[0];
      assert a[1..][..k - 1] == a[..k][1..] == b[..k][1..] == b[1..][..k - 1];
      BytesLessByDivergence(a[1..], b[1..], k - 1);
    }
  }

  lemma BytesLessAsUnits(a: Bytes, b: Bytes)
    ensures BytesLess(a, b) <==> Less(CodePoints(a), CodePoints(b))
  {
    var k := SomeDivergence(a, b);
    BytesLessByDivergence(a, b, k);
    CodePointsDiverge(a, b, k);
    LessByDivergence(CodePoints(a), CodePoints(b), k);
  }

  // ---- byte order is code-point order ----

  lemma SamePrefix(p: Bytes, a: Bytes, b: Bytes)
    ensures BytesLess(p + a, p + b) <==> BytesLess(a, b)
  {
    if p == "" {
      assert p + a == a && p + b == b;
    } else {
      DropPrefix(p, a);
      DropPrefix(p, b);
      SamePrefix(p[1..], a, b);
    }
  }

  lemma SextetOrder(m: nat, n: nat)
    requires m < n
    ensures m / 64 <= n / 64
    ensures m / 64 == n / 64 ==> m % 64 < n % 64
  {
  }

  /** The first byte grows with the length. */
  lemma RuneHead(c: char)
    ensures var e := Utf8.EncodeRune(c);
            && (|e| == 1 <==> c as int < 0x80) && (|e| <= 2 <==> c as int < 0x800) && (|e| <= 3 <==> c as int < 0x10000)
            && (if |e| == 1 then e[0] as int < 0x80
                else if |e| == 2 then 0xC0 <= e[0] as int < 0xE0
                else if |e| == 3 then 0xE0 <= e[0] as int < 0xF0
                else 0xF0 <= e[0] as int)
  {
  }

  /** `x` and `y` first differ at `k`, where `x` has the smaller byte. */
  predicate SmallerAt(x: Bytes, y: Bytes, k: nat) {
    k < |x| && k < |y| && Diverge(x, y, k) && x[k] < y[k]
  }

  lemma SameLengthOrder(c: char, d: char) returns (k: nat)
    requires c < d && |Utf8.EncodeRune(c)| == |Utf8.EncodeRune(d)|
    ensures SmallerAt(Utf8.EncodeRune(c), Utf8.EncodeRune(d), k)
  {
    var m, n, last := c as int, d as int, |Utf8.EncodeRune(c)| - 1;
    SextetOrder(m, n);
    if last == 0 || m / 64 == n / 64 {
      k := last;
    } else {
      SextetOrder(m / 64, n / 64);
      if m / 64 / 64 == n / 64 / 64 {
        k := last - 1;
      } else {
        SextetOrder(m / 64 / 64, n / 64 / 64);
        k := if m / 64 / 64 / 64 == n / 64 / 64 / 64 then last - 2 else last - 3;
      }
    }
  }

  lemma RuneOrder(c: char, d: char) returns (k: nat)
    requires c < d
    ensures SmallerAt(Utf8.EncodeRune(c), Utf8.EncodeRune(d), k)
  {
    if |Utf8.EncodeRune(c)| == |Utf8.EncodeRune(d)| {
      k := SameLengthOrder(c, d);
    } else {
      RuneHead(c);
      RuneHead(d);
      k := 0;
    }
  }

  lemma SmallerMeansLess(x: Bytes, y: Bytes, k: nat, s: Bytes, t: Bytes)
    requires SmallerAt(x, y, k)
    ensures BytesLess(x + s, y + t)
  {
    assert (x + s)[..k] == x[..k] && (y + t)[..k] == y[..k];
    BytesLessByDivergence(x + s, y + t, k);
  }

  lemma HeadsDecide(s: string, t: string)
    requires s != "" && t != "" && s[0] < t[0]
    ensures TextLess(s, t)
  {
    var k := RuneOrder(s[0], t[0]);
    SmallerMeansLess(Utf8.EncodeRune(s[0]), Utf8.EncodeRune(t[0]), k, Utf8.Encode(s[1..]), Utf8.Encode(t[1..]));
  }

  /** Comparing texts by their UTF-8 bytes compares them by code points. */
  lemma {:induction false} ByteOrderIsCodePointOrder(s: string, t: string)
    ensures TextLess(s, t) <==> Less(CodePoints(s), CodePoints(t))
  {
    if s != "" && t != "" && s[0] == t[0] {
      SamePrefix(Utf8.EncodeRune(s[0]), Utf8.Encode(s[1..]), Utf8.Encode(t[1..]));
      ByteOrderIsCodePointOrder(s[1..], t[1..]);
      var k := SomeDivergence(CodePoints(s[1..]), CodePoints(t[1..]));
      LessAfterPrefix([s[0] as int], CodePoints(s[1..]), CodePoints(t[1..]), k);
      LessByDivergence(CodePoints(s[1..]), CodePoints(t[1..]), k);
      assert CodePoints(s) == [s[0] as int] + CodePoints(s[1..]);
      assert CodePoints(t) == [t[0] as int] + CodePoints(t[1..]);
    } else {
      LessByDivergence(CodePoints(s), CodePoints(t), 0);
      if s != "" && t != "" {
        if s[0] < t[0] {
          HeadsDecide(s, t);
        } else {
          HeadsDecide(t, s);
          TextLessIsStrict(t, s, t);
        }
      }
    }
  }

  lemma TextLessIsStrict(s: string, t: string, u: string)
    ensures !TextLess(s, s) && !(TextLess(s, t) && TextLess(t, s))
    ensures s != t ==> TextLess(s, t) || TextLess(t, s)
    ensures TextLess(s, t) && TextLess(t, u) ==> TextLess(s, u)
  {
    var a, b, c := Utf8.Encode(s), Utf8.Encode(t), Utf8.Encode(u);
    BytesLessAsUnits(a, a);
    BytesLessAsUnits(a, b);
    BytesLessAsUnits(b, a);
    BytesLessAsUnits(b, c);
    BytesLessAsUnits(a, c);
    LessTrichotomy(CodePoints(a), CodePoints(b));
    LessTrichotomy(CodePoints(a), CodePoints(a));
    if TextLess(s, t) && TextLess(t, u) {
      LessTransitive(CodePoints(a), CodePoints(b), CodePoints(c));
    }
    if s != t && a == b {
      Utf8.EncodeInjective(s, t);
    }
    if CodePoints(a) == CodePoints(b) {
      SameCodePoints(a, b);
    }
  }

  lemma SameCodePoints(a: string, b: string)
    requires CodePoints(a) == CodePoints(b)
    ensures a == b
  {
    assert forall i | 0 <= i < |a| :: CodePoints(a)[i] == CodePoints(b)[i];
  }
}
