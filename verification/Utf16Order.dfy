/** The property-name order of RFC 8785 section 3.2.3: comparison by UTF-16 code units. */
module Utf16Order {
  import opened Sequences

  function RuneUnits(c: char): (us: seq<int>)
    ensures 1 <= |us| <= 2
  {
    var r := c as int;
    if r < 0x10000 then [r]
    else [0xD800 + (r - 0x10000) / 0x400, 0xDC00 + (r - 0x10000) % 0x400]
  }

  /** utf16.Encode([]rune(s)). */
  function Units(s: string): seq<int> {
    if s == "" then [] else RuneUnits(s[0]) + Units(s[1..])
  }

  /** `k` is the first position at which `a` and `b` differ, or the end of one of them. */
  predicate Diverge<T(==)>(a: seq<T>, b: seq<T>, k: nat) {
    k <= |a| && k <= |b| && a[..k] == b[..k] && (k < |a| && k < |b| ==> a[k] != b[k])
  }

  predicate LessAt(a: seq<int>, b: seq<int>, k: nat)
    requires k <= |a| && k <= |b|
  {
    k < |b| && (k < |a| ==> a[k] < b[k])
  }

  /** Lexicographic order, stated by the place where the two sequences part. */
  ghost predicate Less(a: seq<int>, b: seq<int>) {
    exists k: nat :: Diverge(a, b, k) && LessAt(a, b, k)
  }

  ghost predicate Less16(s: string, t: string) {
    Less(Units(s), Units(t))
  }

  function CodePoints(s: string): (p: seq<int>)
    ensures |p| == |s| && forall i | 0 <= i < |s| :: p[i] == s[i] as int
  {
    seq(|s|, i requires 0 <= i < |s| => s[i] as int)
  }

  /** lessUTF16: the index loop over both code-unit sequences. */
  method LessUTF16(left: string, right: string) returns (less: bool)
    ensures less == Less16(left, right)
  {
    var leftUnits, rightUnits := Units(left), Units(right);
    var index := 0;
    while index < |leftUnits| && index < |rightUnits|
      invariant index <= |leftUnits| && index <= |rightUnits|
      invariant leftUnits[..index] == rightUnits[..index]
    {
      if leftUnits[index] != rightUnits[index] {
        LessByDivergence(leftUnits, rightUnits, index);
        return leftUnits[index] < rightUnits[index];
      }
      index := index + 1;
    }
    LessByDivergence(leftUnits, rightUnits, index);
    return |leftUnits| < |rightUnits|;
  }

  // ---- lexicographic order in general ----

  lemma DivergenceUnique<T>(a: seq<T>, b: seq<T>, k: nat, m: nat)
    requires Diverge(a, b, k) && Diverge(a, b, m)
    ensures k == m
  {
    assert forall i | 0 <= i < m :: a[i] == a[..m][i] == b[..m][i] == b[i];
    assert forall i | 0 <= i < k :: a[i] == a[..k][i] == b[..k][i] == b[i];
  }

  lemma LessByDivergence(a: seq<int>, b: seq<int>, k: nat)
    requires Diverge(a, b, k)
    ensures Less(a, b) <==> LessAt(a, b, k)
  {
    if Less(a, b) {
      var m: nat :| Diverge(a, b, m) && LessAt(a, b, m);
      DivergenceUnique(a, b, k, m);
    }
  }

  lemma {:induction false} SomeDivergence<T>(a: seq<T>, b: seq<T>) returns (k: nat)
    ensures Diverge(a, b, k)
  {
    k := 0;
    while k < |a| && k < |b| && a[k] == b[k]
      invariant k <= |a| && k <= |b| && a[..k] == b[..k]
    {
      k := k + 1;
    }
  }

  lemma LessTransitive(a: seq<int>, b: seq<int>, c: seq<int>)
    requires Less(a, b) && Less(b, c)
    ensures Less(a, c)
  {
    var k: nat :| Diverge(a, b, k) && LessAt(a, b, k);
    var m: nat :| Diverge(b, c, m) && LessAt(b, c, m);
    var n := if k < m then k else m;
    assert a[..n] == b[..k][..n] == b[..m][..n] == c[..n];
    assert k < m ==> b[..m][k] == c[..m][k];
    assert m < k ==> a[..k][m] == b[..k][m];
    assert Diverge(a, c, n) && LessAt(a, c, n);
  }

  lemma LessTrichotomy(a: seq<int>, b: seq<int>)
    ensures !(Less(a, b) && Less(b, a))
    ensures a != b ==> Less(a, b) || Less(b, a)
    ensures !Less(a, a)
  {
    var k := SomeDivergence(a, b);
    LessByDivergence(a, b, k);
    LessByDivergence(b, a, k);
    LessByDivergence(a, a, |a|);
    assert k == |a| == |b| ==> a == a[..k] == b[..k] == b;
  }

  // ---- UTF-16 ----

  predicate Supplementary(c: char) { c as int >= 0x10000 }

  predicate AboveSurrogates(c: char) { 0xE000 <= c as int <= 0xFFFF }

  /** The two scalars whose relative order UTF-16 reverses. */
  predicate Reversed(c: char, d: char) {
    (Supplementary(c) && AboveSurrogates(d)) || (AboveSurrogates(c) && Supplementary(d))
  }

  lemma RuneUnitsDiverge(c: char, d: char) returns (k: nat)
    requires c != d
    ensures k < |RuneUnits(c)| && k < |RuneUnits(d)| && Diverge(RuneUnits(c), RuneUnits(d), k)
    ensures (RuneUnits(c)[k] < RuneUnits(d)[k]) != (c < d) <==> Reversed(c, d)
  {
    k := if RuneUnits(c)[0] == RuneUnits(d)[0] then 1 else 0;
    var m := (c as int - 0x10000) / 0x400;
  }

  /** A common prefix of the texts is a common prefix of their units. */
  lemma {:induction false} UnitsConcat(s: string, t: string)
    ensures Units(s + t) == Units(s) + Units(t)
  {
    if s == "" {
      assert s + t == t;
    } else {
      UnitsConcat(s[1..], t);
      DropPrefix(s, t);
      Assoc(RuneUnits(s[0]), Units(s[1..]), Units(t));
    }
  }

  lemma FirstScalarsDiffer(s: string, t: string) returns (k: nat)
    requires s != "" && t != "" && s[0] != t[0]
    ensures k < |Units(s)| && k < |Units(t)| && Diverge(Units(s), Units(t), k)
    ensures (Units(s)[k] < Units(t)[k]) != (s[0] < t[0]) <==> Reversed(s[0], t[0])
  {
    k := RuneUnitsDiverge(s[0], t[0]);
    assert Units(s)[..k] == RuneUnits(s[0])[..k] && Units(t)[..k] == RuneUnits(t[0])[..k];
  }

  lemma {:induction false} UnitsInjective(s: string, t: string)
    requires Units(s) == Units(t)
    ensures s == t
  {
    if s != "" && t != "" {
      if s[0] != t[0] {
        var _ := FirstScalarsDiffer(s, t);
      } else {
        var n := |RuneUnits(s[0])|;
        assert Units(s)[n..] == Units(s[1..]) && Units(t)[n..] == Units(t[1..]);
        UnitsInjective(s[1..], t[1..]);
      }
    }
  }

  /** lessUTF16 is a strict total order on text. */
  lemma Less16StrictTotalOrder(s: string, t: string, u: string)
    ensures !Less16(s, s)
    ensures Less16(s, t) && Less16(t, u) ==> Less16(s, u)
    ensures !(Less16(s, t) && Less16(t, s))
    ensures s != t ==> Less16(s, t) || Less16(t, s)
  {
    LessTrichotomy(Units(s), Units(t));
    LessTrichotomy(Units(s), Units(s));
    if Less16(s, t) && Less16(t, u) {
      LessTransitive(Units(s), Units(t), Units(u));
    }
    if s != t && Units(s) == Units(t) {
      UnitsInjective(s, t);
    }
  }

  lemma DivergeAfterPrefix<T>(p: seq<T>, a: seq<T>, b: seq<T>, k: nat)
    requires Diverge(a, b, k)
    ensures Diverge(p + a, p + b, |p| + k)
  {
    assert (p + a)[..|p| + k] == p + a[..k] == p + b[..k] == (p + b)[..|p| + k];
  }

  lemma LessAfterPrefix(p: seq<int>, a: seq<int>, b: seq<int>, k: nat)
    requires Diverge(a, b, k)
    ensures Less(p + a, p + b) <==> LessAt(a, b, k)
  {
    DivergeAfterPrefix(p, a, b, k);
    LessByDivergence(p + a, p + b, |p| + k);
  }

  lemma UnitsSplit(s: string, k: nat)
    requires k <= |s|
    ensures Units(s) == Units(s[..k]) + Units(s[k..])
  {
    SplitAt(s, k);
    UnitsConcat(s[..k], s[k..]);
  }

  /** Code-unit order and code-point order disagree exactly when the first differing scalars are one
      at or above U+10000 and one in U+E000..U+FFFF. */
  lemma DisagreesWithCodePointOrder(s: string, t: string, k: nat)
    requires Diverge(s, t, k)
    ensures (Less16(s, t) != Less(CodePoints(s), CodePoints(t)))
            <==> k < |s| && k < |t| && Reversed(s[k], t[k])
  {
    CodePointsDiverge(s, t, k);
    LessByDivergence(CodePoints(s), CodePoints(t), k);
    UnitsSplit(s, k);
    UnitsSplit(t, k);
    var i := 0;
    if k < |s| && k < |t| {
      i := FirstScalarsDiffer(s[k..], t[k..]);
    }
    LessAfterPrefix(Units(s[..k]), Units(s[k..]), Units(t[k..]), i);
  }

  lemma CodePointsDiverge(s: string, t: string, k: nat)
    requires Diverge(s, t, k)
    ensures Diverge(CodePoints(s), CodePoints(t), k)
  {
    assert forall i | 0 <= i < k :: s[i] == s[..k][i] == t[..k][i] == t[i];
  }
}
