/** A text rejected for a number that the locator cannot find any more. */
module GatewayWitness {
  import opened Wrappers
  import opened GoText
  import opened GoStrings
  import opened JsonGrammar
  import opened JsonLocality
  import opened Jcs
  import opened GoJson
  import opened NumberLocator
  import opened GatewayRequest
  import JcsRoundTrip
  import JcsScanner
  import JcsTrailing
  import Utf8

  const KEY: seq<Unit> := [Raw('a')]

  function MemberA(value: string): string {
    "\"a\":" + value
  }

  lemma LexKey()
    ensures LexString("a\"") == Some((KEY, ""))
  {
    assert "\""[1..] == "" && "a\""[1..] == "\"";
    assert LexString("\"") == Some(([], ""));
    assert [Raw('a')] + [] == KEY;
  }

  lemma ParseMemberA(value: string)
    requires ParseValue(value).Some?
    ensures ParseMember(MemberA(value)) == Some((Member(KEY, ParseValue(value).value.0), ParseValue(value).value.1))
  {
    LexKey();
    ParseMemberOf("a\"", KEY, value);
    assert "\"" + ("a\"" + (":" + value)) == MemberA(value);
  }

  /** An object whose one key is written twice. */
  function Twice(first: string, second: string): string {
    "{" + MemberA(first + ("," + MemberA(second + "}")))
  }

  lemma ParseSecond(second: string, e: Doc)
    requires ParseValue(second) == Some((e, ""))
    ensures ParseMembers(MemberA(second + "}")) == Some(([Member(KEY, e)], ""))
  {
    ParseValueLocal(second, "}");
    assert "" + "}" == "}" && "}" + "" == "}";
    ParseMemberA(second + "}");
    ParseLastMember(MemberA(second + "}"), Member(KEY, e), "");
  }

  lemma ParseFirst(first: string, d: Doc, last: string)
    requires ParseValue(first) == Some((d, "")) && ParseMembers(last).Some?
    ensures ParseMembers(MemberA(first + ("," + last)))
            == Some(([Member(KEY, d)] + ParseMembers(last).value.0, ParseMembers(last).value.1))
  {
    ParseValueLocal(first, "," + last);
    assert "" + ("," + last) == "," + last;
    ParseMemberA(first + ("," + last));
    ParseMoreMembers(MemberA(first + ("," + last)), Member(KEY, d), last);
  }

  lemma ParseTwice(first: string, second: string, d: Doc, e: Doc)
    requires ParseValue(first) == Some((d, "")) && ParseValue(second) == Some((e, ""))
    ensures ParseValue(Twice(first, second)) == Some((DObj([Member(KEY, d), Member(KEY, e)]), ""))
  {
    var last := MemberA(second + "}");
    ParseSecond(second, e);
    ParseFirst(first, d, last);
    assert [Member(KEY, d)] + [Member(KEY, e)] == [Member(KEY, d), Member(KEY, e)];
    ParseObject(MemberA(first + ("," + last)));
  }

  lemma ParseFraction()
    ensures ParseValue("1.5") == Some((DNum("1.5"), ""))
  {
    var s := "1.5";
    assert s[1..] == ".5" && ".5"[1..] == "5" && "5"[1..] == "";
    assert AfterInteger(s) == Some(".5");
    assert AfterFraction(".5") == Some("");
    assert s[..3] == s;
  }

  lemma ParseTwo()
    ensures ParseValue("2") == Some((DNum("2"), "")) && ParseInt64("2") == Some(2)
  {
    assert "2" + "" == "2";
    JcsRoundTrip.ParseNumber("2", "");
    assert "2"[..0] == "" && DigitsValue("2") == 2;
  }

  lemma KeyReads()
    ensures Unquote(KEY) == "a" && Paired(KEY)
  {
    assert KEY[1..] == [];
  }

  lemma FractionIsRefused()
    ensures NumberValue("1.5") == Err(NumberForm)
  {
    assert "1.5"[1] == '.';
  }

  function Members(first: Doc, second: Doc): seq<Member> {
    [Member(KEY, first), Member(KEY, second)]
  }

  lemma MembersSplit(first: Doc, second: Doc)
    ensures Members(first, second)[1..] == [Member(KEY, second)] && [Member(KEY, second)][1..] == []
  {
  }

  lemma TwicePaired(first: Doc, second: Doc)
    requires AllPaired(first) && AllPaired(second)
    ensures AllPaired(DObj(Members(first, second)))
  {
    MembersSplit(first, second);
    KeyReads();
    assert MembersPaired([Member(KEY, second)][1..]);
    assert MembersPaired(Members(first, second)[1..]);
  }

  /** The strict decoder stops at the first of the two; the lenient one keeps the second. */
  lemma TwiceDecoded(first: Doc, second: Doc)
    ensures Elaborate(first).Err? ==> Elaborate(DObj(Members(first, second))) == Err(Elaborate(first).error)
    ensures Lenient(DObj(Members(first, second))) == Obj(map["a" := Lenient(second)])
  {
    MembersSplit(first, second);
    KeyReads();
    assert LenientMembers([Member(KEY, second)], map["a" := Lenient(first)]) == map["a" := Lenient(second)];
  }

  lemma OverwrittenDoc()
    ensures var d := DObj(Members(DNum("1.5"), DNum("2")));
            Elaborate(d) == Err(NumberForm) && NoBadNumber(Lenient(d)) && AllPaired(d)
  {
    FractionIsRefused();
    ParseTwo();
    NumberAgrees("2");
    TwicePaired(DNum("1.5"), DNum("2"));
    TwiceDecoded(DNum("1.5"), DNum("2"));
    MembersBad(map["a" := Num("2")]);
  }

  /** {"a":1.5,"a":2}: rejected for a number, with no bad number left in the decoded tree to report. */
  lemma OverwrittenNumberIsNotLocated(raw: Bytes)
    requires raw == Utf8.Encode(Twice("1.5", "2"))
    ensures Canonicalize(raw) == Err(NumberForm)
    ensures DecodeGatewayJSONValue(raw, INPUT).Ok? && NoBadNumber(DecodeGatewayJSONValue(raw, INPUT).value)
  {
    var t := Twice("1.5", "2");
    ParseFraction();
    ParseTwo();
    ParseTwice("1.5", "2", DNum("1.5"), DNum("2"));
    OverwrittenDoc();
    Utf8.DecodeEncode(t);
    RunesOfValid(raw);
    JcsScanner.ScannerIsExact(raw, t);
    JcsTrailing.NotBlank(t);
  }
}
