/** The scanner's purpose: on accepted text decoding substitutes nothing, in any literal of the document. */
module JcsFaithful {
  import opened JsonGrammar
  import opened Jcs
  import opened JcsScanner
  import opened Utf16Order
  import Utf8

  // ---- every escape the parser produces is a code unit ----

  predicate CodeUnits(us: seq<Unit>) {
    forall i | 0 <= i < |us| && us[i].Hex? :: 0 <= us[i].code < 0x10000
  }

  predicate DocCodeUnits(d: Doc) {
    match d
    case DStr(us) => CodeUnits(us)
    case DArr(items) => ItemsCodeUnits(items)
    case DObj(members) => MembersCodeUnits(members)
    case _ => true
  }

  predicate ItemsCodeUnits(ds: seq<Doc>) {
    ds != [] ==> DocCodeUnits(ds[0]) && ItemsCodeUnits(ds[1..])
  }

  predicate MembersCodeUnits(ms: seq<Member>) {
    ms != [] ==> CodeUnits(ms[0].key) && DocCodeUnits(ms[0].value) && MembersCodeUnits(ms[1..])
  }

  lemma {:induction false} LexStringCodeUnits(s: string)
    requires LexString(s).Some?
    ensures CodeUnits(LexString(s).value.0)
    decreases |s|
  {
    if s[0] == '\\' {
      if s[1] == 'u' {
        HexCodeIsCodeUnit(s[2..]);
        LexStringCodeUnits(s[6..]);
      } else {
        LexStringCodeUnits(s[2..]);
      }
    } else if s[0] != '"' {
      LexStringCodeUnits(s[1..]);
    }
  }

  lemma {:induction false} ParsedCodeUnits(s: string)
    requires ParseValue(s).Some?
    ensures DocCodeUnits(ParseValue(s).value.0)
    decreases |s|, 0
  {
    var t := SkipSpace(s);
    if StartsWith(t, '[') {
      if !StartsWith(SkipSpace(t[1..]), ']') {
        ElementsCodeUnits(t[1..]);
      }
    } else if StartsWith(t, '{') {
      if !StartsWith(SkipSpace(t[1..]), '}') {
        ObjectCodeUnits(t[1..]);
      }
    } else if StartsWith(t, '"') {
      LexStringCodeUnits(t[1..]);
    }
  }

  lemma {:induction false} ElementsCodeUnits(s: string)
    requires ParseElements(s).Some?
    ensures ItemsCodeUnits(ParseElements(s).value.0)
    decreases |s|, 1
  {
    ParsedCodeUnits(s);
    var t := SkipSpace(ParseValue(s).value.1);
    if StartsWith(t, ',') {
      ElementsCodeUnits(t[1..]);
    }
  }

  lemma {:induction false} ObjectCodeUnits(s: string)
    requires ParseMembers(s).Some?
    ensures MembersCodeUnits(ParseMembers(s).value.0)
    decreases |s|, 1
  {
    var t := SkipSpace(s);
    LexStringCodeUnits(t[1..]);
    ParsedCodeUnits(SkipSpace(LexString(t[1..]).value.1)[1..]);
    var u := SkipSpace(ParseMember(s).value.1);
    if StartsWith(u, ',') {
      ObjectCodeUnits(u[1..]);
    }
  }

  // ---- nothing is substituted ----

  /** The decoded literal spells exactly the code units that were written. */
  predicate Unsubstituted(us: seq<Unit>) {
    Units(Unquote(us)) == LiteralUnits(us)
  }

  /** Unsubstituted, for every string literal of a document, keys included. */
  predicate NothingSubstituted(d: Doc) {
    match d
    case DStr(us) => Unsubstituted(us)
    case DArr(items) => NoItemSubstituted(items)
    case DObj(members) => NoMemberSubstituted(members)
    case _ => true
  }

  predicate NoItemSubstituted(ds: seq<Doc>) {
    ds != [] ==> NothingSubstituted(ds[0]) && NoItemSubstituted(ds[1..])
  }

  predicate NoMemberSubstituted(ms: seq<Member>) {
    ms != [] ==> Unsubstituted(ms[0].key) && NothingSubstituted(ms[0].value) && NoMemberSubstituted(ms[1..])
  }

  lemma {:induction false} PairedMeansUnsubstituted(d: Doc)
    requires DocCodeUnits(d)
    ensures AllPaired(d) <==> NothingSubstituted(d)
    decreases d
  {
    match d
    case DStr(us) => DecodingIsFaithful(us);
    case DArr(items) => ItemsUnsubstituted(items);
    case DObj(members) => MembersUnsubstituted(members);
    case _ =>
  }

  lemma {:induction false} ItemsUnsubstituted(ds: seq<Doc>)
    requires ItemsCodeUnits(ds)
    ensures ItemsPaired(ds) <==> NoItemSubstituted(ds)
    decreases ds
  {
    if ds != [] {
      PairedMeansUnsubstituted(ds[0]);
      ItemsUnsubstituted(ds[1..]);
    }
  }

  lemma {:induction false} MembersUnsubstituted(ms: seq<Member>)
    requires MembersCodeUnits(ms)
    ensures MembersPaired(ms) <==> NoMemberSubstituted(ms)
    decreases ms
  {
    if ms != [] {
      DecodingIsFaithful(ms[0].key);
      PairedMeansUnsubstituted(ms[0].value);
      MembersUnsubstituted(ms[1..]);
    }
  }

  /** On a complete JSON text the scanner accepts exactly when decoding replaces nothing: every string
      literal, keys included, decodes to the very code units it spells. */
  lemma ScannerGuardsDecoding(raw: Utf8.Bytes, t: string)
    requires raw == Utf8.Encode(t)
    requires ParseValue(t).Some? && SkipSpace(ParseValue(t).value.1) == ""
    ensures Scan(raw, false) <==> NothingSubstituted(ParseValue(t).value.0)
  {
    ScannerIsExact(raw, t);
    ParsedCodeUnits(t);
    PairedMeansUnsubstituted(ParseValue(t).value.0);
  }
}
