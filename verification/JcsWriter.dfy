/** writeJCS and CanonicalizeJSON: the appending writer, the in-place key sort, and the whole
    engine put together. */
module JcsWriter {
  import opened Wrappers
  import opened Sequences
  import opened GoText
  import opened JsonGrammar
  import opened Jcs
  import opened Utf16Order
  import opened JcsDecoder
  import JcsScanner
  import Utf8

  /** strings.Builder. */
  class Builder {
    var text: string

    constructor ()
      ensures text == ""
    {
      text := "";
    }

    method WriteString(s: string)
      modifies this
      ensures text == old(text) + s
    {
      text := text + s;
    }
  }

  /** writeJCSString. */
  method WriteJCSString(builder: Builder, value: string)
    modifies builder
    ensures builder.text == old(builder.text) + Quote(value)
  {
    builder.WriteString("\"");
    ghost var start := builder.text;
    for i := 0 to |value|
      invariant builder.text == start + QuoteBody(value[..i])
    {
      builder.WriteString(QuoteRune(value[i]));
      QuoteBodyStep(start, value, i);
    }
    assert value[..|value|] == value;
    builder.WriteString("\"");
    Assoc(old(builder.text), "\"", QuoteBody(value));
    Assoc(old(builder.text), "\"" + QuoteBody(value), "\"");
  }

  lemma QuoteBodyStep(start: string, value: string, i: nat)
    requires i < |value|
    ensures start + QuoteBody(value[..i]) + QuoteRune(value[i]) == start + QuoteBody(value[..i + 1])
  {
    QuoteBodyAppend(value[..i], value[i]);
    assert value[..i + 1] == value[..i] + [value[i]];
    Assoc(start, QuoteBody(value[..i]), QuoteRune(value[i]));
  }

  lemma {:induction false} QuoteBodyAppend(s: string, c: char)
    ensures QuoteBody(s + [c]) == QuoteBody(s) + QuoteRune(c)
  {
    if s == "" {
      assert s + [c] == [c] && [c][1..] == "";
    } else {
      assert (s + [c])[1..] == s[1..] + [c];
      QuoteBodyAppend(s[1..], c);
    }
  }

  /** validateJCSKey. */
  method ValidateJCSKey(key: string) returns (ok: bool)
    ensures ok == KeyAllowed(key)
  {
    for i := 0 to |key|
      invariant forall j | 0 <= j < i :: !IsControl(key[j])
    {
      if IsControl(key[i]) {
        return false;
      }
    }
    return true;
  }

  // ---- the key sort ----

  /** `keys` is in order, except perhaps that the entry at `hole` belongs further to the left. */
  ghost predicate OrderedButFor(keys: seq<string>, n: nat, hole: int)
    requires n <= |keys|
  {
    forall i, j | 0 <= i < j < n && j != hole :: !Less16(keys[j], keys[i])
  }

  lemma NotLessTransitive(a: string, b: string, c: string)
    requires !Less16(b, a) && !Less16(c, b)
    ensures !Less16(c, a)
  {
    Less16StrictTotalOrder(c, a, b);
    Less16StrictTotalOrder(a, b, c);
    Less16StrictTotalOrder(b, c, a);
  }

  lemma SwapKeepsOrder(keys: seq<string>, n: nat, j: nat)
    requires 0 < j < n <= |keys| && OrderedButFor(keys, n, j) && Less16(keys[j], keys[j - 1])
    ensures OrderedButFor(keys[j := keys[j - 1]][j - 1 := keys[j]], n, j - 1)
  {
    Less16StrictTotalOrder(keys[j], keys[j - 1], keys[j]);
  }

  lemma HoleFits(keys: seq<string>, n: nat, j: nat)
    requires j < n <= |keys| && OrderedButFor(keys, n, j)
    requires j > 0 ==> !Less16(keys[j], keys[j - 1])
    ensures OrderedButFor(keys, n, -1)
  {
    forall i | 0 <= i < j
      ensures !Less16(keys[j], keys[i])
    {
      if i < j - 1 {
        NotLessTransitive(keys[i], keys[j - 1], keys[j]);
      }
    }
  }

  /** sortJCSKeys: sorts in place by lessUTF16. */
  method SortJCSKeys(keys: array<string>)
    modifies keys
    ensures OrderedButFor(keys[..], keys.Length, -1)
    ensures multiset(keys[..]) == multiset(old(keys[..]))
  {
    var n := 0;
    while n < keys.Length
      invariant n <= keys.Length
      invariant OrderedButFor(keys[..], n, -1)
      invariant multiset(keys[..]) == multiset(old(keys[..]))
    {
      var j := n;
      n := n + 1;
      var smaller := false;
      if j > 0 {
        smaller := LessUTF16(keys[j], keys[j - 1]);
      }
      while smaller
        invariant 0 <= j < n <= keys.Length
        invariant OrderedButFor(keys[..], n, j)
        invariant smaller == (j > 0 && Less16(keys[j], keys[j - 1]))
        invariant multiset(keys[..]) == multiset(old(keys[..]))
        decreases j
      {
        SwapKeepsOrder(keys[..], n, j);
        ghost var swapped := keys[..][j := keys[j - 1]][j - 1 := keys[j]];
        keys[j], keys[j - 1] := keys[j - 1], keys[j];
        assert keys[..] == swapped;
        j := j - 1;
        smaller := false;
        if j > 0 {
          smaller := LessUTF16(keys[j], keys[j - 1]);
        }
      }
      HoleFits(keys[..], n, j);
    }
  }

  /** There is only one way to put a set of keys in order, whatever order they were found in. */
  lemma {:induction false} SortedKeysUnique(keys: seq<string>, all: set<string>)
    requires OrderedButFor(keys, |keys|, -1)
    requires forall i, j | 0 <= i < j < |keys| :: keys[i] != keys[j]
    requires forall k :: k in keys <==> k in all
    ensures keys == SortedKeys(all)
  {
    forall i, j | 0 <= i < j < |keys|
      ensures Less16(keys[i], keys[j])
    {
      Less16StrictTotalOrder(keys[i], keys[j], keys[i]);
    }
    SortedUnique(keys, SortedKeys(all));
  }

  lemma {:induction false} SortedUnique(a: seq<string>, b: seq<string>)
    requires Sorted(a) && Sorted(b)
    requires forall k :: k in a <==> k in b
    ensures a == b
  {
    if a == [] {
      NonemptyHasMember(b);
    } else {
      assert a[0] in b;
      assert b[0] in a;
      SameLeast(a, b);
      forall k
        ensures k in a[1..] <==> k in b[1..]
      {
        TailWithoutHead(a, k);
        TailWithoutHead(b, k);
      }
      SortedUnique(a[1..], b[1..]);
      assert a == [a[0]] + a[1..] && b == [b[0]] + b[1..];
    }
  }

  lemma NonemptyHasMember(s: seq<string>)
    ensures s != [] ==> exists k :: k in s
  {
    if s != [] {
      assert s[0] in s;
    }
  }

  lemma SameLeast(a: seq<string>, b: seq<string>)
    requires Sorted(a) && Sorted(b) && a != [] && b != [] && a[0] in b && b[0] in a
    ensures a[0] == b[0]
  {
    var i: nat :| i < |b| && b[i] == a[0];
    var j: nat :| j < |a| && a[j] == b[0];
    Less16StrictTotalOrder(a[0], b[0], a[0]);
  }

  lemma TailWithoutHead(a: seq<string>, k: string)
    requires Sorted(a) && a != []
    ensures k in a[1..] <==> k in a && k != a[0]
  {
    Less16StrictTotalOrder(a[0], a[0], a[0]);
    assert forall i | 0 < i < |a| :: a[i] == a[1..][i - 1];
  }

  // ---- the writer ----

  lemma {:induction false} ItemsTextAppend(items: seq<Value>, v: Value)
    ensures ItemsText(items + [v]) == ItemsText(items) + (if items == [] then "" else ",") + Text(v)
  {
    if items == [] {
      assert items + [v] == [v];
    } else {
      assert (items + [v])[1..] == items[1..] + [v];
      ItemsTextAppend(items[1..], v);
    }
  }

  lemma Regroup(a: string, b: string, c: string)
    ensures a + ("," + (b + "," + c)) == a + ("," + b) + "," + c
  {
  }

  lemma MembersTextStep(keys: seq<string>, obj: Value)
    requires obj.Obj? && |keys| > 1 && forall k | k in keys :: k in obj.members
    ensures MembersText(keys, obj) == MemberText(keys[0], obj) + ("," + MembersText(keys[1..], obj))
  {
  }

  lemma {:induction false} MembersTextAppend(keys: seq<string>, key: string, obj: Value)
    requires obj.Obj? && key in obj.members && forall k | k in keys :: k in obj.members
    ensures MembersText(keys + [key], obj)
            == MembersText(keys, obj) + (if keys == [] then "" else ",") + MemberText(key, obj)
    decreases |keys|
  {
    if keys == [] {
      assert keys + [key] == [key];
    } else {
      var more := keys + [key];
      var first := MemberText(keys[0], obj);
      MembersTextAppend(keys[1..], key, obj);
      MembersTextStep(more, obj);
      assert more[1..] == keys[1..] + [key];
      if |keys| > 1 {
        MembersTextStep(keys, obj);
        Regroup(first, MembersText(keys[1..], obj), MemberText(key, obj));
      }
    }
  }

  /** writeJCS: appends the canonical text, or reports a property name with a control character. */
  method WriteJCS(builder: Builder, value: Value) returns (error: Option<JcsError>)
    modifies builder
    ensures error == if KeysAllowed(value) then None else Some(ControlKey)
    ensures error.None? ==> builder.text == old(builder.text) + Text(value)
    decreases value, 3
  {
    error := None;
    match value
    case Null => builder.WriteString("null");
    case Bool(b) => builder.WriteString(if b then "true" else "false");
    case Str(s) => WriteJCSString(builder, s);
    case Num(literal) => builder.WriteString(literal);
    case Arr(items) => error := WriteArray(builder, items);
    case Obj(members) =>
      var keys: array<string>;
      error, keys := CollectKeys(members);
      if error.None? {
        ghost var found := keys[..];
        SortJCSKeys(keys);
        KeysInOrder(found, keys[..], members.Keys);
        error := WriteObject(builder, value, keys[..]);
      }
  }

  /** `keys` lists the members of `all`, each once. */
  ghost predicate Lists(keys: seq<string>, all: set<string>) {
    && (forall k :: k in keys <==> k in all)
    && (forall i, j | 0 <= i < j < |keys| :: keys[i] != keys[j])
  }

  lemma KeysInOrder(found: seq<string>, keys: seq<string>, all: set<string>)
    requires Lists(found, all) && multiset(keys) == multiset(found)
    requires OrderedButFor(keys, |keys|, -1)
    ensures keys == SortedKeys(all)
  {
    forall k
      ensures k in keys <==> k in found
    {
      assert k in multiset(keys) <==> k in multiset(found);
    }
    DistinctByCount(found, keys);
    SortedKeysUnique(keys, all);
  }

  lemma {:induction false} CountOfDistinct(s: seq<string>, k: string)
    requires forall i, j | 0 <= i < j < |s| :: s[i] != s[j]
    ensures multiset(s)[k] <= 1
  {
    if s != [] {
      assert s == [s[0]] + s[1..];
      CountOfDistinct(s[1..], k);
    }
  }

  lemma DistinctByCount(found: seq<string>, keys: seq<string>)
    requires forall i, j | 0 <= i < j < |found| :: found[i] != found[j]
    requires multiset(keys) == multiset(found)
    ensures forall i, j | 0 <= i < j < |keys| :: keys[i] != keys[j]
  {
    forall i, j | 0 <= i < j < |keys|
      ensures keys[i] != keys[j]
    {
      assert keys == keys[..j] + [keys[j]] + keys[j + 1..];
      assert keys[i] in keys[..j];
      CountOfDistinct(found, keys[j]);
    }
  }

  method WriteArray(builder: Builder, items: seq<Value>) returns (error: Option<JcsError>)
    modifies builder
    ensures error == if KeysAllowed(Arr(items)) then None else Some(ControlKey)
    ensures error.None? ==> builder.text == old(builder.text) + Text(Arr(items))
    decreases items, 3
  {
    builder.WriteString("[");
    ghost var start := builder.text;
    for i := 0 to |items|
      invariant forall j | 0 <= j < i :: KeysAllowed(items[j])
      invariant builder.text == start + ItemsText(items[..i])
    {
      if i > 0 {
        builder.WriteString(",");
      }
      error := WriteJCS(builder, items[i]);
      if error.Some? {
        return;
      }
      ItemsTextAppend(items[..i], items[i]);
      assert items[..i + 1] == items[..i] + [items[i]];
      Bracketed(start, ItemsText(items[..i]), if i > 0 then "," else "", Text(items[i]));
    }
    assert items[..|items|] == items;
    builder.WriteString("]");
    Bracketed(old(builder.text), "[", ItemsText(items), "]");
    return None;
  }

  /** The range loop over the map: keys in whatever order the iteration yields them. */
  method CollectKeys(members: map<string, Value>) returns (error: Option<JcsError>, keys: array<string>)
    ensures error == if forall k | k in members :: KeyAllowed(k) then None else Some(ControlKey)
    ensures error.None? ==> Lists(keys[..], members.Keys)
    ensures fresh(keys)
  {
    var found: seq<string> := [];
    var remaining := members.Keys;
    while remaining != {}
      invariant remaining <= members.Keys
      invariant Lists(found, members.Keys - remaining)
      invariant forall k | k in found :: KeyAllowed(k)
      decreases remaining
    {
      var key :| key in remaining;
      var ok := ValidateJCSKey(key);
      if !ok {
        keys := new string[0];
        return Some(ControlKey), keys;
      }
      ListsMore(found, members.Keys, remaining, key);
      remaining := remaining - {key};
      found := found + [key];
    }
    assert members.Keys - {} == members.Keys;
    keys := new string[|found|](i requires 0 <= i < |found| => found[i]);
    assert keys[..] == found;
    return None, keys;
  }

  lemma ListsMore(found: seq<string>, all: set<string>, remaining: set<string>, key: string)
    requires remaining <= all && key in remaining && Lists(found, all - remaining)
    ensures Lists(found + [key], all - (remaining - {key}))
  {
    assert key !in found;
  }

  method WriteMember(builder: Builder, value: Value, key: string) returns (error: Option<JcsError>)
    requires value.Obj? && key in value.members
    modifies builder
    ensures error == if KeysAllowed(value.members[key]) then None else Some(ControlKey)
    ensures error.None? ==> builder.text == old(builder.text) + MemberText(key, value)
    decreases value, 0
  {
    WriteJCSString(builder, key);
    builder.WriteString(":");
    error := WriteJCS(builder, value.members[key]);
    assert error.None? ==> builder.text == old(builder.text) + Quote(key) + ":" + Text(value.members[key]);
  }

  lemma KeysAllowedByList(value: Value, keys: seq<string>)
    requires value.Obj? && keys == SortedKeys(value.members.Keys)
    requires forall k | k in value.members :: KeyAllowed(k)
    requires forall j | 0 <= j < |keys| :: KeysAllowed(value.members[keys[j]])
    ensures KeysAllowed(value)
  {
    forall k | k in value.members
      ensures KeysAllowed(value.members[k])
    {
      assert k in keys;
    }
  }

  lemma Bracketed(before: string, front: string, inside: string, back: string)
    ensures before + front + inside + back == before + (front + inside + back)
    ensures inside == "" ==> before + front + back == before + (front + inside + back)
  {
    assert inside == "" ==> front + inside == front;
  }

  lemma ObjectText(value: Value)
    requires value.Obj?
    ensures Text(value) == "{" + MembersText(SortedKeys(value.members.Keys), value) + "}"
  {
  }

  ghost predicate AllIn(keys: seq<string>, obj: Value) {
    obj.Obj? && forall j | 0 <= j < |keys| :: keys[j] in obj.members
  }

  ghost function MembersPrefix(keys: seq<string>, i: nat, obj: Value): string
    requires AllIn(keys, obj) && i <= |keys|
  {
    MembersText(keys[..i], obj)
  }

  lemma MembersPrefixStep(keys: seq<string>, i: nat, obj: Value, start: string)
    requires AllIn(keys, obj) && i < |keys|
    ensures start + MembersPrefix(keys, i + 1, obj)
            == start + MembersPrefix(keys, i, obj) + (if i == 0 then "" else ",") + MemberText(keys[i], obj)
  {
    MembersTextAppend(keys[..i], keys[i], obj);
    assert keys[..i + 1] == keys[..i] + [keys[i]];
    Bracketed(start, MembersPrefix(keys, i, obj), if i == 0 then "" else ",", MemberText(keys[i], obj));
  }

  method WriteMembers(builder: Builder, value: Value, keys: seq<string>) returns (error: Option<JcsError>)
    requires AllIn(keys, value)
    modifies builder
    ensures error == if forall j | 0 <= j < |keys| :: KeysAllowed(value.members[keys[j]])
                     then None else Some(ControlKey)
    ensures error.None? ==> builder.text == old(builder.text) + MembersPrefix(keys, |keys|, value)
    decreases value, 1
  {
    ghost var start := builder.text;
    for i := 0 to |keys|
      invariant forall j | 0 <= j < i :: KeysAllowed(value.members[keys[j]])
      invariant builder.text == start + MembersPrefix(keys, i, value)
    {
      MembersPrefixStep(keys, i, value, start);
      if i > 0 {
        builder.WriteString(",");
      } else {
        assert builder.text == builder.text + "";
      }
      error := WriteMember(builder, value, keys[i]);
      if error.Some? {
        return;
      }
    }
    return None;
  }

  method WriteObject(builder: Builder, value: Value, keys: seq<string>) returns (error: Option<JcsError>)
    requires value.Obj? && keys == SortedKeys(value.members.Keys)
    requires forall k | k in value.members :: KeyAllowed(k)
    modifies builder
    ensures error == if KeysAllowed(value) then None else Some(ControlKey)
    ensures error.None? ==> builder.text == old(builder.text) + Text(value)
    decreases value, 2
  {
    builder.WriteString("{");
    error := WriteMembers(builder, value, keys);
    if error.None? {
      builder.WriteString("}");
      KeysAllowedByList(value, keys);
      assert keys[..|keys|] == keys;
      ObjectText(value);
      Bracketed(old(builder.text), "{", MembersText(keys, value), "}");
    }
  }

  // ---- CanonicalizeJSON ----

  /** The text that is decoded: blank input stands for {}. */
  function Effective(t: string): string {
    if Blank(t) then "{}" else t
  }

  /** CanonicalizeJSON.  Acceptance and the canonical text are exactly Canonicalize's; when the value
      is grammatical the error is the first rule broken in document order as well. */
  method CanonicalizeJSON(raw: Utf8.Bytes) returns (r: Outcome<Utf8.Bytes>)
    ensures r.Ok? == Canonicalize(raw).Ok?
    ensures r.Ok? ==> r == Canonicalize(raw)
    ensures Utf8.Valid(raw) && ParseValue(Effective(Utf8.Decode(raw).value)).Some? ==> r == Canonicalize(raw)
    ensures !Utf8.Valid(raw) || !Scan(raw, false) ==> r == Canonicalize(raw)
  {
    var scanError := JcsScanner.ValidateRawJSONUnicode(raw);
    if scanError.Some? {
      return Err(scanError.value);
    }
    var decoder := new Decoder(Effective(Utf8.Decode(raw).value));
    var value := DecodeJSONValue(decoder);
    if value.Err? {
      return Err(value.error);
    }
    var more := decoder.More();
    if more {
      return Err(TrailingData);
    }
    var builder := new Builder();
    var writeError := WriteJCS(builder, value.value);
    if writeError.Some? {
      return Err(writeError.value);
    }
    assert ReadValue(raw) == Ok(value.value);
    assert builder.text == Text(value.value);
    return Ok(Utf8.Encode(builder.text));
  }
}
