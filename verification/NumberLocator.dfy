/** locateUncanonicalizableNumber: which number of a decoded tree is reported, and when. */
module NumberLocator {
  import opened Wrappers
  import opened GoText
  import opened GoStrings
  import opened JsonGrammar
  import opened Jcs
  import opened Utf16Order
  import opened ByteOrder

  // ---- the tree encoding/json builds ----

  /** json.Decoder with UseNumber into an `any`: numbers are not checked, and of members with one key
      the last wins. */
  function Lenient(d: Doc): Value {
    match d
    case DNull => Null
    case DBool(b) => Bool(b)
    case DNum(literal) => Num(literal)
    case DStr(us) => Str(Unquote(us))
    case DArr(items) => Arr(LenientItems(items))
    case DObj(members) => Obj(LenientMembers(members, map[]))
  }

  function LenientItems(ds: seq<Doc>): (vs: seq<Value>)
    ensures |vs| == |ds|
  {
    if ds == [] then [] else [Lenient(ds[0])] + LenientItems(ds[1..])
  }

  function LenientMembers(ms: seq<Member>, seen: map<string, Value>): map<string, Value> {
    if ms == [] then seen else LenientMembers(ms[1..], seen[Unquote(ms[0].key) := Lenient(ms[0].value)])
  }

  // ---- positions in a tree ----

  datatype Step = Index(i: nat) | Key(k: string)

  /** The number at a position, if there is one. */
  function NumberAt(v: Value, p: seq<Step>): Option<string>
    decreases |p|
  {
    if p == [] then if v.Num? then Some(v.literal) else None
    else match p[0]
      case Index(i) => if v.Arr? && i < |v.items| then NumberAt(v.items[i], p[1..]) else None
      case Key(k) => if v.Obj? && k in v.members then NumberAt(v.members[k], p[1..]) else None
  }

  /** The number at `p` breaks the decoder's rule: an integer literal within int64. */
  predicate BadAt(v: Value, p: seq<Step>) {
    NumberAt(v, p).Some? && NumberValue(NumberAt(v, p).value).Err?
  }

  predicate StepBefore(a: Step, b: Step) {
    || (a.Index? && b.Index? && a.i < b.i)
    || (a.Key? && b.Key? && TextLess(a.k, b.k))
  }

  /** Array elements by index, members by the byte order of their keys. */
  ghost predicate Before(p: seq<Step>, q: seq<Step>) {
    exists k: nat :: Diverge(p, q, k) && k < |p| && k < |q| && StepBefore(p[k], q[k])
  }

  /** `p` is the first bad position. */
  ghost predicate FirstBad(v: Value, p: seq<Step>) {
    BadAt(v, p) && forall q | BadAt(v, q) && q != p :: Before(p, q)
  }

  // ---- the report ----

  datatype Fault = SchemaKeyword | FractionOrExponent | OutOfRange

  datatype Located = Located(path: string, literal: string, fault: Fault)

  function RenderStep(s: Step): string {
    match s
    case Index(i) => "[" + FormatNat(i) + "]"
    case Key(k) => "." + k
  }

  function Render(path: string, p: seq<Step>): string
    decreases |p|
  {
    if p == [] then path else Render(path + RenderStep(p[0]), p[1..])
  }

  function FaultOf(literal: string, path: string): Fault {
    if !HasFractionOrExponent(literal) then OutOfRange
    else if Contains(path, ".response_format") then SchemaKeyword
    else FractionOrExponent
  }

  /** The report on the number at `p`. */
  function Report(v: Value, path: string, p: seq<Step>): Located
    requires NumberAt(v, p).Some?
  {
    var literal := NumberAt(v, p).value;
    Located(Render(path, p), literal, FaultOf(literal, Render(path, p)))
  }

  lemma {:induction false} RenderAppends(path: string, p: seq<Step>, q: seq<Step>)
    ensures Render(path, p + q) == Render(Render(path, p), q)
    decreases |p|
  {
    if p == [] {
      assert p + q == q;
    } else {
      assert (p + q)[1..] == p[1..] + q;
      RenderAppends(path + RenderStep(p[0]), p[1..], q);
    }
  }

  /** A path is the section, then ".key" for each member and "[index]" for each element. */
  lemma RenderedSteps(path: string, p: seq<Step>, k: string, i: nat)
    ensures Render(path, []) == path
    ensures Render(path, p + [Key(k)]) == Render(path, p) + "." + k
    ensures Render(path, p + [Index(i)]) == Render(path, p) + "[" + FormatNat(i) + "]"
  {
    RenderAppends(path, p, [Key(k)]);
    RenderAppends(path, p, [Index(i)]);
    assert [Key(k)][1..] == [] && [Index(i)][1..] == [];
    assert Render(path, p) + ("." + k) == Render(path, p) + "." + k;
    assert Render(path, p) + ("[" + FormatNat(i) + "]") == Render(path, p) + "[" + FormatNat(i) + "]";
  }

  /** The fault of a refused number is the decoder's reason; inside response_format a number of the wrong
      form is a schema keyword. */
  lemma FaultsAreReasons(literal: string, path: string)
    requires NumberValue(literal).Err?
    ensures FaultOf(literal, path) == OutOfRange <==> NumberValue(literal) == Err(NumberRange)
    ensures FaultOf(literal, path) == SchemaKeyword
            <==> && NumberValue(literal) == Err(NumberForm)
                 && exists before, after :: path == before + ".response_format" + after
  {
    ContainedIsInside(path, ".response_format");
  }

  lemma ContainedIsInside(path: string, word: string)
    ensures Contains(path, word) <==> exists before, after :: path == before + word + after
  {
    if Contains(path, word) {
      var i :| 0 <= i <= |path| && word <= path[i..];
      assert path == path[..i] + word + path[i..][|word|..];
    }
    if before, after :| path == before + word + after {
      assert path[|before|..] == word + after;
    }
  }

  // ---- the order of positions ----

  lemma {:induction false} BeforeBehind(s: Step, p: seq<Step>, q: seq<Step>)
    requires Before(p, q)
    ensures Before([s] + p, [s] + q)
  {
    var k: nat :| Diverge(p, q, k) && k < |p| && k < |q| && StepBefore(p[k], q[k]);
    DivergeAfterPrefix([s], p, q, k);
    assert ([s] + p)[1 + k] == p[k] && ([s] + q)[1 + k] == q[k];
  }

  lemma BeforeByHead(p: seq<Step>, q: seq<Step>)
    requires p != [] && q != [] && p[0] != q[0] && StepBefore(p[0], q[0])
    ensures Before(p, q)
  {
    assert Diverge(p, q, 0);
  }

  /** There is at most one first bad position, so the report does not depend on how it is searched for. */
  lemma FirstBadUnique(v: Value, p: seq<Step>, q: seq<Step>)
    requires FirstBad(v, p) && FirstBad(v, q)
    ensures p == q
  {
    if p != q {
      var k: nat :| Diverge(p, q, k) && k < |p| && k < |q| && StepBefore(p[k], q[k]);
      var m: nat :| Diverge(q, p, m) && m < |p| && m < |q| && StepBefore(q[m], p[m]);
      DivergenceUnique(p, q, k, m);
      if p[k].Key? {
        TextLessIsStrict(p[k].k, q[k].k, p[k].k);
      }
    }
  }

  // ---- sort.Strings ----

  ghost predicate InOrder(keys: seq<string>) {
    forall i, j | 0 <= i < j < |keys| :: TextLess(keys[i], keys[j])
  }

  function Insert(k: string, keys: seq<string>): (r: seq<string>)
    ensures forall x :: x in r <==> x == k || x in keys
  {
    if keys == [] || TextLess(k, keys[0]) then [k] + keys else [keys[0]] + Insert(k, keys[1..])
  }

  function SortStrings(keys: seq<string>): (r: seq<string>)
    ensures forall x :: x in r <==> x in keys
  {
    if keys == [] then [] else Insert(keys[0], SortStrings(keys[1..]))
  }

  lemma {:induction false} InsertKeepsOrder(k: string, keys: seq<string>)
    requires InOrder(keys) && k !in keys
    ensures InOrder(Insert(k, keys))
  {
    if keys != [] && TextLess(k, keys[0]) {
      forall j | 0 < j < |keys|
        ensures TextLess(k, keys[j])
      {
        TextLessIsStrict(k, keys[0], keys[j]);
      }
    } else if keys != [] {
      InsertKeepsOrder(k, keys[1..]);
      TextLessIsStrict(k, keys[0], k);
      var r := Insert(k, keys[1..]);
      forall j | 0 <= j < |r|
        ensures TextLess(keys[0], r[j])
      {
        assert r[j] in r;
      }
    }
  }

  lemma {:induction false} SortStringsSorts(keys: seq<string>)
    requires forall i, j | 0 <= i < j < |keys| :: keys[i] != keys[j]
    ensures InOrder(SortStrings(keys))
  {
    if keys != [] {
      SortStringsSorts(keys[1..]);
      InsertKeepsOrder(keys[0], SortStrings(keys[1..]));
    }
  }

  // ---- the search ----

  /** The keys in sorted order, found in whatever order the map yields them. */
  method SortedKeyList(members: map<string, Value>) returns (keys: seq<string>)
    ensures InOrder(keys) && forall k :: k in keys <==> k in members
  {
    var found: seq<string> := [];
    var remaining := members.Keys;
    while remaining != {}
      invariant remaining <= members.Keys
      invariant forall k :: k in found <==> k in members.Keys && k !in remaining
      invariant forall i, j | 0 <= i < j < |found| :: found[i] != found[j]
      decreases remaining
    {
      var key :| key in remaining;
      remaining := remaining - {key};
      found := found + [key];
    }
    SortStringsSorts(found);
    return SortStrings(found);
  }

  /** locateUncanonicalizableNumber: reports the first bad number, or nothing when there is none. */
  method LocateUncanonicalizableNumber(value: Value, path: string) returns (r: Option<Located>, ghost at: seq<Step>)
    ensures r.None? ==> forall p :: !BadAt(value, p)
    ensures r.Some? ==> FirstBad(value, at) && r.value == Report(value, path, at)
    decreases value, 1
  {
    match value
    case Num(literal) =>
      r, at := None, [];
      if HasFractionOrExponent(literal) {
        r := Some(Located(path, literal,
                          if Contains(path, ".response_format") then SchemaKeyword else FractionOrExponent));
      } else if ParseInt64(literal).None? {
        r := Some(Located(path, literal, OutOfRange));
      }
    case Arr(items) =>
      r, at := LocateInItems(value, path);
    case Obj(members) =>
      r, at := LocateInMembers(value, path);
    case _ =>
      r, at := None, [];
  }

  lemma FirstInItems(value: Value, index: nat, sub: seq<Step>)
    requires value.Arr? && index < |value.items| && FirstBad(value.items[index], sub)
    requires forall j, p | 0 <= j < index :: !BadAt(value.items[j], p)
    ensures FirstBad(value, [Index(index)] + sub)
  {
    var p := [Index(index)] + sub;
    assert p[1..] == sub;
    forall q: seq<Step> | BadAt(value, q) && q != p
      ensures Before(p, q)
    {
      assert BadAt(value.items[q[0].i], q[1..]) && q == [q[0]] + q[1..];
      if q[0].i == index {
        BeforeBehind(Index(index), sub, q[1..]);
      } else {
        BeforeByHead(p, q);
      }
    }
  }

  lemma NoneInItems(value: Value)
    requires value.Arr? && forall j, p | 0 <= j < |value.items| :: !BadAt(value.items[j], p)
    ensures forall p :: !BadAt(value, p)
  {
    forall p: seq<Step> | p != [] && p[0].Index? && p[0].i < |value.items|
      ensures !BadAt(value, p)
    {
      assert !BadAt(value.items[p[0].i], p[1..]);
    }
  }

  method LocateInItems(value: Value, path: string) returns (r: Option<Located>, ghost at: seq<Step>)
    requires value.Arr?
    ensures r.None? ==> forall p :: !BadAt(value, p)
    ensures r.Some? ==> FirstBad(value, at) && r.value == Report(value, path, at)
    decreases value, 0
  {
    for index := 0 to |value.items|
      invariant forall j, p | 0 <= j < index :: !BadAt(value.items[j], p)
    {
      r, at := LocateUncanonicalizableNumber(value.items[index], path + "[" + FormatNat(index) + "]");
      if r.Some? {
        FirstInItems(value, index, at);
        assert ([Index(index)] + at)[1..] == at;
        assert path + "[" + FormatNat(index) + "]" == path + RenderStep(Index(index));
        at := [Index(index)] + at;
        return;
      }
    }
    NoneInItems(value);
    r, at := None, [];
  }

  lemma FirstInMembers(value: Value, keys: seq<string>, i: nat, sub: seq<Step>)
    requires value.Obj? && InOrder(keys) && (forall k :: k in keys <==> k in value.members)
    requires i < |keys| && FirstBad(value.members[keys[i]], sub)
    requires forall j, p | 0 <= j < i :: !BadAt(value.members[keys[j]], p)
    ensures FirstBad(value, [Key(keys[i])] + sub)
  {
    var p := [Key(keys[i])] + sub;
    assert p[1..] == sub && keys[i] in keys;
    forall q: seq<Step> | BadAt(value, q) && q != p
      ensures Before(p, q)
    {
      assert BadAt(value.members[q[0].k], q[1..]) && q == [q[0]] + q[1..];
      var j: nat :| j < |keys| && keys[j] == q[0].k;
      if j == i {
        BeforeBehind(Key(keys[i]), sub, q[1..]);
      } else {
        TextLessIsStrict(keys[i], keys[j], keys[i]);
        BeforeByHead(p, q);
      }
    }
  }

  lemma NoneInMembers(value: Value, keys: seq<string>)
    requires value.Obj? && forall k :: k in keys <==> k in value.members
    requires forall j, p | 0 <= j < |keys| :: !BadAt(value.members[keys[j]], p)
    ensures forall p :: !BadAt(value, p)
  {
    forall p: seq<Step> | p != [] && p[0].Key? && p[0].k in value.members
      ensures !BadAt(value, p)
    {
      var j: nat :| j < |keys| && keys[j] == p[0].k;
      assert !BadAt(value.members[keys[j]], p[1..]);
    }
  }

  method LocateInMembers(value: Value, path: string) returns (r: Option<Located>, ghost at: seq<Step>)
    requires value.Obj?
    ensures r.None? ==> forall p :: !BadAt(value, p)
    ensures r.Some? ==> FirstBad(value, at) && r.value == Report(value, path, at)
    decreases value, 0
  {
    var keys := SortedKeyList(value.members);
    for i := 0 to |keys|
      invariant forall j, p | 0 <= j < i :: !BadAt(value.members[keys[j]], p)
    {
      assert keys[i] in keys;
      r, at := LocateUncanonicalizableNumber(value.members[keys[i]], path + "." + keys[i]);
      if r.Some? {
        FirstInMembers(value, keys, i, at);
        assert ([Key(keys[i])] + at)[1..] == at;
        assert path + "." + keys[i] == path + RenderStep(Key(keys[i]));
        at := [Key(keys[i])] + at;
        return;
      }
    }
    NoneInMembers(value, keys);
    r, at := None, [];
  }

  // ---- what the locator says about the strict decoder ----

  predicate UniqueKeys(d: Doc) {
    match d
    case DArr(items) => ItemsUnique(items)
    case DObj(members) => DistinctKeys(members) && MembersUnique(members)
    case _ => true
  }

  predicate ItemsUnique(ds: seq<Doc>) {
    ds != [] ==> UniqueKeys(ds[0]) && ItemsUnique(ds[1..])
  }

  predicate MembersUnique(ms: seq<Member>) {
    ms != [] ==> UniqueKeys(ms[0].value) && MembersUnique(ms[1..])
  }

  predicate DistinctKeys(ms: seq<Member>) {
    forall i, j | 0 <= i < j < |ms| :: Unquote(ms[i].key) != Unquote(ms[j].key)
  }

  predicate IsNumberError(e: JcsError) {
    e == NumberForm || e == NumberRange
  }

  ghost predicate NoBadNumber(v: Value) {
    forall p :: !BadAt(v, p)
  }

  /** The strict decoder's answer, compared with the lenient tree: the tree itself when it holds no bad
      number, and the error of a number when it does. */
  ghost predicate Agrees(strict: Outcome<Value>, lenient: Value) {
    && (strict.Ok? <==> NoBadNumber(lenient))
    && (strict.Ok? ==> strict.value == lenient)
    && (strict.Err? ==> IsNumberError(strict.error))
  }

  lemma NumberAgrees(literal: string)
    ensures Agrees(NumberValue(literal), Num(literal))
  {
    assert NumberAt(Num(literal), []) == Some(literal);
    assert BadAt(Num(literal), []) <==> NumberValue(literal).Err?;
  }

  lemma LeafAgrees(v: Value)
    requires !v.Num? && !v.Arr? && !v.Obj?
    ensures NoBadNumber(v)
  {
  }

  ghost predicate AllGood(vs: seq<Value>) {
    forall i | 0 <= i < |vs| :: NoBadNumber(vs[i])
  }

  lemma AllGoodCons(v: Value, vs: seq<Value>)
    ensures AllGood([v] + vs) <==> NoBadNumber(v) && AllGood(vs)
  {
    var all := [v] + vs;
    assert all[0] == v;
    assert forall i | 0 <= i < |vs| :: vs[i] == all[i + 1];
  }

  lemma ItemsBad(items: seq<Value>)
    ensures NoBadNumber(Arr(items)) <==> AllGood(items)
  {
    var v := Arr(items);
    if NoBadNumber(v) {
      forall i, p | 0 <= i < |items|
        ensures !BadAt(items[i], p)
      {
        assert ([Index(i)] + p)[1..] == p;
        assert !BadAt(v, [Index(i)] + p);
      }
    } else if AllGood(items) {
      NoneInItems(v);
    }
  }

  lemma MembersBad(members: map<string, Value>)
    ensures NoBadNumber(Obj(members)) <==> forall k | k in members :: NoBadNumber(members[k])
  {
    var v := Obj(members);
    if NoBadNumber(v) {
      forall k, p | k in members
        ensures !BadAt(members[k], p)
      {
        assert ([Key(k)] + p)[1..] == p;
        assert !BadAt(v, [Key(k)] + p);
      }
    }
    forall p: seq<Step> | BadAt(v, p)
      ensures BadAt(members[p[0].k], p[1..])
    {
    }
  }

  /** On a text without duplicate keys, the strict decoder refuses exactly the trees in which the
      locator finds a number, always on account of a number; otherwise both build the same tree. */
  lemma {:induction false} LocatorIsExact(d: Doc)
    requires UniqueKeys(d)
    ensures Agrees(Elaborate(d), Lenient(d))
    decreases d
  {
    match d
    case DNum(literal) =>
      NumberAgrees(literal);
    case DArr(items) =>
      ItemsAgree(items);
      ItemsBad(LenientItems(items));
    case DObj(members) =>
      MembersAgree(members, map[]);
      LenientHolds(members, map[]);
      LenientKeys(members, map[]);
      MembersBad(LenientMembers(members, map[]));
    case _ =>
      LeafAgrees(Lenient(d));
  }

  lemma {:induction false} ItemsAgree(ds: seq<Doc>)
    requires ItemsUnique(ds)
    ensures var strict, lenient := ElaborateItems(ds), LenientItems(ds);
            && (strict.Ok? <==> AllGood(lenient))
            && (strict.Ok? ==> strict.value == lenient)
            && (strict.Err? ==> IsNumberError(strict.error))
    decreases ds
  {
    if ds != [] {
      LocatorIsExact(ds[0]);
      ItemsAgree(ds[1..]);
      AllGoodCons(Lenient(ds[0]), LenientItems(ds[1..]));
    }
  }

  lemma {:induction false} MembersAgree(ms: seq<Member>, seen: map<string, Value>)
    requires MembersUnique(ms) && DistinctKeys(ms)
    requires forall i | 0 <= i < |ms| :: Unquote(ms[i].key) !in seen
    ensures var strict := ElaborateMembers(ms, seen);
            && (strict.Ok? <==> forall i | 0 <= i < |ms| :: NoBadNumber(Lenient(ms[i].value)))
            && (strict.Ok? ==> strict.value == LenientMembers(ms, seen))
            && (strict.Err? ==> IsNumberError(strict.error))
    decreases ms
  {
    if ms != [] {
      LocatorIsExact(ms[0].value);
      MembersAgree(ms[1..], seen[Unquote(ms[0].key) := Lenient(ms[0].value)]);
      assert forall i | 1 <= i < |ms| :: ms[i] == ms[1..][i - 1];
    }
  }

  lemma {:induction false} LenientKeeps(ms: seq<Member>, seen: map<string, Value>)
    requires forall i | 0 <= i < |ms| :: Unquote(ms[i].key) !in seen
    requires DistinctKeys(ms)
    ensures forall k | k in seen :: k in LenientMembers(ms, seen) && LenientMembers(ms, seen)[k] == seen[k]
  {
    if ms != [] {
      var more := seen[Unquote(ms[0].key) := Lenient(ms[0].value)];
      assert forall i | 1 <= i < |ms| :: ms[i] == ms[1..][i - 1];
      LenientKeeps(ms[1..], more);
      assert forall k | k in seen :: k in more && more[k] == seen[k];
    }
  }

  /** `k` is the key of a member. */
  predicate HasKey(ms: seq<Member>, k: string) {
    exists i :: 0 <= i < |ms| && Unquote(ms[i].key) == k
  }

  lemma {:induction false} LenientKeys(ms: seq<Member>, seen: map<string, Value>)
    ensures forall k | k in LenientMembers(ms, seen) :: k in seen || HasKey(ms, k)
  {
    if ms != [] {
      var key := Unquote(ms[0].key);
      var more := seen[key := Lenient(ms[0].value)];
      LenientKeys(ms[1..], more);
      forall k | k in LenientMembers(ms, seen) && k !in seen
        ensures HasKey(ms, k)
      {
        if k == key {
          assert Unquote(ms[0].key) == k;
        } else {
          assert k !in more && HasKey(ms[1..], k);
          var i :| 0 <= i < |ms[1..]| && Unquote(ms[1..][i].key) == k;
          assert Unquote(ms[i + 1].key) == k;
        }
      }
    }
  }

  /** What the lenient object holds when no key repeats. */
  lemma {:induction false} LenientHolds(ms: seq<Member>, seen: map<string, Value>)
    requires DistinctKeys(ms) && forall i | 0 <= i < |ms| :: Unquote(ms[i].key) !in seen
    ensures var m := LenientMembers(ms, seen);
            forall i | 0 <= i < |ms| :: Unquote(ms[i].key) in m && m[Unquote(ms[i].key)] == Lenient(ms[i].value)
  {
    if ms != [] {
      var key := Unquote(ms[0].key);
      var more := seen[key := Lenient(ms[0].value)];
      assert forall i | 1 <= i < |ms| :: ms[i] == ms[1..][i - 1];
      LenientKeeps(ms[1..], more);
      LenientHolds(ms[1..], more);
      assert key in more && more[key] == Lenient(ms[0].value);
    }
  }

  // ---- the strict decoder in terms of the lenient one ----

  lemma {:induction false} AcceptedIsUnique(d: Doc)
    requires Elaborate(d).Ok?
    ensures UniqueKeys(d)
    decreases d, 0
  {
    match d
    case DArr(items) => AcceptedItemsAreUnique(items);
    case DObj(members) => AcceptedMembersAreUnique(members, map[]);
    case _ =>
  }

  lemma {:induction false} AcceptedItemsAreUnique(ds: seq<Doc>)
    requires ElaborateItems(ds).Ok?
    ensures ItemsUnique(ds)
    decreases ds, 0
  {
    if ds != [] {
      AcceptedIsUnique(ds[0]);
      AcceptedItemsAreUnique(ds[1..]);
    }
  }

  lemma {:induction false} AcceptedMembersAreUnique(ms: seq<Member>, seen: map<string, Value>)
    requires ElaborateMembers(ms, seen).Ok?
    ensures MembersUnique(ms) && DistinctKeys(ms)
    ensures forall i | 0 <= i < |ms| :: Unquote(ms[i].key) !in seen
    decreases ms, 0
  {
    if ms != [] {
      var key := Unquote(ms[0].key);
      var more := seen[key := Elaborate(ms[0].value).value];
      AcceptedIsUnique(ms[0].value);
      AcceptedMembersAreUnique(ms[1..], more);
      forall i | 1 <= i < |ms|
        ensures Unquote(ms[i].key) != key && Unquote(ms[i].key) !in seen
      {
        assert ms[i] == ms[1..][i - 1] && key in more;
      }
      DistinctBehind(ms);
    }
  }

  lemma DistinctBehind(ms: seq<Member>)
    requires ms != [] && DistinctKeys(ms[1..])
    requires forall i | 1 <= i < |ms| :: Unquote(ms[i].key) != Unquote(ms[0].key)
    ensures DistinctKeys(ms)
  {
    forall i, j | 0 <= i < j < |ms|
      ensures Unquote(ms[i].key) != Unquote(ms[j].key)
    {
      if i > 0 {
        assert ms[i] == ms[1..][i - 1] && ms[j] == ms[1..][j - 1];
      }
    }
  }

  /** The strict decoder accepts exactly the documents in which no object repeats a key and every number is
      an int64 integer, and then reads what encoding/json reads. */
  lemma StrictIsExact(d: Doc)
    ensures Elaborate(d).Ok? <==> UniqueKeys(d) && NoBadNumber(Lenient(d))
    ensures Elaborate(d).Ok? ==> Elaborate(d).value == Lenient(d)
  {
    if Elaborate(d).Ok? {
      AcceptedIsUnique(d);
    }
    if UniqueKeys(d) {
      LocatorIsExact(d);
    }
  }
}
