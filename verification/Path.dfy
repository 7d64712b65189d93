/** Canonical paths: building, validating and classifying them.  Nothing here depends on a character
    being a byte, so paths and ids are plain strings; every `Bytes` is one. */
module Path {
  import opened Wrappers
  import opened GoText
  import opened GoStrings
  import opened Utf8

  // ---- the registered routes and methods ----

  /** A GatewayRoute string: one of the four registered ones, or any other. */
  datatype GatewayRoute = Create | Get | GetArtifact | Cancel | Unknown(name: Bytes) {
    function Text(): Bytes {
      match this
      case Create => "invocation:create"
      case Get => "invocation:get"
      case GetArtifact => "invocation:get_artifact"
      case Cancel => "invocation:cancel"
      case Unknown(name) => name
    }
  }

  const PREFIX: Bytes := "/runtime/v1/invocations"
  const SERVICE: string := "runtime.v1.RuntimeService"

  /** The methods of runtime.v1.RuntimeService. */
  datatype RuntimeMethod =
    | ExchangeRuntimeToken | ResolveRegistration | ConfirmRegistration | CreateOrder
    | VerifyAndConfirmPayment | GetOrder | SyncIdentity | SyncVerificationStatus | DisableIdentity
    | GetBalance | ListLedger | GetSkuCatalog | GetOfferCatalog | ListSiteBranding
  {
    function Name(): Bytes {
      match this
      case ExchangeRuntimeToken => "ExchangeRuntimeToken"
      case ResolveRegistration => "ResolveRegistration"
      case ConfirmRegistration => "ConfirmRegistration"
      case CreateOrder => "CreateOrder"
      case VerifyAndConfirmPayment => "VerifyAndConfirmPayment"
      case GetOrder => "GetOrder"
      case SyncIdentity => "SyncIdentity"
      case SyncVerificationStatus => "SyncVerificationStatus"
      case DisableIdentity => "DisableIdentity"
      case GetBalance => "GetBalance"
      case ListLedger => "ListLedger"
      case GetSkuCatalog => "GetSkuCatalog"
      case GetOfferCatalog => "GetOfferCatalog"
      case ListSiteBranding => "ListSiteBranding"
    }

    predicate IsQuery() {
      GetOrder? || GetBalance? || ListLedger? || GetSkuCatalog? || GetOfferCatalog? || ListSiteBranding?
    }

    /** The operation an assertion for this method names; None for methods without an assertion. */
    function Operation(): Option<Bytes> {
      match this
      case ConfirmRegistration => Some("registration:confirm")
      case CreateOrder => Some("order:create")
      case GetOrder => Some("order:get")
      case GetBalance => Some("balance:get")
      case ListLedger => Some("ledger:list")
      case _ => None
    }
  }

  predicate IsRuntimeMethod(name: string) {
    exists m: RuntimeMethod :: m.Name() == name
  }

  // ---- validation ----

  predicate IsIDByte(c: char) {
    'a' <= c <= 'z' || 'A' <= c <= 'Z' || IsDigit(c) || c in "-._~"
  }

  predicate ValidServerIssuedID(id: string) {
    id != "" && id != "." && id != ".." && forall i | 0 <= i < |id| :: IsIDByte(id[i])
  }

  predicate RegisteredSegments(segments: seq<string>) {
    && (|segments| == 1 || |segments| == 3)
    && ValidServerIssuedID(segments[0])
    && (|segments| == 1 || (segments[1] == "artifacts" && ValidServerIssuedID(segments[2])))
  }

  predicate IsRegisteredGatewayPath(path: string) {
    || path == PREFIX
    || (HasPrefix(path, PREFIX + "/") && RegisteredSegments(Split(path[|PREFIX| + 1..], '/')))
  }

  datatype PathError = NoSlash | Unclean | BadSegment | UnknownMethod | Unregistered | BadIDs | UnknownRoute

  /** The checks on spelling alone. */
  function CheckSpelling(path: string): Option<PathError> {
    if path == "" || path[0] != '/' then Some(NoSlash)
    else if '?' in path || '#' in path || Contains(path, "//") || '%' in path then Some(Unclean)
    else
      var segments := Split(path[1..], '/');
      if "" in segments || "." in segments || ".." in segments then Some(BadSegment) else None
  }

  /** None when the path is accepted. */
  function ValidateCanonicalPath(path: string): Option<PathError> {
    var spelling := CheckSpelling(path);
    if spelling.Some? then spelling else CheckRegistered(path, Split(path[1..], '/'))
  }

  function CheckRegistered(path: string, segments: seq<string>): Option<PathError> {
    if IsRegisteredGatewayPath(path) then None
    else if |segments| == 2 && segments[0] == SERVICE then
      if IsRuntimeMethod(segments[1]) then None else Some(UnknownMethod)
    else Some(Unregistered)
  }

  /** The switch of CanonicalGatewayPath. */
  function AssemblePath(route: GatewayRoute, ids: seq<string>): Result<string, PathError> {
    match route
    case Create =>
      if exists i :: 0 <= i < |ids| && ids[i] != "" then Err(BadIDs) else Ok(PREFIX)
    case GetArtifact =>
      if |ids| != 2 || !ValidServerIssuedID(ids[0]) || !ValidServerIssuedID(ids[1]) then Err(BadIDs)
      else Ok(PREFIX + "/" + ids[0] + "/artifacts/" + ids[1])
    case Unknown(_) => Err(UnknownRoute)
    case _ =>
      if |ids| != 1 || !ValidServerIssuedID(ids[0]) then Err(BadIDs) else Ok(PREFIX + "/" + ids[0])
  }

  function CanonicalGatewayPath(route: GatewayRoute, ids: seq<string>): Result<string, PathError> {
    var path :- AssemblePath(route, ids);
    match ValidateCanonicalPath(path)
    case None => Ok(path)
    case Some(e) => Err(e)
  }

  // ---- classification ----

  /** The operation and canonical method of a gateway request, given its upper-cased method. */
  function OperationOf(upper: Bytes, path: string): Option<(GatewayRoute, Bytes)> {
    if !IsRegisteredGatewayPath(path) then None
    else if path == PREFIX then if upper == "POST" then Some((Create, "POST")) else None
    else if Count(path[|PREFIX|..], '/') == 1 then
      if upper == "GET" then Some((Get, "GET")) else if upper == "DELETE" then Some((Cancel, "DELETE")) else None
    else if Contains(path, "/artifacts/") && upper == "GET" then Some((GetArtifact, "GET"))
    else None
  }

  function GatewayOperationAndMethod(fold: Fold, verb: Bytes, path: string): Option<(GatewayRoute, Bytes)> {
    OperationOf(Upper(fold, verb), path)
  }

  /** The method name of a runtime path, or "". */
  function RuntimeOperation(path: string): string {
    var segments := Split(path, '/');
    if |segments| == 3 && segments[1] == SERVICE then segments[2] else ""
  }

  datatype KeyRule = KeyRule(required: bool, forbidden: bool)

  function IdempotencyRule(fold: Fold, verb: Bytes, path: string): KeyRule {
    match GatewayOperationAndMethod(fold, verb, path)
    case Some((_, canonical)) => KeyRule(canonical != "GET", canonical == "GET")
    case None => KeyRule(false, exists m: RuntimeMethod :: m.IsQuery() && m.Name() == RuntimeOperation(path))
  }

  predicate ValidOperationAndMethod(fold: Fold, verb: Bytes, path: string, operation: Bytes) {
    && verb != "" && !HasLineBreak(verb) && operation != "" && !HasLineBreak(operation)
    && if IsRegisteredGatewayPath(path) then
         var found := GatewayOperationAndMethod(fold, verb, path);
         found.Some? && operation == found.value.0.Text()
       else
         RuntimeOperation(path) != "" ==>
           exists m: RuntimeMethod :: m.Name() == RuntimeOperation(path) && m.Operation() == Some(operation)
  }
}

/** The path and the method determine the route and the ids. */
module PathTheorems {
  import opened Wrappers
  import opened GoText
  import opened GoStrings
  import opened Sequences
  import opened Utf8
  import opened Path

  /** What a gateway path addresses. */
  datatype Target = Collection | Invocation(id: string) | Artifact(id: string, artifact: string)

  predicate ValidTarget(t: Target) {
    match t
    case Collection => true
    case Invocation(id) => ValidServerIssuedID(id)
    case Artifact(id, artifact) => ValidServerIssuedID(id) && ValidServerIssuedID(artifact)
  }

  function Tail(t: Target): seq<string>
    requires !t.Collection?
  {
    if t.Invocation? then [t.id] else [t.id, "artifacts", t.artifact]
  }

  function PathOf(t: Target): string {
    if t.Collection? then PREFIX else PREFIX + "/" + Join(Tail(t), "/")
  }

  /** How the paths of the three kinds of target are spelled. */
  lemma PathsAreSpelled(id: string, artifact: string)
    ensures PathOf(Collection) == "/runtime/v1/invocations"
    ensures PathOf(Invocation(id)) == "/runtime/v1/invocations/" + id
    ensures PathOf(Artifact(id, artifact)) == "/runtime/v1/invocations/" + id + "/artifacts/" + artifact
  {
    assert PREFIX + "/" == "/runtime/v1/invocations/";
    ArtifactPath(id, artifact);
  }

  /** Ids are made of RFC 3986's unreserved characters: letters, digits, and four more. */
  lemma IDBytesAre(c: char)
    ensures IsIDByte(c)
            <==> || 0x41 <= c as int <= 0x5A || 0x61 <= c as int <= 0x7A || 0x30 <= c as int <= 0x39
                 || c in {'-', '.', '_', '~'}
  {
  }

  // ---- ids and segments ----

  lemma IDKeepsOut(id: string, c: char)
    requires ValidServerIssuedID(id) && !IsIDByte(c)
    ensures c !in id
  {
  }

  lemma TailSegments(t: Target)
    requires ValidTarget(t) && !t.Collection?
    ensures forall p | p in Tail(t) :: '/' !in p && p != "" && p != "." && p != ".."
    ensures Split(Join(Tail(t), "/"), '/') == Tail(t)
  {
    IDKeepsOut(t.id, '/');
    if t.Artifact? {
      IDKeepsOut(t.artifact, '/');
    }
    SplitJoin(Tail(t), '/');
  }

  lemma DropPrefixPath(rest: string)
    ensures HasPrefix(PREFIX + "/" + rest, PREFIX + "/")
    ensures (PREFIX + "/" + rest)[|PREFIX| + 1..] == rest
    ensures PREFIX + "/" + rest != PREFIX
  {
    assert |PREFIX + "/" + rest| > |PREFIX|;
  }

  lemma TargetOfSegments(rest: string) returns (t: Target)
    requires RegisteredSegments(Split(rest, '/'))
    ensures ValidTarget(t) && !t.Collection? && Join(Tail(t), "/") == rest
  {
    var parts := Split(rest, '/');
    JoinSplit(rest, '/');
    t := if |parts| == 1 then Invocation(parts[0]) else Artifact(parts[0], parts[2]);
    assert Tail(t) == parts;
  }

  /** A registered gateway path is the path of a valid target. */
  lemma TargetOfPath(path: string) returns (t: Target)
    requires IsRegisteredGatewayPath(path)
    ensures ValidTarget(t) && PathOf(t) == path
  {
    if path == PREFIX {
      t := Collection;
    } else {
      t := TargetOfSegments(path[|PREFIX| + 1..]);
      SplitAt(path, |PREFIX| + 1);
    }
  }

  lemma PathOfTarget(t: Target)
    requires ValidTarget(t)
    ensures IsRegisteredGatewayPath(PathOf(t))
  {
    if !t.Collection? {
      TailSegments(t);
      DropPrefixPath(Join(Tail(t), "/"));
    }
  }

  lemma PathDeterminesTarget(t: Target, u: Target)
    requires ValidTarget(t) && ValidTarget(u) && PathOf(t) == PathOf(u)
    ensures t == u
  {
    if !t.Collection? {
      DropPrefixPath(Join(Tail(t), "/"));
      TailSegments(t);
    }
    if !u.Collection? {
      DropPrefixPath(Join(Tail(u), "/"));
      TailSegments(u);
    }
  }

  // ---- what the validator accepts ----

  lemma {:induction false} JoinConcat(a: seq<string>, b: seq<string>)
    requires a != [] && b != []
    ensures Join(a + b, "/") == Join(a, "/") + "/" + Join(b, "/")
  {
    if |a| == 1 {
      assert (a + b)[1..] == b;
    } else {
      JoinConcat(a[1..], b);
      assert (a + b)[1..] == a[1..] + b;
      Assoc(a[0] + "/", Join(a[1..], "/"), "/");
      Assoc(a[0] + "/", Join(a[1..], "/") + "/", Join(b, "/"));
    }
  }

  lemma {:induction false} JoinKeepsOut(parts: seq<string>, c: char)
    requires parts != [] && c != '/' && forall p | p in parts :: c !in p
    ensures c !in Join(parts, "/")
  {
    if |parts| > 1 {
      JoinKeepsOut(parts[1..], c);
    }
  }

  lemma {:induction false} NoDoubleSlash(parts: seq<string>)
    requires |parts| > 0 && forall p | p in parts :: '/' !in p && p != ""
    ensures !Contains("/" + Join(parts, "/"), "//")
  {
    var w, n := "/" + Join(parts, "/"), |parts[0]| + 1;
    var rest := if |parts| == 1 then "" else "/" + Join(parts[1..], "/");
    if |parts| > 1 {
      NoDoubleSlash(parts[1..]);
    }
    assert w == "/" + parts[0] + rest;
    forall i | 0 <= i <= |w|
      ensures !("//" <= w[i..])
    {
      if i >= n {
        assert w[i..] == rest[i - n..];
      } else if i > 0 {
        assert w[i..][0] == parts[0][i - 1] && parts[0][i - 1] in parts[0];
      } else {
        assert parts[0] in parts;
        assert w[i..][1] == parts[0][0] && parts[0][0] in parts[0];
      }
    }
  }

  predicate CleanSegment(p: string) {
    p !in ["", ".", ".."] && forall c | c in p :: c !in "/?#%"
  }

  lemma CleanText(parts: seq<string>)
    requires parts != [] && forall p | p in parts :: CleanSegment(p)
    ensures forall c | c in "?#%" :: c !in "/" + Join(parts, "/")
  {
    forall c | c in "?#%"
      ensures c !in "/" + Join(parts, "/")
    {
      JoinKeepsOut(parts, c);
    }
  }

  lemma CleanSpelling(parts: seq<string>, path: string)
    requires parts != [] && path == "/" + Join(parts, "/") && forall p | p in parts :: CleanSegment(p)
    ensures CheckSpelling(path) == None && Split(path[1..], '/') == parts
  {
    SplitJoin(parts, '/');
    NoDoubleSlash(parts);
    CleanText(parts);
    DropPrefix("/", Join(parts, "/"));
  }

  const ROOT: seq<string> := ["runtime", "v1", "invocations"]

  lemma RootSegments()
    ensures "/" + Join(ROOT, "/") == PREFIX
    ensures forall p | p in ROOT :: CleanSegment(p)
  {
    assert Join(ROOT[1..][1..], "/") == "invocations";
    assert Join(ROOT[1..], "/") == "v1/invocations";
  }

  lemma IDIsClean(id: string)
    requires ValidServerIssuedID(id)
    ensures CleanSegment(id)
  {
  }

  lemma TailIsClean(t: Target)
    requires ValidTarget(t) && !t.Collection?
    ensures forall p | p in Tail(t) :: CleanSegment(p)
  {
    IDIsClean(t.id);
    if t.Artifact? {
      IDIsClean(t.artifact);
    }
  }

  /** The validator accepts the path of every valid target, so the builder's own check never fails. */
  lemma TargetIsAccepted(t: Target)
    requires ValidTarget(t)
    ensures ValidateCanonicalPath(PathOf(t)) == None
  {
    RootSegments();
    PathOfTarget(t);
    if t.Collection? {
      CleanSpelling(ROOT, PathOf(t));
    } else {
      TailIsClean(t);
      JoinConcat(ROOT, Tail(t));
      Assoc("/", Join(ROOT, "/") + "/", Join(Tail(t), "/"));
      Assoc("/", Join(ROOT, "/"), "/");
      CleanSpelling(ROOT + Tail(t), PathOf(t));
    }
  }

  function RuntimePath(name: string): string {
    "/" + SERVICE + "/" + name
  }

  predicate IsLetter(c: char) {
    'a' <= c <= 'z' || 'A' <= c <= 'Z'
  }

  predicate IsWord(s: string) {
    s != "" && forall c | c in s :: IsLetter(c)
  }

  lemma QueryNamesAreWords(m: RuntimeMethod)
    requires m.IsQuery()
    ensures IsWord(m.Name())
  {
    match m
    case GetOrder =>
    case GetBalance =>
    case ListLedger =>
    case GetSkuCatalog =>
    case GetOfferCatalog =>
    case ListSiteBranding =>
    case _ =>
  }

  lemma OtherNamesAreWords(m: RuntimeMethod)
    requires !m.IsQuery()
    ensures IsWord(m.Name())
  {
    match m
    case ExchangeRuntimeToken =>
    case ResolveRegistration =>
    case ConfirmRegistration =>
    case CreateOrder =>
    case VerifyAndConfirmPayment =>
    case SyncIdentity =>
    case SyncVerificationStatus =>
    case DisableIdentity =>
    case _ =>
  }

  lemma RuntimeNamesAreWords(m: RuntimeMethod)
    ensures m.Name() != "" && forall c | c in m.Name() :: IsLetter(c)
  {
    if m.IsQuery() {
      QueryNamesAreWords(m);
    } else {
      OtherNamesAreWords(m);
    }
  }

  lemma RuntimePathIsNotGateway(name: string)
    ensures !IsRegisteredGatewayPath(RuntimePath(name))
  {
    assert RuntimePath(name)[8] == '.' && PREFIX[8] == '/' && (PREFIX + "/")[8] == '/';
  }

  lemma TwoSegments(service: string, name: string)
    ensures "/" + service + "/" + name == "/" + Join([service, name], "/")
    ensures '/' !in service && '/' !in name ==> Split("/" + service + "/" + name, '/') == ["", service, name]
  {
    var parts := [service, name];
    assert parts[1..] == [name];
    Assoc("/", service, "/");
    Assoc("/", service + "/", name);
    if '/' !in service && '/' !in name {
      var all := ["", service, name];
      assert all[1..] == parts;
      SplitJoin(all, '/');
      Assoc("", "/", Join(parts, "/"));
    }
  }

  lemma RuntimePathSegments(name: string)
    ensures RuntimePath(name) == "/" + Join([SERVICE, name], "/")
    ensures '/' !in name ==> RuntimeOperation(RuntimePath(name)) == name
    ensures CleanSegment(SERVICE)
  {
    TwoSegments(SERVICE, name);
  }

  lemma RuntimePathIsAccepted(name: string)
    requires IsRuntimeMethod(name)
    ensures ValidateCanonicalPath(RuntimePath(name)) == None
  {
    var m: RuntimeMethod :| m.Name() == name;
    RuntimeNamesAreWords(m);
    RuntimePathIsNotGateway(name);
    RuntimePathSegments(name);
    CleanSpelling([SERVICE, name], RuntimePath(name));
  }

  /** The two kinds of accepted path. */
  ghost predicate Registered(path: string) {
    || (exists t :: ValidTarget(t) && PathOf(t) == path)
    || (exists name :: IsRuntimeMethod(name) && RuntimePath(name) == path)
  }

  lemma AcceptedRuntimePath(path: string) returns (name: string)
    requires path != "" && path[0] == '/' && CheckRegistered(path, Split(path[1..], '/')) == None
    requires !IsRegisteredGatewayPath(path)
    ensures IsRuntimeMethod(name) && RuntimePath(name) == path
  {
    var parts := Split(path[1..], '/');
    JoinSplit(path[1..], '/');
    name := parts[1];
    TwoSegments(SERVICE, name);
    assert parts == [SERVICE, name];
    SplitAt(path, 1);
  }

  /** ValidateCanonicalPath accepts exactly the paths of valid targets and of registered methods. */
  lemma ValidatorIsExact(path: string)
    ensures ValidateCanonicalPath(path) == None <==> Registered(path)
  {
    if ValidateCanonicalPath(path) == None {
      if IsRegisteredGatewayPath(path) {
        var t := TargetOfPath(path);
      } else {
        var name := AcceptedRuntimePath(path);
      }
    } else if Registered(path) {
      RegisteredIsAccepted(path);
    }
  }

  lemma RegisteredIsAccepted(path: string)
    requires Registered(path)
    ensures ValidateCanonicalPath(path) == None
  {
    if t :| ValidTarget(t) && PathOf(t) == path {
      TargetIsAccepted(t);
    } else {
      var name :| IsRuntimeMethod(name) && RuntimePath(name) == path;
      RuntimePathIsAccepted(name);
    }
  }

  /** What the builder returns: the path of the target its route and ids name, or an error. */
  function TargetFor(route: GatewayRoute, ids: seq<string>): Option<Target> {
    match route
    case Create => if forall i | 0 <= i < |ids| :: ids[i] == "" then Some(Collection) else None
    case GetArtifact => if |ids| == 2 then Some(Artifact(ids[0], ids[1])) else None
    case Unknown(_) => None
    case _ => if |ids| == 1 then Some(Invocation(ids[0])) else None
  }

  lemma JoinThree(head: string, id: string, word: string, last: string, between: string)
    requires between == "/" + word + "/"
    ensures head + Join([id, word, last], "/") == head + id + between + last
  {
    var parts := [id, word, last];
    assert parts[1..] == [word, last] && parts[1..][1..] == [last];
    var tail := word + "/" + last;
    assert Join(parts[1..], "/") == tail;
    assert Join(parts, "/") == id + "/" + tail;
    Assoc(id, "/", tail);
    Assoc("/", word + "/", last);
    Assoc("/", word, "/");
    Assoc(head, id, between + last);
    Assoc(head + id, between, last);
  }

  lemma ArtifactPath(id: string, artifact: string)
    ensures PathOf(Artifact(id, artifact)) == PREFIX + "/" + id + "/artifacts/" + artifact
  {
    assert "/artifacts/" == "/" + "artifacts" + "/";
    JoinThree(PREFIX + "/", id, "artifacts", artifact, "/artifacts/");
  }

  lemma AssembledIsTarget(route: GatewayRoute, ids: seq<string>)
    ensures var t := TargetFor(route, ids);
            if t.Some? && ValidTarget(t.value) then AssemblePath(route, ids) == Ok(PathOf(t.value))
            else AssemblePath(route, ids).Err?
  {
    var t := TargetFor(route, ids);
    if t.Some? && t.value.Artifact? {
      ArtifactPath(ids[0], ids[1]);
    }
  }

  /** The route and ids name the valid target at `path`. */
  predicate Names(route: GatewayRoute, ids: seq<string>, path: string) {
    var t := TargetFor(route, ids);
    t.Some? && ValidTarget(t.value) && PathOf(t.value) == path
  }

  /** CanonicalGatewayPath succeeds exactly on the routes and ids that name a valid target. */
  lemma BuilderIsExact(route: GatewayRoute, ids: seq<string>, path: string)
    ensures CanonicalGatewayPath(route, ids) == Ok(path) <==> Names(route, ids, path)
  {
    var t := TargetFor(route, ids);
    AssembledIsTarget(route, ids);
    if t.Some? && ValidTarget(t.value) {
      TargetIsAccepted(t.value);
    }
  }

  // ---- (method, path) and (route, ids) ----

  /** The method each route is called with. */
  function MethodFor(route: GatewayRoute): Option<Bytes> {
    match route
    case Create => Some("POST")
    case Get => Some("GET")
    case GetArtifact => Some("GET")
    case Cancel => Some("DELETE")
    case Unknown(_) => None
  }

  /** The route of a method on a target. */
  function RouteOn(upper: Bytes, t: Target): Option<GatewayRoute> {
    match t
    case Collection => if upper == "POST" then Some(Create) else None
    case Invocation(_) => if upper == "GET" then Some(Get) else if upper == "DELETE" then Some(Cancel) else None
    case Artifact(_, _) => if upper == "GET" then Some(GetArtifact) else None
  }

  lemma {:induction false} SlashesInJoin(parts: seq<string>)
    requires parts != [] && forall p | p in parts :: '/' !in p
    ensures Count(Join(parts, "/"), '/') == |parts| - 1
  {
    CountAbsent(parts[0], '/');
    if |parts| > 1 {
      SlashesInJoin(parts[1..]);
      CountConcat(parts[0] + "/", Join(parts[1..], "/"), '/');
      CountConcat(parts[0], "/", '/');
    }
  }

  lemma ContainsMiddle(a: string, b: string, c: string)
    ensures Contains(a + b + c, b)
  {
    Assoc(a, b, c);
    DropPrefix(a, b + c);
    assert b <= (a + b + c)[|a|..];
  }

  lemma SlashesAfterPrefix(t: Target)
    requires ValidTarget(t) && !t.Collection?
    ensures PathOf(t) != PREFIX && |PathOf(t)| > |PREFIX|
    ensures Count(PathOf(t)[|PREFIX|..], '/') == |Tail(t)|
  {
    var rest := Join(Tail(t), "/");
    TailSegments(t);
    Assoc(PREFIX, "/", rest);
    DropPrefix(PREFIX, "/" + rest);
    CountConcat("/", rest, '/');
    SlashesInJoin(Tail(t));
  }

  lemma ArtifactPathContains(t: Target)
    requires t.Artifact?
    ensures Contains(PathOf(t), "/artifacts/")
  {
    ArtifactPath(t.id, t.artifact);
    ContainsMiddle(PREFIX + "/" + t.id, "/artifacts/", t.artifact);
  }

  lemma OperationOfTarget(upper: Bytes, t: Target)
    requires ValidTarget(t)
    ensures OperationOf(upper, PathOf(t))
            == match RouteOn(upper, t) case None => None case Some(route) => Some((route, upper))
  {
    PathOfTarget(t);
    if !t.Collection? {
      SlashesAfterPrefix(t);
      if t.Artifact? {
        ArtifactPathContains(t);
      }
    }
  }

  function IdsOf(t: Target): seq<string> {
    match t
    case Collection => []
    case Invocation(id) => [id]
    case Artifact(id, artifact) => [id, artifact]
  }

  /** gatewayOperationAndMethod inverts the builder: it finds a route exactly when the path was built
      for that route from some ids (see BuilderIsExact) and the method is the route's. */
  lemma OperationIsExact(upper: Bytes, path: string, route: GatewayRoute)
    ensures OperationOf(upper, path) == Some((route, upper))
            <==> MethodFor(route) == Some(upper) && exists ids :: Names(route, ids, path)
    ensures OperationOf(upper, path).Some? ==> OperationOf(upper, path).value.1 == upper
  {
    if IsRegisteredGatewayPath(path) {
      var t := TargetOfPath(path);
      OperationOfTarget(upper, t);
      if RouteOn(upper, t) == Some(route) {
        assert Names(route, IdsOf(t), path);
      }
    }
    if ids :| Names(route, ids, path) && MethodFor(route) == Some(upper) {
      PathOfTarget(TargetFor(route, ids).value);
      OperationOfTarget(upper, TargetFor(route, ids).value);
    }
  }

  /** The method and the path determine the route and the target: no two routes or ids share a pair. */
  lemma RouteIsDetermined(
      r1: GatewayRoute, ids1: seq<string>, r2: GatewayRoute, ids2: seq<string>, path: string)
    requires Names(r1, ids1, path) && Names(r2, ids2, path) && MethodFor(r1) == MethodFor(r2)
    ensures r1 == r2 && TargetFor(r1, ids1) == TargetFor(r2, ids2)
    ensures !r1.Create? ==> ids1 == ids2
  {
    var t, u := TargetFor(r1, ids1).value, TargetFor(r2, ids2).value;
    PathDeterminesTarget(t, u);
    if t.Invocation? {
      assert ids1 == [t.id] && ids2 == [u.id];
    } else if t.Artifact? {
      assert ids1 == [t.id, t.artifact] && ids2 == [u.id, u.artifact];
    }
  }

  /** A gateway request either needs an idempotency key or must not carry one; the key is needed
      exactly by the two routes that change something. */
  lemma KeyRuleIsDecided(fold: Fold, verb: Bytes, path: string)
    requires GatewayOperationAndMethod(fold, verb, path).Some?
    ensures var rule := IdempotencyRule(fold, verb, path);
            var operation := GatewayOperationAndMethod(fold, verb, path).value.0;
            rule.required != rule.forbidden && (rule.required <==> operation.Create? || operation.Cancel?)
  {
    var t := TargetOfPath(path);
    OperationOfTarget(Upper(fold, verb), t);
  }

  // ---- the operation of an assertion ----

  /** The length and first letter already tell the methods apart. */
  function NameKey(m: RuntimeMethod): (nat, char) {
    match m
    case ExchangeRuntimeToken => (20, 'E')
    case ResolveRegistration => (19, 'R')
    case ConfirmRegistration => (19, 'C')
    case CreateOrder => (11, 'C')
    case VerifyAndConfirmPayment => (23, 'V')
    case GetOrder => (8, 'G')
    case SyncIdentity => (12, 'S')
    case SyncVerificationStatus => (22, 'S')
    case DisableIdentity => (15, 'D')
    case GetBalance => (10, 'G')
    case ListLedger => (10, 'L')
    case GetSkuCatalog => (13, 'G')
    case GetOfferCatalog => (15, 'G')
    case ListSiteBranding => (16, 'L')
  }

  lemma NameHasKey(m: RuntimeMethod)
    ensures |m.Name()| == NameKey(m).0 && m.Name()[0] == NameKey(m).1
  {
  }

  lemma NamesAreDistinct(m: RuntimeMethod, n: RuntimeMethod)
    requires m.Name() == n.Name()
    ensures m == n
  {
    NameHasKey(m);
    NameHasKey(n);
    assert NameKey(m) == NameKey(n);
  }

  /** On an accepted path the method leaves room for one operation at most. */
  lemma OperationIsDetermined(fold: Fold, verb: Bytes, path: string, op1: Bytes, op2: Bytes)
    requires ValidateCanonicalPath(path) == None
    requires ValidOperationAndMethod(fold, verb, path, op1) && ValidOperationAndMethod(fold, verb, path, op2)
    ensures op1 == op2
  {
    if !IsRegisteredGatewayPath(path) {
      var name := AcceptedRuntimePath(path);
      RuntimeNameOf(name);
      var m: RuntimeMethod :| m.Name() == name && m.Operation() == Some(op1);
      var n: RuntimeMethod :| n.Name() == name && n.Operation() == Some(op2);
      NamesAreDistinct(m, n);
    }
  }

  lemma RuntimeNameOf(name: string)
    requires IsRuntimeMethod(name)
    ensures RuntimeOperation(RuntimePath(name)) == name && name != ""
  {
    var m: RuntimeMethod :| m.Name() == name;
    RuntimeNamesAreWords(m);
    RuntimePathSegments(name);
  }

  lemma AcceptedRuntimeOperation(path: string)
    requires ValidateCanonicalPath(path) == None && !IsRegisteredGatewayPath(path)
    ensures RuntimeOperation(path) != "" && IsRuntimeMethod(RuntimeOperation(path))
  {
    var name := AcceptedRuntimePath(path);
    RuntimeNameOf(name);
  }
}
