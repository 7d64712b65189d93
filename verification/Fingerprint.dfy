/** RequestFingerprint: the text that is hashed, and what it determines. */
module Fingerprint {
  import opened Wrappers
  import opened GoText
  import opened GoStrings
  import opened Sequences
  import opened Utf8
  import opened Path
  import opened PathTheorems
  import Jcs
  import Base64
  import JcsRoundTrip
  import JcsScanner

  /** The business identity of a request.  `verb` is the HTTP method, or the fixed method of a gRPC call. */
  datatype Request = Request(verb: Bytes, path: Bytes, actor: Bytes, key: Bytes, body: Bytes)

  datatype FingerprintError =
    | BadPath(path: PathError) | MethodMismatch | BadActor | BadKey | BadMethod | BadBody(body: Jcs.JcsError)

  /** The five fields, one per line. */
  function Lines(upper: Bytes, path: Bytes, actor: Bytes, key: Bytes, canonicalBody: Bytes): Bytes {
    upper + "\n" + path + "\n" + actor + "\n" + key + "\n" + canonicalBody
  }

  function CheckRoute(fold: Fold, q: Request): Option<FingerprintError> {
    match ValidateCanonicalPath(q.path)
    case Some(e) => Some(BadPath(e))
    case None =>
      if IsRegisteredGatewayPath(q.path) && GatewayOperationAndMethod(fold, q.verb, q.path).None? then
        Some(MethodMismatch)
      else None
  }

  function CheckFields(q: Request): Option<FingerprintError> {
    if q.actor == "" || HasLineBreak(q.actor) then Some(BadActor)
    else if HasLineBreak(q.key) then Some(BadKey)
    else if q.verb == "" || HasLineBreak(q.verb) then Some(BadMethod)
    else None
  }

  /** Everything RequestFingerprint requires of a request but the body. */
  function CheckRequest(fold: Fold, q: Request): Option<FingerprintError> {
    var route := CheckRoute(fold, q);
    if route.Some? then route else CheckFields(q)
  }

  /** The text RequestFingerprint hashes, or the first check that fails. */
  ghost function Preimage(fold: Fold, q: Request): Result<Bytes, FingerprintError> {
    match CheckRequest(fold, q)
    case Some(e) => Err(e)
    case None =>
      match Jcs.Canonicalize(q.body)
      case Err(e) => Err(BadBody(e))
      case Ok(canonicalBody) => Ok(Lines(Upper(fold, q.verb), q.path, q.actor, q.key, canonicalBody))
  }

  /** RequestFingerprint, for a hash function. */
  ghost function RequestFingerprint(fold: Fold, sha256: Bytes -> Bytes, q: Request): Result<Bytes, FingerprintError> {
    var text :- Preimage(fold, q);
    Ok(Base64.Encode64(sha256(text)))
  }

  // ---- the fields cannot be split another way ----

  lemma SplitLine(a: Bytes, rest: Bytes, b: Bytes, other: Bytes)
    requires '\n' !in a && '\n' !in b && a + "\n" + rest == b + "\n" + other
    ensures a == b && rest == other
  {
    var s := a + "\n" + rest;
    IndexOfAfter(a, '\n', rest);
    IndexOfAfter(b, '\n', other);
    assert a == s[..|a|] && b == s[..|a|];
    assert rest == s[|a| + 1..] && other == s[|a| + 1..];
  }

  lemma LinesNest(upper: Bytes, path: Bytes, actor: Bytes, key: Bytes, body: Bytes)
    ensures Lines(upper, path, actor, key, body)
            == upper + "\n" + (path + "\n" + (actor + "\n" + (key + "\n" + body)))
  {
    Assoc(upper + "\n" + path + "\n" + actor + "\n", key + "\n", body);
    Assoc(upper + "\n" + path + "\n" + actor + "\n", key, "\n");
    Assoc(upper + "\n" + path + "\n", actor + "\n", key + "\n" + body);
    Assoc(upper + "\n" + path + "\n", actor, "\n");
    Assoc(upper + "\n", path + "\n", actor + "\n" + (key + "\n" + body));
    Assoc(upper + "\n", path, "\n");
  }

  lemma TargetIsOneLine(t: Target)
    requires ValidTarget(t)
    ensures '\n' !in PathOf(t)
  {
    if !t.Collection? {
      JoinKeepsOut(Tail(t), '\n');
    }
  }

  lemma RuntimePathIsOneLine(m: RuntimeMethod)
    ensures '\n' !in RuntimePath(m.Name())
  {
    RuntimeNamesAreWords(m);
  }

  lemma PathIsOneLine(path: string)
    requires Registered(path)
    ensures '\n' !in path
  {
    if t :| ValidTarget(t) && PathOf(t) == path {
      TargetIsOneLine(t);
    } else {
      var name :| IsRuntimeMethod(name) && RuntimePath(name) == path;
      var m: RuntimeMethod :| m.Name() == name;
      RuntimePathIsOneLine(m);
    }
  }

  lemma LinesInjective(a: Bytes, p: Bytes, x: Bytes, k: Bytes, body: Bytes,
                       b: Bytes, q: Bytes, y: Bytes, l: Bytes, other: Bytes)
    requires '\n' !in a && '\n' !in p && '\n' !in x && '\n' !in k
    requires '\n' !in b && '\n' !in q && '\n' !in y && '\n' !in l
    requires Lines(a, p, x, k, body) == Lines(b, q, y, l, other)
    ensures a == b && p == q && x == y && k == l && body == other
  {
    LinesNest(a, p, x, k, body);
    LinesNest(b, q, y, l, other);
    SplitLine(a, p + "\n" + (x + "\n" + (k + "\n" + body)), b, q + "\n" + (y + "\n" + (l + "\n" + other)));
    SplitLine(p, x + "\n" + (k + "\n" + body), q, y + "\n" + (l + "\n" + other));
    SplitLine(x, k + "\n" + body, y, l + "\n" + other);
    SplitLine(k, body, l, other);
  }

  lemma AcceptedPathIsOneLine(path: string)
    requires ValidateCanonicalPath(path) == None
    ensures '\n' !in path
  {
    ValidatorIsExact(path);
    PathIsOneLine(path);
  }

  lemma CheckedPath(fold: Fold, q: Request)
    requires CheckRoute(fold, q) == None
    ensures '\n' !in q.path
  {
    AcceptedPathIsOneLine(q.path);
  }

  lemma CheckedFields(fold: Fold, q: Request)
    requires CheckFields(q) == None
    ensures '\n' !in Upper(fold, q.verb) && '\n' !in q.actor && '\n' !in q.key
  {
    UpperKeepsLine(fold, q.verb);
  }

  // ---- the theorem ----

  /** Two requests are the same business request. */
  predicate SameIdentity(fold: Fold, q: Request, r: Request) {
    && Upper(fold, q.verb) == Upper(fold, r.verb) && q.path == r.path
    && q.actor == r.actor && q.key == r.key && Jcs.ReadValue(q.body) == Jcs.ReadValue(r.body)
  }

  /** The hashed texts of two accepted requests are equal exactly when the upper-cased methods, the
      paths, the actors, the idempotency keys and the values of the bodies are. */
  lemma PreimageIsTheIdentity(fold: Fold, q: Request, r: Request)
    requires Preimage(fold, q).Ok? && Preimage(fold, r).Ok?
    ensures Preimage(fold, q) == Preimage(fold, r) <==> SameIdentity(fold, q, r)
  {
    CheckedPath(fold, q);
    CheckedPath(fold, r);
    CheckedFields(fold, q);
    CheckedFields(fold, r);
    JcsRoundTrip.CanonicalFormDeterminesValue(q.body, r.body);
    if Preimage(fold, q) == Preimage(fold, r) {
      LinesInjective(Upper(fold, q.verb), q.path, q.actor, q.key, Jcs.Canonicalize(q.body).value,
                     Upper(fold, r.verb), r.path, r.actor, r.key, Jcs.Canonicalize(r.body).value);
    }
  }

  lemma CheckedRequestHasPreimage(fold: Fold, q: Request)
    requires CheckRoute(fold, q) == None && CheckFields(q) == None && Jcs.Canonicalize(q.body).Ok?
    ensures Preimage(fold, q).Ok?
  {
  }

  // ---- what the text is ----

  lemma FiveLines(a: Bytes, p: Bytes, x: Bytes, k: Bytes, body: Bytes)
    requires '\n' !in a && '\n' !in p && '\n' !in x && '\n' !in k && '\n' !in body
    ensures Split(Lines(a, p, x, k, body), '\n') == [a, p, x, k, body]
  {
    var parts := [a, p, x, k, body];
    LinesNest(a, p, x, k, body);
    assert Join([body], "\n") == body;
    JoinTwo(k, [body]);
    JoinTwo(x, [k, body]);
    JoinTwo(p, [x, k, body]);
    JoinTwo(a, [p, x, k, body]);
    SplitJoin(parts, '\n');
  }

  lemma JoinTwo(first: string, rest: seq<string>)
    requires rest != []
    ensures Join([first] + rest, "\n") == first + "\n" + Join(rest, "\n")
    ensures first + "\n" + Join(rest, "\n") == first + ("\n" + Join(rest, "\n"))
  {
    assert ([first] + rest)[1..] == rest;
  }

  lemma CanonicalBodyIsOneLine(body: Bytes)
    requires Jcs.Canonicalize(body).Ok?
    ensures '\n' !in Jcs.Canonicalize(body).value
  {
    JcsRoundTrip.ReadIsReadable(body);
    var v := Jcs.ReadValue(body).value;
    JcsRoundTrip.TextIsPrintable(v);
    EncodeKeepsOut(Jcs.Text(v), '\n');
  }

  /** The hashed text has exactly five lines: the upper-cased method, the path, the actor, the
      idempotency key and the canonical body, in this order. */
  lemma PreimageIsFiveLines(fold: Fold, q: Request)
    requires Preimage(fold, q).Ok?
    ensures Jcs.Canonicalize(q.body).Ok?
    ensures Split(Preimage(fold, q).value, '\n')
            == [Upper(fold, q.verb), q.path, q.actor, q.key, Jcs.Canonicalize(q.body).value]
  {
    CheckedPath(fold, q);
    CheckedFields(fold, q);
    CanonicalBodyIsOneLine(q.body);
    FiveLines(Upper(fold, q.verb), q.path, q.actor, q.key, Jcs.Canonicalize(q.body).value);
  }

  // ---- which requests have one ----

  /** Without line breaks of either kind. */
  predicate IsLine(s: Bytes) {
    forall c | c in s :: c != '\r' && c != '\n'
  }

  /** The path addresses something, and a gateway path is called with a method of one of its routes. */
  ghost predicate Routed(fold: Fold, verb: Bytes, path: Bytes) {
    || (exists route, ids :: Names(route, ids, path) && MethodFor(route) == Some(Upper(fold, verb)))
    || (exists name :: IsRuntimeMethod(name) && RuntimePath(name) == path)
  }

  lemma RoutedIsChecked(fold: Fold, q: Request)
    ensures CheckRoute(fold, q) == None <==> Routed(fold, q.verb, q.path)
  {
    var upper := Upper(fold, q.verb);
    ValidatorIsExact(q.path);
    if IsRegisteredGatewayPath(q.path) {
      GatewayRouted(fold, q);
    } else {
      forall route, ids
        ensures !Names(route, ids, q.path)
      {
        if Names(route, ids, q.path) {
          PathOfTarget(TargetFor(route, ids).value);
        }
      }
      if CheckRoute(fold, q) == None {
        var name := AcceptedRuntimePath(q.path);
      }
    }
  }

  lemma GatewayRouted(fold: Fold, q: Request)
    requires IsRegisteredGatewayPath(q.path)
    ensures CheckRoute(fold, q) == None <==> Routed(fold, q.verb, q.path)
  {
    var upper := Upper(fold, q.verb);
    var t := TargetOfPath(q.path);
    TargetIsAccepted(t);
    forall name | RuntimePath(name) == q.path
      ensures false
    {
      RuntimePathIsNotGateway(name);
    }
    if route, ids :| Names(route, ids, q.path) && MethodFor(route) == Some(upper) {
      OperationIsExact(upper, q.path, route);
    } else if OperationOf(upper, q.path).Some? {
      var route := OperationOf(upper, q.path).value.0;
      OperationIsExact(upper, q.path, route);
    }
  }

  lemma LineFieldsChecked(q: Request)
    ensures CheckFields(q) == None
            <==> q.actor != "" && IsLine(q.actor) && IsLine(q.key) && q.verb != "" && IsLine(q.verb)
  {
  }

  lemma PreimageChecked(fold: Fold, q: Request)
    ensures Preimage(fold, q).Ok?
            <==> CheckRoute(fold, q) == None && CheckFields(q) == None && Jcs.Canonicalize(q.body).Ok?
  {
  }

  /** A request has a fingerprint exactly when its path and method are registered together, its actor and
      method are nonempty lines, its key is a line, and its body canonicalizes. */
  lemma FingerprintedRequests(fold: Fold, q: Request)
    ensures Preimage(fold, q).Ok?
            <==> && Routed(fold, q.verb, q.path)
                 && q.actor != "" && IsLine(q.actor) && IsLine(q.key) && q.verb != "" && IsLine(q.verb)
                 && Jcs.Canonicalize(q.body).Ok?
  {
    PreimageChecked(fold, q);
    LineFieldsChecked(q);
    RoutedIsChecked(fold, q);
  }

  lemma EmptyObjectText()
    ensures Jcs.DecodeText("{}") == Ok(Jcs.Obj(map[]))
  {
    assert "{}"[1..] == "}";
  }

  lemma ReadEmptyObject()
    ensures Jcs.ReadValue("{}") == Ok(Jcs.Obj(map[]))
  {
    EncodeAscii("{}");
    DecodeEncode("{}");
    JcsScanner.ScanPast("{}", "");
    assert "{}" + "" == "{}";
    EmptyObjectText();
  }

  lemma ScanOfBlank(body: Bytes)
    requires Valid(body) && Blank(Decode(body).value)
    ensures Jcs.Scan(body, false)
  {
    var t := Decode(body).value;
    EncodeDecode(body);
    JcsScanner.ScanOfEncoding(t, false);
    JcsScanner.ScanPast(t, "");
    assert t + "" == t;
  }

  /** A blank body is the empty object. */
  lemma BlankBodyIsEmptyObject(body: Bytes)
    requires Valid(body) && Blank(Decode(body).value)
    ensures Jcs.ReadValue(body) == Jcs.ReadValue("{}") == Ok(Jcs.Obj(map[]))
  {
    ScanOfBlank(body);
    EmptyObjectText();
    ReadEmptyObject();
  }
}
