/** GatewayCreateRequest.Validate, and why an accepted request always has a fingerprint. */
module GatewayRequest {
  import opened Wrappers
  import opened GoText
  import opened GoStrings
  import opened JsonGrammar
  import opened Jcs
  import opened JcsTrailing
  import opened JcsWriter
  import JcsScanner
  import opened GoJson
  import opened NumberLocator
  import Utf8

  /** The request; `input` and `parameters` are what json.Marshal makes of the caller's values, None
      when it fails. */
  datatype CreateRequest = CreateRequest(
    sku: Bytes, taskRef: Bytes, schemaVersion: Bytes, input: Option<Bytes>, parameters: Option<Bytes>,
    moderationReceipt: Bytes)

  datatype RequestError =
    | MissingIDs | MissingSchemaVersion | NullInput | NullParameters
    | NotJSON(section: string) | TrailingJSON(section: string) | NotObject
    | NumberRejected(located: Located) | NotCanonical(section: string, reason: JcsError)

  const INPUT: string := "spec.input"
  const PARAMETERS: string := "spec.parameters"

  /** strings.TrimSpace(s) == "" for a Go string. */
  predicate BlankBytes(s: Bytes) {
    TrimSpace(Runes(s)) == ""
  }

  /** gatewayJSONNull. */
  predicate IsNull(raw: Bytes) {
    TrimSpace(Runes(raw)) == "null"
  }

  /** A string counts as missing exactly when it is made of white space. */
  lemma BlankIs(s: Bytes)
    ensures BlankBytes(s) <==> forall c | c in Runes(s) :: IsSpace(c)
  {
    TrimSpaceOf(Runes(s));
    if Blank(Runes(s)) {
      forall c | c in Runes(s)
        ensures IsSpace(c)
      {
        var i :| 0 <= i < |Runes(s)| && Runes(s)[i] == c;
      }
    }
  }

  /** A marshalled value counts as null exactly when it is the word with white space around it. */
  lemma NullIs(raw: Bytes)
    ensures IsNull(raw)
            <==> exists before, after :: Blank(before) && Blank(after) && Runes(raw) == before + "null" + after
  {
    TrimIsExact(Runes(raw), "null");
  }

  /** decodeGatewayJSONValue: one JSON value, leniently decoded, and nothing but space after it. */
  function DecodeGatewayJSONValue(raw: Bytes, section: string): Result<Value, RequestError> {
    match ParseValue(Runes(raw))
    case None => Err(NotJSON(section))
    case Some((doc, rest)) => if SkipSpace(rest) == "" then Ok(Lenient(doc)) else Err(TrailingJSON(section))
  }

  /** What validateGatewayInput and validateGatewayParameters accept. */
  ghost predicate SectionAccepted(raw: Bytes) {
    DecodeGatewayJSONValue(raw, "").Ok? && Canonicalize(raw).Ok?
  }

  /** What Validate accepts. */
  ghost predicate Accepted(q: CreateRequest) {
    && !BlankBytes(q.sku) && !BlankBytes(q.taskRef) && !BlankBytes(q.schemaVersion)
    && q.input.Some? && !IsNull(q.input.value) && SectionAccepted(q.input.value)
    && q.parameters.Some? && !IsNull(q.parameters.value) && SectionAccepted(q.parameters.value)
    && DecodeGatewayJSONValue(q.parameters.value, "").value.Obj?
  }

  lemma CanonicalizeOfDecodable(raw: Bytes)
    requires ParseValue(Runes(raw)).Some? && Utf8.Valid(raw)
    ensures ParseValue(Effective(Utf8.Decode(raw).value)).Some?
  {
    RunesOfValid(raw);
    NotBlank(Runes(raw));
  }

  /** The verdict on a text and the tree decoded from it: accepted exactly when it canonicalizes; a
      number error names the first bad number whenever the tree still holds one; otherwise the reason is
      passed on. */
  ghost predicate Verdict(raw: Bytes, value: Value, section: string, error: Option<RequestError>, at: seq<Step>) {
    match error
    case None => Canonicalize(raw).Ok?
    case Some(NumberRejected(located)) =>
      && Canonicalize(raw).Err? && IsNumberError(Canonicalize(raw).error)
      && FirstBad(value, at) && located == Report(value, section, at)
    case Some(NotCanonical(s, reason)) =>
      s == section && Canonicalize(raw) == Err(reason) && (IsNumberError(reason) ==> NoBadNumber(value))
    case Some(_) => false
  }

  /** validateGatewayCanonicalizable. */
  method ValidateGatewayCanonicalizable(raw: Bytes, value: Value, section: string)
      returns (error: Option<RequestError>, ghost at: seq<Step>)
    requires ParseValue(Runes(raw)).Some?
    ensures Verdict(raw, value, section, error, at)
  {
    if Utf8.Valid(raw) {
      CanonicalizeOfDecodable(raw);
    }
    at := [];
    var canonical := CanonicalizeJSON(raw);
    if canonical.Ok? {
      return None, at;
    }
    if canonical.error == NumberForm || canonical.error == NumberRange {
      var located;
      located, at := LocateUncanonicalizableNumber(value, section);
      if located.Some? {
        return Some(NumberRejected(located.value)), at;
      }
    }
    return Some(NotCanonical(section, canonical.error)), at;
  }

  /** What a section is told: a decoding error, or the verdict on the decoded value. */
  ghost predicate InputReport(raw: Bytes, error: Option<RequestError>, at: seq<Step>) {
    match DecodeGatewayJSONValue(raw, INPUT)
    case Err(e) => error == Some(e)
    case Ok(value) => Verdict(raw, value, INPUT, error, at)
  }

  ghost predicate ParametersReport(raw: Bytes, error: Option<RequestError>, at: seq<Step>) {
    match DecodeGatewayJSONValue(raw, PARAMETERS)
    case Err(e) => error == Some(e)
    case Ok(value) => if value.Obj? then Verdict(raw, value, PARAMETERS, error, at) else error == Some(NotObject)
  }

  method ValidateGatewayInput(raw: Bytes) returns (error: Option<RequestError>, ghost at: seq<Step>)
    ensures error.None? <==> SectionAccepted(raw)
    ensures InputReport(raw, error, at)
  {
    at := [];
    var value := DecodeGatewayJSONValue(raw, INPUT);
    if value.Err? {
      return Some(value.error), at;
    }
    error, at := ValidateGatewayCanonicalizable(raw, value.value, INPUT);
  }

  method ValidateGatewayParameters(raw: Bytes) returns (error: Option<RequestError>, ghost at: seq<Step>)
    ensures error.None? <==> SectionAccepted(raw) && DecodeGatewayJSONValue(raw, "").value.Obj?
    ensures ParametersReport(raw, error, at)
  {
    at := [];
    var value := DecodeGatewayJSONValue(raw, PARAMETERS);
    if value.Err? {
      return Some(value.error), at;
    }
    if !value.value.Obj? {
      return Some(NotObject), at;
    }
    error, at := ValidateGatewayCanonicalizable(raw, value.value, PARAMETERS);
  }

  /** What Validate answers: the first of its checks that fails. */
  ghost predicate ValidateReport(q: CreateRequest, error: Option<RequestError>, at: seq<Step>) {
    if BlankBytes(q.sku) || BlankBytes(q.taskRef) then error == Some(MissingIDs)
    else if BlankBytes(q.schemaVersion) then error == Some(MissingSchemaVersion)
    else if q.input.None? || IsNull(q.input.value) then error == Some(NullInput)
    else if q.parameters.None? || IsNull(q.parameters.value) then error == Some(NullParameters)
    else if SectionAccepted(q.input.value) then ParametersReport(q.parameters.value, error, at)
    else InputReport(q.input.value, error, at)
  }

  /** Validate. */
  method Validate(q: CreateRequest) returns (error: Option<RequestError>, ghost at: seq<Step>)
    ensures error.None? <==> Accepted(q)
    ensures ValidateReport(q, error, at)
  {
    at := [];
    if BlankBytes(q.sku) || BlankBytes(q.taskRef) {
      return Some(MissingIDs), at;
    }
    if BlankBytes(q.schemaVersion) {
      return Some(MissingSchemaVersion), at;
    }
    if q.input.None? || IsNull(q.input.value) {
      return Some(NullInput), at;
    }
    if q.parameters.None? || IsNull(q.parameters.value) {
      return Some(NullParameters), at;
    }
    error, at := ValidateGatewayInput(q.input.value);
    if error.Some? {
      return;
    }
    error, at := ValidateGatewayParameters(q.parameters.value);
  }

  // ---- the body ----

  function SpecFields(version: Bytes, input: string, parameters: string): (fields: seq<Field>)
    ensures fields != []
  {
    [Field("schema_version", GoQuote(version)), Field("input", input), Field("parameters", parameters)]
  }

  function BodyFields(q: CreateRequest, spec: string): (fields: seq<Field>)
    ensures fields != []
  {
    [Field("sku_id", GoQuote(q.sku)), Field("task_ref", GoQuote(q.taskRef)), Field("spec", spec),
     Field("moderation_receipt", GoQuote(q.moderationReceipt))]
  }

  function SpecText(q: CreateRequest): string
    requires q.input.Some? && q.parameters.Some?
  {
    StructText(SpecFields(q.schemaVersion, Runes(q.input.value), Runes(q.parameters.value)))
  }

  /** json.Marshal of the request: compact, with the marshalled input and parameters in place. */
  function Body(q: CreateRequest): Bytes
    requires q.input.Some? && q.parameters.Some?
  {
    Utf8.Encode(StructText(BodyFields(q, SpecText(q))))
  }

  /** An accepted section reads, inside any enclosing text, as the value it canonicalizes to. */
  lemma AcceptedSectionReads(raw: Bytes)
    requires SectionAccepted(raw)
    ensures ReadValue(raw).Ok? && KeysAllowed(ReadValue(raw).value)
    ensures Reads(Runes(raw), ReadValue(raw).value) && Utf8.Encode(Runes(raw)) == raw
  {
    var t := Utf8.Decode(raw).value;
    RunesOfValid(raw);
    Utf8.EncodeDecode(raw);
    NotBlank(t);
    JcsScanner.ScannerIsExact(raw, t);
  }

  function SpecValues(q: CreateRequest, input: Value, parameters: Value): seq<Value> {
    [Str(Runes(q.schemaVersion)), input, parameters]
  }

  function BodyValues(q: CreateRequest, spec: Value): seq<Value> {
    [Str(Runes(q.sku)), Str(Runes(q.taskRef)), spec, Str(Runes(q.moderationReceipt))]
  }

  lemma GatherKeysAllowed(fields: seq<Field>, values: seq<Value>)
    requires FieldsRead(fields, values) && DistinctNames(fields)
    requires forall i | 0 <= i < |values| :: KeysAllowed(values[i])
    ensures KeysAllowed(Obj(Gather(fields, values, map[])))
  {
    var m := Gather(fields, values, map[]);
    GatherHolds(fields, values, map[]);
    forall k | k in m
      ensures KeyAllowed(k) && KeysAllowed(m[k])
    {
      var i :| 0 <= i < |fields| && fields[i].name == k;
      assert FieldReads(fields[i], values[i]) && KeysAllowed(values[i]);
    }
  }

  /** The value of an accepted request's body, from the values of its two sections. */
  function SpecOf(q: CreateRequest, input: Value, parameters: Value): Value
    requires q.input.Some? && q.parameters.Some?
  {
    Obj(Gather(SpecFields(q.schemaVersion, Runes(q.input.value), Runes(q.parameters.value)),
               SpecValues(q, input, parameters), map[]))
  }

  function BodyOf(q: CreateRequest, input: Value, parameters: Value): Value
    requires q.input.Some? && q.parameters.Some?
  {
    Obj(Gather(BodyFields(q, SpecText(q)), BodyValues(q, SpecOf(q, input, parameters)), map[]))
  }

  lemma SpecTagsArePlain(version: Bytes, input: string, parameters: string)
    ensures DistinctNames(SpecFields(version, input, parameters))
    ensures forall f | f in SpecFields(version, input, parameters) :: PlainName(f.name)
  {
  }

  lemma SpecFieldsRead(version: Bytes, input: string, parameters: string, values: seq<Value>)
    requires |values| == 3 && values[0] == Str(Runes(version))
    requires Reads(input, values[1]) && Reads(parameters, values[2])
    ensures FieldsRead(SpecFields(version, input, parameters), values)
  {
    var fields := SpecFields(version, input, parameters);
    QuoteReads(version);
    SpecTagsArePlain(version, input, parameters);
    assert FieldReads(fields[0], values[0]) && FieldReads(fields[1], values[1]) && FieldReads(fields[2], values[2]);
  }

  lemma SpecReads(q: CreateRequest, input: Value, parameters: Value)
    requires q.input.Some? && q.parameters.Some?
    requires Reads(Runes(q.input.value), input) && Reads(Runes(q.parameters.value), parameters)
    requires KeysAllowed(input) && KeysAllowed(parameters)
    ensures Reads(SpecText(q), SpecOf(q, input, parameters))
    ensures KeysAllowed(SpecOf(q, input, parameters))
  {
    var fields := SpecFields(q.schemaVersion, Runes(q.input.value), Runes(q.parameters.value));
    var values := SpecValues(q, input, parameters);
    SpecFieldsRead(q.schemaVersion, Runes(q.input.value), Runes(q.parameters.value), values);
    SpecTagsArePlain(q.schemaVersion, Runes(q.input.value), Runes(q.parameters.value));
    StructReads(fields, values);
    GatherKeysAllowed(fields, values);
  }

  lemma TagsArePlain(q: CreateRequest, spec: string)
    ensures DistinctNames(BodyFields(q, spec))
    ensures forall i | 0 <= i < |BodyFields(q, spec)| :: PlainName(BodyFields(q, spec)[i].name)
  {
  }

  lemma BodyFieldsRead(q: CreateRequest, text: string, spec: Value)
    requires Reads(text, spec)
    ensures FieldsRead(BodyFields(q, text), BodyValues(q, spec))
  {
    var fields, values := BodyFields(q, text), BodyValues(q, spec);
    TagsArePlain(q, text);
    QuoteReads(q.sku);
    QuoteReads(q.taskRef);
    QuoteReads(q.moderationReceipt);
    assert FieldReads(fields[0], values[0]) && FieldReads(fields[1], values[1]);
    assert FieldReads(fields[2], values[2]) && FieldReads(fields[3], values[3]);
  }

  lemma BodyReads(q: CreateRequest, spec: Value)
    requires q.input.Some? && q.parameters.Some? && Reads(SpecText(q), spec) && KeysAllowed(spec)
    ensures var body := Obj(Gather(BodyFields(q, SpecText(q)), BodyValues(q, spec), map[]));
            Reads(StructText(BodyFields(q, SpecText(q))), body) && KeysAllowed(body)
  {
    BodyFieldsRead(q, SpecText(q), spec);
    TagsArePlain(q, SpecText(q));
    StructReads(BodyFields(q, SpecText(q)), BodyValues(q, spec));
    GatherKeysAllowed(BodyFields(q, SpecText(q)), BodyValues(q, spec));
  }

  lemma SectionsHeld(q: CreateRequest, input: Value, parameters: Value)
    requires q.input.Some? && q.parameters.Some?
    ensures var body := BodyOf(q, input, parameters).members;
            && "spec" in body && body["spec"].Obj?
            && "input" in body["spec"].members && body["spec"].members["input"] == input
            && "parameters" in body["spec"].members && body["spec"].members["parameters"] == parameters
  {
    var spec := SpecFields(q.schemaVersion, Runes(q.input.value), Runes(q.parameters.value));
    var body := BodyFields(q, SpecText(q));
    GatherHolds(spec, SpecValues(q, input, parameters), map[]);
    GatherHolds(body, BodyValues(q, SpecOf(q, input, parameters)), map[]);
    assert spec[1].name == "input" && spec[2].name == "parameters" && body[2].name == "spec";
  }

  /** The members of the spec, by name. */
  lemma SpecMembers(q: CreateRequest, input: Value, parameters: Value)
    requires q.input.Some? && q.parameters.Some?
    ensures var spec := SpecOf(q, input, parameters).members;
            && spec.Keys == {"schema_version", "input", "parameters"}
            && spec["schema_version"] == Str(Runes(q.schemaVersion))
            && spec["input"] == input && spec["parameters"] == parameters
  {
    var fields := SpecFields(q.schemaVersion, Runes(q.input.value), Runes(q.parameters.value));
    GatherHolds(fields, SpecValues(q, input, parameters), map[]);
    assert fields[0].name == "schema_version" && fields[1].name == "input" && fields[2].name == "parameters";
  }

  /** The members of the body, by name. */
  lemma BodyMembers(q: CreateRequest, input: Value, parameters: Value)
    requires q.input.Some? && q.parameters.Some?
    ensures var body := BodyOf(q, input, parameters).members;
            && body.Keys == {"sku_id", "task_ref", "spec", "moderation_receipt"}
            && body["sku_id"] == Str(Runes(q.sku)) && body["task_ref"] == Str(Runes(q.taskRef))
            && body["moderation_receipt"] == Str(Runes(q.moderationReceipt))
            && body["spec"] == SpecOf(q, input, parameters)
  {
    var fields := BodyFields(q, SpecText(q));
    GatherHolds(fields, BodyValues(q, SpecOf(q, input, parameters)), map[]);
    assert fields[0].name == "sku_id" && fields[1].name == "task_ref";
    assert fields[2].name == "spec" && fields[3].name == "moderation_receipt";
  }

  /** The whole body of an accepted request canonicalizes, and its value carries the values of the
      input and the parameters unchanged (BodyMembers and SpecMembers have the other members). */
  lemma AcceptedBodyCanonicalizes(q: CreateRequest)
    requires Accepted(q)
    ensures Canonicalize(Body(q)).Ok? && ReadValue(q.input.value).Ok? && ReadValue(q.parameters.value).Ok?
    ensures ReadValue(Body(q)) == Ok(BodyOf(q, ReadValue(q.input.value).value, ReadValue(q.parameters.value).value))
    ensures var body := ReadValue(Body(q));
            && body.Ok? && body.value.Obj?
            && "spec" in body.value.members && body.value.members["spec"].Obj?
            && var spec := body.value.members["spec"].members;
               && "input" in spec && Ok(spec["input"]) == ReadValue(q.input.value)
               && "parameters" in spec && Ok(spec["parameters"]) == ReadValue(q.parameters.value)
  {
    AcceptedSectionReads(q.input.value);
    AcceptedSectionReads(q.parameters.value);
    var input, parameters := ReadValue(q.input.value).value, ReadValue(q.parameters.value).value;
    SpecReads(q, input, parameters);
    BodyReads(q, SpecOf(q, input, parameters));
    ReadsCanonically(StructText(BodyFields(q, SpecText(q))), BodyOf(q, input, parameters));
    SectionsHeld(q, input, parameters);
  }

  /** A text rejected for a number, and without duplicate keys, always has that number located. */
  lemma NumberErrorsAreLocated(raw: Bytes)
    requires ParseValue(Runes(raw)).Some? && UniqueKeys(DocOf(Runes(raw)))
    requires Canonicalize(raw).Err? && IsNumberError(Canonicalize(raw).error)
    ensures !NoBadNumber(Lenient(DocOf(Runes(raw))))
  {
    RunesOfValid(raw);
    NotBlank(Runes(raw));
    LocatorIsExact(DocOf(Runes(raw)));
  }

  /** The names by which errors refer to the two sections. */
  lemma SectionNames(raw: Bytes)
    ensures ParseValue(Runes(raw)).None? ==>
      && InputReport(raw, Some(NotJSON("spec.input")), [])
      && ParametersReport(raw, Some(NotJSON("spec.parameters")), [])
  {
  }

  /** So on unique keys a number error is reported with the first bad number and its path. */
  lemma UniqueKeysReportTheNumber(
      raw: Bytes, value: Value, section: string, error: Option<RequestError>, at: seq<Step>)
    requires DecodeGatewayJSONValue(raw, section) == Ok(value) && Verdict(raw, value, section, error, at)
    requires UniqueKeys(DocOf(Runes(raw)))
    requires Canonicalize(raw).Err? && IsNumberError(Canonicalize(raw).error)
    ensures FirstBad(value, at) && error == Some(NumberRejected(Report(value, section, at)))
  {
    NumberErrorsAreLocated(raw);
  }
}

/** The request that create sends, end to end. */
module GatewayCreate {
  import opened Wrappers
  import opened GoStrings
  import opened Utf8
  import opened Fingerprint
  import opened GatewayRequest
  import Jcs
  import Path
  import PathTheorems

  const POST: Bytes := "POST"

  lemma UpperPost(fold: Fold)
    ensures Upper(fold, POST) == POST
  {
    var s := POST;
    DecodeEncode(s);
    EncodeAscii(s);
    RunesOfValid(s);
    assert UpperRunes(fold, s[3..]) == s[3..];
    assert UpperRunes(fold, s[2..]) == s[2..];
    assert UpperRunes(fold, s[1..]) == s[1..];
  }

  lemma CreateRoute(fold: Fold, q: Request)
    requires q.verb == POST && q.path == Path.PREFIX
    ensures CheckRoute(fold, q) == None
  {
    UpperPost(fold);
    PathTheorems.TargetIsAccepted(PathTheorems.Collection);
    PathTheorems.OperationOfTarget(POST, PathTheorems.Collection);
  }

  lemma EmptyBodyIsCanonical(body: Bytes)
    requires body == "{}"
    ensures Jcs.Canonicalize(body) == Ok(body)
  {
    ReadEmptyObject();
    var v := Jcs.Obj(map[]);
    assert v.members.Keys == {};
    assert Jcs.Text(v) == "{}";
    EncodeAscii("{}");
  }

  lemma CreateFields(q: Request)
    requires q.verb == POST && q.actor != "" && !HasLineBreak(q.actor) && !HasLineBreak(q.key)
    ensures CheckFields(q) == None
  {
  }

  lemma CheckedPreimage(fold: Fold, q: Request, body: Bytes)
    requires CheckRoute(fold, q) == None && CheckFields(q) == None && Jcs.Canonicalize(q.body) == Ok(body)
    ensures Preimage(fold, q) == Ok(Lines(Upper(fold, q.verb), q.path, q.actor, q.key, body))
  {
  }

  lemma LinesWritten(upper: Bytes, path: Bytes, actor: Bytes, key: Bytes, body: Bytes)
    requires upper == "POST" && path == "/runtime/v1/invocations" && actor == "alice" && key == "key-1" && body == "{}"
    ensures Lines(upper, path, actor, key, body) == "POST\n/runtime/v1/invocations\nalice\nkey-1\n{}"
  {
  }

  lemma PlainWords(actor: Bytes, key: Bytes)
    requires actor == "alice" && key == "key-1"
    ensures !HasLineBreak(actor) && !HasLineBreak(key)
  {
  }

  /** The hashed text of a create request, written out. */
  lemma CreateRequestText(fold: Fold, q: Request, text: Bytes)
    requires q.verb == "POST" && q.path == "/runtime/v1/invocations" && q.actor == "alice" && q.key == "key-1"
    requires q.body == "{}" && text == "POST\n/runtime/v1/invocations\nalice\nkey-1\n{}"
    ensures Preimage(fold, q) == Ok(text)
  {
    EmptyBodyIsCanonical(q.body);
    CreateRoute(fold, q);
    PlainWords(q.actor, q.key);
    CreateFields(q);
    UpperPost(fold);
    CheckedPreimage(fold, q, q.body);
    LinesWritten(Upper(fold, q.verb), q.path, q.actor, q.key, q.body);
  }

  /** A create request that Validate accepts can always be fingerprinted: with an actor and a key free of
      line breaks, the text to hash exists, so signing never fails on the body. */
  lemma AcceptedRequestHasFingerprint(fold: Fold, create: CreateRequest, actor: Bytes, key: Bytes, q: Request)
    requires Accepted(create) && q == Request(POST, Path.PREFIX, actor, key, Body(create))
    requires actor != "" && !HasLineBreak(actor) && !HasLineBreak(key)
    ensures Preimage(fold, q).Ok?
  {
    AcceptedBodyCanonicalizes(create);
    CreateRoute(fold, q);
    CreateFields(q);
    CheckedRequestHasPreimage(fold, q);
  }
}
