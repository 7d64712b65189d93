# Verified model of the musereel SDK's canonical JSON, SSE stream, token cache and fingerprint layers

The SDK signs every request with a fingerprint of its business content, reads results from an event
stream, and shares one short-lived token between concurrent callers.  This project models the code that
makes those three things correct and proves what callers rely on.

- **Text.**  `Utf8`, `GoText`, `GoStrings`, `ByteOrder`, `Base64`: Go strings as bytes, their decoding,
  and the standard-library functions used here.
- **Canonical JSON** (`jcs/jcs.go`).  `JsonGrammar` is a recursive-descent reference grammar of RFC 8259,
  `Jcs` says which documents are accepted, what they denote and how a value is written.  The scanner
  (`JcsScanner`), the token-stream decoder (`JcsDecoder`), and the writer with its in-place key sort
  (`JcsWriter`) are methods proved against those functions; `JcsRoundTrip`, `JcsTrailing`, `JcsFaithful`,
  `JsonLocality` and `Utf16Order` hold the theorems.  `JsonLexical` writes the lexical grammar declaratively
  and proves that the string and number readers accept exactly it; `JcsCase` proves that the letter case of
  escapes does not matter.
- **Event stream** (`sse.go`).  `Sse` has the step function `Next` and the class `GatewaySSEStream` whose
  methods compute it; `SseRuns` proves what holds over every body and every number of calls, including
  calls after errors; `SseFrames` proves that legal frames are delivered exactly, and `SseTexts` states that
  from outside, for events and their data texts, together with what is refused.
- **Token cache and retries** (`token.go`, `client.go`, `gateway.go`, `runtime_client.go`).
  `TokenSource` has the critical sections as functions and as a class; `TokenProtocol` interleaves any
  number of callers running the retry loop over them; `TokenTheorems` proves statements about whole runs.
  `RetryLoops` has the loops themselves, over surroundings whose every answer is arbitrary;
  `RetryTheorems` ties them to the protocol's callers and to the fingerprint.
- **Paths, fingerprint, assertions** (`path.go`, `assertion.go`).  `Path` and `PathTheorems`,
  `Fingerprint`, `Assertion`, `AssertionTheorems` and the concrete inputs of `AssertionWitness`;
  `AssertionExact` says exactly what verification accepts, `SigningExact` exactly what is signed and what the
  claims then say.
- **Create requests** (`gateway.go`).  `GoJson` models the compact output of encoding/json,
  `NumberLocator` the search for the number to report, `GatewayRequest`, `GatewayCreate` and
  `GatewayWitness` the validation, its connection to the fingerprint and a concrete rejected text.

## What turned out not to hold as one might expect

- CanonicalizeJSON accepts some texts that are not complete JSON: `decoder.More()` does not see a stray
  closing bracket, and then nothing behind it is looked at (`JcsTrailing.StrayBracketWitness`).  An
  accepted text that is not blank is a complete JSON text exactly when no such bracket follows its value,
  and `JcsTrailing.TrailingTextIsIgnored` says exactly what may follow.
- The canonicalizer keeps number literals, so one number has two canonical forms: "0" and "-0" are both
  accepted and both fixed points (`JsonLexical.ZeroHasTwoForms`).  Every other accepted number has one
  spelling, the decimal form of an int64 (`JsonLexical.AcceptedNumbers`).
- The token of a retry always comes from an exchange that *completed* after the caller's Invalidate, but
  it may have been *issued*, and its exchange *started*, before (`TokenTheorems.RetryTokenMayBeIssuedBefore`).
  It was issued before exactly when at that moment the exchange had returned and its leader had not yet
  entered Token's second section; the exchange started before exactly when it was in flight at that moment.
- What SignAssertion signs does not always verify to the same claims: it does exactly when the issue time
  is after Unix second 0 and the identity strings are valid UTF-8 (`AssertionTheorems.SignThenVerify`).
  `AssertionWitness` has an accepted input that fails for each of the two reasons.
- A number reported by the locator and the strict decoder's verdict agree when no key is duplicated; with
  duplicates the rejected number may already have been overwritten, as in `{"a":1.5,"a":2}`
  (`GatewayWitness.OverwrittenNumberIsNotLocated`).  Exactly when the tree holds no bad number any more,
  the validation passes on the decoder's reason instead.

## Reading the model

A Go `string` or `[]byte` is `Utf8.Bytes`; decoded JSON text is a Dafny `string` of Unicode scalar values.
Instants and durations are integers in nanoseconds.  SHA-256, signatures, the part of Unicode's upper-case
table beyond ASCII, encoding/json's view of an SSE envelope, random nonces and every answer of the network
are parameters; theorems that need a property of one name it in a `requires`.  In the retry loops the
live request's business fields may change whenever control is outside the loop; nobody but ApplyAssertion
writes its assertion field.

## Model

| member | source | states |
|---|---|---|
| Utf16Order.LessUTF16 | jcs/jcs.go:297-306 | the index loop decides the lexicographic order of the UTF-16 code units |
| Utf16Order.Less16StrictTotalOrder | jcs/jcs.go:296-306 | the order is irreflexive, asymmetric, transitive and total on text |
| Utf16Order.DisagreesWithCodePointOrder | jcs/jcs.go:283-306 | it differs from code-point order exactly when the first differing scalars are one at or above U+10000 and one in U+E000..U+FFFF |
| ByteOrder.ByteOrderIsCodePointOrder | jcs/jcs.go:283-289 | comparing UTF-8 bytes, as sort.Strings does, is comparing code points |
| JcsScanner.ParseJSONHexCodeUnit | jcs/jcs.go:107-126 | succeeds exactly on four hexadecimal digits within bounds, with their value |
| JsonGrammar.HexCodeIsCodeUnit | jcs/jcs.go:107-126 | the value of four hexadecimal digits fits the sixteen bits the code keeps it in |
| JsonLexical.HexCodeIsExact | jcs/jcs.go:107-126 | four digits of either case give their positional value, and nothing else gives one |
| JsonLexical.OtherCharactersAreNoDigits | jcs/jcs.go:113-123 | a character is no digit exactly if it is not one of 0-9, a-f, A-F |
| JsonLexical.LexIsExact | jcs/jcs.go:128-132 | the string reader accepts exactly the literals of RFC 8259, section 7, and reads the elements written |
| JsonLexical.EscapesMean | jcs/jcs.go:128-132 | what each of the eight two-character escapes stands for |
| JsonLexical.LoneEscapeDecodes | jcs/jcs.go:58-60 | an escape alone decodes to its scalar, and one of half a surrogate pair to U+FFFD |
| JsonLexical.NumberRead | jcs/jcs.go:188-189 | what the number reader takes is a number literal of RFC 8259, section 6 |
| JsonLexical.NumberWritten | jcs/jcs.go:188-189 | every number literal is taken whole |
| JsonLexical.AcceptedNumbers | jcs/jcs.go:188-196 | a number is accepted exactly if it is the decimal form of an int64, or "-0"; a fraction or exponent is refused as such |
| JsonLexical.ZeroHasTwoForms | jcs/jcs.go:188-196 | "0" and "-0" are both canonical |
| JsonLexical.QuoteIsMinimal | jcs/jcs.go:254-281 | which characters are escaped and how: as few as possible, other control characters with lower-case digits |
| JcsCase.EscapeCaseIsIgnored | jcs/jcs.go:107-126 | texts that differ only in the letter case of escapes' digits canonicalize alike, or fail alike |
| JcsCase.EscapedCharacter | jcs/jcs.go:107-126 | a printable character escaped with digits of any case has the canonical form of the character |
| JcsCase.UpperCaseEscape | jcs/jcs.go:119-120 | the escape of U+00E9 with an upper-case and with a lower-case E |
| GoText.TrimSpaceOf | jcs/jcs.go:39-41 | trimming leaves nothing exactly of blank text, the case that stands for {} |
| GoText.TrimIsExact | gateway.go:922 | trimming leaves a text exactly if it is that text with white space around it |
| GoText.ParsedIntegers | jcs/jcs.go:193 | which texts parse as int64: digits behind an optional sign, with their value in range |
| JcsScanner.ValidateRawJSONUnicode | jcs/jcs.go:61-105 | the index-skipping loop stays in bounds, terminates, and decides the declarative scan; invalid UTF-8 comes first |
| JcsScanner.ScannerIsExact | jcs/jcs.go:58-105 | on a complete JSON text the scan accepts exactly when no string literal has an unpaired surrogate escape |
| JcsScanner.DecodingIsFaithful | jcs/jcs.go:58-60 | a decoded string spells its literal's code units exactly when every surrogate escape is paired: only then is nothing replaced |
| JcsFaithful.ParsedCodeUnits | jcs/jcs.go:107-126 | every escape of a parsed document is a sixteen-bit code unit |
| JcsFaithful.ScannerGuardsDecoding | jcs/jcs.go:58-105 | on a complete JSON text the scan accepts exactly when every literal, keys included, decodes to the very code units it spells: nothing is replaced |
| JcsDecoder.DecodeJSONValue | jcs/jcs.go:128-200 | decoding from the token stream gives the value the grammar and the decoding rules assign, or the first rule broken in document order |
| JcsDecoder.DecodeArray | jcs/jcs.go:166-182 | an array is read to its bracket, element by element, as the grammar prescribes |
| JcsDecoder.DecodeObject | jcs/jcs.go:136-165 | an object is read to its brace; a repeated key is refused before its value is read |
| JcsDecoder.ElaborateMembersConcat | jcs/jcs.go:139-157 | reading members in sequence is reading the object they make up, errors included |
| JcsWriter.WriteJCSString | jcs/jcs.go:254-281 | appends exactly the quoted form of the string |
| JcsWriter.ValidateJCSKey | jcs/jcs.go:308-315 | accepts exactly the keys without control characters |
| GoText.ControlsAre | jcs/jcs.go:310-312 | the control characters a key must not contain |
| JcsWriter.SortJCSKeys | jcs/jcs.go:290-294 | sorts the array in place by the UTF-16 order and keeps its contents |
| JcsWriter.SortedKeysUnique | jcs/jcs.go:227-235 | a set of keys has one sorted list, whatever order the map yields them in |
| JcsWriter.WriteJCS | jcs/jcs.go:202-252 | appends the canonical text of the value, and fails exactly when some key is not allowed |
| JcsWriter.CanonicalizeJSON | jcs/jcs.go:35-56 | accepts exactly what the specification accepts and returns its canonical text; on grammatical text the error agrees too |
| JcsRoundTrip.ReadBack | jcs/jcs.go:128-200 | reading the written form of any value with int64 numbers gives exactly that value |
| JcsRoundTrip.CanonicalizeIdempotent | jcs/jcs.go:35-56 | canonical text reads as the same value and canonicalizes to itself |
| JcsRoundTrip.CanonicalFormDeterminesValue | jcs/jcs.go:35-56 | two accepted texts have the same canonical form exactly when they denote the same value, objects as maps and numbers as literals |
| JcsRoundTrip.ReadIsReadable | jcs/jcs.go:188-196 | every number of a decoded value is an integer literal within int64 |
| JcsTrailing.AcceptedIsCompleteUnlessStray | jcs/jcs.go:48-50 | an accepted text that is not blank is complete exactly when no stray closing bracket follows its value |
| JcsTrailing.TrailingTextIsIgnored | jcs/jcs.go:48-50 | what may follow an accepted complete text: it stays accepted, unchanged, exactly when the next character that is not space, if any, closes a bracket of either kind and no later string breaks the surrogate scan |
| JcsTrailing.StrayBracketIsIgnored | jcs/jcs.go:48-50 | with a stray bracket of either kind behind a complete text, whatever follows is ignored |
| JcsTrailing.StrayBracketWitness | jcs/jcs.go:48-50 | a concrete incomplete text that is accepted |
| JsonLocality.ParseValueLocal | jcs/jcs.go:128-200 | a value's parse does not depend on the text that follows it |
| Sse.GatewaySSEStream.ConsumeLine | sse.go:156-180 | one line changes the assembled fields as specified: comments and unknown fields change nothing, one leading space is dropped |
| Sse.GatewaySSEStream.ValidateEventOrder | sse.go:247-286 | accepts and advances exactly as the event-order automaton |
| Sse.GatewaySSEStream.CheckIdentity | sse.go:206-231 | stores the identity exactly when the checks pass |
| Sse.GatewaySSEStream.AdmitEvent | sse.go:206-235 | admits an event exactly when identity and order allow it; a rejected order leaves the identity advanced |
| Sse.GatewaySSEStream.DispatchEvent | sse.go:182-245 | dispatch and its whole new state, including the identity a rejected order leaves behind |
| Sse.GatewaySSEStream.ResetEventFields | sse.go:288-292 | clears the assembled fields |
| Sse.GatewaySSEStream.NextEvent | sse.go:72-121 | the read loop computes the step function: outcome and whole new state |
| Sse.GatewaySSEStream.Close | sse.go:124-133 | marks the stream closed and changes nothing else |
| SseTexts.DataTextIsExact | sse.go:187 | data lines make up a text exactly if they are that text split at its line feeds |
| SseTexts.EventNames | sse.go:251-283 | the seven event names and the four that end a stream |
| SseTexts.DispatchIsExact | sse.go:182-245 | after legal events, dispatch accepts exactly the assembled event that legally extends them, and refuses everything else |
| SseTexts.MalformedLineIsRefused | sse.go:84-87 | a line that is not valid UTF-8 is a protocol error |
| SseTexts.FaultyBodyIsRefused | sse.go:102-105 | a body that breaks off with an error is a protocol error, even after a terminal event |
| SseTexts.DeliveredEventsAreGenuine | sse.go:194-245 | over every body and number of calls, a delivered event is field by field what some data text says, with a positive sequence and an object payload |
| SseRuns.OrderIsExact | sse.go:247-286 | the automaton accepts a name exactly when it legally extends what was delivered, and keeps its flags equal to what the names say |
| SseRuns.DispatchKeeps | sse.go:206-234 | one dispatch keeps the invariant although rejected events advance the stored identity |
| SseRuns.NextKeeps | sse.go:72-121 | one call keeps the invariant, whatever it returns |
| SseRuns.DeliveredEventsAreSound | sse.go:72-286 | over every body and number of calls: legal order, increasing ids and sequences, constant request and invocation, flags exactly those of the delivered names |
| SseRuns.LegalOrderShape | sse.go:247-286 | a legal order is a prefix of accepted, deltas, optional usage, terminal |
| SseFrames.FrameStep | sse.go:82-120 | one written frame is one delivery, whatever line endings, splits, comments and unknown fields it has |
| SseFrames.NextPastOpenLine | sse.go:83-102 | at the end of the body an unterminated line is read like any other |
| SseFrames.LastStep | sse.go:83-114 | a last frame without its blank line, even without its last terminator, is dispatched at the end of the body |
| SseFrames.FramesRoundTrip | sse.go:72-121 | a legal event list written as frames, with or without the last blank line and the last terminator, is delivered exactly, then EOF after a terminal event and a disconnect otherwise, on every later call |
| SseTexts.EventsRoundTrip | sse.go:72-245 | legal events, each written as a frame with its data text split over data lines, are delivered exactly as given, field by field, and then the end is reported |
| TokenSource.CachedTokenSource.EnterToken | token.go:174-195 | the first critical section: hit, wait or lead, and the whole new state |
| TokenSource.CachedTokenSource.PublishResult | token.go:197-207 | the second critical section: the result is recorded, cached only on success, and the refresh closed |
| TokenSource.CachedTokenSource.InvalidateToken | token.go:213-220 | the cached token is dropped, a refresh in flight is not touched |
| TokenSource.TokenRefresh.Receive | token.go:184-188 | a closed refresh hands out its result |
| TokenTheorems.CacheIsHit | token.go:97-99 | entering Token, a caller takes the cached token exactly if it is not empty and expires more than 60 s after its reading of the clock; else it waits for the exchange in flight or starts one |
| TokenTheorems.InvalidatedTokensAreGone | token.go:211-220 | after anyone's Invalidate, a token found in the cache was published since |
| TokenProtocol.SingleFlightStep | token.go:173-208 | every step of every caller keeps single flight |
| TokenProtocol.SingleFlightAlways | token.go:173-208 | in every reachable state at most one exchange is in flight, it is the one recorded, exactly one caller runs it, and waiters wait for refreshes that exist |
| TokenTheorems.ResultsAreFinal | token.go:198-206 | refreshes are never lost and a closed one keeps its result |
| TokenTheorems.ClosedOnce | token.go:204 | a refresh is closed by one step only |
| TokenTheorems.WaiterGetsTheResult | token.go:181-192 | a waiter that is not cancelled returns exactly the result its refresh was closed with |
| TokenTheorems.RetryTokenIsFresh | client.go:66-84 | in every interleaving the token of a retry comes from an exchange that completed after the caller's Invalidate |
| TokenTheorems.RetryExchangeStart | token.go:211-220 | that exchange started before the Invalidate exactly when it was the one in flight then |
| TokenTheorems.RetryTokenIssue | token.go:197-220 | its token was issued before the Invalidate exactly when at that moment some leader had it and had not yet published it |
| TokenTheorems.RetryTokenMayBeIssuedBefore | token.go:211-212 | a concrete run in which the retry's token was issued, and its exchange started, before the Invalidate |
| TokenTheorems.EveryExchangeHasACause | token.go:174-208 | every exchange but the first has a cause of its own since the previous one ended: failure, Invalidate, or a token that is empty or within 60 s of its expiry |
| TokenTheorems.CallersFollowTheLoop | client.go:66-84 | every caller sends at most twice, the second time only after an unauthenticated reply and exactly one Invalidate |
| RetryLoops.Invoke | client.go:56-86 | the loop's log is its attempts with one Invalidate between them; an attempt sends exactly when a token was had, a second one is made exactly after the one retriable code, and what is returned is the last reply or the failure that stopped it |
| RetryLoops.InvokeWithAssertion | client.go:105-163 | the same, each attempt signs its own assertion, and it sends exactly when token, signature, application and identity check succeed; else the first of their failures is returned |
| RetryLoops.Prepare | client.go:128-147 | succeeds exactly when a token, a fresh signature, the applied assertion and the identity check do, and otherwise fails with the first failure among them |
| RetryLoops.AttemptOverHttp | gateway.go:573-624 | one attempt sends the given message with a bearer token and a signature of its own exactly when nothing stands in the way, and reports what does |
| RetryLoops.DoInvocation | gateway.go:566-636 | the same discipline over HTTP, for the actor resolved once; an error exactly for a 401 or a failed attempt |
| RetryTheorems.LoopsAreCallers | client.go:66-84 | a finished loop has done what a finished caller of the token protocol may have done, and returns no error only if its last send returned none |
| RetryTheorems.InvokeAssertion | runtime_client.go:499-555 | every request sent carries an assertion made for the original request, whose fingerprint equals the one recomputed from the fields sent |
| RetryTheorems.FaithfulIsCovered | runtime_client.go:541-553 | passing the identity check makes the signed fingerprint that of the live request |
| RetryTheorems.HttpAttemptCarriesItsRequest | gateway.go:581-615 | every HTTP attempt carries an assertion made for the very target and message it sends |
| RetryTheorems.SentAssertionVerifies | assertion.go:408-464 | the very bytes sent verify exactly when issued after Unix second 0, to claims with the fingerprint of the request sent |
| RetryTheorems.CarriedMeansUnchanged | runtime_client.go:515-553 | what is sent is the business request that was signed exactly when the two are not a collision of the hash |
| PathTheorems.PathDeterminesTarget | path.go:55-92 | a gateway path determines what it addresses |
| PathTheorems.PathsAreSpelled | path.go:60-87 | how the paths of the collection, an invocation and an artifact are spelled |
| PathTheorems.IDBytesAre | path.go:157-163 | an id consists of RFC 3986's unreserved characters |
| PathTheorems.TargetIsAccepted | path.go:88-91 | the builder's own validation never fails |
| PathTheorems.ValidatorIsExact | path.go:105-150 | the validator accepts exactly the paths of valid targets and the registered runtime methods |
| PathTheorems.BuilderIsExact | path.go:60-92 | the builder succeeds exactly on routes and ids that name a valid target, with that target's path |
| PathTheorems.OperationIsExact | path.go:168-196 | a method and path have a route exactly when the path was built for it and the method is the route's |
| PathTheorems.RouteIsDetermined | path.go:60-92 | no two routes or id lists share a method and a path |
| PathTheorems.KeyRuleIsDecided | path.go:206-215 | a gateway request either needs an idempotency key or must not carry one; create and cancel need it |
| PathTheorems.OperationIsDetermined | path.go:217-238 | on an accepted path at most one operation passes |
| Fingerprint.LinesInjective | assertion.go:303 | the newline-joined fields can be split in one way only |
| Fingerprint.PreimageIsTheIdentity | assertion.go:280-306 | two hashed texts are equal exactly when upper-cased method, path, actor, key and body value are |
| Fingerprint.PreimageIsFiveLines | assertion.go:303 | the hashed text is exactly the upper-cased method, the path, the actor, the key and the canonical body, one per line, in this order |
| Fingerprint.FingerprintedRequests | assertion.go:280-306 | exactly which requests have a fingerprint |
| GatewayCreate.CreateRequestText | assertion.go:303 | the hashed text of a concrete create request |
| JcsRoundTrip.TextIsPrintable | jcs/jcs.go:202-281 | canonical text contains no line break or other character below U+0020 |
| GoStrings.UpperAscii | assertion.go:303 | upper-casing an ASCII method goes letter by letter |
| GoStrings.UpperLetters | assertion.go:303 | the 26 small letters become the capital ones, and no other ASCII character changes |
| Fingerprint.BlankBodyIsEmptyObject | assertion.go:278-279 | a blank body has the value of {} |
| Base64.Base64RoundTrip | assertion.go:305 | decoding undoes encoding, and encoded text has no dot |
| Base64.AlphabetOrder | assertion.go:305 | the URL alphabet of RFC 4648 |
| Base64.EncodedSize | assertion.go:305 | no padding: the length of encoded text |
| Base64.LineBreaksAreIgnored | assertion.go:416-427 | the decoder passes over line breaks wherever they stand |
| GoStrings.SanitizeKeepsValid | assertion.go:400-406 | replacing malformed bytes changes exactly the strings that are not valid UTF-8 |
| GoStrings.MalformedByteIsReplaced | assertion.go:400-406 | a byte that starts no UTF-8 sequence is read as U+FFFD wherever it stands |
| GoJson.QuoteReads | assertion.go:400-406 | a marshalled string reads as its runes |
| GoJson.QuoteIsSafe | assertion.go:400-406 | a marshalled string contains no control character and none that HTML would interpret |
| GoJson.RunesAreWritten | assertion.go:400-406 | a marshalled rune is written like a canonical one, except for the five escaped for HTML |
| GoJson.StructReads | assertion.go:400-406 | a marshalled struct reads as the object of its fields |
| AssertionTheorems.WindowInSeconds | assertion.go:365-371 | a window of at most a minute stays within 60 seconds after truncation, and is nonempty exactly when it reaches the next whole second |
| AssertionTheorems.LifetimesAccepted | assertion.go:342-371 | exactly which lifetimes are accepted; the claimed window is 1 to 60 seconds whatever the sub-second part |
| AssertionTheorems.StructIsCanonicalized | assertion.go:400-406 | canonicalJSON of a struct never fails and reads back as its fields |
| AssertionTheorems.ClaimsUnmarshal | assertion.go:456-459 | unmarshalling the signed claims gives them back, malformed bytes replaced |
| AssertionTheorems.ClaimsAreValid | assertion.go:499-518 | signed claims pass validateClaims exactly when issued after Unix second 0 |
| AssertionTheorems.SignedPartsVerify | assertion.go:411-446 | a compact form is taken apart and its signature checked over the very text that was signed |
| AssertionTheorems.SignThenVerify | assertion.go:310-464 | what is signed verifies to the same claims exactly when issued after Unix second 0 with valid UTF-8 identity strings |
| AssertionTheorems.ClaimsCarryFingerprint | assertion.go:338-371 | the claims carry the fingerprint of their request |
| AssertionTheorems.OnlyTheSignerFails | assertion.go:372-389 | the claims and the header always have a canonical form |
| AssertionTheorems.CompactDeterminesClaims | assertion.go:308-390 | a compact assertion determines its claims, so different nonces give different assertions |
| AssertionExact.VerificationIsExact | assertion.go:411-464 | a text is accepted with given claims exactly if it is three nonempty base64url parts, the third verifies over the text before the last dot, and the second reads as the claims |
| AssertionExact.EncodedPartsAreExact | assertion.go:411-464 | for encoded parts: accepted exactly when the header names an algorithm, the signature verifies under it, and the payload reads as valid claims |
| AssertionExact.HeaderIsExact | assertion.go:428-443 | a header is accepted exactly if it is the object of a registered algorithm, a nonempty key id and nothing else |
| AssertionExact.PayloadIsExact | assertion.go:447-462 | a payload is accepted exactly if it is the object of the claims' ten members and they keep the contract |
| AssertionExact.ContractIsExact | assertion.go:499-518 | the contract: complete identity, window of 1 to 60 seconds after the epoch, nonce of at least 16 bytes, digest of 32 |
| AssertionExact.ReadObjectIsExact | assertion.go:432-440 | a part must be a complete JSON text without duplicate keys |
| SigningExact.ForgedSignatureIsRefused | assertion.go:444-446 | with another signature in its place, what was signed is accepted exactly if that one verifies too |
| SigningExact.ForgedQueryIsRefused | assertion.go:444-446 | a query's assertion with a signature that does not verify is refused |
| SigningExact.VerifiedClaimsDescribeInput | assertion.go:310-464 | from input to verified claims: identity, operation, fingerprint, and the seconds of issue time and end of lifetime |
| SigningExact.ClaimsAreMadeFor | assertion.go:310-371 | exactly which inputs are signed: registered signer, method, operation and key that go together on the path, complete identity, accepted request, lifetime that fits |
| SigningExact.OperationChecked | path.go:198-238 | the operation, method and key that go together on each kind of path |
| AssertionWitness.RuntimeOperationChecked | path.go:198-238 | a runtime assertion passes the operation and key checks exactly when a query carries no idempotency key |
| AssertionWitness.RuntimeInputIsSigned | assertion.go:310-391 | a complete input for a runtime method is signed by a working signer for every lifetime of one second to a minute |
| AssertionWitness.EpochDoesNotVerify | assertion.go:503-508 | an accepted assertion of the first Unix second that verification refuses |
| AssertionWitness.MalformedActorDoesNotVerify | assertion.go:400-406 | an accepted assertion whose actor comes back changed |
| NumberLocator.LocateUncanonicalizableNumber | gateway.go:861-920 | reports the first bad number by array index and key bytes, or nothing exactly when there is none |
| NumberLocator.FirstBadUnique | gateway.go:904-917 | there is one first bad number, whatever order the map is walked in |
| NumberLocator.RenderedSteps | gateway.go:899-915 | how the path of a reported number is spelled |
| NumberLocator.FaultsAreReasons | gateway.go:864-897 | the reported fault is the decoder's reason, and a schema keyword inside response_format |
| NumberLocator.SortStringsSorts | gateway.go:908-912 | distinct keys are put in strictly increasing byte order |
| NumberLocator.LocatorIsExact | gateway.go:861-920 | without duplicate keys, the strict decoder refuses exactly the trees in which the locator finds a number, for a number's reason |
| NumberLocator.StrictIsExact | jcs/jcs.go:128-200 | the strict decoder accepts exactly the documents without repeated keys in which every number is an int64 integer, and then reads what encoding/json reads |
| GatewayRequest.ValidateGatewayCanonicalizable | gateway.go:786-810 | the verdict is CanonicalizeJSON's; a number error names the first bad number whenever the tree still holds one, and otherwise the reason is passed on |
| GatewayRequest.ValidateGatewayInput | gateway.go:759-765 | accepts exactly one decodable and canonicalizable value; otherwise the decoding error or that verdict |
| GatewayRequest.ValidateGatewayParameters | gateway.go:748-757 | accepts exactly decodable and canonicalizable objects; otherwise the decoding error, the object rule or that verdict |
| GatewayRequest.Validate | gateway.go:85-110 | accepts exactly the requests with all parts present and both sections accepted; otherwise answers with the first check that fails |
| GatewayRequest.NullIs | gateway.go:922 | a marshalled value counts as null exactly when it is that word with white space around it |
| GatewayRequest.BodyMembers | gateway.go:66-81 | the members of the body, by name |
| GatewayRequest.SpecMembers | gateway.go:66-73 | the members of the spec, by name |
| GatewayRequest.AcceptedBodyCanonicalizes | gateway.go:767-775 | the whole body of an accepted request canonicalizes, with the two sections' values unchanged inside |
| GatewayRequest.NumberErrorsAreLocated | gateway.go:791-806 | a number error on a text without duplicate keys is always located |
| GatewayRequest.UniqueKeysReportTheNumber | gateway.go:791-806 | on unique keys a number error is reported as the first bad number with its path |
| GatewayWitness.OverwrittenNumberIsNotLocated | gateway.go:793-809 | a text rejected for a number that the decoded tree no longer holds |
| GatewayCreate.AcceptedRequestHasFingerprint | gateway.go:240-260 | an accepted create request can always be fingerprinted |

## Left out

- mTLS loading, certificate rotation, dialing, HTTP transport and URL parsing: a send is an arbitrary answer.
- Ed25519, ECDSA, SHA-256, PEM parsing and randomness: parameters with the usual correctness assumptions.
- encoding/json's struct decoding of SSE envelopes, payloads and gateway responses: parameters of the stream.
- Redaction methods, error-code tables, generated code, the conformance harness and the typed RPC wrappers: no hard state.
- GatewayPoller, artifact downloads and the simple field validators: they would only add easy members.
- Liveness that depends on the exchange function returning, and panics inside it.
- The nil receivers, nil contexts and missing callbacks the functions refuse first, and the check for an authorization header already set.
- JcsWriter.SortJCSKeys: sort.Slice's own algorithm is replaced by an insertion sort with the same result.
- JcsDecoder.DecodeJSONValue: on ungrammatical text only the refusal is specified, not which of several errors is reported.
- JcsDecoder.DecodeArray: on an ungrammatical body only the refusal is specified.
- JcsDecoder.DecodeObject: on an ungrammatical body only the refusal is specified.
- JcsWriter.CanonicalizeJSON: on ungrammatical text only the refusal is specified, not which of several errors is reported.
- Sse.GatewaySSEStream.NextEvent: the body is the whole byte stream and the way it ends; short reads, and Close during a blocked read, are not modelled.
- Sse.GatewaySSEStream.Close: releasing the underlying response body.
- TokenProtocol.SingleFlightAlways: time.Time arithmetic does not overflow, and a caller gives up only after Token has returned or while it waits.
- Assertion.VerifyCompactJWS: which of its errors is returned is not modelled, only whether the claims are; json.Unmarshal is modelled on texts that also pass CanonicalizeJSON, where keys are exact and unique.
- RetryLoops.InvokeWithAssertion: the live request may change whenever control is outside the loop, but not between the identity check and the send.
- RetryLoops.DoInvocation: the extra headers and the response body.
- GatewayRequest.Validate: json.Marshal of the caller's own Go values is a parameter, deterministic and compact.
- GoStrings.Upper: exact on ASCII; other letters go through a table that never produces a line break.
