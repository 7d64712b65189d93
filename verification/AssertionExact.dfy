/** Exactly which compact forms VerifyCompactJWS accepts, and exactly which inputs SignAssertion signs. */
module AssertionExact {
  import opened Wrappers
  import opened GoText
  import opened Sequences
  import opened Utf8
  import opened Base64
  import opened Jcs
  import opened JcsTrailing
  import opened Assertion
  import opened AssertionTheorems

  // ---- the texts of the parts ----

  /** A part reads as an object exactly when it canonicalizes to one and is a complete text, with no
      stray bracket behind it. */
  lemma ReadObjectIsExact(raw: Bytes, m: map<string, Value>)
    ensures ReadObject(raw) == Some(m)
            <==> && Canonicalize(raw).Ok? && ReadValue(raw) == Ok(Obj(m))
                 && !Blank(Decode(raw).value) && !StrayBracket(Decode(raw).value)
  {
    if Canonicalize(raw).Ok? {
      if Blank(Decode(raw).value) {
        BlankIsIncomplete(Decode(raw).value);
      } else {
        AcceptedIsCompleteUnlessStray(raw);
      }
    }
  }

  lemma BlankIsIncomplete(t: string)
    requires Blank(t)
    ensures !Complete(t)
  {
    if Complete(t) {
      NotBlank(t);
    }
  }

  // ---- the header ----

  /** `m` is the object {"alg": alg, "kid": kid}. */
  predicate IsHeader(m: map<string, Value>, alg: Bytes, kid: string) {
    m == map["alg" := Str(alg), "kid" := Str(kid)]
  }

  lemma StringFieldOf(m: map<string, Value>, name: string, b: Bytes)
    requires b != ""
    ensures StringField(m, name) == Some(b) <==> name in m && m[name].Str? && Encode(m[name].s) == b
  {
  }

  lemma AsciiFieldOf(m: map<string, Value>, name: string, b: Bytes)
    requires b != "" && IsAscii(b)
    ensures StringField(m, name) == Some(b) <==> name in m && m[name] == Str(b)
  {
    EncodeAscii(b);
    if name in m && m[name].Str? && Encode(m[name].s) == b {
      EncodeInjective(m[name].s, b);
    }
  }

  lemma EncodeNothing(s: string)
    ensures Encode(s) == "" <==> s == ""
  {
  }

  lemma HeaderFields(m: map<string, Value>, alg: Bytes)
    requires alg == "EdDSA" || alg == "ES256"
    ensures AlgorithmOf(m) == Some(alg) <==> exists kid: string :: kid != "" && IsHeader(m, alg, kid)
  {
    AsciiFieldOf(m, "alg", alg);
    if AlgorithmOf(m) == Some(alg) {
      var kid := m["kid"].s;
      EncodeNothing(kid);
      assert m.Keys == {"alg", "kid"};
      assert IsHeader(m, alg, kid);
    }
    if kid: string :| kid != "" && IsHeader(m, alg, kid) {
      EncodeNothing(kid);
    }
  }

  /** A header names an algorithm exactly when it is the object of that registered algorithm and some
      nonempty key id, and of nothing else. */
  lemma HeaderIsExact(header: Bytes, alg: Bytes)
    ensures HeaderAlgorithm(header) == Some(alg)
            <==> && (alg == "EdDSA" || alg == "ES256")
                 && exists m, kid: string :: ReadObject(header) == Some(m) && kid != "" && IsHeader(m, alg, kid)
  {
    if ReadObject(header).Some? && (alg == "EdDSA" || alg == "ES256") {
      HeaderFields(ReadObject(header).value, alg);
    }
  }

  // ---- the payload ----

  predicate TextMember(m: map<string, Value>, name: string, b: Bytes) {
    name in m && m[name].Str? && Encode(m[name].s) == b
  }

  predicate IntMember(m: map<string, Value>, name: string, n: int) {
    name in m && m[name].Num? && ParseInt64(m[name].literal) == Some(n)
  }

  const MEMBER_NAMES: set<string> :=
    {"iss", "sub", "aud", "tenant_id", "session_id", "operation", "request_fingerprint", "iat", "exp", "nonce"}

  predicate HasMembers(m: map<string, Value>, c: Claims) {
    && TextMember(m, "iss", c.issuer) && TextMember(m, "sub", c.subject) && TextMember(m, "aud", c.audience)
    && TextMember(m, "tenant_id", c.tenantID) && TextMember(m, "session_id", c.sessionID)
    && TextMember(m, "operation", c.operation) && TextMember(m, "request_fingerprint", c.requestFingerprint)
    && IntMember(m, "iat", c.issuedAt) && IntMember(m, "exp", c.expiresAt) && TextMember(m, "nonce", c.nonce)
  }

  /** `m` has the ten members of the claims `c` and no others. */
  predicate IsPayload(m: map<string, Value>, c: Claims) {
    m.Keys == MEMBER_NAMES && HasMembers(m, c)
  }

  /** The contract of the claims: a complete identity, a window of 1 to 60 seconds after the epoch, a nonce
      of at least 16 bytes and a digest of 32. */
  ghost predicate WithinContract(c: Claims) {
    && c.issuer != "" && c.subject != "" && c.tenantID != "" && c.sessionID != "" && c.operation != ""
    && c.audience == "sluice-runtime"
    && 0 < c.issuedAt < c.expiresAt <= c.issuedAt + 60
    && (exists nonce: Bytes :: |nonce| >= 16 && c.nonce == Encode64(nonce))
    && (exists digest: Bytes :: |digest| == 32 && c.requestFingerprint == Encode64(digest))
  }

  lemma EncodedLengthIs(text: Bytes, n: nat)
    ensures EncodedLength(text) == Some(n) <==> exists b: Bytes :: |b| == n && text == Encode64(b)
  {
    if b: Bytes :| |b| == n && text == Encode64(b) {
      Base64RoundTrip(b);
    }
  }

  lemma EncodedLengthAtLeast(text: Bytes, n: nat)
    ensures (EncodedLength(text).Some? && EncodedLength(text).value >= n)
            <==> exists b: Bytes :: |b| >= n && text == Encode64(b)
  {
    if b: Bytes :| |b| >= n && text == Encode64(b) {
      Base64RoundTrip(b);
    }
  }

  lemma ContractIsExact(c: Claims)
    ensures ValidClaims(c) <==> WithinContract(c)
  {
    EncodedLengthAtLeast(c.nonce, 16);
    EncodedLengthIs(c.requestFingerprint, 32);
  }

  /** The fields json.Unmarshal finds are those of `c`. */
  predicate FieldsFound(m: map<string, Value>, c: Claims) {
    && StringField(m, "iss") == Some(c.issuer) && StringField(m, "sub") == Some(c.subject)
    && StringField(m, "aud") == Some(c.audience) && StringField(m, "tenant_id") == Some(c.tenantID)
    && StringField(m, "session_id") == Some(c.sessionID) && StringField(m, "operation") == Some(c.operation)
    && StringField(m, "request_fingerprint") == Some(c.requestFingerprint)
    && IntField(m, "iat") == Some(c.issuedAt) && IntField(m, "exp") == Some(c.expiresAt)
    && StringField(m, "nonce") == Some(c.nonce)
  }

  lemma UnmarshalFinds(m: map<string, Value>, c: Claims)
    ensures UnmarshalClaims(m) == Some(c) <==> FieldsFound(m, c)
  {
  }

  lemma IntFieldOf(m: map<string, Value>, name: string, n: int)
    requires n != 0
    ensures IntField(m, name) == Some(n) <==> IntMember(m, name, n)
  {
  }

  predicate NoEmptyField(c: Claims) {
    && c.issuer != "" && c.subject != "" && c.audience != "" && c.tenantID != "" && c.sessionID != ""
    && c.operation != "" && c.requestFingerprint != "" && c.issuedAt != 0 && c.expiresAt != 0 && c.nonce != ""
  }

  lemma FoundAreMembers(m: map<string, Value>, c: Claims)
    requires NoEmptyField(c)
    ensures FieldsFound(m, c) <==> HasMembers(m, c)
  {
    StringFieldOf(m, "iss", c.issuer);
    StringFieldOf(m, "sub", c.subject);
    StringFieldOf(m, "aud", c.audience);
    StringFieldOf(m, "tenant_id", c.tenantID);
    StringFieldOf(m, "session_id", c.sessionID);
    StringFieldOf(m, "operation", c.operation);
    StringFieldOf(m, "request_fingerprint", c.requestFingerprint);
    IntFieldOf(m, "iat", c.issuedAt);
    IntFieldOf(m, "exp", c.expiresAt);
    StringFieldOf(m, "nonce", c.nonce);
  }

  lemma ClaimNamesAre(k: string)
    ensures k in CLAIM_NAMES <==> k in MEMBER_NAMES
  {
  }

  lemma NamesOfMembers(m: map<string, Value>, c: Claims)
    requires HasMembers(m, c)
    ensures (forall k | k in m :: k in CLAIM_NAMES) <==> m.Keys == MEMBER_NAMES
  {
    forall k
      ensures k in CLAIM_NAMES <==> k in MEMBER_NAMES
    {
      ClaimNamesAre(k);
    }
    assert MEMBER_NAMES <= m.Keys;
  }

  lemma NonceIsNotEmpty(c: Claims)
    requires ValidClaims(c)
    ensures NoEmptyField(c)
  {
    Base64RoundTrip("");
  }

  lemma MembersAreRead(m: map<string, Value>, c: Claims)
    requires ValidClaims(c)
    ensures ClaimsOf(m) == Some(c) <==> IsPayload(m, c)
  {
    UnmarshalFinds(m, c);
    NonceIsNotEmpty(c);
    FoundAreMembers(m, c);
    if HasMembers(m, c) {
      NamesOfMembers(m, c);
    }
  }

  /** A payload reads as claims exactly when it is the object of exactly their ten members and they keep
      the contract. */
  lemma PayloadIsExact(payload: Bytes, c: Claims)
    ensures PayloadClaims(payload) == Some(c)
            <==> WithinContract(c) && exists m :: ReadObject(payload) == Some(m) && IsPayload(m, c)
  {
    ContractIsExact(c);
    if ReadObject(payload).Some? && ValidClaims(c) {
      MembersAreRead(ReadObject(payload).value, c);
    }
  }

  // ---- the compact form ----

  /** The compact form is `h.p.s`, its signature verifies over `h.p` under the header's algorithm, and its
      payload reads as `c`. */
  ghost predicate Authentic(crypto: Crypto, compact: Bytes, h: string, p: string, s: string, c: Claims) {
    && compact == h + "." + p + "." + s
    && h != "" && p != "" && s != "" && '.' !in h && '.' !in p && '.' !in s
    && Decode64(h).Some? && Decode64(p).Some? && Decode64(s).Some?
    && HeaderAlgorithm(Decode64(h).value).Some?
    && crypto.verify(HeaderAlgorithm(Decode64(h).value).value, h + "." + p, Decode64(s).value)
    && PayloadClaims(Decode64(p).value) == Some(c)
  }

  lemma ThreeParts(compact: string, h: string, p: string, s: string)
    ensures Split(compact, '.') == [h, p, s]
            <==> compact == h + "." + p + "." + s && '.' !in h && '.' !in p && '.' !in s
  {
    var parts := [h, p, s];
    assert parts[1..] == [p, s] && parts[1..][1..] == [s];
    assert Join(parts[1..], ".") == p + "." + s;
    Assoc(h + ".", p, ".");
    Assoc(h + ".", p + ".", s);
    assert Join(parts, ".") == h + "." + p + "." + s;
    JoinSplit(compact, '.');
    if compact == h + "." + p + "." + s && '.' !in h && '.' !in p && '.' !in s {
      SplitJoin(parts, '.');
    }
    if Split(compact, '.') == parts {
      assert h in parts && p in parts && s in parts;
    }
  }

  lemma PartsAreAuthentic(crypto: Crypto, compact: Bytes, h: string, p: string, s: string, c: Claims)
    requires Split(compact, '.') == [h, p, s]
    ensures VerifyCompactJWS(crypto, compact) == Some(c) <==> Authentic(crypto, compact, h, p, s, c)
  {
    ThreeParts(compact, h, p, s);
    assert "" in [h, p, s] <==> h == "" || p == "" || s == "";
  }

  /** Verification accepts a text with these claims exactly when it consists of three nonempty base64url
      parts, the third verifies over the text before the last dot, and the second reads as the claims. */
  lemma VerificationIsExact(crypto: Crypto, compact: Bytes, c: Claims)
    ensures VerifyCompactJWS(crypto, compact) == Some(c)
            <==> exists h: string, p: string, s: string :: Authentic(crypto, compact, h, p, s, c)
  {
    var parts := Split(compact, '.');
    if |parts| == 3 {
      assert parts == [parts[0], parts[1], parts[2]];
      PartsAreAuthentic(crypto, compact, parts[0], parts[1], parts[2], c);
    }
    if h: string, p: string, s: string :| Authentic(crypto, compact, h, p, s, c) {
      ThreeParts(compact, h, p, s);
      PartsAreAuthentic(crypto, compact, h, p, s, c);
    }
  }

  /** Three encoded parts are accepted exactly when the signature verifies and the parts read. */
  lemma EncodedPartsAreExact(
      crypto: Crypto, compact: Bytes, header: Bytes, payload: Bytes, signature: Bytes, c: Claims)
    requires compact == Encode64(header) + "." + Encode64(payload) + "." + Encode64(signature)
    requires header != "" && payload != "" && signature != ""
    ensures VerifyCompactJWS(crypto, compact) == Some(c)
            <==> && HeaderAlgorithm(header).Some?
                 && crypto.verify(HeaderAlgorithm(header).value, Encode64(header) + "." + Encode64(payload), signature)
                 && PayloadClaims(payload) == Some(c)
  {
    CompactSplits(header, payload, signature);
    Base64RoundTrip(header);
    Base64RoundTrip(payload);
    Base64RoundTrip(signature);
    PartsAreAuthentic(crypto, compact, Encode64(header), Encode64(payload), Encode64(signature), c);
  }
}
