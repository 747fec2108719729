/** For every request, when decoding succeeds, with what, and which error it
    ends in otherwise: both bindings, stated on the pairs of the query or body
    alone. */
module BindingOutcomes {
  import opened Wrappers
  import opened ByteStrings
  import opened BindingErrors
  import opened Encoding
  import opened HttpAdapter
  import opened Deflate
  import opened RedirectBinding
  import opened RedirectGuarantees
  import opened PostBinding

  // ---- The uniqueness checks ----------------------------------------------

  /** The pair at `i` is the first whose key does not decode. */
  predicate FirstBadKey(pairs: seq<Bytes>, i: nat) {
    i < |pairs| && PercentDecoded(KeyOf(pairs[i])).Err?
    && forall k :: 0 <= k < i ==> PercentDecoded(KeyOf(pairs[k])).Ok?
  }

  lemma {:induction false} BadKeyError(pairs: seq<Bytes>, i: nat, name: Bytes)
    requires FirstBadKey(pairs, i)
    ensures CountKeys(pairs, name) == Err(PercentDecoded(KeyOf(pairs[i])).error)
    decreases i
  {
    if i > 0 {
      assert pairs[1..][i - 1] == pairs[i];
      assert FirstBadKey(pairs[1..], i - 1);
      BadKeyError(pairs[1..], i - 1, name);
    }
  }

  lemma CheckStep(query: Bytes, names: seq<Bytes>)
    requires KeysDecode(Pairs(query)) && names != []
    ensures |Matching(Pairs(query), names[0])| > 1 ==> CheckSingle(query, names) == Err(DuplicateSamlParam(names[0]))
    ensures |Matching(Pairs(query), names[0])| <= 1 ==> CheckSingle(query, names) == CheckSingle(query, names[1..])
  {
    ReadersAgree(Pairs(query), names[0]);
  }

  lemma FrontOnce(pairs: seq<Bytes>, names: seq<Bytes>, i: nat)
    requires 0 < i <= |names| && AtMostOnceEach(pairs, names[..i])
    ensures |Matching(pairs, names[0])| <= 1 && AtMostOnceEach(pairs, names[1..][..i - 1])
  {
    assert names[..i] == [names[0]] + names[1..][..i - 1];
  }

  /** The first name that occurs twice is the one reported. */
  lemma {:induction false} DuplicateError(query: Bytes, names: seq<Bytes>, i: nat)
    requires KeysDecode(Pairs(query)) && i < |names| && |Matching(Pairs(query), names[i])| > 1
    requires AtMostOnceEach(Pairs(query), names[..i])
    ensures CheckSingle(query, names) == Err(DuplicateSamlParam(names[i]))
    decreases i
  {
    CheckStep(query, names);
    if i > 0 {
      FrontOnce(Pairs(query), names, i);
      DuplicateError(query, names[1..], i - 1);
    }
  }

  predicate BothMessages(pairs: seq<Bytes>) {
    Matching(pairs, SAML_REQUEST) != [] && Matching(pairs, SAML_RESPONSE) != []
  }

  /** Which error the Redirect check gives. */
  lemma UniquenessErrors(query: Bytes, i: nat)
    ensures var pairs := Pairs(query);
            && (FirstBadKey(pairs, i) ==> ValidateUniqueParams(query) == Err(PercentDecoded(KeyOf(pairs[i])).error))
            && (KeysDecode(pairs) && BothMessages(pairs) ==> ValidateUniqueParams(query) == Err(InvalidSamlParams))
            && (KeysDecode(pairs) && !BothMessages(pairs) && i < |SAML_PARAMS| && |Matching(pairs, SAML_PARAMS[i])| > 1
                && AtMostOnceEach(pairs, SAML_PARAMS[..i])
                ==> ValidateUniqueParams(query) == Err(DuplicateSamlParam(SAML_PARAMS[i])))
  {
    var pairs := Pairs(query);
    if FirstBadKey(pairs, i) {
      BadKeyError(pairs, i, SAML_REQUEST);
    }
    if KeysDecode(pairs) {
      ReadersAgree(pairs, SAML_REQUEST);
      ReadersAgree(pairs, SAML_RESPONSE);
      if !BothMessages(pairs) && i < |SAML_PARAMS| && |Matching(pairs, SAML_PARAMS[i])| > 1
         && AtMostOnceEach(pairs, SAML_PARAMS[..i]) {
        DuplicateError(query, SAML_PARAMS, i);
      }
    }
  }

  /** The POST check passes exactly on bodies whose keys all decode, that name
      each of its three parameters at most once and not both messages. */
  lemma PostUniqueExactly(body: Bytes)
    ensures ValidateUniquePostParams(body).Ok? <==>
            && KeysDecode(Pairs(body)) && !BothMessages(Pairs(body))
            && |Matching(Pairs(body), SAML_REQUEST)| <= 1
            && |Matching(Pairs(body), SAML_RESPONSE)| <= 1
            && |Matching(Pairs(body), RELAY_STATE)| <= 1
  {
    var pairs := Pairs(body);
    CountFailsOnBadKey(pairs, SAML_REQUEST);
    if KeysDecode(pairs) {
      ReadersAgree(pairs, SAML_REQUEST);
      ReadersAgree(pairs, SAML_RESPONSE);
      CheckSingleMeaning(body, POST_PARAMS);
      PostNames(pairs);
    }
  }

  lemma PostNames(pairs: seq<Bytes>)
    ensures AtMostOnceEach(pairs, POST_PARAMS) <==>
            && |Matching(pairs, SAML_REQUEST)| <= 1 && |Matching(pairs, SAML_RESPONSE)| <= 1
            && |Matching(pairs, RELAY_STATE)| <= 1
  {
    assert POST_PARAMS[0] == SAML_REQUEST && POST_PARAMS[1] == SAML_RESPONSE && POST_PARAMS[2] == RELAY_STATE;
    assert forall name :: name in POST_PARAMS ==> name == POST_PARAMS[0] || name == POST_PARAMS[1] || name == POST_PARAMS[2];
  }

  /** Which error the POST check gives. */
  lemma PostUniquenessErrors(body: Bytes, i: nat)
    ensures var pairs := Pairs(body);
            var check := ValidateUniquePostParams(body);
            && (FirstBadKey(pairs, i) ==> check == Err(PercentDecoded(KeyOf(pairs[i])).error))
            && (KeysDecode(pairs) && BothMessages(pairs) ==> check == Err(InvalidSamlParams))
            && (KeysDecode(pairs) && !BothMessages(pairs) && |Matching(pairs, SAML_REQUEST)| > 1
                ==> check == Err(DuplicateSamlParam(SAML_REQUEST)))
            && (KeysDecode(pairs) && !BothMessages(pairs) && |Matching(pairs, SAML_RESPONSE)| > 1
                ==> check == Err(DuplicateSamlParam(SAML_RESPONSE)))
            && (KeysDecode(pairs) && !BothMessages(pairs) && |Matching(pairs, SAML_REQUEST)| <= 1
                && |Matching(pairs, SAML_RESPONSE)| <= 1 && |Matching(pairs, RELAY_STATE)| > 1
                ==> check == Err(DuplicateSamlParam(RELAY_STATE)))
  {
    var pairs := Pairs(body);
    if FirstBadKey(pairs, i) {
      BadKeyError(pairs, i, SAML_REQUEST);
    }
    if KeysDecode(pairs) {
      ReadersAgree(pairs, SAML_REQUEST);
      ReadersAgree(pairs, SAML_RESPONSE);
      ReadersAgree(pairs, RELAY_STATE);
      if !BothMessages(pairs) {
        PostDuplicate(body);
      }
    }
  }

  lemma PostDuplicate(body: Bytes)
    requires KeysDecode(Pairs(body)) && !BothMessages(Pairs(body))
    ensures var pairs := Pairs(body);
            var check := CheckSingle(body, POST_PARAMS);
            && (|Matching(pairs, SAML_REQUEST)| > 1 ==> check == Err(DuplicateSamlParam(SAML_REQUEST)))
            && (|Matching(pairs, SAML_RESPONSE)| > 1 ==> check == Err(DuplicateSamlParam(SAML_RESPONSE)))
            && (|Matching(pairs, SAML_REQUEST)| <= 1 && |Matching(pairs, SAML_RESPONSE)| <= 1
                && |Matching(pairs, RELAY_STATE)| > 1
                ==> check == Err(DuplicateSamlParam(RELAY_STATE)))
  {
    var pairs := Pairs(body);
    assert POST_PARAMS[0] == SAML_REQUEST && POST_PARAMS[1] == SAML_RESPONSE && POST_PARAMS[2] == RELAY_STATE;
    if |Matching(pairs, SAML_REQUEST)| > 1 {
      DuplicateError(body, POST_PARAMS, 0);
    } else if |Matching(pairs, SAML_RESPONSE)| > 1 {
      DuplicateError(body, POST_PARAMS, 1);
    } else if |Matching(pairs, RELAY_STATE)| > 1 {
      DuplicateError(body, POST_PARAMS, 2);
    }
  }

  // ---- POST -----------------------------------------------------------------

  /** The message a raw value stands for: its escapes are decoded only if it
      has any. */
  predicate ReadsMessage(raw: Bytes, xml: Bytes) {
    if '%' in raw then PercentDecoded(raw).Ok? && Base64Decode(PercentDecoded(raw).value) == Ok(xml)
    else Base64Decode(raw) == Ok(xml)
  }

  /** The RelayState a raw value stands for: decoded only if it has an escape
      or a plus sign. */
  predicate ReadsRelay(raw: Bytes, relay: Bytes) {
    if '%' in raw || '+' in raw then PercentDecoded(raw) == Ok(relay) else relay == raw
  }

  /** `p` is the only pair with that key. */
  predicate OnlyPair(pairs: seq<Bytes>, name: Bytes, p: Bytes) {
    Matching(pairs, name) == [p]
  }

  ghost predicate RelayOf(pairs: seq<Bytes>, relayState: Option<Bytes>) {
    match relayState
    case None => Matching(pairs, RELAY_STATE) == []
    case Some(relay) => exists p :: OnlyPair(pairs, RELAY_STATE, p) && ReadsRelay(ValueOf(p), relay)
  }

  ghost predicate PostOutcome(pairs: seq<Bytes>, d: PostDecoded) {
    var name := if d.isRequest then SAML_REQUEST else SAML_RESPONSE;
    var other := if d.isRequest then SAML_RESPONSE else SAML_REQUEST;
    && KeysDecode(pairs) && Matching(pairs, other) == []
    && (exists p :: OnlyPair(pairs, name, p) && ReadsMessage(ValueOf(p), d.xml))
    && RelayOf(pairs, d.relayState)
  }

  /** Decoding a form body gives `d` exactly when all its keys decode, the
      message of `d` is that of the only pair for a message there is, and its
      RelayState that of the only pair for one: anything repeated is an error. */
  lemma PostDecodeExactly(r: Incoming, body: Bytes, d: PostDecoded)
    ensures PostDecode(PostRequest(r, body)) == Ok(d) <==> ValidUtf8(body) && PostOutcome(Pairs(body), d)
  {
    var pairs := Pairs(body);
    PostUniqueExactly(body);
    if ValidUtf8(body) && ValidateUniquePostParams(body).Ok? {
      FormReads(r, body);
      var requests, responses := Matching(pairs, SAML_REQUEST), Matching(pairs, SAML_RESPONSE);
      var relay := RawValue(Head(Matching(pairs, RELAY_STATE)));
      OneAtMost(pairs, SAML_REQUEST);
      OneAtMost(pairs, SAML_RESPONSE);
      RelayOutcome(pairs, d.relayState);
      if requests != [] {
        PostValuesExactly(ValueOf(requests[0]), true, relay, d);
      } else if responses != [] {
        PostValuesExactly(ValueOf(responses[0]), false, relay, d);
      }
    } else if ValidUtf8(body) && PostOutcome(pairs, d) {
      OutcomeIsUnique(pairs, d);
    }
  }

  predicate RelayReads(raw: Option<Bytes>, relayState: Option<Bytes>) {
    raw.Some? == relayState.Some? && (raw.Some? ==> ReadsRelay(raw.value, relayState.value))
  }

  lemma PostValuesExactly(message: Bytes, isRequest: bool, relay: Option<Bytes>, d: PostDecoded)
    ensures PostDecodeValues(message, isRequest, relay) == Ok(d) <==>
            d.isRequest == isRequest && ReadsMessage(message, d.xml) && RelayReads(relay, d.relayState)
  {
  }

  lemma OneAtMost(pairs: seq<Bytes>, name: Bytes)
    requires |Matching(pairs, name)| <= 1
    ensures Matching(pairs, name) != [] ==> OnlyPair(pairs, name, Matching(pairs, name)[0])
  {
    var m := Matching(pairs, name);
    assert m != [] ==> m == [m[0]];
  }

  lemma RelayOutcome(pairs: seq<Bytes>, relayState: Option<Bytes>)
    requires |Matching(pairs, RELAY_STATE)| <= 1
    ensures RelayOf(pairs, relayState) <==> RelayReads(RawValue(Head(Matching(pairs, RELAY_STATE))), relayState)
  {
    var m := Matching(pairs, RELAY_STATE);
    OneAtMost(pairs, RELAY_STATE);
    assert m == [] || OnlyPair(pairs, RELAY_STATE, m[0]);
  }

  lemma OutcomeIsUnique(pairs: seq<Bytes>, d: PostDecoded)
    requires PostOutcome(pairs, d)
    ensures !BothMessages(pairs) && |Matching(pairs, SAML_REQUEST)| <= 1
    ensures |Matching(pairs, SAML_RESPONSE)| <= 1 && |Matching(pairs, RELAY_STATE)| <= 1
  {
    if d.relayState.Some? {
      var p :| OnlyPair(pairs, RELAY_STATE, p) && ReadsRelay(ValueOf(p), d.relayState.value);
    }
  }

  lemma FormReads(r: Incoming, body: Bytes)
    requires ValidUtf8(body) && KeysDecode(Pairs(body))
    ensures var request := PostRequest(r, body);
            && request.FormParam(SAML_REQUEST) == RawValue(Head(Matching(Pairs(body), SAML_REQUEST)))
            && request.FormParam(SAML_RESPONSE) == RawValue(Head(Matching(Pairs(body), SAML_RESPONSE)))
            && request.FormParam(RELAY_STATE) == RawValue(Head(Matching(Pairs(body), RELAY_STATE)))
  {
    if body == [] {
      PairsOfOne([]);
    }
    ReadersAgree(Pairs(body), SAML_REQUEST);
    ReadersAgree(Pairs(body), SAML_RESPONSE);
    ReadersAgree(Pairs(body), RELAY_STATE);
  }

  /** Which error decoding a form body ends in. */
  lemma PostDecodeErrors(r: Incoming, body: Bytes, i: nat)
    ensures var pairs := Pairs(body);
            var outcome := PostDecode(PostRequest(r, body));
            && (!ValidUtf8(body) ==> outcome == Err(InvalidSamlParams))
            && (ValidUtf8(body) && ValidateUniquePostParams(body).Err?
                ==> outcome == Err(ValidateUniquePostParams(body).error))
            && (ValidUtf8(body) && KeysDecode(pairs) && |Matching(pairs, RELAY_STATE)| <= 1
                && Matching(pairs, SAML_REQUEST) == [] && Matching(pairs, SAML_RESPONSE) == []
                ==> outcome == Err(MissingSamlParam(SAML_REQUEST)))
  {
    PostUniqueExactly(body);
    if ValidUtf8(body) && KeysDecode(Pairs(body)) {
      FormReads(r, body);
    }
  }

  /** The same for a body whose only message is the value of `p`. */
  lemma PostValueErrors(r: Incoming, body: Bytes, p: Bytes, isRequest: bool)
    requires ValidUtf8(body) && KeysDecode(Pairs(body)) && |Matching(Pairs(body), RELAY_STATE)| <= 1
    requires OnlyPair(Pairs(body), if isRequest then SAML_REQUEST else SAML_RESPONSE, p)
    requires Matching(Pairs(body), if isRequest then SAML_RESPONSE else SAML_REQUEST) == []
    ensures var raw := ValueOf(p);
            var relay := Matching(Pairs(body), RELAY_STATE);
            var outcome := PostDecode(PostRequest(r, body));
            && ('%' in raw && PercentDecoded(raw).Err? ==> outcome == Err(PercentDecoded(raw).error))
            && ('%' in raw && PercentDecoded(raw).Ok? && Base64Decode(PercentDecoded(raw).value).Err?
                ==> outcome == Err(Base64Decode(PercentDecoded(raw).value).error))
            && ('%' !in raw && Base64Decode(raw).Err? ==> outcome == Err(Base64Decode(raw).error))
            && ((exists xml :: ReadsMessage(raw, xml)) && relay != []
                && ('%' in ValueOf(relay[0]) || '+' in ValueOf(relay[0])) && PercentDecoded(ValueOf(relay[0])).Err?
                ==> outcome == Err(PercentDecoded(ValueOf(relay[0])).error))
  {
    PostUniqueExactly(body);
    FormReads(r, body);
    assert PostDecode(PostRequest(r, body))
           == PostDecodeValues(ValueOf(p), isRequest, RawValue(Head(Matching(Pairs(body), RELAY_STATE))));
  }

  // ---- Redirect -------------------------------------------------------------

  predicate ReadsBase64(raw: Bytes, bytes: Bytes) {
    PercentDecoded(raw).Ok? && Base64Decode(PercentDecoded(raw).value) == Ok(bytes)
  }

  /** The message a raw value stands for, of at most 1 MiB. */
  ghost predicate Inflates(codec: Codec, raw: Bytes, xml: Bytes) {
    |xml| <= 1_048_576 && exists z :: ReadsBase64(raw, z) && codec.open(z) == Stream(xml, false)
  }

  /** The text of an optional pair; what does not decode is taken as it is. */
  predicate ReadsText(pair: Option<Bytes>, text: Option<Bytes>) {
    pair.Some? == text.Some?
    && (pair.Some? ==>
          var raw := ValueOf(pair.value);
          text.value == if PercentDecoded(raw).Ok? then PercentDecoded(raw).value else raw)
  }

  /** The message pair, the RelayState pair if there is one, and the SigAlg
      pair, joined with ampersands. */
  predicate CoversText(c: Carried, message: Bytes, input: Option<Bytes>) {
    match (c.alg, c.relay)
    case (None, _) => input == None
    case (Some(alg), None) => input == Some(message + ['&'] + alg)
    case (Some(alg), Some(relay)) => input == Some(message + ['&'] + (relay + ['&'] + alg))
  }

  ghost predicate RedirectOutcome(codec: Codec, c: Carried, d: RedirectDecoded) {
    var message := if d.isRequest then c.request else c.response;
    && message.Some? && Inflates(codec, ValueOf(message.value), d.xml)
    && ReadsText(c.relay, d.relayState) && ReadsText(c.alg, d.sigAlg)
    && c.sig.Some? == d.signature.Some?
    && (c.sig.Some? ==> c.alg.Some? && ReadsBase64(ValueOf(c.sig.value), d.signature.value))
    && CoversText(c, message.value, d.signatureInput)
  }

  /** Decoding a request target gives `d` exactly when its query names each
      SAML parameter at most once and not both messages, with keys that all
      decode, and `d` is what its pairs stand for. */
  lemma RedirectDecodeExactly(codec: Codec, r: Incoming, d: RedirectDecoded)
    requires r.PlainFront()
    ensures RedirectDecode(codec, GetRequest(r)) == Ok(d) <==>
            && QueryOf(r.uri).Some?
            && var pairs := Pairs(QueryOf(r.uri).value);
               KeysDecode(pairs) && AtMostOnceEach(pairs, SAML_PARAMS) && !BothMessages(pairs)
               && RedirectOutcome(codec, CarriedBy(pairs), d)
  {
    VerifiedEqualsConsumed(codec, r);
    if QueryOf(r.uri).Some? {
      var pairs := Pairs(QueryOf(r.uri).value);
      UniquenessMeaning(QueryOf(r.uri).value);
      if !BothMessages(pairs) {
        CarriedExactly(codec, CarriedBy(pairs), d);
      }
    }
  }

  lemma CarriedExactly(codec: Codec, c: Carried, d: RedirectDecoded)
    requires c.request.None? || c.response.None?
    ensures DecodeCarried(codec, c) == Ok(d) <==> RedirectOutcome(codec, c, d)
  {
    if c.request.Some? || c.response.Some? {
      var message := if c.request.Some? then c.request.value else c.response.value;
      CarriedFields(codec, c, message, d);
      InflatesExactly(codec, ValueOf(message), d.xml);
      CoversExactly(c, message, d.signatureInput);
      TextExactly(c.relay, d.relayState);
      TextExactly(c.alg, d.sigAlg);
      SignatureExactly(c.sig, d.signature);
      assert (if d.isRequest then c.request else c.response).Some? ==> d.isRequest == c.request.Some?;
    }
  }

  lemma CarriedFields(codec: Codec, c: Carried, message: Bytes, d: RedirectDecoded)
    requires c.request.Some? || c.response.Some?
    requires message == if c.request.Some? then c.request.value else c.response.value
    ensures DecodeCarried(codec, c) == Ok(d) <==>
            && DecodeMessage(codec, ValueOf(message)) == Ok(d.xml) && d.isRequest == c.request.Some?
            && DecodedOrRaw(RawValue(c.relay)) == d.relayState && DecodedOrRaw(RawValue(c.alg)) == d.sigAlg
            && DecodeSignature(RawValue(c.sig)) == Ok(d.signature) && (d.signature.Some? ==> c.alg.Some?)
            && SignedPart(c, message) == d.signatureInput
  {
  }

  lemma TextExactly(pair: Option<Bytes>, text: Option<Bytes>)
    ensures DecodedOrRaw(RawValue(pair)) == text <==> ReadsText(pair, text)
  {
  }

  lemma SignatureExactly(sig: Option<Bytes>, signature: Option<Bytes>)
    ensures DecodeSignature(RawValue(sig)) == Ok(signature) <==>
            sig.Some? == signature.Some? && (sig.Some? ==> ReadsBase64(ValueOf(sig.value), signature.value))
  {
  }

  lemma InflatesExactly(codec: Codec, raw: Bytes, xml: Bytes)
    ensures DecodeMessage(codec, raw) == Ok(xml) <==> Inflates(codec, raw, xml)
  {
    if DecodeBase64Value(raw).Ok? {
      assert ReadsBase64(raw, DecodeBase64Value(raw).value);
    }
  }

  lemma CoversExactly(c: Carried, message: Bytes, input: Option<Bytes>)
    ensures SignedPart(c, message) == input <==> CoversText(c, message, input)
  {
    if c.alg.Some? && c.relay.Some? {
      assert [message] + [c.relay.value] + [c.alg.value] == [message, c.relay.value, c.alg.value];
      JoinTwo(c.relay.value, c.alg.value);
      assert [message, c.relay.value, c.alg.value][1..] == [c.relay.value, c.alg.value];
    } else if c.alg.Some? {
      assert [message] + [] + [c.alg.value] == [message, c.alg.value];
      JoinTwo(message, c.alg.value);
    }
  }

  lemma JoinTwo(a: Bytes, b: Bytes)
    ensures Join([a, b], '&') == a + ['&'] + b
  {
    assert [a, b][1..] == [b];
  }

  /** Which error decoding a request target ends in. */
  lemma RedirectDecodeErrors(codec: Codec, r: Incoming)
    requires r.PlainFront()
    ensures QueryOf(r.uri).None? ==> RedirectDecode(codec, GetRequest(r)) == Err(MissingSamlParam(SAML_REQUEST))
    ensures QueryOf(r.uri).Some? ==>
              var query := QueryOf(r.uri).value;
              var c := CarriedBy(Pairs(query));
              var outcome := RedirectDecode(codec, GetRequest(r));
              && (ValidateUniqueParams(query).Err? ==> outcome == Err(ValidateUniqueParams(query).error))
              && (ValidateUniqueParams(query).Ok? && c.request.None? && c.response.None?
                  ==> outcome == Err(MissingSamlParam(SAML_REQUEST)))
              && (ValidateUniqueParams(query).Ok? && (c.request.Some? || c.response.Some?)
                  ==> CarriedError(codec, c, ValueOf(if c.request.Some? then c.request.value else c.response.value), outcome))
  {
    VerifiedEqualsConsumed(codec, r);
  }

  /** Behind the checks: the message is read first, then the signature, and a
      signature without its algorithm is refused. */
  predicate CarriedError(codec: Codec, c: Carried, raw: Bytes, outcome: Result<RedirectDecoded, BindingError>) {
    && (DecodeBase64Value(raw).Err? ==> outcome == Err(DecodeBase64Value(raw).error))
    && (DecodeBase64Value(raw).Ok? && |codec.open(DecodeBase64Value(raw).value).data| > 1_048_576
        ==> outcome == Err(MessageTooLarge))
    && (DecodeMessage(codec, raw).Ok? && c.sig.Some? && DecodeBase64Value(ValueOf(c.sig.value)).Err?
        ==> outcome == Err(DecodeBase64Value(ValueOf(c.sig.value)).error))
    && (DecodeMessage(codec, raw).Ok? && c.sig.Some? && DecodeBase64Value(ValueOf(c.sig.value)).Ok? && c.alg.None?
        ==> outcome == Err(InvalidSamlParams))
  }

  /** The verifier accepts the joined pairs with the signature and the
      algorithm that the pairs hold. */
  ghost predicate Accepted(c: Carried, message: Option<Bytes>, verify: (Bytes, Bytes, Bytes) -> Result<bool, BindingError>) {
    message.Some? && c.sig.Some?
    && exists input, signature, alg ::
         && verify(input, signature, alg) == Ok(true)
         && CoversText(c, message.value, Some(input))
         && ReadsBase64(ValueOf(c.sig.value), signature)
         && ReadsText(c.alg, Some(alg))
  }

  /** What was decoded passes signature verification exactly when the target
      carries a signature that the verifier accepts for the joined pairs. */
  lemma VerifiedExactly(codec: Codec, r: Incoming, query: Bytes, d: RedirectDecoded,
                        verify: (Bytes, Bytes, Bytes) -> Result<bool, BindingError>)
    requires r.PlainFront() && QueryOf(r.uri) == Some(query) && RedirectDecode(codec, GetRequest(r)) == Ok(d)
    ensures var c := CarriedBy(Pairs(query));
            && (VerifySignature(d, verify) == Ok(true) <==> Accepted(c, if d.isRequest then c.request else c.response, verify))
            && (c.sig.None? ==> VerifySignature(d, verify) == Err(SignatureVerificationFailed))
  {
    var c := CarriedBy(Pairs(query));
    var message := if d.isRequest then c.request else c.response;
    RedirectDecodeExactly(codec, r, d);
    assert RedirectOutcome(codec, c, d);
    if c.sig.Some? {
      AcceptedExactly(c, message.value, d, verify);
    }
  }

  lemma AcceptedExactly(c: Carried, message: Bytes, d: RedirectDecoded,
                        verify: (Bytes, Bytes, Bytes) -> Result<bool, BindingError>)
    requires c.sig.Some? && c.alg.Some? && d.signature.Some? && ReadsBase64(ValueOf(c.sig.value), d.signature.value)
    requires ReadsText(c.alg, d.sigAlg) && CoversText(c, message, d.signatureInput)
    ensures VerifySignature(d, verify) == Ok(true) <==> Accepted(c, Some(message), verify)
  {
    var input, signature, alg := d.signatureInput.value, d.signature.value, d.sigAlg.value;
    assert CoversText(c, message, Some(input)) && ReadsText(c.alg, Some(alg));
  }

  // ---- Whatever the adapter hands over -----------------------------------------

  /** A request from any adapter that has both messages is refused by either
      binding, one that has neither likewise. */
  lemma BothOrNeitherRefused(codec: Codec, request: HttpRequest)
    ensures request.QueryParam(SAML_REQUEST).Some? == request.QueryParam(SAML_RESPONSE).Some? ==>
              RedirectDecode(codec, request).Err?
    ensures request.FormParam(SAML_REQUEST).Some? == request.FormParam(SAML_RESPONSE).Some? ==>
              PostDecode(request).Err?
    ensures QueryOf(request.url).None? && request.QueryParam(SAML_REQUEST).Some? && request.QueryParam(SAML_RESPONSE).Some? ==>
              RedirectDecode(codec, request) == Err(InvalidSamlParams)
    ensures QueryOf(request.url).None? && request.QueryParam(SAML_REQUEST).None? && request.QueryParam(SAML_RESPONSE).None? ==>
              RedirectDecode(codec, request) == Err(MissingSamlParam(SAML_REQUEST))
  {
  }
}
