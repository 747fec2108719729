/** HTTP-Redirect binding (crates/gamlastan/src/bindings/redirect.rs; section
    3.4.4.1 of SAML V2.0 Bindings). */
module RedirectBinding {
  import opened Wrappers
  import opened ByteStrings
  import opened BindingErrors
  import opened Encoding
  import opened HttpAdapter
  import opened Deflate

  const SAML_REQUEST: Bytes := "SAMLRequest"
  const SAML_RESPONSE: Bytes := "SAMLResponse"
  const RELAY_STATE: Bytes := "RelayState"
  const SIG_ALG: Bytes := "SigAlg"
  const SIGNATURE: Bytes := "Signature"

  const SAML_PARAMS: seq<Bytes> := [SAML_REQUEST, SAML_RESPONSE, RELAY_STATE, SIG_ALG, SIGNATURE]

  type Sign = (Bytes, Bytes) -> Result<Bytes, BindingError>

  datatype Signer = Signer(sign: Sign, alg: Bytes)

  datatype EncodeParams = EncodeParams(
    xml: Bytes, isRequest: bool, destination: Bytes, relayState: Option<Bytes>, signer: Option<Signer>)
  {
    /** Rust strings are UTF-8. */
    predicate Valid() {
      && (relayState.Some? ==> ValidUtf8(relayState.value))
      && (signer.Some? ==> ValidUtf8(signer.value.alg))
    }
  }

  datatype RedirectDecoded = RedirectDecoded(
    xml: Bytes, isRequest: bool, relayState: Option<Bytes>, sigAlg: Option<Bytes>,
    signature: Option<Bytes>, signatureInput: Option<Bytes>)

  // ---- Encoding ---------------------------------------------------------

  function SamlName(isRequest: bool): Bytes {
    if isRequest then SAML_REQUEST else SAML_RESPONSE
  }

  /** `name=value` with the value percent-coded. */
  function Pair(name: Bytes, value: Bytes): Bytes {
    name + ['='] + PercentEncoded(value)
  }

  /** The pairs a detached signature covers, in the order of the standard. */
  function SignedPairs(p: EncodeParams, deflated: Bytes): seq<Bytes> {
    [Pair(SamlName(p.isRequest), Base64Encode(deflated))]
    + (if p.relayState.Some? then [Pair(RELAY_STATE, p.relayState.value)] else [])
    + (if p.signer.Some? then [Pair(SIG_ALG, p.signer.value.alg)] else [])
  }

  function SignedText(p: EncodeParams, deflated: Bytes): Bytes {
    Join(SignedPairs(p, deflated), '&')
  }

  /** All pairs, with the signature bytes when there is a signer. */
  function QueryPairs(p: EncodeParams, deflated: Bytes, signature: Bytes): seq<Bytes> {
    SignedPairs(p, deflated) + (if p.signer.Some? then [Pair(SIGNATURE, Base64Encode(signature))] else [])
  }

  function Url(destination: Bytes, query: Bytes): Bytes {
    destination + [if '?' in destination then '&' else '?'] + query
  }

  method RedirectEncode(codec: Codec, p: EncodeParams) returns (r: Result<Bytes, BindingError>)
    ensures codec.compress(p.xml).Err? ==> r == Err(codec.compress(p.xml).error)
    ensures codec.compress(p.xml).Ok? ==>
              var z := codec.compress(p.xml).value;
              if p.signer.None? then r == Ok(Url(p.destination, Join(QueryPairs(p, z, []), '&')))
              else match p.signer.value.sign(SignedText(p, z), p.signer.value.alg)
                case Ok(s) => r == Ok(Url(p.destination, Join(QueryPairs(p, z, s), '&')))
                case Err(e) => r == Err(e)
  {
    var compressed := codec.compress(p.xml);
    if compressed.Err? {
      return Err(compressed.error);
    }
    var z := compressed.value;
    var b64 := Base64Encode(z);
    var encodedValue := UrlEncode(b64);
    var query := SamlName(p.isRequest) + ['='] + encodedValue;
    ghost var pairs := [Pair(SamlName(p.isRequest), b64)];
    if p.relayState.Some? {
      var encodedState := UrlEncode(p.relayState.value);
      AppendPair(pairs, RELAY_STATE, p.relayState.value);
      pairs := pairs + [Pair(RELAY_STATE, p.relayState.value)];
      query := query + (['&'] + RELAY_STATE + ['=']);
      query := query + encodedState;
    }
    assert query == Join(pairs, '&');
    if p.signer.Some? {
      var encodedAlg := UrlEncode(p.signer.value.alg);
      AppendPair(pairs, SIG_ALG, p.signer.value.alg);
      pairs := pairs + [Pair(SIG_ALG, p.signer.value.alg)];
      query := query + (['&'] + SIG_ALG + ['=']);
      query := query + encodedAlg;
      assert query == Join(pairs, '&');
      assert pairs == SignedPairs(p, z);
      var signature := p.signer.value.sign(query, p.signer.value.alg);
      if signature.Err? {
        return Err(signature.error);
      }
      var sigB64 := Base64Encode(signature.value);
      var encodedSig := UrlEncode(sigB64);
      AppendPair(pairs, SIGNATURE, sigB64);
      pairs := pairs + [Pair(SIGNATURE, sigB64)];
      query := query + (['&'] + SIGNATURE + ['=']);
      query := query + encodedSig;
      assert query == Join(QueryPairs(p, z, signature.value), '&');
    } else {
      assert pairs == QueryPairs(p, z, []);
    }
    var separator: Byte := if '?' in p.destination then '&' else '?';
    r := Ok(p.destination + [separator] + query);
  }

  lemma AppendPair(pairs: seq<Bytes>, name: Bytes, value: Bytes)
    requires pairs != []
    ensures Join(pairs, '&') + (['&'] + name + ['=']) + PercentEncoded(value)
            == Join(pairs + [Pair(name, value)], '&')
  {
    JoinSnoc(pairs, Pair(name, value));
  }

  lemma {:induction false} JoinSnoc(parts: seq<Bytes>, last: Bytes)
    requires parts != []
    ensures Join(parts + [last], '&') == Join(parts, '&') + ['&'] + last
  {
    if |parts| > 1 {
      assert (parts + [last])[1..] == parts[1..] + [last];
      JoinSnoc(parts[1..], last);
    }
  }

  // ---- Decoding ---------------------------------------------------------

  /** Number of pairs whose decoded key is `wanted`; the first key that does
      not decode is an error. */
  function CountKeys(pairs: seq<Bytes>, wanted: Bytes): Result<nat, BindingError> {
    if pairs == [] then Ok(0)
    else match PercentDecoded(KeyOf(pairs[0]))
      case Err(e) => Err(e)
      case Ok(key) => (match CountKeys(pairs[1..], wanted)
        case Err(e) => Err(e)
        case Ok(n) => Ok(n + if key == wanted then 1 else 0))
  }

  function RawParamCount(query: Bytes, wanted: Bytes): Result<nat, BindingError> {
    CountKeys(Pairs(query), wanted)
  }

  function CheckSingle(query: Bytes, names: seq<Bytes>): Result<(), BindingError> {
    if names == [] then Ok(())
    else match RawParamCount(query, names[0])
      case Err(e) => Err(e)
      case Ok(n) => if n > 1 then Err(DuplicateSamlParam(names[0])) else CheckSingle(query, names[1..])
  }

  function ValidateUniqueParams(query: Bytes): Result<(), BindingError> {
    match RawParamCount(query, SAML_REQUEST)
    case Err(e) => Err(e)
    case Ok(requests) => (match RawParamCount(query, SAML_RESPONSE)
      case Err(e) => Err(e)
      case Ok(responses) =>
        if requests > 0 && responses > 0 then Err(InvalidSamlParams)
        else CheckSingle(query, SAML_PARAMS))
  }

  /** First pair whose decoded key is `wanted`, scanning in order. */
  function FirstPair(pairs: seq<Bytes>, wanted: Bytes): Result<Option<Bytes>, BindingError> {
    if pairs == [] then Ok(None)
    else match PercentDecoded(KeyOf(pairs[0]))
      case Err(e) => Err(e)
      case Ok(key) => if key == wanted then Ok(Some(pairs[0])) else FirstPair(pairs[1..], wanted)
  }

  method RawPairByDecodedName(query: Bytes, wanted: Bytes) returns (r: Result<Option<Bytes>, BindingError>)
    ensures r == FirstPair(Pairs(query), wanted)
  {
    var pairs := Pairs(query);
    for i := 0 to |pairs|
      invariant FirstPair(pairs, wanted) == FirstPair(pairs[i..], wanted)
    {
      assert pairs[i..][1..] == pairs[i + 1..];
      var key := UrlDecode(KeyOf(pairs[i]));
      if key.Err? {
        return Err(key.error);
      }
      if key.value == wanted {
        return Ok(Some(pairs[i]));
      }
    }
    r := Ok(None);
  }

  function SignatureInput(query: Bytes, samlName: Bytes): Result<Bytes, BindingError> {
    match FirstPair(Pairs(query), samlName)
    case Err(e) => Err(e)
    case Ok(None) => Err(MissingSamlParam(samlName))
    case Ok(Some(saml)) => (match FirstPair(Pairs(query), RELAY_STATE)
      case Err(e) => Err(e)
      case Ok(relay) => (match FirstPair(Pairs(query), SIG_ALG)
        case Err(e) => Err(e)
        case Ok(None) => Err(MissingSamlParam(SIG_ALG))
        case Ok(Some(alg)) =>
          Ok(Join([saml] + (if relay.Some? then [relay.value] else []) + [alg], '&'))))
  }

  method BuildRedirectSignatureInput(query: Bytes, samlName: Bytes) returns (r: Result<Bytes, BindingError>)
    ensures r == SignatureInput(query, samlName)
  {
    var pairs: seq<Bytes> := [];
    var saml := RawPairByDecodedName(query, samlName);
    if saml.Err? {
      return Err(saml.error);
    }
    if saml.value.None? {
      return Err(MissingSamlParam(samlName));
    }
    pairs := pairs + [saml.value.value];
    var relay := RawPairByDecodedName(query, RELAY_STATE);
    if relay.Err? {
      return Err(relay.error);
    }
    if relay.value.Some? {
      pairs := pairs + [relay.value.value];
    }
    var alg := RawPairByDecodedName(query, SIG_ALG);
    if alg.Err? {
      return Err(alg.error);
    }
    if alg.value.None? {
      return Err(MissingSamlParam(SIG_ALG));
    }
    pairs := pairs + [alg.value.value];
    assert pairs == [saml.value.value] + (if relay.value.Some? then [relay.value.value] else []) + [alg.value.value];
    r := Ok(Join(pairs, '&'));
  }

  /** Decoded text, or the raw text when it does not decode. */
  function DecodedOrRaw(v: Option<Bytes>): Option<Bytes> {
    match v
    case None => None
    case Some(raw) => Some(match PercentDecoded(raw) case Ok(s) => s case Err(_) => raw)
  }

  /** Which SAML parameter the request carries, with its raw value. */
  function SamlValue(request: HttpRequest): Result<(Bytes, bool), BindingError> {
    match (request.QueryParam(SAML_REQUEST), request.QueryParam(SAML_RESPONSE))
    case (Some(_), Some(_)) => Err(InvalidSamlParams)
    case (Some(v), None) => Ok((v, true))
    case (None, Some(v)) => Ok((v, false))
    case (None, None) => Err(MissingSamlParam(SAML_REQUEST))
  }

  function DecodeBase64Value(raw: Bytes): Result<Bytes, BindingError> {
    match PercentDecoded(raw)
    case Err(e) => Err(e)
    case Ok(text) => Base64Decode(text)
  }

  function DecodeMessage(codec: Codec, raw: Bytes): Result<Bytes, BindingError> {
    match DecodeBase64Value(raw)
    case Err(e) => Err(e)
    case Ok(deflated) => Bounded(codec.open(deflated))
  }

  function DecodeSignature(raw: Option<Bytes>): Result<Option<Bytes>, BindingError> {
    match raw
    case None => Ok(None)
    case Some(v) => (match DecodeBase64Value(v)
      case Err(e) => Err(e)
      case Ok(s) => Ok(Some(s)))
  }

  /** What follows the choice of the message parameter. */
  function DecodeValues(codec: Codec, message: Bytes, isRequest: bool, relay: Option<Bytes>, alg: Option<Bytes>,
                        sig: Option<Bytes>, query: Option<Bytes>): Result<RedirectDecoded, BindingError>
  {
    match DecodeMessage(codec, message)
    case Err(e) => Err(e)
    case Ok(xml) =>
      var relayState := DecodedOrRaw(relay);
      var sigAlg := DecodedOrRaw(alg);
      match DecodeSignature(sig)
      case Err(e) => Err(e)
      case Ok(signature) =>
        if signature.Some? && sigAlg.None? then Err(InvalidSamlParams)
        else if sigAlg.None? || query.None? then
          Ok(RedirectDecoded(xml, isRequest, relayState, sigAlg, signature, None))
        else match SignatureInput(query.value, SamlName(isRequest))
          case Err(e) => Err(e)
          case Ok(input) => Ok(RedirectDecoded(xml, isRequest, relayState, sigAlg, signature, Some(input)))
  }

  /** What follows the uniqueness check. */
  function DecodeParams(codec: Codec, request: HttpRequest): Result<RedirectDecoded, BindingError> {
    match SamlValue(request)
    case Err(e) => Err(e)
    case Ok((message, isRequest)) =>
      DecodeValues(codec, message, isRequest, request.QueryParam(RELAY_STATE), request.QueryParam(SIG_ALG),
                   request.QueryParam(SIGNATURE), QueryOf(request.url))
  }

  function RedirectDecode(codec: Codec, request: HttpRequest): Result<RedirectDecoded, BindingError> {
    match QueryOf(request.url)
    case None => DecodeParams(codec, request)
    case Some(query) => (match ValidateUniqueParams(query)
      case Err(e) => Err(e)
      case Ok(_) => DecodeParams(codec, request))
  }

  /** `redirect_verify_signature`, over any signature verifier. */
  function VerifySignature(d: RedirectDecoded, verify: (Bytes, Bytes, Bytes) -> Result<bool, BindingError>)
    : Result<bool, BindingError>
  {
    if d.signatureInput.None? || d.signature.None? || d.sigAlg.None? then Err(SignatureVerificationFailed)
    else verify(d.signatureInput.value, d.signature.value, d.sigAlg.value)
  }
}
