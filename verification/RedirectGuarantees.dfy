/** What the Redirect binding promises: round trip, and that the text whose
    signature is checked is the text that is consumed. */
module RedirectGuarantees {
  import opened Wrappers
  import opened ByteStrings
  import opened BindingErrors
  import opened Encoding
  import opened HttpAdapter
  import opened Deflate
  import opened RedirectBinding

  // ---- Every reading of a query goes through its matching pairs ---------

  predicate HasKey(pair: Bytes, name: Bytes) {
    PercentDecoded(KeyOf(pair)) == Ok(name)
  }

  predicate KeysDecode(pairs: seq<Bytes>) {
    forall p :: p in pairs ==> PercentDecoded(KeyOf(p)).Ok?
  }

  function Named(name: Bytes): Bytes -> bool {
    (p: Bytes) => HasKey(p, name)
  }

  function Matching(pairs: seq<Bytes>, name: Bytes): seq<Bytes> {
    Filter(pairs, Named(name))
  }

  function Head<T>(xs: seq<T>): Option<T> {
    if xs == [] then None else Some(xs[0])
  }

  /** The binding's counter and scanner and the adapter's parser with its own
      decoder all see the same matching pairs. */
  lemma {:induction false} ReadersAgree(pairs: seq<Bytes>, name: Bytes)
    requires KeysDecode(pairs)
    ensures CountKeys(pairs, name) == Ok(|Matching(pairs, name)|)
    ensures FirstPair(pairs, name) == Ok(Head(Matching(pairs, name)))
    ensures FindParam(ParseParams(pairs), name) == RawValue(Head(Matching(pairs, name)))
  {
    if pairs != [] {
      assert pairs[0] in pairs;
      ParserStep(pairs, name);
      ScannerStep(pairs, name);
      TailKeysDecode(pairs);
      ReadersAgree(pairs[1..], name);
    }
  }

  lemma ScannerStep(pairs: seq<Bytes>, name: Bytes)
    requires pairs != [] && PercentDecoded(KeyOf(pairs[0])).Ok?
    ensures FirstPair(pairs, name) == if HasKey(pairs[0], name) then Ok(Some(pairs[0])) else FirstPair(pairs[1..], name)
    ensures forall n :: CountKeys(pairs[1..], name) == Ok(n) ==>
                          CountKeys(pairs, name) == Ok(n + if HasKey(pairs[0], name) then 1 else 0)
  {
  }

  lemma ParserStep(pairs: seq<Bytes>, name: Bytes)
    requires pairs != [] && PercentDecoded(KeyOf(pairs[0])).Ok?
    ensures FindParam(ParseParams(pairs), name)
            == if HasKey(pairs[0], name) then Some(ValueOf(pairs[0])) else FindParam(ParseParams(pairs[1..]), name)
    ensures Matching(pairs, name)
            == (if HasKey(pairs[0], name) then [pairs[0]] else []) + Matching(pairs[1..], name)
  {
    LenientKeyAgrees(KeyOf(pairs[0]));
    assert ParseParams(pairs)[1..] == ParseParams(pairs[1..]);
  }

  lemma TailKeysDecode(pairs: seq<Bytes>)
    requires pairs != [] && KeysDecode(pairs)
    ensures KeysDecode(pairs[1..])
  {
    forall p | p in pairs[1..]
      ensures PercentDecoded(KeyOf(p)).Ok?
    {
      assert p in pairs;
    }
  }

  /** The counter fails exactly when some key does not decode. */
  lemma {:induction false} CountFailsOnBadKey(pairs: seq<Bytes>, name: Bytes)
    ensures CountKeys(pairs, name).Ok? <==> KeysDecode(pairs)
  {
    if pairs != [] {
      CountFailsOnBadKey(pairs[1..], name);
      assert pairs == [pairs[0]] + pairs[1..];
    }
  }

  /** The uniqueness check passes exactly on queries whose keys all decode,
      that name each SAML parameter at most once and not both messages. */
  lemma UniquenessMeaning(query: Bytes)
    ensures ValidateUniqueParams(query).Ok? <==>
            && KeysDecode(Pairs(query))
            && (forall name :: name in SAML_PARAMS ==> |Matching(Pairs(query), name)| <= 1)
            && (Matching(Pairs(query), SAML_REQUEST) == [] || Matching(Pairs(query), SAML_RESPONSE) == [])
  {
    var pairs := Pairs(query);
    CountFailsOnBadKey(pairs, SAML_REQUEST);
    if KeysDecode(pairs) {
      ReadersAgree(pairs, SAML_REQUEST);
      ReadersAgree(pairs, SAML_RESPONSE);
      CheckSingleMeaning(query, SAML_PARAMS);
    }
  }

  lemma {:induction false} CheckSingleMeaning(query: Bytes, names: seq<Bytes>)
    requires KeysDecode(Pairs(query))
    ensures CheckSingle(query, names).Ok? <==> AtMostOnceEach(Pairs(query), names)
  {
    if names != [] {
      ReadersAgree(Pairs(query), names[0]);
      CheckSingleMeaning(query, names[1..]);
      OnceEachCons(Pairs(query), names);
    }
  }

  predicate AtMostOnceEach(pairs: seq<Bytes>, names: seq<Bytes>) {
    forall name :: name in names ==> |Matching(pairs, name)| <= 1
  }

  lemma OnceEachCons(pairs: seq<Bytes>, names: seq<Bytes>)
    requires names != []
    ensures AtMostOnceEach(pairs, names) <==> |Matching(pairs, names[0])| <= 1 && AtMostOnceEach(pairs, names[1..])
  {
    assert names == [names[0]] + names[1..];
  }

  // ---- One reference reading --------------------------------------------

  /** The one pair, if any, a query has for each SAML parameter. */
  datatype Carried = Carried(
    request: Option<Bytes>, response: Option<Bytes>, relay: Option<Bytes>, alg: Option<Bytes>, sig: Option<Bytes>)

  function CarriedBy(pairs: seq<Bytes>): Carried {
    Carried(Head(Matching(pairs, SAML_REQUEST)), Head(Matching(pairs, SAML_RESPONSE)),
            Head(Matching(pairs, RELAY_STATE)), Head(Matching(pairs, SIG_ALG)), Head(Matching(pairs, SIGNATURE)))
  }

  function RawValue(pair: Option<Bytes>): Option<Bytes> {
    match pair case None => None case Some(p) => Some(ValueOf(p))
  }

  function SignedPart(c: Carried, message: Bytes): Option<Bytes> {
    match c.alg
    case None => None
    case Some(alg) => Some(Join([message] + (if c.relay.Some? then [c.relay.value] else []) + [alg], '&'))
  }

  /** The outcome of decoding, read off the carried pairs alone. */
  function DecodeCarried(codec: Codec, c: Carried): Result<RedirectDecoded, BindingError> {
    if c.request.None? && c.response.None? then Err(MissingSamlParam(SAML_REQUEST))
    else
      var message := if c.request.Some? then c.request.value else c.response.value;
      match DecodeMessage(codec, ValueOf(message))
      case Err(e) => Err(e)
      case Ok(xml) => (match DecodeSignature(RawValue(c.sig))
        case Err(e) => Err(e)
        case Ok(signature) =>
          if signature.Some? && c.alg.None? then Err(InvalidSamlParams)
          else Ok(RedirectDecoded(xml, c.request.Some?, DecodedOrRaw(RawValue(c.relay)),
                                  DecodedOrRaw(RawValue(c.alg)), signature, SignedPart(c, message))))
  }

  /** The outcome of decoding, read off the query alone: what is consumed and
      what is signed are parts of the same carried pairs. */
  function Reference(codec: Codec, query: Option<Bytes>): Result<RedirectDecoded, BindingError> {
    match query
    case None => Err(MissingSamlParam(SAML_REQUEST))
    case Some(q) => (match ValidateUniqueParams(q)
      case Err(e) => Err(e)
      case Ok(_) => DecodeCarried(codec, CarriedBy(Pairs(q))))
  }

  /** Verified equals consumed: when scheme and host hold no question mark, the
      message, RelayState and SigAlg consumed through the adapter's parser and
      the pairs joined into the signature input are the same carried pairs of
      the request target. */
  lemma VerifiedEqualsConsumed(codec: Codec, r: Incoming)
    requires r.PlainFront()
    ensures RedirectDecode(codec, GetRequest(r)) == Reference(codec, QueryOf(r.uri))
  {
    UrlQueryExactly(r);
    if QueryOf(r.uri).Some? && ValidateUniqueParams(QueryOf(r.uri).value).Ok? {
      UniqueQueryDecodes(codec, GetRequest(r), QueryOf(r.uri).value);
    }
  }

  lemma UniqueQueryDecodes(codec: Codec, request: HttpRequest, query: Bytes)
    requires QueryOf(request.url) == Some(query) && request.query == ParseParams(Pairs(query))
    requires ValidateUniqueParams(query).Ok?
    ensures RedirectDecode(codec, request) == DecodeCarried(codec, CarriedBy(Pairs(query)))
  {
    var pairs := Pairs(query);
    var c := CarriedBy(pairs);
    UniquenessMeaning(query);
    ParamsAreCarried(request, query);
    if c.request.Some? || c.response.Some? {
      var isRequest := c.request.Some?;
      var message := if isRequest then c.request.value else c.response.value;
      if c.alg.Some? {
        SignatureInputOf(query, SamlName(isRequest));
      }
      ValuesAreCarried(codec, query, c, message, isRequest);
    }
  }

  lemma ParamsAreCarried(request: HttpRequest, query: Bytes)
    requires request.query == ParseParams(Pairs(query)) && KeysDecode(Pairs(query))
    ensures var c := CarriedBy(Pairs(query));
            && request.QueryParam(SAML_REQUEST) == RawValue(c.request)
            && request.QueryParam(SAML_RESPONSE) == RawValue(c.response)
            && request.QueryParam(RELAY_STATE) == RawValue(c.relay)
            && request.QueryParam(SIG_ALG) == RawValue(c.alg)
            && request.QueryParam(SIGNATURE) == RawValue(c.sig)
  {
    var pairs := Pairs(query);
    ReadersAgree(pairs, SAML_REQUEST);
    ReadersAgree(pairs, SAML_RESPONSE);
    ReadersAgree(pairs, RELAY_STATE);
    ReadersAgree(pairs, SIG_ALG);
    ReadersAgree(pairs, SIGNATURE);
  }

  lemma ValuesAreCarried(codec: Codec, query: Bytes, c: Carried, message: Bytes, isRequest: bool)
    requires isRequest == c.request.Some?
    requires Some(message) == if isRequest then c.request else c.response
    requires c.alg.Some? ==> SignatureInput(query, SamlName(isRequest)) == Ok(SignedPart(c, message).value)
    ensures DecodeValues(codec, ValueOf(message), isRequest, RawValue(c.relay), RawValue(c.alg), RawValue(c.sig), Some(query))
            == DecodeCarried(codec, c)
  {
  }

  lemma SignatureInputOf(query: Bytes, name: Bytes)
    requires KeysDecode(Pairs(query))
    requires Matching(Pairs(query), name) != [] && Matching(Pairs(query), SIG_ALG) != []
    ensures SignatureInput(query, name)
            == Ok(SignedPart(CarriedBy(Pairs(query)), Matching(Pairs(query), name)[0]).value)
  {
    ReadersAgree(Pairs(query), name);
    ReadersAgree(Pairs(query), RELAY_STATE);
    ReadersAgree(Pairs(query), SIG_ALG);
  }

  // ---- The order of pairs and the pairs of others do not matter ---------

  predicate IsSamlPair(pair: Bytes) {
    var key := PercentDecoded(KeyOf(pair));
    key.Ok? && key.value in SAML_PARAMS
  }

  function SamlPairs(pairs: seq<Bytes>): seq<Bytes> {
    Filter(pairs, (p: Bytes) => IsSamlPair(p))
  }

  lemma SamePairsSameMatching(xs: seq<Bytes>, ys: seq<Bytes>, name: Bytes)
    requires multiset(SamlPairs(xs)) == multiset(SamlPairs(ys)) && name in SAML_PARAMS
    ensures |Matching(xs, name)| == |Matching(ys, name)|
    ensures |Matching(xs, name)| <= 1 ==> Matching(xs, name) == Matching(ys, name)
  {
    var a, b := Matching(xs, name), Matching(ys, name);
    forall p
      ensures multiset(a)[p] == multiset(b)[p]
    {
      FilterCount(xs, Named(name), p);
      FilterCount(ys, Named(name), p);
      FilterCount(xs, (p: Bytes) => IsSamlPair(p), p);
      FilterCount(ys, (p: Bytes) => IsSamlPair(p), p);
    }
    assert multiset(a) == multiset(b);
    assert |a| == |multiset(a)| == |multiset(b)| == |b|;
    if |a| == 1 {
      assert a[0] in multiset(a);
      assert a == [a[0]] && b == [b[0]];
    }
  }

  /** Two queries that carry the same SAML pairs, in any order and among any
      unrelated pairs whose keys decode, give the same outcome and the same
      signature input. */
  lemma DecodeIgnoresOrderAndStrangers(codec: Codec, q1: Bytes, q2: Bytes)
    requires KeysDecode(Pairs(q1)) && KeysDecode(Pairs(q2))
    requires multiset(SamlPairs(Pairs(q1))) == multiset(SamlPairs(Pairs(q2)))
    ensures Reference(codec, Some(q1)) == Reference(codec, Some(q2))
    ensures forall r1: Incoming, r2: Incoming ::
              r1.PlainFront() && r2.PlainFront() && QueryOf(r1.uri) == Some(q1) && QueryOf(r2.uri) == Some(q2)
              ==> RedirectDecode(codec, GetRequest(r1)) == RedirectDecode(codec, GetRequest(r2))
  {
    SameQueriesSameReference(codec, q1, q2);
    forall r1: Incoming, r2: Incoming
      | r1.PlainFront() && r2.PlainFront() && QueryOf(r1.uri) == Some(q1) && QueryOf(r2.uri) == Some(q2)
      ensures RedirectDecode(codec, GetRequest(r1)) == RedirectDecode(codec, GetRequest(r2))
    {
      VerifiedEqualsConsumed(codec, r1);
      VerifiedEqualsConsumed(codec, r2);
    }
  }

  lemma SameQueriesSameReference(codec: Codec, q1: Bytes, q2: Bytes)
    requires KeysDecode(Pairs(q1)) && KeysDecode(Pairs(q2))
    requires multiset(SamlPairs(Pairs(q1))) == multiset(SamlPairs(Pairs(q2)))
    ensures Reference(codec, Some(q1)) == Reference(codec, Some(q2))
  {
    forall name | name in SAML_PARAMS
      ensures RawParamCount(q1, name) == RawParamCount(q2, name)
      ensures |Matching(Pairs(q1), name)| <= 1 ==> Matching(Pairs(q1), name) == Matching(Pairs(q2), name)
    {
      ReadersAgree(Pairs(q1), name);
      ReadersAgree(Pairs(q2), name);
      SamePairsSameMatching(Pairs(q1), Pairs(q2), name);
    }
    SameCountsSameVerdict(q1, q2);
    if ValidateUniqueParams(q1).Ok? {
      UniquenessMeaning(q1);
      SameMatchingSameCarried(Pairs(q1), Pairs(q2));
    }
  }

  lemma SameMatchingSameCarried(xs: seq<Bytes>, ys: seq<Bytes>)
    requires forall name :: name in SAML_PARAMS ==> Matching(xs, name) == Matching(ys, name)
    ensures CarriedBy(xs) == CarriedBy(ys)
  {
    SamlParamList();
  }

  lemma SamlParamList()
    ensures SAML_REQUEST in SAML_PARAMS && SAML_RESPONSE in SAML_PARAMS && RELAY_STATE in SAML_PARAMS
    ensures SIG_ALG in SAML_PARAMS && SIGNATURE in SAML_PARAMS
  {
    assert SAML_PARAMS[0] == SAML_REQUEST && SAML_PARAMS[1] == SAML_RESPONSE && SAML_PARAMS[2] == RELAY_STATE;
    assert SAML_PARAMS[3] == SIG_ALG && SAML_PARAMS[4] == SIGNATURE;
  }

  lemma SameCountsSameVerdict(q1: Bytes, q2: Bytes)
    requires forall name :: name in SAML_PARAMS ==> RawParamCount(q1, name) == RawParamCount(q2, name)
    ensures ValidateUniqueParams(q1) == ValidateUniqueParams(q2)
  {
    SamlParamList();
    CheckSingleSame(q1, q2, SAML_PARAMS);
  }

  lemma {:induction false} CheckSingleSame(q1: Bytes, q2: Bytes, names: seq<Bytes>)
    requires forall name :: name in names ==> RawParamCount(q1, name) == RawParamCount(q2, name)
    ensures CheckSingle(q1, names) == CheckSingle(q2, names)
  {
    if names != [] {
      assert names[0] in names;
      CheckSingleSame(q1, q2, names[1..]);
    }
  }

  // ---- Queries built from known pairs ------------------------------------

  function Listed(pair: Option<Bytes>): seq<Bytes> {
    if pair.Some? then [pair.value] else []
  }

  function Parts(c: Carried): seq<Bytes> {
    Listed(c.request) + Listed(c.response) + Listed(c.relay) + Listed(c.alg) + Listed(c.sig)
  }

  predicate Keyed(pair: Option<Bytes>, name: Bytes) {
    pair.Some? ==> HasKey(pair.value, name)
  }

  predicate WellKeyed(c: Carried) {
    && Keyed(c.request, SAML_REQUEST) && Keyed(c.response, SAML_RESPONSE) && Keyed(c.relay, RELAY_STATE)
    && Keyed(c.alg, SIG_ALG) && Keyed(c.sig, SIGNATURE) && (c.request.None? || c.response.None?)
  }

  /** Pairs whose keys decode and name no SAML parameter. */
  predicate Unrelated(pairs: seq<Bytes>) {
    forall p :: p in pairs ==> PercentDecoded(KeyOf(p)).Ok? && PercentDecoded(KeyOf(p)).value !in SAML_PARAMS
  }

  function Select(c: Carried, name: Bytes): Option<Bytes> {
    if name == SAML_REQUEST then c.request
    else if name == SAML_RESPONSE then c.response
    else if name == RELAY_STATE then c.relay
    else if name == SIG_ALG then c.alg
    else if name == SIGNATURE then c.sig else None
  }

  function Kept(pair: Option<Bytes>, key: Bytes, name: Bytes): seq<Bytes> {
    if key == name then Listed(pair) else []
  }

  lemma MatchingListed(pair: Option<Bytes>, key: Bytes, name: Bytes)
    requires Keyed(pair, key)
    ensures Matching(Listed(pair), name) == Kept(pair, key, name)
  {
    if key == name {
      FilterAll(Listed(pair), Named(name));
    } else {
      FilterNone(Listed(pair), Named(name));
    }
  }

  lemma MatchingStrangers(strangers: seq<Bytes>, parts: seq<Bytes>, name: Bytes)
    requires Unrelated(strangers) && name in SAML_PARAMS
    ensures Matching(strangers + parts, name) == Matching(parts, name)
  {
    FilterNone(strangers, Named(name));
    FilterConcat(strangers, parts, Named(name));
    assert [] + Matching(parts, name) == Matching(parts, name);
  }

  lemma MatchingParts(strangers: seq<Bytes>, c: Carried, name: Bytes)
    requires Unrelated(strangers) && WellKeyed(c) && name in SAML_PARAMS
    ensures Matching(strangers + Parts(c), name) == Listed(Select(c, name))
  {
    MatchingStrangers(strangers, Parts(c), name);
    MatchingEachPart(c, name);
    MatchingListed(c.request, SAML_REQUEST, name);
    MatchingListed(c.response, SAML_RESPONSE, name);
    MatchingListed(c.relay, RELAY_STATE, name);
    MatchingListed(c.alg, SIG_ALG, name);
    MatchingListed(c.sig, SIGNATURE, name);
    KeptIsSelected(c, name);
  }

  lemma KeptIsSelected(c: Carried, name: Bytes)
    requires name in SAML_PARAMS
    ensures Kept(c.request, SAML_REQUEST, name) + Kept(c.response, SAML_RESPONSE, name) + Kept(c.relay, RELAY_STATE, name)
            + Kept(c.alg, SIG_ALG, name) + Kept(c.sig, SIGNATURE, name)
            == Listed(Select(c, name))
  {
    NamesDiffer();
    SamlParamCases(name);
    OnlyOne(Kept(c.request, SAML_REQUEST, name), Kept(c.response, SAML_RESPONSE, name), Kept(c.relay, RELAY_STATE, name),
            Kept(c.alg, SIG_ALG, name), Kept(c.sig, SIGNATURE, name));
  }

  lemma MatchingEachPart(c: Carried, name: Bytes)
    ensures Matching(Parts(c), name)
            == Matching(Listed(c.request), name) + Matching(Listed(c.response), name) + Matching(Listed(c.relay), name)
               + Matching(Listed(c.alg), name) + Matching(Listed(c.sig), name)
  {
    var f := Named(name);
    var p1 := Listed(c.request) + Listed(c.response);
    var p2 := p1 + Listed(c.relay);
    var p3 := p2 + Listed(c.alg);
    FilterConcat(p3, Listed(c.sig), f);
    FilterConcat(p2, Listed(c.alg), f);
    FilterConcat(p1, Listed(c.relay), f);
    FilterConcat(Listed(c.request), Listed(c.response), f);
  }

  /** A concatenation with at most one part that is not empty. */
  lemma OnlyOne(a: seq<Bytes>, b: seq<Bytes>, c: seq<Bytes>, d: seq<Bytes>, e: seq<Bytes>)
    ensures b == c == d == e == [] ==> a + b + c + d + e == a
    ensures a == c == d == e == [] ==> a + b + c + d + e == b
    ensures a == b == d == e == [] ==> a + b + c + d + e == c
    ensures a == b == c == e == [] ==> a + b + c + d + e == d
    ensures a == b == c == d == [] ==> a + b + c + d + e == e
  {
  }

  lemma NamesDiffer()
    ensures |SAML_REQUEST| == 11 && |SAML_RESPONSE| == 12 && |RELAY_STATE| == 10 && |SIG_ALG| == 6 && |SIGNATURE| == 9
  {
  }

  lemma KeysOfParts(strangers: seq<Bytes>, c: Carried)
    requires Unrelated(strangers) && WellKeyed(c)
    ensures KeysDecode(strangers + Parts(c))
  {
    forall p | p in strangers + Parts(c)
      ensures PercentDecoded(KeyOf(p)).Ok?
    {
      if p !in strangers {
        InParts(c, p);
      }
    }
  }

  lemma InParts(c: Carried, p: Bytes)
    ensures p in Parts(c) <==>
            Some(p) == c.request || Some(p) == c.response || Some(p) == c.relay || Some(p) == c.alg || Some(p) == c.sig
  {
    var p1 := Listed(c.request) + Listed(c.response);
    var p2 := p1 + Listed(c.relay);
    var p3 := p2 + Listed(c.alg);
    assert Parts(c) == p3 + Listed(c.sig);
  }

  /** Known pairs among unrelated ones pass the uniqueness check and are the
      ones carried. */
  lemma PartsAreCarried(query: Bytes, strangers: seq<Bytes>, c: Carried)
    requires Unrelated(strangers) && WellKeyed(c) && Pairs(query) == strangers + Parts(c)
    ensures ValidateUniqueParams(query).Ok? && CarriedBy(Pairs(query)) == c
  {
    forall name | name in SAML_PARAMS
      ensures Matching(Pairs(query), name) == Listed(Select(c, name))
    {
      MatchingParts(strangers, c, name);
    }
    KeysOfParts(strangers, c);
    UniquenessMeaning(query);
    SelectedAreCarried(Pairs(query), c);
  }

  lemma SelectedAreCarried(pairs: seq<Bytes>, c: Carried)
    requires forall name :: name in SAML_PARAMS ==> Matching(pairs, name) == Listed(Select(c, name))
    ensures CarriedBy(pairs) == c
    ensures c.request.None? ==> Matching(pairs, SAML_REQUEST) == []
    ensures c.response.None? ==> Matching(pairs, SAML_RESPONSE) == []
  {
    SamlParamList();
    NamesDiffer();
  }

  // ---- The signed text alone gives the same message ----------------------

  lemma PairsHaveNoSeparator(query: Bytes)
    ensures forall p :: p in Pairs(query) ==> p != [] && '&' !in p
  {
    SplitHasNoSeparator(query);
  }

  lemma {:induction false} SplitHasNoSeparator(s: Bytes)
    ensures forall p :: p in Split(s, '&') ==> '&' !in p
    decreases |s|
  {
    var i := IndexOf(s, '&');
    if i < |s| {
      SplitHasNoSeparator(s[i + 1..]);
    }
  }

  lemma PairsOfOne(p: Bytes)
    requires '&' !in p
    ensures Pairs(p) == if p == [] then [] else [p]
  {
    IndexOfUnique(p, '&', |p|);
    assert Split(p, '&') == [p];
    if p == [] {
      FilterNone([p], (p: Bytes) => p != []);
    } else {
      FilterAll([p], (p: Bytes) => p != []);
    }
  }

  lemma {:induction false} PairsOfJoin(parts: seq<Bytes>)
    requires forall p :: p in parts ==> p != [] && '&' !in p
    ensures Pairs(Join(parts, '&')) == parts
  {
    if parts == [] {
      PairsOfOne([]);
    } else {
      PairsOfOne(parts[0]);
      if |parts| > 1 {
        assert forall q :: q in parts[1..] ==> q in parts;
        PairsOfJoin(parts[1..]);
        PairsConcat(parts[0], Join(parts[1..], '&'));
        assert parts == [parts[0]] + parts[1..];
      }
    }
  }

  lemma CarriedPairs(pairs: seq<Bytes>)
    ensures var c := CarriedBy(pairs);
            && (c.request.Some? ==> HasKey(c.request.value, SAML_REQUEST) && c.request.value in pairs)
            && (c.response.Some? ==> HasKey(c.response.value, SAML_RESPONSE) && c.response.value in pairs)
            && (c.relay.Some? ==> HasKey(c.relay.value, RELAY_STATE) && c.relay.value in pairs)
            && (c.alg.Some? ==> HasKey(c.alg.value, SIG_ALG) && c.alg.value in pairs)
            && (c.sig.Some? ==> HasKey(c.sig.value, SIGNATURE) && c.sig.value in pairs)
  {
    HeadMatches(pairs, SAML_REQUEST);
    HeadMatches(pairs, SAML_RESPONSE);
    HeadMatches(pairs, RELAY_STATE);
    HeadMatches(pairs, SIG_ALG);
    HeadMatches(pairs, SIGNATURE);
  }

  lemma HeadMatches(pairs: seq<Bytes>, name: Bytes)
    ensures var h := Head(Matching(pairs, name)); h.Some? ==> HasKey(h.value, name) && h.value in pairs
  {
    var m := Matching(pairs, name);
    assert m != [] ==> m[0] in m;
  }

  /** Decoding the signed text on its own, with everything else of the query
      thrown away, gives the same message: when no question mark is in front of
      either request target, nothing that is consumed lies outside what the
      signature covers. */
  lemma SignedTextDeterminesMessage(codec: Codec, r: Incoming, bare: Incoming)
    requires r.PlainFront() && bare.PlainFront()
    requires RedirectDecode(codec, GetRequest(r)).Ok?
    requires RedirectDecode(codec, GetRequest(r)).value.signatureInput.Some?
    requires QueryOf(bare.uri) == RedirectDecode(codec, GetRequest(r)).value.signatureInput
    ensures RedirectDecode(codec, GetRequest(bare))
            == Ok(RedirectDecode(codec, GetRequest(r)).value.(signature := None))
  {
    var query := QueryOf(r.uri).value;
    VerifiedEqualsConsumed(codec, r);
    VerifiedEqualsConsumed(codec, bare);
    var c := CarriedBy(Pairs(query));
    CarriedWellKeyed(query);
    SignatureNotNeeded(codec, c);
    SignedPartsAlone(codec, query, QueryOf(bare.uri).value);
  }

  lemma CarriedWellKeyed(query: Bytes)
    requires ValidateUniqueParams(query).Ok?
    ensures WellKeyed(CarriedBy(Pairs(query)))
  {
    UniquenessMeaning(query);
    CarriedPairs(Pairs(query));
  }

  lemma SignatureNotNeeded(codec: Codec, c: Carried)
    requires DecodeCarried(codec, c).Ok?
    ensures DecodeCarried(codec, c.(sig := None)) == Ok(DecodeCarried(codec, c).value.(signature := None))
  {
  }

  /** A query that consists of known pairs decodes to what they carry. */
  lemma ReferenceOfParts(codec: Codec, c: Carried)
    requires WellKeyed(c) && forall p :: p in Parts(c) ==> p != [] && '&' !in p
    ensures Reference(codec, Some(Join(Parts(c), '&'))) == DecodeCarried(codec, c)
    ensures Pairs(Join(Parts(c), '&')) == Parts(c)
  {
    PairsOfJoin(Parts(c));
    assert [] + Parts(c) == Parts(c);
    PartsAreCarried(Join(Parts(c), '&'), [], c);
  }

  lemma SignedPartsAlone(codec: Codec, query: Bytes, bare: Bytes)
    requires WellKeyed(CarriedBy(Pairs(query)))
    requires DecodeCarried(codec, CarriedBy(Pairs(query))).Ok?
    requires DecodeCarried(codec, CarriedBy(Pairs(query))).value.signatureInput == Some(bare)
    ensures Reference(codec, Some(bare)) == DecodeCarried(codec, CarriedBy(Pairs(query)).(sig := None))
  {
    var c := CarriedBy(Pairs(query));
    SignedInputIsParts(codec, c);
    PairsHaveNoSeparator(query);
    InPartsOfQuery(Pairs(query), c.(sig := None));
    ReferenceOfParts(codec, c.(sig := None));
  }

  lemma SignedInputIsParts(codec: Codec, c: Carried)
    requires WellKeyed(c) && DecodeCarried(codec, c).Ok? && DecodeCarried(codec, c).value.signatureInput.Some?
    ensures DecodeCarried(codec, c).value.signatureInput == Some(Join(Parts(c.(sig := None)), '&'))
  {
    SignedPartIsParts(c);
  }

  lemma InPartsOfQuery(pairs: seq<Bytes>, c: Carried)
    requires c == CarriedBy(pairs).(sig := None)
    ensures forall p :: p in Parts(c) ==> p in pairs
  {
    CarriedPairs(pairs);
    forall p | p in Parts(c)
      ensures p in pairs
    {
      InParts(c, p);
    }
  }

  lemma SignedPartIsParts(c: Carried)
    requires c.alg.Some? && (c.request.Some? || c.response.Some?) && (c.request.None? || c.response.None?)
    ensures SignedPart(c, if c.request.Some? then c.request.value else c.response.value)
            == Some(Join(Parts(c.(sig := None)), '&'))
  {
    var message := if c.request.Some? then c.request.value else c.response.value;
    var relay := if c.relay.Some? then [c.relay.value] else [];
    assert Listed(c.request) + Listed(c.response) == [message];
    assert Parts(c.(sig := None)) == [message] + relay + [c.alg.value];
  }

  // ---- Round trip --------------------------------------------------------

  /** The pairs a destination address brings along. */
  function DestinationPairs(destination: Bytes): seq<Bytes> {
    match QueryOf(destination) case None => [] case Some(q) => Pairs(q)
  }

  lemma QueryOfUrl(destination: Bytes, query: Bytes)
    ensures QueryOf(Url(destination, query)).Some?
    ensures Pairs(QueryOf(Url(destination, query)).value) == DestinationPairs(destination) + Pairs(query)
  {
    var i := IndexOf(destination, '?');
    if '?' in destination {
      IndexOfConcat(destination, ['&'] + query, '?');
      assert Url(destination, query) == destination + (['&'] + query);
      assert QueryOf(Url(destination, query)).value == destination[i + 1..] + ['&'] + query;
      PairsConcat(destination[i + 1..], query);
    } else {
      IndexOfConcat(destination, ['?'] + query, '?');
      assert Url(destination, query) == destination + (['?'] + query);
      assert QueryOf(Url(destination, query)).value == query;
      assert [] + Pairs(query) == Pairs(query);
    }
  }

  /** A pair written by the encoder reads back as its name and value. */
  lemma PairReadsBack(name: Bytes, value: Bytes)
    requires Plain(name)
    ensures var p := Pair(name, value);
            p != [] && '&' !in p && HasKey(p, name) && ValueOf(p) == PercentEncoded(value)
  {
    var p := Pair(name, value);
    PercentEncodedAlphabet(value);
    forall k | 0 <= k < |name|
      ensures p[k] != '='
    {
      assert p[k] == name[k] && name[k] in name;
    }
    IndexOfUnique(p, '=', |name|);
    assert KeyOf(p) == name;
    PlainDecodesToItself(name);
  }

  lemma PlainDecodesToItself(name: Bytes)
    requires Plain(name)
    ensures PercentDecoded(name) == Ok(name)
  {
    UnreservedEncodesToItself(name);
    assert Ascii(name) by {
      forall c: Byte | c in name
        ensures c < 128 as char
      {
        assert Unreserved(c);
      }
    }
    AsciiIsUtf8(name);
    PercentRoundTrip(name);
  }

  predicate Plain(name: Bytes) {
    name != [] && forall c :: c in name ==> Unreserved(c)
  }

  lemma SamlNamesArePlain()
    ensures Plain(SAML_REQUEST) && Plain(SAML_RESPONSE) && Plain(RELAY_STATE) && Plain(SIG_ALG) && Plain(SIGNATURE)
  {
  }

  function OwnPairs(p: EncodeParams, deflated: Bytes, signature: Bytes): Carried {
    var message := Pair(SamlName(p.isRequest), Base64Encode(deflated));
    Carried(if p.isRequest then Some(message) else None, if p.isRequest then None else Some(message),
            if p.relayState.Some? then Some(Pair(RELAY_STATE, p.relayState.value)) else None,
            if p.signer.Some? then Some(Pair(SIG_ALG, p.signer.value.alg)) else None,
            if p.signer.Some? then Some(Pair(SIGNATURE, Base64Encode(signature))) else None)
  }

  lemma OwnPairsAreParts(p: EncodeParams, deflated: Bytes, signature: Bytes)
    ensures WellKeyed(OwnPairs(p, deflated, signature))
    ensures QueryPairs(p, deflated, signature) == Parts(OwnPairs(p, deflated, signature))
    ensures Pairs(Join(QueryPairs(p, deflated, signature), '&')) == QueryPairs(p, deflated, signature)
  {
    SamlNamesArePlain();
    PairReadsBack(SamlName(p.isRequest), Base64Encode(deflated));
    if p.relayState.Some? {
      PairReadsBack(RELAY_STATE, p.relayState.value);
    }
    if p.signer.Some? {
      PairReadsBack(SIG_ALG, p.signer.value.alg);
      PairReadsBack(SIGNATURE, Base64Encode(signature));
    }
    var own := OwnPairs(p, deflated, signature);
    OwnPartsInOrder(p, deflated, signature);
    forall q | q in Parts(own)
      ensures q != [] && '&' !in q
    {
      InParts(own, q);
    }
    PairsOfJoin(Parts(own));
  }

  lemma OwnPartsInOrder(p: EncodeParams, deflated: Bytes, signature: Bytes)
    ensures QueryPairs(p, deflated, signature) == Parts(OwnPairs(p, deflated, signature))
  {
    var own := OwnPairs(p, deflated, signature);
    assert Listed(own.request) + Listed(own.response) == [Pair(SamlName(p.isRequest), Base64Encode(deflated))];
  }

  /** What the receiver must see. */
  function Sent(p: EncodeParams, deflated: Bytes, signature: Bytes): RedirectDecoded {
    RedirectDecoded(p.xml, p.isRequest, p.relayState,
                    if p.signer.Some? then Some(p.signer.value.alg) else None,
                    if p.signer.Some? then Some(signature) else None,
                    if p.signer.Some? then Some(SignedText(p, deflated)) else None)
  }

  lemma ValueReadsBack(name: Bytes, value: Bytes)
    requires Plain(name) && ValidUtf8(value)
    ensures PercentDecoded(ValueOf(Pair(name, value))) == Ok(value)
  {
    PairReadsBack(name, value);
    PercentRoundTrip(value);
  }

  lemma Base64ValueReadsBack(name: Bytes, bytes: Bytes)
    requires Plain(name)
    ensures DecodeBase64Value(ValueOf(Pair(name, Base64Encode(bytes)))) == Ok(bytes)
  {
    Base64TextIsUtf8(bytes);
    ValueReadsBack(name, Base64Encode(bytes));
    Base64RoundTrip(bytes);
  }

  /** What was packed into the pairs comes out of them, if it is small enough. */
  lemma OwnPairsDecode(codec: Codec, p: EncodeParams, z: Bytes, signature: Bytes)
    requires Lawful(codec) && p.Valid() && codec.compress(p.xml) == Ok(z)
    ensures DecodeCarried(codec, OwnPairs(p, z, signature))
            == if |p.xml| <= MAX_DECOMPRESSED_SIZE then Ok(Sent(p, z, signature)) else Err(MessageTooLarge)
  {
    var c := OwnPairs(p, z, signature);
    SamlNamesArePlain();
    Base64ValueReadsBack(SamlName(p.isRequest), z);
    var message := if p.isRequest then c.request.value else c.response.value;
    assert DecodeMessage(codec, ValueOf(message)) == Bounded(Stream(p.xml, false));
    if p.relayState.Some? {
      ValueReadsBack(RELAY_STATE, p.relayState.value);
    }
    if p.signer.Some? {
      ValueReadsBack(SIG_ALG, p.signer.value.alg);
      Base64ValueReadsBack(SIGNATURE, signature);
      OwnSignedPart(p, z, signature);
    }
  }

  lemma OwnSignedPart(p: EncodeParams, z: Bytes, signature: Bytes)
    requires p.signer.Some?
    ensures SignedPart(OwnPairs(p, z, signature), Pair(SamlName(p.isRequest), Base64Encode(z)))
            == Some(SignedText(p, z))
  {
  }

  /** A SAML parameter brought along by the destination either breaks the
      uniqueness check or fills an option the sender left empty. */
  lemma RelatedPairShows(query: Bytes, before: seq<Bytes>, own: Carried)
    requires ValidateUniqueParams(query).Ok? && Pairs(query) == before + Parts(own)
    requires WellKeyed(own) && (own.request.Some? || own.response.Some?) && !Unrelated(before)
    ensures var c := CarriedBy(Pairs(query));
            || (c.relay.Some? && own.relay.None?)
            || (c.alg.Some? && own.alg.None?)
            || (c.sig.Some? && own.sig.None?)
  {
    KeysOfUnique(query);
    var name := RelatedName(before, Parts(own));
    SlotFilled(query, before, own, name);
    MessagesShow(query, before, own);
    SlotFilledByOther(CarriedBy(Pairs(query)), own, name);
  }

  lemma KeysOfUnique(query: Bytes)
    requires ValidateUniqueParams(query).Ok?
    ensures KeysDecode(Pairs(query))
  {
    UniquenessMeaning(query);
  }

  lemma UniqueSlot(query: Bytes, name: Bytes)
    requires ValidateUniqueParams(query).Ok? && name in SAML_PARAMS
    ensures |Matching(Pairs(query), name)| <= 1
  {
    UniquenessMeaning(query);
  }

  lemma CarriedSelect(pairs: seq<Bytes>, name: Bytes)
    requires name in SAML_PARAMS
    ensures Select(CarriedBy(pairs), name) == Head(Matching(pairs, name))
  {
    NamesDiffer();
    SamlParamCases(name);
  }

  lemma SlotFilled(query: Bytes, before: seq<Bytes>, own: Carried, name: Bytes)
    requires ValidateUniqueParams(query).Ok? && Pairs(query) == before + Parts(own) && WellKeyed(own)
    requires name in SAML_PARAMS && Matching(before, name) != []
    ensures Select(CarriedBy(Pairs(query)), name).Some? && Select(own, name).None?
  {
    UniqueSlot(query, name);
    OwnMatching(query, before, own, name);
    CarriedSelect(Pairs(query), name);
  }

  lemma MessagesShow(query: Bytes, before: seq<Bytes>, own: Carried)
    requires ValidateUniqueParams(query).Ok? && Pairs(query) == before + Parts(own) && WellKeyed(own)
    ensures var c := CarriedBy(Pairs(query));
            && (c.request.None? || c.response.None?)
            && (own.request.Some? ==> c.request.Some?) && (own.response.Some? ==> c.response.Some?)
  {
    UniquenessMeaning(query);
    SamlParamList();
    OwnMatching(query, before, own, SAML_REQUEST);
    OwnMatching(query, before, own, SAML_RESPONSE);
    SelectMessages(own);
  }

  lemma SelectMessages(c: Carried)
    ensures Select(c, SAML_REQUEST) == c.request && Select(c, SAML_RESPONSE) == c.response
  {
    NamesDiffer();
  }

  lemma SlotFilledByOther(c: Carried, own: Carried, name: Bytes)
    requires name in SAML_PARAMS && Select(c, name).Some? && Select(own, name).None?
    requires c.request.None? || c.response.None?
    requires own.request.Some? ==> c.request.Some?
    requires own.response.Some? ==> c.response.Some?
    requires own.request.Some? || own.response.Some?
    ensures (c.relay.Some? && own.relay.None?) || (c.alg.Some? && own.alg.None?) || (c.sig.Some? && own.sig.None?)
  {
    NamesDiffer();
    SamlParamCases(name);
  }

  lemma RelatedName(before: seq<Bytes>, rest: seq<Bytes>) returns (name: Bytes)
    requires KeysDecode(before + rest) && !Unrelated(before)
    ensures name in SAML_PARAMS && Matching(before, name) != []
  {
    assert forall p :: p in before ==> p in before + rest;
    var p :| p in before && PercentDecoded(KeyOf(p)).value in SAML_PARAMS;
    name := PercentDecoded(KeyOf(p)).value;
    assert p in Matching(before, name);
  }

  lemma SamlParamCases(name: Bytes)
    requires name in SAML_PARAMS
    ensures name == SAML_REQUEST || name == SAML_RESPONSE || name == RELAY_STATE || name == SIG_ALG || name == SIGNATURE
  {
  }

  lemma OwnMatching(query: Bytes, before: seq<Bytes>, own: Carried, name: Bytes)
    requires Pairs(query) == before + Parts(own) && WellKeyed(own) && name in SAML_PARAMS
    ensures |Matching(Pairs(query), name)| == |Matching(before, name)| + |Listed(Select(own, name))|
  {
    FilterConcat(before, Parts(own), Named(name));
    MatchingOwn(own, name);
  }

  lemma MatchingOwn(c: Carried, name: Bytes)
    requires WellKeyed(c) && name in SAML_PARAMS
    ensures Matching(Parts(c), name) == Listed(Select(c, name))
  {
    MatchingParts([], c, name);
    assert [] + Parts(c) == Parts(c);
  }

  // ---- What reaches the receiver -----------------------------------------

  predicate Break(c: Byte) {
    c == 9 as char || c == 10 as char || c == 13 as char
  }

  /** A user agent drops tabs and line breaks from an address. */
  function Cleaned(s: Bytes): Bytes {
    Filter<Byte>(s, NoBreak())
  }

  function NoBreak(): Byte -> bool {
    (c: Byte) => !Break(c)
  }

  /** It does not send the fragment. */
  function Delivered(url: Bytes): Bytes {
    var u := Cleaned(url);
    u[..IndexOf(u, '#')]
  }

  lemma {:induction false} CleanedHas(s: Bytes, c: Byte)
    requires !Break(c)
    ensures c in Cleaned(s) <==> c in s
  {
    if s != [] {
      CleanedHas(s[1..], c);
      assert s == [s[0]] + s[1..];
    }
  }

  lemma {:induction false} CleanStays(s: Bytes)
    requires forall c :: c in s ==> !Break(c)
    ensures Cleaned(s) == s
  {
    FilterAll<Byte>(s, NoBreak());
  }

  predicate Sendable(query: Bytes) {
    forall c :: c in query ==> !Break(c) && c != '#'
  }

  lemma CleanedConcat(a: Bytes, b: Bytes)
    ensures Cleaned(a + b) == Cleaned(a) + Cleaned(b)
  {
    FilterConcat<Byte>(a, b, NoBreak());
  }

  function Tail(separator: Byte, query: Bytes): Bytes {
    [separator] + query
  }

  lemma UrlIs(destination: Bytes, query: Bytes)
    ensures Url(destination, query) == destination + Tail(if '?' in destination then '&' else '?', query)
  {
  }

  lemma CleanedUrl(destination: Bytes, query: Bytes)
    requires Sendable(query)
    ensures Cleaned(Url(destination, query)) == Url(Cleaned(destination), query)
  {
    var separator: Byte := if '?' in destination then '&' else '?';
    CleanedHas(destination, '?');
    UrlIs(destination, query);
    UrlIs(Cleaned(destination), query);
    CleanedConcat(destination, Tail(separator, query));
    CleanStays(Tail(separator, query));
  }

  lemma DeliveredUrl(destination: Bytes, query: Bytes)
    requires Sendable(query)
    ensures Delivered(Url(destination, query))
            == if '#' in destination then Delivered(destination) else Url(Cleaned(destination), query)
  {
    var clean := Cleaned(destination);
    var tail := Tail(if '?' in clean then '&' else '?', query);
    CleanedUrl(destination, query);
    CleanedHas(destination, '#');
    UrlIs(clean, query);
    IndexOfConcat(clean, tail, '#');
    if '#' !in destination {
      IndexOfUnique(tail, '#', |tail|);
      assert (clean + tail)[..|clean + tail|] == clean + tail;
    } else {
      var i := IndexOf(clean, '#');
      assert (clean + tail)[..i] == clean[..i];
    }
  }

  lemma PairIsSendable(name: Bytes, value: Bytes)
    requires Plain(name)
    ensures Sendable(Pair(name, value))
  {
    PercentEncodedAlphabet(value);
    forall c | c in Pair(name, value)
      ensures !Break(c) && c != '#'
    {
      assert c in name || c == '=' || c in PercentEncoded(value);
      assert c == '=' || c == '%' || Unreserved(c);
    }
  }

  lemma {:induction false} JoinIsSendable(parts: seq<Bytes>)
    requires forall p :: p in parts ==> Sendable(p)
    ensures Sendable(Join(parts, '&'))
  {
    if |parts| == 1 {
      assert parts[0] in parts;
    } else if |parts| > 1 {
      assert parts[0] in parts;
      JoinIsSendable(parts[1..]);
    }
  }

  lemma QueryIsSendable(p: EncodeParams, z: Bytes, signature: Bytes)
    ensures Sendable(Join(QueryPairs(p, z, signature), '&'))
  {
    SamlNamesArePlain();
    PairIsSendable(SamlName(p.isRequest), Base64Encode(z));
    if p.relayState.Some? {
      PairIsSendable(RELAY_STATE, p.relayState.value);
    }
    if p.signer.Some? {
      PairIsSendable(SIG_ALG, p.signer.value.alg);
      PairIsSendable(SIGNATURE, Base64Encode(signature));
    }
    JoinIsSendable(QueryPairs(p, z, signature));
  }

  /** The address `redirect_encode` writes (see RedirectEncode). */
  function SentUrl(p: EncodeParams, z: Bytes, signature: Bytes): Bytes {
    Url(p.destination, Join(QueryPairs(p, z, signature), '&'))
  }

  /** The message arrives as it was sent, together with the text that was signed. */
  ghost predicate Arrives(codec: Codec, p: EncodeParams, z: Bytes, signature: Bytes) {
    Reference(codec, QueryOf(Delivered(SentUrl(p, z, signature)))) == Ok(Sent(p, z, signature))
  }

  /** The pairs of a destination's query that reach the receiver. */
  function CarriedAlong(destination: Bytes): seq<Bytes> {
    DestinationPairs(Cleaned(destination))
  }

  lemma OptionsShow(codec: Codec, c: Carried)
    requires DecodeCarried(codec, c).Ok?
    ensures var d := DecodeCarried(codec, c).value;
            && (d.relayState.Some? <==> c.relay.Some?)
            && (d.sigAlg.Some? <==> c.alg.Some?)
            && (d.signature.Some? <==> c.sig.Some?)
  {
  }

  lemma ArrivesExactly(codec: Codec, p: EncodeParams, z: Bytes, signature: Bytes)
    requires Lawful(codec) && p.Valid() && codec.compress(p.xml) == Ok(z)
    requires '#' !in p.destination
    ensures Arrives(codec, p, z, signature)
            <==> |p.xml| <= MAX_DECOMPRESSED_SIZE && Unrelated(CarriedAlong(p.destination))
  {
    var own := OwnPairs(p, z, signature);
    var query := Join(QueryPairs(p, z, signature), '&');
    var url := Url(Cleaned(p.destination), query);
    var before := CarriedAlong(p.destination);
    QueryIsSendable(p, z, signature);
    DeliveredUrl(p.destination, query);
    QueryOfUrl(Cleaned(p.destination), query);
    OwnPairsAreParts(p, z, signature);
    var received := QueryOf(url).value;
    assert Pairs(received) == before + Parts(own);
    if Unrelated(before) {
      PartsAreCarried(received, before, own);
      OwnPairsDecode(codec, p, z, signature);
    } else if Reference(codec, Some(received)).Ok? {
      RelatedPairShows(received, before, own);
      OptionsShow(codec, CarriedBy(Pairs(received)));
    }
  }

  /** Round trip, exactly, for a destination without a fragment: whatever front
      without a question mark the receiver sees, it gets back what was sent (and
      rebuilds the very text that was signed) if and only if the message fits in
      1 MiB and the query the destination brings along, without tabs and line
      breaks, has only keys that decode and that name no SAML parameter.  Of what is sent to a destination with a
      fragment nothing arrives: the outcome is that of the destination alone. */
  lemma RedirectRoundTrip(codec: Codec, p: EncodeParams, z: Bytes, signature: Bytes, r: Incoming)
    requires Lawful(codec) && p.Valid() && codec.compress(p.xml) == Ok(z)
    requires r.PlainFront() && QueryOf(r.uri) == QueryOf(Delivered(SentUrl(p, z, signature)))
    ensures '#' !in p.destination ==>
              (RedirectDecode(codec, GetRequest(r)) == Ok(Sent(p, z, signature))
               <==> |p.xml| <= MAX_DECOMPRESSED_SIZE && Unrelated(CarriedAlong(p.destination)))
    ensures '#' in p.destination ==>
              RedirectDecode(codec, GetRequest(r)) == Reference(codec, QueryOf(Delivered(p.destination)))
  {
    VerifiedEqualsConsumed(codec, r);
    QueryIsSendable(p, z, signature);
    DeliveredUrl(p.destination, Join(QueryPairs(p, z, signature), '&'));
    if '#' !in p.destination {
      ArrivesExactly(codec, p, z, signature);
    }
  }

  /** A destination serves: every message that fits arrives, whatever its
      direction, RelayState and signer. */
  ghost predicate Serves(codec: Codec, destination: Bytes) {
    forall p: EncodeParams, z, signature ::
      p.destination == destination && p.Valid() && codec.compress(p.xml) == Ok(z) && |p.xml| <= MAX_DECOMPRESSED_SIZE
      ==> Arrives(codec, p, z, signature)
  }

  /** A destination serves exactly when it has no fragment and its query, without
      tabs and line breaks, has only keys that decode and that name no SAML
      parameter. */
  lemma DestinationServesExactly(codec: Codec, destination: Bytes, xml: Bytes, z: Bytes)
    requires Lawful(codec) && codec.compress(xml) == Ok(z) && |xml| <= MAX_DECOMPRESSED_SIZE
    ensures Serves(codec, destination) <==> '#' !in destination && Unrelated(CarriedAlong(destination))
  {
    if '#' !in destination && Unrelated(CarriedAlong(destination)) {
      forall p: EncodeParams, z, signature
        | p.destination == destination && p.Valid() && codec.compress(p.xml) == Ok(z) && |p.xml| <= MAX_DECOMPRESSED_SIZE
        ensures Arrives(codec, p, z, signature)
      {
        ArrivesExactly(codec, p, z, signature);
      }
    }
    if Serves(codec, destination) {
      ServingNeeds(codec, destination, xml, z);
    }
  }

  lemma ServingNeeds(codec: Codec, destination: Bytes, xml: Bytes, z: Bytes)
    requires Lawful(codec) && codec.compress(xml) == Ok(z) && |xml| <= MAX_DECOMPRESSED_SIZE
    requires Serves(codec, destination)
    ensures '#' !in destination && Unrelated(CarriedAlong(destination))
  {
    var request := EncodeParams(xml, true, destination, None, None);
    var response := EncodeParams(xml, false, destination, None, None);
    assert Arrives(codec, request, z, []) && Arrives(codec, response, z, []);
    if '#' in destination {
      FragmentHidesMessage(request, z, []);
      FragmentHidesMessage(response, z, []);
      assert false;
    } else {
      ArrivesExactly(codec, request, z, []);
    }
  }

  lemma FragmentHidesMessage(p: EncodeParams, z: Bytes, signature: Bytes)
    requires '#' in p.destination
    ensures Delivered(SentUrl(p, z, signature)) == Delivered(p.destination)
  {
    QueryIsSendable(p, z, signature);
    DeliveredUrl(p.destination, Join(QueryPairs(p, z, signature), '&'));
  }

  /** Nothing arrives at a destination with a fragment and no query, although it
      brings no pairs along. */
  lemma FragmentLosesMessage(codec: Codec, p: EncodeParams, z: Bytes, signature: Bytes, r: Incoming, page: Bytes)
    requires '?' !in page && '#' !in page && p.destination == WithFragment(page)
    requires r.PlainFront() && QueryOf(r.uri) == QueryOf(Delivered(SentUrl(p, z, signature)))
    ensures Unrelated(CarriedAlong(p.destination))
    ensures RedirectDecode(codec, GetRequest(r)) == Err(MissingSamlParam(SAML_REQUEST))
  {
    FragmentIsCut(page);
    FragmentHidesMessage(p, z, signature);
    NoQuery(page);
    NoQuery(p.destination);
    VerifiedEqualsConsumed(codec, r);
  }

  lemma NoQuery(page: Bytes)
    requires '?' !in page
    ensures QueryOf(Cleaned(page)) == None && CarriedAlong(page) == []
  {
    CleanedHas(page, '?');
    IndexOfUnique(Cleaned(page), '?', |Cleaned(page)|);
  }

  function WithFragment(url: Bytes): Bytes {
    url + ['#', 'a']
  }

  lemma DeliveredPlain(url: Bytes)
    requires '#' !in url
    ensures Delivered(url) == Cleaned(url)
  {
    CleanedHas(url, '#');
    IndexOfUnique(Cleaned(url), '#', |Cleaned(url)|);
  }

  lemma FragmentIsCut(url: Bytes)
    requires '#' !in url
    ensures '#' in WithFragment(url) && Delivered(WithFragment(url)) == Cleaned(url)
  {
    var clean := Cleaned(url);
    CleanedHas(url, '#');
    CleanedConcat(url, ['#', 'a']);
    CleanStays(['#', 'a']);
    IndexOfConcat(clean, ['#', 'a'], '#');
    assert WithFragment(url)[|url|] == '#';
    assert (clean + ['#', 'a'])[..|clean|] == clean;
  }

  lemma SentUrlPlain(p: EncodeParams, z: Bytes, signature: Bytes)
    requires '#' !in p.destination
    ensures '#' !in SentUrl(p, z, signature)
  {
    var query := Join(QueryPairs(p, z, signature), '&');
    QueryIsSendable(p, z, signature);
    UrlHasNoFragment(p.destination, query);
  }

  /** The same message sent to another destination. */
  function Resent(p: EncodeParams, destination: Bytes): EncodeParams {
    p.(destination := destination)
  }

  /** Unless the destination itself carries the very message: then it arrives in
      spite of the fragment. */
  lemma FragmentCanCarry(codec: Codec, p: EncodeParams, z: Bytes, signature: Bytes)
    requires Arrives(codec, p, z, signature) && '#' !in p.destination
    ensures '#' in WithFragment(SentUrl(p, z, signature))
    ensures Arrives(codec, Resent(p, WithFragment(SentUrl(p, z, signature))), z, signature)
  {
    var carrying := Resent(p, WithFragment(SentUrl(p, z, signature)));
    SentUrlPlain(p, z, signature);
    DeliveredPlain(SentUrl(p, z, signature));
    FragmentIsCut(SentUrl(p, z, signature));
    FragmentHidesMessage(carrying, z, signature);
    SentAnywhere(p, carrying.destination, z, signature);
  }

  lemma SentAnywhere(p: EncodeParams, destination: Bytes, z: Bytes, signature: Bytes)
    ensures Sent(Resent(p, destination), z, signature) == Sent(p, z, signature)
  {
  }

  lemma UrlHasNoFragment(destination: Bytes, query: Bytes)
    requires '#' !in destination && '#' !in query
    ensures '#' !in Url(destination, query)
  {
  }

  const PLAIN_PAGE: Bytes := "https://idp"

  lemma PlainPage()
    ensures '?' !in PLAIN_PAGE && '#' !in PLAIN_PAGE
  {
  }

  /** For one, `https://idp#a`. */
  lemma FragmentExample(codec: Codec, p: EncodeParams, z: Bytes, signature: Bytes, r: Incoming)
    requires p.destination == WithFragment(PLAIN_PAGE)
    requires r.PlainFront() && QueryOf(r.uri) == QueryOf(Delivered(SentUrl(p, z, signature)))
    ensures Unrelated(CarriedAlong(p.destination))
    ensures RedirectDecode(codec, GetRequest(r)) == Err(MissingSamlParam(SAML_REQUEST))
  {
    PlainPage();
    FragmentLosesMessage(codec, p, z, signature, r, PLAIN_PAGE);
  }

  /** A message signed by a signer is accepted by every verifier that accepts
      what the signer produces. */
  lemma SignedMessageVerifies(codec: Codec, p: EncodeParams, z: Bytes, signature: Bytes, r: Incoming,
                              verify: (Bytes, Bytes, Bytes) -> Result<bool, BindingError>)
    requires Lawful(codec) && p.Valid() && codec.compress(p.xml) == Ok(z)
    requires |p.xml| <= MAX_DECOMPRESSED_SIZE && '#' !in p.destination && Unrelated(CarriedAlong(p.destination))
    requires r.PlainFront() && QueryOf(r.uri) == QueryOf(Delivered(SentUrl(p, z, signature)))
    requires p.signer.Some? && p.signer.value.sign(SignedText(p, z), p.signer.value.alg) == Ok(signature)
    requires forall m, s :: p.signer.value.sign(m, p.signer.value.alg) == Ok(s) ==> verify(m, s, p.signer.value.alg) == Ok(true)
    ensures var d := RedirectDecode(codec, GetRequest(r));
            d.Ok? && VerifySignature(d.value, verify) == Ok(true)
  {
    RedirectRoundTrip(codec, p, z, signature, r);
  }

  // ---- A question mark in front of the request target ---------------------

  lemma {:induction false} PieceLength(front: Bytes, tail: Bytes, piece: Bytes)
    requires '&' !in tail && piece in Split(front + tail, '&')
    ensures |piece| <= |front| || |piece| >= |tail|
    decreases |front|
  {
    var s := front + tail;
    IndexOfConcat(front, tail, '&');
    var i := IndexOf(s, '&');
    if '&' in front {
      if piece != s[..i] {
        assert s[i + 1..] == front[i + 1..] + tail;
        PieceLength(front[i + 1..], tail, piece);
      }
    } else {
      IndexOfUnique(tail, '&', |tail|);
      assert Split(s, '&') == [s];
    }
  }

  lemma {:induction false} FirstPairIsPair(pairs: seq<Bytes>, name: Bytes)
    ensures var r := FirstPair(pairs, name);
            r.Ok? && r.value.Some? ==> r.value.value in pairs && HasKey(r.value.value, name)
  {
    if pairs != [] && !HasKey(pairs[0], name) {
      FirstPairIsPair(pairs[1..], name);
    }
  }

  lemma InputComesFromQuery(codec: Codec, message: Bytes, isRequest: bool, relay: Option<Bytes>, alg: Option<Bytes>,
                            sig: Option<Bytes>, query: Option<Bytes>)
    ensures var d := DecodeValues(codec, message, isRequest, relay, alg, sig, query);
            d.Ok? ==> d.value.isRequest == isRequest
                      && (d.value.signatureInput.Some? ==>
                            query.Some? && SignatureInput(query.value, SamlName(isRequest)) == Ok(d.value.signatureInput.value))
  {
  }

  lemma InputComesFromUrl(codec: Codec, request: HttpRequest)
    requires RedirectDecode(codec, request).Ok? && RedirectDecode(codec, request).value.signatureInput.Some?
    ensures var d := RedirectDecode(codec, request).value;
            && QueryOf(request.url).Some?
            && SignatureInput(QueryOf(request.url).value, SamlName(d.isRequest)) == Ok(d.signatureInput.value)
  {
    assert RedirectDecode(codec, request) == DecodeParams(codec, request);
    var (message, isRequest) := SamlValue(request).value;
    InputComesFromQuery(codec, message, isRequest, request.QueryParam(RELAY_STATE), request.QueryParam(SIG_ALG),
                        request.QueryParam(SIGNATURE), QueryOf(request.url));
  }

  /** A signature input that joins two given clean pairs has the second among
      the pairs of the query it was built from. */
  lemma InputNamesItsPairs(query: Bytes, name: Bytes, message: Bytes, alg: Bytes)
    requires SignatureInput(query, name) == Ok(Join([message, alg], '&'))
    requires message != [] && alg != [] && '&' !in message && '&' !in alg
    ensures alg in Pairs(query) && HasKey(alg, SIG_ALG)
  {
    var pairs := Pairs(query);
    FirstPairIsPair(pairs, name);
    FirstPairIsPair(pairs, RELAY_STATE);
    FirstPairIsPair(pairs, SIG_ALG);
    PairsHaveNoSeparator(query);
    var relay := FirstPair(pairs, RELAY_STATE).value;
    var found := FirstPair(pairs, SIG_ALG).value.value;
    var parts := [FirstPair(pairs, name).value.value] + (if relay.Some? then [relay.value] else []) + [found];
    forall p | p in parts
      ensures p != [] && '&' !in p
    {
      assert p in pairs;
    }
    PairsOfJoin(parts);
    PairsOfJoin([message, alg]);
    assert parts[|parts| - 1] == found && [message, alg][1] == alg;
  }

  /** A SigAlg pair longer than anything in front of it. */
  function LongAlg(n: nat): Bytes {
    Pair(SIG_ALG, seq(n, _ => 'A'))
  }

  lemma LongAlgPair(n: nat)
    ensures var p := LongAlg(n);
            p != [] && '&' !in p && HasKey(p, SIG_ALG) && |p| > n
  {
    SamlNamesArePlain();
    var a: Bytes := seq(n, _ => 'A');
    PairReadsBack(SIG_ALG, a);
    UnreservedEncodesToItself(a);
  }

  /** Two pairs, one after the other. */
  function Then(a: Bytes, b: Bytes): Bytes {
    a + ['&'] + b
  }

  function Target(query: Bytes): Bytes {
    ['/', '?'] + query
  }

  /** A request target that a front with a question mark splits elsewhere. */
  function SplitTarget(n: nat, z: Bytes): Bytes {
    Target(Then(LongAlg(n), Pair(SAML_REQUEST, Base64Encode(z))))
  }

  lemma FrontBreaksAgreement(codec: Codec, r: Incoming, z: Bytes)
    requires Bounded(codec.open(z)).Ok? && !r.PlainFront() && r.uri == SplitTarget(|r.Front()|, z)
    ensures RedirectDecode(codec, GetRequest(r)) != Reference(codec, QueryOf(r.uri))
  {
    var n := |r.Front()|;
    var alg, message := LongAlg(n), Pair(SAML_REQUEST, Base64Encode(z));
    TargetReference(codec, n, z);
    if RedirectDecode(codec, GetRequest(r)) == Reference(codec, QueryOf(r.uri)) {
      InputComesFromUrl(codec, GetRequest(r));
      SamlNamesArePlain();
      LongAlgPair(n);
      PairReadsBack(SAML_REQUEST, Base64Encode(z));
      var query := QueryOf(r.Url()).value;
      InputNamesItsPairs(query, SAML_REQUEST, message, alg);
      AlgNotInUrl(r, n, z);
      assert false;
    }
  }

  lemma PairsOfTwo(a: Bytes, b: Bytes)
    requires a != [] && b != [] && '&' !in a && '&' !in b
    ensures Pairs(Then(a, b)) == [a, b] && Then(a, b) == Join([a, b], '&')
  {
    PairsConcat(a, b);
    PairsOfOne(a);
    PairsOfOne(b);
    assert [a, b][1..] == [b];
  }

  /** The query of a front with a question mark and whatever follows it. */
  lemma QueryBehindFront(front: Bytes, uri: Bytes)
    requires '?' in front
    ensures QueryOf(front + uri) == Some(front[IndexOf(front, '?') + 1..] + uri)
  {
    var j := IndexOf(front, '?');
    IndexOfConcat(front, uri, '?');
    DropConcat(front, uri, j + 1);
  }

  lemma DropConcat(a: Bytes, b: Bytes, k: nat)
    requires k <= |a|
    ensures (a + b)[k..] == a[k..] + b
  {
  }

  lemma QueryOfTarget(query: Bytes)
    ensures QueryOf(Target(query)) == Some(query)
  {
    IndexOfUnique(Target(query), '?', 1);
    assert Target(query)[2..] == query;
  }

  lemma AlgNotInUrl(r: Incoming, n: nat, z: Bytes)
    requires !r.PlainFront() && r.uri == SplitTarget(n, z) && n == |r.Front()|
    ensures QueryOf(r.Url()).Some? && LongAlg(n) !in Pairs(QueryOf(r.Url()).value)
  {
    var front := r.Front();
    var message := Pair(SAML_REQUEST, Base64Encode(z));
    assert '?' in front;
    QueryBehindFront(front, r.uri);
    LongAlgPair(n);
    SamlNamesArePlain();
    PairReadsBack(SAML_REQUEST, Base64Encode(z));
    NamesDiffer();
    var rest := front[IndexOf(front, '?') + 1..];
    Regroup(rest, LongAlg(n), message);
    LongPairNotInside(rest, LongAlg(n), message);
  }

  lemma Regroup(rest: Bytes, a: Bytes, b: Bytes)
    ensures rest + Target(Then(a, b)) == Then(rest + Target(a), b)
  {
  }

  lemma LongPairNotInside(rest: Bytes, alg: Bytes, message: Bytes)
    requires |alg| > |rest| && '&' !in alg && '&' !in message && message != [] && alg != message
    ensures alg !in Pairs(Then(rest + Target(alg), message))
  {
    PairsConcat(rest + Target(alg), message);
    PairsOfOne(message);
    if alg in Pairs(rest + Target(alg)) {
      PieceLength(rest, Target(alg), alg);
    }
  }

  /** The order of two SAML pairs does not matter. */
  lemma TwoPairsCommute(codec: Codec, a: Bytes, b: Bytes)
    requires a != [] && b != [] && '&' !in a && '&' !in b && IsSamlPair(a) && IsSamlPair(b)
    ensures Reference(codec, Some(Then(a, b))) == Reference(codec, Some(Then(b, a)))
  {
    PairsOfTwo(a, b);
    PairsOfTwo(b, a);
    FilterAll([a, b], (p: Bytes) => IsSamlPair(p));
    FilterAll([b, a], (p: Bytes) => IsSamlPair(p));
    SameQueriesSameReference(codec, Then(a, b), Then(b, a));
  }

  lemma ReferenceOfJoin(codec: Codec, c: Carried, parts: seq<Bytes>, query: Bytes)
    requires WellKeyed(c) && Parts(c) == parts && query == Join(parts, '&')
    requires forall p :: p in parts ==> p != [] && '&' !in p
    ensures Reference(codec, Some(query)) == DecodeCarried(codec, c)
  {
    ReferenceOfParts(codec, c);
  }

  lemma TwoPairsReference(codec: Codec, c: Carried, message: Bytes, alg: Bytes)
    requires WellKeyed(c) && Parts(c) == [message, alg]
    requires message != [] && alg != [] && '&' !in message && '&' !in alg
    ensures Reference(codec, Some(Then(message, alg))) == DecodeCarried(codec, c)
  {
    PairsOfTwo(message, alg);
    ReferenceOfJoin(codec, c, [message, alg], Then(message, alg));
  }

  /** A signed request without RelayState. */
  function OnlySigned(message: Bytes, alg: Bytes): Carried {
    Carried(Some(message), None, None, Some(alg), None)
  }

  lemma OnlySignedParts(message: Bytes, alg: Bytes)
    ensures Parts(OnlySigned(message, alg)) == [message, alg]
    ensures HasKey(message, SAML_REQUEST) && HasKey(alg, SIG_ALG) ==> WellKeyed(OnlySigned(message, alg))
  {
  }

  lemma TwoPairsDecode(codec: Codec, message: Bytes, alg: Bytes, z: Bytes)
    requires DecodeBase64Value(ValueOf(message)) == Ok(z) && Bounded(codec.open(z)).Ok?
    ensures var d := DecodeCarried(codec, OnlySigned(message, alg));
            d.Ok? && d.value.isRequest && d.value.signatureInput == Some(Join([message, alg], '&'))
  {
    assert [message] + [] + [alg] == [message, alg];
  }

  lemma TargetReference(codec: Codec, n: nat, z: Bytes)
    requires Bounded(codec.open(z)).Ok?
    ensures var d := Reference(codec, QueryOf(SplitTarget(n, z)));
            d.Ok? && d.value.isRequest
            && d.value.signatureInput == Some(Join([Pair(SAML_REQUEST, Base64Encode(z)), LongAlg(n)], '&'))
  {
    var alg, message := LongAlg(n), Pair(SAML_REQUEST, Base64Encode(z));
    QueryOfTarget(Then(alg, message));
    LongAlgPair(n);
    SamlNamesArePlain();
    PairReadsBack(SAML_REQUEST, Base64Encode(z));
    SamlParamList();
    TwoPairsCommute(codec, alg, message);
    OnlySignedParts(message, alg);
    TwoPairsReference(codec, OnlySigned(message, alg), message, alg);
    Base64ValueReadsBack(SAML_REQUEST, z);
    TwoPairsDecode(codec, message, alg, z);
  }

  /** The scheme and host the adapter is given are safe: for every request target
      what is consumed and what is signed are read off the target alone. */
  ghost predicate FrontSafe(codec: Codec, scheme: Bytes, host: Bytes) {
    forall uri :: RedirectDecode(codec, GetRequest(Incoming(scheme, host, uri))) == Reference(codec, QueryOf(uri))
  }

  /** With a codec that can open anything at all, scheme and host are safe exactly
      when neither holds a question mark. */
  lemma FrontSafeExactly(codec: Codec, scheme: Bytes, host: Bytes, z: Bytes)
    requires Bounded(codec.open(z)).Ok?
    ensures FrontSafe(codec, scheme, host) <==> '?' !in scheme && '?' !in host
  {
    if '?' !in scheme && '?' !in host {
      forall uri
        ensures RedirectDecode(codec, GetRequest(Incoming(scheme, host, uri))) == Reference(codec, QueryOf(uri))
      {
        VerifiedEqualsConsumed(codec, Incoming(scheme, host, uri));
      }
    } else {
      var n := |Incoming(scheme, host, []).Front()|;
      FrontBreaksAgreement(codec, Incoming(scheme, host, SplitTarget(n, z)), z);
    }
  }

  const HTTPS: Bytes := ['h', 't', 't', 'p', 's']
  const SPLITTING_HOST: Bytes := ['h', '?', 'x', '=']

  /** A signed request without RelayState, with its signature. */
  function FullySigned(message: Bytes, alg: Bytes, sig: Bytes): Carried {
    Carried(Some(message), None, None, Some(alg), Some(sig))
  }

  /** The target that shows the failure: a message in front of a signed one. */
  function TwoMessages(e: Bytes, g: Bytes, a: Bytes, s: Bytes): Bytes {
    Target(Then(e, Then(g, Then(a, s))))
  }

  predicate CleanPair(p: Bytes, name: Bytes) {
    p != [] && '&' !in p && HasKey(p, name)
  }

  /** The smallest failure: behind the host `h?x=` the check for duplicates does
      not see the first of two messages.  Decoding succeeds; it delivers the first
      message together with the signature, and the text for the signature check is
      that of the second. */
  lemma HostHidesDuplicate(codec: Codec, z: Bytes, x: Bytes, signed: Bytes, alg: Bytes, sig: Bytes)
    requires codec.open(z) == Stream(x, false) && |x| <= MAX_DECOMPRESSED_SIZE && ValidUtf8(alg)
    ensures var e, g := Pair(SAML_REQUEST, Base64Encode(z)), Pair(SAML_REQUEST, signed);
            var a, s := Pair(SIG_ALG, alg), Pair(SIGNATURE, Base64Encode(sig));
            RedirectDecode(codec, GetRequest(Incoming(HTTPS, SPLITTING_HOST, TwoMessages(e, g, a, s))))
            == Ok(RedirectDecoded(x, true, None, Some(alg), Some(sig), Some(Join([g, a], '&'))))
  {
    var e, g := Pair(SAML_REQUEST, Base64Encode(z)), Pair(SAML_REQUEST, signed);
    var a, s := Pair(SIG_ALG, alg), Pair(SIGNATURE, Base64Encode(sig));
    SamlNamesArePlain();
    PairReadsBack(SAML_REQUEST, Base64Encode(z));
    PairReadsBack(SAML_REQUEST, signed);
    PairReadsBack(SIG_ALG, alg);
    PairReadsBack(SIGNATURE, Base64Encode(sig));
    Base64ValueReadsBack(SAML_REQUEST, z);
    Base64ValueReadsBack(SIGNATURE, sig);
    ValueReadsBack(SIG_ALG, alg);
    HostHidesPair(codec, Incoming(HTTPS, SPLITTING_HOST, TwoMessages(e, g, a, s)), e, g, a, s);
    MixedDecode(codec, e, g, a, s, z, x, alg, sig);
  }

  /** Decoding with the values of some pairs and the signature input of others. */
  function Mixed(codec: Codec, e: Bytes, g: Bytes, a: Bytes, s: Bytes, query: Bytes): Result<RedirectDecoded, BindingError> {
    DecodeValues(codec, ValueOf(e), true, None, Some(ValueOf(a)), Some(ValueOf(s)), Some(query))
  }

  lemma HostHidesPair(codec: Codec, r: Incoming, e: Bytes, g: Bytes, a: Bytes, s: Bytes)
    requires r == Incoming(HTTPS, SPLITTING_HOST, TwoMessages(e, g, a, s))
    requires CleanPair(e, SAML_REQUEST) && CleanPair(g, SAML_REQUEST) && CleanPair(a, SIG_ALG) && CleanPair(s, SIGNATURE)
    ensures var query := Then(Stranger(e), Then(g, Then(a, s)));
            RedirectDecode(codec, GetRequest(r)) == Mixed(codec, e, g, a, s, query)
            && SignatureInput(query, SAML_REQUEST) == Ok(Join([g, a], '&'))
  {
    var query := Then(Stranger(e), Then(g, Then(a, s)));
    FirstIsConsumed(r, e, g, a, s);
    HostQuery(r, e, Then(g, Then(a, s)));
    StrangerPair(e);
    PairsOfFour(Stranger(e), g, a, s);
    StrangerIsIgnored(query, [Stranger(e)], g, a, s);
  }

  lemma MixedDecode(codec: Codec, e: Bytes, g: Bytes, a: Bytes, s: Bytes, z: Bytes, x: Bytes, alg: Bytes, sig: Bytes)
    requires codec.open(z) == Stream(x, false) && |x| <= MAX_DECOMPRESSED_SIZE
    requires DecodeBase64Value(ValueOf(e)) == Ok(z) && DecodeBase64Value(ValueOf(s)) == Ok(sig)
    requires PercentDecoded(ValueOf(a)) == Ok(alg)
    ensures forall query :: SignatureInput(query, SAML_REQUEST) == Ok(Join([g, a], '&')) ==>
              Mixed(codec, e, g, a, s, query) == Ok(RedirectDecoded(x, true, None, Some(alg), Some(sig), Some(Join([g, a], '&'))))
  {
  }

  lemma PairsOfFour(p: Bytes, a: Bytes, b: Bytes, c: Bytes)
    requires p != [] && a != [] && b != [] && c != [] && '&' !in p && '&' !in a && '&' !in b && '&' !in c
    ensures Pairs(Then(p, Then(a, Then(b, c)))) == [p] + [a, b, c]
  {
    PairsConcat(p, Then(a, Then(b, c)));
    PairsOfOne(p);
    PairsConcat(a, Then(b, c));
    PairsOfOne(a);
    PairsOfTwo(b, c);
  }

  lemma FullySignedParts(g: Bytes, a: Bytes, s: Bytes)
    ensures Parts(FullySigned(g, a, s)) == [g, a, s]
    ensures HasKey(g, SAML_REQUEST) && HasKey(a, SIG_ALG) && HasKey(s, SIGNATURE) ==> WellKeyed(FullySigned(g, a, s))
  {
  }

  /** A second message in front takes the place of the message, and nothing else
      changes. */
  lemma FirstMessageWins(e: Bytes, c: Carried)
    requires HasKey(e, SAML_REQUEST) && WellKeyed(c) && c.request.Some?
    ensures CarriedBy([e] + Parts(c)) == c.(request := Some(e))
  {
    SamlParamList();
    NamesDiffer();
    InFront(e, c, SAML_REQUEST);
    InFront(e, c, SAML_RESPONSE);
    InFront(e, c, RELAY_STATE);
    InFront(e, c, SIG_ALG);
    InFront(e, c, SIGNATURE);
  }

  lemma InFront(e: Bytes, c: Carried, name: Bytes)
    requires HasKey(e, SAML_REQUEST) && WellKeyed(c) && name in SAML_PARAMS
    ensures Matching([e] + Parts(c), name) == Kept(Some(e), SAML_REQUEST, name) + Listed(Select(c, name))
  {
    FilterConcat([e], Parts(c), Named(name));
    MatchingListed(Some(e), SAML_REQUEST, name);
    MatchingOwn(c, name);
  }

  lemma FirstIsConsumed(r: Incoming, e: Bytes, g: Bytes, a: Bytes, s: Bytes)
    requires r.uri == TwoMessages(e, g, a, s)
    requires CleanPair(e, SAML_REQUEST) && CleanPair(g, SAML_REQUEST) && CleanPair(a, SIG_ALG) && CleanPair(s, SIGNATURE)
    ensures var request := GetRequest(r);
            && SamlValue(request) == Ok((ValueOf(e), true)) && request.QueryParam(RELAY_STATE) == None
            && request.QueryParam(SIG_ALG) == Some(ValueOf(a)) && request.QueryParam(SIGNATURE) == Some(ValueOf(s))
  {
    var query := Then(e, Then(g, Then(a, s)));
    QueryOfTarget(query);
    PairsOfFour(e, g, a, s);
    FullySignedParts(g, a, s);
    FirstMessageWins(e, FullySigned(g, a, s));
    KeysInFront(e, FullySigned(g, a, s));
    ParamsAreCarried(GetRequest(r), query);
  }

  lemma KeysInFront(e: Bytes, c: Carried)
    requires PercentDecoded(KeyOf(e)).Ok? && WellKeyed(c)
    ensures KeysDecode([e] + Parts(c))
  {
    KeysOfParts([], c);
    assert [] + Parts(c) == Parts(c);
    KeysConcat([e], Parts(c));
  }

  lemma KeysConcat(xs: seq<Bytes>, ys: seq<Bytes>)
    ensures KeysDecode(xs + ys) <==> KeysDecode(xs) && KeysDecode(ys)
  {
    assert forall p :: p in xs + ys <==> p in xs || p in ys;
  }

  /** What the first pair of the target becomes behind the host. */
  function Stranger(e: Bytes): Bytes {
    ['x', '='] + Target(e)
  }

  lemma HostQuery(r: Incoming, e: Bytes, rest: Bytes)
    requires r == Incoming(HTTPS, SPLITTING_HOST, Target(Then(e, rest)))
    ensures QueryOf(r.Url()) == Some(Then(Stranger(e), rest))
  {
    var front := r.Front();
    assert front == ['h', 't', 't', 'p', 's', ':', '/', '/', 'h', '?', 'x', '='];
    IndexOfUnique(front, '?', 9);
    assert front[10..] == ['x', '='];
    QueryBehindFront(front, r.uri);
    Regroup(['x', '='], e, rest);
  }

  lemma StrangerIsIgnored(query: Bytes, strangers: seq<Bytes>, g: Bytes, a: Bytes, s: Bytes)
    requires Unrelated(strangers) && Pairs(query) == strangers + [g, a, s]
    requires HasKey(g, SAML_REQUEST) && HasKey(a, SIG_ALG) && HasKey(s, SIGNATURE)
    ensures ValidateUniqueParams(query).Ok? && SignatureInput(query, SAML_REQUEST) == Ok(Join([g, a], '&'))
  {
    FullySignedParts(g, a, s);
    PartsAreCarried(query, strangers, FullySigned(g, a, s));
    CarriedInput(query, FullySigned(g, a, s));
  }

  lemma StrangerPair(e: Bytes)
    requires '&' !in e
    ensures Unrelated([Stranger(e)]) && Stranger(e) != [] && '&' !in Stranger(e)
  {
    var s := Stranger(e);
    assert s == ['x', '=', '/', '?'] + e;
    IndexOfUnique(s, '=', 1);
    assert KeyOf(s) == ['x'];
    PlainDecodesToItself(['x']);
    NamesDiffer();
    if ['x'] in SAML_PARAMS {
      SamlParamCases(['x']);
      assert false;
    }
  }

  lemma CarriedInput(query: Bytes, c: Carried)
    requires ValidateUniqueParams(query).Ok? && CarriedBy(Pairs(query)) == c
    requires c.request.Some? && c.relay.None? && c.alg.Some?
    ensures SignatureInput(query, SAML_REQUEST) == Ok(Join([c.request.value, c.alg.value], '&'))
  {
    KeysOfUnique(query);
    SignatureInputOf(query, SAML_REQUEST);
    assert [c.request.value] + [] + [c.alg.value] == [c.request.value, c.alg.value];
  }
}
