/** The framework adapter, with its own query parser and its own lenient
    percent-decoder (crates/gamlastan-actix/src/request_adapter.rs). */
module HttpAdapter {
  import opened Wrappers
  import opened ByteStrings
  import opened Encoding
  import opened EncodingGuarantees

  /** A query or form string, cut at `&`, empty pieces dropped. */
  function Pairs(query: Bytes): seq<Bytes> {
    Filter(Split(query, '&'), (p: Bytes) => p != [])
  }

  function KeyOf(pair: Bytes): Bytes {
    pair[..IndexOf(pair, '=')]
  }

  function ValueOf(pair: Bytes): Bytes {
    var i := IndexOf(pair, '=');
    if i < |pair| then pair[i + 1..] else []
  }

  function HexByte(c: Byte): int {
    match HexValue(c)
    case Some(n) => n
    case None => 0
  }

  /** The first decoded byte of a non-empty text, and what is left.  Never
      fails: a missing or bad hex digit reads as 0. */
  function LenientHead(s: Bytes): (r: (Byte, Bytes))
    requires s != []
    ensures |r.1| < |s|
  {
    if s[0] == '+' then (' ', s[1..])
    else if s[0] == '%' then
      var hi := if |s| > 1 then s[1] else '0';
      var lo := if |s| > 2 then s[2] else '0';
      ((HexByte(hi) * 16 + HexByte(lo)) as char, if |s| > 3 then s[3..] else [])
    else (s[0], s[1..])
  }

  function LenientBytes(s: Bytes): Bytes
    decreases |s|
  {
    if s == [] then []
    else
      var (c, rest) := LenientHead(s);
      [c] + LenientBytes(rest)
  }

  method UrlDecodeSimple(input: Bytes) returns (r: Option<Bytes>)
    ensures r == if ValidUtf8(LenientBytes(input)) then Some(LenientBytes(input)) else None
  {
    var result: Bytes := [];
    var chars := input;
    while chars != []
      invariant result + LenientBytes(chars) == LenientBytes(input)
      decreases |chars|
    {
      ghost var (c, rest) := LenientHead(chars);
      assert result + LenientBytes(chars) == result + [c] + LenientBytes(rest);
      var b := chars[0];
      chars := chars[1..];
      if b == '+' {
        result := result + [' '];
      } else if b == '%' {
        var hi, lo := '0', '0';
        if chars != [] {
          hi, chars := chars[0], chars[1..];
        }
        if chars != [] {
          lo, chars := chars[0], chars[1..];
        }
        result := result + [(HexByte(hi) * 16 + HexByte(lo)) as char];
      } else {
        result := result + [b];
      }
      assert chars == rest;
    }
    assert result + [] == result;
    r := if ValidUtf8(result) then Some(result) else None;
  }

  function LenientKey(key: Bytes): Bytes {
    if ValidUtf8(LenientBytes(key)) then LenientBytes(key) else key
  }

  type Param = (Bytes, Bytes)

  /** Keys decoded, values raw. */
  function ParseParams(pairs: seq<Bytes>): seq<Param> {
    if pairs == [] then []
    else [(LenientKey(KeyOf(pairs[0])), ValueOf(pairs[0]))] + ParseParams(pairs[1..])
  }

  function FindParam(params: seq<Param>, name: Bytes): Option<Bytes> {
    if params == [] then None
    else if params[0].0 == name then Some(params[0].1)
    else FindParam(params[1..], name)
  }

  /** The key a pair is looked up by: its decoded bytes if they are UTF-8,
      otherwise the key as it stands. */
  predicate LooksUp(pair: Bytes, name: Bytes) {
    if ValidUtf8(LenientBytes(KeyOf(pair))) then name == LenientBytes(KeyOf(pair)) else name == KeyOf(pair)
  }

  /** A lookup gives the value of the first pair with that key. */
  lemma {:induction false} FindsFirst(pairs: seq<Bytes>, name: Bytes, i: nat)
    requires i <= |pairs| && forall k :: 0 <= k < i ==> !LooksUp(pairs[k], name)
    requires i < |pairs| ==> LooksUp(pairs[i], name)
    ensures FindParam(ParseParams(pairs), name) == if i < |pairs| then Some(ValueOf(pairs[i])) else None
  {
    if pairs != [] {
      LookupStep(pairs, name);
      if i > 0 {
        FindsFirst(pairs[1..], name, i - 1);
      }
    }
  }

  lemma KeyLookedUp(pair: Bytes, name: Bytes)
    ensures LenientKey(KeyOf(pair)) == name <==> LooksUp(pair, name)
  {
  }

  lemma LookupStep(pairs: seq<Bytes>, name: Bytes)
    requires pairs != []
    ensures FindParam(ParseParams(pairs), name)
            == if LooksUp(pairs[0], name) then Some(ValueOf(pairs[0])) else FindParam(ParseParams(pairs[1..]), name)
  {
    KeyLookedUp(pairs[0], name);
    assert ParseParams(pairs)[1..] == ParseParams(pairs[1..]);
  }

  datatype HttpRequest = HttpRequest(url: Bytes, query: seq<Param>, form: seq<Param>, body: Bytes)
  {
    function QueryParam(name: Bytes): Option<Bytes> {
      FindParam(query, name)
    }

    function FormParam(name: Bytes): Option<Bytes> {
      FindParam(form, name)
    }
  }

  /** `url.split_once('?')`. */
  function QueryOf(url: Bytes): Option<Bytes> {
    var i := IndexOf(url, '?');
    if i < |url| then Some(url[i + 1..]) else None
  }

  /** What the framework hands over: scheme and host as its connection info
      reports them (client headers can set both), and the request target. */
  datatype Incoming = Incoming(scheme: Bytes, host: Bytes, uri: Bytes)
  {
    function Front(): Bytes {
      scheme + [':', '/', '/'] + host
    }

    /** The address the adapter puts together. */
    function Url(): Bytes {
      Front() + uri
    }

    predicate PlainFront() {
      '?' !in scheme && '?' !in host
    }
  }

  function ParamsOf(query: Option<Bytes>): seq<Param> {
    match query case Some(q) => ParseParams(Pairs(q)) case None => []
  }

  /** The adapter for a GET: the address is put together, the parameters are
      parsed from the query of the request target alone. */
  function GetRequest(r: Incoming): HttpRequest {
    HttpRequest(r.Url(), ParamsOf(QueryOf(r.uri)), [], [])
  }

  /** The adapter for a POST of an URL-encoded form body. */
  function PostRequest(r: Incoming, body: Bytes): HttpRequest {
    HttpRequest(r.Url(), ParamsOf(QueryOf(r.uri)),
                if body != [] && ValidUtf8(body) then ParseParams(Pairs(body)) else [], body)
  }

  /** The address has the query of the request target exactly when scheme and
      host hold no question mark. */
  lemma UrlQueryExactly(r: Incoming)
    ensures r.Url() == r.scheme + "://" + r.host + r.uri
    ensures QueryOf(r.Url()) == QueryOf(r.uri) <==> r.PlainFront()
  {
    var front, i := r.Front(), IndexOf(r.uri, '?');
    IndexOfConcat(front, r.uri, '?');
    assert '?' in front <==> !r.PlainFront();
    if r.PlainFront() {
      if i < |r.uri| {
        assert r.Url()[|front| + i + 1..] == r.uri[i + 1..];
      }
    } else {
      var j := IndexOf(front, '?');
      assert |QueryOf(r.Url()).value| == |front| - j - 1 + |r.uri|;
    }
  }

  lemma PairsConcat(a: Bytes, b: Bytes)
    ensures Pairs(a + ['&'] + b) == Pairs(a) + Pairs(b)
  {
    SplitConcat(a, b, '&');
    FilterConcat(Split(a, '&'), Split(b, '&'), (p: Bytes) => p != []);
  }

  /** A query that joins pieces with ampersands has those that are not empty
      as its pairs, in order. */
  lemma PairsExactly(parts: seq<Bytes>)
    requires parts != [] && forall p :: p in parts ==> '&' !in p
    ensures Pairs(Join(parts, '&')) == Filter(parts, (p: Bytes) => p != [])
  {
    SplitJoin(parts, '&');
  }

  /** A pair is cut at its first equals sign; without one it is all key. */
  lemma CutExactly(key: Bytes, value: Bytes)
    requires '=' !in key
    ensures KeyOf(key + ['='] + value) == key && ValueOf(key + ['='] + value) == value
    ensures KeyOf(key) == key && ValueOf(key) == []
  {
    var p := key + ['='] + value;
    IndexOfUnique(p, '=', |key|);
    assert p[..|key|] == key && p[|key| + 1..] == value;
    IndexOfUnique(key, '=', |key|);
    assert key[..|key|] == key;
  }

  /** What the lenient decoder takes a byte for where a digit should be: the
      digit it spells, or 0. */
  predicate TakenFor(c: Byte, n: int) {
    Spells(c, n) || (!IsHexDigit(c) && n == 0)
  }

  lemma HexByteExactly(c: Byte, n: int)
    ensures HexByte(c) == n <==> TakenFor(c, n)
  {
    HexDigitExactly(c);
    if HexValue(c).Some? {
      HexValueExactly(c, HexValue(c).value);
      HexValueExactly(c, n);
    } else if Spells(c, n) {
      HexValueExactly(c, n);
    }
  }

  /** The lenient decoder on any two bytes after a percent sign, on an escape
      cut short by the end, and on any other byte. */
  lemma LenientReads(a: Byte, b: Byte, i: int, j: int, rest: Bytes)
    requires TakenFor(a, i) && TakenFor(b, j)
    ensures LenientBytes(['%', a, b] + rest) == [(16 * i + j) as char] + LenientBytes(rest)
    ensures LenientBytes(['%', a]) == [(16 * i) as char]
    ensures LenientBytes(['%']) == [0 as char]
    ensures a != '%' ==> LenientBytes([a] + rest) == [if a == '+' then ' ' else a] + LenientBytes(rest)
  {
    HexByteExactly(a, i);
    HexByteExactly(b, j);
    LenientEscape(a, b, rest);
    LenientCut(a);
    if a != '%' {
      LenientPlain(a, rest);
    }
  }

  lemma LenientEscape(a: Byte, b: Byte, rest: Bytes)
    ensures LenientBytes(['%', a, b] + rest) == [(HexByte(a) * 16 + HexByte(b)) as char] + LenientBytes(rest)
  {
    var s := ['%', a, b] + rest;
    assert s[3..] == rest && s[1] == a && s[2] == b;
  }

  lemma LenientCut(a: Byte)
    ensures LenientBytes(['%', a]) == [(HexByte(a) * 16) as char] && LenientBytes(['%']) == [0 as char]
  {
    assert HexByte('0') == 0;
  }

  lemma LenientPlain(a: Byte, rest: Bytes)
    requires a != '%'
    ensures LenientBytes([a] + rest) == [if a == '+' then ' ' else a] + LenientBytes(rest)
  {
    assert ([a] + rest)[1..] == rest;
  }

  /** Where the strict decoder succeeds, the lenient one agrees with it. */
  lemma {:induction false} LenientAgrees(s: Bytes)
    ensures DecodedBytes(s).Ok? ==> LenientBytes(s) == DecodedBytes(s).value
    decreases |s|
  {
    if s == [] || DecodedBytes(s).Err? {
    } else if s[0] == '%' {
      LenientAgrees(s[3..]);
      if |s| == 3 {
        assert s[3..] == [];
      }
    } else {
      LenientAgrees(s[1..]);
    }
  }

  lemma LenientKeyAgrees(key: Bytes)
    ensures PercentDecoded(key).Ok? ==> LenientKey(key) == PercentDecoded(key).value
  {
    LenientAgrees(key);
  }
}
