/** Percent-coding and base64 (crates/gamlastan/src/bindings/encoding.rs). */
module Encoding {
  import opened Wrappers
  import opened ByteStrings
  import opened BindingErrors

  // ---- Percent-coding (RFC 3986, section 2) -----------------------------

  predicate Unreserved(c: Byte) {
    'A' <= c <= 'Z' || 'a' <= c <= 'z' || '0' <= c <= '9' || c == '-' || c == '_' || c == '.' || c == '~'
  }

  function HexUpper(n: int): (c: Byte)
    requires 0 <= n < 16
  {
    if n < 10 then ('0' as int + n) as char else ('A' as int + n - 10) as char
  }

  function HexValue(c: Byte): Option<int>
  {
    if '0' <= c <= '9' then Some(c as int - '0' as int)
    else if 'A' <= c <= 'F' then Some(c as int - 'A' as int + 10)
    else if 'a' <= c <= 'f' then Some(c as int - 'a' as int + 10)
    else None
  }

  function EncodeByte(c: Byte): Bytes {
    if Unreserved(c) then [c] else ['%', HexUpper(c as int / 16), HexUpper(c as int % 16)]
  }

  function PercentEncoded(s: Bytes): Bytes {
    if s == [] then [] else EncodeByte(s[0]) + PercentEncoded(s[1..])
  }

  function Prepend(front: Bytes, rest: Result<Bytes, BindingError>): Result<Bytes, BindingError> {
    match rest
    case Ok(b) => Ok(front + b)
    case Err(e) => Err(e)
  }

  lemma PrependTwice(a: Bytes, b: Bytes, rest: Result<Bytes, BindingError>)
    ensures Prepend(a, Prepend(b, rest)) == Prepend(a + b, rest)
    ensures Prepend([], rest) == rest
  {
    if rest.Ok? {
      assert a + (b + rest.value) == a + b + rest.value;
      assert [] + rest.value == rest.value;
    }
  }

  /** The bytes a percent-coded string stands for, before the UTF-8 check. */
  function DecodedBytes(s: Bytes): Result<Bytes, BindingError>
    decreases |s|
  {
    if s == [] then Ok([])
    else if s[0] == '%' then
      if |s| < 3 then Err(UrlDecodeError(IncompleteEscape))
      else match (HexValue(s[1]), HexValue(s[2]))
        case (Some(hi), Some(lo)) => Prepend([(hi * 16 + lo) as char], DecodedBytes(s[3..]))
        case _ => Err(UrlDecodeError(BadHexDigit))
    else Prepend([if s[0] == '+' then ' ' else s[0]], DecodedBytes(s[1..]))
  }

  function PercentDecoded(s: Bytes): Result<Bytes, BindingError> {
    match DecodedBytes(s)
    case Ok(b) => if ValidUtf8(b) then Ok(b) else Err(UrlDecodeError(NotUtf8))
    case Err(e) => Err(e)
  }

  lemma EncodeNext(s: Bytes, i: nat, done: Bytes)
    requires i < |s|
    ensures done + PercentEncoded(s[i..]) == done + EncodeByte(s[i]) + PercentEncoded(s[i + 1..])
  {
    assert s[i..][1..] == s[i + 1..];
  }

  lemma PushEscape(done: Bytes, c: Byte)
    ensures !Unreserved(c) ==>
              done + ['%'] + [HexUpper(c as int / 16)] + [HexUpper(c as int % 16)] == done + EncodeByte(c)
    ensures Unreserved(c) ==> done + [c] == done + EncodeByte(c)
  {
  }

  lemma DecodeNext(s: Bytes, i: nat, done: Bytes)
    requires i < |s|
    ensures s[i] != '%' ==>
      Prepend(done, DecodedBytes(s[i..]))
      == Prepend(done + [if s[i] == '+' then ' ' else s[i]], DecodedBytes(s[i + 1..]))
    ensures s[i] == '%' ==>
      Prepend(done, DecodedBytes(s[i..]))
      == (if i + 2 >= |s| then Err(UrlDecodeError(IncompleteEscape))
          else match (HexValue(s[i + 1]), HexValue(s[i + 2]))
            case (Some(hi), Some(lo)) => Prepend(done + [(hi * 16 + lo) as char], DecodedBytes(s[i + 3..]))
            case _ => Err(UrlDecodeError(BadHexDigit)))
  {
    assert s[i..][1..] == s[i + 1..];
    if s[i] != '%' {
      PrependTwice(done, [if s[i] == '+' then ' ' else s[i]], DecodedBytes(s[i + 1..]));
    } else if i + 2 < |s| {
      assert s[i..][3..] == s[i + 3..];
      match (HexValue(s[i + 1]), HexValue(s[i + 2]))
      case (Some(hi), Some(lo)) => PrependTwice(done, [(hi * 16 + lo) as char], DecodedBytes(s[i + 3..]));
      case _ =>
    }
  }

  method UrlEncode(input: Bytes) returns (result: Bytes)
    ensures result == PercentEncoded(input)
  {
    result := [];
    var i := 0;
    while i < |input|
      invariant 0 <= i <= |input|
      invariant result + PercentEncoded(input[i..]) == PercentEncoded(input)
    {
      ghost var done := result;
      var byte := input[i];
      if Unreserved(byte) {
        result := result + [byte];
      } else {
        result := result + ['%'];
        result := result + [HexUpper(byte as int / 16)];
        result := result + [HexUpper(byte as int % 16)];
      }
      PushEscape(done, byte);
      assert result == done + EncodeByte(byte);
      EncodeNext(input, i, done);
      i := i + 1;
    }
    assert result + [] == result;
  }

  method UrlDecode(input: Bytes) returns (r: Result<Bytes, BindingError>)
    ensures r == PercentDecoded(input)
  {
    var result: Bytes := [];
    var i := 0;
    PrependTwice([], [], DecodedBytes(input));
    assert input[0..] == input;
    while i < |input|
      invariant 0 <= i <= |input|
      invariant DecodedBytes(input) == Prepend(result, DecodedBytes(input[i..]))
    {
      DecodeNext(input, i, result);
      if input[i] == '%' {
        if i + 2 >= |input| {
          return Err(UrlDecodeError(IncompleteEscape));
        }
        var hi := HexValue(input[i + 1]);
        if hi.None? {
          return Err(UrlDecodeError(BadHexDigit));
        }
        var lo := HexValue(input[i + 2]);
        if lo.None? {
          return Err(UrlDecodeError(BadHexDigit));
        }
        result := result + [(hi.value * 16 + lo.value) as char];
        i := i + 3;
      } else if input[i] == '+' {
        result := result + [' '];
        i := i + 1;
      } else {
        result := result + [input[i]];
        i := i + 1;
      }
    }
    assert result + [] == result;
    r := if ValidUtf8(result) then Ok(result) else Err(UrlDecodeError(NotUtf8));
  }

  lemma DecodeEscape(c: Byte, rest: Bytes)
    ensures DecodedBytes(EncodeByte(c) + rest) == Prepend([c], DecodedBytes(rest))
  {
    var s := EncodeByte(c) + rest;
    assert s[|EncodeByte(c)|..] == rest;
    if !Unreserved(c) {
      var n := c as int;
      assert 0 <= n / 16 < 16 && n == n / 16 * 16 + n % 16;
      assert HexValue(s[1]) == Some(n / 16) && HexValue(s[2]) == Some(n % 16);
    }
  }

  /** Decoding undoes encoding, whatever follows. */
  lemma {:induction false} DecodeEncoded(s: Bytes, rest: Bytes)
    ensures DecodedBytes(PercentEncoded(s) + rest) == Prepend(s, DecodedBytes(rest))
  {
    if s == [] {
      assert PercentEncoded(s) + rest == rest;
      PrependTwice([], [], DecodedBytes(rest));
    } else {
      var e := EncodeByte(s[0]);
      var tail := PercentEncoded(s[1..]) + rest;
      assert PercentEncoded(s) + rest == e + tail;
      DecodeEscape(s[0], tail);
      DecodeEncoded(s[1..], rest);
      PrependTwice([s[0]], s[1..], DecodedBytes(rest));
      assert s == [s[0]] + s[1..];
    }
  }

  lemma PercentRoundTrip(s: Bytes)
    requires ValidUtf8(s)
    ensures PercentDecoded(PercentEncoded(s)) == Ok(s)
  {
    DecodeEncoded(s, []);
    assert PercentEncoded(s) + [] == PercentEncoded(s);
    assert s + [] == s;
  }

  lemma {:induction false} PercentEncodedAlphabet(s: Bytes)
    ensures forall c :: c in PercentEncoded(s) ==> Unreserved(c) || c == '%'
  {
    if s != [] {
      PercentEncodedAlphabet(s[1..]);
    }
  }

  /** Text with nothing to escape is its own encoding. */
  lemma {:induction false} UnreservedEncodesToItself(s: Bytes)
    requires forall c :: c in s ==> Unreserved(c)
    ensures PercentEncoded(s) == s
  {
    if s != [] {
      UnreservedEncodesToItself(s[1..]);
    }
  }

  // ---- Base64 (RFC 4648, section 4) -------------------------------------

  type Sextet = n: int | 0 <= n < 64

  function Base64Char(n: Sextet): Byte {
    if n < 26 then ('A' as int + n) as char
    else if n < 52 then ('a' as int + n - 26) as char
    else if n < 62 then ('0' as int + n - 52) as char
    else if n == 62 then '+' else '/'
  }

  function Base64Value(c: Byte): Option<Sextet> {
    if 'A' <= c <= 'Z' then Some(c as int - 'A' as int)
    else if 'a' <= c <= 'z' then Some(c as int - 'a' as int + 26)
    else if '0' <= c <= '9' then Some(c as int - '0' as int + 52)
    else if c == '+' then Some(62)
    else if c == '/' then Some(63)
    else None
  }

  /** The four sextets of three bytes. */
  function Sextets(x: Byte, y: Byte, z: Byte): (Sextet, Sextet, Sextet, Sextet) {
    (x as int / 4, x as int % 4 * 16 + y as int / 16, y as int % 16 * 4 + z as int / 64, z as int % 64)
  }

  /** Four characters for one to three bytes. */
  function EncodeGroup(b: Bytes): (g: Bytes)
    requires 1 <= |b| <= 3
    ensures |g| == 4
  {
    var (p, q, r, t) := Sextets(b[0], if |b| > 1 then b[1] else 0 as char, if |b| > 2 then b[2] else 0 as char);
    [Base64Char(p), Base64Char(q), if |b| > 1 then Base64Char(r) else '=', if |b| > 2 then Base64Char(t) else '=']
  }

  /** Encode with the standard alphabet and padding. */
  function Base64Encode(s: Bytes): (r: Bytes)
    decreases |s|
  {
    if s == [] then []
    else if |s| <= 3 then EncodeGroup(s)
    else EncodeGroup(s[..3]) + Base64Encode(s[3..])
  }

  /** One group of four characters; only the last group may be padded, and the
      bits the padding leaves over must be zero. */
  function DecodeGroup(g: Bytes, last: bool): Option<Bytes>
    requires |g| == 4
  {
    match (Base64Value(g[0]), Base64Value(g[1]))
    case (Some(p), Some(q)) =>
      if last && g[2] == '=' && g[3] == '=' then
        if q % 16 == 0 then Some([(p * 4 + q / 16) as char]) else None
      else (match Base64Value(g[2])
        case Some(r) =>
          if last && g[3] == '=' then
            if r % 4 == 0 then Some([(p * 4 + q / 16) as char, (q % 16 * 16 + r / 4) as char]) else None
          else (match Base64Value(g[3])
            case Some(t) => Some([(p * 4 + q / 16) as char, (q % 16 * 16 + r / 4) as char, (r % 4 * 64 + t) as char])
            case None => None)
        case None => None)
    case _ => None
  }

  /** The standard engine: canonical padding required, no trailing bits. */
  function StrictBase64Decode(s: Bytes): Result<Bytes, BindingError>
    decreases |s|
  {
    if s == [] then Ok([])
    else if |s| < 4 then Err(Base64DecodeError)
    else match DecodeGroup(s[..4], |s| == 4)
      case Some(front) => Prepend(front, StrictBase64Decode(s[4..]))
      case None => Err(Base64DecodeError)
  }

  /** Length of the Unicode White_Space scalar at the front of `s`, or 0. */
  function WhitespaceLength(s: Bytes): (n: nat)
    ensures n <= |s|
  {
    if s == [] then 0
    else if Between(s[0], 9, 13) || s[0] == ' ' then 1
    else if |s| >= 2 && s[0] as int == 0xC2 && (s[1] as int == 0x85 || s[1] as int == 0xA0) then 2
    else if |s| >= 3 && s[0] as int == 0xE1 && s[1] as int == 0x9A && s[2] as int == 0x80 then 3
    else if |s| >= 3 && s[0] as int == 0xE2 && s[1] as int == 0x80
         && (Between(s[2], 0x80, 0x8A) || Between(s[2], 0xA8, 0xA9) || s[2] as int == 0xAF) then 3
    else if |s| >= 3 && s[0] as int == 0xE2 && s[1] as int == 0x81 && s[2] as int == 0x9F then 3
    else if |s| >= 3 && s[0] as int == 0xE3 && s[1] as int == 0x80 && s[2] as int == 0x80 then 3
    else 0
  }

  function StripWhitespace(s: Bytes): Bytes
    decreases |s|
  {
    if s == [] then []
    else if WhitespaceLength(s) > 0 then StripWhitespace(s[WhitespaceLength(s)..])
    else [s[0]] + StripWhitespace(s[1..])
  }

  function Base64Decode(s: Bytes): Result<Bytes, BindingError> {
    StrictBase64Decode(StripWhitespace(s))
  }

  lemma SextetRoundTrip(n: Sextet)
    ensures Base64Value(Base64Char(n)) == Some(n)
    ensures Base64Char(n) != '='
  {
  }

  predicate Base64Alphabet(c: Byte) {
    Base64Value(c).Some? || c == '='
  }

  lemma {:induction false} Base64EncodeAlphabet(s: Bytes)
    ensures forall c :: c in Base64Encode(s) ==> Base64Alphabet(c)
    decreases |s|
  {
    if |s| > 3 {
      Base64EncodeAlphabet(s[3..]);
    }
  }

  /** The strict decoder accepts exactly the canonical encodings. */
  lemma {:induction false} StrictDecodeIsInverse(s: Bytes, b: Bytes)
    ensures StrictBase64Decode(s) == Ok(b) <==> s == Base64Encode(b)
    decreases |s| + |b|
  {
    EncodeThenDecode(b);
    if StrictBase64Decode(s).Ok? {
      DecodeThenEncode(s);
    }
  }

  lemma {:induction false} EncodeThenDecode(b: Bytes)
    ensures StrictBase64Decode(Base64Encode(b)) == Ok(b)
    decreases |b|
  {
    if 0 < |b| <= 3 {
      var g := EncodeGroup(b);
      assert g[..4] == g && g[4..] == [] && b + [] == b;
      GroupRoundTrip(b, true);
    } else if |b| > 3 {
      var g, rest := EncodeGroup(b[..3]), Base64Encode(b[3..]);
      assert |rest| >= 4;
      assert (g + rest)[..4] == g && (g + rest)[4..] == rest;
      GroupRoundTrip(b[..3], false);
      EncodeThenDecode(b[3..]);
      assert b == b[..3] + b[3..];
    }
  }

  lemma GroupRoundTrip(b: Bytes, last: bool)
    requires 1 <= |b| <= 3 && (|b| < 3 ==> last)
    ensures DecodeGroup(EncodeGroup(b), last) == Some(b)
  {
    var x, y, z := b[0], if |b| > 1 then b[1] else 0 as char, if |b| > 2 then b[2] else 0 as char;
    SplitBits(x, y, z);
    GroupOfSextets(b, x, y, z, Sextets(x, y, z), last);
  }

  lemma GroupOfSextets(b: Bytes, x: Byte, y: Byte, z: Byte, s: (Sextet, Sextet, Sextet, Sextet), last: bool)
    requires 1 <= |b| <= 3 && (|b| < 3 ==> last) && s == Sextets(x, y, z)
    requires x == b[0] && y == (if |b| > 1 then b[1] else 0 as char) && z == (if |b| > 2 then b[2] else 0 as char)
    requires (s.0 * 4 + s.1 / 16) as char == x && (s.1 % 16 * 16 + s.2 / 4) as char == y && (s.2 % 4 * 64 + s.3) as char == z
    requires (y == 0 as char ==> s.1 % 16 == 0) && (z == 0 as char ==> s.2 % 4 == 0)
    ensures DecodeGroup(EncodeGroup(b), last) == Some(b)
  {
    DecodeGroupOf(s.0, s.1, s.2, s.3, last);
    if |b| == 1 {
      assert b == [x];
    } else if |b| == 2 {
      assert b == [x, y];
    } else {
      assert b == [x, y, z];
    }
  }

  lemma DecodeGroupOf(p: Sextet, q: Sextet, r: Sextet, t: Sextet, last: bool)
    ensures DecodeGroup([Base64Char(p), Base64Char(q), Base64Char(r), Base64Char(t)], last)
            == Some([(p * 4 + q / 16) as char, (q % 16 * 16 + r / 4) as char, (r % 4 * 64 + t) as char])
    ensures last && r % 4 == 0 ==>
      DecodeGroup([Base64Char(p), Base64Char(q), Base64Char(r), '='], last)
      == Some([(p * 4 + q / 16) as char, (q % 16 * 16 + r / 4) as char])
    ensures last && q % 16 == 0 ==>
      DecodeGroup([Base64Char(p), Base64Char(q), '=', '='], last) == Some([(p * 4 + q / 16) as char])
  {
    SextetRoundTrip(p);
    SextetRoundTrip(q);
    SextetRoundTrip(r);
    SextetRoundTrip(t);
  }

  /** Cutting three bytes into four sextets loses nothing, and bytes that are
      not there leave zero bits. */
  lemma SplitBits(x: Byte, y: Byte, z: Byte)
    ensures var (p, q, r, t) := Sextets(x, y, z);
            && (p * 4 + q / 16) as char == x
            && (q % 16 * 16 + r / 4) as char == y
            && (r % 4 * 64 + t) as char == z
            && (y == 0 as char ==> q % 16 == 0)
            && (z == 0 as char ==> r % 4 == 0)
  {
    var (p, q, r, t) := Sextets(x, y, z);
    assert q / 16 == x as int % 4 && q % 16 == y as int / 16;
    assert r / 4 == y as int % 16 && r % 4 == z as int / 64;
  }

  /** Gluing four sextets into three bytes loses nothing. */
  lemma GlueBits(p: Sextet, q: Sextet, r: Sextet, t: Sextet)
    ensures var x, y, z := p * 4 + q / 16, q % 16 * 16 + r / 4, r % 4 * 64 + t;
            x / 4 == p && x % 4 * 16 + y / 16 == q && y % 16 * 4 + z / 64 == r && z % 64 == t
  {
    var x, y, z := p * 4 + q / 16, q % 16 * 16 + r / 4, r % 4 * 64 + t;
    assert x / 4 == p && x % 4 == q / 16;
    assert y / 16 == q % 16 && y % 16 == r / 4;
    assert z / 64 == r % 4 && z % 64 == t;
  }

  lemma {:induction false} DecodeThenEncode(s: Bytes)
    requires StrictBase64Decode(s).Ok?
    ensures Base64Encode(StrictBase64Decode(s).value) == s
    decreases |s|
  {
    if s != [] {
      var front := DecodeGroup(s[..4], |s| == 4).value;
      var rest := StrictBase64Decode(s[4..]).value;
      DecodeThenEncode(s[4..]);
      GroupCanonical(s[..4], |s| == 4);
      assert s == s[..4] + s[4..];
      if |s| > 4 {
        assert (front + rest)[..3] == front && (front + rest)[3..] == rest;
      } else {
        assert front + rest == front;
      }
    }
  }

  lemma GroupCanonical(g: Bytes, last: bool)
    requires |g| == 4 && DecodeGroup(g, last).Some?
    ensures var b := DecodeGroup(g, last).value;
            1 <= |b| <= 3 && (!last ==> |b| == 3) && EncodeGroup(b) == g
  {
    var b := DecodeGroup(g, last).value;
    CharOfValue(g[0]);
    CharOfValue(g[1]);
    CharOfValue(g[2]);
    CharOfValue(g[3]);
    var p, q := Base64Value(g[0]).value, Base64Value(g[1]).value;
    var r: Sextet := if |b| > 1 then Base64Value(g[2]).value else 0;
    var t: Sextet := if |b| > 2 then Base64Value(g[3]).value else 0;
    GlueBits(p, q, r, t);
    assert g == [g[0], g[1], g[2], g[3]];
  }

  lemma CharOfValue(c: Byte)
    ensures Base64Value(c).Some? ==> Base64Char(Base64Value(c).value) == c
  {
  }

  lemma {:induction false} StripKeepsBase64(s: Bytes)
    requires forall c :: c in s ==> Base64Alphabet(c)
    ensures StripWhitespace(s) == s
    decreases |s|
  {
    if s != [] {
      assert s[0] in s;
      StripKeepsBase64(s[1..]);
    }
  }

  lemma Base64RoundTrip(b: Bytes)
    ensures Base64Decode(Base64Encode(b)) == Ok(b)
  {
    Base64EncodeAlphabet(b);
    StripKeepsBase64(Base64Encode(b));
    EncodeThenDecode(b);
  }

  lemma Base64TextIsUtf8(b: Bytes)
    ensures ValidUtf8(Base64Encode(b))
  {
    Base64EncodeAlphabet(b);
    forall c | c in Base64Encode(b)
      ensures c < 128 as char
    {
      assert Base64Alphabet(c);
    }
    AsciiIsUtf8(Base64Encode(b));
  }
}
