/** The address a metadata query is sent to
    (crates/gamlastan-mdq/src/transform.rs). */
module MdqRequest {
  import opened Wrappers
  import opened ByteStrings
  import opened Encoding
  import opened EncodingGuarantees

  datatype Transform = UrlEncoded | Sha1

  /** SHA-1 itself is a parameter. */
  type Digest = Bytes -> Bytes

  function HexLowerDigit(n: int): Byte
    requires 0 <= n < 16
  {
    if n < 10 then ('0' as int + n) as char else ('a' as int + n - 10) as char
  }

  function LowerHex(bytes: Bytes): Bytes {
    if bytes == [] then []
    else [HexLowerDigit(bytes[0] as int / 16), HexLowerDigit(bytes[0] as int % 16)] + LowerHex(bytes[1..])
  }

  const SHA1_MARK: Bytes := "{sha1}"

  /** The identifier before it is percent-coded. */
  function RawId(sha1: Digest, entityId: Bytes, transform: Transform): Bytes {
    match transform
    case UrlEncoded => entityId
    case Sha1 => SHA1_MARK + LowerHex(sha1(entityId))
  }

  function Address(sha1: Digest, server: Bytes, entityId: Bytes, transform: Transform): Bytes {
    server + PercentEncoded(RawId(sha1, entityId, transform))
  }

  method HexLower(bytes: Bytes) returns (out: Bytes)
    ensures out == LowerHex(bytes)
  {
    out := [];
    for i := 0 to |bytes|
      invariant out + LowerHex(bytes[i..]) == LowerHex(bytes)
    {
      var two := [HexLowerDigit(bytes[i] as int / 16), HexLowerDigit(bytes[i] as int % 16)];
      assert bytes[i..][1..] == bytes[i + 1..];
      assert out + LowerHex(bytes[i..]) == out + two + LowerHex(bytes[i + 1..]);
      out := out + two;
    }
    assert out + [] == out;
  }

  method PercentEncode(s: Bytes) returns (out: Bytes)
    ensures out == PercentEncoded(s)
  {
    out := [];
    for i := 0 to |s|
      invariant out + PercentEncoded(s[i..]) == PercentEncoded(s)
    {
      EncodeNext(s, i, out);
      if Unreserved(s[i]) {
        out := out + [s[i]];
      } else {
        out := out + ['%', HexUpper(s[i] as int / 16), HexUpper(s[i] as int % 16)];
      }
    }
    assert out + [] == out;
  }

  method RequestPath(sha1: Digest, server: Bytes, entityId: Bytes, transform: Transform) returns (url: Bytes)
    ensures url == Address(sha1, server, entityId, transform)
  {
    var raw := entityId;
    if transform.Sha1? {
      var hex := HexLower(sha1(entityId));
      raw := SHA1_MARK + hex;
    }
    var segment := PercentEncode(raw);
    url := server + segment;
  }

  /** Two lower-case hexadecimal digits for each byte. */
  lemma {:induction false} LowerHexExactly(bytes: Bytes, k: nat)
    ensures |LowerHex(bytes)| == 2 * |bytes|
    ensures k < |bytes| ==>
              && LowerHex(bytes)[2 * k] == LOWER_DIGITS[bytes[k] as int / 16]
              && LowerHex(bytes)[2 * k + 1] == LOWER_DIGITS[bytes[k] as int % 16]
  {
    if bytes != [] {
      LowerHexExactly(bytes[1..], if k == 0 then 0 else k - 1);
      LowerDigit(bytes[0] as int / 16);
      LowerDigit(bytes[0] as int % 16);
    }
  }

  lemma LowerDigit(n: int)
    requires 0 <= n < 16
    ensures HexLowerDigit(n) == LOWER_DIGITS[n]
  {
  }

  /** Decoding what follows the server address gives back the identifier, or the
      mark and the digest in hexadecimal. */
  lemma AddressReads(sha1: Digest, server: Bytes, entityId: Bytes, transform: Transform)
    ensures server <= Address(sha1, server, entityId, transform)
    ensures DecodedBytes(Address(sha1, server, entityId, transform)[|server|..])
            == Ok(if transform.Sha1? then "{sha1}" + LowerHex(sha1(entityId)) else entityId)
  {
    var raw := RawId(sha1, entityId, transform);
    DecodeEncoded(raw, []);
    assert PercentEncoded(raw) + [] == PercentEncoded(raw) && raw + [] == raw;
    assert Address(sha1, server, entityId, transform)[|server|..] == PercentEncoded(raw);
  }

  lemma {:induction false} LowerHexInjective(a: Bytes, b: Bytes)
    ensures LowerHex(a) == LowerHex(b) ==> a == b
  {
    if LowerHex(a) == LowerHex(b) && a != [] && b != [] {
      var s, t := LowerHex(a), LowerHex(b);
      assert s[0] == t[0] && s[1] == t[1] && s[2..] == LowerHex(a[1..]) && t[2..] == LowerHex(b[1..]);
      SameDigits(a[0], b[0]);
      LowerHexInjective(a[1..], b[1..]);
      assert a == [a[0]] + a[1..] && b == [b[0]] + b[1..];
    }
  }

  lemma SameDigits(x: Byte, y: Byte)
    requires HexLowerDigit(x as int / 16) == HexLowerDigit(y as int / 16)
    requires HexLowerDigit(x as int % 16) == HexLowerDigit(y as int % 16)
    ensures x == y
  {
    assert x as int == x as int / 16 * 16 + x as int % 16;
    assert y as int == y as int / 16 * 16 + y as int % 16;
  }

  lemma PercentInjective(a: Bytes, b: Bytes)
    requires PercentEncoded(a) == PercentEncoded(b)
    ensures a == b
  {
    DecodeEncoded(a, []);
    DecodeEncoded(b, []);
    assert a + [] == a && b + [] == b;
  }

  /** Two entities are asked for at the same address exactly when they are the
      same entity, or under the SHA-1 transform have the same digest. */
  lemma AddressIdentifies(sha1: Digest, server: Bytes, a: Bytes, b: Bytes, transform: Transform)
    ensures Address(sha1, server, a, transform) == Address(sha1, server, b, transform)
            <==> if transform.UrlEncoded? then a == b else sha1(a) == sha1(b)
  {
    var x, y := RawId(sha1, a, transform), RawId(sha1, b, transform);
    if Address(sha1, server, a, transform) == Address(sha1, server, b, transform) {
      assert PercentEncoded(x) == Address(sha1, server, a, transform)[|server|..];
      assert PercentEncoded(y) == Address(sha1, server, b, transform)[|server|..];
      PercentInjective(x, y);
      if transform.Sha1? {
        assert LowerHex(sha1(a)) == x[|SHA1_MARK|..] && LowerHex(sha1(b)) == y[|SHA1_MARK|..];
        LowerHexInjective(sha1(a), sha1(b));
      }
    }
  }

  /** The segments that vanish when an address is parsed: nothing, `.` and `..`
      (section 5.2.4 of RFC 3986). */
  predicate Vanishes(segment: Bytes) {
    segment == [] || segment == ['.'] || segment == ['.', '.']
  }

  lemma VanishingEncodes(raw: Bytes)
    ensures Vanishes(PercentEncoded(raw)) <==> Vanishes(raw)
  {
    if Vanishes(raw) {
      UnreservedEncodesToItself(raw);
    }
    if Vanishes(PercentEncoded(raw)) {
      UnreservedEncodesToItself(PercentEncoded(raw));
      PercentInjective(raw, PercentEncoded(raw));
    }
  }

  /** Whatever the identifier, its text adds a single path segment to the server
      address: no slash, question mark or fragment.  The segment stays when the
      address is parsed unless the identifier is empty, `.` or `..` and is not
      hashed. */
  lemma OneSegment(sha1: Digest, server: Bytes, entityId: Bytes, transform: Transform)
    ensures var segment := Address(sha1, server, entityId, transform)[|server|..];
            && server <= Address(sha1, server, entityId, transform)
            && '/' !in segment && '?' !in segment && '#' !in segment
            && (Vanishes(segment) <==> transform.UrlEncoded? && Vanishes(entityId))
  {
    var raw := RawId(sha1, entityId, transform);
    PercentEncodedAlphabet(raw);
    VanishingEncodes(raw);
    assert Address(sha1, server, entityId, transform)[|server|..] == PercentEncoded(raw);
    assert transform.Sha1? ==> |raw| >= |SHA1_MARK| == 6;
  }
}
