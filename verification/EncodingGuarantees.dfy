/** What the coders of crates/gamlastan/src/bindings/encoding.rs mean, against
    the literal tables of RFC 3986 and RFC 4648. */
module EncodingGuarantees {
  import opened Wrappers
  import opened ByteStrings
  import opened BindingErrors
  import opened Encoding
  import opened Scalars

  const UPPER_DIGITS: Bytes := "0123456789ABCDEF"
  const LOWER_DIGITS: Bytes := "0123456789abcdef"
  const UPPER_LETTERS: Bytes := "ABCDEFGHIJKLMNOPQRSTUVWXYZ"
  const LOWER_LETTERS: Bytes := "abcdefghijklmnopqrstuvwxyz"
  const OTHER_UNRESERVED: Bytes := "0123456789-._~"
  const OTHER_BASE64: Bytes := "0123456789+/"

  // ---- Percent-coding ---------------------------------------------------

  /** `c` is a spelling of the hexadecimal digit `n`. */
  predicate Spells(c: Byte, n: int) {
    0 <= n < 16 && (c == UPPER_DIGITS[n] || c == LOWER_DIGITS[n])
  }

  predicate IsHexDigit(c: Byte) {
    c in UPPER_DIGITS || c in LOWER_DIGITS
  }

  lemma HexValueExactly(c: Byte, n: int)
    ensures HexValue(c) == Some(n) <==> Spells(c, n)
  {
  }

  lemma HexDigitExactly(c: Byte)
    ensures HexValue(c).Some? <==> IsHexDigit(c)
  {
    if HexValue(c).Some? {
      HexValueExactly(c, HexValue(c).value);
    } else if c in UPPER_DIGITS {
      var n :| 0 <= n < 16 && UPPER_DIGITS[n] == c;
      HexValueExactly(c, n);
    } else if c in LOWER_DIGITS {
      var n :| 0 <= n < 16 && LOWER_DIGITS[n] == c;
      HexValueExactly(c, n);
    }
  }

  /** An escape stands for the byte its two digits spell, in either case. */
  lemma EscapeReads(i: int, j: int, a: Byte, b: Byte, rest: Bytes)
    requires Spells(a, i) && Spells(b, j)
    ensures DecodedBytes(['%', a, b] + rest) == Prepend([(16 * i + j) as char], DecodedBytes(rest))
  {
    HexValueExactly(a, i);
    HexValueExactly(b, j);
    assert (['%', a, b] + rest)[3..] == rest;
  }

  /** Any other byte stands for itself, the plus sign for a space. */
  lemma ByteReads(c: Byte, rest: Bytes)
    requires c != '%'
    ensures c == '+' ==> DecodedBytes([c] + rest) == Prepend([' '], DecodedBytes(rest))
    ensures c != '+' ==> DecodedBytes([c] + rest) == Prepend([c], DecodedBytes(rest))
  {
    assert ([c] + rest)[1..] == rest;
  }

  /** Two hexadecimal digits follow position `k`. */
  predicate EscapeAt(s: Bytes, k: nat) {
    k + 2 < |s| && IsHexDigit(s[k + 1]) && IsHexDigit(s[k + 2])
  }

  predicate WellEscaped(s: Bytes) {
    forall k :: 0 <= k < |s| && s[k] == '%' ==> EscapeAt(s, k)
  }

  /** Cutting off a front that no escape reaches over. */
  lemma EscapesBehind(s: Bytes, n: nat)
    requires n <= |s|
    ensures WellEscaped(s) ==> WellEscaped(s[n..])
    ensures WellEscaped(s[n..]) && (forall k :: 0 <= k < n && s[k] == '%' ==> EscapeAt(s, k)) ==> WellEscaped(s)
  {
    var t := s[n..];
    if WellEscaped(s) {
      forall k | 0 <= k < |t| && t[k] == '%'
        ensures EscapeAt(t, k)
      {
        assert s[n + k] == '%';
        assert EscapeAt(s, n + k);
      }
    }
    if WellEscaped(t) && forall k :: 0 <= k < n && s[k] == '%' ==> EscapeAt(s, k) {
      forall k | 0 <= k < |s| && s[k] == '%'
        ensures EscapeAt(s, k)
      {
        if k >= n {
          assert t[k - n] == '%';
          assert EscapeAt(t, k - n);
        }
      }
    }
  }

  /** Decoding gets through exactly when two hexadecimal digits follow every
      percent sign. */
  lemma {:induction false} DecodesExactly(s: Bytes)
    ensures DecodedBytes(s).Ok? <==> WellEscaped(s)
    decreases |s|
  {
    if s == [] {
    } else if s[0] != '%' {
      DecodesExactly(s[1..]);
      EscapesBehind(s, 1);
    } else {
      EscapeDecides(s);
      if |s| >= 3 {
        DecodesExactly(s[3..]);
        EscapesBehind(s, 3);
        if EscapeAt(s, 0) {
          OnlyFirst(s);
        }
      }
    }
  }

  lemma EscapeDecides(s: Bytes)
    requires s != [] && s[0] == '%'
    ensures DecodedBytes(s).Ok? <==> EscapeAt(s, 0) && DecodedBytes(s[3..]).Ok?
    ensures WellEscaped(s) ==> EscapeAt(s, 0)
  {
    if |s| >= 3 {
      HexDigitExactly(s[1]);
      HexDigitExactly(s[2]);
    }
  }

  /** The digits of an escape are no percent signs. */
  lemma OnlyFirst(s: Bytes)
    requires |s| >= 3 && s[0] == '%' && EscapeAt(s, 0)
    ensures forall k :: 0 <= k < 3 && s[k] == '%' ==> EscapeAt(s, k)
  {
    assert s[1] != '%' && s[2] != '%';
  }

  /** The first percent sign without its digits decides the error. */
  lemma {:induction false} DecodeErrorExactly(s: Bytes, k: nat)
    requires k < |s| && s[k] == '%' && !EscapeAt(s, k)
    requires forall i :: 0 <= i < k && s[i] == '%' ==> EscapeAt(s, i)
    ensures DecodedBytes(s) == Err(UrlDecodeError(if k + 2 < |s| then BadHexDigit else IncompleteEscape))
    decreases |s|
  {
    if s[0] != '%' {
      BadBehind(s, k, 1);
      DecodeErrorExactly(s[1..], k - 1);
    } else if |s| >= 3 {
      HexDigitExactly(s[1]);
      HexDigitExactly(s[2]);
      if k > 0 {
        BadBehind(s, k, 3);
        DecodeErrorExactly(s[3..], k - 3);
      }
    }
  }

  lemma BadBehind(s: Bytes, k: nat, n: nat)
    requires k < |s| && s[k] == '%' && !EscapeAt(s, k)
    requires forall i :: 0 <= i < k && s[i] == '%' ==> EscapeAt(s, i)
    requires k > 0 && n == (if s[0] == '%' then 3 else 1)
    ensures n <= k && !EscapeAt(s[n..], k - n)
    ensures forall i :: 0 <= i < k - n && s[n..][i] == '%' ==> EscapeAt(s[n..], i)
  {
    var t := s[n..];
    assert s[0] == '%' ==> EscapeAt(s, 0);
    forall i | 0 <= i < k - n && t[i] == '%'
      ensures EscapeAt(t, i)
    {
      assert s[n + i] == '%';
      assert EscapeAt(s, n + i);
    }
  }

  /** The strict decoder accepts exactly the well escaped texts that stand for
      UTF-8. */
  lemma PercentDecodesExactly(s: Bytes)
    ensures DecodedBytes(s).Ok? <==> WellEscaped(s)
    ensures PercentDecoded(s).Ok? <==> WellEscaped(s) && ValidUtf8(DecodedBytes(s).value)
    ensures PercentDecoded(s).Ok? ==> PercentDecoded(s).value == DecodedBytes(s).value
    ensures PercentDecoded(s) == Err(UrlDecodeError(NotUtf8)) <==> WellEscaped(s) && !ValidUtf8(DecodedBytes(s).value)
  {
    DecodesExactly(s);
    if !WellEscaped(s) {
      var k :| 0 <= k < |s| && s[k] == '%' && !EscapeAt(s, k);
      var first := FirstBad(s, k);
      DecodeErrorExactly(s, first);
    }
  }

  lemma {:induction false} FirstBad(s: Bytes, k: nat) returns (first: nat)
    requires k < |s| && s[k] == '%' && !EscapeAt(s, k)
    ensures first <= k && s[first] == '%' && !EscapeAt(s, first)
    ensures forall i :: 0 <= i < first && s[i] == '%' ==> EscapeAt(s, i)
  {
    if i :| 0 <= i < k && s[i] == '%' && !EscapeAt(s, i) {
      first := FirstBad(s, i);
    } else {
      first := k;
    }
  }

  /** The encoder leaves exactly the unreserved characters of section 2.3 of
      RFC 3986 alone and writes the others in upper-case digits. */
  lemma EncodeByteExactly(c: Byte)
    ensures c in UPPER_LETTERS || c in LOWER_LETTERS || c in OTHER_UNRESERVED ==> EncodeByte(c) == [c]
    ensures !(c in UPPER_LETTERS || c in LOWER_LETTERS || c in OTHER_UNRESERVED) ==>
              EncodeByte(c) == ['%', UPPER_DIGITS[c as int / 16], UPPER_DIGITS[c as int % 16]]
  {
    UnreservedExactly(c);
    assert forall n :: 0 <= n < 16 ==> HexUpper(n) == UPPER_DIGITS[n];
  }

  lemma UnreservedExactly(c: Byte)
    ensures Unreserved(c) <==> c in UPPER_LETTERS || c in LOWER_LETTERS || c in OTHER_UNRESERVED
  {
    LettersExactly(c, UPPER_LETTERS, 'A');
    LettersExactly(c, LOWER_LETTERS, 'a');
  }

  lemma LettersExactly(c: Byte, letters: Bytes, first: Byte)
    requires |letters| == 26 && forall k :: 0 <= k < 26 ==> letters[k] as int == first as int + k
    ensures c in letters <==> first as int <= c as int < first as int + 26
  {
    var k := c as int - first as int;
    if 0 <= k < 26 {
      assert letters[k] == c;
    }
  }

  // ---- Base64 -----------------------------------------------------------

  /** The alphabet of table 1 of RFC 4648. */
  lemma Base64CharExactly(n: Sextet)
    ensures n < 26 ==> Base64Char(n) == UPPER_LETTERS[n]
    ensures 26 <= n < 52 ==> Base64Char(n) == LOWER_LETTERS[n - 26]
    ensures n >= 52 ==> Base64Char(n) == OTHER_BASE64[n - 52]
  {
  }

  lemma Base64ValueExactly(c: Byte, n: Sextet)
    ensures Base64Value(c) == Some(n) <==> c == Base64Char(n)
  {
    SextetRoundTrip(n);
    CharOfValue(c);
  }

  /** A full group writes the 24 bits of three bytes as four six-bit digits;
      a short last group pads them with zero bits and `=` (section 4 of
      RFC 4648). */
  lemma GroupExactly(x: Byte, y: Byte, z: Byte, p: Sextet, q: Sextet, r: Sextet, t: Sextet)
    requires x as int * 65536 + y as int * 256 + z as int == p * 262144 + q * 4096 + r * 64 + t
    ensures EncodeGroup([x, y, z]) == [Base64Char(p), Base64Char(q), Base64Char(r), Base64Char(t)]
    ensures z as int == 0 ==> EncodeGroup([x, y]) == [Base64Char(p), Base64Char(q), Base64Char(r), '=']
    ensures y as int == 0 && z as int == 0 ==> EncodeGroup([x]) == [Base64Char(p), Base64Char(q), '=', '=']
  {
    DigitsUnique(x as int, y as int, z as int, p, q, r, t);
    assert Sextets(x, y, z) == (p, q, r, t);
  }

  lemma DigitsUnique(x: int, y: int, z: int, p: Sextet, q: Sextet, r: Sextet, t: Sextet)
    requires 0 <= x < 256 && 0 <= y < 256 && 0 <= z < 256
    requires x * 65536 + y * 256 + z == p * 262144 + q * 4096 + r * 64 + t
    ensures p == x / 4 && q == x % 4 * 16 + y / 16 && r == y % 16 * 4 + z / 64 && t == z % 64
  {
  }

  // ---- Whitespace -------------------------------------------------------

  /** The code points with the Unicode property White_Space. */
  predicate IsWhite(v: int) {
    || 0x09 <= v <= 0x0D || v == 0x20 || v == 0x85 || v == 0xA0 || v == 0x1680
    || 0x2000 <= v <= 0x200A || v == 0x2028 || v == 0x2029 || v == 0x202F || v == 0x205F || v == 0x3000
  }

  function Solid(vs: seq<Scalar>): seq<Scalar> {
    if vs == [] then [] else (if IsWhite(vs[0]) then [] else [vs[0]]) + Solid(vs[1..])
  }

  lemma WhitespaceExactly(v: Scalar, rest: Bytes)
    ensures WhitespaceLength(EncodeScalar(v) + rest) == if IsWhite(v) then |EncodeScalar(v)| else 0
  {
    var e := EncodeScalar(v);
    var s := e + rest;
    assert forall k :: 0 <= k < |e| ==> s[k] == e[k];
  }

  lemma KeepFirst(s: Bytes)
    requires s != [] && WhitespaceLength(s) == 0
    ensures StripWhitespace(s) == [s[0]] + StripWhitespace(s[1..])
  {
  }

  lemma SkipFirst(s: Bytes, n: nat)
    requires WhitespaceLength(s) == n > 0
    ensures StripWhitespace(s) == StripWhitespace(s[n..])
  {
  }

  lemma TailOf(e: Bytes, rest: Bytes, s: Bytes)
    requires e != [] && s == e + rest
    ensures s != [] && s[0] == e[0] && s[1..] == e[1..] + rest
  {
  }

  lemma LowIsSolid(s: Bytes)
    requires s != [] && Between(s[0], 0x80, 0xBF)
    ensures WhitespaceLength(s) == 0
  {
  }

  /** A continuation octet starts no whitespace. */
  lemma {:induction false} LowOctetsStay(e: Bytes, rest: Bytes, s: Bytes)
    requires s == e + rest && forall c :: c in e ==> Between(c, 0x80, 0xBF)
    ensures StripWhitespace(s) == e + StripWhitespace(rest)
    decreases |e|
  {
    if e == [] {
      assert s == rest && [] + StripWhitespace(rest) == StripWhitespace(rest);
    } else {
      assert e[0] in e;
      TailOf(e, rest, s);
      LowIsSolid(s);
      KeepFirst(s);
      LowOctetsStay(e[1..], rest, s[1..]);
      Regrouped(e, StripWhitespace(rest));
    }
  }

  lemma LowOctets(v: Scalar)
    ensures forall c :: c in EncodeScalar(v)[1..] ==> Between(c, 0x80, 0xBF)
  {
  }

  lemma StripScalar(v: Scalar, rest: Bytes)
    ensures StripWhitespace(EncodeScalar(v) + rest) == (if IsWhite(v) then [] else EncodeScalar(v)) + StripWhitespace(rest)
  {
    LowOctets(v);
    WhitespaceExactly(v, rest);
    StripFront(EncodeScalar(v), rest, EncodeScalar(v) + rest);
  }

  lemma StripFront(e: Bytes, rest: Bytes, s: Bytes)
    requires e != [] && s == e + rest && forall c :: c in e[1..] ==> Between(c, 0x80, 0xBF)
    requires WhitespaceLength(s) == |e| || WhitespaceLength(s) == 0
    ensures StripWhitespace(s) == (if WhitespaceLength(s) == |e| then [] else e) + StripWhitespace(rest)
  {
    if WhitespaceLength(s) == 0 {
      KeepFirst(s);
      TailOf(e, rest, s);
      LowOctetsStay(e[1..], rest, s[1..]);
      Regrouped(e, StripWhitespace(rest));
    } else {
      SkipFirst(s, |e|);
      FrontOf(e, rest);
      assert [] + StripWhitespace(rest) == StripWhitespace(rest);
    }
  }

  lemma Regrouped(e: Bytes, more: Bytes)
    requires e != []
    ensures [e[0]] + (e[1..] + more) == e + more
  {
  }

  /** Of a string, exactly the whitespace goes, wherever it stands. */
  lemma {:induction false} StripExactly(vs: seq<Scalar>)
    ensures StripWhitespace(Utf8(vs)) == Utf8(Solid(vs))
  {
    if vs != [] {
      StripScalar(vs[0], Utf8(vs[1..]));
      StripExactly(vs[1..]);
      var kept := Solid(vs[1..]);
      if IsWhite(vs[0]) {
        assert Solid(vs) == kept;
      } else {
        assert Solid(vs) == [vs[0]] + kept && Solid(vs)[1..] == kept;
      }
    }
  }

  /** The decoder accepts exactly canonical base64 with whitespace anywhere in
      it. */
  lemma Base64DecodesExactly(vs: seq<Scalar>, b: Bytes)
    ensures Base64Decode(Utf8(vs)) == Ok(b) <==> Utf8(Solid(vs)) == Base64Encode(b)
  {
    StripExactly(vs);
    StrictDecodeIsInverse(Utf8(Solid(vs)), b);
  }
}
