/** UTF-8 as RFC 3629 defines it: what the validity test of `ByteStrings`
    accepts is exactly the concatenations of encoded scalar values. */
module Scalars {
  import opened ByteStrings

  /** A code point that is not a surrogate. */
  type Scalar = v: int | 0 <= v < 0xD800 || 0xE000 <= v <= 0x10FFFF

  /** A continuation octet, with the six lowest bits of `n`. */
  function Low(n: nat): (c: Byte)
    ensures c as int == 0x80 + n % 64
  {
    (0x80 + n % 64) as char
  }

  predicate IsScalar(v: int) {
    0 <= v < 0xD800 || 0xE000 <= v <= 0x10FFFF
  }

  /** The octets of section 3 of RFC 3629. */
  function EncodeScalar(v: Scalar): (s: Bytes)
    ensures 1 <= |s| <= 4
  {
    if v < 0x80 then [v as char]
    else if v < 0x800 then [(0xC0 + v / 64) as char, Low(v)]
    else if v < 0x10000 then [(0xE0 + v / 4096) as char, Low(v / 64), Low(v)]
    else [(0xF0 + v / 262144) as char, Low(v / 4096), Low(v / 64), Low(v)]
  }

  function Utf8(vs: seq<Scalar>): Bytes {
    if vs == [] then [] else EncodeScalar(vs[0]) + Utf8(vs[1..])
  }

  lemma FrontOf(a: Bytes, b: Bytes)
    ensures (a + b)[..|a|] == a && (a + b)[|a|..] == b
  {
  }

  lemma TwoRead(a: Byte, b: Byte, rest: Bytes)
    requires Between(a, 0xC2, 0xDF) && Between(b, 0x80, 0xBF)
    ensures ScalarLength([a, b] + rest) == 2
  {
    var s := [a, b] + rest;
    assert s[0] == a && s[1] == b;
  }

  lemma ThreeRead(a: Byte, b: Byte, c: Byte, rest: Bytes)
    requires Between(a, 0xE0, 0xEF) && Between(b, 0x80, 0xBF) && Between(c, 0x80, 0xBF)
    requires (a as int == 0xE0 ==> Between(b, 0xA0, 0xBF)) && (a as int == 0xED ==> Between(b, 0x80, 0x9F))
    ensures ScalarLength([a, b, c] + rest) == 3
  {
    var s := [a, b, c] + rest;
    assert s[0] == a && s[1] == b && s[2] == c;
  }

  lemma FourRead(a: Byte, b: Byte, c: Byte, d: Byte, rest: Bytes)
    requires Between(a, 0xF0, 0xF4) && Between(b, 0x80, 0xBF) && Between(c, 0x80, 0xBF) && Between(d, 0x80, 0xBF)
    requires (a as int == 0xF0 ==> Between(b, 0x90, 0xBF)) && (a as int == 0xF4 ==> Between(b, 0x80, 0x8F))
    ensures ScalarLength([a, b, c, d] + rest) == 4
  {
    var s := [a, b, c, d] + rest;
    assert s[0] == a && s[1] == b && s[2] == c && s[3] == d;
  }

  /** An encoded scalar value is read as one, whatever follows. */
  lemma ScalarReads(v: Scalar, rest: Bytes)
    ensures ScalarLength(EncodeScalar(v) + rest) == |EncodeScalar(v)|
  {
    if v < 0x80 {
      assert (EncodeScalar(v) + rest)[0] == v as char;
    } else if v < 0x800 {
      TwoRead((0xC0 + v / 64) as char, Low(v), rest);
    } else if v < 0x10000 {
      ThreeRead((0xE0 + v / 4096) as char, Low(v / 64), Low(v), rest);
    } else {
      FourRead((0xF0 + v / 262144) as char, Low(v / 4096), Low(v / 64), Low(v), rest);
    }
  }

  /** The scalar value at the front of `s`. */
  function ScalarOf(s: Bytes): (v: int)
    requires ScalarLength(s) > 0
  {
    var n := ScalarLength(s);
    if n == 1 then s[0] as int
    else if n == 2 then Glued(s[0] as int - 0xC0, s[1])
    else if n == 3 then Glued(Glued(s[0] as int - 0xE0, s[1]), s[2])
    else Glued(Glued(Glued(s[0] as int - 0xF0, s[1]), s[2]), s[3])
  }

  function Glued(high: int, low: Byte): int {
    high * 64 + (low as int - 0x80)
  }

  lemma GlueLow(high: nat, low: Byte)
    requires Between(low, 0x80, 0xBF)
    ensures Glued(high, low) / 64 == high && Low(Glued(high, low)) == low
  {
  }

  /** What is read as one scalar value is the encoding of one. */
  lemma ScalarFound(s: Bytes)
    requires ScalarLength(s) > 0
    ensures IsScalar(ScalarOf(s)) && s[..ScalarLength(s)] == EncodeScalar(ScalarOf(s))
  {
    var n := ScalarLength(s);
    if n == 2 {
      GlueLow(s[0] as int - 0xC0, s[1]);
    } else if n == 3 {
      ThreeFound(s);
    } else if n == 4 {
      FourFound(s);
    }
  }

  lemma ThreeFound(s: Bytes)
    requires ScalarLength(s) == 3
    ensures IsScalar(ScalarOf(s)) && s[..3] == EncodeScalar(ScalarOf(s))
  {
    var a := s[0] as int - 0xE0;
    var b := Glued(a, s[1]);
    GlueLow(a, s[1]);
    GlueLow(b, s[2]);
    assert ScalarOf(s) / 4096 == a;
  }

  lemma FourFound(s: Bytes)
    requires ScalarLength(s) == 4
    ensures IsScalar(ScalarOf(s)) && s[..4] == EncodeScalar(ScalarOf(s))
  {
    var a := s[0] as int - 0xF0;
    var b := Glued(a, s[1]);
    var c := Glued(b, s[2]);
    GlueLow(a, s[1]);
    GlueLow(b, s[2]);
    GlueLow(c, s[3]);
    assert ScalarOf(s) / 4096 == b && ScalarOf(s) / 262144 == a;
  }

  lemma {:induction false} EncodedIsValid(vs: seq<Scalar>)
    ensures ValidUtf8(Utf8(vs))
  {
    if vs != [] {
      var e, rest := EncodeScalar(vs[0]), Utf8(vs[1..]);
      ScalarReads(vs[0], rest);
      FrontOf(e, rest);
      EncodedIsValid(vs[1..]);
    }
  }

  lemma Utf8Cons(v: Scalar, vs: seq<Scalar>)
    ensures Utf8([v] + vs) == EncodeScalar(v) + Utf8(vs)
  {
    assert ([v] + vs)[1..] == vs;
  }

  lemma ValidHead(s: Bytes) returns (v: Scalar, tail: Bytes)
    requires ValidUtf8(s) && s != []
    ensures s == EncodeScalar(v) + tail && ValidUtf8(tail)
  {
    var n := ScalarLength(s);
    ScalarFound(s);
    v, tail := ScalarOf(s), s[n..];
    assert s == s[..n] + s[n..];
  }

  lemma {:induction false} ValidIsEncoded(s: Bytes) returns (vs: seq<Scalar>)
    requires ValidUtf8(s)
    ensures s == Utf8(vs)
    decreases |s|
  {
    if s == [] {
      vs := [];
    } else {
      var v, tail := ValidHead(s);
      var rest := ValidIsEncoded(tail);
      vs := [v] + rest;
      Utf8Cons(v, rest);
    }
  }

  /** The validity test accepts exactly what RFC 3629 calls UTF-8. */
  lemma Utf8Exactly(s: Bytes)
    ensures ValidUtf8(s) <==> exists vs: seq<Scalar> :: s == Utf8(vs)
  {
    if ValidUtf8(s) {
      var vs := ValidIsEncoded(s);
    }
    forall vs: seq<Scalar> | s == Utf8(vs)
      ensures ValidUtf8(s)
    {
      EncodedIsValid(vs);
    }
  }
}
