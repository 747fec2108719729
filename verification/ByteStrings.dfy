/** Text as the source holds it: a Rust string is a sequence of bytes that is
    valid UTF-8.  A byte is written as the character of the same code, so an
    ASCII literal reads as itself. */
module ByteStrings {
  type Byte = c: char | c < 256 as char
  type Bytes = seq<Byte>

  /** Position of the first `d` in `s`, or `|s|`. */
  function IndexOf(s: Bytes, d: Byte): (i: nat)
    ensures i <= |s|
    ensures i < |s| ==> s[i] == d
    ensures forall k :: 0 <= k < i ==> s[k] != d
  {
    if s == [] || s[0] == d then 0 else 1 + IndexOf(s[1..], d)
  }

  /** The position is the only one with `d` in it and none before it. */
  lemma IndexOfUnique(s: Bytes, d: Byte, i: nat)
    requires i <= |s| && forall k :: 0 <= k < i ==> s[k] != d
    requires i < |s| ==> s[i] == d
    ensures IndexOf(s, d) == i
  {
    var j := IndexOf(s, d);
  }

  lemma IndexOfConcat(a: Bytes, b: Bytes, d: Byte)
    ensures d in a ==> IndexOf(a + b, d) == IndexOf(a, d) < |a|
    ensures d !in a ==> IndexOf(a + b, d) == |a| + IndexOf(b, d)
  {
    var s := a + b;
    if d in a {
      IndexOfUnique(s, d, IndexOf(a, d));
    } else {
      var i := |a| + IndexOf(b, d);
      forall k | 0 <= k < i
        ensures s[k] != d
      {
        assert k < |a| ==> s[k] == a[k] && a[k] in a;
      }
      IndexOfUnique(s, d, i);
    }
  }

  /** `str::split` on one separator byte. */
  function Split(s: Bytes, d: Byte): (parts: seq<Bytes>)
    decreases |s|
  {
    var i := IndexOf(s, d);
    if i == |s| then [s] else [s[..i]] + Split(s[i + 1..], d)
  }

  lemma {:induction false} SplitConcat(a: Bytes, b: Bytes, d: Byte)
    ensures Split(a + [d] + b, d) == Split(a, d) + Split(b, d)
    decreases |a|
  {
    var s := a + [d] + b;
    var i := IndexOf(a, d);
    if i == |a| {
      assert s[..i] == a == a[..i] && s[i + 1..] == b;
      IndexOfUnique(s, d, i);
    } else {
      assert s[..i] == a[..i];
      IndexOfUnique(s, d, i);
      assert s[i + 1..] == a[i + 1..] + [d] + b;
      SplitConcat(a[i + 1..], b, d);
      assert Split(s, d) == [a[..i]] + (Split(a[i + 1..], d) + Split(b, d));
    }
  }

  /** `slice::join` with one separator byte. */
  function Join(parts: seq<Bytes>, d: Byte): Bytes
  {
    if parts == [] then []
    else if |parts| == 1 then parts[0]
    else parts[0] + [d] + Join(parts[1..], d)
  }

  /** Splitting undoes joining: the pieces are what stands between separators. */
  lemma {:induction false} SplitJoin(parts: seq<Bytes>, d: Byte)
    requires parts != [] && forall p :: p in parts ==> d !in p
    ensures Split(Join(parts, d), d) == parts
  {
    assert parts[0] in parts;
    if |parts| == 1 {
      IndexOfUnique(parts[0], d, |parts[0]|);
    } else {
      var rest := Join(parts[1..], d);
      SplitJoin(parts[1..], d);
      SplitConcat(parts[0], rest, d);
      IndexOfUnique(parts[0], d, |parts[0]|);
      assert parts == [parts[0]] + parts[1..];
    }
  }

  /** Every text is the join of its pieces. */
  lemma {:induction false} JoinSplit(s: Bytes, d: Byte)
    ensures Split(s, d) != [] && Join(Split(s, d), d) == s
    ensures forall p :: p in Split(s, d) ==> d !in p
    decreases |s|
  {
    var i := IndexOf(s, d);
    if i < |s| {
      var rest := Split(s[i + 1..], d);
      JoinSplit(s[i + 1..], d);
      assert Split(s, d)[1..] == rest;
      assert s == s[..i] + [d] + s[i + 1..];
    }
  }

  /** `iter().filter(p).collect()`, keeping the order. */
  function Filter<T(!new)>(xs: seq<T>, p: T -> bool): (r: seq<T>)
    ensures forall x :: x in r <==> x in xs && p(x)
  {
    if xs == [] then []
    else (if p(xs[0]) then [xs[0]] else []) + Filter(xs[1..], p)
  }

  lemma {:induction false} FilterConcat<T(!new)>(xs: seq<T>, ys: seq<T>, p: T -> bool)
    ensures Filter(xs + ys, p) == Filter(xs, p) + Filter(ys, p)
  {
    if xs == [] {
      assert xs + ys == ys;
    } else {
      assert (xs + ys)[1..] == xs[1..] + ys;
      FilterConcat(xs[1..], ys, p);
    }
  }

  lemma {:induction false} FilterAll<T(!new)>(xs: seq<T>, p: T -> bool)
    requires forall x :: x in xs ==> p(x)
    ensures Filter(xs, p) == xs
  {
    if xs != [] {
      FilterAll(xs[1..], p);
    }
  }

  lemma {:induction false} FilterNone<T(!new)>(xs: seq<T>, p: T -> bool)
    requires forall x :: x in xs ==> !p(x)
    ensures Filter(xs, p) == []
  {
    if xs != [] {
      FilterNone(xs[1..], p);
    }
  }

  /** Filtering keeps every occurrence of what it keeps. */
  lemma {:induction false} FilterCount<T(!new)>(xs: seq<T>, p: T -> bool, x: T)
    ensures multiset(Filter(xs, p))[x] == if p(x) then multiset(xs)[x] else 0
  {
    if xs != [] {
      FilterCount(xs[1..], p, x);
      assert xs == [xs[0]] + xs[1..];
    }
  }

  // ---- UTF-8 (RFC 3629) -------------------------------------------------

  predicate Between(c: Byte, lo: int, hi: int) {
    lo <= c as int <= hi
  }

  predicate Continuation(s: Bytes, i: nat) {
    i < |s| && Between(s[i], 0x80, 0xBF)
  }

  /** Length of the well-formed scalar value at the front of `s`, or 0. */
  function ScalarLength(s: Bytes): (n: nat)
    ensures n <= |s|
  {
    if s == [] then 0
    else if Between(s[0], 0, 0x7F) then 1
    else if |s| < 2 then 0
    else if Between(s[0], 0xC2, 0xDF) then
      if Continuation(s, 1) then 2 else 0
    else if Between(s[0], 0xE0, 0xEF) then
      if Continuation(s, 1) && Continuation(s, 2)
         && (s[0] as int == 0xE0 ==> Between(s[1], 0xA0, 0xBF))
         && (s[0] as int == 0xED ==> Between(s[1], 0x80, 0x9F))
      then 3 else 0
    else if Between(s[0], 0xF0, 0xF4) then
      if Continuation(s, 1) && Continuation(s, 2) && Continuation(s, 3)
         && (s[0] as int == 0xF0 ==> Between(s[1], 0x90, 0xBF))
         && (s[0] as int == 0xF4 ==> Between(s[1], 0x80, 0x8F))
      then 4 else 0
    else 0
  }

  /** `String::from_utf8` succeeds. */
  predicate ValidUtf8(s: Bytes)
    decreases |s|
  {
    s == [] || (ScalarLength(s) > 0 && ValidUtf8(s[ScalarLength(s)..]))
  }

  predicate Ascii(s: Bytes) {
    forall c :: c in s ==> c < 128 as char
  }

  lemma {:induction false} AsciiIsUtf8(s: Bytes)
    requires Ascii(s)
    ensures ValidUtf8(s)
    decreases |s|
  {
    if s != [] {
      assert s[0] in s;
      forall c | c in s[1..]
        ensures c < 128 as char
      {
        assert c in s;
      }
      AsciiIsUtf8(s[1..]);
    }
  }

  lemma {:induction false} Utf8Concat(a: Bytes, b: Bytes)
    requires ValidUtf8(a) && ValidUtf8(b)
    ensures ValidUtf8(a + b)
    decreases |a|
  {
    if a == [] {
      assert a + b == b;
    } else {
      var n := ScalarLength(a);
      assert ScalarLength(a + b) == n;
      assert (a + b)[n..] == a[n..] + b;
      Utf8Concat(a[n..], b);
    }
  }
}
