/** Allowlists of signature and digest algorithms
    (crates/gamlastan/src/crypto/config.rs). */
module AlgorithmPolicy {
  import opened Wrappers

  // ---- String order, as `str` compares ----------------------------------------------

  predicate Less(a: string, b: string) {
    if a == "" then b != ""
    else b != "" && (a[0] < b[0] || (a[0] == b[0] && Less(a[1..], b[1..])))
  }

  lemma {:induction false} LessTotal(a: string, b: string)
    ensures Less(a, b) || a == b || Less(b, a)
    ensures !(Less(a, b) && Less(b, a)) && !Less(a, a)
  {
    if a != "" && b != "" && a[0] == b[0] {
      LessTotal(a[1..], b[1..]);
      assert a == [a[0]] + a[1..] && b == [b[0]] + b[1..];
    }
    if a != "" {
      LessTotal(a[1..], a[1..]);
    }
  }

  lemma {:induction false} LessTransitive(a: string, b: string, c: string)
    requires Less(a, b) && Less(b, c)
    ensures Less(a, c)
  {
    if a != "" && a[0] == b[0] == c[0] {
      LessTransitive(a[1..], b[1..], c[1..]);
    }
  }

  /** The order is that of dictionaries: one string begins the other, or has the
      smaller character where they first differ. */
  lemma {:induction false} LessExactly(a: string, b: string)
    ensures Less(a, b) <==> exists i :: DecidedAt(a, b, i)
  {
    forall i | DecidedAt(a, b, i)
      ensures b != "" && (a == "" || a[0] <= b[0])
    {
      DecidedFront(a, b, i);
    }
    if a != "" && b != "" && a[0] == b[0] {
      LessExactly(a[1..], b[1..]);
      if i :| DecidedAt(a[1..], b[1..], i) {
        assert a[..i + 1] == [a[0]] + a[1..][..i] && b[..i + 1] == [b[0]] + b[1..][..i];
        assert DecidedAt(a, b, i + 1);
      }
      forall i | DecidedAt(a, b, i)
        ensures DecidedAt(a[1..], b[1..], i - 1)
      {
        assert a[..i] == b[..i];
        assert a[1..][..i - 1] == a[..i][1..] && b[1..][..i - 1] == b[..i][1..];
      }
    } else if Less(a, b) {
      assert DecidedAt(a, b, 0);
    }
  }

  lemma DecidedFront(a: string, b: string, i: int)
    requires DecidedAt(a, b, i)
    ensures b != "" && (a == "" || a[0] <= b[0])
  {
    if i > 0 {
      assert a[..i][0] == a[0] && b[..i][0] == b[0];
    }
  }

  predicate DecidedAt(a: string, b: string, i: int) {
    0 <= i <= |a| && i < |b| && a[..i] == b[..i] && (i == |a| || a[i] < b[i])
  }

  // ---- Normal lists --------------------------------------------------------------------

  predicate Sorted(xs: seq<string>) {
    forall i, j :: 0 <= i < j < |xs| ==> !Less(xs[j], xs[i])
  }

  predicate Ascending(xs: seq<string>) {
    forall i, j :: 0 <= i < j < |xs| ==> Less(xs[i], xs[j])
  }

  function InsertSorted(x: string, xs: seq<string>): seq<string> {
    if xs == [] || !Less(xs[0], x) then [x] + xs else [xs[0]] + InsertSorted(x, xs[1..])
  }

  /** `sort_unstable`: equal strings are indistinguishable. */
  function Sort(xs: seq<string>): seq<string> {
    if xs == [] then [] else InsertSorted(xs[0], Sort(xs[1..]))
  }

  /** `dedup`: drops consecutive repeats. */
  function Dedup(xs: seq<string>): seq<string> {
    if |xs| < 2 then xs
    else
      var front, last := Dedup(xs[..|xs| - 1]), xs[|xs| - 1];
      if xs[|xs| - 2] == last then front else front + [last]
  }

  function Normalized(xs: seq<string>): seq<string> {
    Dedup(Sort(xs))
  }

  method NormalizedAlgorithms(input: seq<string>) returns (algorithms: seq<string>)
    ensures algorithms == Normalized(input)
  {
    var sorted := Sort(input);
    if |sorted| < 2 {
      return sorted;
    }
    algorithms := sorted[..1];
    for i := 1 to |sorted|
      invariant algorithms == Dedup(sorted[..i])
    {
      assert sorted[..i + 1][..i] == sorted[..i];
      if sorted[i] != sorted[i - 1] {
        algorithms := algorithms + [sorted[i]];
      }
    }
    assert sorted[..|sorted|] == sorted;
  }

  lemma {:induction false} InsertKeeps(x: string, xs: seq<string>)
    ensures multiset(InsertSorted(x, xs)) == multiset(xs) + multiset{x}
  {
    if xs != [] && Less(xs[0], x) {
      InsertKeeps(x, xs[1..]);
      assert xs == [xs[0]] + xs[1..];
    }
  }

  lemma {:induction false} InsertSorts(x: string, xs: seq<string>)
    requires Sorted(xs)
    ensures Sorted(InsertSorted(x, xs))
  {
    var r := InsertSorted(x, xs);
    if xs == [] {
    } else if !Less(xs[0], x) {
      forall j | 0 <= j < |xs|
        ensures !Less(xs[j], x)
      {
        LessTotal(xs[j], xs[0]);
        LessTotal(x, xs[0]);
        if Less(xs[j], x) && j > 0 && xs[j] != xs[0] && x != xs[0] {
          LessTransitive(xs[j], x, xs[0]);
        }
      }
    } else {
      InsertSorts(x, xs[1..]);
      InsertKeeps(x, xs[1..]);
      LessTotal(x, xs[0]);
      forall j | 0 < j < |r|
        ensures !Less(r[j], xs[0])
      {
        assert r[j] in multiset(InsertSorted(x, xs[1..]));
        if r[j] != x {
          assert r[j] in xs[1..];
        }
      }
    }
  }

  lemma {:induction false} SortSorts(xs: seq<string>)
    ensures Sorted(Sort(xs)) && multiset(Sort(xs)) == multiset(xs)
  {
    if xs != [] {
      SortSorts(xs[1..]);
      InsertSorts(xs[0], Sort(xs[1..]));
      InsertKeeps(xs[0], Sort(xs[1..]));
      assert xs == [xs[0]] + xs[1..];
    }
  }

  lemma {:induction false} DedupAscends(xs: seq<string>)
    requires Sorted(xs)
    ensures Ascending(Dedup(xs)) && (forall x :: x in Dedup(xs) <==> x in xs)
    ensures xs != [] ==> Dedup(xs) != [] && Dedup(xs)[|Dedup(xs)| - 1] == xs[|xs| - 1]
  {
    if |xs| >= 2 {
      var rest, last := xs[..|xs| - 1], xs[|xs| - 1];
      DedupAscends(rest);
      assert xs == rest + [last];
      var front := Dedup(rest);
      if rest[|rest| - 1] != last {
        forall i | 0 <= i < |front|
          ensures Less(front[i], last)
        {
          LessTotal(rest[|rest| - 1], last);
          if i < |front| - 1 {
            LessTransitive(front[i], front[|front| - 1], last);
          }
        }
      }
    }
  }

  /** A normalized list is strictly ascending and holds what went in. */
  lemma NormalizedMeaning(xs: seq<string>)
    ensures Ascending(Normalized(xs)) && forall x :: x in Normalized(xs) <==> x in xs
  {
    SortSorts(xs);
    DedupAscends(Sort(xs));
    forall x
      ensures x in Sort(xs) <==> x in xs
    {
      assert x in multiset(Sort(xs)) <==> x in multiset(xs);
    }
  }

  /** Strictly ascending lists with the same elements are the same list. */
  lemma {:induction false} AscendingIsCanonical(xs: seq<string>, ys: seq<string>)
    requires Ascending(xs) && Ascending(ys) && forall x :: x in xs <==> x in ys
    ensures xs == ys
    decreases |xs|
  {
    if xs == [] || ys == [] {
      NonEmptyHas(xs);
      NonEmptyHas(ys);
    } else {
      SameHead(xs, ys);
      TailElements(xs);
      TailElements(ys);
      AscendingIsCanonical(xs[1..], ys[1..]);
      assert xs == [xs[0]] + xs[1..] && ys == [ys[0]] + ys[1..];
    }
  }

  lemma NonEmptyHas(xs: seq<string>)
    ensures xs != [] ==> exists x :: x in xs
  {
    if xs != [] {
      assert xs[0] in xs;
    }
  }

  lemma SameHead(xs: seq<string>, ys: seq<string>)
    requires Ascending(xs) && Ascending(ys) && xs != [] && ys != [] && forall x :: x in xs <==> x in ys
    ensures xs[0] == ys[0]
  {
    assert xs[0] in ys && ys[0] in xs;
    var i :| 0 <= i < |ys| && ys[i] == xs[0];
    var j :| 0 <= j < |xs| && xs[j] == ys[0];
    LessTotal(xs[0], ys[0]);
  }

  lemma TailElements(xs: seq<string>)
    requires Ascending(xs) && xs != []
    ensures forall x :: x in xs[1..] <==> x in xs && x != xs[0]
  {
    LessTotal(xs[0], xs[0]);
    assert xs == [xs[0]] + xs[1..];
  }

  // ---- Policies ------------------------------------------------------------------------

  /** `None` accepts everything; an empty list accepts nothing. */
  datatype Policy = Policy(signatures: Option<seq<string>>, digests: Option<seq<string>>)
  {
    predicate AllowsSignature(uri: string) {
      signatures.None? || uri in signatures.value
    }

    predicate AllowsDigest(uri: string) {
      digests.None? || uri in digests.value
    }

    predicate IsPermissive() {
      signatures.None? && digests.None?
    }
  }

  datatype Builder =
    | Permissive
    | AllowOnly(signatures: seq<string>, digests: seq<string>)
    | WithSignatures(base: Builder, algorithms: seq<string>)
    | WithDigests(base: Builder, algorithms: seq<string>)

  /** The policy any chain of constructors and replacements builds. */
  function Build(b: Builder): Policy {
    match b
    case Permissive => Policy(None, None)
    case AllowOnly(s, d) => Policy(Some(Normalized(s)), Some(Normalized(d)))
    case WithSignatures(base, xs) => Build(base).(signatures := Some(Normalized(xs)))
    case WithDigests(base, xs) => Build(base).(digests := Some(Normalized(xs)))
  }

  predicate Normal(list: Option<seq<string>>) {
    list.Some? ==> Ascending(list.value)
  }

  lemma {:induction false} BuiltIsNormal(b: Builder)
    ensures Normal(Build(b).signatures) && Normal(Build(b).digests)
  {
    match b
    case Permissive =>
    case AllowOnly(s, d) =>
      NormalizedMeaning(s);
      NormalizedMeaning(d);
    case WithSignatures(base, xs) =>
      BuiltIsNormal(base);
      NormalizedMeaning(xs);
    case WithDigests(base, xs) =>
      BuiltIsNormal(base);
      NormalizedMeaning(xs);
  }

  /** What a built policy accepts: of each kind the members of the list given
      last for that kind, or everything if none was given. */
  lemma BuiltAccepts(b: Builder, s: seq<string>, d: seq<string>, uri: string)
    ensures Build(Permissive).AllowsSignature(uri) && Build(Permissive).AllowsDigest(uri)
    ensures Build(AllowOnly(s, d)).AllowsSignature(uri) <==> uri in s
    ensures Build(AllowOnly(s, d)).AllowsDigest(uri) <==> uri in d
    ensures Build(WithSignatures(b, s)).AllowsSignature(uri) <==> uri in s
    ensures Build(WithSignatures(b, s)).AllowsDigest(uri) <==> Build(b).AllowsDigest(uri)
    ensures Build(WithDigests(b, d)).AllowsDigest(uri) <==> uri in d
    ensures Build(WithDigests(b, d)).AllowsSignature(uri) <==> Build(b).AllowsSignature(uri)
  {
    NormalizedMeaning(s);
    NormalizedMeaning(d);
  }

  /** Some string is longer than every string of a list. */
  function Longer(xs: seq<string>): (s: string)
    ensures forall x :: x in xs ==> |x| < |s|
  {
    if xs == [] then "x"
    else
      var s := Longer(xs[1..]);
      assert xs == [xs[0]] + xs[1..];
      if |xs[0]| < |s| then s else xs[0] + "x"
  }

  predicate Accepts(list: Option<seq<string>>, uri: string) {
    list.None? || uri in list.value
  }

  /** Two normal lists accept the same strings only if they are equal. */
  lemma SameAcceptanceSameList(a: Option<seq<string>>, b: Option<seq<string>>)
    requires Normal(a) && Normal(b) && forall uri :: Accepts(a, uri) <==> Accepts(b, uri)
    ensures a == b
  {
    if a.Some? && b.Some? {
      forall x
        ensures x in a.value <==> x in b.value
      {
        assert Accepts(a, x) <==> Accepts(b, x);
      }
      AscendingIsCanonical(a.value, b.value);
    } else if a.Some? {
      assert Accepts(b, Longer(a.value));
    } else if b.Some? {
      assert Accepts(a, Longer(b.value));
    }
  }

  /** Policies built by any chains of builders are equal exactly when they
      accept the same signature and the same digest algorithms. */
  lemma EqualExactlyWhenSame(a: Builder, b: Builder)
    ensures Build(a) == Build(b) <==>
            (forall uri :: Build(a).AllowsSignature(uri) <==> Build(b).AllowsSignature(uri))
            && (forall uri :: Build(a).AllowsDigest(uri) <==> Build(b).AllowsDigest(uri))
  {
    var p, q := Build(a), Build(b);
    BuiltIsNormal(a);
    BuiltIsNormal(b);
    if (forall uri :: p.AllowsSignature(uri) <==> q.AllowsSignature(uri))
       && (forall uri :: p.AllowsDigest(uri) <==> q.AllowsDigest(uri)) {
      forall uri
        ensures Accepts(p.signatures, uri) <==> Accepts(q.signatures, uri)
        ensures Accepts(p.digests, uri) <==> Accepts(q.digests, uri)
      {
        assert p.AllowsSignature(uri) <==> q.AllowsSignature(uri);
        assert p.AllowsDigest(uri) <==> q.AllowsDigest(uri);
      }
      SameAcceptanceSameList(p.signatures, q.signatures);
      SameAcceptanceSameList(p.digests, q.digests);
    }
  }
}
