/** Choosing authentication methods for a request
    (crates/gamlastan/src/idp/authn_broker.rs; section 3.3.2.2.1 of SAML V2.0
    Core). */
module AuthnBroker {
  import opened Wrappers
  import opened Decimals

  datatype AuthnMethod = AuthnMethod(
    classRef: string, handler: string, level: nat, authority: Option<string>, reference: string)

  datatype Comparison = Exact | Minimum | Maximum | Better

  datatype Requested = Requested(classRefs: seq<string>, declRefs: seq<string>, comparison: Comparison)

  const UNSPECIFIED := "urn:oasis:names:tc:SAML:2.0:ac:classes:unspecified"

  type Methods = seq<AuthnMethod>

  predicate Satisfies(comparison: Comparison, base: nat, level: nat) {
    match comparison
    case Exact => level == base
    case Minimum => level >= base
    case Maximum => level <= base
    case Better => level > base
  }

  // ---- The meaning of a selection -------------------------------------------------

  function OfClass(methods: Methods, classRef: string): Methods {
    if methods == [] then []
    else
      var last := methods[|methods| - 1];
      OfClass(methods[..|methods| - 1], classRef) + if last.classRef == classRef then [last] else []
  }

  predicate Highest(methods: Methods, level: nat) {
    (exists m :: m in methods && m.level == level) && forall m :: m in methods ==> m.level <= level
  }

  predicate Lowest(methods: Methods, level: nat) {
    (exists m :: m in methods && m.level == level) && forall m :: m in methods ==> level <= m.level
  }

  /** First occurrences, in order. */
  function Distinct(xs: Methods): Methods {
    if xs == [] then []
    else
      var front := Distinct(xs[..|xs| - 1]);
      if xs[|xs| - 1] in front then front else front + [xs[|xs| - 1]]
  }

  /** Methods of other classes whose level compares to `base`. */
  function Others(methods: Methods, classRef: string, comparison: Comparison, base: nat): Methods {
    if methods == [] then []
    else
      var last := methods[|methods| - 1];
      Others(methods[..|methods| - 1], classRef, comparison, base)
      + if last.classRef != classRef && Satisfies(comparison, base, last.level) then [last] else []
  }

  /** The selection for one class reference: nothing for an unregistered class;
      for exact (without level matching) the methods of the class; for minimum
      and better measured from the highest level of the class, for maximum from
      its lowest, for exact with level matching from its first. */
  ghost predicate SelectionFor(methods: Methods, byLevel: bool, classRef: string, comparison: Comparison, result: Methods) {
    var same := OfClass(methods, classRef);
    if same == [] then result == []
    else match comparison
      case Exact => result == if byLevel then same + Distinct(Others(methods, classRef, Exact, same[0].level)) else same
      case Minimum => exists top :: Highest(same, top) && result == same + Distinct(Others(methods, classRef, Minimum, top))
      case Maximum => exists low :: Lowest(same, low) && result == same + Distinct(Others(methods, classRef, Maximum, low))
      case Better => exists top :: Highest(same, top) && result == Distinct(Others(methods, classRef, Better, top))
  }

  /** `base` is the level the comparison measures from. */
  predicate MeasuredFrom(same: Methods, comparison: Comparison, base: nat)
    requires same != []
  {
    match comparison
    case Exact => base == same[0].level
    case Maximum => Lowest(same, base)
    case _ => Highest(same, base)
  }

  lemma SelectionIntro(methods: Methods, byLevel: bool, classRef: string, comparison: Comparison, base: nat, result: Methods)
    requires OfClass(methods, classRef) != [] && (comparison == Exact ==> byLevel)
    requires MeasuredFrom(OfClass(methods, classRef), comparison, base)
    requires result == (if comparison != Better then OfClass(methods, classRef) else [])
                       + Distinct(Others(methods, classRef, comparison, base))
    ensures SelectionFor(methods, byLevel, classRef, comparison, result)
  {
    var others := Distinct(Others(methods, classRef, comparison, base));
    assert [] + others == others;
  }

  lemma SelectionElim(methods: Methods, byLevel: bool, classRef: string, comparison: Comparison, result: Methods) returns (base: nat)
    requires OfClass(methods, classRef) != [] && (comparison == Exact ==> byLevel)
    requires SelectionFor(methods, byLevel, classRef, comparison, result)
    ensures MeasuredFrom(OfClass(methods, classRef), comparison, base)
    ensures result == (if comparison != Better then OfClass(methods, classRef) else [])
                      + Distinct(Others(methods, classRef, comparison, base))
  {
    var same := OfClass(methods, classRef);
    match comparison
    case Exact => base := same[0].level;
    case Minimum => base :| Highest(same, base) && result == same + Distinct(Others(methods, classRef, Minimum, base));
    case Maximum => base :| Lowest(same, base) && result == same + Distinct(Others(methods, classRef, Maximum, base));
    case Better => base :| Highest(same, base) && result == Distinct(Others(methods, classRef, Better, base));
  }

  lemma MeasureUnique(same: Methods, comparison: Comparison, a: nat, b: nat)
    requires same != [] && MeasuredFrom(same, comparison, a) && MeasuredFrom(same, comparison, b)
    ensures a == b
  {
  }

  // ---- References ---------------------------------------------------------------------

  predicate DistinctRefs(methods: Methods) {
    forall i, j :: 0 <= i < j < |methods| ==> methods[i].reference != methods[j].reference
  }

  /** A registry built by `add` alone. */
  predicate Numbered(methods: Methods, next: nat) {
    next == |methods| && forall i :: 0 <= i < |methods| ==> methods[i].reference == Decimal(i + 1)
  }

  lemma NumberedIsDistinct(methods: Methods, next: nat)
    requires Numbered(methods, next)
    ensures DistinctRefs(methods)
  {
    forall i, j | 0 <= i < j < |methods|
      ensures methods[i].reference != methods[j].reference
    {
      DecimalInjective(i + 1, j + 1);
    }
  }

  /** A registration, with a reference of the broker's making or a chosen one. */
  datatype Call =
    | Numbering(classRef: string, handler: string, level: nat, authority: Option<string>)
    | Choosing(classRef: string, handler: string, level: nat, authority: Option<string>, reference: string)

  predicate Taken(methods: Methods, reference: string) {
    exists m :: m in methods && m.reference == reference
  }

  /** One call: the methods and the counter after it. */
  function Registered(methods: Methods, next: nat, c: Call): (Methods, nat) {
    match c
    case Numbering(classRef, handler, level, authority) =>
      (methods + [AuthnMethod(classRef, handler, level, authority, Decimal(next + 1))], next + 1)
    case Choosing(classRef, handler, level, authority, reference) =>
      if Taken(methods, reference) then (methods, next)
      else (methods + [AuthnMethod(classRef, handler, level, authority, reference)], next)
  }

  /** The registry after a series of calls on an empty broker. */
  function Registry(calls: seq<Call>): (Methods, nat) {
    if calls == [] then ([], 0)
    else
      var (methods, next) := Registry(calls[..|calls| - 1]);
      Registered(methods, next, calls[|calls| - 1])
  }

  function Printed(calls: seq<Call>): nat {
    if calls == [] then 0 else Printed(calls[..|calls| - 1]) + if calls[|calls| - 1].Numbering? then 1 else 0
  }

  lemma {:induction false} CounterIsPrinted(calls: seq<Call>)
    ensures Registry(calls).1 == Printed(calls)
  {
    if calls != [] {
      CounterIsPrinted(calls[..|calls| - 1]);
    }
  }

  lemma TakenSnoc(methods: Methods, m: AuthnMethod, reference: string)
    ensures Taken(methods + [m], reference) <==> Taken(methods, reference) || m.reference == reference
  {
    assert forall x :: x in methods + [m] <==> x in methods || x == m;
  }

  predicate ChosenIn(calls: seq<Call>, r: string) {
    exists c :: c in calls && c.Choosing? && c.reference == r
  }

  ghost predicate PrintedIn(n: nat, r: string) {
    exists k: nat :: 1 <= k <= n && r == Decimal(k)
  }

  lemma ChosenSnoc(front: seq<Call>, last: Call, r: string)
    ensures ChosenIn(front + [last], r) <==> ChosenIn(front, r) || (last.Choosing? && last.reference == r)
  {
    assert forall c :: c in front + [last] <==> c in front || c == last;
  }

  lemma PrintedNext(n: nat, r: string)
    ensures PrintedIn(n + 1, r) <==> PrintedIn(n, r) || r == Decimal(n + 1)
  {
    var k: nat := n + 1;
    assert r == Decimal(k) ==> 1 <= k <= n + 1 && r == Decimal(k);
  }

  /** The references of the registry: what was printed and what was chosen. */
  lemma {:induction false} TakenExactly(calls: seq<Call>, r: string)
    ensures Taken(Registry(calls).0, r) <==> PrintedIn(Printed(calls), r) || ChosenIn(calls, r)
  {
    if calls != [] {
      var front, last := calls[..|calls| - 1], calls[|calls| - 1];
      var (methods, next) := Registry(front);
      CounterIsPrinted(front);
      TakenExactly(front, r);
      assert calls == front + [last];
      ChosenSnoc(front, last, r);
      match last
      case Numbering(classRef, handler, level, authority) =>
        TakenSnoc(methods, AuthnMethod(classRef, handler, level, authority, Decimal(next + 1)), r);
        PrintedNext(next, r);
      case Choosing(classRef, handler, level, authority, reference) =>
        if !Taken(methods, reference) {
          TakenSnoc(methods, AuthnMethod(classRef, handler, level, authority, reference), r);
        }
    }
  }

  lemma DistinctRefsSnoc(methods: Methods, m: AuthnMethod)
    ensures DistinctRefs(methods + [m]) <==> DistinctRefs(methods) && !Taken(methods, m.reference)
  {
    var all := methods + [m];
    assert all[|methods|] == m && forall i :: 0 <= i < |methods| ==> all[i] == methods[i];
    if Taken(methods, m.reference) {
      var x :| x in methods && x.reference == m.reference;
      var i :| 0 <= i < |methods| && methods[i] == x;
      assert all[i].reference == all[|methods|].reference;
    }
    if DistinctRefs(all) {
      forall i, j | 0 <= i < j < |methods|
        ensures methods[i].reference != methods[j].reference
      {
        assert all[i].reference != all[j].reference;
      }
    }
  }

  /** A chosen reference is not the print of a number in this range. */
  ghost predicate Apart(c: Call, after: nat, last: nat) {
    c.Choosing? ==> forall k: nat :: after < k <= last ==> c.reference != Decimal(k)
  }

  ghost predicate ApartAt(calls: seq<Call>, i: nat)
    requires i < |calls|
  {
    Apart(calls[i], Printed(calls[..i]), Printed(calls))
  }

  /** No chosen reference is the print of a number still to come when it was
      chosen. */
  ghost predicate ChosenApart(calls: seq<Call>) {
    forall i: nat :: i < |calls| ==> ApartAt(calls, i)
  }

  predicate NotChosenAt(calls: seq<Call>, i: nat, r: string)
    requires i < |calls|
  {
    calls[i].Choosing? ==> calls[i].reference != r
  }

  ghost predicate NoneChose(calls: seq<Call>, r: string) {
    forall i: nat :: i < |calls| ==> NotChosenAt(calls, i, r)
  }

  lemma {:induction false} PrintedGrows(calls: seq<Call>, i: nat)
    requires i <= |calls|
    ensures Printed(calls[..i]) <= Printed(calls)
    decreases |calls|
  {
    if i < |calls| {
      PrintedGrows(calls[..|calls| - 1], i);
      assert calls[..|calls| - 1][..i] == calls[..i];
    } else {
      assert calls[..i] == calls;
    }
  }

  lemma ApartOneMore(c: Call, after: nat, last: nat)
    requires after <= last
    ensures Apart(c, after, last + 1) <==> Apart(c, after, last) && (c.Choosing? ==> c.reference != Decimal(last + 1))
  {
    var k: nat := last + 1;
    assert Apart(c, after, last + 1) && c.Choosing? ==> c.reference != Decimal(k);
  }

  /** The front of a longer series, looked at from its new end. */
  lemma ApartFront(calls: seq<Call>, front: seq<Call>, last: Call, i: nat, r: string)
    requires calls == front + [last] && i < |front| && r == Decimal(Printed(front) + 1)
    ensures ApartAt(calls, i) <==> ApartAt(front, i) && (last.Numbering? ==> NotChosenAt(front, i, r))
  {
    assert calls[i] == front[i] && calls[..i] == front[..i] && calls[..|front|] == front;
    PrintedGrows(front, i);
    if last.Numbering? {
      ApartOneMore(front[i], Printed(front[..i]), Printed(front));
    }
  }

  lemma ApartLast(calls: seq<Call>, front: seq<Call>, last: Call)
    requires calls == front + [last]
    ensures ApartAt(calls, |front|)
  {
    assert calls[..|front|] == front;
  }

  lemma ApartShrinks(calls: seq<Call>, front: seq<Call>, last: Call, r: string)
    requires calls == front + [last] && r == Decimal(Printed(front) + 1) && ChosenApart(calls)
    ensures ChosenApart(front) && (last.Numbering? ==> NoneChose(front, r))
  {
    forall i: nat | i < |front|
      ensures ApartAt(front, i)
    {
      assert ApartAt(calls, i);
      ApartFront(calls, front, last, i, r);
    }
    if last.Numbering? {
      forall i: nat | i < |front|
        ensures NotChosenAt(front, i, r)
      {
        assert ApartAt(calls, i);
        ApartFront(calls, front, last, i, r);
      }
    }
  }

  lemma ApartGrows(calls: seq<Call>, front: seq<Call>, last: Call, r: string)
    requires calls == front + [last] && r == Decimal(Printed(front) + 1)
    requires ChosenApart(front) && (last.Numbering? ==> NoneChose(front, r))
    ensures ChosenApart(calls)
  {
    forall i: nat | i < |calls|
      ensures ApartAt(calls, i)
    {
      if i < |front| {
        assert ApartAt(front, i);
        ApartFront(calls, front, last, i, r);
      } else {
        ApartLast(calls, front, last);
      }
    }
  }

  lemma ApartSnoc(front: seq<Call>, last: Call)
    ensures ChosenApart(front + [last]) <==>
            ChosenApart(front) && (last.Numbering? ==> NoneChose(front, Decimal(Printed(front) + 1)))
  {
    var calls, r := front + [last], Decimal(Printed(front) + 1);
    if ChosenApart(calls) {
      ApartShrinks(calls, front, last, r);
    } else if ChosenApart(front) && (last.Numbering? ==> NoneChose(front, r)) {
      ApartGrows(calls, front, last, r);
    }
  }

  /** `add` does not look at the references already taken.  Over any series of
      registrations references are distinct exactly when no chosen one is the
      print of a number still to come. */
  lemma {:induction false} DistinctExactly(calls: seq<Call>)
    ensures DistinctRefs(Registry(calls).0) <==> ChosenApart(calls)
  {
    if calls != [] {
      var front, last := calls[..|calls| - 1], calls[|calls| - 1];
      assert calls == front + [last];
      DistinctExactly(front);
      ApartSnoc(front, last);
      DistinctStep(front, last);
    }
  }

  lemma NobodyChose(calls: seq<Call>, r: string)
    ensures NoneChose(calls, r) <==> !ChosenIn(calls, r)
  {
    if ChosenIn(calls, r) {
      var c :| c in calls && c.Choosing? && c.reference == r;
      var i: nat :| i < |calls| && calls[i] == c;
      assert !NotChosenAt(calls, i, r);
    } else {
      forall i: nat | i < |calls|
        ensures NotChosenAt(calls, i, r)
      {
        assert calls[i] in calls;
      }
    }
  }

  lemma DistinctStep(front: seq<Call>, last: Call)
    ensures DistinctRefs(Registry(front + [last]).0) <==>
            DistinctRefs(Registry(front).0)
            && (last.Numbering? ==> NoneChose(front, Decimal(Printed(front) + 1)))
  {
    var (methods, next) := Registry(front);
    assert (front + [last])[..|front|] == front;
    CounterIsPrinted(front);
    match last
    case Numbering(classRef, handler, level, authority) =>
      DistinctRefsSnoc(methods, AuthnMethod(classRef, handler, level, authority, Decimal(next + 1)));
      TakenExactly(front, Decimal(next + 1));
      forall k: nat | 1 <= k <= Printed(front)
        ensures Decimal(next + 1) != Decimal(k)
      {
        DecimalInjective(next + 1, k);
      }
      NobodyChose(front, Decimal(next + 1));
    case Choosing(classRef, handler, level, authority, reference) =>
      DistinctRefsSnoc(methods, AuthnMethod(classRef, handler, level, authority, reference));
  }

  lemma OneChoice(m: Call)
    requires m.Choosing?
    ensures |Registry([m]).0| == 1 && Printed([m]) == 0
  {
    assert [m][..0] == [];
  }

  /** A caller that chose "1" first makes the first `add` collide. */
  lemma ChosenReferenceCollides(m: Call, n: Call)
    requires m.Choosing? && m.reference == Decimal(1) && n.Numbering?
    ensures DistinctRefs(Registry([m]).0) && !DistinctRefs(Registry([m] + [n]).0)
  {
    OneChoice(m);
    DistinctStep([m], n);
    var chosen := [m];
    assert chosen[0].Choosing? && chosen[0].reference == Decimal(Printed(chosen) + 1);
    assert !NotChosenAt(chosen, 0, Decimal(Printed(chosen) + 1));
  }

  // ---- The loops of `pick_by_class_ref` ------------------------------------------------

  method SameClass(methods: Methods, classRef: string) returns (same: Methods)
    ensures same == OfClass(methods, classRef)
  {
    same := [];
    for i := 0 to |methods|
      invariant same == OfClass(methods[..i], classRef)
    {
      assert methods[..i + 1][..i] == methods[..i];
      if methods[i].classRef == classRef {
        same := same + [methods[i]];
      }
    }
    assert methods[..|methods|] == methods;
  }

  lemma ExtremesSnoc(methods: Methods, m: AuthnMethod, level: nat)
    ensures Highest(methods, level) ==> Highest(methods + [m], if m.level >= level then m.level else level)
    ensures Lowest(methods, level) ==> Lowest(methods + [m], if m.level <= level then m.level else level)
  {
    var all := methods + [m];
    assert m in all;
    assert forall x :: x in methods ==> x in all;
  }

  /** The strongest level satisfying the comparison among the class's own. */
  method SeedLevel(same: Methods, comparison: Comparison) returns (base: nat)
    requires same != []
    ensures MeasuredFrom(same, comparison, base)
  {
    base := same[0].level;
    for i := 1 to |same|
      invariant MeasuredFrom(same[..i], comparison, base)
    {
      ExtremesSnoc(same[..i], same[i], base);
      assert same[..i + 1] == same[..i] + [same[i]];
      if Satisfies(comparison, base, same[i].level) {
        base := same[i].level;
      }
    }
    assert same[..|same|] == same;
  }

  /** Walks the whole registry, adding what is not there yet. */
  method WithOthers(methods: Methods, classRef: string, comparison: Comparison, base: nat, start: Methods)
    returns (result: Methods)
    requires forall m :: m in start ==> m.classRef == classRef
    ensures result == start + Distinct(Others(methods, classRef, comparison, base))
  {
    result := start;
    ghost var found: Methods := [];
    for i := 0 to |methods|
      invariant found == Others(methods[..i], classRef, comparison, base)
      invariant result == start + Distinct(found)
    {
      var m := methods[i];
      OthersNext(methods, i, classRef, comparison, base);
      if m.classRef == classRef {
        continue;
      }
      if Satisfies(comparison, base, m.level) {
        MergeOne(start, found, m);
        if m !in result {
          result := result + [m];
        }
        found := found + [m];
      }
    }
    assert methods[..|methods|] == methods;
  }

  lemma MergeOne(start: Methods, found: Methods, m: AuthnMethod)
    requires forall x :: x in start ==> x.classRef != m.classRef
    ensures var result := start + Distinct(found);
            start + Distinct(found + [m]) == if m in result then result else result + [m]
  {
    DistinctSnoc(found, m);
    assert m !in start;
  }

  lemma OthersNext(methods: Methods, i: nat, classRef: string, comparison: Comparison, base: nat)
    requires i < |methods|
    ensures var found, m := Others(methods[..i], classRef, comparison, base), methods[i];
            Others(methods[..i + 1], classRef, comparison, base)
            == if m.classRef != classRef && Satisfies(comparison, base, m.level) then found + [m] else found
  {
    assert methods[..i + 1][..i] == methods[..i];
  }

  /** Adds the methods that are not there yet. */
  method Merge(start: Methods, ghost all: Methods, picked: Methods) returns (result: Methods)
    requires start == Distinct(all)
    ensures result == Distinct(all + picked)
  {
    result := start;
    assert all + picked[..0] == all;
    for j := 0 to |picked|
      invariant result == Distinct(all + picked[..j])
    {
      DistinctSnoc(all + picked[..j], picked[j]);
      assert all + picked[..j + 1] == all + picked[..j] + [picked[j]];
      if picked[j] !in result {
        result := result + [picked[j]];
      }
    }
    assert picked[..|picked|] == picked;
  }

  // ---- The registry -------------------------------------------------------------------

  class AuthnBroker {
    var methods: Methods
    var next: nat
    var allowExactLevelMatching: bool

    constructor ()
      ensures methods == [] && next == 0 && !allowExactLevelMatching && Numbered(methods, next)
    {
      methods := [];
      next := 0;
      allowExactLevelMatching := false;
    }

    method Add(classRef: string, handler: string, level: nat, authority: Option<string>) returns (reference: string)
      modifies this
      ensures next == old(next) + 1 && reference == Decimal(next) && allowExactLevelMatching == old(allowExactLevelMatching)
      ensures methods == old(methods) + [AuthnMethod(classRef, handler, level, authority, reference)]
      ensures (methods, next) == Registered(old(methods), old(next), Numbering(classRef, handler, level, authority))
      ensures Numbered(old(methods), old(next)) ==> Numbered(methods, next) && DistinctRefs(methods)
    {
      next := next + 1;
      reference := Decimal(next);
      methods := methods + [AuthnMethod(classRef, handler, level, authority, reference)];
      if Numbered(old(methods), old(next)) {
        NumberedIsDistinct(methods, next);
      }
    }

    method AddWithReference(classRef: string, handler: string, level: nat, authority: Option<string>, reference: string)
      returns (added: bool)
      modifies this
      ensures added <==> forall m :: m in old(methods) ==> m.reference != reference
      ensures methods == old(methods) + if added then [AuthnMethod(classRef, handler, level, authority, reference)] else []
      ensures next == old(next) && allowExactLevelMatching == old(allowExactLevelMatching)
      ensures (methods, next) == Registered(old(methods), old(next), Choosing(classRef, handler, level, authority, reference))
      ensures DistinctRefs(old(methods)) ==> DistinctRefs(methods)
    {
      if exists m :: m in methods && m.reference == reference {
        return false;
      }
      methods := methods + [AuthnMethod(classRef, handler, level, authority, reference)];
      added := true;
    }

    method PickByClassRef(classRef: string, comparison: Comparison) returns (result: Methods)
      ensures SelectionFor(methods, allowExactLevelMatching, classRef, comparison, result)
    {
      var sameClass := SameClass(methods, classRef);
      if sameClass == [] {
        return [];
      }
      if comparison == Exact && !allowExactLevelMatching {
        return sameClass;
      }
      var base := SeedLevel(sameClass, comparison);
      result := [];
      if comparison != Better {
        result := result + sameClass;
        assert result == sameClass;
        SameClassOnly(methods, classRef);
      }
      result := WithOthers(methods, classRef, comparison, base, result);
      SelectionIntro(methods, allowExactLevelMatching, classRef, comparison, base, result);
    }

    method Pick(requested: Option<Requested>) returns (result: Methods)
      ensures requested.None? ==> PickedDefault(methods, allowExactLevelMatching, result)
      ensures requested.Some? && requested.value.classRefs != [] ==>
                PickedFor(methods, allowExactLevelMatching, requested.value.classRefs, requested.value.comparison, result)
      ensures requested.Some? && requested.value.classRefs == [] ==>
                PickedFor(methods, allowExactLevelMatching, requested.value.declRefs, requested.value.comparison, result)
    {
      if requested.None? {
        var picked := PickByClassRef(UNSPECIFIED, Minimum);
        if picked == [] {
          return methods;
        }
        return picked;
      }
      var refs := RefsOf(requested.value);
      result := [];
      ghost var parts: seq<Methods> := [];
      for i := 0 to |refs|
        invariant SelectionsFor(methods, allowExactLevelMatching, refs[..i], requested.value.comparison, parts)
        invariant result == Distinct(Concat(parts))
      {
        var picked := PickByClassRef(refs[i], requested.value.comparison);
        result := Merge(result, Concat(parts), picked);
        SelectionsSnoc(methods, allowExactLevelMatching, refs[..i], refs[i], requested.value.comparison, parts, picked);
        assert refs[..i + 1] == refs[..i] + [refs[i]];
        assert (parts + [picked])[..i] == parts;
        parts := parts + [picked];
      }
      assert refs[..|refs|] == refs;
    }
  }

  function RefsOf(r: Requested): seq<string> {
    if r.classRefs != [] then r.classRefs else r.declRefs
  }

  function Concat(parts: seq<Methods>): Methods {
    if parts == [] then [] else Concat(parts[..|parts| - 1]) + parts[|parts| - 1]
  }

  /** The selections for the listed references, put together in order without
      repeats. */
  ghost predicate PickedFor(methods: Methods, byLevel: bool, refs: seq<string>, comparison: Comparison, result: Methods) {
    exists parts :: SelectionsFor(methods, byLevel, refs, comparison, parts) && result == Distinct(Concat(parts))
  }

  ghost predicate SelectionsFor(methods: Methods, byLevel: bool, refs: seq<string>, comparison: Comparison, parts: seq<Methods>) {
    && |parts| == |refs|
    && forall k :: 0 <= k < |refs| ==> SelectionFor(methods, byLevel, refs[k], comparison, parts[k])
  }

  /** With nothing requested: the unspecified class at minimum, or everything
      when that class is not registered. */
  ghost predicate PickedDefault(methods: Methods, byLevel: bool, result: Methods) {
    exists picked ::
      && SelectionFor(methods, byLevel, UNSPECIFIED, Minimum, picked)
      && result == if picked == [] then methods else picked
  }

  lemma {:induction false} SameClassOnly(methods: Methods, classRef: string)
    ensures forall m :: m in OfClass(methods, classRef) <==> m in methods && m.classRef == classRef
  {
    if methods != [] {
      SameClassOnly(methods[..|methods| - 1], classRef);
      assert methods == methods[..|methods| - 1] + [methods[|methods| - 1]];
    }
  }

  lemma DistinctSnoc(xs: Methods, m: AuthnMethod)
    ensures Distinct(xs + [m]) == if m in Distinct(xs) then Distinct(xs) else Distinct(xs) + [m]
  {
    assert (xs + [m])[..|xs|] == xs;
  }

  predicate NoDuplicates(xs: Methods) {
    forall i, j :: 0 <= i < j < |xs| ==> xs[i] != xs[j]
  }

  lemma {:induction false} DistinctMeaning(xs: Methods)
    ensures NoDuplicates(Distinct(xs))
    ensures forall m :: m in Distinct(xs) <==> m in xs
  {
    if xs != [] {
      DistinctMeaning(xs[..|xs| - 1]);
      assert xs == xs[..|xs| - 1] + [xs[|xs| - 1]];
    }
  }

  // ---- Consequences ------------------------------------------------------------------

  lemma {:induction false} OthersMeaning(methods: Methods, classRef: string, comparison: Comparison, base: nat)
    ensures forall m :: m in Others(methods, classRef, comparison, base) <==>
              m in methods && m.classRef != classRef && Satisfies(comparison, base, m.level)
  {
    if methods != [] {
      OthersMeaning(methods[..|methods| - 1], classRef, comparison, base);
      assert methods == methods[..|methods| - 1] + [methods[|methods| - 1]];
    }
  }

  /** The first method registered for a class has this level. */
  predicate FirstLevel(methods: Methods, classRef: string, level: nat) {
    exists i :: 0 <= i < |methods| && methods[i].classRef == classRef && methods[i].level == level
                && forall j :: 0 <= j < i ==> methods[j].classRef != classRef
  }

  /** Whether a registered method answers one class reference: for exact it must
      be of the class or, with level matching, have the level of the first method
      of the class; otherwise its level must compare to all of those. */
  predicate Answers(methods: Methods, byLevel: bool, classRef: string, comparison: Comparison, m: AuthnMethod) {
    && m in methods && (exists same :: same in methods && same.classRef == classRef)
    && match comparison
       case Exact => m.classRef == classRef || (byLevel && FirstLevel(methods, classRef, m.level))
       case Minimum => m.classRef == classRef || forall same :: same in methods && same.classRef == classRef ==> m.level >= same.level
       case Maximum => m.classRef == classRef || forall same :: same in methods && same.classRef == classRef ==> m.level <= same.level
       case Better => m.classRef != classRef && forall same :: same in methods && same.classRef == classRef ==> m.level > same.level
  }

  lemma {:induction false} FirstOfClass(methods: Methods, classRef: string, level: nat)
    requires OfClass(methods, classRef) != []
    ensures FirstLevel(methods, classRef, level) <==> OfClass(methods, classRef)[0].level == level
  {
    var front, last := methods[..|methods| - 1], methods[|methods| - 1];
    if OfClass(front, classRef) == [] {
      SameClassOnly(front, classRef);
      assert forall j :: 0 <= j < |front| ==> methods[j] in front && methods[j].classRef != classRef;
    } else {
      FirstOfClass(front, classRef, level);
      SameClassOnly(front, classRef);
      assert OfClass(methods, classRef)[0] == OfClass(front, classRef)[0];
      assert OfClass(front, classRef)[0] in front;
      FirstStays(methods, front, classRef, level);
    }
  }

  lemma FirstStays(methods: Methods, front: Methods, classRef: string, level: nat)
    requires front <= methods && exists m :: m in front && m.classRef == classRef
    ensures FirstLevel(methods, classRef, level) <==> FirstLevel(front, classRef, level)
  {
    var m :| m in front && m.classRef == classRef;
    var k :| 0 <= k < |front| && front[k] == m;
    assert methods[k] == m;
    if FirstLevel(methods, classRef, level) {
      var i :| 0 <= i < |methods| && methods[i].classRef == classRef && methods[i].level == level
               && forall j :: 0 <= j < i ==> methods[j].classRef != classRef;
      assert i <= k && front[i] == methods[i];
      assert forall j :: 0 <= j < i ==> front[j] == methods[j];
    }
  }

  /** A selection holds exactly the methods that answer the class reference. */
  lemma SelectionMeaning(methods: Methods, byLevel: bool, classRef: string, comparison: Comparison, result: Methods)
    requires SelectionFor(methods, byLevel, classRef, comparison, result)
    ensures forall m :: m in result <==> Answers(methods, byLevel, classRef, comparison, m)
  {
    var same := OfClass(methods, classRef);
    SameClassOnly(methods, classRef);
    if same != [] {
      assert same[0] in same;
      if comparison != Exact || byLevel {
        var base := SelectionElim(methods, byLevel, classRef, comparison, result);
        OthersMeaning(methods, classRef, comparison, base);
        DistinctMeaning(Others(methods, classRef, comparison, base));
        if comparison == Exact {
          LevelMatches(methods, classRef, base);
        }
      }
    }
  }

  lemma LevelMatches(methods: Methods, classRef: string, base: nat)
    requires OfClass(methods, classRef) != [] && OfClass(methods, classRef)[0].level == base
    ensures forall level :: FirstLevel(methods, classRef, level) <==> level == base
  {
    forall level
      ensures FirstLevel(methods, classRef, level) <==> level == base
    {
      FirstOfClass(methods, classRef, level);
    }
  }

  lemma {:induction false} ConcatMeaning(parts: seq<Methods>)
    ensures forall m :: m in Concat(parts) <==> exists k :: 0 <= k < |parts| && m in parts[k]
  {
    if parts != [] {
      var front := parts[..|parts| - 1];
      ConcatMeaning(front);
      forall m
        ensures m in Concat(parts) <==> exists k :: 0 <= k < |parts| && m in parts[k]
      {
        if m in Concat(front) {
          var k :| 0 <= k < |front| && m in front[k];
          assert m in parts[k];
        }
      }
    }
  }

  /** The listed references are alternatives: the result has no duplicates and
      holds exactly the methods that answer one of them. */
  lemma PickMeaning(methods: Methods, byLevel: bool, refs: seq<string>, comparison: Comparison, result: Methods)
    requires PickedFor(methods, byLevel, refs, comparison, result)
    ensures NoDuplicates(result)
    ensures forall m :: m in result <==> exists k :: 0 <= k < |refs| && Answers(methods, byLevel, refs[k], comparison, m)
  {
    var parts :| SelectionsFor(methods, byLevel, refs, comparison, parts) && result == Distinct(Concat(parts));
    DistinctMeaning(Concat(parts));
    ConcatMeaning(parts);
    forall k | 0 <= k < |refs|
      ensures forall m :: m in parts[k] <==> Answers(methods, byLevel, refs[k], comparison, m)
    {
      SelectionMeaning(methods, byLevel, refs[k], comparison, parts[k]);
    }
  }

  /** A registry and a reference have one selection. */
  lemma SelectionUnique(methods: Methods, byLevel: bool, classRef: string, comparison: Comparison, a: Methods, b: Methods)
    requires SelectionFor(methods, byLevel, classRef, comparison, a) && SelectionFor(methods, byLevel, classRef, comparison, b)
    ensures a == b
  {
    var same := OfClass(methods, classRef);
    if same != [] && (comparison == Exact ==> byLevel) {
      var x := SelectionElim(methods, byLevel, classRef, comparison, a);
      var y := SelectionElim(methods, byLevel, classRef, comparison, b);
      MeasureUnique(same, comparison, x, y);
    }
  }

  lemma SelectionsSnoc(methods: Methods, byLevel: bool, refs: seq<string>, ref: string, comparison: Comparison,
                       parts: seq<Methods>, part: Methods)
    requires SelectionsFor(methods, byLevel, refs, comparison, parts) && SelectionFor(methods, byLevel, ref, comparison, part)
    ensures SelectionsFor(methods, byLevel, refs + [ref], comparison, parts + [part])
  {
  }

  lemma SelectionsUnique(methods: Methods, byLevel: bool, refs: seq<string>, comparison: Comparison,
                         a: seq<Methods>, b: seq<Methods>)
    requires SelectionsFor(methods, byLevel, refs, comparison, a) && SelectionsFor(methods, byLevel, refs, comparison, b)
    ensures a == b
  {
    forall k | 0 <= k < |refs|
      ensures a[k] == b[k]
    {
      SelectionUnique(methods, byLevel, refs[k], comparison, a[k], b[k]);
    }
  }

  lemma {:induction false} DistinctPrefix(xs: Methods, ys: Methods)
    ensures Distinct(xs) <= Distinct(xs + ys)
    decreases |ys|
  {
    if ys == [] {
      assert xs + ys == xs;
    } else {
      var front := ys[..|ys| - 1];
      DistinctPrefix(xs, front);
      assert (xs + ys)[..|xs + ys| - 1] == xs + front;
    }
  }

  lemma {:induction false} ConcatPrefix(parts: seq<Methods>, n: nat)
    requires n <= |parts|
    ensures Concat(parts[..n]) <= Concat(parts)
    decreases |parts|
  {
    if n < |parts| {
      ConcatPrefix(parts[..|parts| - 1], n);
      assert parts[..|parts| - 1][..n] == parts[..n];
    } else {
      assert parts[..n] == parts;
    }
  }

  /** The result for a list of references starts the result for any longer list:
      earlier references are preferred. */
  lemma LongerListExtends(methods: Methods, byLevel: bool, refs: seq<string>, more: seq<string>, comparison: Comparison,
                          a: Methods, b: Methods)
    requires PickedFor(methods, byLevel, refs, comparison, a) && PickedFor(methods, byLevel, refs + more, comparison, b)
    ensures a <= b
  {
    var p :| SelectionsFor(methods, byLevel, refs, comparison, p) && a == Distinct(Concat(p));
    var q :| SelectionsFor(methods, byLevel, refs + more, comparison, q) && b == Distinct(Concat(q));
    SelectionsPrefix(methods, byLevel, refs, more, comparison, q);
    SelectionsUnique(methods, byLevel, refs, comparison, p, q[..|refs|]);
    ConcatPrefix(q, |refs|);
    DistinctOfPrefix(Concat(p), Concat(q));
  }

  lemma DistinctOfPrefix(xs: Methods, all: Methods)
    requires xs <= all
    ensures Distinct(xs) <= Distinct(all)
  {
    DistinctPrefix(xs, all[|xs|..]);
    assert xs + all[|xs|..] == all;
  }

  lemma SelectionsPrefix(methods: Methods, byLevel: bool, refs: seq<string>, more: seq<string>, comparison: Comparison, q: seq<Methods>)
    requires SelectionsFor(methods, byLevel, refs + more, comparison, q)
    ensures SelectionsFor(methods, byLevel, refs, comparison, q[..|refs|])
  {
    forall k | 0 <= k < |refs|
      ensures SelectionFor(methods, byLevel, refs[k], comparison, q[..|refs|][k])
    {
      assert (refs + more)[k] == refs[k];
    }
  }

  /** A reference nobody registered changes nothing. */
  lemma UnknownChangesNothing(methods: Methods, byLevel: bool, refs: seq<string>, i: nat, unknown: string, comparison: Comparison,
                              a: Methods, b: Methods)
    requires i <= |refs| && forall m :: m in methods ==> m.classRef != unknown
    requires PickedFor(methods, byLevel, refs, comparison, a)
    requires PickedFor(methods, byLevel, refs[..i] + [unknown] + refs[i..], comparison, b)
    ensures a == b
  {
    var p :| SelectionsFor(methods, byLevel, refs, comparison, p) && a == Distinct(Concat(p));
    var q :| SelectionsFor(methods, byLevel, refs[..i] + [unknown] + refs[i..], comparison, q) && b == Distinct(Concat(q));
    UnknownSelectsNothing(methods, byLevel, refs, i, unknown, comparison, q);
    SelectionsUnique(methods, byLevel, refs, comparison, p, q[..i] + q[i + 1..]);
    ConcatSkipsEmpty(q, i);
  }

  lemma UnknownSelectsNothing(methods: Methods, byLevel: bool, refs: seq<string>, i: nat, unknown: string, comparison: Comparison,
                              q: seq<Methods>)
    requires i <= |refs| && forall m :: m in methods ==> m.classRef != unknown
    requires SelectionsFor(methods, byLevel, refs[..i] + [unknown] + refs[i..], comparison, q)
    ensures q[i] == [] && SelectionsFor(methods, byLevel, refs, comparison, q[..i] + q[i + 1..])
  {
    var all := refs[..i] + [unknown] + refs[i..];
    var without := q[..i] + q[i + 1..];
    assert all[i] == unknown && SelectionFor(methods, byLevel, all[i], comparison, q[i]);
    UnknownClassEmpty(methods, unknown);
    forall k | 0 <= k < |refs|
      ensures SelectionFor(methods, byLevel, refs[k], comparison, without[k])
    {
      if k < i {
        assert all[k] == refs[k] && without[k] == q[k];
      } else {
        assert all[k + 1] == refs[k] && without[k] == q[k + 1];
      }
    }
  }

  lemma {:induction false} UnknownClassEmpty(methods: Methods, unknown: string)
    requires forall m :: m in methods ==> m.classRef != unknown
    ensures OfClass(methods, unknown) == []
  {
    if methods != [] {
      assert methods[|methods| - 1] in methods;
      UnknownClassEmpty(methods[..|methods| - 1], unknown);
    }
  }

  lemma {:induction false} ConcatSkipsEmpty(parts: seq<Methods>, i: nat)
    requires i < |parts| && parts[i] == []
    ensures Concat(parts[..i] + parts[i + 1..]) == Concat(parts)
    decreases |parts|
  {
    var without := parts[..i] + parts[i + 1..];
    if i == |parts| - 1 {
      assert without == parts[..|parts| - 1];
    } else {
      var front := parts[..|parts| - 1];
      ConcatSkipsEmpty(front, i);
      assert without[..|without| - 1] == front[..i] + front[i + 1..];
    }
  }

  /** With nothing requested, nothing is offered only by an empty registry. */
  lemma DefaultIsEmptyExactly(methods: Methods, byLevel: bool, result: Methods)
    requires PickedDefault(methods, byLevel, result)
    ensures result == [] <==> methods == []
  {
    var picked :| SelectionFor(methods, byLevel, UNSPECIFIED, Minimum, picked)
                  && result == if picked == [] then methods else picked;
    if methods == [] {
      assert OfClass(methods, UNSPECIFIED) == [] && picked == [];
    }
  }

  /** With nothing requested, everything registered is offered, unless the
      unspecified class is registered: then the methods of that class and those
      at least as strong as all of them. */
  lemma DefaultMeaning(methods: Methods, byLevel: bool, result: Methods)
    requires PickedDefault(methods, byLevel, result)
    ensures (forall m :: m in methods ==> m.classRef != UNSPECIFIED) ==> result == methods
    ensures (exists m :: m in methods && m.classRef == UNSPECIFIED) ==>
              forall m :: m in result <==> Answers(methods, byLevel, UNSPECIFIED, Minimum, m)
  {
    var picked :| SelectionFor(methods, byLevel, UNSPECIFIED, Minimum, picked)
                  && result == if picked == [] then methods else picked;
    SameClassOnly(methods, UNSPECIFIED);
    SelectionMeaning(methods, byLevel, UNSPECIFIED, Minimum, picked);
    if m :| m in methods && m.classRef == UNSPECIFIED {
      assert Answers(methods, byLevel, UNSPECIFIED, Minimum, m) && m in picked;
    } else {
      UnknownClassEmpty(methods, UNSPECIFIED);
    }
  }

  /** With distinct references no method is dropped as a repeat: the others come
      exactly in registration order. */
  lemma {:induction false} DistinctRefsKeepAll(methods: Methods, classRef: string, comparison: Comparison, base: nat)
    requires DistinctRefs(methods)
    ensures Distinct(Others(methods, classRef, comparison, base)) == Others(methods, classRef, comparison, base)
  {
    if methods != [] {
      var front, last := methods[..|methods| - 1], methods[|methods| - 1];
      var found := Others(front, classRef, comparison, base);
      OthersNext(methods, |methods| - 1, classRef, comparison, base);
      assert methods[..|methods|] == methods;
      DistinctRefsKeepAll(front, classRef, comparison, base);
      OthersMeaning(front, classRef, comparison, base);
      assert last !in front;
      DistinctSnoc(found, last);
    }
  }
}
