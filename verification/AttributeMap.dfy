/** Converting attributes between wire names and local names
    (crates/gamlastan/src/attribute_map/mod.rs).  Case folding is a parameter. */
module AttributeMap {
  import opened Wrappers

  type Value = string

  type Fold = string -> string

  datatype Attribute = Attribute(name: string, nameFormat: Option<string>, friendlyName: Option<string>, values: seq<Value>)

  datatype LocalAttribute = LocalAttribute(name: string, values: seq<Value>)

  /** The two directions of one NameFormat; keys are folded. */
  datatype Converter = Converter(nameFormat: string, fro: map<string, string>, to: map<string, string>)

  function Lookup(m: map<string, string>, key: string): Option<string> {
    if key in m then Some(m[key]) else None
  }

  function ToLocalName(fold: Fold, c: Converter, wire: string): Option<string> {
    Lookup(c.fro, fold(wire))
  }

  function ToWireName(fold: Fold, c: Converter, local: string): Option<string> {
    Lookup(c.to, fold(local))
  }

  type Pair = (string, string)

  /** The map a list of entries builds: a later entry for the same folded key wins. */
  function Entries(fold: Fold, pairs: seq<Pair>): map<string, string> {
    if pairs == [] then map[]
    else
      var last := pairs[|pairs| - 1];
      Entries(fold, pairs[..|pairs| - 1])[fold(last.0) := last.1]
  }

  class AttributeConverter {
    const nameFormat: string
    var fro: map<string, string>
    var to: map<string, string>

    ghost function Value(): Converter
      reads this
    {
      Converter(nameFormat, fro, to)
    }

    constructor (nameFormat: string)
      ensures Value() == Converter(nameFormat, map[], map[])
    {
      this.nameFormat := nameFormat;
      fro := map[];
      to := map[];
    }

    method AddWireToLocal(fold: Fold, wire: string, local: string)
      modifies this
      ensures fro == old(fro)[fold(wire) := local] && to == old(to)
    {
      fro := fro[fold(wire) := local];
    }

    method AddLocalToWire(fold: Fold, local: string, wire: string)
      modifies this
      ensures to == old(to)[fold(local) := wire] && fro == old(fro)
    {
      to := to[fold(local) := wire];
    }

    /** `from_directions`, on a new converter. */
    method AddDirections(fold: Fold, inbound: seq<Pair>, outbound: seq<Pair>)
      requires fro == map[] && to == map[]
      modifies this
      ensures fro == Entries(fold, inbound) && to == Entries(fold, outbound)
    {
      for i := 0 to |inbound|
        invariant fro == Entries(fold, inbound[..i]) && to == map[]
      {
        assert inbound[..i + 1][..i] == inbound[..i];
        AddWireToLocal(fold, inbound[i].0, inbound[i].1);
      }
      assert inbound[..|inbound|] == inbound;
      for i := 0 to |outbound|
        invariant fro == Entries(fold, inbound) && to == Entries(fold, outbound[..i])
      {
        assert outbound[..i + 1][..i] == outbound[..i];
        AddLocalToWire(fold, outbound[i].0, outbound[i].1);
      }
      assert outbound[..|outbound|] == outbound;
    }
  }

  // ---- Sets of converters -----------------------------------------------------------

  datatype ConverterSet = ConverterSet(converters: seq<Converter>, allowUnknown: bool, fold: Fold)

  function ConverterFor(converters: seq<Converter>, format: string): Option<Converter> {
    if converters == [] then None
    else if converters[0].nameFormat == format then Some(converters[0])
    else ConverterFor(converters[1..], format)
  }

  /** The first converter that knows the wire name. */
  function AnyLocalName(fold: Fold, converters: seq<Converter>, wire: string): Option<string> {
    if converters == [] then None
    else match ToLocalName(fold, converters[0], wire)
      case Some(local) => Some(local)
      case None => AnyLocalName(fold, converters[1..], wire)
  }

  function LocalName(s: ConverterSet, a: Attribute): Option<string> {
    var mapped := match a.nameFormat
      case Some(format) =>
        (match ConverterFor(s.converters, format) case Some(c) => ToLocalName(s.fold, c, a.name) case None => None)
      case None => AnyLocalName(s.fold, s.converters, a.name);
    if mapped.Some? then mapped else a.friendlyName
  }

  /** The name an attribute is filed under, if it is kept at all. */
  function FiledUnder(s: ConverterSet, a: Attribute): Option<string> {
    match LocalName(s, a)
    case Some(name) => Some(name)
    case None => if s.allowUnknown then Some(a.name) else None
  }

  /** The kept attributes under their local names, in order. */
  function Filed(s: ConverterSet, attributes: seq<Attribute>): seq<LocalAttribute> {
    if attributes == [] then []
    else
      var last := attributes[|attributes| - 1];
      var front := Filed(s, attributes[..|attributes| - 1]);
      match FiledUnder(s, last)
      case Some(name) => front + [LocalAttribute(name, last.values)]
      case None => front
  }

  /** Index of the entry with a name, or the length. */
  function FindName(out: seq<LocalAttribute>, name: string): (i: nat)
    ensures i <= |out| && (i < |out| ==> out[i].name == name)
    ensures forall j :: 0 <= j < i ==> out[j].name != name
  {
    if out == [] || out[0].name == name then 0 else 1 + FindName(out[1..], name)
  }

  function MergeOne(out: seq<LocalAttribute>, la: LocalAttribute): seq<LocalAttribute> {
    var i := FindName(out, la.name);
    if i < |out| then out[i := LocalAttribute(la.name, out[i].values + la.values)] else out + [la]
  }

  function Merged(filed: seq<LocalAttribute>): seq<LocalAttribute> {
    if filed == [] then [] else MergeOne(Merged(filed[..|filed| - 1]), filed[|filed| - 1])
  }

  method ToLocal(s: ConverterSet, attributes: seq<Attribute>) returns (out: seq<LocalAttribute>)
    ensures out == Merged(Filed(s, attributes))
  {
    out := [];
    for i := 0 to |attributes|
      invariant out == Merged(Filed(s, attributes[..i]))
    {
      var a := attributes[i];
      assert attributes[..i + 1][..i] == attributes[..i];
      var local := LocalName(s, a);
      var name: string;
      if local.Some? {
        name := local.value;
      } else if s.allowUnknown {
        name := a.name;
      } else {
        continue;
      }
      MergedSnoc(Filed(s, attributes[..i]), LocalAttribute(name, a.values));
      var k := FindName(out, name);
      if k < |out| {
        out := out[k := LocalAttribute(name, out[k].values + a.values)];
      } else {
        out := out + [LocalAttribute(name, a.values)];
      }
    }
    assert attributes[..|attributes|] == attributes;
  }

  lemma MergedSnoc(filed: seq<LocalAttribute>, la: LocalAttribute)
    ensures Merged(filed + [la]) == MergeOne(Merged(filed), la)
  {
    assert (filed + [la])[..|filed|] == filed;
  }

  /** What one local attribute is sent as, if it is sent. */
  function Sent(s: ConverterSet, la: LocalAttribute, format: string): Option<Attribute> {
    var verbatim := if s.allowUnknown then Some(Attribute(la.name, None, None, la.values)) else None;
    match ConverterFor(s.converters, format)
    case None => verbatim
    case Some(c) => (match ToWireName(s.fold, c, la.name)
      case Some(wire) => Some(Attribute(wire, Some(format), Some(la.name), la.values))
      case None => verbatim)
  }

  function AllSent(s: ConverterSet, ava: seq<LocalAttribute>, format: string): seq<Attribute> {
    if ava == [] then []
    else
      var front := AllSent(s, ava[..|ava| - 1], format);
      match Sent(s, ava[|ava| - 1], format) case Some(a) => front + [a] case None => front
  }

  method FromLocal(s: ConverterSet, ava: seq<LocalAttribute>, format: string) returns (out: seq<Attribute>)
    ensures out == AllSent(s, ava, format)
  {
    var conv := ConverterFor(s.converters, format);
    out := [];
    for i := 0 to |ava|
      invariant out == AllSent(s, ava[..i], format)
    {
      var la := ava[i];
      assert ava[..i + 1][..i] == ava[..i];
      var wire := if conv.Some? then ToWireName(s.fold, conv.value, la.name) else None;
      if wire.Some? {
        out := out + [Attribute(wire.value, Some(format), Some(la.name), la.values)];
      } else if s.allowUnknown {
        out := out + [Attribute(la.name, None, None, la.values)];
      }
    }
    assert ava[..|ava|] == ava;
  }

  // ---- Conservation -------------------------------------------------------------------

  predicate DistinctNames(xs: seq<LocalAttribute>) {
    forall i, j :: 0 <= i < j < |xs| ==> xs[i].name != xs[j].name
  }

  /** All values filed under a name, in order. */
  function ValuesOf(filed: seq<LocalAttribute>, name: string): seq<Value> {
    if filed == [] then []
    else ValuesOf(filed[..|filed| - 1], name) + if filed[|filed| - 1].name == name then filed[|filed| - 1].values else []
  }

  /** First occurrences of the names, in order. */
  function FirstNames(filed: seq<LocalAttribute>): seq<string> {
    if filed == [] then []
    else
      var front, name := FirstNames(filed[..|filed| - 1]), filed[|filed| - 1].name;
      if name in front then front else front + [name]
  }

  function Names(xs: seq<LocalAttribute>): seq<string> {
    seq(|xs|, i requires 0 <= i < |xs| => xs[i].name)
  }

  /** Conversion gives each name once, in the order of first appearance, with the
      in-order concatenation of all values filed under it: no value is lost or
      duplicated. */
  lemma {:induction false} MergeConserves(filed: seq<LocalAttribute>)
    ensures var out := Merged(filed);
            && DistinctNames(out) && Names(out) == FirstNames(filed)
            && forall i :: 0 <= i < |out| ==> out[i].values == ValuesOf(filed, out[i].name)
    ensures forall name :: name !in Names(Merged(filed)) ==> ValuesOf(filed, name) == []
  {
    if filed != [] {
      var front, la := filed[..|filed| - 1], filed[|filed| - 1];
      MergeConserves(front);
      var before, out := Merged(front), Merged(filed);
      var k := FindName(before, la.name);
      assert la.name in Names(before) <==> k < |before| by {
        assert k < |before| ==> Names(before)[k] == la.name;
      }
      if k < |before| {
        assert Names(out) == Names(before);
      } else {
        assert Names(out) == Names(before) + [la.name];
        assert Names(out)[|before|] == la.name;
      }
      forall name | name !in Names(out)
        ensures ValuesOf(filed, name) == []
      {
        assert name !in Names(before) && name != la.name;
      }
    }
  }

  // ---- What the maps say ----------------------------------------------------------------

  /** The map of a list of entries holds, under each folded key, what the last
      entry for it says. */
  lemma {:induction false} EntriesMeaning(fold: Fold, pairs: seq<Pair>, key: string, value: string)
    ensures key in Entries(fold, pairs) && Entries(fold, pairs)[key] == value <==>
            exists i :: LastFor(fold, pairs, i, key) && pairs[i].1 == value
  {
    if pairs != [] {
      var front, n := pairs[..|pairs| - 1], |pairs| - 1;
      EntriesMeaning(fold, front, key, value);
      if fold(pairs[n].0) == key {
        assert LastFor(fold, pairs, n, key);
      } else {
        assert forall i :: LastFor(fold, pairs, i, key) <==> LastFor(fold, front, i, key);
      }
    }
  }

  predicate LastFor(fold: Fold, pairs: seq<Pair>, i: int, key: string) {
    0 <= i < |pairs| && fold(pairs[i].0) == key && forall j :: i < j < |pairs| ==> fold(pairs[j].0) != key
  }

  /** The `i`-th converter is the first for that format. */
  predicate FirstFor(converters: seq<Converter>, format: string, i: int) {
    0 <= i < |converters| && converters[i].nameFormat == format
    && forall j :: 0 <= j < i ==> converters[j].nameFormat != format
  }

  /** The `i`-th converter has that inbound entry under the folded wire name. */
  predicate Knows(s: ConverterSet, i: int, wire: string, local: string) {
    0 <= i < |s.converters| && s.fold(wire) in s.converters[i].fro && s.converters[i].fro[s.fold(wire)] == local
  }

  /** And no converter before it has one. */
  predicate FirstToKnow(s: ConverterSet, i: int, wire: string, local: string) {
    Knows(s, i, wire, local) && forall j :: 0 <= j < i ==> s.fold(wire) !in s.converters[j].fro
  }

  /** The maps give the attribute this local name: that of its format, or without
      a format the first that has an entry for it. */
  ghost predicate MapsTo(s: ConverterSet, a: Attribute, local: string) {
    match a.nameFormat
    case Some(format) => exists i :: FirstFor(s.converters, format, i) && Knows(s, i, a.name, local)
    case None => exists i :: FirstToKnow(s, i, a.name, local)
  }

  /** The name it is filed under: that of the maps, or else its own friendly name,
      or else, if unknown names are allowed, its wire name. */
  ghost predicate FiledAs(s: ConverterSet, a: Attribute, name: string) {
    || MapsTo(s, a, name)
    || ((forall local :: !MapsTo(s, a, local))
        && (a.friendlyName.Some? || s.allowUnknown)
        && name == if a.friendlyName.Some? then a.friendlyName.value else a.name)
  }

  lemma {:induction false} ConverterForExactly(converters: seq<Converter>, format: string)
    ensures ConverterFor(converters, format).None? ==> forall i :: !FirstFor(converters, format, i)
    ensures ConverterFor(converters, format).Some? ==>
              exists i :: FirstFor(converters, format, i) && ConverterFor(converters, format) == Some(converters[i])
  {
    if converters != [] {
      var tail := converters[1..];
      ConverterForExactly(tail, format);
      if converters[0].nameFormat == format {
        assert FirstFor(converters, format, 0);
      } else {
        assert forall i :: FirstFor(converters, format, i) ==> i > 0 && FirstFor(tail, format, i - 1);
        if i :| FirstFor(tail, format, i) && ConverterFor(tail, format) == Some(tail[i]) {
          assert FirstFor(converters, format, i + 1) && converters[i + 1] == tail[i];
        }
      }
    }
  }

  lemma {:induction false} AnyLocalNameExactly(s: ConverterSet, wire: string, local: string)
    ensures AnyLocalName(s.fold, s.converters, wire) == Some(local) <==> exists i :: FirstToKnow(s, i, wire, local)
    decreases |s.converters|
  {
    if s.converters != [] {
      var tail := s.(converters := s.converters[1..]);
      AnyLocalNameExactly(tail, wire, local);
      if s.fold(wire) in s.converters[0].fro {
        assert Knows(s, 0, wire, s.converters[0].fro[s.fold(wire)]);
        assert forall i :: FirstToKnow(s, i, wire, local) ==> i == 0;
        assert FirstToKnow(s, 0, wire, s.converters[0].fro[s.fold(wire)]);
      } else {
        assert forall i :: FirstToKnow(s, i, wire, local) ==> i > 0 && FirstToKnow(tail, i - 1, wire, local);
        if i :| FirstToKnow(tail, i, wire, local) {
          assert FirstToKnow(s, i + 1, wire, local);
        }
      }
    }
  }

  /** The local name the maps alone give. */
  function Mapped(s: ConverterSet, a: Attribute): Option<string> {
    match a.nameFormat
    case Some(format) =>
      (match ConverterFor(s.converters, format) case Some(c) => ToLocalName(s.fold, c, a.name) case None => None)
    case None => AnyLocalName(s.fold, s.converters, a.name)
  }

  lemma MappedExactly(s: ConverterSet, a: Attribute, local: string)
    ensures Mapped(s, a) == Some(local) <==> MapsTo(s, a, local)
  {
    match a.nameFormat
    case None =>
      AnyLocalNameExactly(s, a.name, local);
    case Some(format) =>
      ConverterForExactly(s.converters, format);
      if k :| FirstFor(s.converters, format, k) && ConverterFor(s.converters, format) == Some(s.converters[k]) {
        assert forall i :: FirstFor(s.converters, format, i) ==> i == k;
        assert Mapped(s, a) == Some(local) <==> Knows(s, k, a.name, local);
      }
  }

  /** Every received attribute is filed under exactly that name. */
  lemma FiledExactly(s: ConverterSet, a: Attribute, name: string)
    ensures FiledUnder(s, a) == Some(name) <==> FiledAs(s, a, name)
  {
    forall local
      ensures Mapped(s, a) == Some(local) <==> MapsTo(s, a, local)
    {
      MappedExactly(s, a, local);
    }
    assert LocalName(s, a) == if Mapped(s, a).Some? then Mapped(s, a) else a.friendlyName;
    if Mapped(s, a).Some? {
      assert MapsTo(s, a, Mapped(s, a).value);
    }
  }

  /** What a local attribute is sent as: under the first converter for the format
      with an outbound entry for its folded name, or else verbatim, if unknown
      names are allowed. */
  ghost predicate SentAs(s: ConverterSet, la: LocalAttribute, format: string, a: Attribute) {
    a.values == la.values
    && if HasWire(s, la.name, format) then
         a.nameFormat == Some(format) && a.friendlyName == Some(la.name)
         && exists i :: FirstFor(s.converters, format, i) && s.fold(la.name) in s.converters[i].to
                        && s.converters[i].to[s.fold(la.name)] == a.name
       else s.allowUnknown && a == Attribute(la.name, None, None, la.values)
  }

  ghost predicate HasWire(s: ConverterSet, name: string, format: string) {
    exists i :: FirstFor(s.converters, format, i) && s.fold(name) in s.converters[i].to
  }

  lemma SentExactly(s: ConverterSet, la: LocalAttribute, format: string, a: Attribute)
    ensures Sent(s, la, format) == Some(a) <==> SentAs(s, la, format, a)
  {
    ConverterForExactly(s.converters, format);
    assert a == Attribute(a.name, a.nameFormat, a.friendlyName, a.values);
  }

  // ---- Round trip -----------------------------------------------------------------------

  /** Whether a name survives being sent and received, read off the maps: it has
      an outbound entry whose wire name is not known inbound under another name;
      or it is passed through verbatim and no converter knows it under another. */
  predicate ComesBack(s: ConverterSet, name: string, format: string) {
    match ConverterFor(s.converters, format)
    case Some(c) =>
      (match ToWireName(s.fold, c, name)
       case Some(wire) => ToLocalName(s.fold, c, wire).None? || ToLocalName(s.fold, c, wire).value == name
       case None => PassesThrough(s, name))
    case None => PassesThrough(s, name)
  }

  predicate PassesThrough(s: ConverterSet, name: string) {
    var known := AnyLocalName(s.fold, s.converters, name);
    s.allowUnknown && (known.None? || known.value == name)
  }

  lemma SentComesBack(s: ConverterSet, la: LocalAttribute, format: string)
    ensures ComesBack(s, la.name, format) <==>
            var a := Sent(s, la, format); a.Some? && FiledUnder(s, a.value) == Some(la.name)
    ensures Sent(s, la, format).Some? ==> FiledUnder(s, Sent(s, la, format).value).Some?
    ensures Sent(s, la, format).Some? ==> Sent(s, la, format).value.values == la.values
  {
  }

  function Returned(s: ConverterSet, ava: seq<LocalAttribute>, format: string): seq<LocalAttribute> {
    Filed(s, AllSent(s, ava, format))
  }

  lemma FiledSnoc(s: ConverterSet, attributes: seq<Attribute>, a: Attribute)
    ensures Filed(s, attributes + [a]) ==
            match FiledUnder(s, a) case Some(name) => Filed(s, attributes) + [LocalAttribute(name, a.values)] case None => Filed(s, attributes)
  {
    assert (attributes + [a])[..|attributes|] == attributes;
  }

  /** No more comes back than was there, and the same comes back exactly when
      every name does. */
  lemma {:induction false} ReturnedMeaning(s: ConverterSet, ava: seq<LocalAttribute>, format: string)
    ensures |Returned(s, ava, format)| <= |ava|
    ensures Returned(s, ava, format) == ava <==> forall la :: la in ava ==> ComesBack(s, la.name, format)
  {
    if ava != [] {
      var front, la := ava[..|ava| - 1], ava[|ava| - 1];
      ReturnedMeaning(s, front, format);
      SentComesBack(s, la, format);
      assert ava == front + [la];
      var a := Sent(s, la, format);
      if a.Some? {
        FiledSnoc(s, AllSent(s, front, format), a.value);
        var back := LocalAttribute(FiledUnder(s, a.value).value, la.values);
        assert Returned(s, ava, format) == Returned(s, front, format) + [back];
        LastOfTwo(Returned(s, front, format), back, front, la);
      }
    }
  }

  lemma LastOfTwo(xs: seq<LocalAttribute>, x: LocalAttribute, ys: seq<LocalAttribute>, y: LocalAttribute)
    ensures xs + [x] == ys + [y] <==> xs == ys && x == y
  {
    if xs + [x] == ys + [y] {
      assert xs == (xs + [x])[..|xs|] && ys == (ys + [y])[..|ys|];
      assert x == (xs + [x])[|xs|] && y == (ys + [y])[|ys|];
    }
  }

  lemma DistinctSnoc(xs: seq<LocalAttribute>, x: LocalAttribute)
    ensures DistinctNames(xs + [x]) <==> DistinctNames(xs) && FindName(xs, x.name) == |xs|
  {
    var all := xs + [x];
    assert all[|xs|] == x && forall i :: 0 <= i < |xs| ==> all[i] == xs[i];
    var k := FindName(xs, x.name);
    if k < |xs| {
      assert all[k].name == all[|xs|].name;
    }
  }

  lemma MergeStep(front: seq<LocalAttribute>, merged: seq<LocalAttribute>, la: LocalAttribute, distinct: bool)
    requires if distinct then merged == front else |merged| < |front|
    ensures var new' := distinct && FindName(front, la.name) == |front|;
            if new' then MergeOne(merged, la) == front + [la] else |MergeOne(merged, la)| < |front + [la]|
  {
  }

  lemma MergedLast(front: seq<LocalAttribute>, la: LocalAttribute)
    requires if DistinctNames(front) then Merged(front) == front else |Merged(front)| < |front|
    ensures if DistinctNames(front + [la]) then Merged(front + [la]) == front + [la]
            else |Merged(front + [la])| < |front + [la]|
  {
    MergedSnoc(front, la);
    MergeStep(front, Merged(front), la, DistinctNames(front));
    DistinctSnoc(front, la);
  }

  /** Merging leaves a list alone exactly when its names are distinct, and
      otherwise shortens it. */
  lemma {:induction false} MergedMeaning(filed: seq<LocalAttribute>)
    ensures if DistinctNames(filed) then Merged(filed) == filed else |Merged(filed)| < |filed|
  {
    if filed != [] {
      var front, la := filed[..|filed| - 1], filed[|filed| - 1];
      MergedMeaning(front);
      MergedLast(front, la);
      assert filed == front + [la];
    }
  }

  /** A name comes back exactly when what it is sent as is filed under it. */
  lemma ComesBackExactly(s: ConverterSet, la: LocalAttribute, format: string)
    ensures ComesBack(s, la.name, format) <==> exists a :: SentAs(s, la, format, a) && FiledAs(s, a, la.name)
  {
    SentComesBack(s, la, format);
    var sent := Sent(s, la, format);
    if sent.Some? {
      SentExactly(s, la, format, sent.value);
      FiledExactly(s, sent.value, la.name);
    }
    forall a | SentAs(s, la, format, a)
      ensures sent == Some(a)
    {
      SentExactly(s, la, format, a);
    }
  }

  /** Round trip, exactly: converting to wire names and back gives the same list
      if and only if its names are distinct and each of them comes back. */
  lemma RoundTripExactly(s: ConverterSet, ava: seq<LocalAttribute>, format: string)
    ensures Merged(Filed(s, AllSent(s, ava, format))) == ava <==>
            DistinctNames(ava) && forall la :: la in ava ==> ComesBack(s, la.name, format)
  {
    var back := Returned(s, ava, format);
    ReturnedMeaning(s, ava, format);
    MergedMeaning(back);
    MergeConserves(back);
  }
}
