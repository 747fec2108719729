/** Selecting one entity from a metadata document
    (crates/gamlastan-mdq/src/verify.rs). */
module MetadataSelection {
  import opened Wrappers
  import opened XsDuration

  datatype MdqError =
    | BadDuration
    | EntityNotFound
    | EntityIdMismatch
    | RoleMissing
    | Expired
    | UnexpectedRoot
    | NotVerified

  datatype EntityDescriptor = EntityDescriptor(
    entityId: string, cacheDuration: Option<string>, validUntil: Option<int>, isIdp: bool, isSp: bool)

  datatype Group = Group(cacheDuration: Option<string>, validUntil: Option<int>, children: seq<Child>)

  datatype Child = Entity(entity: EntityDescriptor) | Entities(group: Group)

  datatype Document = EntityRoot(entity: EntityDescriptor) | GroupRoot(group: Group) | OtherRoot

  datatype RequiredRole = Any | Idp | Sp

  datatype Selected = Selected(entity: EntityDescriptor, cacheDuration: Option<real>, validUntil: Option<int>)

  function CombineDuration(left: Option<real>, right: Option<real>): Option<real> {
    match (left, right)
    case (Some(l), Some(r)) => Some(if l <= r then l else r)
    case (Some(l), None) => Some(l)
    case (None, r) => r
  }

  function CombineValidUntil(left: Option<int>, right: Option<int>): Option<int> {
    match (left, right)
    case (Some(l), Some(r)) => Some(if l <= r then l else r)
    case (Some(l), None) => Some(l)
    case (None, r) => r
  }

  /** `cache_duration.map(parse_xs_duration).transpose()`. */
  function Hint(text: Option<string>): Result<Option<real>, MdqError> {
    match text
    case None => Ok(None)
    case Some(s) => (match Parsed(Component, s) case Some(v) => Ok(Some(v)) case None => Err(BadDuration))
  }

  function SelectEntity(g: Group, id: string, duration: Option<real>, until: Option<int>): Result<Option<Selected>, MdqError>
    decreases g, 1
  {
    match Hint(g.cacheDuration)
    case Err(e) => Err(e)
    case Ok(own) => SelectChild(g, 0, id, CombineDuration(duration, own), CombineValidUntil(until, g.validUntil))
  }

  /** The loop over the children from the `i`th on. */
  function SelectChild(g: Group, i: nat, id: string, duration: Option<real>, until: Option<int>): Result<Option<Selected>, MdqError>
    requires i <= |g.children|
    decreases g, 0, |g.children| - i
  {
    if i == |g.children| then Ok(None)
    else match g.children[i]
      case Entity(e) =>
        if e.entityId == id then Ok(Some(Selected(e, duration, until))) else SelectChild(g, i + 1, id, duration, until)
      case Entities(nested) =>
        (match SelectEntity(nested, id, duration, until)
         case Err(e) => Err(e)
         case Ok(Some(found)) => Ok(Some(found))
         case Ok(None) => SelectChild(g, i + 1, id, duration, until))
  }

  predicate RoleOk(e: EntityDescriptor, role: RequiredRole) {
    match role
    case Any => true
    case Idp => e.isIdp
    case Sp => e.isSp
  }

  function Finished(e: EntityDescriptor, id: string, role: RequiredRole, duration: Option<real>, until: Option<int>, now: int)
    : Result<Selected, MdqError>
  {
    if e.entityId != id then Err(EntityIdMismatch)
    else if !RoleOk(e, role) then Err(RoleMissing)
    else match Hint(e.cacheDuration)
      case Err(x) => Err(x)
      case Ok(own) =>
        var validUntil := CombineValidUntil(e.validUntil, until);
        if validUntil.Some? && now >= validUntil.value then Err(Expired)
        else Ok(Selected(e, CombineDuration(own, duration), validUntil))
  }

  /** `trusted` is the outcome of the signature policy on this document. */
  function ParseVerifySelect(doc: Document, trusted: bool, id: string, role: RequiredRole, now: int): Result<Selected, MdqError> {
    match doc
    case OtherRoot => Err(UnexpectedRoot)
    case EntityRoot(e) => if !trusted then Err(NotVerified) else Finished(e, id, role, None, None, now)
    case GroupRoot(g) =>
      if !trusted then Err(NotVerified)
      else match SelectEntity(g, id, None, None)
        case Err(e) => Err(e)
        case Ok(None) => Err(EntityNotFound)
        case Ok(Some(s)) => Finished(s.entity, id, role, s.cacheDuration, s.validUntil, now)
  }

  // ---- Document order ------------------------------------------------------------

  /** What a reader meets going through the document: the start of an aggregate,
      or an entity with the aggregates around it, outermost first. */
  datatype Visit = Opened(group: Group) | Met(entity: EntityDescriptor, path: seq<Group>)

  function Visits(g: Group, path: seq<Group>): seq<Visit>
    decreases g, 1
  {
    [Opened(g)] + ChildVisits(g, 0, path + [g])
  }

  function ChildVisits(g: Group, i: nat, path: seq<Group>): seq<Visit>
    requires i <= |g.children|
    decreases g, 0, |g.children| - i
  {
    if i == |g.children| then []
    else
      (match g.children[i] case Entity(e) => [Met(e, path)] case Entities(nested) => Visits(nested, path))
      + ChildVisits(g, i + 1, path)
  }

  predicate Stops(v: Visit, id: string) {
    match v
    case Opened(g) => Hint(g.cacheDuration).Err?
    case Met(e, _) => e.entityId == id
  }

  /** Index of the first visit that decides the search, or the number of visits. */
  function FirstStop(visits: seq<Visit>, id: string): (k: nat)
    ensures k <= |visits| && (k < |visits| ==> Stops(visits[k], id))
    ensures forall j :: 0 <= j < k ==> !Stops(visits[j], id)
  {
    if visits == [] || Stops(visits[0], id) then 0 else 1 + FirstStop(visits[1..], id)
  }

  /** The hints of a path of aggregates combined. */
  function PathDuration(path: seq<Group>): Option<real> {
    if path == [] then None
    else
      var last := path[|path| - 1];
      CombineDuration(PathDuration(path[..|path| - 1]), match Hint(last.cacheDuration) case Ok(h) => h case Err(_) => None)
  }

  function PathUntil(path: seq<Group>): Option<int> {
    if path == [] then None else CombineValidUntil(PathUntil(path[..|path| - 1]), path[|path| - 1].validUntil)
  }

  /** The answer a flat reading gives. */
  function Decided(visits: seq<Visit>, id: string): Result<Option<Selected>, MdqError> {
    var k := FirstStop(visits, id);
    if k == |visits| then Ok(None)
    else match visits[k]
      case Opened(_) => Err(BadDuration)
      case Met(e, path) => Ok(Some(Selected(e, PathDuration(path), PathUntil(path))))
  }

  lemma {:induction false} DecidedConcat(a: seq<Visit>, b: seq<Visit>, id: string)
    ensures Decided(a + b, id) == if Decided(a, id) == Ok(None) then Decided(b, id) else Decided(a, id)
  {
    if a == [] {
      assert a + b == b;
    } else {
      assert (a + b)[1..] == a[1..] + b;
      if !Stops(a[0], id) {
        DecidedConcat(a[1..], b, id);
        DecidedTail(a, id);
        DecidedTail(a + b, id);
      }
    }
  }

  lemma DecidedTail(visits: seq<Visit>, id: string)
    requires visits != [] && !Stops(visits[0], id)
    ensures Decided(visits, id) == Decided(visits[1..], id)
  {
  }

  /** The recursive selection decides exactly as the flat reading in document
      order does: the first matching entity with the combined hints of all the
      aggregates around it, nothing when there is none, an error exactly when an
      aggregate opened before has a duration that does not parse. */
  lemma {:induction false} SelectIsFirstInOrder(g: Group, id: string, path: seq<Group>)
    ensures SelectEntity(g, id, PathDuration(path), PathUntil(path)) == Decided(Visits(g, path), id)
    decreases g, 1
  {
    var inner := path + [g];
    assert inner[..|inner| - 1] == path;
    var rest := ChildVisits(g, 0, inner);
    DecidedConcat([Opened(g)], rest, id);
    if Hint(g.cacheDuration).Ok? {
      SelectChildInOrder(g, 0, id, inner);
    }
  }

  lemma {:induction false} SelectChildInOrder(g: Group, i: nat, id: string, path: seq<Group>)
    requires i <= |g.children|
    ensures SelectChild(g, i, id, PathDuration(path), PathUntil(path)) == Decided(ChildVisits(g, i, path), id)
    decreases g, 0, |g.children| - i
  {
    if i < |g.children| {
      var rest := ChildVisits(g, i + 1, path);
      SelectChildInOrder(g, i + 1, id, path);
      match g.children[i]
      case Entity(e) => DecidedConcat([Met(e, path)], rest, id);
      case Entities(nested) =>
        SelectIsFirstInOrder(nested, id, path);
        DecidedConcat(Visits(nested, path), rest, id);
    }
  }

  // ---- Hints are minima -------------------------------------------------------------

  /** `m` is the least of the present values, if any is present. */
  ghost predicate LeastInt(values: seq<Option<int>>, m: Option<int>) {
    && (m.None? ==> forall v :: v in values ==> v.None?)
    && (m.Some? ==> m in values && forall v :: v in values && v.Some? ==> m.value <= v.value)
  }

  ghost predicate LeastReal(values: seq<Option<real>>, m: Option<real>) {
    && (m.None? ==> forall v :: v in values ==> v.None?)
    && (m.Some? ==> m in values && forall v :: v in values && v.Some? ==> m.value <= v.value)
  }

  function Untils(path: seq<Group>): seq<Option<int>> {
    seq(|path|, i requires 0 <= i < |path| => path[i].validUntil)
  }

  function Durations(path: seq<Group>): seq<Option<real>> {
    seq(|path|, i requires 0 <= i < |path| => match Hint(path[i].cacheDuration) case Ok(h) => h case Err(_) => None)
  }

  lemma {:induction false} PathUntilIsLeast(path: seq<Group>)
    ensures LeastInt(Untils(path), PathUntil(path))
  {
    if path != [] {
      var front := path[..|path| - 1];
      PathUntilIsLeast(front);
      assert Untils(path) == Untils(front) + [path[|path| - 1].validUntil];
    }
  }

  lemma {:induction false} PathDurationIsLeast(path: seq<Group>)
    ensures LeastReal(Durations(path), PathDuration(path))
  {
    if path != [] {
      var front := path[..|path| - 1];
      PathDurationIsLeast(front);
      assert Durations(path) == Durations(front) + [Durations(path)[|path| - 1]];
    }
  }

  predicate Unexpired(until: Option<int>, now: int) {
    until.Some? ==> now < until.value
  }

  lemma LeastUnexpired(values: seq<Option<int>>, m: Option<int>, now: int)
    requires LeastInt(values, m)
    ensures Unexpired(m, now) <==> forall v :: v in values ==> Unexpired(v, now)
  {
  }

  predicate HasRole(e: EntityDescriptor, role: RequiredRole) {
    (role == Idp ==> e.isIdp) && (role == Sp ==> e.isSp)
  }

  /** The duration that an optional text states. */
  predicate States(text: Option<string>, duration: Option<real>) {
    if text.None? then duration.None? else duration.Some? && Parsed(Component, text.value) == duration
  }

  lemma HintExactly(text: Option<string>, duration: Option<real>)
    ensures Hint(text) == Ok(duration) <==> States(text, duration)
    ensures Hint(text) == Err(BadDuration) <==> text.Some? && Parsed(Component, text.value).None?
  {
  }

  /** A single-entity document is accepted, as `r`, exactly when it is trusted,
      has the requested ID and role and a duration that parses, and the clock is
      before its own expiry; the hints of `r` are the entity's own. */
  lemma EntityExactly(e: EntityDescriptor, trusted: bool, id: string, role: RequiredRole, now: int, r: Selected)
    ensures ParseVerifySelect(EntityRoot(e), trusted, id, role, now) == Ok(r) <==>
            && trusted && e.entityId == id && HasRole(e, role)
            && (e.validUntil.Some? ==> now < e.validUntil.value)
            && r.entity == e && r.validUntil == e.validUntil && States(e.cacheDuration, r.cacheDuration)
  {
    HintExactly(e.cacheDuration, r.cacheDuration);
    assert r == Selected(r.entity, r.cacheDuration, r.validUntil);
  }

  /** The first thing wrong with an entity, when there is something. */
  predicate FaultOf(e: EntityDescriptor, role: RequiredRole, expired: bool, fault: MdqError) {
    if !HasRole(e, role) then fault == RoleMissing
    else if e.cacheDuration.Some? && Parsed(Component, e.cacheDuration.value).None? then fault == BadDuration
    else expired && fault == Expired
  }

  /** Which error a single-entity document gives. */
  lemma EntityErrors(e: EntityDescriptor, id: string, role: RequiredRole, now: int, fault: MdqError)
    ensures ParseVerifySelect(EntityRoot(e), false, id, role, now) == Err(NotVerified)
    ensures e.entityId != id ==> ParseVerifySelect(EntityRoot(e), true, id, role, now) == Err(EntityIdMismatch)
    ensures e.entityId == id ==>
              (ParseVerifySelect(EntityRoot(e), true, id, role, now) == Err(fault) <==>
               FaultOf(e, role, e.validUntil.Some? && now >= e.validUntil.value, fault))
  {
  }

  /** Which error an aggregate gives: whichever visit in document order decides
      the search first decides it. */
  lemma GroupErrors(g: Group, id: string, role: RequiredRole, now: int, fault: MdqError)
    ensures ParseVerifySelect(GroupRoot(g), false, id, role, now) == Err(NotVerified)
    ensures ParseVerifySelect(OtherRoot, true, id, role, now) == Err(UnexpectedRoot)
    ensures var visits := Visits(g, []);
            var k := FirstStop(visits, id);
            var outcome := ParseVerifySelect(GroupRoot(g), true, id, role, now);
            && (k == |visits| ==> outcome == Err(EntityNotFound))
            && (k < |visits| && visits[k].Opened? ==> outcome == Err(BadDuration))
            && (k < |visits| && visits[k].Met? ==>
                  (outcome == Err(fault) <==>
                   FaultOf(visits[k].entity, role,
                           exists v :: v in Untils(visits[k].path) + [visits[k].entity.validUntil] && !Unexpired(v, now), fault)))
  {
    SelectIsFirstInOrder(g, id, []);
    var visits := Visits(g, []);
    var k := FirstStop(visits, id);
    if k < |visits| && visits[k].Met? {
      var e, path := visits[k].entity, visits[k].path;
      PathUntilIsLeast(path);
      LeastWithInt(Untils(path), PathUntil(path), e.validUntil);
      LeastUnexpired(Untils(path) + [e.validUntil], CombineValidUntil(e.validUntil, PathUntil(path)), now);
      FinishedErrors(e, id, role, PathDuration(path), PathUntil(path), now, fault);
    }
  }

  lemma FinishedErrors(e: EntityDescriptor, id: string, role: RequiredRole, duration: Option<real>, until: Option<int>,
                       now: int, fault: MdqError)
    requires e.entityId == id
    ensures Finished(e, id, role, duration, until, now) == Err(fault) <==>
            FaultOf(e, role, !Unexpired(CombineValidUntil(e.validUntil, until), now), fault)
  {
  }

  /** An aggregate is accepted exactly when its first deciding visit in document
      order is an entity with the requested ID that has the required role and a
      duration that parses, and neither it nor any aggregate around it has
      expired. */
  lemma AcceptedExactly(g: Group, id: string, role: RequiredRole, now: int)
    ensures var visits := Visits(g, []);
            var k := FirstStop(visits, id);
            ParseVerifySelect(GroupRoot(g), true, id, role, now).Ok? <==>
            && k < |visits| && visits[k].Met? && HasRole(visits[k].entity, role)
            && Hint(visits[k].entity.cacheDuration).Ok?
            && Unexpired(visits[k].entity.validUntil, now)
            && forall v :: v in Untils(visits[k].path) ==> Unexpired(v, now)
  {
    SelectIsFirstInOrder(g, id, []);
    var visits := Visits(g, []);
    var k := FirstStop(visits, id);
    if k < |visits| && visits[k].Met? {
      var path := visits[k].path;
      PathUntilIsLeast(path);
      LeastUnexpired(Untils(path), PathUntil(path), now);
    }
  }

  /** What is accepted is that entity, with the least duration and the least
      expiry over itself and every aggregate around it. */
  lemma AcceptedHints(g: Group, id: string, role: RequiredRole, now: int)
    requires ParseVerifySelect(GroupRoot(g), true, id, role, now).Ok?
    ensures var r, visits := ParseVerifySelect(GroupRoot(g), true, id, role, now).value, Visits(g, []);
            var k := FirstStop(visits, id);
            && k < |visits| && visits[k].Met? && visits[k].entity == r.entity && r.entity.entityId == id
            && LeastInt(Untils(visits[k].path) + [r.entity.validUntil], r.validUntil)
            && Hint(r.entity.cacheDuration).Ok?
            && LeastReal(Durations(visits[k].path) + [Hint(r.entity.cacheDuration).value], r.cacheDuration)
  {
    SelectIsFirstInOrder(g, id, []);
    var visits := Visits(g, []);
    var k := FirstStop(visits, id);
    var e, path := visits[k].entity, visits[k].path;
    PathUntilIsLeast(path);
    PathDurationIsLeast(path);
    LeastWithInt(Untils(path), PathUntil(path), e.validUntil);
    LeastWithReal(Durations(path), PathDuration(path), Hint(e.cacheDuration).value);
  }

  lemma LeastWithInt(values: seq<Option<int>>, m: Option<int>, own: Option<int>)
    requires LeastInt(values, m)
    ensures LeastInt(values + [own], CombineValidUntil(own, m))
  {
  }

  lemma LeastWithReal(values: seq<Option<real>>, m: Option<real>, own: Option<real>)
    requires LeastReal(values, m)
    ensures LeastReal(values + [own], CombineDuration(own, m))
  {
  }
}
