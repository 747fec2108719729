/** The metadata query client (crates/gamlastan-mdq/src/client.rs) with its
    cache (crates/gamlastan/src/metadata/cache.rs).  Instants and durations are
    in nanoseconds. */
module MdqClient {
  import opened Wrappers
  import opened SetSizes
  import opened MetadataSelection
  import XsDuration

  const SECOND := 1_000_000_000
  const RETRY_BASE := 5 * SECOND
  const RETRY_MAX := 120 * SECOND

  // ---- Static mode -----------------------------------------------------------------

  datatype Static = Static(
    entityId: string, metadata: Option<EntityDescriptor>, validUntil: Option<int>,
    sourceUrl: Option<string>, retryAfter: int, retryBackoff: int)

  datatype Failure = Outdated | NotConfigured | TooSoon | FetchFailed

  datatype Answer = Found(entity: EntityDescriptor) | Unavailable(why: Failure)

  /** What a call does once it has its snapshot and its clock reading. */
  datatype Decision = Reply(answer: Answer) | Fetch(url: string)

  function IsValidAt(until: Option<int>, now: int): bool {
    match until case Some(t) => now < t case None => true
  }

  function Decide(seen: Static, now: int): Decision {
    if seen.metadata.Some? && IsValidAt(seen.validUntil, now) then Reply(Found(seen.metadata.value))
    else if seen.sourceUrl.None? then
      Reply(Unavailable(if seen.metadata.Some? then Outdated else NotConfigured))
    else if now < seen.retryAfter then Reply(Unavailable(TooSoon))
    else Fetch(seen.sourceUrl.value)
  }

  function NextBackoff(backoff: int): int {
    if backoff * 2 <= RETRY_MAX then backoff * 2 else RETRY_MAX
  }

  /** What the second lock writes, for the outcome of the load. */
  function Settle(s: Static, url: string, now: int, outcome: Result<Selected, MdqError>): (Answer, Static) {
    match outcome
    case Ok(r) =>
      (Found(r.entity),
       s.(metadata := Some(r.entity), validUntil := r.validUntil, sourceUrl := Some(url), retryAfter := now, retryBackoff := RETRY_BASE))
    case Err(_) =>
      var next := NextBackoff(s.retryBackoff);
      (Unavailable(FetchFailed), s.(retryBackoff := next, retryAfter := now + next))
  }

  /** A call that no other call overlaps. */
  function Call(s: Static, now: int, outcome: Result<Selected, MdqError>): (Answer, Static) {
    match Decide(s, now)
    case Reply(a) => (a, s)
    case Fetch(url) => Settle(s, url, now, outcome)
  }

  /** The instant, if any, has not come. */
  predicate NotPast(until: Option<int>, now: int) {
    until.Some? ==> now < until.value
  }

  /** When a call fetches, and what it answers otherwise: good metadata is served,
      and without any an address is fetched once its retry is due. */
  lemma DecideExactly(seen: Static, now: int, url: string, e: EntityDescriptor)
    ensures var good := seen.metadata.Some? && NotPast(seen.validUntil, now);
            && (Decide(seen, now) == Reply(Found(e)) <==> good && seen.metadata.value == e)
            && (Decide(seen, now) == Fetch(url) <==> !good && seen.sourceUrl == Some(url) && now >= seen.retryAfter)
            && (Decide(seen, now) == Reply(Unavailable(TooSoon)) <==> !good && seen.sourceUrl.Some? && now < seen.retryAfter)
            && (Decide(seen, now) == Reply(Unavailable(Outdated)) <==> !good && seen.sourceUrl.None? && seen.metadata.Some?)
            && (Decide(seen, now) == Reply(Unavailable(NotConfigured)) <==> seen.sourceUrl.None? && seen.metadata.None?)
  {
  }

  class StaticState {
    const entityId: string
    var metadata: Option<EntityDescriptor>
    var validUntil: Option<int>
    var sourceUrl: Option<string>
    var retryAfter: int
    var retryBackoff: int

    ghost function Value(): Static
      reads this
    {
      Static(entityId, metadata, validUntil, sourceUrl, retryAfter, retryBackoff)
    }

    /** `into_static_file`, after the document was accepted. */
    constructor FromFile(entityId: string, loaded: Selected, now: int)
      ensures Value() == Static(entityId, Some(loaded.entity), loaded.validUntil, None, now, RETRY_BASE)
    {
      this.entityId := entityId;
      metadata := Some(loaded.entity);
      validUntil := loaded.validUntil;
      sourceUrl := None;
      retryAfter := now;
      retryBackoff := RETRY_BASE;
    }

    /** `into_static_url`: a failed first load is retried lazily. */
    constructor FromUrl(entityId: string, url: string, first: Result<Selected, MdqError>, now: int)
      ensures first.Ok? ==>
                Value() == Static(entityId, Some(first.value.entity), first.value.validUntil, Some(url), now, RETRY_BASE)
      ensures first.Err? ==>
                Value() == Static(entityId, None, None, Some(url), now + RETRY_BASE, RETRY_BASE)
    {
      this.entityId := entityId;
      metadata := if first.Ok? then Some(first.value.entity) else None;
      validUntil := if first.Ok? then first.value.validUntil else None;
      sourceUrl := Some(url);
      retryAfter := if first.Ok? then now else now + RETRY_BASE;
      retryBackoff := RETRY_BASE;
    }

    /** A whole call with nothing in between; `outcome` is what the load gives
        if it is made. */
    method GetStatic(now: int, outcome: Result<Selected, MdqError>) returns (answer: Answer)
      modifies this
      ensures (answer, Value()) == Call(old(Value()), now, outcome)
    {
      if metadata.Some? {
        if IsValidAt(validUntil, now) {
          return Found(metadata.value);
        }
        if sourceUrl.None? {
          return Unavailable(Outdated);
        }
      }
      if sourceUrl.None? {
        return Unavailable(NotConfigured);
      }
      if now < retryAfter {
        return Unavailable(TooSoon);
      }
      match outcome
      case Ok(r) =>
        metadata := Some(r.entity);
        validUntil := r.validUntil;
        retryAfter := now;
        retryBackoff := RETRY_BASE;
        answer := Found(r.entity);
      case Err(_) =>
        retryBackoff := NextBackoff(retryBackoff);
        retryAfter := now + retryBackoff;
        answer := Unavailable(FetchFailed);
    }
  }

  // ---- Retries of a failing streak ---------------------------------------------------

  function Power2(n: nat): (p: int)
    ensures p >= 1
  {
    if n == 0 then 1 else 2 * Power2(n - 1)
  }

  /** min(5 * 2^k, 120) seconds. */
  function Backoff(k: nat): (b: int)
    ensures RETRY_BASE <= b <= RETRY_MAX
  {
    if RETRY_BASE * Power2(k) <= RETRY_MAX then RETRY_BASE * Power2(k) else RETRY_MAX
  }

  lemma {:induction false} Power2Grows(n: nat, k: nat)
    requires k <= n
    ensures Power2(k) <= Power2(n)
  {
    if k < n {
      Power2Grows(n - 1, k);
    }
  }

  lemma BackoffDoubles(k: nat)
    ensures NextBackoff(Backoff(k)) == Backoff(k + 1)
  {
  }

  /** The waits after the first failures: 5, 10, 20, 40, 80 and from then on 120
      seconds. */
  lemma BackoffSteps(k: nat)
    ensures Backoff(0) == 5_000_000_000 && Backoff(1) == 10_000_000_000 && Backoff(2) == 20_000_000_000
    ensures Backoff(3) == 40_000_000_000 && Backoff(4) == 80_000_000_000
    ensures k >= 5 ==> Backoff(k) == 120_000_000_000
  {
    assert Power2(0) == 1 && Power2(1) == 2 * Power2(0) && Power2(2) == 2 * Power2(1);
    assert Power2(3) == 2 * Power2(2) && Power2(4) == 2 * Power2(3) && Power2(5) == 2 * Power2(4);
    if k >= 5 {
      Power2Grows(k, 5);
    }
  }

  datatype Visit = Visit(now: int, outcome: Result<Selected, MdqError>)

  function StateAfter(s: Static, calls: seq<Visit>): Static {
    if calls == [] then s
    else
      var last := calls[|calls| - 1];
      Call(StateAfter(s, calls[..|calls| - 1]), last.now, last.outcome).1
  }

  /** The instants at which a series of calls went to the network. */
  function FetchTimes(s: Static, calls: seq<Visit>): seq<int> {
    if calls == [] then []
    else
      var front, last := calls[..|calls| - 1], calls[|calls| - 1];
      FetchTimes(s, front) + if Decide(StateAfter(s, front), last.now).Fetch? then [last.now] else []
  }

  predicate AllFail(calls: seq<Visit>) {
    forall c :: c in calls ==> c.outcome.Err?
  }

  /** After n failed fetches from the base the backoff is min(5 * 2^n, 120)
      seconds, and each fetch waited out the backoff before it. */
  lemma {:induction false} FailingStreak(s: Static, calls: seq<Visit>)
    requires s.retryBackoff == RETRY_BASE && AllFail(calls)
    ensures var times, after := FetchTimes(s, calls), StateAfter(s, calls);
            && after.retryBackoff == Backoff(|times|)
            && after.retryAfter == (if times == [] then s.retryAfter else times[|times| - 1] + Backoff(|times|))
            && (times != [] ==> times[0] >= s.retryAfter)
            && forall i :: 1 <= i < |times| ==> times[i] >= times[i - 1] + Backoff(i)
    decreases |calls|
  {
    if calls != [] {
      var front, last := calls[..|calls| - 1], calls[|calls| - 1];
      assert last in calls;
      FailingStreak(s, front);
      BackoffDoubles(|FetchTimes(s, front)|);
    }
  }

  /** Sum of the backoffs after fetches number i+1 to j. */
  function BackoffSum(i: nat, j: nat): int
    requires i <= j
  {
    if i == j then 0 else BackoffSum(i, j - 1) + Backoff(j)
  }

  /** The j-th fetch of a failing streak comes no sooner after the i-th than the
      sum of the backoffs in between. */
  lemma {:induction false} FetchesAreSpaced(s: Static, calls: seq<Visit>, i: nat, j: nat)
    requires s.retryBackoff == RETRY_BASE && AllFail(calls) && i <= j < |FetchTimes(s, calls)|
    ensures FetchTimes(s, calls)[j] >= FetchTimes(s, calls)[i] + BackoffSum(i, j)
    decreases j
  {
    FailingStreak(s, calls);
    if i < j {
      FetchesAreSpaced(s, calls, i, j - 1);
    }
  }

  lemma {:induction false} SumFromBelow(i: nat, j: nat)
    requires i <= j
    ensures BackoffSum(i, j) >= (j - i) * Backoff(i + 1)
    decreases j
  {
    if i < j {
      SumFromBelow(i, j - 1);
      BackoffGrows(j, i + 1);
      OneMore(j - 1 - i, Backoff(i + 1));
    }
  }

  lemma BackoffGrows(n: nat, k: nat)
    requires k <= n
    ensures Backoff(k) <= Backoff(n)
  {
    Power2Grows(n, k);
  }

  lemma OneMore(n: int, b: int)
    ensures (n + 1) * b == n * b + b
  {
  }

  /** Bound on fetches in a window: the fetches numbered i to j of a failing
      streak span at least (j - i) times the backoff after the i-th, which is at
      least ten seconds, and two minutes from the fifth failure on. */
  lemma FetchesInWindow(s: Static, calls: seq<Visit>, i: nat, j: nat)
    requires s.retryBackoff == RETRY_BASE && AllFail(calls) && i <= j < |FetchTimes(s, calls)|
    ensures FetchTimes(s, calls)[j] - FetchTimes(s, calls)[i] >= (j - i) * (10 * SECOND)
    ensures i >= 4 ==> FetchTimes(s, calls)[j] - FetchTimes(s, calls)[i] >= (j - i) * RETRY_MAX
  {
    FetchesAreSpaced(s, calls, i, j);
    SumFromBelow(i, j);
    Power2Grows(i + 1, 1);
    assert Power2(1) == 2 * Power2(0);
    assert Backoff(i + 1) >= 10 * SECOND;
    Scale(j - i, 10 * SECOND, Backoff(i + 1));
    if i >= 4 {
      Power2Grows(i + 1, 5);
      assert Power2(5) == 32;
      Scale(j - i, RETRY_MAX, Backoff(i + 1));
    }
  }

  lemma Scale(n: int, a: int, b: int)
    requires n >= 0 && a <= b
    ensures n * a <= n * b
  {
  }

  // ---- Dynamic mode: the cache --------------------------------------------------------

  datatype Cached = Cached(metadata: EntityDescriptor, fetchedAt: int, duration: Option<real>, validUntil: Option<int>)

  type Cache = map<string, Cached>

  predicate ShouldRefresh(c: Cached, now: int) {
    || (c.duration.Some? && now as real >= c.fetchedAt as real + c.duration.value * SECOND as real)
    || !IsValidAt(c.validUntil, now)
  }

  /** An entry may be served: neither its lifetime, counted from the fetch, nor its
      expiry is over. */
  predicate StillGood(c: Cached, now: int) {
    && (c.duration.Some? ==> now as real < c.fetchedAt as real + c.duration.value * 1_000_000_000.0)
    && NotPast(c.validUntil, now)
  }

  lemma RefreshExactly(c: Cached, now: int)
    ensures ShouldRefresh(c, now) <==> !StillGood(c, now)
  {
  }

  /** The last instant of chrono 0.4. */
  const LATEST := 8_210_266_876_799_999_999_999

  /** Whether looking up an entry computes at all: the sum of fetch time and
      duration panics past the last instant. */
  predicate LookupTotal(c: Cached) {
    c.duration.Some? ==> c.fetchedAt as real + c.duration.value * SECOND as real <= LATEST as real
  }

  function Fresh(cache: Cache, now: int): Cache {
    map id | id in cache && IsValidAt(cache[id].validUntil, now) :: cache[id]
  }

  ghost predicate LeastRecent(cache: Cache, id: string) {
    id in cache && forall other :: other in cache ==> cache[id].fetchedAt <= cache[other].fetchedAt
  }

  /** `put_bounded`; among equally old entries the victim is open. */
  ghost predicate WasPut(before: Cache, id: string, entry: Cached, capacity: nat, now: int, after: Cache) {
    var live := Fresh(before, now);
    if capacity == 0 then after == live
    else if id in live || |live| < capacity then after == live[id := entry]
    else exists victim :: LeastRecent(live, victim) && after == (live - {victim})[id := entry]
  }

  /** What a put leaves: the new entry, if anything may be kept; of the others
      only such as have not expired; all of those unless a new ID met a full
      cache, and then all but one fetched no later than any other. */
  lemma PutExactly(before: Cache, id: string, entry: Cached, capacity: nat, now: int, after: Cache)
    requires WasPut(before, id, entry, capacity, now, after)
    ensures var live := set k | k in before && NotPast(before[k].validUntil, now);
            && (capacity > 0 ==> id in after && after[id] == entry)
            && (forall k :: k in after && (k != id || capacity == 0) ==> k in live && after[k] == before[k])
            && (id in live || |live| < capacity || capacity == 0 ==> live <= after.Keys)
            && (forall k, o :: k in live - after.Keys && o in live ==> before[k].fetchedAt <= before[o].fetchedAt)
            && (forall k, o :: k in live - after.Keys && o in live - after.Keys ==> k == o)
  {
    assert Fresh(before, now).Keys == set k | k in before && NotPast(before[k].validUntil, now);
  }

  lemma LeastRecentExists(cache: Cache)
    requires |cache| > 0
    ensures exists id :: LeastRecent(cache, id)
    decreases |cache|
  {
    var id :| id in cache;
    var rest := cache - {id};
    assert forall other :: other in cache ==> other == id || other in rest;
    if rest == map[] {
      assert LeastRecent(cache, id);
    } else {
      assert rest.Keys == cache.Keys - {id};
      LeastRecentExists(rest);
      var o :| LeastRecent(rest, o);
      assert LeastRecent(cache, if cache[id].fetchedAt <= cache[o].fetchedAt then id else o);
    }
  }

  class MetadataCache {
    var entries: Cache

    constructor ()
      ensures entries == map[]
    {
      entries := map[];
    }

    method PurgeExpired(now: int)
      modifies this
      ensures entries == Fresh(old(entries), now)
    {
      entries := map id | id in entries && IsValidAt(entries[id].validUntil, now) :: entries[id];
    }

    method PutBounded(id: string, entry: Cached, capacity: nat, now: int)
      modifies this
      ensures WasPut(old(entries), id, entry, capacity, now, entries)
    {
      PurgeExpired(now);
      ghost var live := entries;
      if capacity == 0 {
        return;
      }
      if id !in entries && |entries| >= capacity {
        LeastRecentExists(entries);
        var oldest :| oldest in entries && forall other :: other in entries ==> entries[oldest].fetchedAt <= entries[other].fetchedAt;
        assert LeastRecent(live, oldest);
        entries := entries - {oldest};
      }
      entries := entries[id := entry];
    }
  }

  // ---- Any number of overlapping callers ------------------------------------------------

  /** Configuration: the trust decision on a document, the required role, the
      configured static entity, the fallback lifetime and the cache capacity. */
  datatype Config = Config(trust: Document -> bool, role: RequiredRole, entityId: string, fallbackTtl: real, capacity: nat)

  function Load(cfg: Config, fetched: Option<Document>, id: string, now: int): Result<Selected, MdqError> {
    match fetched
    case None => Err(NotVerified)
    case Some(doc) => ParseVerifySelect(doc, cfg.trust(doc), id, cfg.role, now)
  }

  /** Where a caller stands: every lock is released before the next step. */
  datatype Point =
    | Asked
    | Seen(snapshot: Static)
    | Loading(url: string, now: int)
    | Loaded(url: string, now: int, outcome: Result<Selected, MdqError>)
    | Answered(answer: Answer, stored: bool, at: int)
    | Queried(id: string)
    | QueryLoading(id: string, now: int)
    | QueryLoaded(id: string, now: int, outcome: Result<Selected, MdqError>)
    | QueryAnswered(id: string, answer: Answer, cached: bool, at: int)

  /** A load that was made: by which caller (none for the one that built the
      client), for which entity, what the network gave, and the clock reading it
      was judged by. */
  datatype Fetched = Fetched(caller: Option<nat>, id: string, document: Option<Document>, at: int)

  /** With the loads made so far and, for each settled static fetch, whether it
      succeeded. */
  datatype State = State(stored: Static, cache: Cache, callers: map<nat, Point>, loads: seq<Fetched>, settled: seq<bool>)

  function Moved(s: State, caller: nat, at: Point): State {
    s.(callers := s.callers[caller := at])
  }

  function WithLoad(s: State, load: Fetched): State {
    s.(loads := s.loads + [load])
  }

  function CacheEntry(cfg: Config, r: Selected, now: int): Cached {
    Cached(r.entity, now, if r.cacheDuration.Some? then r.cacheDuration else Some(cfg.fallbackTtl), r.validUntil)
  }

  /** One step of a caller with whatever clock reading and network result it gets. */
  ghost predicate Step(cfg: Config, s: State, s': State, caller: nat, clock: int, fetched: Option<Document>) {
    && caller in s.callers
    && match s.callers[caller]
       case Asked => s' == Moved(s, caller, Seen(s.stored))
       case Seen(snapshot) =>
         (match Decide(snapshot, clock)
          case Reply(a) => s' == Moved(s, caller, Answered(a, true, clock))
          case Fetch(url) => s' == Moved(s, caller, Loading(url, clock)))
       case Loading(url, now) =>
         s' == WithLoad(Moved(s, caller, Loaded(url, now, Load(cfg, fetched, cfg.entityId, clock))),
                        Fetched(Some(caller), cfg.entityId, fetched, clock))
       case Loaded(url, now, outcome) =>
         var (a, stored) := Settle(s.stored, url, now, outcome);
         s' == Moved(s, caller, Answered(a, false, now)).(stored := stored, settled := s.settled + [outcome.Ok?])
       case Queried(id) =>
         if id in s.cache && !ShouldRefresh(s.cache[id], clock)
         then s' == Moved(s, caller, QueryAnswered(id, Found(s.cache[id].metadata), true, clock))
         else s' == Moved(s, caller, QueryLoading(id, clock))
       case QueryLoading(id, now) =>
         s' == WithLoad(Moved(s, caller, QueryLoaded(id, now, Load(cfg, fetched, id, now))),
                        Fetched(Some(caller), id, fetched, now))
       case QueryLoaded(id, now, outcome) =>
         (match outcome
          case Err(_) => s' == Moved(s, caller, QueryAnswered(id, Unavailable(FetchFailed), false, now))
          case Ok(r) =>
            && WasPut(s.cache, id, CacheEntry(cfg, r, now), cfg.capacity, now, s'.cache)
            && s' == Moved(s, caller, QueryAnswered(id, Found(r.entity), false, now)).(cache := s'.cache))
       case _ => false
  }

  ghost predicate Next(cfg: Config, s: State, s': State) {
    || (exists caller: nat, at: Point :: caller !in s.callers && (at.Asked? || at.Queried?) && s' == Moved(s, caller, at))
    || (exists caller, clock, fetched :: Step(cfg, s, s', caller, clock, fetched))
    || s' == s.(cache := map[])     // `clear_cache`
  }

  /** The state either constructor builds; without an address the first load must
      have succeeded. */
  ghost predicate Start(cfg: Config, s: State, url: Option<string>, first: Fetched) {
    var outcome := Load(cfg, first.document, cfg.entityId, first.at);
    && first.caller == None && first.id == cfg.entityId && (url.None? ==> outcome.Ok?)
    && s.stored == Static(cfg.entityId, if outcome.Ok? then Some(outcome.value.entity) else None,
                          if outcome.Ok? then outcome.value.validUntil else None, url, s.stored.retryAfter, RETRY_BASE)
    && s.cache == map[] && s.callers == map[] && s.loads == [first] && s.settled == []
  }

  /** Any interleaving of any number of callers, from a client as it was built. */
  ghost predicate Interleaving(cfg: Config, run: seq<State>) {
    && run != [] && (exists url, first :: Start(cfg, run[0], url, first))
    && forall i :: 0 <= i < |run| - 1 ==> Next(cfg, run[i], run[i + 1])
  }

  /** The lookup of an entry is total exactly when its hint, or the fallback, fits
      between the fetch time and the last instant. */
  lemma LookupTotalExactly(cfg: Config, r: Selected, now: int)
    ensures LookupTotal(CacheEntry(cfg, r, now)) <==>
            (if r.cacheDuration.Some? then r.cacheDuration.value else cfg.fallbackTtl) <= (LATEST - now) as real / SECOND as real
  {
    var d := if r.cacheDuration.Some? then r.cacheDuration.value else cfg.fallbackTtl;
    ScaleDown(d, (LATEST - now) as real, SECOND as real);
  }

  lemma ScaleDown(d: real, room: real, unit: real)
    requires unit > 0.0
    ensures d * unit <= room <==> d <= room / unit
  {
    var q := room / unit;
    assert q * unit == room;
    if d <= q {
      assert (q - d) * unit >= 0.0;
    } else {
      assert (d - q) * unit > 0.0;
    }
  }

  /** The hint `P300000Y` is accepted, and makes every later lookup of its entry
      panic. */
  lemma LongHintBreaksLookup(cfg: Config, r: Selected, now: int)
    ensures Hint(Some("P300000Y")) == Ok(Some(9460800000000.0))
    ensures now >= 0 && r.cacheDuration == Some(9460800000000.0) ==> !LookupTotal(CacheEntry(cfg, r, now))
  {
    XsDuration.LongDuration();
  }

  // ---- What each step does -------------------------------------------------------------------

  /** A query is answered from the cache exactly when an entry of that ID is still
      good, and otherwise loads; a successful load is answered, and kept under its
      ID from the reading the query started with, for the document's cache
      duration or else the fallback; a failed one keeps nothing. */
  lemma QueryStepExactly(cfg: Config, s: State, s': State, caller: nat, clock: int, fetched: Option<Document>)
    requires Step(cfg, s, s', caller, clock, fetched)
    ensures var at, after := s.callers[caller], s'.callers[caller];
            && (at.Queried? ==>
                  && s'.cache == s.cache
                  && after == if at.id in s.cache && StillGood(s.cache[at.id], clock)
                              then QueryAnswered(at.id, Found(s.cache[at.id].metadata), true, clock)
                              else QueryLoading(at.id, clock))
            && (at.QueryLoading? ==> after == QueryLoaded(at.id, at.now, Load(cfg, fetched, at.id, at.now)))
            && (at.QueryLoaded? && at.outcome.Err? ==>
                  s'.cache == s.cache && after == QueryAnswered(at.id, Unavailable(FetchFailed), false, at.now))
            && (at.QueryLoaded? && at.outcome.Ok? ==>
                  var r := at.outcome.value;
                  && after == QueryAnswered(at.id, Found(r.entity), false, at.now)
                  && (cfg.capacity > 0 ==> at.id in s'.cache && KeptAs(s'.cache[at.id], r, at.now, cfg.fallbackTtl)))
  {
    var at := s.callers[caller];
    if at.Queried? && at.id in s.cache {
      RefreshExactly(s.cache[at.id], clock);
    }
  }

  predicate KeptAs(c: Cached, r: Selected, now: int, fallbackTtl: real) {
    && c.metadata == r.entity && c.fetchedAt == now && c.validUntil == r.validUntil
    && (r.cacheDuration.Some? ==> c.duration == r.cacheDuration)
    && (r.cacheDuration.None? ==> c.duration == Some(fallbackTtl))
  }

  /** A static call looks at a snapshot and then at the clock; what it fetches is
      judged by a later reading, and settled on whatever is stored then: a success
      replaces the metadata and restarts the waits at five seconds, a failure
      keeps it and doubles the wait up to two minutes. */
  lemma StaticStepExactly(cfg: Config, s: State, s': State, caller: nat, clock: int, fetched: Option<Document>)
    requires Step(cfg, s, s', caller, clock, fetched)
    ensures var at, after := s.callers[caller], s'.callers[caller];
            && (at.Asked? ==> after == Seen(s.stored) && s'.stored == s.stored)
            && (at.Seen? ==>
                  s'.stored == s.stored
                  && (after.Loading? <==> Decide(at.snapshot, clock).Fetch?)
                  && (after.Loading? ==> after == Loading(Decide(at.snapshot, clock).url, clock))
                  && (!after.Loading? ==> after == Answered(Decide(at.snapshot, clock).answer, true, clock)))
            && (at.Loading? ==> after == Loaded(at.url, at.now, Load(cfg, fetched, cfg.entityId, clock)) && s'.stored == s.stored)
            && (at.Loaded? && at.outcome.Ok? ==>
                  var r := at.outcome.value;
                  after == Answered(Found(r.entity), false, at.now)
                  && s'.stored == Static(s.stored.entityId, Some(r.entity), r.validUntil, Some(at.url), at.now, 5_000_000_000))
            && (at.Loaded? && at.outcome.Err? ==>
                  after == Answered(Unavailable(FetchFailed), false, at.now)
                  && var wait := if 2 * s.stored.retryBackoff <= 120_000_000_000 then 2 * s.stored.retryBackoff else 120_000_000_000;
                     s'.stored == s.stored.(retryBackoff := wait, retryAfter := at.now + wait))
  {
  }

  // ---- What every state keeps --------------------------------------------------------------

  /** This load, judged by its own clock reading, accepted the entity. */
  ghost predicate Admits(cfg: Config, l: Fetched, id: string, e: EntityDescriptor, until: Option<int>) {
    && l.id == id && l.document.Some?
    && var r := Load(cfg, l.document, id, l.at);
       r.Ok? && r.value.entity == e && r.value.validUntil == until
  }

  /** The aggregate names the entity, as the first visit that decides the search,
      and at that reading neither its own expiry nor that of any aggregate around
      it has passed. */
  ghost predicate CurrentIn(g: Group, id: string, e: EntityDescriptor, until: Option<int>, at: int) {
    var visits := Visits(g, []);
    var k := FirstStop(visits, id);
    && k < |visits| && visits[k].Met? && visits[k].entity == e
    && NotPast(e.validUntil, at) && (forall i :: 0 <= i < |visits[k].path| ==> NotPast(visits[k].path[i].validUntil, at))
    && LeastInt(Untils(visits[k].path) + [e.validUntil], until)
  }

  /** What a load admits was trusted, is the entity asked for with the required
      role, and at the reading the load was judged by neither its own expiry nor
      that of any aggregate around it had passed; the expiry it is kept with is
      the least of these. */
  lemma AdmitsMeaning(cfg: Config, l: Fetched, id: string, e: EntityDescriptor, until: Option<int>)
    requires Admits(cfg, l, id, e, until)
    ensures cfg.trust(l.document.value) && e.entityId == id && HasRole(e, cfg.role)
    ensures match l.document.value
            case EntityRoot(own) => own == e && until == e.validUntil && NotPast(e.validUntil, l.at)
            case GroupRoot(g) => CurrentIn(g, id, e, until, l.at)
            case OtherRoot => false
  {
    match l.document.value
    case EntityRoot(own) =>
      EntityExactly(own, cfg.trust(l.document.value), id, cfg.role, l.at, Load(cfg, l.document, id, l.at).value);
    case GroupRoot(g) => GroupIsCurrent(g, id, cfg.role, l.at);
    case OtherRoot =>
  }

  /** A load succeeds exactly when the network gave a trusted document in which
      the entity is found, has the role and a duration that parses, and nothing
      around it has expired. */
  lemma LoadExactly(cfg: Config, fetched: Option<Document>, id: string, now: int)
    ensures Load(cfg, fetched, id, now).Ok? <==>
            && fetched.Some? && cfg.trust(fetched.value)
            && match fetched.value
               case EntityRoot(e) =>
                 e.entityId == id && HasRole(e, cfg.role) && Hint(e.cacheDuration).Ok? && NotPast(e.validUntil, now)
               case GroupRoot(g) => FoundIn(g, id, cfg.role, now)
               case OtherRoot => false
  {
    if fetched.Some? {
      match fetched.value
      case EntityRoot(e) =>
        if Hint(e.cacheDuration).Ok? {
          HintExactly(e.cacheDuration, Hint(e.cacheDuration).value);
          EntityExactly(e, cfg.trust(fetched.value), id, cfg.role, now, Selected(e, Hint(e.cacheDuration).value, e.validUntil));
        }
      case GroupRoot(g) =>
        GroupFound(g, id, cfg.role, now);
      case OtherRoot =>
    }
  }

  ghost predicate FoundIn(g: Group, id: string, role: RequiredRole, now: int) {
    var visits := Visits(g, []);
    var k := FirstStop(visits, id);
    && k < |visits| && visits[k].Met? && HasRole(visits[k].entity, role) && Hint(visits[k].entity.cacheDuration).Ok?
    && NotPast(visits[k].entity.validUntil, now)
    && forall i :: 0 <= i < |visits[k].path| ==> NotPast(visits[k].path[i].validUntil, now)
  }

  lemma GroupFound(g: Group, id: string, role: RequiredRole, now: int)
    ensures ParseVerifySelect(GroupRoot(g), true, id, role, now).Ok? <==> FoundIn(g, id, role, now)
  {
    AcceptedExactly(g, id, role, now);
    var visits := Visits(g, []);
    var k := FirstStop(visits, id);
    if k < |visits| && visits[k].Met? {
      var path := visits[k].path;
      forall i | 0 <= i < |path|
        ensures Untils(path)[i] == path[i].validUntil && Untils(path)[i] in Untils(path)
      {
      }
    }
  }

  lemma GroupIsCurrent(g: Group, id: string, role: RequiredRole, now: int)
    requires ParseVerifySelect(GroupRoot(g), true, id, role, now).Ok?
    ensures var r := ParseVerifySelect(GroupRoot(g), true, id, role, now).value;
            CurrentIn(g, id, r.entity, r.validUntil, now) && HasRole(r.entity, role) && r.entity.entityId == id
  {
    GroupFound(g, id, role, now);
    AcceptedHints(g, id, role, now);
  }

  /** One of the loads made so far admitted the entity. */
  ghost predicate Admitted(cfg: Config, loads: seq<Fetched>, id: string, e: EntityDescriptor, until: Option<int>) {
    exists i :: 0 <= i < |loads| && Admits(cfg, loads[i], id, e, until)
  }

  /** So did one that was made by this caller (and judged at this reading). */
  ghost predicate AdmittedFor(cfg: Config, loads: seq<Fetched>, caller: nat, id: string, e: EntityDescriptor, until: Option<int>) {
    exists i :: 0 <= i < |loads| && loads[i].caller == Some(caller) && Admits(cfg, loads[i], id, e, until)
  }

  ghost predicate AdmittedAt(cfg: Config, loads: seq<Fetched>, id: string, e: EntityDescriptor, until: Option<int>, at: int) {
    exists i :: 0 <= i < |loads| && loads[i].at == at && Admits(cfg, loads[i], id, e, until)
  }

  /** How many settled fetches failed since the last one that succeeded. */
  function FailedSince(settled: seq<bool>): nat {
    if settled == [] || settled[|settled| - 1] then 0 else 1 + FailedSince(settled[..|settled| - 1])
  }

  ghost predicate StaticOk(cfg: Config, loads: seq<Fetched>, s: Static) {
    && s.entityId == cfg.entityId
    && (s.metadata.Some? ==> Admitted(cfg, loads, cfg.entityId, s.metadata.value, s.validUntil))
  }

  ghost predicate OutcomeOk(cfg: Config, loads: seq<Fetched>, caller: nat, id: string, outcome: Result<Selected, MdqError>) {
    outcome.Ok? ==> AdmittedFor(cfg, loads, caller, id, outcome.value.entity, outcome.value.validUntil)
  }

  /** The outcome of a load judged at the reading the caller started with. */
  ghost predicate QueryOutcomeOk(cfg: Config, loads: seq<Fetched>, caller: nat, id: string, now: int,
                                 outcome: Result<Selected, MdqError>)
  {
    && OutcomeOk(cfg, loads, caller, id, outcome)
    && (outcome.Ok? ==> AdmittedAt(cfg, loads, id, outcome.value.entity, outcome.value.validUntil, now))
  }

  /** An answer from storage was admitted by some load with an expiry that had not
      passed at the caller's clock reading; any other by the caller's own load. */
  ghost predicate AnswerOk(cfg: Config, loads: seq<Fetched>, caller: nat, id: string, a: Answer, stored: bool, at: int) {
    a.Found? ==>
      if stored then exists until :: Admitted(cfg, loads, id, a.entity, until) && NotPast(until, at)
      else exists until :: AdmittedFor(cfg, loads, caller, id, a.entity, until)
  }

  ghost predicate PointOk(cfg: Config, loads: seq<Fetched>, caller: nat, at: Point) {
    match at
    case Seen(snapshot) => StaticOk(cfg, loads, snapshot)
    case Loaded(_, _, outcome) => OutcomeOk(cfg, loads, caller, cfg.entityId, outcome)
    case Answered(a, stored, t) => AnswerOk(cfg, loads, caller, cfg.entityId, a, stored, t)
    case QueryLoaded(id, now, outcome) => QueryOutcomeOk(cfg, loads, caller, id, now, outcome)
    case QueryAnswered(id, a, cached, t) => AnswerOk(cfg, loads, caller, id, a, cached, t)
    case _ => true
  }

  ghost predicate CacheOk(cfg: Config, loads: seq<Fetched>, cache: Cache) {
    && |cache| <= cfg.capacity
    && forall id :: id in cache ==> EntryOk(cfg, loads, id, cache[id])
  }

  /** An entry was admitted for its key by a load judged when it says it was
      fetched. */
  ghost predicate EntryOk(cfg: Config, loads: seq<Fetched>, id: string, entry: Cached) {
    AdmittedAt(cfg, loads, id, entry.metadata, entry.validUntil, entry.fetchedAt)
  }

  ghost predicate Inv(cfg: Config, s: State) {
    && StaticOk(cfg, s.loads, s.stored) && CacheOk(cfg, s.loads, s.cache)
    && s.stored.retryBackoff == Backoff(FailedSince(s.settled))
    && forall c :: c in s.callers ==> PointOk(cfg, s.loads, c, s.callers[c])
  }

  // ---- A longer list of loads admits no less -------------------------------------------------

  lemma AdmittedGrows(cfg: Config, loads: seq<Fetched>, l: Fetched, id: string, e: EntityDescriptor, until: Option<int>)
    ensures Admitted(cfg, loads, id, e, until) ==> Admitted(cfg, loads + [l], id, e, until)
    ensures forall c :: AdmittedFor(cfg, loads, c, id, e, until) ==> AdmittedFor(cfg, loads + [l], c, id, e, until)
    ensures forall at :: AdmittedAt(cfg, loads, id, e, until, at) ==> AdmittedAt(cfg, loads + [l], id, e, until, at)
  {
    assert forall i :: 0 <= i < |loads| ==> (loads + [l])[i] == loads[i];
  }

  lemma StaticGrows(cfg: Config, loads: seq<Fetched>, l: Fetched, s: Static)
    requires StaticOk(cfg, loads, s)
    ensures StaticOk(cfg, loads + [l], s)
  {
    if s.metadata.Some? {
      AdmittedGrows(cfg, loads, l, cfg.entityId, s.metadata.value, s.validUntil);
    }
  }

  lemma AnswerGrows(cfg: Config, loads: seq<Fetched>, l: Fetched, caller: nat, id: string, a: Answer, stored: bool, at: int)
    requires AnswerOk(cfg, loads, caller, id, a, stored, at)
    ensures AnswerOk(cfg, loads + [l], caller, id, a, stored, at)
  {
    if a.Found? && stored {
      var until :| Admitted(cfg, loads, id, a.entity, until) && NotPast(until, at);
      AdmittedGrows(cfg, loads, l, id, a.entity, until);
    } else if a.Found? {
      var until :| AdmittedFor(cfg, loads, caller, id, a.entity, until);
      AdmittedGrows(cfg, loads, l, id, a.entity, until);
    }
  }

  lemma PointGrows(cfg: Config, loads: seq<Fetched>, l: Fetched, caller: nat, at: Point)
    requires PointOk(cfg, loads, caller, at)
    ensures PointOk(cfg, loads + [l], caller, at)
  {
    match at
    case Seen(snapshot) => StaticGrows(cfg, loads, l, snapshot);
    case Loaded(_, _, Ok(r)) => AdmittedGrows(cfg, loads, l, cfg.entityId, r.entity, r.validUntil);
    case Answered(a, stored, t) => AnswerGrows(cfg, loads, l, caller, cfg.entityId, a, stored, t);
    case QueryLoaded(id, _, Ok(r)) => AdmittedGrows(cfg, loads, l, id, r.entity, r.validUntil);
    case QueryAnswered(id, a, cached, t) => AnswerGrows(cfg, loads, l, caller, id, a, cached, t);
    case _ =>
  }

  lemma CacheGrows(cfg: Config, loads: seq<Fetched>, l: Fetched, cache: Cache)
    requires CacheOk(cfg, loads, cache)
    ensures CacheOk(cfg, loads + [l], cache)
  {
    forall id | id in cache
      ensures EntryOk(cfg, loads + [l], id, cache[id])
    {
      assert EntryOk(cfg, loads, id, cache[id]);
      AdmittedGrows(cfg, loads, l, id, cache[id].metadata, cache[id].validUntil);
    }
  }

  // ---- Each step keeps it ------------------------------------------------------------------

  /** A step that moves one caller and changes nothing else. */
  lemma MoveKeeps(cfg: Config, s: State, caller: nat, at: Point)
    requires Inv(cfg, s) && PointOk(cfg, s.loads, caller, at)
    ensures Inv(cfg, Moved(s, caller, at))
  {
  }

  /** A step that loads for its caller. */
  lemma LoadKeeps(cfg: Config, s: State, caller: nat, at: Point, l: Fetched)
    requires Inv(cfg, s) && PointOk(cfg, s.loads + [l], caller, at)
    ensures Inv(cfg, WithLoad(Moved(s, caller, at), l))
  {
    StaticGrows(cfg, s.loads, l, s.stored);
    CacheGrows(cfg, s.loads, l, s.cache);
    forall c | c in s.callers
      ensures PointOk(cfg, s.loads + [l], c, s.callers[c])
    {
      PointGrows(cfg, s.loads, l, c, s.callers[c]);
    }
  }

  lemma LoadIsAdmitted(cfg: Config, loads: seq<Fetched>, l: Fetched, caller: nat)
    requires l.caller == Some(caller)
    ensures QueryOutcomeOk(cfg, loads + [l], caller, l.id, l.at, Load(cfg, l.document, l.id, l.at))
  {
    var r := Load(cfg, l.document, l.id, l.at);
    assert (loads + [l])[|loads|] == l;
    if r.Ok? {
      assert Admits(cfg, (loads + [l])[|loads|], l.id, r.value.entity, r.value.validUntil);
    }
  }

  lemma FailedSnoc(settled: seq<bool>, ok: bool)
    ensures FailedSince(settled + [ok]) == if ok then 0 else 1 + FailedSince(settled)
  {
    assert (settled + [ok])[..|settled|] == settled;
  }

  lemma SettleKeeps(cfg: Config, s: State, s': State, caller: nat, url: string, now: int, outcome: Result<Selected, MdqError>)
    requires Inv(cfg, s) && caller in s.callers && s.callers[caller] == Loaded(url, now, outcome)
    requires var (a, stored) := Settle(s.stored, url, now, outcome);
             s' == Moved(s, caller, Answered(a, false, now)).(stored := stored, settled := s.settled + [outcome.Ok?])
    ensures Inv(cfg, s')
  {
    assert PointOk(cfg, s.loads, caller, s.callers[caller]);
    FailedSnoc(s.settled, outcome.Ok?);
    SettleBackoff(s.stored, url, now, outcome, FailedSince(s.settled));
    SettleAnswers(cfg, s, caller, url, now, outcome);
    MoveKeeps(cfg, s, caller, s'.callers[caller]);
  }

  lemma SettleAnswers(cfg: Config, s: State, caller: nat, url: string, now: int, outcome: Result<Selected, MdqError>)
    requires StaticOk(cfg, s.loads, s.stored) && OutcomeOk(cfg, s.loads, caller, cfg.entityId, outcome)
    ensures var (a, stored) := Settle(s.stored, url, now, outcome);
            StaticOk(cfg, s.loads, stored) && AnswerOk(cfg, s.loads, caller, cfg.entityId, a, false, now)
  {
    if outcome.Ok? {
      OwnIsAdmitted(cfg, s.loads, caller, cfg.entityId, outcome.value.entity, outcome.value.validUntil);
    }
  }

  lemma OwnIsAdmitted(cfg: Config, loads: seq<Fetched>, caller: nat, id: string, e: EntityDescriptor, until: Option<int>)
    requires AdmittedFor(cfg, loads, caller, id, e, until)
    ensures Admitted(cfg, loads, id, e, until)
  {
  }

  /** Settling counts: back to the base on success, one doubling up on failure. */
  lemma SettleBackoff(s: Static, url: string, now: int, outcome: Result<Selected, MdqError>, k: nat)
    requires s.retryBackoff == Backoff(k)
    ensures Settle(s, url, now, outcome).1.retryBackoff == Backoff(if outcome.Ok? then 0 else 1 + k)
  {
    assert Power2(0) == 1;
    BackoffDoubles(k);
  }

  lemma PutFits(before: Cache, id: string, entry: Cached, capacity: nat, now: int, after: Cache)
    requires |before| <= capacity && WasPut(before, id, entry, capacity, now, after)
    ensures |after| <= capacity
  {
    var live := Fresh(before, now);
    SubsetSize(live.Keys, before.Keys);
    if capacity > 0 && id in live {
      assert after.Keys == live.Keys;
    } else if 0 < capacity && |live| < capacity {
      assert after.Keys == live.Keys + {id};
    } else if capacity > 0 {
      var victim :| LeastRecent(live, victim) && after == (live - {victim})[id := entry];
      assert after.Keys == live.Keys - {victim} + {id};
    }
  }

  lemma PutKeepsCache(cfg: Config, loads: seq<Fetched>, before: Cache, id: string, entry: Cached, now: int, after: Cache)
    requires CacheOk(cfg, loads, before) && WasPut(before, id, entry, cfg.capacity, now, after)
    requires EntryOk(cfg, loads, id, entry)
    ensures CacheOk(cfg, loads, after)
  {
    PutFits(before, id, entry, cfg.capacity, now, after);
    forall k | k in after
      ensures EntryOk(cfg, loads, k, after[k])
    {
      assert (k == id && after[k] == entry) || (k in before && after[k] == before[k]);
    }
  }

  lemma PutKeeps(cfg: Config, s: State, s': State, caller: nat, id: string, now: int, r: Selected)
    requires Inv(cfg, s) && caller in s.callers && s.callers[caller] == QueryLoaded(id, now, Ok(r))
    requires WasPut(s.cache, id, CacheEntry(cfg, r, now), cfg.capacity, now, s'.cache)
    requires s' == Moved(s, caller, QueryAnswered(id, Found(r.entity), false, now)).(cache := s'.cache)
    ensures Inv(cfg, s')
  {
    assert PointOk(cfg, s.loads, caller, s.callers[caller]);
    PutKeepsCache(cfg, s.loads, s.cache, id, CacheEntry(cfg, r, now), now, s'.cache);
    MoveKeeps(cfg, s, caller, QueryAnswered(id, Found(r.entity), false, now));
  }

  lemma StaticStepKeeps(cfg: Config, s: State, s': State, caller: nat, clock: int, fetched: Option<Document>)
    requires Inv(cfg, s) && Step(cfg, s, s', caller, clock, fetched)
    requires var at := s.callers[caller]; at.Asked? || at.Seen? || at.Loading? || at.Loaded?
    ensures Inv(cfg, s')
  {
    var at := s.callers[caller];
    assert PointOk(cfg, s.loads, caller, at);
    match at
    case Asked => MoveKeeps(cfg, s, caller, Seen(s.stored));
    case Seen(snapshot) => MoveKeeps(cfg, s, caller, s'.callers[caller]);
    case Loading(url, now) =>
      var l := Fetched(Some(caller), cfg.entityId, fetched, clock);
      LoadIsAdmitted(cfg, s.loads, l, caller);
      LoadKeeps(cfg, s, caller, s'.callers[caller], l);
    case Loaded(url, now, outcome) => SettleKeeps(cfg, s, s', caller, url, now, outcome);
  }

  lemma QueryStepKeeps(cfg: Config, s: State, s': State, caller: nat, clock: int, fetched: Option<Document>)
    requires Inv(cfg, s) && Step(cfg, s, s', caller, clock, fetched)
    requires var at := s.callers[caller]; at.Queried? || at.QueryLoading? || at.QueryLoaded?
    ensures Inv(cfg, s')
  {
    var at := s.callers[caller];
    assert PointOk(cfg, s.loads, caller, at);
    match at
    case Queried(id) =>
      if s'.callers[caller].QueryAnswered? {
        EntryAnswers(cfg, s, caller, id, clock);
      }
      MoveKeeps(cfg, s, caller, s'.callers[caller]);
    case QueryLoading(id, now) =>
      var l := Fetched(Some(caller), id, fetched, now);
      LoadIsAdmitted(cfg, s.loads, l, caller);
      LoadKeeps(cfg, s, caller, s'.callers[caller], l);
    case QueryLoaded(id, now, Ok(r)) => PutKeeps(cfg, s, s', caller, id, now, r);
    case QueryLoaded(id, now, Err(_)) => MoveKeeps(cfg, s, caller, s'.callers[caller]);
  }

  lemma EntryAnswers(cfg: Config, s: State, caller: nat, id: string, clock: int)
    requires Inv(cfg, s) && id in s.cache && !ShouldRefresh(s.cache[id], clock)
    ensures AnswerOk(cfg, s.loads, caller, id, Found(s.cache[id].metadata), true, clock)
  {
    var entry := s.cache[id];
    assert EntryOk(cfg, s.loads, id, entry);
    assert Admitted(cfg, s.loads, id, entry.metadata, entry.validUntil) && NotPast(entry.validUntil, clock);
  }

  lemma StepKeepsInv(cfg: Config, s: State, s': State, caller: nat, clock: int, fetched: Option<Document>)
    requires Inv(cfg, s) && Step(cfg, s, s', caller, clock, fetched)
    ensures Inv(cfg, s')
  {
    var at := s.callers[caller];
    if at.Asked? || at.Seen? || at.Loading? || at.Loaded? {
      StaticStepKeeps(cfg, s, s', caller, clock, fetched);
    } else {
      QueryStepKeeps(cfg, s, s', caller, clock, fetched);
    }
  }

  lemma NextKeepsInv(cfg: Config, s: State, s': State)
    requires Inv(cfg, s) && Next(cfg, s, s')
    ensures Inv(cfg, s')
  {
    if exists caller, clock, fetched :: Step(cfg, s, s', caller, clock, fetched) {
      var caller, clock, fetched :| Step(cfg, s, s', caller, clock, fetched);
      StepKeepsInv(cfg, s, s', caller, clock, fetched);
    } else if s' != s.(cache := map[]) {
      var caller: nat, at: Point :| caller !in s.callers && (at.Asked? || at.Queried?) && s' == Moved(s, caller, at);
      MoveKeeps(cfg, s, caller, at);
    }
  }

  /** What either constructor builds satisfies the invariant: it stores what the
      first load accepted, or nothing if that failed and there is an address to
      try again. */
  lemma BuiltWell(cfg: Config, s: State, url: Option<string>, first: Fetched)
    requires Start(cfg, s, url, first)
    ensures Inv(cfg, s) && s.loads == [first] && s.stored.retryBackoff == 5_000_000_000 && s.stored.sourceUrl == url
    ensures match Load(cfg, first.document, cfg.entityId, first.at)
            case Ok(r) => s.stored.metadata == Some(r.entity) && s.stored.validUntil == r.validUntil
            case Err(_) => s.stored.metadata.None? && url.Some?
  {
    assert Power2(0) == 1 && RETRY_BASE == Backoff(0);
    if s.stored.metadata.Some? {
      assert Admits(cfg, s.loads[0], cfg.entityId, s.stored.metadata.value, s.stored.validUntil);
    }
  }

  /** In every state of every interleaving: stored static metadata is absent or
      was admitted for the configured entity by a load that was made; the backoff
      is that of the number of failed settles since the last success; the cache is
      within its capacity and every entry was admitted for exactly its key by a
      load judged at its fetch time; and every answer given was admitted for the
      ID asked for, by the caller's own load or, from storage, with an expiry that
      had not passed at its caller's clock reading. */
  lemma {:induction false} EveryState(cfg: Config, run: seq<State>, n: nat)
    requires Interleaving(cfg, run) && n < |run|
    ensures Inv(cfg, run[n])
  {
    if n == 0 {
      var url, first :| Start(cfg, run[0], url, first);
      BuiltWell(cfg, run[0], url, first);
    } else {
      EveryState(cfg, run, n - 1);
      assert Next(cfg, run[n - 1], run[n - 1 + 1]);
      NextKeepsInv(cfg, run[n - 1], run[n]);
    }
  }

  // ---- Every load listed is a step of the run -------------------------------------------------

  /** The step between these states made this load. */
  ghost predicate Made(cfg: Config, s: State, s': State, l: Fetched) {
    && l.caller.Some? && l.caller.value in s.callers
    && match s.callers[l.caller.value]
       case Loading(_, _) => l.id == cfg.entityId && Step(cfg, s, s', l.caller.value, l.at, l.document)
       case QueryLoading(id, now) =>
         l.id == id && l.at == now && exists clock :: Step(cfg, s, s', l.caller.value, clock, l.document)
       case _ => false
  }

  ghost predicate MadeAt(cfg: Config, run: seq<State>, m: nat, l: Fetched)
    requires m + 1 < |run|
  {
    Made(cfg, run[m], run[m + 1], l)
  }

  /** Every load listed in a state is the one that built the client or a load step
      made earlier in the run, with that document at that clock reading. */
  lemma {:induction false} LoadsWereMade(cfg: Config, run: seq<State>, n: nat, i: nat)
    requires Interleaving(cfg, run) && n < |run| && i < |run[n].loads|
    ensures (i == 0 && run[n].loads[0].caller == None && run[0].loads == [run[n].loads[0]])
            || exists m :: 0 <= m < n && MadeAt(cfg, run, m, run[n].loads[i])
    decreases n
  {
    if n == 0 {
      var url, first :| Start(cfg, run[0], url, first);
    } else {
      var s, s' := run[n - 1], run[n - 1 + 1];
      assert Next(cfg, s, s');
      LoadsAppend(cfg, s, s');
      if i < |s.loads| {
        LoadsWereMade(cfg, run, n - 1, i);
        assert s'.loads[i] == s.loads[i];
      } else {
        var caller, clock, fetched :| Step(cfg, s, s', caller, clock, fetched) && |s'.loads| > |s.loads|;
        assert MadeAt(cfg, run, n - 1, s'.loads[i]);
      }
    }
  }

  lemma LoadsAppend(cfg: Config, s: State, s': State)
    requires Next(cfg, s, s')
    ensures s.loads <= s'.loads
    ensures |s'.loads| > |s.loads| ==> exists caller, clock, fetched :: Step(cfg, s, s', caller, clock, fetched)
  {
  }

  /** No step loses static metadata once it is there, or changes the entity the
      client was built for; so once there it is there in every later state. */
  lemma {:induction false} StaticNeverForgets(cfg: Config, run: seq<State>, i: nat, j: nat)
    requires Interleaving(cfg, run) && i <= j < |run|
    ensures run[i].stored.metadata.Some? ==> run[j].stored.metadata.Some?
    ensures run[j].stored.entityId == run[i].stored.entityId
    decreases j
  {
    if i < j {
      StaticNeverForgets(cfg, run, i, j - 1);
      assert Next(cfg, run[j - 1], run[j - 1 + 1]);
    }
  }

  /** What a caller's position says about storage at some state before `n`: a
      snapshot was the stored value, an answer from storage was stored there and
      still good at the caller's clock reading. */
  ghost predicate Served(run: seq<State>, n: nat, at: Point)
    requires n <= |run|
  {
    match at
    case Seen(snapshot) => exists m :: 0 <= m < n && run[m].stored == snapshot
    case Answered(Found(e), true, t) =>
      exists m :: 0 <= m < n && run[m].stored.metadata == Some(e) && NotPast(run[m].stored.validUntil, t)
    case QueryAnswered(id, Found(e), true, t) =>
      exists m :: 0 <= m < n && id in run[m].cache && run[m].cache[id].metadata == e && StillGood(run[m].cache[id], t)
    case _ => true
  }

  lemma ServedLater(run: seq<State>, n: nat, at: Point)
    requires n < |run| && Served(run, n, at)
    ensures Served(run, n + 1, at)
  {
  }

  lemma StepServes(cfg: Config, run: seq<State>, n: nat, s': State, caller: nat, clock: int, fetched: Option<Document>)
    requires n < |run| && Step(cfg, run[n], s', caller, clock, fetched)
    requires Served(run, n, run[n].callers[caller])
    ensures Served(run, n + 1, s'.callers[caller])
  {
    if run[n].callers[caller].Seen? {
      var m :| 0 <= m < n && run[m].stored == run[n].callers[caller].snapshot;
    }
  }

  lemma NextServes(cfg: Config, run: seq<State>, n: nat, s': State, c: nat)
    requires n < |run| && Next(cfg, run[n], s') && c in s'.callers
    requires c in run[n].callers ==> Served(run, n, run[n].callers[c])
    ensures Served(run, n + 1, s'.callers[c])
  {
    var s := run[n];
    if c in s.callers {
      ServedLater(run, n, s.callers[c]);
      if exists caller, clock, fetched :: Step(cfg, s, s', caller, clock, fetched) {
        var caller, clock, fetched :| Step(cfg, s, s', caller, clock, fetched);
        if caller == c {
          StepServes(cfg, run, n, s', caller, clock, fetched);
        }
      }
    }
  }

  /** In every interleaving an answer that comes from storage is what was stored
      at an earlier state of the run, with an expiry (for a query also a cache
      duration) that had not passed at the caller's clock reading, however many
      other callers came in between. */
  lemma {:induction false} ServedFromStorage(cfg: Config, run: seq<State>, n: nat, c: nat)
    requires Interleaving(cfg, run) && n < |run| && c in run[n].callers
    ensures Served(run, n, run[n].callers[c])
    decreases n
  {
    if n > 0 {
      assert Next(cfg, run[n - 1], run[n - 1 + 1]);
      if c in run[n - 1].callers {
        ServedFromStorage(cfg, run, n - 1, c);
      }
      NextServes(cfg, run, n - 1, run[n], c);
    }
  }
}
