/** The assertion consumer of the SPID test SP (spid-sp-test/src/main.rs): peek
    at the pending request, validate, register replay IDs, take.  Each table
    access is one locked step, but the clock is read before the lock is taken. */
module SpidAcs {
  import opened Wrappers
  import opened SetSizes
  import opened ReplayCache

  const TTL := 300_000_000_000
  const MAX_PENDING := 1024

  datatype Pending = Pending(authnContext: string, created: nat)

  type Table = map<string, Pending>

  /** `duration_since`, which saturates: the reading may be older than the entry. */
  function Age(p: Pending, now: nat): nat {
    if p.created <= now then now - p.created else 0
  }

  function Purged(table: Table, now: nat): Table {
    map id | id in table && Age(table[id], now) < TTL :: table[id]
  }

  function StoreResult(table: Table, id: string, authnContext: string, now: nat): (bool, Table) {
    var live := Purged(table, now);
    if id !in live && |live| >= MAX_PENDING then (false, live)
    else (true, live[id := Pending(authnContext, now)])
  }

  function Lookup(table: Table, id: string): Option<Pending> {
    if id in table then Some(table[id]) else None
  }

  class PendingRequests {
    var pending: Table

    constructor ()
      ensures pending == map[]
    {
      pending := map[];
    }

    method Store(id: string, authnContext: string, now: nat) returns (stored: bool)
      modifies this
      ensures (stored, pending) == StoreResult(old(pending), id, authnContext, now)
    {
      pending := Purged(pending, now);
      if id !in pending && |pending| >= MAX_PENDING {
        return false;
      }
      pending := pending[id := Pending(authnContext, now)];
      stored := true;
    }

    method Peek(id: string, now: nat) returns (p: Option<Pending>)
      modifies this
      ensures pending == Purged(old(pending), now) && p == Lookup(pending, id)
    {
      pending := Purged(pending, now);
      p := if id in pending then Some(pending[id]) else None;
    }

    method Take(id: string, now: nat) returns (p: Option<Pending>)
      modifies this
      ensures p == Lookup(Purged(old(pending), now), id) && pending == Purged(old(pending), now) - {id}
    {
      pending := Purged(pending, now);
      p := if id in pending then Some(pending[id]) else None;
      pending := pending - {id};
    }
  }

  // ---- Responses and their replay tokens ----------------------------------------

  datatype Assertion = Assertion(id: string, notOnOrAfter: Option<int>)

  /** A response; `content` is everything else that it says. */
  datatype Response = Response(id: string, inResponseTo: Option<string>, assertions: seq<Assertion>, content: string)

  type Token = (string, int)

  /** The IDs to register, with their expiries: the response, then each
      assertion in order. */
  function Tokens(r: Response, fallback: int): seq<Token> {
    [(r.id, fallback)]
    + seq(|r.assertions|, i requires 0 <= i < |r.assertions| =>
        (r.assertions[i].id, if r.assertions[i].notOnOrAfter.Some? then r.assertions[i].notOnOrAfter.value else fallback))
  }

  function IdsOf(r: Response): seq<string> {
    [r.id] + seq(|r.assertions|, i requires 0 <= i < |r.assertions| => r.assertions[i].id)
  }

  /** The expiry the `k`th ID is registered with: the one the response fixes for
      it, or the fallback. */
  function ExpiryOf(r: Response, fallback: int, k: nat): int {
    if 1 <= k <= |r.assertions| && r.assertions[k - 1].notOnOrAfter.Some? then r.assertions[k - 1].notOnOrAfter.value
    else fallback
  }

  lemma TokensNameIds(r: Response, fallback: int)
    ensures |Tokens(r, fallback)| == |IdsOf(r)|
    ensures forall k :: 0 <= k < |IdsOf(r)| ==> Tokens(r, fallback)[k] == (IdsOf(r)[k], ExpiryOf(r, fallback, k))
  {
  }

  /** A check whose verdict depends on the reading of the wall clock made for it. */
  type Timed = int -> bool

  /** The checks a response has to pass before the pending lookup, those between
      it and the replay step (how many depends on what the response holds), and
      the age window for IDs that carry no expiry of their own. */
  datatype Policy = Policy(early: Response -> seq<Timed>, full: (Response, Pending) -> seq<Timed>, window: nat)

  // ---- Handlers as threads -------------------------------------------------------

  datatype Point =
    | AtStore(id: string, authnContext: string, reading: nat)     // login: clock read, lock not yet taken
    | StoreDone(stored: bool)
    | Received(response: Response, passed: nat)                   // this many early checks passed
    | AtPeek(response: Response, reading: nat)                    // all early checks passed, clock read
    | Peeked(response: Response, found: Pending, passed: nat)     // this many of the later checks passed
    | Registering(response: Response, found: Pending, fallback: int, done: nat)
    | Cleaning(response: Response, found: Pending, fallback: int)
    | Registered(response: Response, found: Pending, fallback: int)
    | AtTake(response: Response, found: Pending, fallback: int, reading: nat)    // clock read again
    | Accepted(response: Response, found: Pending, fallback: int, taken: Pending)
    | Refused(response: Response)

  predicate Final(at: Point) {
    at.StoreDone? || at.Accepted? || at.Refused?
  }

  /** The pending table: what one step does to it, and where the handler goes. */
  function Advance(policy: Policy, at: Point, table: Table, clock: nat, wall: int): (Point, Table)
    requires !at.Registering?
  {
    match at
    case AtStore(id, authnContext, reading) =>
      var (stored, after) := StoreResult(table, id, authnContext, reading);
      (StoreDone(stored), after)
    case Received(r, k) =>
      (if k < |policy.early(r)| then (if policy.early(r)[k](wall) then Received(r, k + 1) else Refused(r))
       else if r.inResponseTo.Some? && r.inResponseTo.value != "" then AtPeek(r, clock) else Refused(r), table)
    case AtPeek(r, reading) =>
      var live := Purged(table, reading);
      (if r.inResponseTo.Some? && r.inResponseTo.value in live then Peeked(r, live[r.inResponseTo.value], 0) else Refused(r), live)
    case Peeked(r, found, k) =>
      (if k < |policy.full(r, found)| then (if policy.full(r, found)[k](wall) then Peeked(r, found, k + 1) else Refused(r))
       else Registering(r, found, wall + policy.window, 0), table)
    case Cleaning(r, found, fallback) => (Registered(r, found, fallback), table)
    case Registered(r, found, fallback) => (AtTake(r, found, fallback, clock), table)
    case AtTake(r, found, fallback, reading) =>
      var live := Purged(table, reading);
      if r.inResponseTo.Some? && r.inResponseTo.value in live
      then (Accepted(r, found, fallback, live[r.inResponseTo.value]), live - {r.inResponseTo.value})
      else (Refused(r), live)
    case _ => (at, table)
  }

  /** A step of a handler, with the reading of the wall clock made for it. */
  datatype Action = Action(thread: nat, before: Point, after: Point, wall: int)

  /** The replay checks made so far, each with the handler that made it. */
  datatype State = State(table: Table, replay: Cache, threads: map<nat, Point>, clock: nat, wall: int,
                         log: seq<Action>, checks: History, owners: seq<nat>)

  ghost predicate Start(s: State) {
    s.table == map[] && s.replay == Cache(map[], None) && s.threads == map[] && s.log == [] && s.checks == [] && s.owners == []
  }

  /** Time passes, or a request arrives. */
  ghost predicate Arrive(s: State, s': State, thread: nat, at: Point, clock: nat, wall: int) {
    && s.clock <= clock && s.wall <= wall && thread !in s.threads
    && ((at.Received? && at.passed == 0) || (at.AtStore? && at.reading == clock))
    && s' == s.(threads := s.threads[thread := at], clock := clock, wall := wall)
  }

  /** The token a handler checks next. */
  predicate Checking(at: Point) {
    at.Registering? && at.done < |Tokens(at.response, at.fallback)|
  }

  /** The step that checks one token against the replay cache. */
  ghost function CheckMade(s: State, thread: nat, wall: int): Check
    requires thread in s.threads && Checking(s.threads[thread])
  {
    var at := s.threads[thread];
    var (id, expiry) := Tokens(at.response, at.fallback)[at.done];
    Check(id, expiry, wall, CheckAndInsert(s.replay, id, expiry, wall).0)
  }

  function AfterCheck(at: Point, admitted: bool): Point
    requires at.Registering?
  {
    if admitted then at.(done := at.done + 1) else Refused(at.response)
  }

  ghost function Checked(s: State, thread: nat, clock: nat, wall: int): State
    requires thread in s.threads && Checking(s.threads[thread])
  {
    var at, c := s.threads[thread], CheckMade(s, thread, wall);
    var after := AfterCheck(at, c.admitted);
    State(s.table, CheckAndInsert(s.replay, c.id, c.expiry, wall).1, s.threads[thread := after], clock, wall,
          s.log + [Action(thread, at, after, wall)], s.checks + [c], s.owners + [thread])
  }

  /** Any other step. */
  function Moved(policy: Policy, at: Point, table: Table, clock: nat, wall: int): (Point, Table) {
    if at.Registering? then (Cleaning(at.response, at.found, at.fallback), table) else Advance(policy, at, table, clock, wall)
  }

  ghost function Stepped(policy: Policy, s: State, thread: nat, clock: nat, wall: int): State
    requires thread in s.threads
  {
    var at := s.threads[thread];
    var (after, table) := Moved(policy, at, s.table, clock, wall);
    State(table, if at.Cleaning? then Cleanup(s.replay, wall) else s.replay, s.threads[thread := after], clock, wall,
          s.log + [Action(thread, at, after, wall)], s.checks, s.owners)
  }

  /** One handler does its next step at the given readings of both clocks. */
  ghost predicate Act(policy: Policy, s: State, s': State, thread: nat, clock: nat, wall: int) {
    && s.clock <= clock && s.wall <= wall && thread in s.threads && !Final(s.threads[thread])
    && s' == if Checking(s.threads[thread]) then Checked(s, thread, clock, wall) else Stepped(policy, s, thread, clock, wall)
  }

  ghost predicate Next(policy: Policy, s: State, s': State) {
    || (exists thread, at, clock, wall :: Arrive(s, s', thread, at, clock, wall))
    || (exists thread, clock, wall :: Act(policy, s, s', thread, clock, wall))
  }

  /** Any interleaving of any number of handlers. */
  ghost predicate Interleaving(policy: Policy, run: seq<State>) {
    && run != [] && Start(run[0])
    && forall i :: 0 <= i < |run| - 1 ==> Next(policy, run[i], run[i + 1])
  }

  // ---- Invariant -------------------------------------------------------------------

  predicate Stores(a: Action, id: string) {
    a.before.AtStore? && a.before.id == id && a.after == StoreDone(true)
  }

  predicate Accepts(a: Action, id: string) {
    a.before.AtTake? && a.after.Accepted? && a.after.response.inResponseTo == Some(id)
  }

  function CountStores(log: seq<Action>, id: string): nat {
    if log == [] then 0 else CountStores(log[..|log| - 1], id) + if Stores(log[|log| - 1], id) then 1 else 0
  }

  function CountAccepts(log: seq<Action>, id: string): nat {
    if log == [] then 0 else CountAccepts(log[..|log| - 1], id) + if Accepts(log[|log| - 1], id) then 1 else 0
  }

  ghost predicate WasStored(log: seq<Action>, id: string, p: Pending) {
    exists i :: 0 <= i < |log| && Stores(log[i], id) && p == Pending(log[i].before.authnContext, log[i].before.reading)
  }

  /** The handler made a replay check that admitted this token. */
  ghost predicate Owns(checks: History, owners: seq<nat>, thread: nat, token: Token) {
    && |owners| == |checks|
    && exists i :: 0 <= i < |checks| && owners[i] == thread && checks[i].admitted && (checks[i].id, checks[i].expiry) == token
  }

  ghost predicate OwnsFirst(checks: History, owners: seq<nat>, thread: nat, tokens: seq<Token>, n: nat) {
    n <= |tokens| && forall k :: 0 <= k < n ==> Owns(checks, owners, thread, tokens[k])
  }

  /** The handler passed its last check, and the fallback expiry was set from the
      wall clock reading made then. */
  ghost predicate Entered(policy: Policy, log: seq<Action>, thread: nat, r: Response, found: Pending, fallback: int) {
    exists i :: 0 <= i < |log| && log[i].thread == thread && log[i].before == Peeked(r, found, |policy.full(r, found)|)
                && fallback == log[i].wall + policy.window
  }

  /** The pending entry a handler saw was stored under the ID it answers. */
  ghost predicate Found(log: seq<Action>, r: Response, found: Pending) {
    r.inResponseTo.Some? && WasStored(log, r.inResponseTo.value, found)
  }

  /** The handler made the `k`th early check and it passed at the reading made
      for it. */
  ghost predicate EarlyPassed(policy: Policy, log: seq<Action>, thread: nat, r: Response, k: nat) {
    && k < |policy.early(r)|
    && exists i :: 0 <= i < |log| && log[i].thread == thread && log[i].before == Received(r, k)
                   && policy.early(r)[k](log[i].wall)
  }

  ghost predicate FullPassed(policy: Policy, log: seq<Action>, thread: nat, r: Response, found: Pending, k: nat) {
    && k < |policy.full(r, found)|
    && exists i :: 0 <= i < |log| && log[i].thread == thread && log[i].before == Peeked(r, found, k)
                   && policy.full(r, found)[k](log[i].wall)
  }

  ghost predicate EarlyUpTo(policy: Policy, log: seq<Action>, thread: nat, r: Response, n: nat) {
    forall k :: 0 <= k < n ==> EarlyPassed(policy, log, thread, r, k)
  }

  ghost predicate FullUpTo(policy: Policy, log: seq<Action>, thread: nat, r: Response, found: Pending, n: nat) {
    forall k :: 0 <= k < n ==> FullPassed(policy, log, thread, r, found, k)
  }

  predicate Past(at: Point) {
    at.Cleaning? || at.Registered? || at.AtTake? || at.Accepted?
  }

  /** What the log says of a handler that stands there. */
  ghost predicate Logged(policy: Policy, log: seq<Action>, thread: nat, at: Point) {
    && (at.Received? ==>
          at.passed <= |policy.early(at.response)| && EarlyUpTo(policy, log, thread, at.response, at.passed))
    && (at.AtPeek? || at.Peeked? || at.Registering? || Past(at) ==>
          EarlyUpTo(policy, log, thread, at.response, |policy.early(at.response)|))
    && (at.Peeked? || at.Registering? || Past(at) ==> Found(log, at.response, at.found))
    && (at.Peeked? ==>
          at.passed <= |policy.full(at.response, at.found)| && FullUpTo(policy, log, thread, at.response, at.found, at.passed))
    && (at.Registering? || Past(at) ==>
          FullUpTo(policy, log, thread, at.response, at.found, |policy.full(at.response, at.found)|)
          && Entered(policy, log, thread, at.response, at.found, at.fallback))
    && (at.Accepted? ==> WasStored(log, at.response.inResponseTo.value, at.taken))
  }

  /** What the replay checks say of it. */
  ghost predicate Cleared(checks: History, owners: seq<nat>, thread: nat, at: Point) {
    && (at.Registering? ==> OwnsFirst(checks, owners, thread, Tokens(at.response, at.fallback), at.done))
    && (Past(at) ==>
          OwnsFirst(checks, owners, thread, Tokens(at.response, at.fallback), |Tokens(at.response, at.fallback)|))
  }

  ghost predicate PointsOk(policy: Policy, threads: map<nat, Point>, log: seq<Action>, checks: History, owners: seq<nat>,
                           clock: nat)
  {
    forall t :: t in threads ==>
      Logged(policy, log, t, threads[t]) && Cleared(checks, owners, t, threads[t]) && ReadingsPast(threads[t], clock)
  }

  predicate ReadingsPast(at: Point, clock: nat) {
    at.AtStore? || at.AtPeek? || at.AtTake? ==> at.reading <= clock
  }

  predicate AcceptInTime(a: Action) {
    a.after.Accepted? ==> a.before.AtTake? && a.after.response == a.before.response && a.after.found == a.before.found
                          && a.after.fallback == a.before.fallback && Age(a.after.taken, a.before.reading) < TTL
  }

  /** What an acceptance rests on was stored before it. */
  ghost predicate AcceptBacked(log: seq<Action>, i: nat)
    requires i < |log|
  {
    log[i].after.Accepted? ==>
      var at := log[i].after;
      Found(log[..i], at.response, at.found) && WasStored(log[..i], at.response.inResponseTo.value, at.taken)
  }

  /** The table is small, holds what was stored, and has spent nothing twice. */
  ghost predicate TableOk(table: Table, log: seq<Action>) {
    && |table| <= MAX_PENDING
    && (forall id :: id in table ==> WasStored(log, id, table[id]))
    && (forall id :: CountAccepts(log, id) + (if id in table then 1 else 0) <= CountStores(log, id))
  }

  ghost predicate Inv(policy: Policy, s: State) {
    && TableOk(s.table, s.log)
    && Remembers(s.replay, s.checks, s.wall) && |s.owners| == |s.checks|
    && PointsOk(policy, s.threads, s.log, s.checks, s.owners, s.clock)
    && FinalsHold(s.threads, s.log)
  }

  /** A handler that has finished stays where it is, and makes no further step. */
  ghost predicate FinalsHold(threads: map<nat, Point>, log: seq<Action>) {
    && (forall i :: 0 <= i < |log| ==> AcceptInTime(log[i]) && AcceptBacked(log, i))
    && (forall i :: 0 <= i < |log| && Final(log[i].after) ==>
          log[i].thread in threads && threads[log[i].thread] == log[i].after)
    && (forall i, j :: 0 <= i < j < |log| && Final(log[i].after) ==> log[j].thread != log[i].thread)
  }

  // ---- Nothing that was recorded is lost ---------------------------------------------

  lemma StoredGrows(log: seq<Action>, a: Action, id: string, p: Pending)
    requires WasStored(log, id, p)
    ensures WasStored(log + [a], id, p)
  {
    var i :| 0 <= i < |log| && Stores(log[i], id) && p == Pending(log[i].before.authnContext, log[i].before.reading);
    assert (log + [a])[i] == log[i];
  }

  lemma OwnsFirstGrows(checks: History, owners: seq<nat>, c: Check, t: nat, thread: nat, tokens: seq<Token>, n: nat)
    requires OwnsFirst(checks, owners, thread, tokens, n)
    ensures OwnsFirst(checks + [c], owners + [t], thread, tokens, n)
  {
    forall k | 0 <= k < n
      ensures Owns(checks + [c], owners + [t], thread, tokens[k])
    {
      assert Owns(checks, owners, thread, tokens[k]);
      var i :| 0 <= i < |checks| && owners[i] == thread && checks[i].admitted && (checks[i].id, checks[i].expiry) == tokens[k];
      assert (checks + [c])[i] == checks[i] && (owners + [t])[i] == owners[i];
    }
  }

  lemma EnteredGrows(policy: Policy, log: seq<Action>, a: Action, thread: nat, r: Response, found: Pending, fallback: int)
    requires Entered(policy, log, thread, r, found, fallback)
    ensures Entered(policy, log + [a], thread, r, found, fallback)
  {
    var i :| 0 <= i < |log| && log[i].thread == thread && log[i].before == Peeked(r, found, |policy.full(r, found)|)
             && fallback == log[i].wall + policy.window;
    assert (log + [a])[i] == log[i];
  }

  lemma EarlyGrows(policy: Policy, log: seq<Action>, a: Action, thread: nat, r: Response, n: nat)
    requires EarlyUpTo(policy, log, thread, r, n)
    ensures EarlyUpTo(policy, log + [a], thread, r, n)
  {
    forall k | 0 <= k < n
      ensures EarlyPassed(policy, log + [a], thread, r, k)
    {
      assert EarlyPassed(policy, log, thread, r, k);
      var i :| 0 <= i < |log| && log[i].thread == thread && log[i].before == Received(r, k) && policy.early(r)[k](log[i].wall);
      assert (log + [a])[i] == log[i];
    }
  }

  lemma FullGrows(policy: Policy, log: seq<Action>, a: Action, thread: nat, r: Response, found: Pending, n: nat)
    requires FullUpTo(policy, log, thread, r, found, n)
    ensures FullUpTo(policy, log + [a], thread, r, found, n)
  {
    forall k | 0 <= k < n
      ensures FullPassed(policy, log + [a], thread, r, found, k)
    {
      assert FullPassed(policy, log, thread, r, found, k);
      var i :| 0 <= i < |log| && log[i].thread == thread && log[i].before == Peeked(r, found, k)
               && policy.full(r, found)[k](log[i].wall);
      assert (log + [a])[i] == log[i];
    }
  }

  /** A check that passes is on record. */
  lemma CheckRecorded(policy: Policy, log: seq<Action>, a: Action)
    requires a.before.Received? ==> a.before.passed < |policy.early(a.before.response)|
                                    && policy.early(a.before.response)[a.before.passed](a.wall)
    requires a.before.Peeked? ==> a.before.passed < |policy.full(a.before.response, a.before.found)|
                                  && policy.full(a.before.response, a.before.found)[a.before.passed](a.wall)
    ensures a.before.Received? ==> EarlyPassed(policy, log + [a], a.thread, a.before.response, a.before.passed)
    ensures a.before.Peeked? ==> FullPassed(policy, log + [a], a.thread, a.before.response, a.before.found, a.before.passed)
  {
    assert (log + [a])[|log|] == a;
  }

  lemma LoggedGrows(policy: Policy, log: seq<Action>, a: Action, thread: nat, at: Point)
    requires Logged(policy, log, thread, at)
    ensures Logged(policy, log + [a], thread, at)
  {
    if at.Received? {
      EarlyGrows(policy, log, a, thread, at.response, at.passed);
    }
    if at.AtPeek? || at.Peeked? || at.Registering? || Past(at) {
      EarlyGrows(policy, log, a, thread, at.response, |policy.early(at.response)|);
    }
    if at.Peeked? || at.Registering? || Past(at) {
      StoredGrows(log, a, at.response.inResponseTo.value, at.found);
    }
    if at.Peeked? {
      FullGrows(policy, log, a, thread, at.response, at.found, at.passed);
    }
    if at.Registering? || Past(at) {
      FullGrows(policy, log, a, thread, at.response, at.found, |policy.full(at.response, at.found)|);
      EnteredGrows(policy, log, a, thread, at.response, at.found, at.fallback);
    }
    if at.Accepted? {
      StoredGrows(log, a, at.response.inResponseTo.value, at.taken);
    }
  }

  lemma ClearedGrows(checks: History, owners: seq<nat>, c: Check, t: nat, thread: nat, at: Point)
    requires Cleared(checks, owners, thread, at)
    ensures Cleared(checks + [c], owners + [t], thread, at)
  {
    if at.Registering? {
      OwnsFirstGrows(checks, owners, c, t, thread, Tokens(at.response, at.fallback), at.done);
    }
    if Past(at) {
      var tokens := Tokens(at.response, at.fallback);
      OwnsFirstGrows(checks, owners, c, t, thread, tokens, |tokens|);
    }
  }

  lemma PointsAfterLog(policy: Policy, threads: map<nat, Point>, log: seq<Action>, a: Action, checks: History,
                       owners: seq<nat>, clock: nat, later: nat)
    requires PointsOk(policy, threads, log, checks, owners, clock) && clock <= later
    ensures PointsOk(policy, threads, log + [a], checks, owners, later)
  {
    forall t | t in threads
      ensures Logged(policy, log + [a], t, threads[t]) && Cleared(checks, owners, t, threads[t]) && ReadingsPast(threads[t], later)
    {
      LoggedGrows(policy, log, a, t, threads[t]);
    }
  }

  lemma PointsAfterCheck(policy: Policy, threads: map<nat, Point>, log: seq<Action>, checks: History, owners: seq<nat>,
                         c: Check, owner: nat, clock: nat)
    requires PointsOk(policy, threads, log, checks, owners, clock)
    ensures PointsOk(policy, threads, log, checks + [c], owners + [owner], clock)
  {
    forall t | t in threads
      ensures Logged(policy, log, t, threads[t]) && Cleared(checks + [c], owners + [owner], t, threads[t])
              && ReadingsPast(threads[t], clock)
    {
      ClearedGrows(checks, owners, c, owner, t, threads[t]);
    }
  }

  lemma PointsAfterMove(policy: Policy, threads: map<nat, Point>, log: seq<Action>, checks: History, owners: seq<nat>,
                        clock: nat, thread: nat, after: Point)
    requires PointsOk(policy, threads, log, checks, owners, clock)
    requires Logged(policy, log, thread, after) && Cleared(checks, owners, thread, after) && ReadingsPast(after, clock)
    ensures PointsOk(policy, threads[thread := after], log, checks, owners, clock)
  {
  }

  lemma CountsSnoc(log: seq<Action>, a: Action, id: string)
    ensures CountStores(log + [a], id) == CountStores(log, id) + if Stores(a, id) then 1 else 0
    ensures CountAccepts(log + [a], id) == CountAccepts(log, id) + if Accepts(a, id) then 1 else 0
  {
    assert (log + [a])[..|log|] == log;
  }

  // ---- Each step keeps the invariant ---------------------------------------------------

  lemma AdvanceFits(policy: Policy, at: Point, table: Table, clock: nat, wall: int)
    requires !at.Registering? && |table| <= MAX_PENDING
    ensures |Advance(policy, at, table, clock, wall).1| <= MAX_PENDING
  {
    var (after, table') := Advance(policy, at, table, clock, wall);
    if at.AtStore? && after == StoreDone(true) {
      StoreFits(table, at.id, at.authnContext, at.reading);
    } else {
      SubsetSize(table'.Keys, table.Keys);
    }
  }

  lemma AdvanceTakes(policy: Policy, at: Point, table: Table, clock: nat, wall: int)
    requires !at.Registering?
    ensures var (after, table') := Advance(policy, at, table, clock, wall);
            after.Accepted? && !at.Accepted? ==>
              at.AtTake? && after.response == at.response && after.found == at.found && after.fallback == at.fallback
              && at.response.inResponseTo.Some?
              && at.response.inResponseTo.value in table && at.response.inResponseTo.value !in table'
              && after.taken == table[at.response.inResponseTo.value] && Age(after.taken, at.reading) < TTL
  {
  }

  lemma AdvanceEntries(policy: Policy, at: Point, table: Table, clock: nat, wall: int)
    requires !at.Registering?
    ensures var (after, table') := Advance(policy, at, table, clock, wall);
            forall id :: id in table' ==>
              (id in table && table'[id] == table[id])
              || (at.AtStore? && after == StoreDone(true) && id == at.id && table'[id] == Pending(at.authnContext, at.reading))
  {
  }

  /** What a step takes from and puts into the table. */
  lemma AdvanceTable(policy: Policy, at: Point, table: Table, clock: nat, wall: int)
    requires !at.Registering? && |table| <= MAX_PENDING
    ensures var (after, table') := Advance(policy, at, table, clock, wall);
            && |table'| <= MAX_PENDING
            && (after.Accepted? && !at.Accepted? ==>
                  at.AtTake? && after.response == at.response && after.found == at.found && after.fallback == at.fallback
                  && at.response.inResponseTo.Some?
                  && at.response.inResponseTo.value in table && at.response.inResponseTo.value !in table'
                  && after.taken == table[at.response.inResponseTo.value] && Age(after.taken, at.reading) < TTL)
            && (forall id :: id in table' ==>
                  (id in table && table'[id] == table[id])
                  || (at.AtStore? && after == StoreDone(true) && id == at.id && table'[id] == Pending(at.authnContext, at.reading)))
  {
    AdvanceFits(policy, at, table, clock, wall);
    AdvanceTakes(policy, at, table, clock, wall);
    AdvanceEntries(policy, at, table, clock, wall);
  }

  lemma StoreFits(table: Table, id: string, authnContext: string, now: nat)
    requires |table| <= MAX_PENDING
    ensures |StoreResult(table, id, authnContext, now).1| <= MAX_PENDING
  {
    var live := Purged(table, now);
    SubsetSize(live.Keys, table.Keys);
    var after := StoreResult(table, id, authnContext, now).1;
    if id in live {
      assert after.Keys == live.Keys;
    } else if |live| < MAX_PENDING {
      assert after.Keys == live.Keys + {id};
    }
  }

  /** What the log says after a step that is not a replay check. */
  lemma MoveLogged(policy: Policy, log: seq<Action>, thread: nat, at: Point, table: Table, clock: nat, wall: int)
    requires Logged(policy, log, thread, at) && !Final(at)
    requires forall id :: id in table ==> WasStored(log, id, table[id])
    ensures var after := Moved(policy, at, table, clock, wall).0;
            Logged(policy, log + [Action(thread, at, after, wall)], thread, after) && ReadingsPast(after, clock)
  {
    var after := Moved(policy, at, table, clock, wall).0;
    var a := Action(thread, at, after, wall);
    if (at.Received? && after.Received?) || (at.Peeked? && after.Peeked?) {
      CheckPoint(policy, log, a);
    } else if at.Peeked? && after.Registering? {
      EnterPoint(policy, log, a);
    } else {
      if after.Peeked? {
        assert FullUpTo(policy, log, thread, after.response, after.found, 0);
      }
      LoggedGrows(policy, log, a, thread, after);
    }
  }

  /** A timed check that passes. */
  lemma CheckPoint(policy: Policy, log: seq<Action>, a: Action)
    requires Logged(policy, log, a.thread, a.before)
    requires var at := a.before;
             || (at.Received? && at.passed < |policy.early(at.response)| && policy.early(at.response)[at.passed](a.wall)
                 && a.after == Received(at.response, at.passed + 1))
             || (at.Peeked? && at.passed < |policy.full(at.response, at.found)|
                 && policy.full(at.response, at.found)[at.passed](a.wall)
                 && a.after == Peeked(at.response, at.found, at.passed + 1))
    ensures Logged(policy, log + [a], a.thread, a.after)
  {
    LoggedGrows(policy, log, a, a.thread, a.before);
    CheckRecorded(policy, log, a);
  }

  /** The step that sets the fallback expiry. */
  lemma EnterPoint(policy: Policy, log: seq<Action>, a: Action)
    requires Logged(policy, log, a.thread, a.before) && a.before.Peeked?
    requires a.before.passed >= |policy.full(a.before.response, a.before.found)|
    requires a.after == Registering(a.before.response, a.before.found, a.wall + policy.window, 0)
    ensures Logged(policy, log + [a], a.thread, a.after)
  {
    LoggedGrows(policy, log, a, a.thread, a.before);
    assert (log + [a])[|log|] == a;
    assert Entered(policy, log + [a], a.thread, a.before.response, a.before.found, a.after.fallback);
  }

  /** A step that is not a replay check hands on what was cleared. */
  lemma MoveCleared(policy: Policy, checks: History, owners: seq<nat>, thread: nat, at: Point, table: Table, clock: nat, wall: int)
    requires Cleared(checks, owners, thread, at) && !Checking(at) && !Final(at)
    ensures Cleared(checks, owners, thread, Moved(policy, at, table, clock, wall).0)
  {
  }

  lemma FinalsGrow(threads: map<nat, Point>, log: seq<Action>, a: Action)
    requires FinalsHold(threads, log) && a.thread in threads && !Final(threads[a.thread]) && AcceptInTime(a)
    requires a.after.Accepted? ==>
               Found(log, a.after.response, a.after.found) && WasStored(log, a.after.response.inResponseTo.value, a.after.taken)
    ensures FinalsHold(threads[a.thread := a.after], log + [a])
  {
    var log', threads' := log + [a], threads[a.thread := a.after];
    forall i | 0 <= i < |log'|
      ensures AcceptInTime(log'[i]) && AcceptBacked(log', i)
      ensures Final(log'[i].after) ==> log'[i].thread in threads' && threads'[log'[i].thread] == log'[i].after
    {
      assert log'[..i] == log[..i];
      if i < |log| {
        assert log'[i] == log[i] && AcceptBacked(log, i);
      } else {
        assert log[..i] == log;
      }
    }
    forall i, j | 0 <= i < j < |log'| && Final(log'[i].after)
      ensures log'[j].thread != log'[i].thread
    {
      assert log'[i] == log[i];
      assert j < |log| ==> log'[j] == log[j];
    }
  }

  /** A step that leaves the table alone. */
  lemma TableKept(table: Table, log: seq<Action>, a: Action)
    requires TableOk(table, log) && !a.before.AtStore? && !a.after.Accepted?
    ensures TableOk(table, log + [a])
  {
    forall id | id in table
      ensures WasStored(log + [a], id, table[id])
    {
      StoredGrows(log, a, id, table[id]);
    }
    forall id
      ensures CountAccepts(log + [a], id) + (if id in table then 1 else 0) <= CountStores(log + [a], id)
    {
      CountsSnoc(log, a, id);
    }
  }

  lemma TableMoves(policy: Policy, at: Point, table: Table, log: seq<Action>, thread: nat, clock: nat, wall: int)
    requires TableOk(table, log) && !at.Registering? && !Final(at)
    ensures var (after, table') := Advance(policy, at, table, clock, wall);
            TableOk(table', log + [Action(thread, at, after, wall)])
  {
    var (after, table') := Advance(policy, at, table, clock, wall);
    var a := Action(thread, at, after, wall);
    AdvanceTable(policy, at, table, clock, wall);
    forall id | id in table'
      ensures WasStored(log + [a], id, table'[id])
    {
      if id in table && table'[id] == table[id] {
        StoredGrows(log, a, id, table[id]);
      } else {
        assert (log + [a])[|log|] == a && Stores(a, id);
      }
    }
    forall id
      ensures CountAccepts(log + [a], id) + (if id in table' then 1 else 0) <= CountStores(log + [a], id)
    {
      CountsSnoc(log, a, id);
    }
  }

  lemma MoveTable(policy: Policy, table: Table, log: seq<Action>, thread: nat, at: Point, clock: nat, wall: int)
    requires TableOk(table, log) && !Final(at)
    ensures var (after, table') := Moved(policy, at, table, clock, wall);
            TableOk(table', log + [Action(thread, at, after, wall)])
  {
    if at.Registering? {
      TableKept(table, log, Action(thread, at, Cleaning(at.response, at.found, at.fallback), wall));
    } else {
      TableMoves(policy, at, table, log, thread, clock, wall);
    }
  }

  lemma MovePoints(policy: Policy, threads: map<nat, Point>, table: Table, log: seq<Action>, checks: History,
                   owners: seq<nat>, before: nat, thread: nat, clock: nat, wall: int)
    requires PointsOk(policy, threads, log, checks, owners, before) && before <= clock
    requires thread in threads && !Checking(threads[thread]) && !Final(threads[thread])
    requires forall id :: id in table ==> WasStored(log, id, table[id])
    ensures var at := threads[thread];
            var after := Moved(policy, at, table, clock, wall).0;
            PointsOk(policy, threads[thread := after], log + [Action(thread, at, after, wall)], checks, owners, clock)
  {
    var at := threads[thread];
    var after := Moved(policy, at, table, clock, wall).0;
    var a := Action(thread, at, after, wall);
    MoveLogged(policy, log, thread, at, table, clock, wall);
    MoveCleared(policy, checks, owners, thread, at, table, clock, wall);
    PointsAfterLog(policy, threads, log, a, checks, owners, before, clock);
    PointsAfterMove(policy, threads, log + [a], checks, owners, clock, thread, after);
  }

  lemma MoveFinals(policy: Policy, threads: map<nat, Point>, table: Table, log: seq<Action>, thread: nat, clock: nat, wall: int)
    requires FinalsHold(threads, log) && TableOk(table, log)
    requires thread in threads && !Final(threads[thread]) && Logged(policy, log, thread, threads[thread])
    ensures var at := threads[thread];
            var after := Moved(policy, at, table, clock, wall).0;
            FinalsHold(threads[thread := after], log + [Action(thread, at, after, wall)])
  {
    var at := threads[thread];
    if !at.Registering? {
      AdvanceTable(policy, at, table, clock, wall);
    }
    FinalsGrow(threads, log, Action(thread, at, Moved(policy, at, table, clock, wall).0, wall));
  }

  lemma RemembersLater(c: Cache, h: History, clock: int, now: int)
    requires Remembers(c, h, clock) && clock <= now
    ensures Remembers(c, h, now) && Remembers(Cleanup(c, now), h, now)
  {
    PruningRemembers(c, h, clock, now);
  }

  /** A step that is not a replay check. */
  lemma MoveKeepsInv(policy: Policy, s: State, thread: nat, clock: nat, wall: int)
    requires Inv(policy, s) && s.clock <= clock && s.wall <= wall
    requires thread in s.threads && !Checking(s.threads[thread]) && !Final(s.threads[thread])
    ensures Inv(policy, Stepped(policy, s, thread, clock, wall))
  {
    MoveTable(policy, s.table, s.log, thread, s.threads[thread], clock, wall);
    MovePoints(policy, s.threads, s.table, s.log, s.checks, s.owners, s.clock, thread, clock, wall);
    MoveFinals(policy, s.threads, s.table, s.log, thread, clock, wall);
    RemembersLater(s.replay, s.checks, s.wall, wall);
  }

  lemma CheckCleared(checks: History, owners: seq<nat>, thread: nat, at: Point, c: Check)
    requires Checking(at) && (c.id, c.expiry) == Tokens(at.response, at.fallback)[at.done] && |owners| == |checks|
    requires Cleared(checks, owners, thread, at)
    ensures Cleared(checks + [c], owners + [thread], thread, AfterCheck(at, c.admitted))
  {
    ClearedGrows(checks, owners, c, thread, thread, at);
    if c.admitted {
      assert (checks + [c])[|checks|] == c && (owners + [thread])[|checks|] == thread;
      assert Owns(checks + [c], owners + [thread], thread, Tokens(at.response, at.fallback)[at.done]);
    }
  }

  lemma CheckPoints(policy: Policy, threads: map<nat, Point>, log: seq<Action>, checks: History, owners: seq<nat>,
                    before: nat, thread: nat, c: Check, clock: nat, wall: int)
    requires PointsOk(policy, threads, log, checks, owners, before) && before <= clock && |owners| == |checks|
    requires thread in threads && Checking(threads[thread])
    requires (c.id, c.expiry) == Tokens(threads[thread].response, threads[thread].fallback)[threads[thread].done]
    ensures var at := threads[thread];
            var after := AfterCheck(at, c.admitted);
            PointsOk(policy, threads[thread := after], log + [Action(thread, at, after, wall)], checks + [c], owners + [thread], clock)
  {
    var at := threads[thread];
    var after := AfterCheck(at, c.admitted);
    var a := Action(thread, at, after, wall);
    CheckCleared(checks, owners, thread, at, c);
    LoggedGrows(policy, log, a, thread, at);
    PointsAfterLog(policy, threads, log, a, checks, owners, before, clock);
    PointsAfterCheck(policy, threads, log + [a], checks, owners, c, thread, clock);
    PointsAfterMove(policy, threads, log + [a], checks + [c], owners + [thread], clock, thread, after);
  }

  /** A replay check. */
  lemma CheckKeepsInv(policy: Policy, s: State, thread: nat, clock: nat, wall: int)
    requires Inv(policy, s) && s.clock <= clock && s.wall <= wall
    requires thread in s.threads && Checking(s.threads[thread])
    ensures Inv(policy, Checked(s, thread, clock, wall))
  {
    var at, c := s.threads[thread], CheckMade(s, thread, wall);
    var a := Action(thread, at, AfterCheck(at, c.admitted), wall);
    CheckRemembers(s.replay, s.checks, s.wall, c.id, c.expiry, wall);
    FinalsGrow(s.threads, s.log, a);
    TableKept(s.table, s.log, a);
    CheckPoints(policy, s.threads, s.log, s.checks, s.owners, s.clock, thread, c, clock, wall);
  }

  lemma ArrivePoints(policy: Policy, threads: map<nat, Point>, log: seq<Action>, checks: History, owners: seq<nat>,
                     before: nat, thread: nat, at: Point, clock: nat)
    requires PointsOk(policy, threads, log, checks, owners, before) && before <= clock
    requires (at.Received? && at.passed == 0) || (at.AtStore? && at.reading == clock)
    ensures PointsOk(policy, threads[thread := at], log, checks, owners, clock)
  {
  }

  lemma ArriveFinals(threads: map<nat, Point>, log: seq<Action>, thread: nat, at: Point)
    requires FinalsHold(threads, log) && thread !in threads
    ensures FinalsHold(threads[thread := at], log)
  {
  }

  lemma ArriveKeepsInv(policy: Policy, s: State, s': State, thread: nat, at: Point, clock: nat, wall: int)
    requires Inv(policy, s) && Arrive(s, s', thread, at, clock, wall)
    ensures Inv(policy, s')
  {
    RemembersLater(s.replay, s.checks, s.wall, wall);
    ArrivePoints(policy, s.threads, s.log, s.checks, s.owners, s.clock, thread, at, clock);
    ArriveFinals(s.threads, s.log, thread, at);
  }

  lemma {:induction false} EveryStateKeepsInv(policy: Policy, run: seq<State>, n: nat)
    requires Interleaving(policy, run) && n < |run|
    ensures Inv(policy, run[n])
  {
    if n == 0 {
      EmptyRemembers(run[0].wall);
    } else {
      EveryStateKeepsInv(policy, run, n - 1);
      var s, s' := run[n - 1], run[n - 1 + 1];
      assert Next(policy, s, s');
      if exists thread, at, clock, wall :: Arrive(s, s', thread, at, clock, wall) {
        var thread, at, clock, wall :| Arrive(s, s', thread, at, clock, wall);
        ArriveKeepsInv(policy, s, s', thread, at, clock, wall);
      } else {
        var thread, clock, wall :| Act(policy, s, s', thread, clock, wall);
        ActKeepsInv(policy, s, s', thread, clock, wall);
      }
    }
  }

  lemma ActKeepsInv(policy: Policy, s: State, s': State, thread: nat, clock: nat, wall: int)
    requires Inv(policy, s) && Act(policy, s, s', thread, clock, wall)
    ensures Inv(policy, s')
  {
    if Checking(s.threads[thread]) {
      CheckKeepsInv(policy, s, thread, clock, wall);
    } else {
      MoveKeepsInv(policy, s, thread, clock, wall);
    }
  }

  // ---- What every interleaving keeps -----------------------------------------------------

  /** Each success has a store of its own and the table stays within its bound. */
  lemma OneSuccessPerStore(policy: Policy, run: seq<State>, n: nat, id: string)
    requires Interleaving(policy, run) && n < |run|
    ensures |run[n].table| <= MAX_PENDING
    ensures CountAccepts(run[n].log, id) <= CountStores(run[n].log, id)
  {
    EveryStateKeepsInv(policy, run, n);
  }

  lemma {:induction false} OneStoreOnly(log: seq<Action>, id: string, i: nat, k: nat)
    requires CountStores(log, id) <= 1 && i < |log| && k < |log| && Stores(log[i], id) && Stores(log[k], id)
    ensures i == k
    decreases |log|
  {
    if i != k {
      var front := log[..|log| - 1];
      if i < |front| && k < |front| {
        assert front[i] == log[i] && front[k] == log[k];
        OneStoreOnly(front, id, i, k);
      } else {
        StoreCounts(front, id, if i < k then i else k);
      }
    }
  }

  lemma {:induction false} StoreCounts(log: seq<Action>, id: string, i: nat)
    requires i < |log| && Stores(log[i], id)
    ensures CountStores(log, id) >= 1
    decreases |log|
  {
    if i < |log| - 1 {
      StoreCounts(log[..|log| - 1], id, i);
    }
  }

  /** An earlier step of the handler made the `k`th early check, and it passed at
      the reading made for it. */
  ghost predicate EarlyBefore(policy: Policy, log: seq<Action>, j: nat, r: Response, k: nat)
    requires j < |log|
  {
    && k < |policy.early(r)|
    && exists i :: 0 <= i < j && log[i].thread == log[j].thread && log[i].before == Received(r, k)
                   && policy.early(r)[k](log[i].wall)
  }

  ghost predicate FullBefore(policy: Policy, log: seq<Action>, j: nat, r: Response, found: Pending, k: nat)
    requires j < |log|
  {
    && k < |policy.full(r, found)|
    && exists i :: 0 <= i < j && log[i].thread == log[j].thread && log[i].before == Peeked(r, found, k)
                   && policy.full(r, found)[k](log[i].wall)
  }

  /** A success passed every check, each at the clock reading made for it, against
      a pending entry stored earlier under the ID it answers, and took an entry
      stored earlier under that ID whose age at the handler's clock reading was
      below the TTL.  If the ID was stored once, both are the same entry. */
  lemma SuccessIsEarned(policy: Policy, run: seq<State>, n: nat, j: nat, id: string)
    requires Interleaving(policy, run) && n < |run| && j < |run[n].log| && Accepts(run[n].log[j], id)
    ensures var log, at := run[n].log, run[n].log[j].after;
            && (forall k :: 0 <= k < |policy.early(at.response)| ==> EarlyBefore(policy, log, j, at.response, k))
            && (forall k :: 0 <= k < |policy.full(at.response, at.found)| ==> FullBefore(policy, log, j, at.response, at.found, k))
            && Age(at.taken, log[j].before.reading) < TTL
            && WasStored(log[..j], id, at.found) && WasStored(log[..j], id, at.taken)
            && (CountStores(log, id) <= 1 ==> at.taken == at.found)
  {
    EveryStateKeepsInv(policy, run, n);
    var s, log, at := run[n], run[n].log, run[n].log[j].after;
    assert AcceptInTime(log[j]) && AcceptBacked(log, j);
    ChecksBefore(policy, s, j);
    if CountStores(log, id) <= 1 {
      var i :| 0 <= i < j && Stores(log[..j][i], id) && at.found == Pending(log[..j][i].before.authnContext, log[..j][i].before.reading);
      var k :| 0 <= k < j && Stores(log[..j][k], id) && at.taken == Pending(log[..j][k].before.authnContext, log[..j][k].before.reading);
      assert log[..j][i] == log[i] && log[..j][k] == log[k];
      OneStoreOnly(log, id, i, k);
    }
  }

  lemma ChecksBefore(policy: Policy, s: State, j: nat)
    requires Inv(policy, s) && j < |s.log| && s.log[j].after.Accepted?
    ensures var at := s.log[j].after;
            && (forall k :: 0 <= k < |policy.early(at.response)| ==> EarlyBefore(policy, s.log, j, at.response, k))
            && (forall k :: 0 <= k < |policy.full(at.response, at.found)| ==> FullBefore(policy, s.log, j, at.response, at.found, k))
  {
    var log, at, t := s.log, s.log[j].after, s.log[j].thread;
    assert AcceptInTime(log[j]);
    assert Logged(policy, log, t, s.threads[t]);
    forall k | 0 <= k < |policy.early(at.response)|
      ensures EarlyBefore(policy, log, j, at.response, k)
    {
      EarlyComesBefore(policy, log, s.threads, j, at.response, k);
    }
    forall k | 0 <= k < |policy.full(at.response, at.found)|
      ensures FullBefore(policy, log, j, at.response, at.found, k)
    {
      FullComesBefore(policy, log, s.threads, j, at.response, at.found, k);
    }
  }

  lemma EarlyComesBefore(policy: Policy, log: seq<Action>, threads: map<nat, Point>, j: nat, r: Response, k: nat)
    requires FinalsHold(threads, log) && j < |log| && log[j].after.Accepted?
    requires EarlyPassed(policy, log, log[j].thread, r, k)
    ensures EarlyBefore(policy, log, j, r, k)
  {
    var i :| 0 <= i < |log| && log[i].thread == log[j].thread && log[i].before == Received(r, k)
             && policy.early(r)[k](log[i].wall);
    assert AcceptInTime(log[j]) && i != j;
  }

  lemma FullComesBefore(policy: Policy, log: seq<Action>, threads: map<nat, Point>, j: nat, r: Response, found: Pending, k: nat)
    requires FinalsHold(threads, log) && j < |log| && log[j].after.Accepted?
    requires FullPassed(policy, log, log[j].thread, r, found, k)
    ensures FullBefore(policy, log, j, r, found, k)
  {
    var i :| 0 <= i < |log| && log[i].thread == log[j].thread && log[i].before == Peeked(r, found, k)
             && policy.full(r, found)[k](log[i].wall);
    assert AcceptInTime(log[j]) && i != j;
  }

  /** An earlier step of the handler set the fallback expiry of a success, from the
      wall clock reading made for it. */
  ghost predicate EnteredAt(policy: Policy, log: seq<Action>, e: nat, j: nat)
    requires e < |log| && j < |log| && log[j].after.Accepted?
  {
    var at := log[j].after;
    && e < j && log[e].thread == log[j].thread && log[e].before == Peeked(at.response, at.found, |policy.full(at.response, at.found)|)
    && at.fallback == log[e].wall + policy.window
  }

  /** This admitted check registered the `k`th ID of a success, by its handler. */
  ghost predicate RegisteredBy(s: State, i: nat, j: nat, k: nat)
    requires i < |s.checks| == |s.owners| && j < |s.log| && s.log[j].after.Accepted?
  {
    var at := s.log[j].after;
    && k < |IdsOf(at.response)| && s.owners[i] == s.log[j].thread && s.checks[i].admitted
    && s.checks[i].id == IdsOf(at.response)[k] && s.checks[i].expiry == ExpiryOf(at.response, at.fallback, k)
  }

  lemma SuccessEntered(policy: Policy, s: State, j: nat) returns (e: nat)
    requires Inv(policy, s) && j < |s.log| && s.log[j].after.Accepted?
    ensures e < |s.log| && EnteredAt(policy, s.log, e, j)
  {
    var log, at, t := s.log, s.log[j].after, s.log[j].thread;
    assert AcceptInTime(log[j]);
    assert Logged(policy, log, t, s.threads[t]);
    e :| 0 <= e < |log| && log[e].thread == t && log[e].before == Peeked(at.response, at.found, |policy.full(at.response, at.found)|)
         && at.fallback == log[e].wall + policy.window;
    assert e != j;
  }

  lemma SuccessRegistered(policy: Policy, s: State, j: nat, k: nat) returns (i: nat)
    requires Inv(policy, s) && j < |s.log| && s.log[j].after.Accepted? && k < |IdsOf(s.log[j].after.response)|
    ensures i < |s.checks| == |s.owners| && RegisteredBy(s, i, j, k)
  {
    var at, t := s.log[j].after, s.log[j].thread;
    var tokens := Tokens(at.response, at.fallback);
    TokensNameIds(at.response, at.fallback);
    assert Cleared(s.checks, s.owners, t, s.threads[t]);
    assert Owns(s.checks, s.owners, t, tokens[k]);
    i :| 0 <= i < |s.checks| && s.owners[i] == t && s.checks[i].admitted && (s.checks[i].id, s.checks[i].expiry) == tokens[k];
  }

  lemma TwoSuccessesTwoHandlers(policy: Policy, s: State, j1: nat, j2: nat)
    requires Inv(policy, s) && j1 < j2 < |s.log| && s.log[j1].after.Accepted? && s.log[j2].after.Accepted?
    ensures s.log[j1].thread != s.log[j2].thread
  {
  }

  /** Two successes are by different handlers, and if they share a response or
      assertion ID, each of the two handlers registered it with the expiry of its
      own response, and the later of the two registrations was made only after the
      earlier one had expired. */
  lemma NoReplayedSuccess(policy: Policy, run: seq<State>, n: nat, j1: nat, j2: nat, k1: nat, k2: nat)
    requires Interleaving(policy, run) && n < |run| && j1 < j2 < |run[n].log|
    requires run[n].log[j1].after.Accepted? && run[n].log[j2].after.Accepted?
    requires k1 < |IdsOf(run[n].log[j1].after.response)| && k2 < |IdsOf(run[n].log[j2].after.response)|
    requires IdsOf(run[n].log[j1].after.response)[k1] == IdsOf(run[n].log[j2].after.response)[k2]
    ensures run[n].log[j1].thread != run[n].log[j2].thread
    ensures |run[n].owners| == |run[n].checks|
    ensures var s := run[n];
            exists i1: nat, i2: nat :: i1 < |s.checks| && i2 < |s.checks| && i1 != i2
              && RegisteredBy(s, i1, j1, k1) && RegisteredBy(s, i2, j2, k2)
              && if i1 < i2 then s.checks[i2].at >= s.checks[i1].expiry else s.checks[i1].at >= s.checks[i2].expiry
  {
    EveryStateKeepsInv(policy, run, n);
    var s := run[n];
    TwoSuccessesTwoHandlers(policy, s, j1, j2);
    var i1 := SuccessRegistered(policy, s, j1, k1);
    var i2 := SuccessRegistered(policy, s, j2, k2);
    if i1 < i2 {
      AdmittedTwice(s.checks, i1, i2);
    } else {
      AdmittedTwice(s.checks, i2, i1);
    }
  }

  /** One of the two handlers registered its response ID at a reading at least the
      window after the one at which the other had passed its last check. */
  ghost predicate WindowBetween(policy: Policy, s: State, j1: nat, j2: nat, e1: nat, e2: nat, i1: nat, i2: nat)
    requires j1 < |s.log| && j2 < |s.log| && s.log[j1].after.Accepted? && s.log[j2].after.Accepted?
    requires |s.checks| == |s.owners|
  {
    && e1 < |s.log| && e2 < |s.log| && EnteredAt(policy, s.log, e1, j1) && EnteredAt(policy, s.log, e2, j2)
    && i1 < |s.checks| && i2 < |s.checks| && RegisteredBy(s, i1, j1, 0) && RegisteredBy(s, i2, j2, 0)
    && (s.checks[i2].at >= s.log[e1].wall + policy.window || s.checks[i1].at >= s.log[e2].wall + policy.window)
  }

  /** Two successes with one response ID are at least the window apart, measured
      from the reading at which a handler passed its last check. */
  lemma SameResponseLater(policy: Policy, run: seq<State>, n: nat, j1: nat, j2: nat)
    requires Interleaving(policy, run) && n < |run| && j1 < j2 < |run[n].log|
    requires run[n].log[j1].after.Accepted? && run[n].log[j2].after.Accepted?
    requires run[n].log[j1].after.response.id == run[n].log[j2].after.response.id
    ensures |run[n].owners| == |run[n].checks|
    ensures exists e1, e2, i1, i2 :: WindowBetween(policy, run[n], j1, j2, e1, e2, i1, i2)
  {
    EveryStateKeepsInv(policy, run, n);
    TwoSuccessesTwoHandlers(policy, run[n], j1, j2);
    var e1, e2, i1, i2 := WindowFound(policy, run[n], j1, j2);
  }

  lemma WindowFound(policy: Policy, s: State, j1: nat, j2: nat) returns (e1: nat, e2: nat, i1: nat, i2: nat)
    requires Inv(policy, s) && j1 < |s.log| && j2 < |s.log| && s.log[j1].after.Accepted? && s.log[j2].after.Accepted?
    requires s.log[j1].after.response.id == s.log[j2].after.response.id && s.log[j1].thread != s.log[j2].thread
    ensures |s.owners| == |s.checks| && WindowBetween(policy, s, j1, j2, e1, e2, i1, i2)
  {
    e1 := SuccessEntered(policy, s, j1);
    e2 := SuccessEntered(policy, s, j2);
    i1 := SuccessRegistered(policy, s, j1, 0);
    i2 := SuccessRegistered(policy, s, j2, 0);
    if i1 < i2 {
      AdmittedTwice(s.checks, i1, i2);
    } else {
      AdmittedTwice(s.checks, i2, i1);
    }
  }

  /** No step of any handler other than the success for `id` or a new store
      under `id` removes or changes an entry that has not expired, whatever stale
      reading the handler works with. */
  lemma LiveEntrySurvives(policy: Policy, run: seq<State>, n: nat, s': State, thread: nat, clock: nat, wall: int, id: string)
    requires Interleaving(policy, run) && n < |run| && Act(policy, run[n], s', thread, clock, wall)
    requires id in run[n].table && Age(run[n].table[id], run[n].clock) < TTL
    requires !Accepts(s'.log[|run[n].log|], id) && !Stores(s'.log[|run[n].log|], id)
    ensures id in s'.table && s'.table[id] == run[n].table[id]
  {
    EveryStateKeepsInv(policy, run, n);
    var s, at := run[n], run[n].threads[thread];
    assert ReadingsPast(at, s.clock);
    if !at.Registering? {
      AdvanceKeepsLive(policy, at, s.table, clock, wall, id, s.clock);
      assert s'.log[|s.log|].before == at;
    }
  }

  lemma AdvanceKeepsLive(policy: Policy, at: Point, table: Table, clock: nat, wall: int, id: string, present: nat)
    requires !at.Registering? && ReadingsPast(at, present) && id in table && Age(table[id], present) < TTL
    ensures var (after, table') := Advance(policy, at, table, clock, wall);
            || (id in table' && table'[id] == table[id])
            || (at.AtTake? && after.Accepted? && after.response.inResponseTo == Some(id))
            || (at.AtStore? && at.id == id && after == StoreDone(true))
  {
  }
}
