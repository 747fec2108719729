/** The login form of the example IdP (example-idp/src/main.rs): a shared table
    of pending AuthnRequests, and any number of handlers that peek, check the
    password and take, each table access under one lock.  Instants are
    nanoseconds. */
module IdpLogin {
  import opened Wrappers
  import opened SetSizes

  const TTL := 300_000_000_000
  const MAX_PENDING := 1024

  datatype Pending = Pending(request: string, created: nat)

  type Table = map<string, Pending>

  /** `saturating_duration_since`. */
  function Age(p: Pending, now: nat): nat {
    if p.created <= now then now - p.created else 0
  }

  function Purged(table: Table, now: nat): Table {
    map id | id in table && Age(table[id], now) <= TTL :: table[id]
  }

  /** Whether the request was stored, and the table after the attempt. */
  function StoreResult(table: Table, id: string, p: Pending, now: nat): (bool, Table) {
    var live := Purged(table, now);
    if |live| >= MAX_PENDING then (false, live) else (true, live[id := p])
  }

  function Lookup(table: Table, id: string): Option<Pending> {
    if id in table then Some(table[id]) else None
  }

  class PendingAuthnRequests {
    var pending: Table

    constructor ()
      ensures pending == map[]
    {
      pending := map[];
    }

    method PurgeExpired(now: nat)
      modifies this
      ensures pending == Purged(old(pending), now)
    {
      pending := map id | id in pending && Age(pending[id], now) <= TTL :: pending[id];
    }

    method Store(id: string, p: Pending, now: nat) returns (stored: bool)
      modifies this
      ensures (stored, pending) == StoreResult(old(pending), id, p, now)
    {
      PurgeExpired(now);
      if |pending| >= MAX_PENDING {
        return false;
      }
      pending := pending[id := p];
      stored := true;
    }

    method Peek(id: string, now: nat) returns (p: Option<Pending>)
      modifies this
      ensures pending == Purged(old(pending), now) && p == Lookup(pending, id)
    {
      PurgeExpired(now);
      p := if id in pending then Some(pending[id]) else None;
    }

    method Take(id: string, now: nat) returns (p: Option<Pending>)
      modifies this
      ensures p == Lookup(Purged(old(pending), now), id)
      ensures pending == Purged(old(pending), now) - {id}
    {
      PurgeExpired(now);
      p := if id in pending then Some(pending[id]) else None;
      pending := pending - {id};
    }
  }

  // ---- Handlers as threads ---------------------------------------------------

  datatype Form = Form(id: string, username: string, password: string)

  type Users = map<string, string>

  predicate PasswordOk(users: Users, form: Form) {
    form.username in users && users[form.username] == form.password
  }

  datatype Reply = LoginResponse | Denial | ServerError

  /** Where a handler stands between two table accesses. */
  datatype Point =
    | Opening(id: string, pending: Pending)            // AuthnRequest accepted, creation time read, lock not yet taken
    | Opened(stored: bool)                             // login form shown, or 429
    | Submitted(form: Form)                            // login form received
    | Peeked(form: Form)                               // the request was pending
    | Authenticated(form: Form)                        // the password was right
    | Holding(form: Form, pending: Pending)            // the request was taken
    | Replied(form: Form, pending: Pending, reply: Reply)
    | Refused(form: Form)                              // no pending request, or wrong password

  /** One step of a handler.  The reply is what the policy makes of the taken
      request. */
  function Advance(users: Users, at: Point, table: Table, now: nat, reply: Reply): (Point, Table) {
    match at
    case Opening(id, p) =>
      var (stored, after) := StoreResult(table, id, p, now);
      (Opened(stored), after)
    case Submitted(form) =>
      var live := Purged(table, now);
      (if form.id in live then Peeked(form) else Refused(form), live)
    case Peeked(form) =>
      (if PasswordOk(users, form) then Authenticated(form) else Refused(form), table)
    case Authenticated(form) =>
      var live := Purged(table, now);
      (if form.id in live then Holding(form, live[form.id]) else Refused(form), live - {form.id})
    case Holding(form, p) => (Replied(form, p, reply), table)
    case _ => (at, table)
  }

  datatype Action = Action(thread: nat, before: Point, after: Point, at: nat)

  predicate Stores(a: Action, id: string) {
    a.before.Opening? && a.before.id == id && a.after == Opened(true)
  }

  predicate Takes(a: Action, id: string) {
    a.before.Authenticated? && a.after.Holding? && a.after.form.id == id
  }

  predicate Replies(a: Action, id: string) {
    a.before.Holding? && a.after.Replied? && a.after.form.id == id
  }

  datatype State = State(table: Table, threads: map<nat, Point>, clock: nat, log: seq<Action>)

  const START := State(map[], map[], 0, [])

  /** A new request arrives, the creation instant being the current one. */
  ghost predicate Arrive(s: State, s': State, thread: nat, at: Point) {
    && thread !in s.threads
    && (at.Submitted? || (at.Opening? && at.pending.created == s.clock))
    && s' == s.(threads := s.threads[thread := at])
  }

  /** One handler does its next step, the lock being held from the clock reading
      to the end of the step. */
  ghost predicate Act(users: Users, s: State, s': State, thread: nat, now: nat, reply: Reply) {
    && thread in s.threads && s.clock <= now
    && var at := s.threads[thread];
       var (after, table) := Advance(users, at, s.table, now, reply);
       && !(at.Opened? || at.Replied? || at.Refused?)
       && s' == State(table, s.threads[thread := after], now, s.log + [Action(thread, at, after, now)])
  }

  ghost predicate Next(users: Users, s: State, s': State) {
    || (exists thread, at :: Arrive(s, s', thread, at))
    || (exists thread, now, reply :: Act(users, s, s', thread, now, reply))
  }

  /** Any interleaving of any number of handlers. */
  ghost predicate Interleaving(users: Users, run: seq<State>) {
    && run != [] && run[0] == START
    && forall i :: 0 <= i < |run| - 1 ==> Next(users, run[i], run[i + 1])
  }

  // ---- Invariant ---------------------------------------------------------------

  function CountStores(log: seq<Action>, id: string): nat {
    if log == [] then 0 else CountStores(log[..|log| - 1], id) + if Stores(log[|log| - 1], id) then 1 else 0
  }

  function CountTakes(log: seq<Action>, id: string): nat {
    if log == [] then 0 else CountTakes(log[..|log| - 1], id) + if Takes(log[|log| - 1], id) then 1 else 0
  }

  function CountReplies(log: seq<Action>, id: string): nat {
    if log == [] then 0 else CountReplies(log[..|log| - 1], id) + if Replies(log[|log| - 1], id) then 1 else 0
  }

  function Holders(threads: map<nat, Point>, id: string): set<nat> {
    set t | t in threads && threads[t].Holding? && threads[t].form.id == id
  }

  predicate PointOk(users: Users, at: Point) {
    at.Authenticated? || at.Holding? || at.Replied? ==> PasswordOk(users, at.form)
  }

  /** An earlier action stored this request under this ID. */
  ghost predicate WasStored(log: seq<Action>, id: string, p: Pending) {
    exists i :: 0 <= i < |log| && Stores(log[i], id) && log[i].before.pending == p
  }

  /** An earlier action of the thread took this request, in time. */
  ghost predicate WasTaken(log: seq<Action>, thread: nat, form: Form, p: Pending) {
    exists i :: 0 <= i < |log| && log[i].thread == thread && log[i].before == Authenticated(form)
                && log[i].after == Holding(form, p) && Age(p, log[i].at) <= TTL
  }

  ghost predicate ActionOk(users: Users, log: seq<Action>, i: nat)
    requires i < |log|
  {
    var a := log[i];
    && PointOk(users, a.before) && PointOk(users, a.after)
    && (forall id :: Takes(a, id) ==> Age(a.after.pending, a.at) <= TTL && WasStored(log[..i], id, a.after.pending))
    && (forall id :: Replies(a, id) ==>
          a.after.form == a.before.form && a.after.pending == a.before.pending
          && WasTaken(log[..i], a.thread, a.before.form, a.before.pending))
  }

  ghost predicate Inv(users: Users, s: State) {
    && |s.table| <= MAX_PENDING
    && (forall id :: id in s.table ==> WasStored(s.log, id, s.table[id]))
    && ThreadsOk(users, s.threads, s.log)
    && (forall i :: 0 <= i < |s.log| ==> ActionOk(users, s.log, i))
    && (forall id :: CountTakes(s.log, id) + (if id in s.table then 1 else 0) <= CountStores(s.log, id))
    && (forall id :: CountReplies(s.log, id) + |Holders(s.threads, id)| == CountTakes(s.log, id))
  }

  lemma ArriveKeepsInv(users: Users, s: State, s': State, thread: nat, at: Point)
    requires Inv(users, s) && Arrive(s, s', thread, at)
    ensures Inv(users, s')
  {
    forall id
      ensures Holders(s'.threads, id) == Holders(s.threads, id)
    {
      ArriveHolders(s.threads, thread, at, id);
    }
    ArriveThreads(users, s.threads, s.log, thread, at);
  }

  lemma ArriveHolders(threads: map<nat, Point>, thread: nat, at: Point, id: string)
    requires thread !in threads && !at.Holding?
    ensures Holders(threads[thread := at], id) == Holders(threads, id)
  {
  }

  ghost predicate ThreadsOk(users: Users, threads: map<nat, Point>, log: seq<Action>) {
    forall t :: t in threads ==>
      PointOk(users, threads[t]) && (threads[t].Holding? ==> WasTaken(log, t, threads[t].form, threads[t].pending))
  }

  lemma ArriveThreads(users: Users, threads: map<nat, Point>, log: seq<Action>, thread: nat, at: Point)
    requires ThreadsOk(users, threads, log) && (at.Submitted? || at.Opening?)
    ensures ThreadsOk(users, threads[thread := at], log)
  {
  }

  lemma LogGrows(log: seq<Action>, a: Action)
    ensures forall id, p :: WasStored(log, id, p) ==> WasStored(log + [a], id, p)
    ensures forall t, form, p :: WasTaken(log, t, form, p) ==> WasTaken(log + [a], t, form, p)
  {
    forall id, p | WasStored(log, id, p)
      ensures WasStored(log + [a], id, p)
    {
      var i :| 0 <= i < |log| && Stores(log[i], id) && log[i].before.pending == p;
      assert (log + [a])[i] == log[i];
    }
    forall t, form, p | WasTaken(log, t, form, p)
      ensures WasTaken(log + [a], t, form, p)
    {
      var i :| 0 <= i < |log| && log[i].thread == t && log[i].before == Authenticated(form)
               && log[i].after == Holding(form, p) && Age(p, log[i].at) <= TTL;
      assert (log + [a])[i] == log[i];
    }
  }

  predicate Holds(at: Point, id: string) {
    at.Holding? && at.form.id == id
  }

  lemma HoldersMove(threads: map<nat, Point>, thread: nat, after: Point, id: string)
    requires thread in threads
    ensures |Holders(threads[thread := after], id)|
            == |Holders(threads, id)| - (if Holds(threads[thread], id) then 1 else 0) + (if Holds(after, id) then 1 else 0)
  {
    var rest := Holders(threads, id) - {thread};
    HoldersSplit(threads, thread, id);
    HoldersSplit(threads[thread := after], thread, id);
    assert Holders(threads[thread := after], id) - {thread} == rest;
  }

  lemma HoldersSplit(threads: map<nat, Point>, thread: nat, id: string)
    requires thread in threads
    ensures |Holders(threads, id)| == |Holders(threads, id) - {thread}| + (if Holds(threads[thread], id) then 1 else 0)
  {
    var h := Holders(threads, id);
    if Holds(threads[thread], id) {
      assert h == (h - {thread}) + {thread};
    } else {
      assert h == h - {thread};
    }
  }

  lemma CountsSnoc(log: seq<Action>, a: Action, id: string)
    ensures CountStores(log + [a], id) == CountStores(log, id) + if Stores(a, id) then 1 else 0
    ensures CountTakes(log + [a], id) == CountTakes(log, id) + if Takes(a, id) then 1 else 0
    ensures CountReplies(log + [a], id) == CountReplies(log, id) + if Replies(a, id) then 1 else 0
  {
    assert (log + [a])[..|log|] == log;
  }

  lemma AdvanceFits(users: Users, at: Point, table: Table, now: nat, reply: Reply)
    requires |table| <= MAX_PENDING
    ensures |Advance(users, at, table, now, reply).1| <= MAX_PENDING
  {
    var (after, table') := Advance(users, at, table, now, reply);
    var live := Purged(table, now);
    SubsetSize(live.Keys, table.Keys);
    if at.Opening? && after == Opened(true) {
      assert table'.Keys == live.Keys + {at.id};
    } else {
      SubsetSize(table'.Keys, table.Keys);
    }
  }

  lemma AdvanceTable(users: Users, at: Point, table: Table, now: nat, reply: Reply)
    ensures var (after, table') := Advance(users, at, table, now, reply);
            forall id :: id in table' ==>
              (id in table && table'[id] == table[id])
              || (at.Opening? && after == Opened(true) && id == at.id && table'[id] == at.pending)
  {
  }

  /** How a step moves a handler, and what it takes from and puts into the table. */
  lemma AdvanceEffect(users: Users, at: Point, table: Table, now: nat, reply: Reply)
    requires |table| <= MAX_PENDING
    ensures var (after, table') := Advance(users, at, table, now, reply);
            && |table'| <= MAX_PENDING
            && (after.Holding? && !at.Holding? ==>
                  at.Authenticated? && after.form == at.form && at.form.id in table && at.form.id !in table'
                  && after.pending == table[at.form.id] && Age(after.pending, now) <= TTL)
            && (at.Holding? ==> after == Replied(at.form, at.pending, reply))
            && (forall id :: id in table' ==>
                  (id in table && table'[id] == table[id])
                  || (at.Opening? && after == Opened(true) && id == at.id && table'[id] == at.pending))
            && (PointOk(users, at) ==> PointOk(users, after))
  {
    AdvanceFits(users, at, table, now, reply);
    AdvanceTable(users, at, table, now, reply);
  }

  lemma ActCounts(users: Users, s: State, s': State, thread: nat, now: nat, reply: Reply, id: string)
    requires Inv(users, s) && Act(users, s, s', thread, now, reply)
    ensures CountTakes(s'.log, id) + (if id in s'.table then 1 else 0) <= CountStores(s'.log, id)
    ensures CountReplies(s'.log, id) + |Holders(s'.threads, id)| == CountTakes(s'.log, id)
  {
    var at := s.threads[thread];
    var after := Advance(users, at, s.table, now, reply).0;
    AdvanceEffect(users, at, s.table, now, reply);
    CountsSnoc(s.log, Action(thread, at, after, now), id);
    HoldersMove(s.threads, thread, after, id);
  }

  lemma ActTable(users: Users, s: State, s': State, thread: nat, now: nat, reply: Reply)
    requires Inv(users, s) && Act(users, s, s', thread, now, reply)
    ensures |s'.table| <= MAX_PENDING
    ensures forall id :: id in s'.table ==> WasStored(s'.log, id, s'.table[id])
  {
    var at := s.threads[thread];
    var a := s'.log[|s.log|];
    AdvanceEffect(users, at, s.table, now, reply);
    LogGrows(s.log, a);
    forall id | id in s'.table
      ensures WasStored(s'.log, id, s'.table[id])
    {
      if at.Opening? && a.after == Opened(true) && id == at.id && s'.table[id] == at.pending {
        assert Stores(s'.log[|s.log|], id);
      } else {
        assert WasStored(s.log, id, s.table[id]);
      }
    }
  }

  lemma ActionIsOk(users: Users, s: State, s': State, thread: nat, now: nat, reply: Reply)
    requires Inv(users, s) && Act(users, s, s', thread, now, reply)
    ensures ActionOk(users, s'.log, |s.log|)
  {
    AdvanceEffect(users, s.threads[thread], s.table, now, reply);
    assert s'.log[..|s.log|] == s.log;
  }

  lemma ActLog(users: Users, s: State, s': State, thread: nat, now: nat, reply: Reply)
    requires Inv(users, s) && Act(users, s, s', thread, now, reply)
    ensures forall i :: 0 <= i < |s'.log| ==> ActionOk(users, s'.log, i)
  {
    ActionIsOk(users, s, s', thread, now, reply);
    forall i | 0 <= i < |s'.log|
      ensures ActionOk(users, s'.log, i)
    {
      if i < |s.log| {
        assert s'.log[..i] == s.log[..i] && s'.log[i] == s.log[i] && ActionOk(users, s.log, i);
      }
    }
  }

  lemma ActHolders(users: Users, s: State, s': State, thread: nat, now: nat, reply: Reply, t: nat)
    requires Inv(users, s) && Act(users, s, s', thread, now, reply)
    requires t in s'.threads && s'.threads[t].Holding?
    ensures WasTaken(s'.log, t, s'.threads[t].form, s'.threads[t].pending)
  {
    AdvanceEffect(users, s.threads[thread], s.table, now, reply);
    var a := s'.log[|s.log|];
    LogGrows(s.log, a);
    if t == thread {
      assert s'.log[|s.log|].thread == t && a.before == Authenticated(a.after.form);
    }
  }

  lemma ActKeepsInv(users: Users, s: State, s': State, thread: nat, now: nat, reply: Reply)
    requires Inv(users, s) && Act(users, s, s', thread, now, reply)
    ensures Inv(users, s')
  {
    ActTable(users, s, s', thread, now, reply);
    ActLog(users, s, s', thread, now, reply);
    AdvanceEffect(users, s.threads[thread], s.table, now, reply);
    forall t | t in s'.threads && s'.threads[t].Holding?
      ensures WasTaken(s'.log, t, s'.threads[t].form, s'.threads[t].pending)
    {
      ActHolders(users, s, s', thread, now, reply, t);
    }
    forall id
      ensures CountTakes(s'.log, id) + (if id in s'.table then 1 else 0) <= CountStores(s'.log, id)
      ensures CountReplies(s'.log, id) + |Holders(s'.threads, id)| == CountTakes(s'.log, id)
    {
      ActCounts(users, s, s', thread, now, reply, id);
    }
  }

  lemma StartInv(users: Users, s: State)
    requires s == START
    ensures Inv(users, s)
  {
    forall id
      ensures Holders(s.threads, id) == {}
    {
    }
  }

  lemma {:induction false} EveryStateKeepsInv(users: Users, run: seq<State>, n: nat)
    requires Interleaving(users, run) && n < |run|
    ensures Inv(users, run[n])
  {
    if n == 0 {
      StartInv(users, run[0]);
    } else {
      EveryStateKeepsInv(users, run, n - 1);
      assert Next(users, run[n - 1], run[n - 1 + 1]);
      NextKeepsInv(users, run[n - 1], run[n]);
    }
  }

  lemma NextKeepsInv(users: Users, s: State, s': State)
    requires Inv(users, s) && Next(users, s, s')
    ensures Inv(users, s')
  {
    if exists thread, at :: Arrive(s, s', thread, at) {
      var thread, at :| Arrive(s, s', thread, at);
      ArriveKeepsInv(users, s, s', thread, at);
    } else {
      var thread, now, reply :| Act(users, s, s', thread, now, reply);
      ActKeepsInv(users, s, s', thread, now, reply);
    }
  }

  // ---- What every interleaving keeps ---------------------------------------------

  /** Each stored request yields at most one reply and the table stays within
      its bound. */
  lemma AtMostOneReply(users: Users, run: seq<State>, n: nat, id: string)
    requires Interleaving(users, run) && n < |run|
    ensures |run[n].table| <= MAX_PENDING
    ensures CountReplies(run[n].log, id) <= CountTakes(run[n].log, id) <= CountStores(run[n].log, id)
  {
    EveryStateKeepsInv(users, run, n);
  }

  /** A reply is sent only for a request that the same handler took before, at
      an age of at most the TTL, with the right password, and that some handler
      had stored under that ID. */
  lemma ReplyIsEarned(users: Users, run: seq<State>, n: nat, j: nat, id: string)
    requires Interleaving(users, run) && n < |run| && j < |run[n].log| && Replies(run[n].log[j], id)
    ensures var log, a := run[n].log, run[n].log[j];
            && PasswordOk(users, a.after.form)
            && exists i, k :: 0 <= k < i < j
                 && log[i].thread == a.thread && Takes(log[i], id) && log[i].after.form == a.after.form
                 && log[i].after.pending == a.after.pending && Age(a.after.pending, log[i].at) <= TTL
                 && Stores(log[k], id) && log[k].before.pending == a.after.pending
  {
    EveryStateKeepsInv(users, run, n);
    var log, a := run[n].log, run[n].log[j];
    assert ActionOk(users, log, j);
    assert WasTaken(log[..j], a.thread, a.before.form, a.before.pending);
    var i :| 0 <= i < |log[..j]| && log[..j][i].thread == a.thread && log[..j][i].before == Authenticated(a.before.form)
             && log[..j][i].after == Holding(a.before.form, a.before.pending) && Age(a.before.pending, log[..j][i].at) <= TTL;
    assert log[..j][i] == log[i] && Takes(log[i], id);
    assert ActionOk(users, log, i);
    assert WasStored(log[..i], id, log[i].after.pending);
    var k :| 0 <= k < |log[..i]| && Stores(log[..i][k], id) && log[..i][k].before.pending == log[i].after.pending;
    assert log[..i][k] == log[k];
  }

  /** A handler with a wrong password never takes anything, in any run. */
  lemma WrongPasswordNeverTakes(users: Users, run: seq<State>, n: nat, j: nat, id: string)
    requires Interleaving(users, run) && n < |run| && j < |run[n].log| && Takes(run[n].log[j], id)
    ensures PasswordOk(users, run[n].log[j].after.form)
  {
    EveryStateKeepsInv(users, run, n);
    assert ActionOk(users, run[n].log, j);
  }

  /** No step other than the taking of `id` or a new store under `id` removes or
      changes an entry that has not outlived the TTL. */
  lemma LiveEntrySurvives(users: Users, s: State, s': State, thread: nat, now: nat, reply: Reply, id: string)
    requires Act(users, s, s', thread, now, reply)
    requires id in s.table && Age(s.table[id], now) <= TTL
    requires !Takes(s'.log[|s.log|], id) && !Stores(s'.log[|s.log|], id)
    ensures id in s'.table && s'.table[id] == s.table[id]
  {
    var live := Purged(s.table, now);
    assert id in live;
  }

  // ---- What decides each step ------------------------------------------------------

  /** The table has an entry of that ID that is at most five minutes old. */
  predicate Live(table: Table, id: string, now: nat) {
    id in table && now - table[id].created <= 300_000_000_000
  }

  predicate RightPassword(users: Users, form: Form) {
    form.username in users.Keys && users[form.username] == form.password
  }

  /** The `n`-th step of the run is the logged action `a`. */
  predicate StepIs(run: seq<State>, n: nat, a: Action) {
    n + 1 < |run| && run[n + 1].log == run[n].log + [a]
  }

  lemma PurgedExactly(table: Table, id: string, now: nat)
    ensures id in Purged(table, now) <==> Live(table, id, now)
    ensures Live(table, id, now) ==> Purged(table, now)[id] == table[id]
  {
  }

  lemma StepActs(users: Users, run: seq<State>, n: nat, a: Action) returns (reply: Reply)
    requires Interleaving(users, run) && StepIs(run, n, a)
    ensures Act(users, run[n], run[n + 1], a.thread, a.at, reply)
    ensures a.before == run[n].threads[a.thread] && run[n + 1].threads == run[n].threads[a.thread := a.after]
    ensures (a.after, run[n + 1].table) == Advance(users, a.before, run[n].table, a.at, reply)
  {
    var s, s' := run[n], run[n + 1];
    assert Next(users, s, s');
    assert |s'.log| > |s.log|;
    assert !exists thread, at :: Arrive(s, s', thread, at);
    var thread, now, r :| Act(users, s, s', thread, now, r);
    assert s'.log[|s.log|] == a;
    reply := r;
  }

  /** In every interleaving: a request is stored exactly while fewer than 1024
      live ones are there; a submission gets past the first access exactly when
      its request is pending, past the password check exactly when the password
      is the one on record, and past the second access exactly when the request
      is still pending, which it then holds; after that it replies. */
  lemma StepsExactly(users: Users, run: seq<State>, n: nat, a: Action)
    requires Interleaving(users, run) && StepIs(run, n, a)
    ensures var table := run[n].table;
            && (a.before.Opening? ==>
                  a.after == Opened(|set id | id in table && Live(table, id, a.at)| < 1024))
            && (a.before.Submitted? ==>
                  var form := a.before.form;
                  a.after == if Live(table, form.id, a.at) then Peeked(form) else Refused(form))
            && (a.before.Peeked? ==>
                  var form := a.before.form;
                  a.after == if RightPassword(users, form) then Authenticated(form) else Refused(form))
            && (a.before.Authenticated? ==>
                  var form := a.before.form;
                  a.after == if Live(table, form.id, a.at) then Holding(form, table[form.id]) else Refused(form))
            && (a.before.Holding? ==>
                  a.after.Replied? && a.after.form == a.before.form && a.after.pending == a.before.pending)
  {
    var reply := StepActs(users, run, n, a);
    var table := run[n].table;
    if a.before.Opening? {
      assert Purged(table, a.at).Keys == set id | id in table && Live(table, id, a.at);
    } else if a.before.Submitted? || a.before.Authenticated? {
      PurgedExactly(table, a.before.form.id, a.at);
    }
  }

  /** What a step does to the table: of the entries there, the live ones stay,
      and an access removes the others; only a successful store adds one and
      only the second access of a login takes one. */
  lemma TableAfterStep(users: Users, run: seq<State>, n: nat, a: Action, id: string)
    requires Interleaving(users, run) && StepIs(run, n, a)
    ensures var table, table' := run[n].table, run[n + 1].table;
            && (Stores(a, id) ==> id in table' && table'[id] == a.before.pending)
            && (!Stores(a, id) && (a.before.Opening? || a.before.Submitted?) ==>
                  (id in table' <==> Live(table, id, a.at)) && (id in table' ==> table'[id] == table[id]))
            && (a.before.Authenticated? ==>
                  (id in table' <==> Live(table, id, a.at) && id != a.before.form.id) && (id in table' ==> table'[id] == table[id]))
            && (a.before.Peeked? || a.before.Holding? ==> table' == table)
  {
    var reply := StepActs(users, run, n, a);
    PurgedExactly(run[n].table, id, a.at);
  }

  /** Every action in the log was a step of the run. */
  lemma {:induction false} LoggedStep(users: Users, run: seq<State>, n: nat, j: nat) returns (m: nat)
    requires Interleaving(users, run) && n < |run| && j < |run[n].log|
    ensures m < n && StepIs(run, m, run[n].log[j]) && run[m].log == run[n].log[..j]
  {
    assert n > 0;
    assert Next(users, run[n - 1], run[n - 1 + 1]);
    NextLogs(users, run[n - 1], run[n]);
    var before := run[n - 1].log;
    if j == |before| {
      m := n - 1;
      assert run[n].log[..j] == before;
    } else {
      m := LoggedStep(users, run, n - 1, j);
      assert run[n].log[..j] == before[..j];
    }
  }

  lemma NextLogs(users: Users, s: State, s': State)
    requires Next(users, s, s')
    ensures s'.log == s.log || (|s'.log| == |s.log| + 1 && s'.log == s.log + [s'.log[|s.log|]])
  {
  }

  /** A step ends refused before the password check exactly when its request
      was not pending, at the check exactly when the username is unknown or the
      password on record differs, after it exactly when the request was no
      longer pending, and nowhere else. */
  predicate RefusedForCause(users: Users, table: Table, a: Action) {
    && (a.before.Submitted? || a.before.Authenticated? ==>
          (a.after == Refused(a.before.form) <==>
           a.before.form.id !in table || a.at - table[a.before.form.id].created > 300_000_000_000))
    && (a.before.Peeked? ==>
          (a.after == Refused(a.before.form) <==>
           a.before.form.username !in users || users[a.before.form.username] != a.before.form.password))
    && (a.after.Refused? ==> a.before.Submitted? || a.before.Peeked? || a.before.Authenticated?)
  }

  /** Over every interleaving and its log: whatever was logged was refused for
      cause, judged by the table its step met. */
  lemma RefusedExactly(users: Users, run: seq<State>, n: nat, j: nat)
    requires Interleaving(users, run) && n < |run| && j < |run[n].log|
    ensures exists m :: 0 <= m < n && StepIs(run, m, run[n].log[j]) && RefusedForCause(users, run[m].table, run[n].log[j])
  {
    var m := LoggedStep(users, run, n, j);
    var reply := StepActs(users, run, m, run[n].log[j]);
    StepsExactly(users, run, m, run[n].log[j]);
  }

  // ---- A login with the right password ---------------------------------------------

  predicate StepOf(run: seq<State>, n: nat, thread: nat) {
    n + 1 < |run| && |run[n + 1].log| > |run[n].log| && run[n + 1].log[|run[n].log|].thread == thread
  }

  lemma StepHasAction(users: Users, run: seq<State>, n: nat, thread: nat) returns (a: Action)
    requires Interleaving(users, run) && StepOf(run, n, thread)
    ensures StepIs(run, n, a) && a.thread == thread
  {
    a := run[n + 1].log[|run[n].log|];
    assert Next(users, run[n], run[n + 1]);
  }

  /** A handler stays where it is while it makes no step. */
  lemma {:induction false} Waits(users: Users, run: seq<State>, n: nat, m: nat, thread: nat)
    requires Interleaving(users, run) && n <= m < |run| && thread in run[n].threads
    requires forall k :: n <= k < m ==> !StepOf(run, k, thread)
    ensures thread in run[m].threads && run[m].threads[thread] == run[n].threads[thread]
  {
    if n < m {
      Waits(users, run, n, m - 1, thread);
      assert Next(users, run[m - 1], run[m - 1 + 1]);
      assert !StepOf(run, m - 1, thread);
    }
  }

  /** The next step of a handler after step `n` is step `m`. */
  predicate NextStepOf(run: seq<State>, n: nat, m: nat, thread: nat) {
    n < m && StepOf(run, n, thread) && StepOf(run, m, thread) && forall k :: n < k < m ==> !StepOf(run, k, thread)
  }

  lemma StepFollows(users: Users, run: seq<State>, n: nat, m: nat, thread: nat)
    requires Interleaving(users, run) && NextStepOf(run, n, m, thread)
    ensures thread in run[n].threads && thread in run[n + 1].threads && thread in run[m].threads
    ensures run[m].threads[thread] == run[n + 1].threads[thread]
  {
    var a := StepHasAction(users, run, n, thread);
    var reply := StepActs(users, run, n, a);
    Waits(users, run, n + 1, m, thread);
  }

  /** Whatever the other handlers do in between: a handler whose request is
      pending at its first access, whose password is right and whose request is
      still pending at its second access holds that request, and its next step
      is the reply to it. */
  lemma RightPasswordReplies(users: Users, run: seq<State>, thread: nat, n1: nat, n2: nat, n3: nat, n4: nat)
    requires Interleaving(users, run)
    requires NextStepOf(run, n1, n2, thread) && NextStepOf(run, n2, n3, thread) && NextStepOf(run, n3, n4, thread)
    requires thread in run[n1].threads && run[n1].threads[thread].Submitted?
    requires RightPassword(users, run[n1].threads[thread].form)
    requires Live(run[n1].table, run[n1].threads[thread].form.id, run[n1 + 1].clock)
    requires Live(run[n3].table, run[n1].threads[thread].form.id, run[n3 + 1].clock)
    ensures var form := run[n1].threads[thread].form;
            && thread in run[n3 + 1].threads && run[n3 + 1].threads[thread] == Holding(form, run[n3].table[form.id])
            && thread in run[n4 + 1].threads
            && exists reply :: run[n4 + 1].threads[thread] == Replied(form, run[n3].table[form.id], reply)
  {
    StepGives(users, run, n1, thread);
    StepFollows(users, run, n1, n2, thread);
    StepGives(users, run, n2, thread);
    StepFollows(users, run, n2, n3, thread);
    StepGives(users, run, n3, thread);
    StepFollows(users, run, n3, n4, thread);
    StepGives(users, run, n4, thread);
    var last := run[n4 + 1].threads[thread];
    assert last == Replied(last.form, last.pending, last.reply);
  }

  lemma StepGives(users: Users, run: seq<State>, n: nat, thread: nat)
    requires Interleaving(users, run) && StepOf(run, n, thread)
    ensures thread in run[n].threads && thread in run[n + 1].threads
    ensures var at, after := run[n].threads[thread], run[n + 1].threads[thread];
            && (at.Submitted? && Live(run[n].table, at.form.id, run[n + 1].clock) ==> after == Peeked(at.form))
            && (at.Peeked? && RightPassword(users, at.form) ==> after == Authenticated(at.form))
            && (at.Authenticated? && Live(run[n].table, at.form.id, run[n + 1].clock)
                ==> after == Holding(at.form, run[n].table[at.form.id]))
            && (at.Holding? ==> after.Replied? && after.form == at.form && after.pending == at.pending)
  {
    var a := StepHasAction(users, run, n, thread);
    var reply := StepActs(users, run, n, a);
    StepsExactly(users, run, n, a);
  }
}
