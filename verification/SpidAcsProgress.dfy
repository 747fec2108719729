/** What decides each step of the assertion consumer, and that a response with
    no cause for refusal is accepted, whatever the other handlers do. */
module SpidAcsProgress {
  import opened Wrappers
  import opened ReplayCache
  import opened SpidAcs

  /** An entry of that ID less than five minutes old. */
  predicate Live(table: Table, id: string, now: nat) {
    id in table && now - table[id].created < 300_000_000_000
  }

  predicate AnswersLive(table: Table, r: Response, reading: nat) {
    r.inResponseTo.Some? && Live(table, r.inResponseTo.value, reading)
  }

  /** What refuses a response, at each point: a check that fails at the reading
      made for it, no ID answered, no live request under that ID at the reading
      of either access, or an ID that an earlier replay check admitted and that
      has not expired. */
  ghost predicate Cause(policy: Policy, s: State, at: Point, wall: int) {
    match at
    case Received(r, k) =>
      if k < |policy.early(r)| then !policy.early(r)[k](wall) else r.inResponseTo.None? || r.inResponseTo.value == ""
    case AtPeek(r, reading) => !AnswersLive(s.table, r, reading)
    case Peeked(r, found, k) => k < |policy.full(r, found)| && !policy.full(r, found)[k](wall)
    case Registering(r, _, _, done) => done < |IdsOf(r)| && Known(s.checks, IdsOf(r)[done], wall)
    case AtTake(r, _, _, reading) => !AnswersLive(s.table, r, reading)
    case _ => false
  }

  /** The `n`-th step of the run is the logged action `a`. */
  predicate StepIs(run: seq<State>, n: nat, a: Action) {
    n + 1 < |run| && run[n + 1].log == run[n].log + [a]
  }

  ghost function After(policy: Policy, s: State, thread: nat, clock: nat, wall: int): Point
    requires thread in s.threads
  {
    var at := s.threads[thread];
    if Checking(at) then AfterCheck(at, CheckMade(s, thread, wall).admitted) else Moved(policy, at, s.table, clock, wall).0
  }

  lemma StepActs(policy: Policy, run: seq<State>, n: nat, a: Action) returns (clock: nat)
    requires Interleaving(policy, run) && StepIs(run, n, a)
    ensures Act(policy, run[n], run[n + 1], a.thread, clock, a.wall) && run[n + 1].clock == clock
    ensures a.before == run[n].threads[a.thread] && run[n + 1].threads == run[n].threads[a.thread := a.after]
    ensures a.after == After(policy, run[n], a.thread, clock, a.wall)
  {
    var s, s' := run[n], run[n + 1];
    assert Next(policy, s, s');
    assert |s'.log| > |s.log|;
    assert !exists thread, at, c, w :: Arrive(s, s', thread, at, c, w);
    var thread, c, w :| Act(policy, s, s', thread, c, w);
    assert s'.log[|s.log|] == a;
    clock := c;
  }

  /** Where a step without cause leads: each one goes on to the next check, ID
      or access, and the last one takes the entry. */
  function Onward(policy: Policy, s: State, at: Point, clock: nat, wall: int): Point {
    match at
    case Received(r, k) => if k < |policy.early(r)| then Received(r, k + 1) else AtPeek(r, clock)
    case AtPeek(r, _) =>
      if r.inResponseTo.Some? && r.inResponseTo.value in s.table then Peeked(r, s.table[r.inResponseTo.value], 0) else at
    case Peeked(r, found, k) =>
      if k < |policy.full(r, found)| then Peeked(r, found, k + 1) else Registering(r, found, wall + policy.window, 0)
    case Registering(r, found, fallback, done) =>
      if done < |IdsOf(r)| then Registering(r, found, fallback, done + 1) else Cleaning(r, found, fallback)
    case Cleaning(r, found, fallback) => Registered(r, found, fallback)
    case Registered(r, found, fallback) => AtTake(r, found, fallback, clock)
    case AtTake(r, found, fallback, _) =>
      if r.inResponseTo.Some? && r.inResponseTo.value in s.table
      then Accepted(r, found, fallback, s.table[r.inResponseTo.value]) else at
    case _ => at
  }

  lemma PurgedExactly(table: Table, id: string, now: nat)
    ensures id in Purged(table, now) <==> Live(table, id, now)
    ensures Live(table, id, now) ==> Purged(table, now)[id] == table[id]
  {
  }

  lemma MoveExactly(policy: Policy, s: State, thread: nat, clock: nat, wall: int)
    requires thread in s.threads && !Final(s.threads[thread]) && !Checking(s.threads[thread])
    requires !s.threads[thread].AtStore?
    ensures var at := s.threads[thread];
            Moved(policy, at, s.table, clock, wall).0
            == if Cause(policy, s, at, wall) then Refused(at.response) else Onward(policy, s, at, clock, wall)
  {
    var at := s.threads[thread];
    if (at.AtPeek? || at.AtTake?) && at.response.inResponseTo.Some? {
      PurgedExactly(s.table, at.response.inResponseTo.value, at.reading);
    } else if at.Registering? {
      TokensNameIds(at.response, at.fallback);
    }
  }

  lemma CheckExactly(policy: Policy, s: State, thread: nat, clock: nat, wall: int)
    requires Inv(policy, s) && s.wall <= wall && thread in s.threads && Checking(s.threads[thread])
    ensures var at := s.threads[thread];
            && AfterCheck(at, CheckMade(s, thread, wall).admitted)
               == (if Cause(policy, s, at, wall) then Refused(at.response) else Onward(policy, s, at, clock, wall))
            && CheckMade(s, thread, wall).id == IdsOf(at.response)[at.done]
            && CheckMade(s, thread, wall).expiry == ExpiryOf(at.response, at.fallback, at.done)
  {
    var at := s.threads[thread];
    TokensNameIds(at.response, at.fallback);
    var (id, expiry) := Tokens(at.response, at.fallback)[at.done];
    CheckRemembers(s.replay, s.checks, s.wall, id, expiry, wall);
  }

  /** In every interleaving, a step of a handler that received a response ends
      refused exactly when there is a cause, and otherwise goes on.  A login is
      stored exactly when its ID is there already or fewer than 1024 live ones
      are. */
  lemma StepsExactly(policy: Policy, run: seq<State>, n: nat, a: Action)
    requires Interleaving(policy, run) && StepIs(run, n, a)
    ensures !a.before.AtStore? ==>
              a.after == if Cause(policy, run[n], a.before, a.wall) then Refused(a.before.response)
                         else Onward(policy, run[n], a.before, run[n + 1].clock, a.wall)
    ensures a.before.AtStore? ==>
              var table, reading := run[n].table, a.before.reading;
              a.after == StoreDone(Live(table, a.before.id, reading)
                                   || |set id | id in table && Live(table, id, reading)| < 1024)
  {
    var clock := StepActs(policy, run, n, a);
    EveryStateKeepsInv(policy, run, n);
    if a.before.AtStore? {
      StoreExactly(policy, run[n], a.thread, clock, a.wall);
    } else {
      AfterExactly(policy, run[n], a.thread, clock, a.wall);
    }
  }

  lemma AfterExactly(policy: Policy, s: State, thread: nat, clock: nat, wall: int)
    requires Inv(policy, s) && s.wall <= wall && thread in s.threads && !Final(s.threads[thread]) && !s.threads[thread].AtStore?
    ensures var at := s.threads[thread];
            After(policy, s, thread, clock, wall)
            == if Cause(policy, s, at, wall) then Refused(at.response) else Onward(policy, s, at, clock, wall)
  {
    if Checking(s.threads[thread]) {
      CheckExactly(policy, s, thread, clock, wall);
    } else {
      MoveExactly(policy, s, thread, clock, wall);
    }
  }

  lemma StoreExactly(policy: Policy, s: State, thread: nat, clock: nat, wall: int)
    requires thread in s.threads && s.threads[thread].AtStore?
    ensures var at, table := s.threads[thread], s.table;
            After(policy, s, thread, clock, wall)
            == StoreDone(Live(table, at.id, at.reading) || |set id | id in table && Live(table, id, at.reading)| < 1024)
  {
    var at := s.threads[thread];
    PurgedExactly(s.table, at.id, at.reading);
    assert Purged(s.table, at.reading).Keys == set id | id in s.table && Live(s.table, id, at.reading);
  }

  /** What a step does to the table: a successful store adds its entry; every
      other access leaves exactly the live entries, an acceptance taking the one
      it answers; the steps in between leave the table alone. */
  lemma TableAfterStep(policy: Policy, run: seq<State>, n: nat, a: Action, id: string)
    requires Interleaving(policy, run) && StepIs(run, n, a)
    ensures var table, table', at := run[n].table, run[n + 1].table, a.before;
            && (Stores(a, id) ==> id in table' && table'[id] == Pending(at.authnContext, at.reading))
            && (!Stores(a, id) && (at.AtStore? || at.AtPeek? || at.AtTake?) ==>
                  (id in table' <==> Live(table, id, at.reading) && !Accepts(a, id)) && (id in table' ==> table'[id] == table[id]))
            && (!(at.AtStore? || at.AtPeek? || at.AtTake?) ==> table' == table)
  {
    var clock := StepActs(policy, run, n, a);
    if a.before.AtStore? || a.before.AtPeek? || a.before.AtTake? {
      PurgedExactly(run[n].table, id, a.before.reading);
    }
  }

  /** The replay cache changes in two kinds of step: a check, as its answer says,
      and the clean-up after the last check, which leaves only what has not
      expired. */
  lemma ReplayAfterStep(policy: Policy, run: seq<State>, n: nat, a: Action, id: string)
    requires Interleaving(policy, run) && StepIs(run, n, a)
    ensures a.before.Cleaning? ==>
              && (id in run[n + 1].replay.entries <==> id in run[n].replay.entries && run[n].replay.entries[id] > a.wall)
              && (id in run[n + 1].replay.entries ==> run[n + 1].replay.entries[id] == run[n].replay.entries[id])
    ensures !a.before.Cleaning? && !Checking(a.before) ==> run[n + 1].replay == run[n].replay
    ensures Checking(a.before) ==>
              |run[n + 1].checks| == |run[n].checks| + 1
              && var c := run[n + 1].checks[|run[n].checks|];
                 c.id == IdsOf(a.before.response)[a.before.done] && c.at == a.wall
                 && c.expiry == ExpiryOf(a.before.response, a.before.fallback, a.before.done)
                 && (c.admitted <==> a.after.Registering?)
  {
    var clock := StepActs(policy, run, n, a);
    if Checking(a.before) {
      TokensNameIds(a.before.response, a.before.fallback);
    }
  }

  // ---- A response without cause for refusal -----------------------------------------

  predicate StepOf(run: seq<State>, n: nat, thread: nat) {
    n + 1 < |run| && |run[n + 1].log| > |run[n].log| && run[n + 1].log[|run[n].log|].thread == thread
  }

  lemma StepHasAction(policy: Policy, run: seq<State>, n: nat, thread: nat) returns (a: Action)
    requires Interleaving(policy, run) && StepOf(run, n, thread)
    ensures StepIs(run, n, a) && a.thread == thread && a.wall == WallOf(run, n)
  {
    a := run[n + 1].log[|run[n].log|];
    assert Next(policy, run[n], run[n + 1]);
  }

  /** The reading of the wall clock made for step `n`. */
  function WallOf(run: seq<State>, n: nat): int {
    if n + 1 < |run| && |run[n + 1].log| > |run[n].log| then run[n + 1].log[|run[n].log|].wall else 0
  }

  /** A handler stays where it is while it makes no step. */
  lemma {:induction false} Waits(policy: Policy, run: seq<State>, n: nat, m: nat, thread: nat)
    requires Interleaving(policy, run) && n <= m < |run| && thread in run[n].threads
    requires forall k :: n <= k < m ==> !StepOf(run, k, thread)
    ensures thread in run[m].threads && run[m].threads[thread] == run[n].threads[thread]
  {
    if n < m {
      Waits(policy, run, n, m - 1, thread);
      assert !StepOf(run, m - 1, thread);
      assert Next(policy, run[m - 1], run[m - 1 + 1]);
      OthersStay(policy, run[m - 1], run[m], thread);
    }
  }

  lemma OthersStay(policy: Policy, s: State, s': State, thread: nat)
    requires Next(policy, s, s') && thread in s.threads
    requires |s'.log| > |s.log| ==> s'.log[|s.log|].thread != thread
    ensures thread in s'.threads && s'.threads[thread] == s.threads[thread]
  {
  }

  /** Steps `steps[0], steps[1], ...` of the run are consecutive steps of the
      handler. */
  predicate StepsInTurn(run: seq<State>, thread: nat, steps: seq<nat>) {
    && (forall i :: 0 <= i < |steps| ==> StepOf(run, steps[i], thread))
    && (forall i :: 0 <= i < |steps| - 1 ==> NoneBetween(run, thread, steps[i], steps[i + 1]))
  }

  predicate NoneBetween(run: seq<State>, thread: nat, n: nat, m: nat) {
    n < m && forall k :: n < k < m ==> !StepOf(run, k, thread)
  }

  /** No step of these met a cause for refusal. */
  ghost predicate NoCause(policy: Policy, run: seq<State>, thread: nat, steps: seq<nat>) {
    forall i :: 0 <= i < |steps| ==>
      steps[i] < |run| && thread in run[steps[i]].threads
      && !Cause(policy, run[steps[i]], run[steps[i]].threads[thread], WallOf(run, steps[i]))
  }

  /** How many steps a handler that has come this far has made. */
  function Stage(policy: Policy, at: Point): nat {
    match at
    case Received(r, k) => k
    case AtPeek(r, _) => |policy.early(r)| + 1
    case Peeked(r, _, k) => |policy.early(r)| + 2 + k
    case Registering(r, found, _, done) => |policy.early(r)| + |policy.full(r, found)| + 3 + done
    case Cleaning(r, found, _) => |policy.early(r)| + |policy.full(r, found)| + |IdsOf(r)| + 4
    case Registered(r, found, _) => |policy.early(r)| + |policy.full(r, found)| + |IdsOf(r)| + 5
    case AtTake(r, found, _, _) => |policy.early(r)| + |policy.full(r, found)| + |IdsOf(r)| + 6
    case Accepted(r, found, _, _) => |policy.early(r)| + |policy.full(r, found)| + |IdsOf(r)| + 7
    case _ => 0
  }

  /** The points a response comes through, within the bounds of its checks. */
  predicate OnTheWay(policy: Policy, at: Point, r: Response) {
    match at
    case Received(q, k) => q == r && k <= |policy.early(r)|
    case AtPeek(q, _) => q == r
    case Peeked(q, found, k) => q == r && k <= |policy.full(r, found)|
    case Registering(q, _, _, done) => q == r && done <= |IdsOf(r)|
    case Cleaning(q, _, _) => q == r
    case Registered(q, _, _) => q == r
    case AtTake(q, _, _, _) => q == r
    case Accepted(q, _, _, _) => q == r
    case _ => false
  }

  lemma OnwardAdvances(policy: Policy, s: State, at: Point, clock: nat, wall: int, r: Response)
    requires OnTheWay(policy, at, r) && !at.Accepted? && !Cause(policy, s, at, wall)
    ensures var after := Onward(policy, s, at, clock, wall);
            OnTheWay(policy, after, r) && Stage(policy, after) == Stage(policy, at) + 1
  {
  }

  lemma FrontSteps(policy: Policy, run: seq<State>, thread: nat, steps: seq<nat>)
    requires |steps| > 1 && StepsInTurn(run, thread, steps) && NoCause(policy, run, thread, steps)
    ensures StepsInTurn(run, thread, steps[..|steps| - 1]) && NoCause(policy, run, thread, steps[..|steps| - 1])
    ensures NoneBetween(run, thread, steps[|steps| - 2], steps[|steps| - 1])
  {
    var front := steps[..|steps| - 1];
    forall i | 0 <= i < |front|
      ensures front[i] == steps[i]
    {
    }
    forall i | 0 <= i < |front| - 1
      ensures NoneBetween(run, thread, front[i], front[i + 1])
    {
      assert NoneBetween(run, thread, steps[i], steps[i + 1]);
    }
    var k := |steps| - 2;
    assert NoneBetween(run, thread, steps[k], steps[k + 1]);
  }

  lemma {:induction false} GoesOn(policy: Policy, run: seq<State>, thread: nat, steps: seq<nat>, r: Response, last: nat)
    requires Interleaving(policy, run) && steps != [] && StepsInTurn(run, thread, steps) && NoCause(policy, run, thread, steps)
    requires thread in run[steps[0]].threads && run[steps[0]].threads[thread] == Received(r, 0)
    requires last == steps[|steps| - 1]
    ensures last + 1 < |run| && thread in run[last + 1].threads
    ensures OnTheWay(policy, run[last + 1].threads[thread], r) && Stage(policy, run[last + 1].threads[thread]) == |steps|
  {
    if |steps| > 1 {
      var before := steps[|steps| - 2];
      FrontSteps(policy, run, thread, steps);
      GoesOn(policy, run, thread, steps[..|steps| - 1], r, before);
      WaitsThenGoesOn(policy, run, before, last, thread, r);
    } else {
      StepGoesOn(policy, run, last, thread, r);
    }
  }

  lemma WaitsThenGoesOn(policy: Policy, run: seq<State>, before: nat, last: nat, thread: nat, r: Response)
    requires Interleaving(policy, run) && NoneBetween(run, thread, before, last) && StepOf(run, last, thread)
    requires before + 1 < |run| && thread in run[before + 1].threads && OnTheWay(policy, run[before + 1].threads[thread], r)
    requires thread in run[last].threads ==> !Cause(policy, run[last], run[last].threads[thread], WallOf(run, last))
    ensures thread in run[last + 1].threads && OnTheWay(policy, run[last + 1].threads[thread], r)
    ensures Stage(policy, run[last + 1].threads[thread]) == Stage(policy, run[before + 1].threads[thread]) + 1
  {
    Waits(policy, run, before + 1, last, thread);
    StepGoesOn(policy, run, last, thread, r);
  }

  lemma StageOfAcceptance(policy: Policy, at: Point, r: Response)
    requires OnTheWay(policy, at, r)
    ensures at.Accepted? <==> !(at.Received? || at.AtPeek?)
                              && Stage(policy, at) == |policy.early(r)| + |policy.full(r, at.found)| + |IdsOf(r)| + 7
  {
  }

  /** Whatever the other handlers do: a response whose handler meets no cause for
      refusal goes one stage on with each of its steps, and is accepted with the
      last one, having taken the request it answers. */
  lemma AcceptedWithoutCause(policy: Policy, run: seq<State>, thread: nat, steps: seq<nat>, r: Response, last: nat)
    requires Interleaving(policy, run) && steps != [] && StepsInTurn(run, thread, steps) && NoCause(policy, run, thread, steps)
    requires thread in run[steps[0]].threads && run[steps[0]].threads[thread] == Received(r, 0)
    requires last == steps[|steps| - 1]
    ensures last + 1 < |run| && thread in run[last + 1].threads
    ensures var at := run[last + 1].threads[thread];
            && OnTheWay(policy, at, r)
            && (at.Accepted? <==> !(at.Received? || at.AtPeek?)
                                  && |steps| == |policy.early(r)| + |policy.full(r, at.found)| + |IdsOf(r)| + 7)
  {
    GoesOn(policy, run, thread, steps, r, last);
    StageOfAcceptance(policy, run[last + 1].threads[thread], r);
  }

  lemma StepGoesOn(policy: Policy, run: seq<State>, n: nat, thread: nat, r: Response)
    requires Interleaving(policy, run) && StepOf(run, n, thread)
    requires thread in run[n].threads && OnTheWay(policy, run[n].threads[thread], r)
    requires !Cause(policy, run[n], run[n].threads[thread], WallOf(run, n))
    ensures thread in run[n + 1].threads && OnTheWay(policy, run[n + 1].threads[thread], r)
    ensures Stage(policy, run[n + 1].threads[thread]) == Stage(policy, run[n].threads[thread]) + 1
  {
    var a := StepHasAction(policy, run, n, thread);
    var clock := StepActs(policy, run, n, a);
    StepsExactly(policy, run, n, a);
    OnwardAdvances(policy, run[n], a.before, run[n + 1].clock, a.wall, r);
  }
}
