/** The in-memory replay cache (crates/gamlastan/src/security/replay.rs): an
    atomic insert-if-absent with expiry, which scans for expired entries only
    when the earliest known expiry is due. */
module ReplayCache {
  import opened Wrappers

  type Entries = map<string, int>

  datatype Cache = Cache(entries: Entries, nextExpiry: Option<int>)

  ghost predicate Earliest(entries: Entries, e: int) {
    (exists id :: id in entries && entries[id] == e) && forall id :: id in entries ==> e <= entries[id]
  }

  lemma EarliestExists(entries: Entries)
    requires entries != map[]
    ensures exists e :: Earliest(entries, e)
    decreases |entries|
  {
    var id :| id in entries;
    var rest := entries - {id};
    if rest == map[] {
      assert forall other :: other in entries ==> other == id || other in rest;
      assert Earliest(entries, entries[id]);
    } else {
      assert rest.Keys == entries.Keys - {id};
      EarliestExists(rest);
      var e :| Earliest(rest, e);
      assert forall other :: other in entries ==> other == id || other in rest;
      assert Earliest(entries, if entries[id] <= e then entries[id] else e);
    }
  }

  /** `entries.values().min()`. */
  ghost function MinExpiry(entries: Entries): Option<int> {
    if entries == map[] then None
    else
      EarliestExists(entries);
      var e :| Earliest(entries, e);
      Some(e)
  }

  function Unexpired(entries: Entries, now: int): Entries {
    map id | id in entries && entries[id] > now :: entries[id]
  }

  ghost function Pruned(c: Cache, now: int): Cache {
    if c.nextExpiry.Some? && c.nextExpiry.value <= now
    then Cache(Unexpired(c.entries, now), MinExpiry(Unexpired(c.entries, now)))
    else c
  }

  ghost function CheckAndInsert(c: Cache, id: string, expiry: int, now: int): (bool, Cache) {
    var p := Pruned(c, now);
    if id in p.entries && now < p.entries[id] then (false, p)
    else if expiry <= now then (true, p)
    else (true, Cache(p.entries[id := expiry],
                      Some(if p.nextExpiry.Some? && p.nextExpiry.value <= expiry then p.nextExpiry.value else expiry)))
  }

  ghost function Cleanup(c: Cache, now: int): Cache {
    Cache(Unexpired(c.entries, now), MinExpiry(Unexpired(c.entries, now)))
  }

  // ---- What the cache remembers ------------------------------------------------

  datatype Check = Check(id: string, expiry: int, at: int, admitted: bool)

  type History = seq<Check>

  ghost predicate Ordered(h: History, clock: int) {
    && (forall i, j :: 0 <= i < j < |h| ==> h[i].at <= h[j].at)
    && (forall i :: 0 <= i < |h| ==> h[i].at <= clock)
  }

  /** Some earlier check admitted `id` until after `now`. */
  ghost predicate Known(h: History, id: string, now: int) {
    exists i :: 0 <= i < |h| && h[i].admitted && h[i].id == id && h[i].expiry > now
  }

  /** Every answer so far was the right one. */
  ghost predicate Truthful(h: History) {
    forall k :: 0 <= k < |h| ==> h[k].admitted == !Known(h[..k], h[k].id, h[k].at)
  }

  /** An ID admitted twice had expired in between. */
  lemma AdmittedTwice(h: History, i: nat, k: nat)
    requires Truthful(h) && i < k < |h| && h[i].admitted && h[k].admitted && h[i].id == h[k].id
    ensures h[k].at >= h[i].expiry
  {
    assert h[..k][i] == h[i];
  }

  /** At any time from `clock` on, the live entries are exactly the IDs admitted
      by some check until then, and the scan mark is not late. */
  ghost predicate Remembers(c: Cache, h: History, clock: int) {
    && Ordered(h, clock) && Truthful(h)
    && (forall id, now :: now >= clock ==> (Known(h, id, now) <==> (id in c.entries && c.entries[id] > now)))
    && (forall id :: id in c.entries ==> c.nextExpiry.Some? && c.nextExpiry.value <= c.entries[id])
  }

  lemma EmptyRemembers(clock: int)
    ensures Remembers(Cache(map[], None), [], clock)
  {
  }

  lemma PruningRemembers(c: Cache, h: History, clock: int, now: int)
    requires Remembers(c, h, clock) && clock <= now
    ensures Remembers(Pruned(c, now), h, now) && Remembers(Cleanup(c, now), h, now)
    ensures forall id :: id in Pruned(c, now).entries ==> Pruned(c, now).entries[id] > now
  {
    if Unexpired(c.entries, now) != map[] {
      EarliestExists(Unexpired(c.entries, now));
    }
  }

  lemma KnownSnoc(h: History, e: Check, id: string, now: int)
    ensures Known(h + [e], id, now) <==> Known(h, id, now) || (e.admitted && e.id == id && e.expiry > now)
  {
    var g := h + [e];
    assert g[|h|] == e;
    if Known(h, id, now) {
      var i :| 0 <= i < |h| && h[i].admitted && h[i].id == id && h[i].expiry > now;
      assert g[i] == h[i];
    }
    if Known(g, id, now) {
      var i :| 0 <= i < |g| && g[i].admitted && g[i].id == id && g[i].expiry > now;
      assert i < |h| ==> g[i] == h[i];
    }
  }

  /** The lazy scan changes no answer: an ID is refused exactly when an earlier
      check admitted it and that admission has not expired. */
  lemma CheckRemembers(c: Cache, h: History, clock: int, id: string, expiry: int, now: int)
    requires Remembers(c, h, clock) && clock <= now
    ensures var (admitted, c') := CheckAndInsert(c, id, expiry, now);
            && (admitted == !Known(h, id, now))
            && Remembers(c', h + [Check(id, expiry, now, admitted)], now)
            && (forall other :: other in c'.entries ==> c'.entries[other] > now)
  {
    PruningRemembers(c, h, clock, now);
    var (admitted, c') := CheckAndInsert(c, id, expiry, now);
    var e := Check(id, expiry, now, admitted);
    var g := h + [e];
    forall k | 0 <= k < |g|
      ensures g[k].admitted == !Known(g[..k], g[k].id, g[k].at)
    {
      assert g[..k] == h[..k];
      assert k < |h| ==> g[k] == h[k];
      assert h[..|h|] == h;
    }
    forall other, t | t >= now
      ensures Known(h + [e], other, t) <==> other in c'.entries && c'.entries[other] > t
    {
      KnownSnoc(h, e, other, t);
    }
  }

  class InMemoryReplayCache {
    var entries: Entries
    var nextExpiry: Option<int>
    ghost var history: History
    ghost var clock: int

    ghost function State(): Cache
      reads this
    {
      Cache(entries, nextExpiry)
    }

    ghost predicate Valid()
      reads this
    {
      Remembers(State(), history, clock)
    }

    constructor (start: int)
      ensures Valid() && history == [] && clock == start
    {
      entries := map[];
      nextExpiry := None;
      history := [];
      clock := start;
      new;
      EmptyRemembers(start);
    }

    method Prune(now: int)
      modifies this
      ensures State() == Cleanup(old(State()), now)
      ensures history == old(history) && clock == old(clock)
    {
      entries := map id | id in entries && entries[id] > now :: entries[id];
      nextExpiry := None;
      if entries != map[] {
        EarliestExists(entries);
        var first :| first in entries && forall id :: id in entries ==> entries[first] <= entries[id];
        assert Earliest(entries, entries[first]);
        nextExpiry := Some(entries[first]);
      }
    }

    method CheckInsert(id: string, expiry: int, now: int) returns (admitted: bool)
      requires Valid() && clock <= now
      modifies this
      ensures Valid() && clock == now && history == old(history) + [Check(id, expiry, now, admitted)]
      ensures (admitted, State()) == CheckAndInsert(old(State()), id, expiry, now)
      ensures admitted == !Known(old(history), id, now)
    {
      CheckRemembers(State(), history, clock, id, expiry, now);
      ghost var before := State();
      if nextExpiry.Some? && nextExpiry.value <= now {
        Prune(now);
      }
      assert State() == Pruned(before, now);
      clock := now;
      if id in entries && entries[id] > now {
        history := history + [Check(id, expiry, now, false)];
        return false;
      }
      if expiry > now {
        entries := entries[id := expiry];
        nextExpiry := Some(if nextExpiry.Some? && nextExpiry.value <= expiry then nextExpiry.value else expiry);
      }
      history := history + [Check(id, expiry, now, true)];
      admitted := true;
    }
  }
}
