/** The in-memory tracker of outstanding request IDs
    (crates/gamlastan-actix/src/config.rs).  Instants are natural numbers. */
module RequestIdTracker {
  import opened Wrappers
  import opened SetSizes

  datatype Tracked = Tracked(inserted: nat, browser: Option<string>)

  type Table = map<string, Tracked>

  datatype Limits = Limits(ttl: nat, maxEntries: nat)

  /** `Instant::duration_since`, which saturates. */
  function Elapsed(now: nat, since: nat): nat {
    if since <= now then now - since else 0
  }

  function Live(limits: Limits, table: Table, now: nat): Table {
    map id | id in table && Elapsed(now, table[id].inserted) < limits.ttl :: table[id]
  }

  ghost predicate Oldest(table: Table, id: string) {
    id in table && forall other :: other in table ==> table[id].inserted <= table[other].inserted
  }

  /** One insertion.  Among equally old entries the victim is open. */
  ghost predicate Inserted(limits: Limits, before: Table, id: string, browser: Option<string>, now: nat, after: Table) {
    var live := Live(limits, before, now);
    if id in live || |live| < limits.maxEntries then after == live[id := Tracked(now, browser)]
    else exists victim :: Oldest(live, victim) && after == (live - {victim})[id := Tracked(now, browser)]
  }

  /** One consumption: the answer and the new table.  `browser` is `None` for
      the unbound call. */
  function Consumed(limits: Limits, table: Table, id: string, browser: Option<string>, now: nat): (bool, Table) {
    if id !in table then (false, table)
    else if Elapsed(now, table[id].inserted) >= limits.ttl then (false, table - {id})
    else if table[id].browser != browser then (false, table)
    else (true, table - {id})
  }

  // ---- Histories ----------------------------------------------------------

  datatype Event =
    | Stored(id: string, browser: Option<string>, at: nat)
    | Tried(id: string, browser: Option<string>, at: nat, ok: bool)

  type History = seq<Event>

  function Last(h: History): Event
    requires h != []
  {
    h[|h| - 1]
  }

  function Front(h: History): History
    requires h != []
  {
    h[..|h| - 1]
  }

  function Clock(h: History): nat {
    if h == [] then 0 else Last(h).at
  }

  predicate Ordered(h: History) {
    forall i, j :: 0 <= i < j < |h| ==> h[i].at <= h[j].at
  }

  predicate Ends(e: Event, id: string) {
    e.id == id && (e.Stored? || e.ok)
  }

  /** The latest store of `id`, unless it was consumed since. */
  function Outstanding(h: History, id: string): Option<Tracked> {
    if h == [] then None
    else if Last(h).Stored? && Last(h).id == id then Some(Tracked(Last(h).at, Last(h).browser))
    else if Ends(Last(h), id) then None
    else Outstanding(Front(h), id)
  }

  /** What a tracker with no capacity limit answers. */
  predicate Accepts(ttl: nat, h: History, id: string, browser: Option<string>, at: nat) {
    var o := Outstanding(h, id);
    o.Some? && Elapsed(at, o.value.inserted) < ttl && o.value.browser == browser
  }

  /** The IDs stored at `since` or later. */
  function StoredSince(h: History, since: nat): set<string> {
    set i | 0 <= i < |h| && h[i].Stored? && h[i].at >= since :: h[i].id
  }

  /** How many other IDs were stored no earlier than the outstanding `id`. */
  function Rivals(h: History, id: string): nat {
    match Outstanding(h, id)
    case None => 0
    case Some(o) => |StoredSince(h, o.inserted) - {id}|
  }

  /** The table holds nothing but outstanding entries, and an outstanding entry
      is missing only if it expired or was crowded out. */
  ghost predicate Tracks(limits: Limits, table: Table, h: History) {
    Ordered(h) && |table| <= limits.maxEntries && forall id :: TracksId(limits, table, h, id)
  }

  ghost predicate TracksId(limits: Limits, table: Table, h: History, id: string) {
    if id in table then Outstanding(h, id) == Some(table[id])
    else Outstanding(h, id).Some? ==>
           Elapsed(Clock(h), Outstanding(h, id).value.inserted) >= limits.ttl || Rivals(h, id) >= limits.maxEntries
  }

  lemma {:induction false} OutstandingIsStored(h: History, id: string)
    requires Outstanding(h, id).Some?
    ensures exists i :: 0 <= i < |h| && h[i] == Stored(id, Outstanding(h, id).value.browser, Outstanding(h, id).value.inserted)
                        && forall j :: i < j < |h| ==> !Ends(h[j], id)
  {
    if Last(h).Stored? && Last(h).id == id {
      assert h[|h| - 1] == Stored(id, Outstanding(h, id).value.browser, Outstanding(h, id).value.inserted);
    } else {
      OutstandingIsStored(Front(h), id);
      var i :| 0 <= i < |Front(h)| && Front(h)[i] == Stored(id, Outstanding(h, id).value.browser, Outstanding(h, id).value.inserted)
               && forall j :: i < j < |Front(h)| ==> !Ends(Front(h)[j], id);
      assert h[i] == Front(h)[i];
      forall j | i < j < |h|
        ensures !Ends(h[j], id)
      {
        assert j < |Front(h)| ==> h[j] == Front(h)[j];
      }
    }
  }

  lemma {:induction false} StoredIsOutstanding(h: History, i: nat)
    requires i < |h| && h[i].Stored? && forall j :: i < j < |h| ==> !Ends(h[j], h[i].id)
    ensures Outstanding(h, h[i].id) == Some(Tracked(h[i].at, h[i].browser))
    decreases |h|
  {
    if i < |h| - 1 {
      assert Front(h)[i] == h[i];
      forall j | i < j < |Front(h)|
        ensures !Ends(Front(h)[j], h[i].id)
      {
        assert Front(h)[j] == h[j];
      }
      StoredIsOutstanding(Front(h), i);
      assert !Ends(Last(h), h[i].id);
    }
  }

  /** An outstanding entry is exactly the latest store of its ID with no
      successful consumption after it. */
  lemma OutstandingMeaning(h: History, id: string, o: Tracked)
    ensures Outstanding(h, id) == Some(o) <==>
            exists i :: 0 <= i < |h| && h[i] == Stored(id, o.browser, o.inserted) && forall j :: i < j < |h| ==> !Ends(h[j], id)
  {
    if Outstanding(h, id) == Some(o) {
      OutstandingIsStored(h, id);
    }
    if i :| 0 <= i < |h| && h[i] == Stored(id, o.browser, o.inserted) && forall j :: i < j < |h| ==> !Ends(h[j], id) {
      StoredIsOutstanding(h, i);
    }
  }

  /** Less than the TTL lies between; a TTL of zero lets nothing live. */
  predicate Younger(since: nat, now: nat, ttl: nat) {
    ttl > 0 && now - since < ttl
  }

  /** The unlimited tracker accepts exactly while the latest store of the ID, with
      no success after it, is of that browser and less than the TTL ago. */
  lemma AcceptsExactly(ttl: nat, h: History, id: string, browser: Option<string>, at: nat)
    ensures Accepts(ttl, h, id, browser, at) <==>
            exists i :: 0 <= i < |h| && h[i].Stored? && h[i].id == id && h[i].browser == browser
                        && Younger(h[i].at, at, ttl) && forall j :: i < j < |h| ==> !Ends(h[j], id)
  {
    if Outstanding(h, id).Some? {
      OutstandingIsStored(h, id);
    }
    if i :| 0 <= i < |h| && h[i].Stored? && h[i].id == id && h[i].browser == browser
            && Younger(h[i].at, at, ttl) && forall j :: i < j < |h| ==> !Ends(h[j], id) {
      StoredIsOutstanding(h, i);
    }
  }

  /** What an insertion leaves: the new entry, and of the others only live ones,
      unchanged; all of those unless a new ID met a full table, and then all but
      one that is at least as old as any other. */
  lemma InsertExactly(limits: Limits, before: Table, id: string, browser: Option<string>, now: nat, after: Table)
    requires Inserted(limits, before, id, browser, now, after)
    ensures var live := set k | k in before && Younger(before[k].inserted, now, limits.ttl);
            && id in after && after[id] == Tracked(now, browser)
            && (forall k :: k in after && k != id ==> k in live && after[k] == before[k])
            && (id in live || |live| < limits.maxEntries ==> live <= after.Keys)
            && (forall k, o :: k in live - after.Keys && o in live ==> before[k].inserted <= before[o].inserted)
            && (forall k, o :: k in live - after.Keys && o in live - after.Keys ==> k == o)
  {
    assert Live(limits, before, now).Keys == set k | k in before && Younger(before[k].inserted, now, limits.ttl);
  }

  lemma OutstandingInStoredSince(h: History, id: string, since: nat)
    requires Outstanding(h, id).Some? && Outstanding(h, id).value.inserted >= since
    ensures id in StoredSince(h, since)
  {
    OutstandingIsStored(h, id);
  }

  lemma StoredSinceGrows(h: History, e: Event, since: nat)
    ensures StoredSince(h, since) <= StoredSince(h + [e], since)
    ensures e.Stored? && e.at >= since ==> e.id in StoredSince(h + [e], since)
  {
    forall id | id in StoredSince(h, since)
      ensures id in StoredSince(h + [e], since)
    {
      var i :| 0 <= i < |h| && h[i].Stored? && h[i].at >= since && h[i].id == id;
      assert (h + [e])[i] == h[i];
    }
    assert (h + [e])[|h|] == e;
  }

  /** Appending an event that does not end `id` keeps what is said of it. */
  lemma OutstandingCarries(h: History, e: Event, id: string)
    requires !Ends(e, id)
    ensures Outstanding(h + [e], id) == Outstanding(h, id)
    ensures Rivals(h, id) <= Rivals(h + [e], id)
  {
    assert Front(h + [e]) == h;
    if Outstanding(h, id).Some? {
      var since := Outstanding(h, id).value.inserted;
      StoredSinceGrows(h, e, since);
      SubsetSize(StoredSince(h, since) - {id}, StoredSince(h + [e], since) - {id});
    }
  }

  lemma OrderedSnoc(h: History, e: Event)
    requires Ordered(h) && Clock(h) <= e.at
    ensures Ordered(h + [e])
  {
    var g := h + [e];
    forall i, j | 0 <= i < j < |g|
      ensures g[i].at <= g[j].at
    {
      assert i < |h| - 1 ==> h[i].at <= h[|h| - 1].at;
    }
  }

  lemma OutstandingIsPast(h: History, id: string)
    requires Ordered(h) && Outstanding(h, id).Some?
    ensures Outstanding(h, id).value.inserted <= Clock(h)
  {
    OutstandingIsStored(h, id);
  }

  lemma ConsumeTracks(limits: Limits, table: Table, h: History, id: string, browser: Option<string>, now: nat)
    requires Tracks(limits, table, h) && Clock(h) <= now
    ensures var (ok, after) := Consumed(limits, table, id, browser, now);
            Tracks(limits, after, h + [Tried(id, browser, now, ok)])
  {
    var (ok, after) := Consumed(limits, table, id, browser, now);
    var e := Tried(id, browser, now, ok);
    OrderedSnoc(h, e);
    SubsetSize(after.Keys, table.Keys);
    forall other
      ensures TracksId(limits, after, h + [e], other)
    {
      assert TracksId(limits, table, h, other);
      ConsumeTracksOther(limits, table, h, id, browser, now, other);
    }
  }

  lemma ConsumeTracksOther(limits: Limits, table: Table, h: History, id: string, browser: Option<string>, now: nat,
                           other: string)
    requires Ordered(h) && TracksId(limits, table, h, id) && TracksId(limits, table, h, other) && Clock(h) <= now
    ensures var (ok, after) := Consumed(limits, table, id, browser, now);
            TracksId(limits, after, h + [Tried(id, browser, now, ok)], other)
  {
    var (ok, after) := Consumed(limits, table, id, browser, now);
    var e := Tried(id, browser, now, ok);
    assert Front(h + [e]) == h && Last(h + [e]) == e;
    if !Ends(e, other) {
      assert other in table && other !in after ==> Elapsed(now, table[other].inserted) >= limits.ttl;
      assert other in after ==> other in table && after[other] == table[other];
      OutstandingCarries(h, e, other);
      if Outstanding(h, other).Some? {
        OutstandingIsPast(h, other);
      }
    }
  }

  /** The entry crowded out by an insertion has as many rivals as the table
      has places. */
  lemma VictimHasRivals(limits: Limits, table: Table, h: History, live: Table, victim: string, e: Event)
    requires Tracks(limits, table, h) && Clock(h) <= e.at && e.Stored?
    requires live == Live(limits, table, e.at) && Oldest(live, victim) && e.id !in live && |live| >= limits.maxEntries
    ensures Outstanding(h + [e], victim) == Outstanding(h, victim) && Rivals(h + [e], victim) >= limits.maxEntries
  {
    var g := h + [e];
    assert TracksId(limits, table, h, victim);
    OutstandingCarries(h, e, victim);
    var since := live[victim].inserted;
    OutstandingIsPast(h, victim);
    StoredSinceGrows(h, e, since);
    forall id | id in live
      ensures id in StoredSince(g, since)
    {
      assert TracksId(limits, table, h, id);
      OutstandingInStoredSince(h, id, since);
    }
    CrowdSize(live.Keys, victim, e.id, StoredSince(g, since));
  }

  lemma CrowdSize(live: set<string>, victim: string, id: string, stored: set<string>)
    requires victim in live && id !in live && live + {id} <= stored
    ensures |stored - {victim}| >= |live|
  {
    var crowd := live - {victim} + {id};
    assert |crowd| == |live|;
    SubsetSize(crowd, stored - {victim});
  }

  lemma InsertTracks(limits: Limits, table: Table, h: History, id: string, browser: Option<string>, now: nat, after: Table)
    requires Tracks(limits, table, h) && Clock(h) <= now && limits.maxEntries >= 1
    requires Inserted(limits, table, id, browser, now, after)
    ensures Tracks(limits, after, h + [Stored(id, browser, now)])
  {
    var e := Stored(id, browser, now);
    OrderedSnoc(h, e);
    InsertFits(limits, table, id, browser, now, after);
    forall other
      ensures TracksId(limits, after, h + [e], other)
    {
      if other == id {
        InsertTracksOwn(limits, table, h, e, after);
      } else {
        InsertTracksOther(limits, table, h, e, after, other);
      }
    }
  }

  lemma InsertTracksOwn(limits: Limits, table: Table, h: History, e: Event, after: Table)
    requires e.Stored? && Inserted(limits, table, e.id, e.browser, e.at, after)
    ensures TracksId(limits, after, h + [e], e.id)
  {
    assert Last(h + [e]) == e;
  }

  lemma InsertTracksOther(limits: Limits, table: Table, h: History, e: Event, after: Table, other: string)
    requires Tracks(limits, table, h) && e.Stored? && Clock(h) <= e.at && limits.maxEntries >= 1
    requires Inserted(limits, table, e.id, e.browser, e.at, after) && other != e.id
    ensures TracksId(limits, after, h + [e], other)
  {
    var live := Live(limits, table, e.at);
    assert TracksId(limits, table, h, other);
    OutstandingCarries(h, e, other);
    if Outstanding(h, other).Some? {
      OutstandingIsPast(h, other);
      if other in live && other !in after {
        VictimHasRivals(limits, table, h, live, other, e);
      }
    }
  }

  lemma InsertFits(limits: Limits, table: Table, id: string, browser: Option<string>, now: nat, after: Table)
    requires |table| <= limits.maxEntries && limits.maxEntries >= 1
    requires Inserted(limits, table, id, browser, now, after)
    ensures |after| <= limits.maxEntries
  {
    var live := Live(limits, table, now);
    SubsetSize(live.Keys, table.Keys);
    if id in live || |live| < limits.maxEntries {
      UpdateSize(live, id, Tracked(now, browser));
    } else {
      var victim :| Oldest(live, victim) && after == (live - {victim})[id := Tracked(now, browser)];
      ReplaceSize(live, victim, id, Tracked(now, browser));
    }
  }

  lemma UpdateSize(table: Table, id: string, t: Tracked)
    ensures |table[id := t]| == |table| + if id in table then 0 else 1
  {
    assert table[id := t].Keys == table.Keys + {id};
  }

  lemma ReplaceSize(table: Table, victim: string, id: string, t: Tracked)
    requires victim in table && id !in table
    ensures |(table - {victim})[id := t]| == |table|
  {
    assert (table - {victim}).Keys == table.Keys - {victim};
    UpdateSize(table - {victim}, id, t);
  }

  // ---- The class ------------------------------------------------------------

  lemma OldestExists(table: Table)
    requires |table| > 0
    ensures exists id :: Oldest(table, id)
    decreases |table|
  {
    var id :| id in table;
    var rest := table - {id};
    if |rest| == 0 {
      assert forall other :: other in table ==> other == id by {
        forall other | other in table
          ensures other == id
        {
          assert other != id ==> other in rest;
        }
      }
      assert Oldest(table, id);
    } else {
      assert rest.Keys == table.Keys - {id};
      OldestExists(rest);
      var o :| Oldest(rest, o);
      assert forall other :: other in table ==> other == id || other in rest;
      if table[id].inserted <= table[o].inserted {
        assert Oldest(table, id);
      } else {
        assert Oldest(table, o);
      }
    }
  }

  class InMemoryRequestIdTracker {
    var ids: Table
    const limits: Limits
    ghost var history: History

    ghost predicate Valid()
      reads this
    {
      limits.maxEntries >= 1 && Tracks(limits, ids, history)
    }

    /** A capacity of zero is raised to one. */
    constructor WithLimits(ttl: nat, maxEntries: nat)
      ensures Valid() && history == [] && ids == map[]
      ensures limits == Limits(ttl, if maxEntries == 0 then 1 else maxEntries)
    {
      ids := map[];
      limits := Limits(ttl, if maxEntries == 0 then 1 else maxEntries);
      history := [];
    }

    method Insert(id: string, browser: Option<string>, now: nat)
      requires Valid() && Clock(history) <= now
      modifies this
      ensures Valid() && history == old(history) + [Stored(id, browser, now)]
      ensures Inserted(limits, old(ids), id, browser, now, ids)
    {
      ids := Live(limits, ids, now);
      ghost var live := ids;
      if id !in ids && |ids| >= limits.maxEntries {
        OldestExists(ids);
        var victim :| victim in ids && forall other :: other in ids ==> ids[victim].inserted <= ids[other].inserted;
        assert Oldest(live, victim);
        ids := ids - {victim};
      }
      ids := ids[id := Tracked(now, browser)];
      InsertTracks(limits, old(ids), history, id, browser, now, ids);
      history := history + [Stored(id, browser, now)];
    }

    method Store(id: string, now: nat)
      requires Valid() && Clock(history) <= now
      modifies this
      ensures Valid() && history == old(history) + [Stored(id, None, now)]
      ensures Inserted(limits, old(ids), id, None, now, ids)
    {
      Insert(id, None, now);
    }

    method StoreBound(id: string, browser: string, now: nat)
      requires Valid() && Clock(history) <= now
      modifies this
      ensures Valid() && history == old(history) + [Stored(id, Some(browser), now)]
      ensures Inserted(limits, old(ids), id, Some(browser), now, ids)
    {
      Insert(id, Some(browser), now);
    }

    method Consume(id: string, now: nat) returns (ok: bool)
      requires Valid() && Clock(history) <= now
      modifies this
      ensures Valid() && history == old(history) + [Tried(id, None, now, ok)]
      ensures (ok, ids) == Consumed(limits, old(ids), id, None, now)
      ensures id in old(ids) && Elapsed(now, old(ids)[id].inserted) < limits.ttl && old(ids)[id].browser.Some?
              ==> !ok && ids == old(ids)
      ensures ok ==> Accepts(limits.ttl, old(history), id, None, now)
      ensures Accepts(limits.ttl, old(history), id, None, now) && Rivals(old(history), id) < limits.maxEntries ==> ok
    {
      ConsumeTracks(limits, ids, history, id, None, now);
      AnswerIsSound(limits, ids, history, id, None, now);
      ok := false;
      if id in ids {
        var entry := ids[id];
        if Elapsed(now, entry.inserted) >= limits.ttl {
          ids := ids - {id};
        } else if entry.browser.None? {
          ids := ids - {id};
          ok := true;
        }
      }
      history := history + [Tried(id, None, now, ok)];
    }

    method ConsumeBound(id: string, browser: string, now: nat) returns (ok: bool)
      requires Valid() && Clock(history) <= now
      modifies this
      ensures Valid() && history == old(history) + [Tried(id, Some(browser), now, ok)]
      ensures (ok, ids) == Consumed(limits, old(ids), id, Some(browser), now)
      ensures id in old(ids) && Elapsed(now, old(ids)[id].inserted) < limits.ttl && old(ids)[id].browser != Some(browser)
              ==> !ok && ids == old(ids)
      ensures ok ==> Accepts(limits.ttl, old(history), id, Some(browser), now)
      ensures Accepts(limits.ttl, old(history), id, Some(browser), now) && Rivals(old(history), id) < limits.maxEntries ==> ok
    {
      ConsumeTracks(limits, ids, history, id, Some(browser), now);
      AnswerIsSound(limits, ids, history, id, Some(browser), now);
      ok := false;
      if id in ids {
        var entry := ids[id];
        if Elapsed(now, entry.inserted) >= limits.ttl {
          ids := ids - {id};
        } else if entry.browser == Some(browser) {
          ids := ids - {id};
          ok := true;
        }
      }
      history := history + [Tried(id, Some(browser), now, ok)];
    }
  }

  /** A success is one the unlimited tracker would give, and a refusal of what
      it would accept means the entry was crowded out. */
  lemma AnswerIsSound(limits: Limits, table: Table, h: History, id: string, browser: Option<string>, now: nat)
    requires Tracks(limits, table, h) && Clock(h) <= now
    ensures Consumed(limits, table, id, browser, now).0 ==> Accepts(limits.ttl, h, id, browser, now)
    ensures Accepts(limits.ttl, h, id, browser, now) && Rivals(h, id) < limits.maxEntries
            ==> Consumed(limits, table, id, browser, now).0
  {
    assert TracksId(limits, table, h, id);
    if Outstanding(h, id).Some? {
      OutstandingIsPast(h, id);
    }
  }

  // ---- Whole runs -------------------------------------------------------------

  ghost predicate Step(limits: Limits, before: Table, e: Event, after: Table) {
    match e
    case Stored(id, browser, at) => Inserted(limits, before, id, browser, at, after)
    case Tried(id, browser, at, ok) => (ok, after) == Consumed(limits, before, id, browser, at)
  }

  /** A run from the empty table, with a clock that never goes back. */
  ghost predicate Run(limits: Limits, tables: seq<Table>, h: History) {
    && |tables| == |h| + 1 && tables[0] == map[] && Ordered(h)
    && forall i :: 0 <= i < |h| ==> Step(limits, tables[i], h[i], tables[i + 1])
  }

  lemma {:induction false} RunTracks(limits: Limits, tables: seq<Table>, h: History)
    requires limits.maxEntries >= 1 && Run(limits, tables, h)
    ensures Tracks(limits, tables[|h|], h)
    decreases |h|
  {
    if h != [] {
      RunPrefix(limits, tables, h, |h| - 1);
      RunTracks(limits, tables[..|h|], Front(h));
      var before, e := tables[|h| - 1], Last(h);
      assert h == Front(h) + [e];
      assert Step(limits, before, h[|h| - 1], tables[|h|]);
      match e
      case Stored(id, browser, at) => InsertTracks(limits, before, Front(h), id, browser, at, tables[|h|]);
      case Tried(id, browser, at, ok) => ConsumeTracks(limits, before, Front(h), id, browser, at);
    }
  }

  lemma RunPrefix(limits: Limits, tables: seq<Table>, h: History, n: nat)
    requires Run(limits, tables, h) && n <= |h|
    ensures Run(limits, tables[..n + 1], h[..n])
    ensures n < |h| ==> Clock(h[..n]) <= h[n].at
  {
  }

  /** In every run the table stays within its capacity, every success is one an
      unlimited tracker would give, and every refusal of what the unlimited
      tracker accepts comes with `maxEntries` rivals. */
  lemma EveryRun(limits: Limits, tables: seq<Table>, h: History, i: nat)
    requires limits.maxEntries >= 1 && Run(limits, tables, h) && i < |h|
    ensures |tables[i]| <= limits.maxEntries
    ensures h[i].Tried? && h[i].ok ==> Accepts(limits.ttl, h[..i], h[i].id, h[i].browser, h[i].at)
    ensures h[i].Tried? && !h[i].ok && Accepts(limits.ttl, h[..i], h[i].id, h[i].browser, h[i].at)
            ==> Rivals(h[..i], h[i].id) >= limits.maxEntries
  {
    RunPrefix(limits, tables, h, i);
    RunTracks(limits, tables[..i + 1], h[..i]);
    assert Step(limits, tables[i], h[i], tables[i + 1]);
    if h[i].Tried? {
      AnswerIsSound(limits, tables[i], h[..i], h[i].id, h[i].browser, h[i].at);
    }
  }

  /** The answers of an unlimited tracker. */
  predicate Unlimited(ttl: nat, h: History) {
    forall i :: 0 <= i < |h| && h[i].Tried? ==> h[i].ok == Accepts(ttl, h[..i], h[i].id, h[i].browser, h[i].at)
  }

  predicate SameCalls(g: History, h: History) {
    |g| == |h| && forall i :: 0 <= i < |g| ==> g[i] == h[i] || (g[i].Tried? && h[i].Tried? && g[i] == h[i].(ok := g[i].ok))
  }

  /** The unlimited tracker has one set of answers for each series of calls. */
  lemma {:induction false} UnlimitedIsUnique(ttl: nat, g: History, h: History, n: nat)
    requires Unlimited(ttl, g) && Unlimited(ttl, h) && SameCalls(g, h) && n <= |g|
    ensures g[..n] == h[..n]
  {
    if n > 0 {
      UnlimitedIsUnique(ttl, g, h, n - 1);
      assert g[n - 1] == h[n - 1];
      assert g[..n] == g[..n - 1] + [g[n - 1]] && h[..n] == h[..n - 1] + [h[n - 1]];
    }
  }

  /** Below the load that fills the table, the bounded tracker gives exactly the
      answers the unlimited one gives to the same calls. */
  lemma BoundedAnswersLikeUnlimited(limits: Limits, tables: seq<Table>, h: History, ideal: History)
    requires limits.maxEntries >= 1 && Run(limits, tables, h)
    requires forall i :: 0 <= i < |h| && h[i].Tried? ==> Rivals(h[..i], h[i].id) < limits.maxEntries
    requires Unlimited(limits.ttl, ideal) && SameCalls(h, ideal)
    ensures h == ideal
  {
    forall i | 0 <= i < |h| && h[i].Tried?
      ensures h[i].ok == Accepts(limits.ttl, h[..i], h[i].id, h[i].browser, h[i].at)
    {
      EveryRun(limits, tables, h, i);
    }
    UnlimitedIsUnique(limits.ttl, h, ideal, |h|);
    assert h[..|h|] == h && ideal[..|h|] == ideal;
  }

  function Stores(h: History, id: string): nat {
    if h == [] then 0 else Stores(Front(h), id) + if Last(h).Stored? && Last(h).id == id then 1 else 0
  }

  function Successes(h: History, id: string): nat {
    if h == [] then 0 else Successes(Front(h), id) + if Last(h).Tried? && Last(h).ok && Last(h).id == id then 1 else 0
  }

  /** One-time use: in every run an ID is consumed successfully at most as often
      as it was stored, with one to spare while it is outstanding. */
  lemma {:induction false} OneTimeUse(limits: Limits, tables: seq<Table>, h: History, id: string)
    requires limits.maxEntries >= 1 && Run(limits, tables, h)
    ensures Successes(h, id) + (if Outstanding(h, id).Some? then 1 else 0) <= Stores(h, id)
    decreases |h|
  {
    if h != [] {
      RunPrefix(limits, tables, h, |h| - 1);
      OneTimeUse(limits, tables[..|h|], Front(h), id);
      EveryRun(limits, tables, h, |h| - 1);
    }
  }
}
