// internal/memory/types.go: how corroboration grows and decays, over exact
// reals; and internal/maintenance/demote.go, which demotes what it finds
// uncorroborated.
module Confidence {
  import opened Common
  import opened Supersession
  import opened MemoryStore

  const WEEK := 7 * 24 * HOUR
  const DEMOTE_FLOOR := 0.35
  const DECAY_PER_WEEK := 0.05
  const CONFIDENCE_FLOOR := 0.05

  function Clamp01(x: real): real {
    if x < 0.0 then 0.0 else if x > 1.0 then 1.0 else x
  }

  function GrowConfidence(c: real): real {
    Clamp01(c + 0.1 * (1.0 - c))
  }

  function DecayConfidence(c: real, weeks: real): real {
    if weeks <= 1.0 then c
    else
      var d := c - DECAY_PER_WEEK * (weeks - 1.0);
      if d < CONFIDENCE_FLOOR then CONFIDENCE_FLOOR else d
  }

  // The later of a row's last update and its last access.
  function LastTouched(row: Row): Time {
    if row.accessedAt > row.updatedAt then row.accessedAt else row.updatedAt
  }

  function WeeksIdle(row: Row, now: Time): real {
    (now - LastTouched(row)) as real / WEEK as real
  }

  function EffectiveConfidence(row: Row, now: Time): real {
    if !row.tier.IsLongTerm() || row.confidence.None? then 1.0
    else DecayConfidence(Clamp01(row.confidence.value), WeeksIdle(row, now))
  }

  // ---- Growth -------------------------------------------------------------

  function Corroborate(c: real, n: nat): real {
    if n == 0 then c else GrowConfidence(Corroborate(c, n - 1))
  }

  function Power(x: real, n: nat): real {
    if n == 0 then 1.0 else x * Power(x, n - 1)
  }

  lemma {:induction false} PowerShrinks(n: nat)
    ensures 0.0 < Power(0.9, n) <= 1.0
  {
    if n > 0 {
      PowerShrinks(n - 1);
    }
  }

  // Each corroboration closes a tenth of the gap to certainty, so n of them
  // leave (9/10)^n of it: certainty is approached, never reached or overshot.
  lemma {:induction false} CorroborationClosesGap(c: real, n: nat)
    requires 0.0 <= c <= 1.0
    ensures Corroborate(c, n) == 1.0 - Power(0.9, n) * (1.0 - c)
    ensures c <= Corroborate(c, n) <= 1.0 && (c < 1.0 ==> Corroborate(c, n) < 1.0)
  {
    PowerShrinks(n);
    if n > 0 {
      CorroborationClosesGap(c, n - 1);
      PowerShrinks(n - 1);
    }
  }

  // ---- Decay and the demotion floor ---------------------------------------

  // Decay never raises a confidence that starts at its floor or above, only
  // deepens with time, spares the first week, and ends at the floor, not below.
  lemma DecayIsMonotone(c: real, w1: real, w2: real)
    requires 0.05 <= c && w1 <= w2
    ensures 0.05 <= DecayConfidence(c, w2) <= DecayConfidence(c, w1) <= c
    ensures w1 <= 1.0 ==> DecayConfidence(c, w1) == c
    ensures w2 > 1.0 && w2 >= 1.0 + 20.0 * (c - 0.05) ==> DecayConfidence(c, w2) == 0.05
  {
  }

  // The weeks of idleness a confidence buys before the demotion floor.
  function ProtectedWeeks(c: real): real {
    1.0 + 20.0 * (c - DEMOTE_FLOOR)
  }

  // A row falls below the demotion floor exactly when it is durable and
  // tracked, and either never reached the floor or has been idle for longer
  // than its confidence buys.
  lemma BelowFloor(row: Row, now: Time)
    ensures EffectiveConfidence(row, now) < DEMOTE_FLOOR <==>
      row.tier.IsLongTerm() && row.confidence.Some? &&
      var c := Clamp01(row.confidence.value);
      c < DEMOTE_FLOOR || WeeksIdle(row, now) > ProtectedWeeks(c)
  {
  }

  // One more corroboration strictly lengthens the protection, by two weeks
  // times the gap to certainty, and no amount of it protects for 14 weeks.
  lemma CorroborationProtects(c: real, n: nat)
    requires 0.0 <= c < 1.0
    ensures ProtectedWeeks(Corroborate(c, n + 1)) == ProtectedWeeks(Corroborate(c, n)) + 2.0 * (1.0 - Corroborate(c, n))
    ensures ProtectedWeeks(Corroborate(c, n)) < ProtectedWeeks(Corroborate(c, n + 1)) < 14.0
  {
    CorroborationClosesGap(c, n);
    CorroborationClosesGap(c, n + 1);
  }

  // ---- Demotion -----------------------------------------------------------

  const PINNED_TAG := "pinned"
  const HANDOFF_TAG := "handoff"

  function LongTermFilter(now: Time): Filter {
    Filter({Semantic, Procedural}, false, false, now)
  }

  // The rows a sweep demotes: old, unused, unimportant, unpinned durable
  // memories that are not sufficiently corroborated.
  predicate IsStale(row: Row, olderThan: Time, now: Time) {
    && row.accessCount == 0 && row.importance < 0.75
    && row.updatedAt < olderThan
    && EffectiveConfidence(row, now) < DEMOTE_FLOOR
    && PINNED_TAG !in row.tags && HANDOFF_TAG !in row.tags
  }

  predicate IsDemotable(row: Row, ns: string, olderThan: Time, now: Time) {
    Matches(row, ns, LongTermFilter(now)) && IsStale(row, olderThan, now)
  }

  function AsDemoted(row: Row, now: Time): Row {
    row.(tier := Episodic, expiresAt := Some(now + DefaultTTL(Episodic)))
  }

  ghost function DemotableIn(rows: Table, scope: set<string>, olderThan: Time, now: Time): set<Id> {
    set id | id in rows && rows[id].ns in scope && IsDemotable(rows[id], rows[id].ns, olderThan, now)
  }

  ghost function Demoted(rows: Table, ids: set<Id>, now: Time): Table {
    map id | id in rows :: if id in ids then AsDemoted(rows[id], now) else rows[id]
  }

  // A durable memory, live and unexpired, that was never recalled, does not
  // matter much, is neither pinned nor a handoff, was last updated before the
  // cut-off, and whose confidence, a twentieth less for each week after the
  // first since it was last updated or accessed, is below 0.35.
  ghost predicate IsDebris(row: Row, olderThan: Time, now: Time) {
    && (row.tier == Semantic || row.tier == Procedural)
    && (row.expiresAt.Some? ==> row.expiresAt.value > now)
    && row.supersededBy.None? && (row.validTo.Some? ==> row.validTo.value > now)
    && row.accessCount == 0 && row.importance < 0.75 && "pinned" !in row.tags && "handoff" !in row.tags
    && row.updatedAt < olderThan
    && row.confidence.Some?
    && var c := if row.confidence.value > 1.0 then 1.0 else row.confidence.value;
      c < 0.35 || IsIdleFor(row, now, 1.0 + 20.0 * (c - 0.35))
  }

  // Neither updated nor accessed for longer than so many weeks.
  ghost predicate IsIdleFor(row: Row, now: Time, weeks: real) {
    && (now - row.updatedAt) as real > weeks * 604_800_000_000_000.0
    && (now - row.accessedAt) as real > weeks * 604_800_000_000_000.0
  }

  lemma QuotientAbove(x: real, w: real, k: real)
    requires w > 0.0
    ensures x / w > k <==> x > k * w
  {
    var q := x / w;
    assert q * w == x;
    if q > k {
      assert (q - k) * w > 0.0;
    } else {
      assert (k - q) * w >= 0.0;
    }
  }

  lemma IdleWeeks(row: Row, now: Time, weeks: real)
    ensures IsIdleFor(row, now, weeks) <==> WeeksIdle(row, now) > weeks
  {
    var idle := now - LastTouched(row);
    assert idle == now - row.updatedAt || idle == now - row.accessedAt;
    assert idle <= now - row.updatedAt && idle <= now - row.accessedAt;
    QuotientAbove(idle as real, WEEK as real, weeks);
    assert WEEK as real == 604_800_000_000_000.0;
  }

  lemma DemotableIsDebris(row: Row, olderThan: Time, now: Time)
    ensures IsDemotable(row, row.ns, olderThan, now) <==> IsDebris(row, olderThan, now)
  {
    BelowFloor(row, now);
    if row.confidence.Some? {
      IdleWeeks(row, now, 1.0 + 20.0 * (Clamp01(row.confidence.value) - 0.35));
    }
  }

  // From one durable tier to the episodic one, for thirty days from now, and
  // nothing else.
  ghost predicate IsRetired(was: Row, row: Row, now: Time) {
    && row.tier == Episodic && row.expiresAt == Some(now + 2_592_000_000_000_000)
    && was == row.(tier := was.tier, expiresAt := was.expiresAt)
  }

  // What a sweep may have done to one row.
  ghost predicate IsLeftOrRetired(was: Table, rows: Table, olderThan: Time, now: Time, id: Id) {
    id in rows ==>
      && id in was
      && (rows[id] == was[id] || (IsDebris(was[id], olderThan, now) && IsRetired(was[id], rows[id], now)))
  }

  lemma OnlyDebrisIsRetired(was: Table, rows: Table, olderThan: Time, now: Time, ids: set<Id>, gone: set<Id>, n: nat,
                            done: set<Id>, id: Id)
    requires IsDemoting(was, rows, now, ids, gone, n, done) && ids <= DemotableIds(was, olderThan, now)
    ensures IsLeftOrRetired(was, rows, olderThan, now, id)
  {
    if id in rows {
      DemotableIsDebris(was[id], olderThan, now);
    }
  }

  // The checks of the sweep, in its order.
  method Keeps(row: Row, olderThan: Time, now: Time) returns (keep: bool)
    ensures keep == !IsStale(row, olderThan, now)
  {
    if row.accessCount > 0 || row.importance >= 0.75 {
      return true;
    }
    if !(row.updatedAt < olderThan) {
      return true;
    }
    if EffectiveConfidence(row, now) >= DEMOTE_FLOOR {
      return true;
    }
    return PINNED_TAG in row.tags || HANDOFF_TAG in row.tags;
  }

  // Part way through: the chosen rows are demoted, this many of them by this
  // sweep.
  ghost predicate IsDemoting(was: Table, rows: Table, now: Time, ids: set<Id>, gone: set<Id>, n: nat, done: set<Id>) {
    rows == Demoted(was, ids, now) - gone && IsTally(n, done, ids, gone)
  }

  // One more of them: demoted, unless it is gone already.
  lemma DemotingNext(was: Table, rows: Table, now: Time, ids: set<Id>, gone: set<Id>, n: nat, done: set<Id>, id: Id)
    requires IsDemoting(was, rows, now, ids, gone, n, done) && id in was && id !in ids
    ensures id in rows ==> rows[id] == was[id]
    ensures id in rows ==> IsDemoting(was, rows[id := AsDemoted(was[id], now)], now, ids + {id}, gone, n + 1,
                                      done + {id})
    ensures id !in rows ==> IsDemoting(was, rows, now, ids + {id}, gone, n, done)
  {
    var row := AsDemoted(was[id], now);
    assert Demoted(was, ids + {id}, now) == Demoted(was, ids, now)[id := row];
    WrittenThrough(Demoted(was, ids, now), gone, if id in rows then rows[id := row] else rows, id, row);
    assert done + {} == done;
  }

  method DemoteIfStale(st: Store, ns: string, m: Mem, olderThan: Time, now: Time, n0: nat,
                       ghost was: Table, ghost ids: set<Id>, ghost done0: set<Id>, ghost since: nat)
    returns (n: nat, err: Outcome, ghost done: set<Id>)
    requires since <= st.calls && IsDemoting(was, st.rows, now, ids, st.Lost(since), n0, done0)
    requires m.id in was && was[m.id] == m.row && m.row.ns == ns && m.id !in ids
    modifies st`rows, st`calls
    ensures old(st.calls) <= st.calls && (err == Done || (err == Failed && st.FailedSince(old(st.calls))))
    ensures IsDemoting(was, st.rows, now, if err == Done && IsStale(m.row, olderThan, now) then ids + {m.id} else ids,
                       st.Lost(since), n, done)
  {
    n, err, done := n0, Done, done0;
    var keep := Keeps(m.row, olderThan, now);
    if keep {
      return;
    }
    DemotingNext(was, st.rows - st.deletes(st.calls), now, ids, Gone(st.deletes, since, st.calls + 1), n, done, m.id);
    var e := st.Retier(ns, m.id, Episodic, Some(now + DefaultTTL(Episodic)));
    if e != Done {
      if e == NotFound {
        return;
      }
      return n, e, done;
    }
    n, done := n + 1, done + {m.id};
  }

  // The rows of one namespace the sweep looks at, as they were before it; what
  // is not listed is gone.
  ghost predicate AreDurable(was: Table, ns: string, now: Time, gone: set<Id>, mems: seq<Mem>) {
    && Distinct(mems)
    && (forall i :: 0 <= i < |mems| ==>
          mems[i].id in was && was[mems[i].id] == mems[i].row && Matches(mems[i].row, ns, LongTermFilter(now)))
    && (forall id :: id in was && Matches(was[id], ns, LongTermFilter(now)) ==> id in Ids(mems) || id in gone)
  }

  ghost function StaleAmong(rows: Table, seen: set<Id>, olderThan: Time, now: Time): set<Id> {
    set id | id in seen && id in rows && IsStale(rows[id], olderThan, now)
  }

  lemma StaleOneMore(was: Table, ns: string, gone: set<Id>, mems: seq<Mem>, i: nat, olderThan: Time, now: Time)
    requires AreDurable(was, ns, now, gone, mems) && i < |mems|
    ensures var m, seen := mems[i], Ids(mems[..i]);
      && m.id in was && was[m.id] == m.row && m.row.ns == ns && m.id !in seen
      && seen <= Ids(mems) && Ids(mems[..i + 1]) == seen + {m.id}
      && StaleAmong(was, seen + {m.id}, olderThan, now) ==
           StaleAmong(was, seen, olderThan, now) + (if IsStale(m.row, olderThan, now) then {m.id} else {})
  {
    IdsPrefix(mems, i);
  }

  method DemoteListed(st: Store, ns: string, mems: seq<Mem>, olderThan: Time, now: Time, n0: nat,
                      ghost was: Table, ghost ids: set<Id>, ghost done0: set<Id>, ghost since: nat, ghost gone: set<Id>)
    returns (n: nat, err: Outcome, ghost seen: set<Id>, ghost done: set<Id>)
    requires since <= st.calls && IsDemoting(was, st.rows, now, ids, st.Lost(since), n0, done0)
    requires AreDurable(was, ns, now, gone, mems) && forall i :: 0 <= i < |mems| ==> mems[i].id !in ids
    modifies st`rows, st`calls
    ensures old(st.calls) <= st.calls && (err == Done || (err == Failed && st.FailedSince(old(st.calls))))
    ensures IsDemoting(was, st.rows, now, ids + StaleAmong(was, seen, olderThan, now), st.Lost(since), n, done)
    ensures seen <= Ids(mems) && (err == Done ==> seen == Ids(mems))
  {
    n, err, seen, done := n0, Done, {}, done0;
    ghost var picked := ids;
    assert ids + StaleAmong(was, {}, olderThan, now) == ids;
    for i := 0 to |mems|
      invariant old(st.calls) <= st.calls && err == Done && seen == Ids(mems[..i])
      invariant picked == ids + StaleAmong(was, seen, olderThan, now)
      invariant IsDemoting(was, st.rows, now, picked, st.Lost(since), n, done)
    {
      StaleOneMore(was, ns, gone, mems, i, olderThan, now);
      n, err, done := DemoteIfStale(st, ns, mems[i], olderThan, now, n, was, picked, done, since);
      if err != Done {
        return;
      }
      seen := seen + {mems[i].id};
      picked := picked + if IsStale(mems[i].row, olderThan, now) then {mems[i].id} else {};
      assert picked == ids + StaleAmong(was, seen, olderThan, now);
    }
    assert mems[..|mems|] == mems;
  }

  // The namespaces in scope went through.
  ghost predicate IsSwept(was: Table, olderThan: Time, now: Time, scope: set<string>, ids: set<Id>, gone: set<Id>) {
    && ids <= DemotableIn(was, scope, olderThan, now) <= ids + gone
  }

  method DemoteNamespace(st: Store, ns: string, olderThan: Time, now: Time, n0: nat,
                         ghost was: Table, ghost ids0: set<Id>, ghost done0: set<Id>, ghost scope: set<string>,
                         ghost since: nat)
    returns (n: nat, err: Outcome, ghost ids: set<Id>, ghost done: set<Id>)
    requires since <= st.calls && IsDemoting(was, st.rows, now, ids0, st.Lost(since), n0, done0)
    requires ns !in scope && IsSwept(was, olderThan, now, scope, ids0, st.Lost(since))
    modifies st`rows, st`calls
    ensures old(st.calls) < st.calls && (err == Done || (err == Failed && st.FailedSince(old(st.calls))))
    ensures IsDemoting(was, st.rows, now, ids, st.Lost(since), n, done)
    ensures ids <= DemotableIds(was, olderThan, now) && DemotableIn(was, scope, olderThan, now) <= ids + st.Lost(since)
    ensures err == Done ==> IsSwept(was, olderThan, now, scope + {ns}, ids, st.Lost(since))
    ensures old(st.Lost(since)) <= st.Lost(since)
  {
    var l := st.List(ns, LongTermFilter(now));
    ghost var gone := st.Lost(since);
    if l.Err? {
      return n0, Failed, ids0, done0;
    }
    ghost var at, seen := st.calls, {};
    n, err, seen, done := DemoteListed(st, ns, l.value, olderThan, now, n0, was, ids0, done0, since, gone);
    ids := ids0 + StaleAmong(was, seen, olderThan, now);
    GoneJoin(st.deletes, since, at, st.calls);
    SweptNext(was, ns, olderThan, now, scope, ids0, gone, st.Lost(since), l.value, seen);
  }

  lemma SweptNext(was: Table, ns: string, olderThan: Time, now: Time, scope: set<string>, ids: set<Id>, gone: set<Id>,
                  late: set<Id>,
                  mems: seq<Mem>, seen: set<Id>)
    requires AreDurable(was, ns, now, gone, mems) && seen <= Ids(mems) && gone <= late
    requires DemotableIn(was, scope, olderThan, now) <= ids + gone && ids <= DemotableIn(was, scope, olderThan, now)
    ensures var next := ids + StaleAmong(was, seen, olderThan, now);
      && next <= DemotableIn(was, scope + {ns}, olderThan, now)
      && (seen == Ids(mems) ==> IsSwept(was, olderThan, now, scope + {ns}, next, late))
  {
    forall id | id in StaleAmong(was, seen, olderThan, now)
      ensures id in DemotableIn(was, {ns}, olderThan, now)
    {
      var i :| 0 <= i < |mems| && mems[i].id == id;
    }
    if seen == Ids(mems) {
      forall id | id in DemotableIn(was, scope + {ns}, olderThan, now)
        ensures id in ids + StaleAmong(was, seen, olderThan, now) + late
      {
        if id !in DemotableIn(was, scope, olderThan, now) {
          assert Matches(was[id], ns, LongTermFilter(now));
        }
      }
    }
  }

  method DemoteEach(st: Store, namespaces: seq<string>, olderThan: Time, now: Time, ghost was: Table, ghost since: nat)
    returns (total: nat, err: Outcome, ghost ids: set<Id>, ghost done: set<Id>, ghost scope: set<string>)
    requires since <= st.calls && st.rows == was - st.Lost(since) && Unique(namespaces)
    modifies st`rows, st`calls
    ensures old(st.calls) <= st.calls && (err == Done || (err == Failed && st.FailedSince(old(st.calls))))
    ensures IsDemoting(was, st.rows, now, ids, st.Lost(since), total, done)
    ensures DemotableIn(was, scope, olderThan, now) <= ids + st.Lost(since) && ids <= DemotableIds(was, olderThan, now)
    ensures err == Done ==>
      IsSwept(was, olderThan, now, scope, ids, st.Lost(since)) && forall ns :: ns in namespaces ==> ns in scope
    ensures old(st.Lost(since)) <= st.Lost(since)
  {
    total, err, ids, done, scope := 0, Done, {}, {}, {};
    assert Demoted(was, {}, now) == was && DemotableIn(was, {}, olderThan, now) == {};
    for i := 0 to |namespaces|
      invariant old(st.calls) <= st.calls && err == Done && old(st.Lost(since)) <= st.Lost(since)
      invariant forall ns :: ns in scope <==> ns in namespaces[..i]
      invariant IsDemoting(was, st.rows, now, ids, st.Lost(since), total, done)
      invariant IsSwept(was, olderThan, now, scope, ids, st.Lost(since))
    {
      var ns := namespaces[i];
      assert ns !in namespaces[..i] && namespaces[..i + 1] == namespaces[..i] + [ns];
      total, err, ids, done := DemoteNamespace(st, ns, olderThan, now, total, was, ids, done, scope, since);
      if err != Done {
        return;
      }
      scope := scope + {ns};
    }
    assert namespaces[..|namespaces|] == namespaces;
  }

  // Demotes the stale durable memories, to the episodic tier and its time to
  // live, and touches nothing else; it misses and leaves out of its count only
  // what others delete first. `scope` holds the namespaces that went through
  // before an error stopped it, if one did.
  method DemoteStale(st: Store, olderThan: Time, now: Time)
    returns (total: nat, err: Outcome, ghost ids: set<Id>, ghost done: set<Id>, ghost scope: set<string>)
    modifies st`rows, st`calls
    ensures old(st.calls) < st.calls && (err == Done || (err == Failed && st.FailedSince(old(st.calls))))
    ensures IsDemoting(old(st.rows), st.rows, now, ids, st.Lost(old(st.calls)), total, done)
    ensures DemotableIn(old(st.rows), scope, olderThan, now) <= ids + st.Lost(old(st.calls))
    ensures ids <= DemotableIds(old(st.rows), olderThan, now)
    ensures err == Done ==> DemotableIds(st.rows, olderThan, now) == {}
    ensures forall id {:trigger IsLeftOrRetired(old(st.rows), st.rows, olderThan, now, id)} ::
      IsLeftOrRetired(old(st.rows), st.rows, olderThan, now, id)
    ensures err == Done ==> forall id :: id in st.rows ==> !IsDebris(st.rows[id], olderThan, now)
  {
    ghost var was, since := st.rows, st.calls;
    FoundAt(was, st.deletes, since, since);
    var r := st.ListNamespaces();
    ghost var early := st.Lost(since);
    if r.Err? {
      assert Demoted(was, {}, now) == was && DemotableIn(was, {}, olderThan, now) == {};
      return 0, Failed, {}, {}, {};
    }
    total, err, ids, done, scope := DemoteEach(st, r.value, olderThan, now, was, since);
    forall id
      ensures IsLeftOrRetired(was, st.rows, olderThan, now, id)
    {
      OnlyDebrisIsRetired(was, st.rows, olderThan, now, ids, st.Lost(since), total, done, id);
    }
    if err == Done {
      NoneIsStale(was, st.rows, olderThan, now, early, scope, ids, st.Lost(since));
      NoneIsDebris(st.rows, olderThan, now);
    }
  }

  lemma NoneIsDebris(rows: Table, olderThan: Time, now: Time)
    requires DemotableIds(rows, olderThan, now) == {}
    ensures forall id :: id in rows ==> !IsDebris(rows[id], olderThan, now)
  {
    forall id | id in rows
      ensures !IsDebris(rows[id], olderThan, now)
    {
      assert id !in DemotableIds(rows, olderThan, now);
      DemotableIsDebris(rows[id], olderThan, now);
    }
  }

  ghost function DemotableIds(rows: Table, olderThan: Time, now: Time): set<Id> {
    set id | id in rows && IsDemotable(rows[id], rows[id].ns, olderThan, now)
  }

  // Rows that are still there were there when the namespaces were listed.
  lemma NoneIsStale(was: Table, rows: Table, olderThan: Time, now: Time, early: set<Id>, scope: set<string>,
                    ids: set<Id>, gone: set<Id>)
    requires rows == Demoted(was, ids, now) - gone && IsSwept(was, olderThan, now, scope, ids, gone)
    requires early <= gone && forall id :: id in was - early ==> was[id].ns in scope
    ensures DemotableIds(rows, olderThan, now) == {}
  {
    forall id | id in rows
      ensures !IsDemotable(rows[id], rows[id].ns, olderThan, now)
    {
      if id in ids {
        DemotionWaits(was[id], was[id].ns, olderThan, now);
      } else {
        assert id in was - early && id !in DemotableIn(was, scope, olderThan, now);
      }
    }
  }

  // A durable memory whose confidence was ever tracked at or above the floor
  // is demoted only after it has been idle for longer than that buys it; and
  // demoting twice changes nothing more.
  lemma DemotionWaits(row: Row, ns: string, olderThan: Time, now: Time)
    requires IsDemotable(row, ns, olderThan, now)
    ensures row.confidence.Some?
    ensures var c := Clamp01(row.confidence.value);
      c >= DEMOTE_FLOOR ==> WeeksIdle(row, now) > ProtectedWeeks(c) >= 1.0
    ensures !IsDemotable(AsDemoted(row, now), ns, olderThan, now)
  {
    BelowFloor(row, now);
  }
}
