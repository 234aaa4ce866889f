// internal/maintenance/tombstone.go: garbage-collecting tombstones by age, and
// the history of store events under which that is safe.
module Tombstones {
  import opened Common
  import opened Supersession
  import opened MemoryStore
  import opened ClusterCollapse
  import Repair

  ghost function OldTombstones(rows: Table, olderThan: Time): set<Id> {
    set id | id in rows && rows[id].supersededBy.Some? && TombstonedAt(rows[id]) < olderThan
  }

  ghost function OldIn(rows: Table, scope: set<string>, olderThan: Time): set<Id> {
    set id | id in OldTombstones(rows, olderThan) && rows[id].ns in scope
  }

  // Part way through a namespace: of the rows seen every old tombstone is
  // gone, dropped by this pass or by others.
  ghost predicate IsCollecting(was: Table, rows: Table, ns: string, olderThan: Time, dropped0: set<Id>,
                               dropped: set<Id>,
                               gone: set<Id>, seen: set<Id>) {
    && dropped0 <= dropped <= OldTombstones(was, olderThan) && rows == was - (dropped + gone)
    && seen * OldTombstones(was, olderThan) <= dropped + gone
    && forall id :: id in dropped && id !in dropped0 ==> was[id].ns == ns && id in seen
  }

  lemma KeepRow(was: Table, rows: Table, ns: string, olderThan: Time, dropped0: set<Id>, dropped: set<Id>,
                gone: set<Id>, seen: set<Id>, id: Id)
    requires IsCollecting(was, rows, ns, olderThan, dropped0, dropped, gone, seen)
    requires id !in OldTombstones(was, olderThan) || id !in rows
    ensures IsCollecting(was, rows, ns, olderThan, dropped0, dropped, gone, seen + {id})
  {
  }

  lemma DropRow(was: Table, rows: Table, ns: string, olderThan: Time, dropped0: set<Id>, dropped: set<Id>,
                gone: set<Id>, seen: set<Id>, id: Id)
    requires IsCollecting(was, rows, ns, olderThan, dropped0, dropped, gone, seen)
    requires id in OldTombstones(was, olderThan) && id in rows && was[id].ns == ns
    ensures IsCollecting(was, rows - {id}, ns, olderThan, dropped0, dropped + {id}, gone, seen + {id})
    ensures id !in dropped
  {
    assert was - (dropped + gone) - {id} == was - (dropped + {id} + gone);
    forall x | x in seen + {id} && x in OldTombstones(was, olderThan)
      ensures x in dropped + {id} + gone
    {
      assert x != id ==> x in seen * OldTombstones(was, olderThan);
    }
  }

  // One listed row: deleted if it is an old tombstone, else kept.
  method PurgeRow(st: Store, ns: string, m: Mem, olderThan: Time,
                  ghost was: Table, ghost dropped0: set<Id>, ghost dropped: set<Id>, ghost seen: set<Id>,
                  ghost since: nat)
    returns (hit: bool, err: Outcome)
    requires since <= st.calls && IsCollecting(was, st.rows, ns, olderThan, dropped0, dropped, st.Lost(since), seen)
    requires m.id in was && was[m.id] == m.row && m.row.ns == ns
    modifies st`rows, st`calls, st`removals
    ensures old(st.calls) <= st.calls && (err == Done || (err == Failed && !hit && st.FailedSince(old(st.calls))))
    ensures hit ==> m.id !in dropped
    ensures |st.removals| == |old(st.removals)| + if hit then 1 else 0
    ensures IsCollecting(was, st.rows, ns, olderThan, dropped0, if hit then dropped + {m.id} else dropped,
                         st.Lost(since),
                         if err == Done then seen + {m.id} else seen)
  {
    if m.row.supersededBy.None? || !(TombstonedAt(m.row) < olderThan) {
      KeepRow(was, st.rows, ns, olderThan, dropped0, dropped, st.Lost(since), seen, m.id);
      return false, Done;
    }
    ghost var found, gone := st.rows - st.deletes(st.calls), Gone(st.deletes, since, st.calls + 1);
    var e := st.Delete(ns, m.id);
    if e != Done {
      if e != NotFound {
        return false, e;
      }
      KeepRow(was, found, ns, olderThan, dropped0, dropped, gone, seen, m.id);
      return false, Done;
    }
    DropRow(was, found, ns, olderThan, dropped0, dropped, gone, seen, m.id);
    return true, Done;
  }

  method PurgeListed(st: Store, ns: string, mems: seq<Mem>, olderThan: Time, ghost was: Table,
                     ghost dropped0: set<Id>, ghost since: nat)
    returns (n: nat, err: Outcome, ghost dropped: set<Id>, ghost seen: set<Id>)
    requires since <= st.calls && IsCollecting(was, st.rows, ns, olderThan, dropped0, dropped0, st.Lost(since), {})
    requires Distinct(mems) && forall i :: 0 <= i < |mems| ==>
      mems[i].id in was && was[mems[i].id] == mems[i].row && mems[i].row.ns == ns
    modifies st`rows, st`calls, st`removals
    ensures old(st.calls) <= st.calls && (err == Done || (err == Failed && st.FailedSince(old(st.calls))))
    ensures IsCollecting(was, st.rows, ns, olderThan, dropped0, dropped, st.Lost(since), seen)
    ensures err == Done ==> seen == Ids(mems)
    ensures n == |dropped| - |dropped0| && |st.removals| == |old(st.removals)| + n
  {
    n, err, dropped, seen := 0, Done, dropped0, {};
    for i := 0 to |mems|
      invariant old(st.calls) <= st.calls && err == Done && seen == Ids(mems[..i])
      invariant IsCollecting(was, st.rows, ns, olderThan, dropped0, dropped, st.Lost(since), seen)
      invariant n == |dropped| - |dropped0| && |st.removals| == |old(st.removals)| + n
    {
      IdsPrefix(mems, i);
      var hit;
      hit, err := PurgeRow(st, ns, mems[i], olderThan, was, dropped0, dropped, seen, since);
      if hit {
        n, dropped := n + 1, dropped + {mems[i].id};
      }
      if err != Done {
        return;
      }
      seen := seen + {mems[i].id};
    }
    assert mems[..|mems|] == mems;
  }

  // One namespace of the collection.
  method PurgeNamespace(st: Store, ns: string, olderThan: Time, ghost was: Table, ghost dropped0: set<Id>,
                        ghost since: nat)
    returns (n: nat, err: Outcome, ghost dropped: set<Id>)
    requires dropped0 <= OldTombstones(was, olderThan) && since <= st.calls
    requires st.rows == was - (dropped0 + st.Lost(since))
    modifies st`rows, st`calls, st`removals
    ensures old(st.calls) < st.calls && (err == Done || (err == Failed && st.FailedSince(old(st.calls))))
    ensures dropped0 <= dropped <= OldTombstones(was, olderThan) && st.rows == was - (dropped + st.Lost(since))
    ensures n == |dropped| - |dropped0| && |st.removals| == |old(st.removals)| + n
    ensures err == Done ==> OldIn(was, {ns}, olderThan) <= dropped + st.Lost(since)
  {
    var r := st.List(ns, Repair.EVERYTHING);
    if r.Err? {
      return 0, Failed, dropped0;
    }
    n, err, dropped := PurgeSnapshot(st, ns, r.value, olderThan, was, dropped0, since);
  }

  method PurgeSnapshot(st: Store, ns: string, mems: seq<Mem>, olderThan: Time, ghost was: Table,
                       ghost dropped0: set<Id>, ghost since: nat)
    returns (n: nat, err: Outcome, ghost dropped: set<Id>)
    requires since < st.calls && IsCollecting(was, st.rows, ns, olderThan, dropped0, dropped0, st.Lost(since), {})
    requires IsListing(st.rows, ns, Repair.EVERYTHING, mems)
    modifies st`rows, st`calls, st`removals
    ensures old(st.calls) <= st.calls && (err == Done || (err == Failed && st.FailedSince(old(st.calls))))
    ensures dropped0 <= dropped <= OldTombstones(was, olderThan) && st.rows == was - (dropped + st.Lost(since))
    ensures n == |dropped| - |dropped0| && |st.removals| == |old(st.removals)| + n
    ensures err == Done ==> OldIn(was, {ns}, olderThan) <= dropped + st.Lost(since)
  {
    ghost var seen;
    n, err, dropped, seen := PurgeListed(st, ns, mems, olderThan, was, dropped0, since);
    GoneJoin(st.deletes, since, old(st.calls), st.calls);
  }

  // Where the collection stands after some namespaces.
  ghost predicate IsCollected(was: Table, now: Table, olderThan: Time, scope: set<string>, dropped: set<Id>,
                              gone: set<Id>, total: nat) {
    && dropped <= OldTombstones(was, olderThan) && total == |dropped|
    && now == was - (dropped + gone) && OldIn(was, scope, olderThan) <= dropped + gone
  }

  lemma ScopeNext(was: Table, scope: set<string>, ns: string, olderThan: Time, before: set<Id>, after: set<Id>)
    requires OldIn(was, scope, olderThan) <= before <= after && OldIn(was, {ns}, olderThan) <= after
    ensures OldIn(was, scope + {ns}, olderThan) <= after
  {
    forall id | id in OldIn(was, scope + {ns}, olderThan)
      ensures id in after
    {
      assert id in OldIn(was, scope, olderThan) || id in OldIn(was, {ns}, olderThan);
    }
  }

  method PurgeNext(st: Store, ns: string, olderThan: Time, total0: nat, ghost was: Table, ghost scope: set<string>,
                   ghost dropped0: set<Id>, ghost since: nat)
    returns (total: nat, err: Outcome, ghost dropped: set<Id>)
    requires since <= st.calls && IsCollected(was, st.rows, olderThan, scope, dropped0, st.Lost(since), total0)
    modifies st`rows, st`calls, st`removals
    ensures old(st.calls) < st.calls && (err == Done || (err == Failed && st.FailedSince(old(st.calls))))
    ensures IsCollected(was, st.rows, olderThan, if err == Done then scope + {ns} else scope, dropped, st.Lost(since),
                        total)
    ensures old(st.Lost(since)) <= st.Lost(since) && |st.removals| - total == |old(st.removals)| - total0
  {
    ghost var before := dropped0 + st.Lost(since);
    var n;
    n, err, dropped := PurgeNamespace(st, ns, olderThan, was, dropped0, since);
    GoneJoin(st.deletes, since, old(st.calls), st.calls);
    if err == Done {
      ScopeNext(was, scope, ns, olderThan, before, dropped + st.Lost(since));
    }
    total := total0 + n;
  }

  lemma NothingCollected(was: Table, olderThan: Time, gone: set<Id>)
    ensures IsCollected(was, was - gone, olderThan, {}, {}, gone, 0)
  {
    assert {} + gone == gone && OldIn(was, {}, olderThan) == {};
  }

  method PurgeEach(st: Store, namespaces: seq<string>, olderThan: Time, ghost was: Table, ghost since: nat)
    returns (total: nat, err: Outcome, ghost dropped: set<Id>, ghost scope: set<string>)
    requires since <= st.calls && st.rows == was - st.Lost(since)
    modifies st`rows, st`calls, st`removals
    ensures old(st.calls) <= st.calls && (err == Done || (err == Failed && st.FailedSince(old(st.calls))))
    ensures IsCollected(was, st.rows, olderThan, scope, dropped, st.Lost(since), total)
    ensures err == Done ==> scope == Repair.Scope(namespaces, |namespaces|)
    ensures old(st.Lost(since)) <= st.Lost(since) && |st.removals| == |old(st.removals)| + total
  {
    total, err, dropped, scope := 0, Done, {}, {};
    NothingCollected(was, olderThan, st.Lost(since));
    for i := 0 to |namespaces|
      invariant old(st.calls) <= st.calls && err == Done && old(st.Lost(since)) <= st.Lost(since)
      invariant IsCollected(was, st.rows, olderThan, scope, dropped, st.Lost(since), total)
      invariant |st.removals| == |old(st.removals)| + total && scope == Repair.Scope(namespaces, i)
    {
      Repair.ScopeGrows(namespaces, i);
      total, err, dropped := PurgeNext(st, namespaces[i], olderThan, total, was, scope, dropped, since);
      if err != Done {
        return;
      }
      scope := scope + {namespaces[i]};
    }
  }

  // Superseded before the cutoff, going by the end of its validity or, where
  // that was never set, by its last update.
  ghost predicate IsOldTombstone(row: Row, olderThan: Time) {
    && row.supersededBy.Some?
    && (row.validTo.Some? ==> row.validTo.value < olderThan) && (row.validTo.None? ==> row.updatedAt < olderThan)
  }

  // Drops the tombstones older than the cutoff, in every namespace, and
  // counts them: every one that others did not delete first, and nothing else.
  method PurgeTombstones(st: Store, olderThan: Time) returns (total: nat, err: Outcome, ghost dropped: set<Id>)
    modifies st`rows, st`calls, st`removals
    ensures old(st.calls) < st.calls && (err == Done || (err == Failed && st.FailedSince(old(st.calls))))
    ensures dropped <= OldTombstones(old(st.rows), olderThan) && total == |dropped|
    ensures |st.removals| == |old(st.removals)| + total
    ensures st.rows == old(st.rows) - (dropped + st.Lost(old(st.calls)))
    ensures err == Done ==> OldTombstones(st.rows, olderThan) == {}
    ensures forall id :: id in dropped ==> IsOldTombstone(old(st.rows)[id], olderThan)
    ensures err == Done ==> forall id :: id in st.rows ==> !IsOldTombstone(st.rows[id], olderThan)
  {
    ghost var was, since := st.rows, st.calls;
    FoundAt(was, st.deletes, since, since);
    var r := st.ListNamespaces();
    if r.Err? {
      assert {} + st.Lost(since) == st.Lost(since);
      return 0, Failed, {};
    }
    ghost var early := st.Lost(since);
    ghost var scope;
    total, err, dropped, scope := PurgeEach(st, r.value, olderThan, was, since);
    if err == Done {
      Repair.ScopeIsAll(r.value);
      AllCollected(was, st.rows, scope, olderThan, dropped, st.Lost(since), early, total);
      assert forall id :: id in st.rows ==> id !in OldTombstones(st.rows, olderThan);
    }
  }

  lemma AllCollected(was: Table, now: Table, scope: set<string>, olderThan: Time, dropped: set<Id>, gone: set<Id>,
                     early: set<Id>, total: nat)
    requires early <= gone && IsCollected(was, now, olderThan, scope, dropped, gone, total)
    requires forall id :: id in was - early ==> was[id].ns in scope
    ensures OldTombstones(now, olderThan) == {}
  {
    forall id | id in OldTombstones(was, olderThan)
      ensures id in dropped + gone
    {
      if id !in early {
        assert id in was - early;
        assert id in OldIn(was, scope, olderThan);
      }
    }
    assert forall id :: id in now ==> id !in dropped + gone && now[id] == was[id];
  }

  // ---- When collecting by age is safe -------------------------------------

  ghost function AgesOf(rows: Table): Times {
    map id | id in rows :: TombstonedAt(rows[id])
  }

  // No collection by age, at whatever cutoff, takes a surviving row's head.
  ghost predicate CollectsSafely(rows: Table) {
    forall olderThan, ns, id ::
      id in GraphOf(rows - OldTombstones(rows, olderThan), ns) && Reaches(GraphOf(rows, ns), id) ==>
      Reaches(GraphOf(rows - OldTombstones(rows, olderThan), ns), id)
  }

  lemma CollectedGraph(rows: Table, olderThan: Time, ns: string)
    ensures GraphOf(rows - OldTombstones(rows, olderThan), ns) == Purged(GraphOf(rows, ns), AgesOf(rows), olderThan)
  {
  }

  // The collection promises never to change what can be recalled. For the
  // chains behind a recallable row that holds exactly when tombstone times
  // never decrease along them.
  lemma CollectionIsSafe(rows: Table)
    ensures CollectsSafely(rows) <==> forall ns :: AgesForward(GraphOf(rows, ns), AgesOf(rows))
  {
    if forall ns :: AgesForward(GraphOf(rows, ns), AgesOf(rows)) {
      forall olderThan, ns, id | id in GraphOf(rows - OldTombstones(rows, olderThan), ns) &&
        Reaches(GraphOf(rows, ns), id)
        ensures Reaches(GraphOf(rows - OldTombstones(rows, olderThan), ns), id)
      {
        CollectedGraph(rows, olderThan, ns);
        PurgeIsSafe(GraphOf(rows, ns), AgesOf(rows));
        assert KeepsHeads(GraphOf(rows, ns), AgesOf(rows), olderThan);
      }
    }
    if CollectsSafely(rows) {
      forall ns
        ensures AgesForward(GraphOf(rows, ns), AgesOf(rows))
      {
        forall olderThan
          ensures KeepsHeads(GraphOf(rows, ns), AgesOf(rows), olderThan)
        {
          CollectedGraph(rows, olderThan, ns);
        }
        PurgeIsSafe(GraphOf(rows, ns), AgesOf(rows));
      }
    }
  }

  // ---- Histories ----------------------------------------------------------

  // What happens to the table: the clock advances, rows are written whole, with
  // any end of validity and any link, superseded by anything, restored,
  // removed, or marked as contradicted.
  datatype Event =
    | Tick(d: nat)
    | Write(id: Id, row: Row)
    | Supersede(id: Id, head: Id)
    | Restore(id: Id)
    | Remove(ids: set<Id>)
    | Contradict(id: Id, confidence: real)

  datatype World = World(rows: Table, now: Time)

  predicate IsTombstone(rows: Table, id: Id) {
    id in rows && rows[id].supersededBy.Some?
  }

  // The store refuses a write to an id of another namespace, and anything else
  // to an id it does not have.
  predicate CanHappen(w: World, e: Event) {
    match e
    case Tick(_) => true
    case Write(id, row) => id in w.rows ==> w.rows[id].ns == row.ns
    case Supersede(id, head) => id in w.rows
    case Restore(id) => id in w.rows
    case Remove(_) => true
    case Contradict(id, _) => id in w.rows
  }

  // MarkContradicted closes the validity window of a row that stays live.
  function AsContradicted(row: Row, confidence: real, now: Time): Row {
    row.(confidence := Some(confidence), validTo := if row.validTo.Some? then row.validTo else Some(now),
         updatedAt := now)
  }

  function Apply(w: World, e: Event): World
    requires CanHappen(w, e)
  {
    match e
    case Tick(d) => w.(now := w.now + d)
    case Write(id, row) => w.(rows := w.rows[id := Upserted(w.rows, id, row)])
    case Supersede(id, head) => w.(rows := w.rows[id := AsSuperseded(w.rows[id], head, w.now)])
    case Restore(id) => w.(rows := w.rows[id := AsRestored(w.rows[id])])
    case Remove(ids) => w.(rows := w.rows - ids)
    case Contradict(id, confidence) => w.(rows := w.rows[id := AsContradicted(w.rows[id], confidence, w.now)])
  }

  ghost predicate IsHistory(worlds: seq<World>, events: seq<Event>) {
    && |worlds| == |events| + 1 && worlds[0].rows == map[]
    && forall i :: 0 <= i < |events| ==> CanHappen(worlds[i], events[i]) && worlds[i + 1] == Apply(worlds[i], events[i])
  }

  // No other tombstone that points at this row is dated later than it.
  ghost predicate IsNoEarlier(rows: Table, id: Id, date: Time) {
    forall x :: x in rows && x != id && rows[x].supersededBy == Some(id) ==> TombstonedAt(rows[x]) <= date
  }

  // Nor is it dated later than the tombstone it points at, if that is one.
  predicate IsNoLater(rows: Table, head: Id, date: Time) {
    IsTombstone(rows, head) ==> date <= TombstonedAt(rows[head])
  }

  // Tombstones carry their date, and no chain runs backwards in time.
  ghost predicate InOrder(rows: Table) {
    && (forall id :: id in rows && rows[id].supersededBy.Some? ==> rows[id].validTo.Some?)
    && (forall y {:trigger rows[y]} :: y in rows && rows[y].supersededBy.Some? ==>
        IsNoEarlier(rows, y, TombstonedAt(rows[y])))
  }

  lemma InOrderIsSafe(rows: Table)
    requires InOrder(rows)
    ensures CollectsSafely(rows)
  {
    CollectionIsSafe(rows);
  }

  // A row fits in the order if, as a tombstone, its date lies between those of
  // its neighbours.
  ghost predicate Fits(rows: Table, id: Id, row: Row) {
    row.supersededBy.Some? ==>
      && row.validTo.Some? && IsNoEarlier(rows, id, row.validTo.value)
      && (row.supersededBy.value != id ==> IsNoLater(rows, row.supersededBy.value, row.validTo.value))
  }

  lemma PutKeepsOrder(rows: Table, id: Id, row: Row)
    requires InOrder(rows)
    ensures InOrder(rows[id := row]) <==> Fits(rows, id, row)
  {
    var now := rows[id := row];
    assert forall x :: x != id && x in now ==> now[x] == rows[x];
    if InOrder(now) && row.supersededBy.Some? {
      assert IsNoEarlier(now, id, TombstonedAt(now[id]));
      var head := row.supersededBy.value;
      assert IsTombstone(rows, head) && head != id ==> IsNoEarlier(now, head, TombstonedAt(now[head]));
    }
    if Fits(rows, id, row) {
      forall y | y in now && now[y].supersededBy.Some?
        ensures IsNoEarlier(now, y, TombstonedAt(now[y]))
      {
        assert y != id ==> IsNoEarlier(rows, y, TombstonedAt(rows[y]));
      }
    }
  }

  // Superseding keeps the end of validity a row has; otherwise it ends now.
  function DateOf(w: World, id: Id): Time
    requires id in w.rows
  {
    if w.rows[id].validTo.Some? then w.rows[id].validTo.value else w.now
  }

  // A supersession must fit the row it makes a tombstone, and a write the row
  // it puts there if that is one.
  ghost predicate KeepsOrder(w: World, e: Event)
    requires CanHappen(w, e)
  {
    match e
    case Write(id, row) => Fits(w.rows, id, row)
    case Supersede(id, head) => IsNoEarlier(w.rows, id, DateOf(w, id)) &&
      (head != id ==> IsNoLater(w.rows, head, DateOf(w, id)))
    case _ => true
  }

  lemma EventKeepsOrder(w: World, e: Event)
    requires InOrder(w.rows) && CanHappen(w, e)
    ensures InOrder(Apply(w, e).rows) <==> KeepsOrder(w, e)
  {
    match e
    case Tick(_) =>
    case Write(id, row) => PutKeepsOrder(w.rows, id, Upserted(w.rows, id, row));
    case Supersede(id, head) => PutKeepsOrder(w.rows, id, AsSuperseded(w.rows[id], head, w.now));
    case Restore(id) => PutKeepsOrder(w.rows, id, AsRestored(w.rows[id]));
    case Contradict(id, confidence) => ContradictionFits(w, id, confidence);
    case Remove(ids) =>
      var now := w.rows - ids;
      forall y | y in now && now[y].supersededBy.Some?
        ensures IsNoEarlier(now, y, TombstonedAt(now[y]))
      {
        assert IsNoEarlier(w.rows, y, TombstonedAt(w.rows[y]));
      }
  }

  lemma ContradictionFits(w: World, id: Id, confidence: real)
    requires InOrder(w.rows) && id in w.rows
    ensures InOrder(w.rows[id := AsContradicted(w.rows[id], confidence, w.now)])
  {
    PutKeepsOrder(w.rows, id, w.rows[id]);
    assert w.rows[id := w.rows[id]] == w.rows;
    PutKeepsOrder(w.rows, id, AsContradicted(w.rows[id], confidence, w.now));
  }

  // A whole history stays in order exactly when every supersession and every
  // write in it does.
  lemma {:induction false} HistoryStaysInOrder(worlds: seq<World>, events: seq<Event>, n: nat)
    requires IsHistory(worlds, events) && n <= |events|
    ensures (forall i :: 0 <= i <= n ==> InOrder(worlds[i].rows)) <==>
      (forall i :: 0 <= i < n ==> KeepsOrder(worlds[i], events[i]))
    decreases n
  {
    if n > 0 {
      HistoryStaysInOrder(worlds, events, n - 1);
      assert CanHappen(worlds[n - 1], events[n - 1]) && worlds[n] == Apply(worlds[n - 1], events[n - 1]);
      if InOrder(worlds[n - 1].rows) {
        EventKeepsOrder(worlds[n - 1], events[n - 1]);
      }
    }
  }

  // A memory is superseded while its validity is open, by one that is not
  // itself superseded; a row is written live, or with the link and the end it
  // has.
  predicate IsPlain(w: World, e: Event)
    requires CanHappen(w, e)
  {
    match e
    case Write(id, row) => row.supersededBy.None? || (id in w.rows && KeepsLink(w.rows[id], row))
    case Supersede(id, head) => w.rows[id].validTo.None? && !IsTombstone(w.rows, head)
    case _ => true
  }

  predicate KeepsLink(was: Row, now: Row) {
    now.supersededBy == was.supersededBy && now.validTo == was.validTo
  }

  // Tombstones were all made in the past.
  ghost predicate MadeByNow(w: World) {
    forall id :: IsTombstone(w.rows, id) ==> w.rows[id].validTo.Some? && w.rows[id].validTo.value <= w.now
  }

  lemma PlainKeepsOrder(w: World, e: Event)
    requires InOrder(w.rows) && MadeByNow(w) && CanHappen(w, e) && IsPlain(w, e)
    ensures KeepsOrder(w, e) && MadeByNow(Apply(w, e))
  {
    var v := Apply(w, e);
    forall id | IsTombstone(v.rows, id)
      ensures v.rows[id].validTo.Some? && v.rows[id].validTo.value <= v.now
    {
      assert IsTombstone(w.rows, id) || e.Supersede?;
    }
    match e
    case Write(id, row) =>
      PutKeepsOrder(w.rows, id, if id in w.rows then w.rows[id] else row);
      assert id in w.rows ==> w.rows[id := w.rows[id]] == w.rows;
    case Supersede(id, head) =>
      forall x | x in w.rows && w.rows[x].supersededBy == Some(id)
        ensures TombstonedAt(w.rows[x]) <= w.now
      {
        assert IsTombstone(w.rows, x);
      }
    case _ =>
  }

  lemma {:induction false} PlainStaysInOrder(worlds: seq<World>, events: seq<Event>, n: nat)
    requires IsHistory(worlds, events) && n <= |events|
    requires forall i :: 0 <= i < n ==> CanHappen(worlds[i], events[i]) && IsPlain(worlds[i], events[i])
    ensures InOrder(worlds[n].rows) && MadeByNow(worlds[n])
    decreases n
  {
    if n > 0 {
      PlainStaysInOrder(worlds, events, n - 1);
      PlainKeepsOrder(worlds[n - 1], events[n - 1]);
      EventKeepsOrder(worlds[n - 1], events[n - 1]);
    }
  }

  // Along every history in which each memory is superseded while its validity
  // is still open and by one that is not itself superseded, tombstones can be
  // collected by age at any moment and at any cutoff without stranding a
  // surviving row.
  lemma HistoriesCollectSafely(worlds: seq<World>, events: seq<Event>, n: nat)
    requires IsHistory(worlds, events) && n <= |events|
    requires forall i :: 0 <= i < n ==> CanHappen(worlds[i], events[i]) && IsPlain(worlds[i], events[i])
    ensures CollectsSafely(worlds[n].rows)
  {
    PlainStaysInOrder(worlds, events, n);
    InOrderIsSafe(worlds[n].rows);
  }

  // ---- One supersession of any table --------------------------------------

  ghost predicate IsForward(rows: Table, ns: string) {
    AgesForward(GraphOf(rows, ns), AgesOf(rows))
  }

  ghost predicate AllForward(rows: Table) {
    forall ns {:trigger IsForward(rows, ns)} :: IsForward(rows, ns)
  }

  lemma SafeIsForward(rows: Table)
    ensures CollectsSafely(rows) <==> AllForward(rows)
  {
    CollectionIsSafe(rows);
    if AllForward(rows) {
      forall ns
        ensures AgesForward(GraphOf(rows, ns), AgesOf(rows))
      {
        assert IsForward(rows, ns);
      }
    }
  }

  lemma ElsewhereForward(rows: Table, now: Table, ns: string)
    requires now.Keys == rows.Keys && forall x :: x in rows && rows[x].ns != ns ==> now[x] == rows[x]
    requires forall x :: x in rows ==> now[x].ns == rows[x].ns
    requires AllForward(rows)
    ensures AllForward(now) <==> IsForward(now, ns)
  {
    forall other
      ensures IsForward(now, other) || other == ns
    {
      assert IsForward(rows, other);
      assert other != ns ==> GraphOf(now, other) == GraphOf(rows, other);
    }
  }

  // The chains that come to the row run forward up to their last link.
  ghost predicate ForwardInto(g: Graph, time: Times, id: Id)
    requires g.Keys <= time.Keys
  {
    forall x {:trigger LeadsTo(g, x, id)} :: x in g && x != id && LeadsTo(g, x, id) && g[x] != Some(id) ==>
      g[x].Some? && (g[x].value in g ==> time[x] <= time[g[x].value])
  }

  // The row's own link runs forward, and those that point at it.
  ghost predicate ForwardAt(g: Graph, time: Times, id: Id, head: Id, date: Time)
    requires g.Keys <= time.Keys
  {
    && (forall x :: x in g && x != id && g[x] == Some(id) ==> time[x] <= date)
    && (head in g && g[head].Some? ==> date <= time[head])
  }

  lemma RelinkedBackward(g: Graph, time: Times, id: Id, head: Id, date: Time)
    requires g.Keys <= time.Keys && id in g
    requires AgesForward(g[id := Some(head)], time[id := date]) && Reaches(g[id := Some(head)], id)
    ensures ForwardAt(g, time, id, head, date) && ForwardInto(g, time, id)
  {
    var h, later := g[id := Some(head)], time[id := date];
    ReachesStep(h, id);
    assert head != id by {
      if head == id {
        forall n: nat
          ensures !ReachesIn(h, id, n)
        {
          Trapped(h, {id}, id, n);
        }
      }
    }
    forall x | x in g && x != id && LeadsTo(g, x, id)
      ensures Reaches(h, x) && h[x].Some? && (g[x].value in g ==> later[x] <= later[g[x].value])
    {
      LeadsStep(g, x, id);
      LinkedInto(g, h, id, x);
      LinkedInto(g, h, id, g[x].value);
    }
    forall x | x in g && x != id && g[x] == Some(id)
      ensures time[x] <= date
    {
      LeadsStep(g, x, id);
      LeadsStep(g, id, id);
    }
  }

  // What comes to the row came to it before; it has a live head if the row has.
  lemma LinkedInto(g: Graph, h: Graph, id: Id, x: Id)
    requires SameBut(g, h, id)
    ensures LeadsTo(g, x, id) <==> LeadsTo(h, x, id)
    ensures LeadsTo(h, x, id) ==> (Reaches(h, x) <==> Reaches(h, id))
    ensures LeadsTo(g, x, id) ==> (Reaches(g, x) <==> Reaches(g, id))
  {
    if n: nat :| Walk(g, x, n) == Some(id) {
      SameButLeads(g, h, id, x, n);
      WalkKeepsReach(g, x, n, id);
    }
    if n: nat :| Walk(h, x, n) == Some(id) {
      SameButLeads(h, g, id, x, n);
      WalkKeepsReach(h, x, n, id);
    }
  }

  // A row that has a live head afterwards had one before, or comes to the row.
  lemma RelinkedReach(g: Graph, h: Graph, id: Id, x: Id)
    requires SameBut(g, h, id) && Reaches(h, x)
    ensures Reaches(g, x) || (LeadsTo(g, x, id) && Reaches(h, id) && !Reaches(g, id))
  {
    var n: nat :| ReachesIn(h, x, n);
    SameButReaches(g, h, id, x, n);
    LinkedInto(g, h, id, x);
  }

  lemma RelinkedForward(g: Graph, time: Times, id: Id, head: Id, date: Time)
    requires g.Keys <= time.Keys && AgesForward(g, time) && id in g
    requires Reaches(g[id := Some(head)], id) ==>
      ForwardAt(g, time, id, head, date) && (Reaches(g, id) || ForwardInto(g, time, id))
    ensures AgesForward(g[id := Some(head)], time[id := date])
  {
    var h, later := g[id := Some(head)], time[id := date];
    forall x | x in h && Reaches(h, x) && h[x].Some? && h[x].value in h && h[h[x].value].Some?
      ensures later[x] <= later[h[x].value]
    {
      ReachesStep(h, x);
      RelinkedReach(g, h, id, x);
    }
  }

  lemma SupersedingForward(w: World, id: Id, head: Id)
    requires CanHappen(w, Supersede(id, head)) && IsForward(w.rows, w.rows[id].ns)
    ensures var ns, now := w.rows[id].ns, Apply(w, Supersede(id, head)).rows;
      var g, time := GraphOf(w.rows, ns), AgesOf(w.rows);
      IsForward(now, ns) <==> (Reaches(GraphOf(now, ns), id) ==>
        ForwardAt(g, time, id, head, DateOf(w, id)) && (Reaches(g, id) || ForwardInto(g, time, id)))
  {
    var ns, now := w.rows[id].ns, Apply(w, Supersede(id, head)).rows;
    var g, time := GraphOf(w.rows, ns), AgesOf(w.rows);
    assert GraphOf(now, ns) == g[id := Some(head)] && AgesOf(now) == time[id := DateOf(w, id)];
    if IsForward(now, ns) && Reaches(GraphOf(now, ns), id) {
      RelinkedBackward(g, time, id, head, DateOf(w, id));
    }
    if Reaches(GraphOf(now, ns), id) ==>
        ForwardAt(g, time, id, head, DateOf(w, id)) && (Reaches(g, id) || ForwardInto(g, time, id)) {
      RelinkedForward(g, time, id, head, DateOf(w, id));
    }
  }

  // One supersession, of any row by any head, leaves a table that was safe to
  // collect from safe exactly when the row then has no live head, or is dated
  // no earlier than the tombstones that point at it and no later than the one
  // it points at, and, unless it had a live head before, the chains that come
  // to it already ran forward.
  lemma SupersedingIsSafe(w: World, id: Id, head: Id)
    requires CanHappen(w, Supersede(id, head)) && CollectsSafely(w.rows)
    ensures var ns, now := w.rows[id].ns, Apply(w, Supersede(id, head)).rows;
      var g, time := GraphOf(w.rows, ns), AgesOf(w.rows);
      CollectsSafely(now) <==> (Reaches(GraphOf(now, ns), id) ==>
        ForwardAt(g, time, id, head, DateOf(w, id)) && (Reaches(g, id) || ForwardInto(g, time, id)))
  {
    var now := Apply(w, Supersede(id, head)).rows;
    SafeIsForward(w.rows);
    SafeIsForward(now);
    assert IsForward(w.rows, w.rows[id].ns);
    ElsewhereForward(w.rows, now, w.rows[id].ns);
    SupersedingForward(w, id, head);
  }

  // ---- Histories that strand a row ----------------------------------------

  // b was tombstoned before the row that points at it.
  lemma BackwardsStrands(rows: Table, ns: string, a: Id, b: Id, c: Id)
    requires a in rows && b in rows && c in rows && rows[a].ns == rows[b].ns == rows[c].ns == ns
    requires rows[a].supersededBy == Some(b) && rows[b].supersededBy == Some(c) && rows[c].supersededBy.None?
    requires TombstonedAt(rows[b]) < TombstonedAt(rows[a])
    ensures !CollectsSafely(rows)
  {
    var g := GraphOf(rows, ns);
    assert ReachesIn(g, c, 0) && ReachesIn(g, b, 1) && ReachesIn(g, a, 2);
    assert !AgesForward(g, AgesOf(rows));
    CollectionIsSafe(rows);
  }

  lemma ContradictedHistory(row: Row) returns (worlds: seq<World>, events: seq<Event>)
    requires row.supersededBy.None? && row.validTo.None?
    ensures IsHistory(worlds, events)
    ensures var late := worlds[|events|].rows; var b := AsContradicted(row, 0.1, 0);
      late == map["a" := AsSuperseded(row, "b", 1), "b" := AsSuperseded(b, "c", 1), "c" := row]
  {
    var b, super := AsContradicted(row, 0.1, 0), AsSuperseded(row, "b", 1);
    events := [Write("a", row), Write("b", row), Write("c", row), Contradict("b", 0.1), Tick(1),
               Supersede("a", "b"), Supersede("b", "c")];
    worlds := [World(map[], 0), World(map["a" := row], 0), World(map["a" := row, "b" := row], 0),
               World(map["a" := row, "b" := row, "c" := row], 0), World(map["a" := row, "b" := b, "c" := row], 0),
               World(map["a" := row, "b" := b, "c" := row], 1), World(map["a" := super, "b" := b, "c" := row], 1),
               World(map["a" := super, "b" := AsSuperseded(b, "c", 1), "c" := row], 1)];
    assert worlds[4] == Apply(worlds[3], events[3]);
    assert worlds[6] == Apply(worlds[5], events[5]);
    assert worlds[7] == Apply(worlds[6], events[6]);
  }

  // It can go wrong with a contradiction. A row marked contradicted at time 0
  // stays the live head of a row superseded at time 1; superseded itself it
  // keeps the earlier time, and a cutoff of 1 collects it from under the row
  // that points at it.
  lemma ContradictionStrands(row: Row) returns (worlds: seq<World>, events: seq<Event>)
    requires row.supersededBy.None? && row.validTo.None?
    ensures IsHistory(worlds, events)
    ensures !CollectsSafely(worlds[|events|].rows)
  {
    worlds, events := ContradictedHistory(row);
    BackwardsStrands(worlds[|events|].rows, row.ns, "a", "b", "c");
  }

  // It can go wrong with every end of validity open. A row superseded at time
  // 5 becomes, at time 10, the head of another; a cutoff between the two
  // collects it from under that one.
  lemma SupersededHeadStrands(row: Row) returns (worlds: seq<World>, events: seq<Event>)
    requires row.supersededBy.None? && row.validTo.None?
    ensures IsHistory(worlds, events)
    ensures forall i :: 0 <= i < |events| && events[i].Supersede? ==> worlds[i].rows[events[i].id].validTo.None?
    ensures var late := worlds[|events|].rows;
      late == map["h" := AsSuperseded(row, "k", 5), "k" := row, "x" := AsSuperseded(row, "h", 10)] &&
        !CollectsSafely(late)
  {
    var h, x := AsSuperseded(row, "k", 5), AsSuperseded(row, "h", 10);
    events := [Write("h", row), Write("k", row), Write("x", row), Tick(5), Supersede("h", "k"), Tick(5),
               Supersede("x", "h")];
    worlds := [World(map[], 0), World(map["h" := row], 0), World(map["h" := row, "k" := row], 0),
               World(map["h" := row, "k" := row, "x" := row], 0), World(map["h" := row, "k" := row, "x" := row], 5),
               World(map["h" := h, "k" := row, "x" := row], 5), World(map["h" := h, "k" := row, "x" := row], 10),
               World(map["h" := h, "k" := row, "x" := x], 10)];
    assert worlds[5] == Apply(worlds[4], events[4]);
    assert worlds[7] == Apply(worlds[6], events[6]);
    BackwardsStrands(worlds[7].rows, row.ns, "x", "h", "k");
  }

  // And without either. A memory written as valid until 100 is superseded by b
  // in a dedup at 5 and keeps that date; a dedup at 10 dates b at 10; a cutoff
  // between the two collects b from under it.
  lemma ExplicitEndStrands(row: Row)
    requires row.supersededBy.None? && row.validTo.None?
    ensures var was: Table := map["a" := row.(validTo := Some(100)), "b" := row, "c" := row];
      var first, second: Heads := map["a" := "b", "b" := "b"], map["b" := "c", "c" := "c"];
      var mid := Collapsed(was, first, 5);
      var now := Collapsed(mid, second, 10);
      && IsOutcome(was, mid, row.ns, false, 5, first, {}) && IsOutcome(mid, now, row.ns, false, 10, second, {})
      && !CollectsSafely(now)
  {
    var was: Table := map["a" := row.(validTo := Some(100)), "b" := row, "c" := row];
    var mid := Collapsed(was, map["a" := "b", "b" := "b"], 5);
    var now := Collapsed(mid, map["b" := "c", "c" := "c"], 10);
    OneLoser(was, row.ns, "a", "b", 5);
    OneLoser(mid, row.ns, "b", "c", 10);
    BackwardsStrands(now, row.ns, "a", "b", "c");
  }

  // A dedup that supersedes one row by another.
  lemma OneLoser(was: Table, ns: string, id: Id, k: Id, wall: Time)
    requires IsLiveIn(was, ns, id) && IsLiveIn(was, ns, k) && id != k
    ensures var head: Heads := map[id := k, k := k];
      && Collapsed(was, head, wall) == was[id := AsSuperseded(was[id], k, wall)]
      && IsOutcome(was, Collapsed(was, head, wall), ns, false, wall, head, {})
  {
    var head: Heads := map[id := k, k := k];
    assert AreHeads(was, ns, head);
    assert Collapsed(was, head, wall) - {} == Collapsed(was, head, wall);
  }
}
