// internal/maintenance/maintenance.go: purging expired memories while recalls
// slide their expiry, and capping short-term memories.
module Sweeper {
  import opened Common
  import opened Supersession
  import opened MemoryStore
  import opened Ranking

  const PURGE_BATCH: nat := 500

  // ---- Expiry -------------------------------------------------------------

  // What others do to the store during a pass.
  datatype Others = Others(deletes: nat -> set<Id>, slides: nat -> map<Id, Time>)

  ghost function Removed(removals: seq<Removal>): set<Id> {
    set i | 0 <= i < |removals| :: removals[i].id
  }

  // A deletion that was right when it was made: the row had slid to this
  // expiry by then, and was expired.
  ghost predicate IsDue(r: Removal, was: Table, others: Others, from: nat, to: nat, now: Time) {
    && from <= r.call < to && r.id in was
    && r.row == was[r.id].(expiresAt := SlidTo(others.slides, r.id, was[r.id].expiresAt, from, r.call + 1))
    && r.row.Expired(now)
  }

  // The table after these deletions: the rows that are left have slid as
  // recalls slid them, and each deletion was due when it was made.
  ghost predicate IsPurging(was: Table, rows: Table, others: Others, from: nat, to: nat, now: Time,
                            removals: seq<Removal>) {
    && from <= to
    && rows == SlideTo(was, others.slides, from, to) - (Gone(others.deletes, from, to) + Removed(removals))
    && (forall i {:trigger removals[i]} :: 0 <= i < |removals| ==> IsDue(removals[i], was, others, from, to, now))
    && (forall i, j :: 0 <= i < j < |removals| ==> removals[i].id != removals[j].id)
  }

  // The slides and deletions that come before a call.
  lemma PurgingFound(was: Table, rows: Table, others: Others, from: nat, at: nat, now: Time, removals: seq<Removal>)
    requires IsPurging(was, rows, others, from, at, now, removals)
    ensures IsPurging(was, Slide(rows - others.deletes(at), others.slides(at)), others, from, at + 1, now, removals)
    ensures ExpiredIds(Slide(rows - others.deletes(at), others.slides(at)), now) <= ExpiredIds(rows, now)
  {
    var found := Slide(rows - others.deletes(at), others.slides(at));
    var slid, gone := SlideTo(was, others.slides, from, at + 1), Gone(others.deletes, from, at + 1);
    forall id
      ensures id in found <==> id in slid && id !in gone + Removed(removals)
      ensures id in found ==> found[id] == slid[id]
    {
    }
    assert found == slid - (gone + Removed(removals));
  }

  lemma RemovedNext(removals: seq<Removal>, r: Removal)
    ensures Removed(removals + [r]) == Removed(removals) + {r.id}
    ensures forall i :: 0 <= i < |removals| ==> removals[i].id in Removed(removals)
  {
    var more := removals + [r];
    assert more[|removals|] == r && forall i :: 0 <= i < |removals| ==> more[i] == removals[i];
  }

  lemma DueNow(was: Table, rows: Table, others: Others, from: nat, to: nat, now: Time, removals: seq<Removal>, id: Id)
    requires from < to && IsPurging(was, rows, others, from, to, now, removals) && id in rows && rows[id].Expired(now)
    ensures IsDue(Removal(to - 1, id, rows[id]), was, others, from, to, now) && id !in Removed(removals)
  {
  }

  // One deletion of a row that is expired as the call finds it.
  lemma PurgingNext(was: Table, rows: Table, others: Others, from: nat, to: nat, now: Time, removals: seq<Removal>,
                    id: Id)
    requires from < to && IsPurging(was, rows, others, from, to, now, removals) && id in rows && rows[id].Expired(now)
    ensures IsPurging(was, rows - {id}, others, from, to, now, removals + [Removal(to - 1, id, rows[id])])
    ensures ExpiredIds(rows - {id}, now) <= ExpiredIds(rows, now) - {id}
  {
    var r, slid := Removal(to - 1, id, rows[id]), SlideTo(was, others.slides, from, to);
    var gone := Gone(others.deletes, from, to);
    DueNow(was, rows, others, from, to, now, removals, id);
    RemovedNext(removals, r);
    MinusJoin(slid, gone + Removed(removals), {id});
    assert gone + Removed(removals) + {id} == gone + Removed(removals + [r]);
  }

  ghost function OthersOf(st: Store): Others {
    Others(st.deletes, st.slides)
  }

  // What a call that may delete finds, and what it leaves.
  ghost predicate IsAttempt(found: Table, after: Table, at: nat, now: Time, ns: string, id: Id, r: Outcome,
                            more: seq<Removal>) {
    && (r == NotFound ==> !(id in found && found[id].ns == ns && found[id].Expired(now)))
    && if r == Done
       then id in found && found[id].Expired(now) && after == found - {id} && more == [Removal(at, id, found[id])]
       else after == found && more == []
  }

  lemma AttemptStep(was: Table, found: Table, after: Table, others: Others, from: nat, to: nat, now: Time,
                    removed: seq<Removal>, ns: string, id: Id, r: Outcome, more: seq<Removal>)
    requires from < to && IsPurging(was, found, others, from, to, now, removed) && id in was && was[id].ns == ns
    requires IsAttempt(found, after, to - 1, now, ns, id, r, more)
    ensures IsPurging(was, after, others, from, to, now, removed + more)
    ensures ExpiredIds(after, now) <= ExpiredIds(found, now) && (r != Failed ==> id !in ExpiredIds(after, now))
  {
    if r == Done {
      PurgingNext(was, found, others, from, to, now, removed, id);
    } else {
      assert removed + [] == removed;
      assert id in found ==> found[id].ns == was[id].ns;
    }
  }

  // One attempt to delete, by what the call answers.
  lemma PurgingStep(was: Table, before: Table, after: Table, others: Others, from: nat, at: nat, now: Time,
                    removed: seq<Removal>, ns: string, id: Id, r: Outcome, more: seq<Removal>)
    requires IsPurging(was, before, others, from, at, now, removed) && id in was && was[id].ns == ns
    requires IsAttempt(Slide(before - others.deletes(at), others.slides(at)), after, at, now, ns, id, r, more)
    ensures IsPurging(was, after, others, from, at + 1, now, removed + more)
    ensures ExpiredIds(after, now) <= ExpiredIds(before, now) && (r != Failed ==> id !in ExpiredIds(after, now))
  {
    PurgingFound(was, before, others, from, at, now, removed);
    AttemptStep(was, Slide(before - others.deletes(at), others.slides(at)), after, others, from, at + 1, now, removed,
                ns, id, r, more);
  }

  // Deletes one listed memory if it is expired still.
  method AttemptOne(st: Store, ns: string, id: Id, now: Time, ghost was: Table, ghost from: nat,
                    ghost removed: seq<Removal>)
    returns (r: Outcome, ghost more: seq<Removal>)
    requires IsPurging(was, st.rows, OthersOf(st), from, st.calls, now, removed) && id in was && was[id].ns == ns
    modifies st`rows, st`calls, st`removals
    ensures st.calls == old(st.calls) + 1 && (r == Failed ==> st.fails(old(st.calls)))
    ensures st.removals == old(st.removals) + more && |more| == if r == Done then 1 else 0
    ensures IsPurging(was, st.rows, OthersOf(st), from, st.calls, now, removed + more)
    ensures ExpiredIds(st.rows, now) <= old(ExpiredIds(st.rows, now))
    ensures r != Failed ==> id !in ExpiredIds(st.rows, now)
  {
    ghost var before, log := st.rows, st.removals;
    r := st.DeleteIfExpiredBefore(ns, id, now);
    more := st.removals[|log|..];
    PurgingStep(was, before, st.rows, OthersOf(st), from, old(st.calls), now, removed, ns, id, r, more);
  }

  lemma LoggedToo(log: seq<Removal>, removed: seq<Removal>, more: seq<Removal>)
    ensures log + removed + more == log + (removed + more)
  {
  }

  // One listed memory: afterwards it is gone or no longer expired.
  method PurgeOne(st: Store, ns: string, id: Id, now: Time, ghost was: Table, ghost from: nat,
                  ghost log: seq<Removal>, ghost removed0: seq<Removal>)
    returns (r: Outcome, ghost removed: seq<Removal>)
    requires IsPurging(was, st.rows, OthersOf(st), from, st.calls, now, removed0) && st.removals == log + removed0
    requires id in was && was[id].ns == ns
    modifies st`rows, st`calls, st`removals
    ensures st.calls == old(st.calls) + 1 && (r == Failed ==> st.fails(old(st.calls)))
    ensures IsPurging(was, st.rows, OthersOf(st), from, st.calls, now, removed) && st.removals == log + removed
    ensures |removed| == |removed0| + if r == Done then 1 else 0
    ensures ExpiredIds(st.rows, now) <= old(ExpiredIds(st.rows, now))
    ensures r != Failed ==> id !in ExpiredIds(st.rows, now)
  {
    ghost var more;
    r, more := AttemptOne(st, ns, id, now, was, from, removed0);
    removed := removed0 + more;
    LoggedToo(log, removed0, more);
  }

  // One round over a listed batch: afterwards none of the batch is expired.
  method PurgeBatch(st: Store, batch: seq<Mem>, now: Time, ghost was: Table, ghost from: nat, ghost log: seq<Removal>,
                    ghost removed0: seq<Removal>)
    returns (n: nat, err: Outcome, ghost removed: seq<Removal>)
    requires IsPurging(was, st.rows, OthersOf(st), from, st.calls, now, removed0) && st.removals == log + removed0
    requires forall i :: 0 <= i < |batch| ==> batch[i].id in was && was[batch[i].id].ns == batch[i].row.ns
    modifies st`rows, st`calls, st`removals
    ensures old(st.calls) <= st.calls && (err == Done || (err == Failed && st.FailedSince(old(st.calls))))
    ensures IsPurging(was, st.rows, OthersOf(st), from, st.calls, now, removed) && st.removals == log + removed
    ensures |removed| == |removed0| + n
    ensures ExpiredIds(st.rows, now) <= old(ExpiredIds(st.rows, now))
    ensures err == Done ==> Ids(batch) !! ExpiredIds(st.rows, now)
  {
    n, err, removed := 0, Done, removed0;
    for i := 0 to |batch|
      invariant old(st.calls) <= st.calls
      invariant IsPurging(was, st.rows, OthersOf(st), from, st.calls, now, removed) && st.removals == log + removed
      invariant |removed| == |removed0| + n
      invariant ExpiredIds(st.rows, now) <= old(ExpiredIds(st.rows, now)) && Ids(batch[..i]) !! ExpiredIds(st.rows, now)
    {
      var m := batch[i];
      IdsPrefix(batch, i);
      var e;
      e, removed := PurgeOne(st, m.row.ns, m.id, now, was, from, log, removed);
      if e != Done {
        if e != NotFound {
          return n, e, removed;
        }
        // already deleted, or its expiry slid past now: not counted
      } else {
        n := n + 1;
      }
    }
    assert batch[..|batch|] == batch;
  }

  // Lists a batch of expired memories.
  method ListBatch(st: Store, now: Time, ghost was: Table, ghost from: nat, ghost removed: seq<Removal>)
    returns (r: Result<seq<Mem>, Outcome>)
    requires IsPurging(was, st.rows, OthersOf(st), from, st.calls, now, removed)
    modifies st`rows, st`calls
    ensures st.calls == old(st.calls) + 1 && (r.Err? ==> r.error == Failed && st.fails(old(st.calls)))
    ensures IsPurging(was, st.rows, OthersOf(st), from, st.calls, now, removed)
    ensures ExpiredIds(st.rows, now) <= old(ExpiredIds(st.rows, now))
    ensures r.Ok? ==>
      && (forall i :: 0 <= i < |r.value| ==> r.value[i].id in was && was[r.value[i].id].ns == r.value[i].row.ns)
      && Ids(r.value) <= ExpiredIds(st.rows, now)
      && (|r.value| < PURGE_BATCH ==> Ids(r.value) == ExpiredIds(st.rows, now))
  {
    r := st.ListExpired(now, PURGE_BATCH);
  }

  // One round: either some expired memory is dealt with, or none is left.
  method PurgeRound(st: Store, now: Time, ghost was: Table, ghost from: nat, ghost log: seq<Removal>,
                    ghost removed0: seq<Removal>)
    returns (n: nat, last: bool, err: Outcome, ghost removed: seq<Removal>)
    requires IsPurging(was, st.rows, OthersOf(st), from, st.calls, now, removed0) && st.removals == log + removed0
    modifies st`rows, st`calls, st`removals
    ensures old(st.calls) < st.calls && (err == Done || (err == Failed && st.FailedSince(old(st.calls))))
    ensures IsPurging(was, st.rows, OthersOf(st), from, st.calls, now, removed) && st.removals == log + removed
    ensures |removed| == |removed0| + n
    ensures ExpiredIds(st.rows, now) <= old(ExpiredIds(st.rows, now))
    ensures err == Done ==> if last then ExpiredIds(st.rows, now) == {}
      else ExpiredIds(st.rows, now) < old(ExpiredIds(st.rows, now))
  {
    n, last, removed := 0, false, removed0;
    var r := ListBatch(st, now, was, from, removed);
    if r.Err? {
      return n, last, r.error, removed;
    }
    ghost var listed := ExpiredIds(st.rows, now);
    n, err, removed := PurgeBatch(st, r.value, now, was, from, log, removed);
    last := |r.value| < PURGE_BATCH;
    if err == Done {
      RoundShrinks(r.value, listed, ExpiredIds(st.rows, now), last);
    }
  }

  lemma RoundShrinks(batch: seq<Mem>, listed: set<Id>, left: set<Id>, last: bool)
    requires Ids(batch) !! left && left <= listed && (last ==> Ids(batch) == listed)
    requires !last ==> batch != [] && Ids(batch) <= listed
    ensures if last then left == {} else left < listed
  {
    if !last {
      assert batch[0].id in Ids(batch);
    }
  }

  // Deletes, and counts, only rows that are expired when their turn comes, and
  // if no error stops it leaves no expired row behind.
  method PurgeExpired(st: Store, now: Time) returns (total: nat, err: Outcome, ghost removed: seq<Removal>)
    modifies st`rows, st`calls, st`removals
    ensures old(st.calls) < st.calls && (err == Done || (err == Failed && st.FailedSince(old(st.calls))))
    ensures st.removals == old(st.removals) + removed && total == |removed|
    ensures IsPurging(old(st.rows), st.rows, OthersOf(st), old(st.calls), st.calls, now, removed)
    ensures err == Done ==> ExpiredIds(st.rows, now) == {}
  {
    ghost var was, from, log := st.rows, st.calls, st.removals;
    var n, last;
    n, last, err, removed := PurgeRound(st, now, was, from, log, []);
    total := n;
    while err == Done && !last
      invariant from < st.calls && total == |removed| && st.removals == log + removed
      invariant err == Done || (err == Failed && st.FailedSince(from))
      invariant IsPurging(was, st.rows, OthersOf(st), from, st.calls, now, removed)
      invariant err == Done && last ==> ExpiredIds(st.rows, now) == {}
      decreases ExpiredIds(st.rows, now), err == Done && !last
    {
      n, last, err, removed := PurgeRound(st, now, was, from, log, removed);
      total := total + n;
    }
  }

  // A row is left as recalls slid it, was deleted by others, or was due.
  lemma PurgedOrSlid(was: Table, rows: Table, others: Others, from: nat, to: nat, now: Time, removed: seq<Removal>,
                     id: Id)
    returns (call: nat)
    requires IsPurging(was, rows, others, from, to, now, removed) && id in was
    ensures id in rows ==> rows[id].expiresAt == SlidTo(others.slides, id, was[id].expiresAt, from, to)
    ensures id !in rows && id !in Gone(others.deletes, from, to) ==>
      && from <= call < to
      && was[id].(expiresAt := SlidTo(others.slides, id, was[id].expiresAt, from, call + 1)).Expired(now)
  {
    call := 0;
    if id in Removed(removed) {
      var i :| 0 <= i < |removed| && removed[i].id == id;
      assert IsDue(removed[i], was, others, from, to, now);
      call := removed[i].call;
    }
  }

  // A purge that meets no error leaves an expiring memory only if its expiry,
  // slid as it may be, is past `now`.
  lemma LeftIsSlid(was: Table, rows: Table, others: Others, from: nat, to: nat, now: Time, removed: seq<Removal>,
                   id: Id, expiry: Time)
    requires IsPurging(was, rows, others, from, to, now, removed) && ExpiredIds(rows, now) == {}
    requires id in was && was[id].expiresAt == Some(expiry)
    ensures var slid := SlidTo(others.slides, id, Some(expiry), from, to);
      slid.Some? && (id in rows ==> slid.value > now)
  {
    var _ := PurgedOrSlid(was, rows, others, from, to, now, removed, id);
    SlidStaysAhead(others.slides, id, Some(expiry), from, to, to);
    assert id in rows ==> id !in ExpiredIds(rows, now);
  }

  // A memory that is not expired to begin with goes only if others delete it.
  lemma FreshIsLeft(was: Table, rows: Table, others: Others, from: nat, to: nat, now: Time, removed: seq<Removal>,
                    id: Id)
    requires IsPurging(was, rows, others, from, to, now, removed) && id in was && !was[id].Expired(now)
    ensures id in rows || id in Gone(others.deletes, from, to)
  {
    var call := PurgedOrSlid(was, rows, others, from, to, now, removed, id);
    if id !in rows && id !in Gone(others.deletes, from, to) {
      SlidStaysAhead(others.slides, id, was[id].expiresAt, from, from, call + 1);
    }
  }

  // So a memory that a recall slid past `now` before its turn came survives,
  // unless others delete it.
  lemma SlidPastSurvives(was: Table, rows: Table, others: Others, from: nat, to: nat, now: Time,
                         removed: seq<Removal>, id: Id, at: nat)
    requires IsPurging(was, rows, others, from, to, now, removed)
    requires id in was && from <= at < to
    requires !was[id].(expiresAt := SlidTo(others.slides, id, was[id].expiresAt, from, at + 1)).Expired(now)
    requires forall r :: r in removed && r.id == id ==> r.call >= at
    ensures id in rows || id in Gone(others.deletes, from, to)
  {
    if id in Removed(removed) {
      var i :| 0 <= i < |removed| && removed[i].id == id;
      assert removed[i] in removed && IsDue(removed[i], was, others, from, to, now);
      SlidStaysAhead(others.slides, id, was[id].expiresAt, from, at + 1, removed[i].call + 1);
      assert false;
    }
  }

  // ---- The short-term cap -------------------------------------------------

  function ShortTermFilter(wall: Time): Filter {
    Filter({Working, Episodic}, false, false, wall)
  }

  ghost function ShortTerm(rows: Table, ns: string, wall: Time): set<Id> {
    set id | id in rows && Matches(rows[id], ns, ShortTermFilter(wall))
  }

  // Evicting `gone` from a namespace: as many as are over the cap, and no
  // evicted memory outranks one that stays.
  ghost predicate IsEviction(rows: Table, ns: string, cap: nat, wall: Time, score: Score, gone: set<Id>) {
    var all := ShortTerm(rows, ns, wall);
    && gone <= all
    && |gone| == Max(0, |all| - cap)
    && forall v, k :: v in gone && k in all - gone ==> score(rows[v]) <= score(rows[k])
  }

  ghost function InNamespace(rows: Table, ids: set<Id>, ns: string): set<Id> {
    set id | id in ids && id in rows && rows[id].ns == ns
  }

  // What may go even if an error stops the eviction half way.
  ghost predicate IsPartEviction(rows: Table, ns: string, cap: nat, wall: Time, score: Score, gone: set<Id>) {
    exists all :: gone <= all && IsEviction(rows, ns, cap, wall, score, all)
  }

  lemma SplitIds(sorted: seq<Mem>, n: nat)
    requires Distinct(sorted) && n <= |sorted|
    ensures Ids(sorted) == Ids(sorted[..n]) + Ids(sorted[n..])
    ensures |Ids(sorted[..n])| == n && Distinct(sorted[..n])
  {
    var low, high := sorted[..n], sorted[n..];
    DistinctIds(low);
    forall i | 0 <= i < |sorted|
      ensures sorted[i].id in Ids(low) + Ids(high)
    {
      if i < n {
        assert low[i] == sorted[i];
      } else {
        assert high[i - n] == sorted[i];
      }
    }
    assert forall i :: 0 <= i < |low| ==> low[i] == sorted[i];
    assert forall i :: 0 <= i < |high| ==> high[i] == sorted[n + i];
  }

  // The listed memories, sorted; and the ones that are over the cap.
  ghost predicate IsRanking(rows: Table, ns: string, wall: Time, score: Score, sorted: seq<Mem>) {
    && Distinct(sorted) && Ordered(ByLowScore(score), sorted)
    && Ids(sorted) == ShortTerm(rows, ns, wall)
    && forall i :: 0 <= i < |sorted| ==> sorted[i].id in rows && rows[sorted[i].id] == sorted[i].row
  }

  lemma SortedIsRanking(rows: Table, ns: string, wall: Time, score: Score, mems: seq<Mem>)
    requires IsListing(rows, ns, ShortTermFilter(wall), mems)
    ensures IsRanking(rows, ns, wall, score, SortStable(ByLowScore(score), mems))
    ensures |SortStable(ByLowScore(score), mems)| == |mems|
  {
    var sorted := SortStable(ByLowScore(score), mems);
    SortOrders(ByLowScore(score), mems);
    DistinctPermuted(mems, sorted);
    SamePermuted(mems, sorted);
    SameIds(mems, sorted);
    forall i | 0 <= i < |sorted|
      ensures sorted[i].id in rows && rows[sorted[i].id] == sorted[i].row
    {
      assert sorted[i] in mems;
    }
  }

  lemma LowestAreEvicted(rows: Table, ns: string, cap: nat, wall: Time, score: Score, sorted: seq<Mem>)
    requires IsRanking(rows, ns, wall, score, sorted) && |sorted| >= cap
    ensures IsEviction(rows, ns, cap, wall, score, Ids(sorted[..|sorted| - cap]))
    ensures var low := sorted[..|sorted| - cap];
      Distinct(low) && forall i :: 0 <= i < |low| ==> low[i].id in rows && rows[low[i].id].ns == ns
  {
    var n := |sorted| - cap;
    forall i | 0 <= i < n
      ensures sorted[i].id in rows && rows[sorted[i].id].ns == ns
    {
      assert sorted[i].id in Ids(sorted);
    }
    SplitIds(sorted, n);
    DistinctIds(sorted);
    RanksBelow(rows, ns, wall, score, sorted, n);
  }

  lemma RanksBelow(rows: Table, ns: string, wall: Time, score: Score, sorted: seq<Mem>, n: nat)
    requires IsRanking(rows, ns, wall, score, sorted) && n <= |sorted|
    ensures forall v, k :: v in Ids(sorted[..n]) && k in Ids(sorted) - Ids(sorted[..n]) ==>
      score(rows[v]) <= score(rows[k])
  {
    var low, high := sorted[..n], sorted[n..];
    SplitIds(sorted, n);
    forall v, k | v in Ids(low) && k in Ids(sorted) - Ids(low)
      ensures score(rows[v]) <= score(rows[k])
    {
      var i :| 0 <= i < |low| && low[i].id == v;
      var j :| 0 <= j < |high| && high[j].id == k;
      assert low[i] == sorted[i] && high[j] == sorted[n + j];
    }
  }

  // Part way through an eviction: the chosen rows are gone, this many of them
  // by this pass.
  ghost predicate IsEvicting(was: Table, rows: Table, gone: set<Id>, lost: set<Id>, n: nat, done: set<Id>) {
    rows == was - (gone + lost) && IsTally(n, done, gone, lost)
  }

  lemma NothingEvicted(was: Table, lost: set<Id>)
    ensures IsEvicting(was, was - lost, {}, lost, 0, {})
  {
    assert {} + lost == lost;
  }

  lemma EvictingFound(was: Table, rows: Table, gone: set<Id>, n: nat, done: set<Id>, deletes: nat -> set<Id>,
                      since: nat, at: nat)
    requires since <= at && IsEvicting(was, rows, gone, Gone(deletes, since, at), n, done)
    ensures IsEvicting(was, rows - deletes(at), gone, Gone(deletes, since, at + 1), n, done)
  {
    MinusJoin(was, gone + Gone(deletes, since, at), deletes(at));
    assert gone + Gone(deletes, since, at) + deletes(at) == gone + Gone(deletes, since, at + 1);
  }

  // Deletes one of the chosen memories; one that is gone already is passed
  // over.
  method DeleteOne(st: Store, ns: string, id: Id, n0: nat, ghost was: Table, ghost gone: set<Id>,
                   ghost done0: set<Id>, ghost since: nat)
    returns (n: nat, err: Outcome, ghost done: set<Id>)
    requires since <= st.calls && IsEvicting(was, st.rows, gone, st.Lost(since), n0, done0)
    requires id in was && was[id].ns == ns && id !in gone
    modifies st`rows, st`calls, st`removals
    ensures st.calls == old(st.calls) + 1 && (err == Done || (err == Failed && st.fails(old(st.calls))))
    ensures IsEvicting(was, st.rows, if err == Done then gone + {id} else gone, st.Lost(since), n, done)
    ensures |st.removals| - n == |old(st.removals)| - n0
  {
    EvictingFound(was, st.rows, gone, n0, done0, st.deletes, since, st.calls);
    var e := st.Delete(ns, id);
    if e != Done {
      if e != NotFound {
        return n0, e, done0;
      }
      return n0, Done, done0;
    }
    return n0 + 1, Done, done0 + {id};
  }

  method DeleteAll(st: Store, ns: string, mems: seq<Mem>, ghost was: Table, ghost since: nat)
    returns (n: nat, err: Outcome, ghost gone: set<Id>, ghost done: set<Id>)
    requires since <= st.calls && st.rows == was - st.Lost(since)
    requires Distinct(mems) && forall i :: 0 <= i < |mems| ==> mems[i].id in was && was[mems[i].id].ns == ns
    modifies st`rows, st`calls, st`removals
    ensures old(st.calls) <= st.calls && (err == Done || (err == Failed && st.FailedSince(old(st.calls))))
    ensures IsEvicting(was, st.rows, gone, st.Lost(since), n, done)
    ensures gone <= Ids(mems) && (err == Done ==> gone == Ids(mems))
    ensures |st.removals| == |old(st.removals)| + n
  {
    n, err, gone, done := 0, Done, {}, {};
    NothingEvicted(was, st.Lost(since));
    for i := 0 to |mems|
      invariant old(st.calls) <= st.calls && gone == Ids(mems[..i]) && err == Done
      invariant IsEvicting(was, st.rows, gone, st.Lost(since), n, done)
      invariant |st.removals| == |old(st.removals)| + n
    {
      IdsPrefix(mems, i);
      n, err, done := DeleteOne(st, ns, mems[i].id, n, was, gone, done, since);
      if err != Done {
        return;
      }
      gone := gone + {mems[i].id};
    }
    assert mems[..|mems|] == mems;
  }

  // A namespace evicted from, in whole or until an error.
  ghost predicate IsEvicted(seen: Table, rows: Table, ns: string, cap: nat, wall: Time, score: Score,
                            gone: set<Id>, lost: set<Id>, n: nat, done: set<Id>, whole: bool) {
    && IsEvicting(seen, rows, gone, lost, n, done)
    && (whole ==> IsEviction(seen, ns, cap, wall, score, gone))
    && (gone == {} || IsPartEviction(seen, ns, cap, wall, score, gone))
  }

  // Evicts from one namespace, as it lists it with its first call.
  method CapNamespace(st: Store, ns: string, cap: nat, score: Score)
    returns (n: nat, err: Outcome, ghost gone: set<Id>, ghost done: set<Id>)
    modifies st`rows, st`calls, st`removals
    ensures old(st.calls) < st.calls && (err == Done || (err == Failed && st.FailedSince(old(st.calls))))
    ensures IsEvicted(old(st.rows) - st.deletes(old(st.calls)), st.rows, ns, cap, st.wall, score,
                      gone, st.Lost(old(st.calls) + 1), n, done, err == Done)
    ensures |st.removals| == |old(st.removals)| + n
  {
    var r := st.List(ns, ShortTermFilter(st.wall));
    ghost var seen, since := st.rows, st.calls;
    FoundAt(seen, st.deletes, since, since);
    NothingEvicted(seen, {});
    if r.Err? {
      return 0, Failed, {}, {};
    }
    var mems := r.value;
    SortedIsRanking(seen, ns, st.wall, score, mems);
    var sorted := SortStable(ByLowScore(score), mems);
    DistinctIds(sorted);
    if |mems| <= cap {
      return 0, Done, {}, {};
    }
    LowestAreEvicted(seen, ns, cap, st.wall, score, sorted);
    n, err, gone, done := DeleteAll(st, ns, sorted[..|sorted| - cap], seen, since);
  }

  // ---- All namespaces -----------------------------------------------------

  // Namespaces are evicted from independently of one another.
  lemma EvictionElsewhere(seen: Table, gone: set<Id>, ns: string, cap: nat, wall: Time, score: Score, more: set<Id>)
    requires InNamespace(seen, gone, ns) == {}
    requires IsEviction(seen - gone, ns, cap, wall, score, more)
    ensures IsEviction(seen, ns, cap, wall, score, more)
    ensures more !! gone && more <= seen.Keys && InNamespace(seen, more, ns) == more
  {
    forall id | id in seen && seen[id].ns == ns
      ensures id !in gone
    {
      assert id in gone ==> id in InNamespace(seen, gone, ns);
    }
    assert ShortTerm(seen - gone, ns, wall) == ShortTerm(seen, ns, wall);
  }

  lemma InNamespaceUnion(was: Table, gone: set<Id>, more: set<Id>, ns: string, here: string)
    requires InNamespace(was, more, here) == more
    ensures InNamespace(was, gone + more, ns) == InNamespace(was, gone, ns) + if ns == here then more else {}
  {
  }

  // What a pass does between two calls: the table it began with, what others
  // delete, and when it listed each namespace.
  datatype Sweep = Sweep(was: Table, deletes: nat -> set<Id>, since: nat, at: map<string, nat>)

  // A namespace as the pass listed it; one it did not list held no rows when
  // the namespaces were listed.
  ghost function Seen(w: Sweep, ns: string): Table {
    w.was - Gone(w.deletes, w.since, 1 + if ns in w.at then w.at[ns] else w.since)
  }

  ghost predicate IsCappedAt(w: Sweep, gone: set<Id>, ns: string, cap: nat, wall: Time, score: Score) {
    if ns in w.at then IsEviction(Seen(w, ns), ns, cap, wall, score, InNamespace(w.was, gone, ns))
    else InNamespace(w.was, gone, ns) == {}
  }

  ghost predicate IsPartlyCappedAt(w: Sweep, gone: set<Id>, ns: string, cap: nat, wall: Time, score: Score) {
    var here := InNamespace(w.was, gone, ns);
    here == {} || IsPartEviction(Seen(w, ns), ns, cap, wall, score, here)
  }

  // The namespaces listed so far are capped, the others untouched.
  ghost predicate IsCapped(w: Sweep, gone: set<Id>, cap: nat, wall: Time, score: Score) {
    && gone <= w.was.Keys
    && forall ns {:trigger IsCappedAt(w, gone, ns, cap, wall, score)} :: IsCappedAt(w, gone, ns, cap, wall, score)
  }

  // What went of each namespace, even if an error stopped it, is part of an
  // eviction.
  ghost predicate IsPartlyCapped(w: Sweep, gone: set<Id>, cap: nat, wall: Time, score: Score) {
    forall ns {:trigger IsPartlyCappedAt(w, gone, ns, cap, wall, score)} ::
      IsPartlyCappedAt(w, gone, ns, cap, wall, score)
  }

  lemma NothingCapped(w: Sweep, cap: nat, wall: Time, score: Score)
    requires w.at == map[]
    ensures IsCapped(w, {}, cap, wall, score) && IsPartlyCapped(w, {}, cap, wall, score)
  {
    forall ns
      ensures IsCappedAt(w, {}, ns, cap, wall, score) && IsPartlyCappedAt(w, {}, ns, cap, wall, score)
    {
      assert InNamespace(w.was, {}, ns) == {};
    }
  }

  lemma CapHere(w: Sweep, gone: set<Id>, here: string, at: nat, more: set<Id>, all: set<Id>, cap: nat, wall: Time,
                score: Score)
    requires IsCapped(w, gone, cap, wall, score) && here !in w.at && w.since <= at && more <= all
    requires IsEviction(w.was - (gone + Gone(w.deletes, w.since, at + 1)), here, cap, wall, score, all)
    ensures more !! gone && gone + more <= w.was.Keys && InNamespace(w.was, more, here) == more
    ensures IsEviction(w.was - Gone(w.deletes, w.since, at + 1), here, cap, wall, score, all)
  {
    var seen := w.was - Gone(w.deletes, w.since, at + 1);
    assert IsCappedAt(w, gone, here, cap, wall, score);
    MinusJoin(w.was, Gone(w.deletes, w.since, at + 1), gone);
    assert Gone(w.deletes, w.since, at + 1) + gone == gone + Gone(w.deletes, w.since, at + 1);
    assert InNamespace(seen, gone, here) <= InNamespace(w.was, gone, here);
    EvictionElsewhere(seen, gone, here, cap, wall, score, all);
    assert forall id :: id in more ==> id in InNamespace(seen, all, here);
  }

  // One more namespace, listed at the call numbered `at`.
  lemma CapNext(w: Sweep, gone: set<Id>, here: string, at: nat, more: set<Id>, whole: bool, cap: nat, wall: Time,
                score: Score)
    requires IsCapped(w, gone, cap, wall, score) && here !in w.at && w.since <= at
    requires var found := w.was - (gone + Gone(w.deletes, w.since, at + 1));
      if whole then IsEviction(found, here, cap, wall, score, more)
        else more == {} || IsPartEviction(found, here, cap, wall, score, more)
    ensures more !! gone && gone + more <= w.was.Keys
    ensures IsPartlyCapped(w.(at := w.at[here := at]), gone + more, cap, wall, score)
    ensures whole ==> IsCapped(w.(at := w.at[here := at]), gone + more, cap, wall, score)
  {
    var next, found := w.(at := w.at[here := at]), w.was - (gone + Gone(w.deletes, w.since, at + 1));
    if whole {
      CapHere(w, gone, here, at, more, more, cap, wall, score);
    } else if more != {} {
      var all :| more <= all && IsEviction(found, here, cap, wall, score, all);
      CapHere(w, gone, here, at, more, all, cap, wall, score);
    }
    assert InNamespace(w.was, more, here) == more;
    forall ns
      ensures IsPartlyCappedAt(next, gone + more, ns, cap, wall, score)
      ensures whole ==> IsCappedAt(next, gone + more, ns, cap, wall, score)
    {
      assert IsCappedAt(w, gone, ns, cap, wall, score);
      if ns == here {
        OnlyHere(w.was, gone, more, here);
      } else {
        CappedElsewhere(w, gone, here, at, more, ns, cap, wall, score);
      }
    }
  }

  lemma OnlyHere(was: Table, gone: set<Id>, more: set<Id>, here: string)
    requires InNamespace(was, gone, here) == {} && InNamespace(was, more, here) == more
    ensures InNamespace(was, gone + more, here) == more
  {
    InNamespaceUnion(was, gone, more, here, here);
  }

  lemma CappedElsewhere(w: Sweep, gone: set<Id>, here: string, at: nat, more: set<Id>, ns: string, cap: nat,
                        wall: Time, score: Score)
    requires IsCappedAt(w, gone, ns, cap, wall, score) && ns != here && InNamespace(w.was, more, here) == more
    ensures IsCappedAt(w.(at := w.at[here := at]), gone + more, ns, cap, wall, score)
    ensures IsPartlyCappedAt(w.(at := w.at[here := at]), gone + more, ns, cap, wall, score)
  {
    InNamespaceUnion(w.was, gone, more, ns, here);
    assert InNamespace(w.was, gone, ns) + {} == InNamespace(w.was, gone, ns);
    CappedPart(w.(at := w.at[here := at]), gone + more, ns, cap, wall, score);
  }

  lemma CappedPart(w: Sweep, gone: set<Id>, ns: string, cap: nat, wall: Time, score: Score)
    requires IsCappedAt(w, gone, ns, cap, wall, score)
    ensures IsPartlyCappedAt(w, gone, ns, cap, wall, score)
  {
    if ns in w.at {
      var here := InNamespace(w.was, gone, ns);
      assert here <= here && IsEviction(Seen(w, ns), ns, cap, wall, score, here);
    }
  }

  lemma EvictedToo(was: Table, rows: Table, gone: set<Id>, lost: set<Id>, n: nat, done: set<Id>,
                   now: Table, more: set<Id>, late: set<Id>, m: nat, moreDone: set<Id>)
    requires IsEvicting(was, rows, gone, lost, n, done) && IsEvicting(rows, now, more, late, m, moreDone)
    requires more !! gone
    ensures IsEvicting(was, now, gone + more, lost + late, n + m, done + moreDone)
  {
    TallyJoin(n, done, gone, lost, m, moreDone, more, lost + late);
    MinusJoin(was, gone + lost, more + late);
    assert gone + lost + (more + late) == gone + more + (lost + late);
  }

  lemma SweepStep(w: Sweep, found: Table, gone: set<Id>, total: nat, done: set<Id>, at: nat,
                  now: Table, here: string, more: set<Id>, n: nat, moreDone: set<Id>, whole: bool, to: nat, cap: nat,
                  wall: Time, score: Score)
    requires w.since <= at < to && here !in w.at && IsCapped(w, gone, cap, wall, score)
    requires IsEvicting(w.was, found, gone, Gone(w.deletes, w.since, at + 1), total, done)
    requires IsEvicted(found, now, here, cap, wall, score, more, Gone(w.deletes, at + 1, to), n, moreDone, whole)
    ensures IsEvicting(w.was, now, gone + more, Gone(w.deletes, w.since, to), total + n, done + moreDone)
    ensures IsPartlyCapped(w.(at := w.at[here := at]), gone + more, cap, wall, score)
    ensures whole ==> IsCapped(w.(at := w.at[here := at]), gone + more, cap, wall, score)
  {
    CapNext(w, gone, here, at, more, whole, cap, wall, score);
    GoneJoin(w.deletes, w.since, at + 1, to);
    EvictedToo(w.was, found, gone, Gone(w.deletes, w.since, at + 1), total, done, now, more,
               Gone(w.deletes, at + 1, to), n, moreDone);
  }

  // One more namespace of the sweep.
  method SweepNext(st: Store, ns: string, cap: nat, score: Score, total0: nat, ghost w: Sweep, ghost gone0: set<Id>,
                   ghost done0: set<Id>)
    returns (total: nat, err: Outcome, ghost gone: set<Id>, ghost done: set<Id>)
    requires w.since <= st.calls && w.deletes == st.deletes && ns !in w.at
    requires IsEvicting(w.was, st.rows, gone0, st.Lost(w.since), total0, done0)
    requires IsCapped(w, gone0, cap, st.wall, score)
    modifies st`rows, st`calls, st`removals
    ensures old(st.calls) < st.calls && (err == Done || (err == Failed && st.FailedSince(old(st.calls))))
    ensures IsEvicting(w.was, st.rows, gone, st.Lost(w.since), total, done)
    ensures |st.removals| - total == |old(st.removals)| - total0
    ensures IsPartlyCapped(w.(at := w.at[ns := old(st.calls)]), gone, cap, st.wall, score)
    ensures err == Done ==> IsCapped(w.(at := w.at[ns := old(st.calls)]), gone, cap, st.wall, score)
  {
    ghost var at, found := st.calls, st.rows - st.deletes(st.calls);
    EvictingFound(w.was, st.rows, gone0, total0, done0, st.deletes, w.since, at);
    var n;
    ghost var more, moreDone;
    n, err, more, moreDone := CapNamespace(st, ns, cap, score);
    SweepStep(w, found, gone0, total0, done0, at, st.rows, ns, more, n, moreDone, err == Done, st.calls, cap, st.wall,
              score);
    total, gone, done := total0 + n, gone0 + more, done0 + moreDone;
  }

  // When the namespaces so far were listed: at calls of the pass itself.
  ghost predicate IsTimed(w: Sweep, to: nat) {
    forall ns :: ns in w.at ==> w.since < w.at[ns] < to
  }

  method SweepAll(st: Store, namespaces: seq<string>, cap: nat, score: Score, ghost w0: Sweep)
    returns (total: nat, err: Outcome, ghost w: Sweep, ghost gone: set<Id>, ghost done: set<Id>)
    requires Unique(namespaces) && w0 == Sweep(w0.was, st.deletes, w0.since, map[]) && w0.since < st.calls
    requires st.rows == w0.was - st.Lost(w0.since)
    modifies st`rows, st`calls, st`removals
    ensures old(st.calls) <= st.calls && (err == Done || (err == Failed && st.FailedSince(old(st.calls))))
    ensures w == w0.(at := w.at) && IsTimed(w, st.calls)
    ensures IsEvicting(w.was, st.rows, gone, st.Lost(w.since), total, done)
    ensures |st.removals| == |old(st.removals)| + total
    ensures IsPartlyCapped(w, gone, cap, st.wall, score)
    ensures err == Done ==> IsCapped(w, gone, cap, st.wall, score) && forall ns :: ns in w.at <==> ns in namespaces
  {
    w := w0;
    total, err, gone, done := 0, Done, {}, {};
    NothingCapped(w, cap, st.wall, score);
    NothingEvicted(w.was, st.Lost(w.since));
    for i := 0 to |namespaces|
      invariant old(st.calls) <= st.calls && err == Done && w == w0.(at := w.at) && IsTimed(w, st.calls)
      invariant IsEvicting(w.was, st.rows, gone, st.Lost(w.since), total, done)
      invariant |st.removals| == |old(st.removals)| + total
      invariant IsCapped(w, gone, cap, st.wall, score) && IsPartlyCapped(w, gone, cap, st.wall, score)
      invariant forall ns :: ns in w.at <==> ns in namespaces[..i]
    {
      ghost var at := st.calls;
      assert namespaces[i] !in namespaces[..i] && namespaces[..i + 1] == namespaces[..i] + [namespaces[i]];
      total, err, gone, done := SweepNext(st, namespaces[i], cap, score, total, w, gone, done);
      w := w.(at := w.at[namespaces[i] := at]);
      if err != Done {
        return;
      }
    }
    assert namespaces[..|namespaces|] == namespaces;
  }

  // A live working or episodic memory that has not expired.
  ghost predicate IsPassing(row: Row, ns: string, wall: Time) {
    && row.ns == ns && (row.tier == Working || row.tier == Episodic)
    && (row.expiresAt.Some? ==> row.expiresAt.value > wall)
    && row.supersededBy.None? && (row.validTo.Some? ==> row.validTo.value > wall)
  }

  ghost function Passing(rows: Table, ns: string, wall: Time): set<Id> {
    set id | id in rows && IsPassing(rows[id], ns, wall)
  }

  lemma ShortTermIsPassing(rows: Table, ns: string, wall: Time)
    ensures ShortTerm(rows, ns, wall) == Passing(rows, ns, wall)
  {
  }

  // A row that the pass lost, though others did not delete it.
  ghost predicate IsTaken(was: Table, rows: Table, lost: set<Id>, id: Id) {
    id in was && id !in rows && id !in lost
  }

  // No durable, expired or superseded memory is evicted.
  lemma OnlyPassingAreTaken(w: Sweep, rows: Table, gone: set<Id>, lost: set<Id>, n: nat, done: set<Id>, cap: nat,
                            wall: Time, score: Score, id: Id)
    requires IsEvicting(w.was, rows, gone, lost, n, done) && IsPartlyCapped(w, gone, cap, wall, score)
    requires IsTaken(w.was, rows, lost, id)
    ensures IsPassing(w.was[id], w.was[id].ns, wall)
  {
    var ns := w.was[id].ns;
    assert IsPartlyCappedAt(w, gone, ns, cap, wall, score) && id in InNamespace(w.was, gone, ns);
    var all :| InNamespace(w.was, gone, ns) <= all && IsEviction(Seen(w, ns), ns, cap, wall, score, all);
    assert id in ShortTerm(Seen(w, ns), ns, wall);
  }

  lemma EvictionLeavesCap(rows: Table, ns: string, cap: nat, wall: Time, score: Score, gone: set<Id>)
    requires IsEviction(rows, ns, cap, wall, score, gone)
    ensures |ShortTerm(rows, ns, wall) - gone| <= cap
  {
  }

  lemma FewerStay(some: set<Id>, all: set<Id>)
    requires some <= all
    ensures |some| <= |all|
  {
    if some != {} {
      var id :| id in some;
      FewerStay(some - {id}, all - {id});
    }
  }

  // No more than `cap` working and episodic memories of a namespace stay.
  lemma CapIsKept(w: Sweep, rows: Table, gone: set<Id>, to: nat, n: nat, done: set<Id>, cap: nat, wall: Time,
                  score: Score, ns: string)
    requires w.since < to && IsTimed(w, to)
    requires IsEvicting(w.was, rows, gone, Gone(w.deletes, w.since, to), n, done)
    requires IsEviction(Seen(w, ns), ns, cap, wall, score, InNamespace(w.was, gone, ns))
    ensures |Passing(rows, ns, wall)| <= cap
  {
    var seen, here := Seen(w, ns), InNamespace(w.was, gone, ns);
    var at := 1 + if ns in w.at then w.at[ns] else w.since;
    GoneJoin(w.deletes, w.since, at, to);
    EvictionLeavesCap(seen, ns, cap, wall, score, here);
    ShortTermIsPassing(rows, ns, wall);
    forall id | id in ShortTerm(rows, ns, wall)
      ensures id in ShortTerm(seen, ns, wall) - here
    {
      assert id in seen && seen[id] == rows[id];
    }
    FewerStay(ShortTerm(rows, ns, wall), ShortTerm(seen, ns, wall) - here);
  }

  // Evicts the lowest-ranked short-term memories of every namespace that holds
  // more than `cap` of them when it is listed, and touches nothing else: what
  // it takes is live working and episodic memories, and no more than `cap` of
  // those stay anywhere.
  method EnforceShortTermCap(st: Store, cap: int, score: Score)
    returns (total: nat, err: Outcome, ghost w: Sweep, ghost gone: set<Id>, ghost done: set<Id>)
    modifies st`rows, st`calls, st`removals
    ensures old(st.calls) <= st.calls && (err == Done || (err == Failed && st.FailedSince(old(st.calls))))
    ensures w == Sweep(old(st.rows), st.deletes, old(st.calls), w.at) && IsTimed(w, st.calls)
    ensures IsEvicting(old(st.rows), st.rows, gone, st.Lost(old(st.calls)), total, done)
    ensures |st.removals| == |old(st.removals)| + total
    ensures cap <= 0 ==> gone == {} && st.calls == old(st.calls) && err == Done
    ensures cap > 0 ==> IsPartlyCapped(w, gone, cap, st.wall, score)
    ensures cap > 0 && err == Done ==> forall ns ::
      IsEviction(Seen(w, ns), ns, cap, st.wall, score, InNamespace(old(st.rows), gone, ns))
    ensures forall id {:trigger IsTaken(old(st.rows), st.rows, st.Lost(old(st.calls)), id)} ::
      IsTaken(old(st.rows), st.rows, st.Lost(old(st.calls)), id) ==>
        cap > 0 && IsPassing(old(st.rows)[id], old(st.rows)[id].ns, st.wall)
    ensures cap > 0 && err == Done ==> forall ns :: |Passing(st.rows, ns, st.wall)| <= cap
  {
    w := Sweep(st.rows, st.deletes, st.calls, map[]);
    total, err, gone, done := 0, Done, {}, {};
    FoundAt(w.was, st.deletes, w.since, w.since);
    NothingEvicted(w.was, {});
    if cap <= 0 {
      return;
    }
    NothingCapped(w, cap, st.wall, score);
    NothingEvicted(w.was, Gone(st.deletes, w.since, w.since + 1));
    var r := st.ListNamespaces();
    if r.Err? {
      return total, Failed, w, gone, done;
    }
    ghost var first := st.rows;
    total, err, w, gone, done := SweepAll(st, r.value, cap, score, w);
    forall id | IsTaken(w.was, st.rows, st.Lost(w.since), id)
      ensures IsPassing(w.was[id], w.was[id].ns, st.wall)
    {
      OnlyPassingAreTaken(w, st.rows, gone, st.Lost(w.since), total, done, cap, st.wall, score, id);
    }
    if err == Done {
      AllCapped(w, first, gone, cap, st.wall, score, r.value);
      forall ns
        ensures |Passing(st.rows, ns, st.wall)| <= cap
      {
        CapIsKept(w, st.rows, gone, st.calls, total, done, cap, st.wall, score, ns);
      }
    }
  }

  // The namespaces that were not listed held nothing to evict.
  lemma AllCapped(w: Sweep, first: Table, gone: set<Id>, cap: nat, wall: Time, score: Score, namespaces: seq<string>)
    requires IsCapped(w, gone, cap, wall, score) && forall ns :: ns in w.at <==> ns in namespaces
    requires first == w.was - Gone(w.deletes, w.since, w.since + 1)
    requires forall id :: id in first ==> first[id].ns in namespaces
    ensures IsPartlyCapped(w, gone, cap, wall, score)
    ensures forall ns :: IsEviction(Seen(w, ns), ns, cap, wall, score, InNamespace(w.was, gone, ns))
  {
    forall ns
      ensures IsPartlyCappedAt(w, gone, ns, cap, wall, score)
      ensures IsEviction(Seen(w, ns), ns, cap, wall, score, InNamespace(w.was, gone, ns))
    {
      assert IsCappedAt(w, gone, ns, cap, wall, score);
      CappedPart(w, gone, ns, cap, wall, score);
      if ns !in w.at {
        assert ShortTerm(first, ns, wall) == {};
      }
    }
  }
}
