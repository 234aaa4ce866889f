// internal/store: the storage contract the maintenance passes work against,
// over a table in memory. Ids are unique across namespaces.
module MemoryStore {
  import opened Common
  import opened Supersession

  // Nanoseconds on the wall clock.
  type Time = int

  datatype Tier = Working | Episodic | Semantic | Procedural {
    predicate IsLongTerm() {
      this == Semantic || this == Procedural
    }
  }

  const HOUR := 3_600_000_000_000

  // A tier's time to live; zero never expires.
  function DefaultTTL(t: Tier): Time {
    match t
    case Working => 72 * HOUR
    case Episodic => 30 * 24 * HOUR
    case Semantic => 0
    case Procedural => 0
  }

  // A metadata value: a string, or anything else JSON can hold.
  datatype Meta = Text(text: string) | Other

  datatype Row = Row(
    ns: string,
    tier: Tier,
    content: string,
    metadata: map<string, Meta>,
    tags: seq<string>,
    importance: real,
    createdAt: Time,
    updatedAt: Time,
    accessedAt: Time,
    accessCount: nat,
    expiresAt: Option<Time>,
    supersededBy: Option<Id>,
    validTo: Option<Time>,
    confidence: Option<real>)
  {
    predicate Expired(now: Time) {
      expiresAt.Some? && expiresAt.value <= now
    }
  }

  type Table = map<Id, Row>

  datatype Mem = Mem(id: Id, row: Row)

  // No tiers means every tier.
  datatype Filter = Filter(tiers: set<Tier>, includeExpired: bool, includeSuperseded: bool, now: Time)

  predicate Matches(row: Row, ns: string, f: Filter) {
    && row.ns == ns
    && (f.tiers == {} || row.tier in f.tiers)
    && (f.includeExpired || !row.Expired(f.now))
    && (f.includeSuperseded || (row.supersededBy.None? && (row.validTo.Some? ==> row.validTo.value > f.now)))
  }

  ghost predicate Unique<T>(s: seq<T>) {
    forall i, j :: 0 <= i < j < |s| ==> s[i] != s[j]
  }

  ghost predicate Distinct(mems: seq<Mem>) {
    forall i, j :: 0 <= i < j < |mems| ==> mems[i].id != mems[j].id
  }

  ghost function Ids(mems: seq<Mem>): set<Id> {
    set i | 0 <= i < |mems| :: mems[i].id
  }

  lemma IdsAppend(mems: seq<Mem>, m: Mem)
    ensures Ids(mems + [m]) == Ids(mems) + {m.id}
  {
    var all := mems + [m];
    assert all[|mems|] == m;
    assert forall i :: 0 <= i < |mems| ==> all[i] == mems[i];
  }

  lemma IdsPrefix(mems: seq<Mem>, i: nat)
    requires i < |mems|
    ensures Ids(mems[..i + 1]) == Ids(mems[..i]) + {mems[i].id}
    ensures Distinct(mems) ==> mems[i].id !in Ids(mems[..i])
    ensures mems[..|mems|] == mems
  {
    assert mems[..i + 1] == mems[..i] + [mems[i]];
    IdsAppend(mems[..i], mems[i]);
  }

  // mems lists the matching rows, each once, in some order.
  ghost predicate IsListing(rows: Table, ns: string, f: Filter, mems: seq<Mem>) {
    && Distinct(mems)
    && (forall i :: 0 <= i < |mems| ==>
          mems[i].id in rows && rows[mems[i].id] == mems[i].row && Matches(mems[i].row, ns, f))
    && (forall id :: id in rows && Matches(rows[id], ns, f) ==> id in Ids(mems))
  }

  // The memories of one namespace as a supersession graph.
  ghost function GraphOf(rows: Table, ns: string): Graph {
    map id | id in rows && rows[id].ns == ns :: rows[id].supersededBy
  }

  // When a row was tombstoned; legacy rows without validTo fall back on their
  // last update.
  function TombstonedAt(row: Row): Time {
    if row.validTo.Some? then row.validTo.value else row.updatedAt
  }

  function AsSuperseded(row: Row, head: Id, now: Time): Row {
    row.(supersededBy := Some(head), validTo := if row.validTo.Some? then row.validTo else Some(now))
  }

  function AsRestored(row: Row): Row {
    row.(supersededBy := None, validTo := None)
  }

  // ---- What others do meanwhile -------------------------------------------

  // Everything others delete just before one of the calls from lo up to hi.
  ghost function Gone(deletes: nat -> set<Id>, lo: nat, hi: nat): set<Id>
    decreases hi
  {
    if hi <= lo then {} else Gone(deletes, lo, hi - 1) + deletes(hi - 1)
  }

  lemma {:induction false} GoneJoin(deletes: nat -> set<Id>, lo: nat, mid: nat, hi: nat)
    requires lo <= mid <= hi
    ensures Gone(deletes, lo, hi) == Gone(deletes, lo, mid) + Gone(deletes, mid, hi)
    decreases hi
  {
    if mid < hi {
      GoneJoin(deletes, lo, mid, hi - 1);
    }
  }

  lemma MinusJoin(rows: Table, a: set<Id>, b: set<Id>)
    ensures rows - a - b == rows - (a + b)
  {
  }

  // What the call numbered `at` finds of a table that only deletions touched
  // since the call numbered `since`.
  lemma FoundAt(base: Table, deletes: nat -> set<Id>, since: nat, at: nat)
    requires since <= at
    ensures base - Gone(deletes, since, at) - deletes(at) == base - Gone(deletes, since, at + 1)
    ensures base - Gone(deletes, since, since) == base
  {
    MinusJoin(base, Gone(deletes, since, at), deletes(at));
  }

  lemma LostJoin(base: Table, deletes: nat -> set<Id>, lo: nat, mid: nat, hi: nat)
    requires lo <= mid <= hi
    ensures base - Gone(deletes, lo, mid) - Gone(deletes, mid, hi) == base - Gone(deletes, lo, hi)
  {
    GoneJoin(deletes, lo, mid, hi);
    MinusJoin(base, Gone(deletes, lo, mid), Gone(deletes, mid, hi));
  }

  // A row written through the deletions: if it is gone already there is
  // nothing to write, and nothing to see of it.
  lemma WrittenThrough(base: Table, gone: set<Id>, now: Table, id: Id, row: Row)
    requires id in base
    requires now == if id in base - gone then (base - gone)[id := row] else base - gone
    ensures now == base[id := row] - gone
  {
  }

  // A count of the ids taken, leaving out only some that others deleted.
  ghost predicate IsTally(n: nat, done: set<Id>, ids: set<Id>, gone: set<Id>) {
    n == |done| && done <= ids && ids - done <= gone
  }

  lemma TallyIsExact(n: nat, done: set<Id>, ids: set<Id>)
    requires IsTally(n, done, ids, {})
    ensures done == ids && n == |ids|
  {
    assert ids - done == {};
    assert forall id :: id in ids ==> id in done || id in ids - done;
  }

  lemma TallyJoin(n: nat, done: set<Id>, ids: set<Id>, gone: set<Id>, m: nat, more: set<Id>, moreIds: set<Id>,
                  now: set<Id>)
    requires IsTally(n, done, ids, gone) && IsTally(m, more, moreIds, now) && gone <= now && ids !! moreIds
    ensures IsTally(n + m, done + more, ids + moreIds, now)
  {
    assert done !! more;
  }

  // One of these calls fails.
  ghost predicate AnyFails(fails: nat -> bool, lo: nat, hi: nat) {
    exists k {:trigger fails(k)} :: lo <= k < hi && fails(k)
  }

  // The later of an expiry and a slide; rows that never expire do not slide.
  function Slid(e: Option<Time>, slides: map<Id, Time>, id: Id): Option<Time> {
    if id in slides && e.Some? && e.value <= slides[id] then Some(slides[id]) else e
  }

  // An expiry after the slides before the calls from lo up to hi.
  ghost function SlidTo(slides: nat -> map<Id, Time>, id: Id, e: Option<Time>, lo: nat, hi: nat): Option<Time>
    decreases hi
  {
    if hi <= lo then e else Slid(SlidTo(slides, id, e, lo, hi - 1), slides(hi - 1), id)
  }

  // Concurrent recalls slide expiries forward and touch nothing else.
  function Slide(rows: Table, slides: map<Id, Time>): Table {
    map id | id in rows :: rows[id].(expiresAt := Slid(rows[id].expiresAt, slides, id))
  }

  ghost function SlideTo(rows: Table, slides: nat -> map<Id, Time>, lo: nat, hi: nat): Table {
    map id | id in rows :: rows[id].(expiresAt := SlidTo(slides, id, rows[id].expiresAt, lo, hi))
  }

  // What has slid past a moment stays past it.
  lemma {:induction false} SlidStaysAhead(slides: nat -> map<Id, Time>, id: Id, e: Option<Time>, lo: nat, mid: nat,
                                          hi: nat)
    requires lo <= mid <= hi
    ensures SlidTo(slides, id, e, lo, hi).Some? <==> e.Some?
    ensures e.Some? ==>
      && SlidTo(slides, id, e, lo, mid).Some?
      && SlidTo(slides, id, e, lo, mid).value <= SlidTo(slides, id, e, lo, hi).value
    decreases hi
  {
    if mid < hi {
      SlidStaysAhead(slides, id, e, lo, mid, hi - 1);
    } else if lo < hi {
      SlidStaysAhead(slides, id, e, lo, hi - 1, hi - 1);
    }
  }

  ghost function ExpiredIds(rows: Table, now: Time): set<Id> {
    set id | id in rows && rows[id].Expired(now)
  }

  // A deletion this process made: at which call, and the row as it was then.
  datatype Removal = Removal(call: nat, id: Id, row: Row)

  // NotFound is the store's own answer; Failed stands for any other error.
  datatype Outcome = Done | NotFound | Failed

  // The row an upsert leaves: the creation time of a row is never rewritten.
  function Upserted(rows: Table, id: Id, row: Row): Row {
    if id in rows then row.(createdAt := rows[id].createdAt) else row
  }

  class Store {
    var rows: Table
    // The wall clock as the store reads it.
    var wall: Time
    // Which calls the backend fails, in the order they are made.
    const fails: nat -> bool
    // What others delete just before each call, and the expiry slides of
    // concurrent recalls that land just before each call of the expiry
    // operations.
    const deletes: nat -> set<Id>
    const slides: nat -> map<Id, Time>
    var calls: nat
    // The deletions made through this store.
    ghost var removals: seq<Removal>

    constructor (fails: nat -> bool, deletes: nat -> set<Id>, slides: nat -> map<Id, Time>, wall: Time)
      ensures rows == map[] && calls == 0 && removals == []
      ensures this.wall == wall && this.fails == fails && this.deletes == deletes && this.slides == slides
    {
      this.fails, this.deletes, this.slides := fails, deletes, slides;
      this.rows, this.wall, this.calls := map[], wall, 0;
      this.removals := [];
    }

    // Everything others deleted, and whether the backend failed, since the
    // call numbered n.
    ghost function Lost(n: nat): set<Id>
      reads this`calls
    {
      Gone(deletes, n, calls)
    }

    ghost predicate FailedSince(n: nat)
      reads this`calls
    {
      AnyFails(fails, n, calls)
    }

    method Call() returns (ok: bool)
      modifies this`rows, this`calls
      ensures calls == old(calls) + 1 && ok == !fails(old(calls))
      ensures rows == old(rows) - deletes(old(calls))
    {
      rows := rows - deletes(calls);
      ok := !fails(calls);
      calls := calls + 1;
    }

    method List(ns: string, f: Filter) returns (r: Result<seq<Mem>, Outcome>)
      modifies this`rows, this`calls
      ensures calls == old(calls) + 1 && (r == Err(Failed) <==> fails(old(calls)))
      ensures rows == old(rows) - deletes(old(calls))
      ensures if r.Ok? then IsListing(rows, ns, f, r.value) else r.error == Failed
    {
      var ok := Call();
      if !ok {
        return Err(Failed);
      }
      var mems := Listed(rows, ns, f);
      return Ok(mems);
    }

    method Get(ns: string, id: Id) returns (r: Result<Row, Outcome>)
      modifies this`rows, this`calls
      ensures calls == old(calls) + 1 && (r == Err(Failed) <==> fails(old(calls)))
      ensures rows == old(rows) - deletes(old(calls))
      ensures r.Ok? ==> id in rows && rows[id].ns == ns && r.value == rows[id]
      ensures r.Err? ==> r.error == Failed || (r.error == NotFound && !(id in rows && rows[id].ns == ns))
    {
      var ok := Call();
      if !ok {
        return Err(Failed);
      }
      if id !in rows || rows[id].ns != ns {
        return Err(NotFound);
      }
      return Ok(rows[id]);
    }

    method ListNamespaces() returns (r: Result<seq<string>, Outcome>)
      modifies this`rows, this`calls
      ensures calls == old(calls) + 1 && (r == Err(Failed) <==> fails(old(calls)))
      ensures rows == old(rows) - deletes(old(calls))
      ensures r.Ok? ==> Unique(r.value) && forall ns :: ns in r.value <==> exists id :: id in rows && rows[id].ns == ns
      ensures r.Err? ==> r.error == Failed
    {
      var ok := Call();
      if !ok {
        return Err(Failed);
      }
      var out := NamespacesOf(rows);
      return Ok(out);
    }

    method SetSuperseded(ns: string, id: Id, head: Id) returns (r: Outcome)
      modifies this`rows, this`calls
      ensures calls == old(calls) + 1 && (r == Failed <==> fails(old(calls)))
      ensures var was := old(rows) - deletes(old(calls));
        && (r == NotFound ==> !(id in was && was[id].ns == ns))
        && if r == Done then id in was && was[id].ns == ns && rows == was[id := AsSuperseded(was[id], head, wall)]
          else rows == was
    {
      var ok := Call();
      if !ok {
        return Failed;
      }
      if id !in rows || rows[id].ns != ns {
        return NotFound;
      }
      rows := rows[id := AsSuperseded(rows[id], head, wall)];
      return Done;
    }

    method Restore(ns: string, id: Id) returns (r: Outcome)
      modifies this`rows, this`calls
      ensures calls == old(calls) + 1 && (r == Failed <==> fails(old(calls)))
      ensures var was := old(rows) - deletes(old(calls));
        && (r == NotFound ==> !(id in was && was[id].ns == ns))
        && if r == Done then id in was && was[id].ns == ns && rows == was[id := AsRestored(was[id])] else rows == was
    {
      var ok := Call();
      if !ok {
        return Failed;
      }
      if id !in rows || rows[id].ns != ns {
        return NotFound;
      }
      rows := rows[id := AsRestored(rows[id])];
      return Done;
    }

    method Delete(ns: string, id: Id) returns (r: Outcome)
      modifies this`rows, this`calls, this`removals
      ensures calls == old(calls) + 1 && (r == Failed <==> fails(old(calls)))
      ensures var was := old(rows) - deletes(old(calls));
        && (r == NotFound ==> !(id in was && was[id].ns == ns))
        && if r == Done
           then id in was && was[id].ns == ns && rows == was - {id} &&
             removals == old(removals) + [Removal(old(calls), id, was[id])]
           else rows == was && removals == old(removals)
    {
      var ok := Call();
      if !ok {
        return Failed;
      }
      if id !in rows || rows[id].ns != ns {
        return NotFound;
      }
      removals := removals + [Removal(calls - 1, id, rows[id])];
      rows := rows - {id};
      return Done;
    }

    // Up to limit memories whose expiry has passed; all of them if fewer.
    method ListExpired(now: Time, limit: nat) returns (r: Result<seq<Mem>, Outcome>)
      modifies this`rows, this`calls
      ensures calls == old(calls) + 1 && (r == Err(Failed) <==> fails(old(calls)))
      ensures rows == Slide(old(rows) - deletes(old(calls)), slides(old(calls)))
      ensures r.Err? ==> r.error == Failed
      ensures r.Ok? ==>
        && |r.value| <= limit && Distinct(r.value)
        && (forall m :: m in r.value ==> m.id in rows && rows[m.id] == m.row && m.row.Expired(now))
        && (|r.value| < limit ==> Ids(r.value) == ExpiredIds(rows, now))
    {
      var slide := slides(calls);
      var ok := Call();
      rows := Slide(rows, slide);
      if !ok {
        return Err(Failed);
      }
      var mems := ListedExpired(rows, now, limit);
      return Ok(mems);
    }

    // Removes the row only if it is still expired after the slides and the
    // deletions that came first.
    method DeleteIfExpiredBefore(ns: string, id: Id, cutoff: Time) returns (r: Outcome)
      modifies this`rows, this`calls, this`removals
      ensures calls == old(calls) + 1 && (r == Failed <==> fails(old(calls)))
      ensures var was := Slide(old(rows) - deletes(old(calls)), slides(old(calls)));
        && (r == NotFound ==> !(id in was && was[id].ns == ns && was[id].Expired(cutoff)))
        && if r == Done
           then id in was && was[id].ns == ns && was[id].Expired(cutoff)
             && rows == was - {id} && removals == old(removals) + [Removal(old(calls), id, was[id])]
           else rows == was && removals == old(removals)
    {
      var slide := slides(calls);
      var ok := Call();
      rows := Slide(rows, slide);
      if !ok {
        return Failed;
      }
      if id !in rows || rows[id].ns != ns || !rows[id].Expired(cutoff) {
        return NotFound;
      }
      removals := removals + [Removal(calls - 1, id, rows[id])];
      rows := rows - {id};
      return Done;
    }

    method Retier(ns: string, id: Id, tier: Tier, expiresAt: Option<Time>) returns (r: Outcome)
      modifies this`rows, this`calls
      ensures calls == old(calls) + 1 && (r == Failed <==> fails(old(calls)))
      ensures var was := old(rows) - deletes(old(calls));
        && (r == NotFound ==> !(id in was && was[id].ns == ns))
        && if r == Done
           then id in was && was[id].ns == ns && rows == was[id := was[id].(tier := tier, expiresAt := expiresAt)]
           else rows == was
    {
      var ok := Call();
      if !ok {
        return Failed;
      }
      if id !in rows || rows[id].ns != ns {
        return NotFound;
      }
      rows := rows[id := rows[id].(tier := tier, expiresAt := expiresAt)];
      return Done;
    }

    // Inserts or replaces; an id held by another namespace is a conflict.
    method Upsert(m: Mem) returns (r: Outcome)
      modifies this`rows, this`calls
      ensures calls == old(calls) + 1 && r != NotFound
      ensures var was := old(rows) - deletes(old(calls));
        && (r == Failed <==> fails(old(calls)) || (m.id in was && was[m.id].ns != m.row.ns))
        && rows == if r == Done then was[m.id := Upserted(was, m.id, m.row)] else was
    {
      var ok := Call();
      if !ok || (m.id in rows && rows[m.id].ns != m.row.ns) {
        return Failed;
      }
      rows := rows[m.id := Upserted(rows, m.id, m.row)];
      return Done;
    }

    // Moves the listed rows in one transaction and counts the ones it moved;
    // ids that are not in fromNS are skipped.
    method Reassign(fromNS: string, ids: seq<Id>, toNS: string) returns (r: Result<nat, Outcome>)
      modifies this`rows, this`calls
      ensures ids == [] || fromNS == toNS ==> calls == old(calls) && rows == old(rows) && r == Ok(0)
      ensures ids != [] && fromNS != toNS ==>
        var was := old(rows) - deletes(old(calls));
        && calls == old(calls) + 1 && (r.Err? <==> fails(old(calls))) && (r.Err? ==> r.error == Failed)
        && rows == (if r.Ok? then Reassigned(was, fromNS, ids, toNS) else was)
        && (r.Ok? ==> r.value == |Movable(was, fromNS, ids)|)
    {
      if |ids| == 0 || fromNS == toNS {
        return Ok(0);
      }
      var ok := Call();
      if !ok {
        return Err(Failed);
      }
      var moved;
      rows, moved := ReassignAll(rows, fromNS, ids, toNS);
      return Ok(moved);
    }
  }

  method Listed(rows: Table, ns: string, f: Filter) returns (mems: seq<Mem>)
    ensures IsListing(rows, ns, f, mems)
  {
    mems := [];
    var todo := rows.Keys;
    while todo != {}
      invariant todo <= rows.Keys
      invariant Distinct(mems)
      invariant forall i :: 0 <= i < |mems| ==>
        && mems[i].id in rows && mems[i].id !in todo
        && rows[mems[i].id] == mems[i].row && Matches(mems[i].row, ns, f)
      invariant forall id :: id in rows && id !in todo && Matches(rows[id], ns, f) ==> id in Ids(mems)
      decreases todo
    {
      var id :| id in todo;
      todo := todo - {id};
      if Matches(rows[id], ns, f) {
        IdsAppend(mems, Mem(id, rows[id]));
        mems := mems + [Mem(id, rows[id])];
      }
    }
  }

  method NamespacesOf(rows: Table) returns (out: seq<string>)
    ensures Unique(out) && forall ns :: ns in out <==> exists id :: id in rows && rows[id].ns == ns
  {
    out := [];
    var todo := rows.Keys;
    while todo != {}
      invariant todo <= rows.Keys
      invariant Unique(out)
      invariant forall ns :: ns in out ==> exists id :: id in rows && rows[id].ns == ns
      invariant forall id :: id in rows && id !in todo ==> rows[id].ns in out
      decreases todo
    {
      var id :| id in todo;
      todo := todo - {id};
      if rows[id].ns !in out {
        out := out + [rows[id].ns];
      }
    }
  }

  method ListedExpired(rows: Table, now: Time, limit: nat) returns (mems: seq<Mem>)
    ensures |mems| <= limit && Distinct(mems)
    ensures forall m :: m in mems ==> m.id in rows && rows[m.id] == m.row && m.row.Expired(now)
    ensures |mems| < limit ==> Ids(mems) == ExpiredIds(rows, now)
  {
    mems := [];
    var todo := rows.Keys;
    while todo != {} && |mems| < limit
      invariant todo <= rows.Keys && |mems| <= limit && Distinct(mems)
      invariant forall m :: m in mems ==> m.id in rows && m.id !in todo && rows[m.id] == m.row && m.row.Expired(now)
      invariant forall id :: id in rows && id !in todo && rows[id].Expired(now) ==> id in Ids(mems)
      decreases todo
    {
      var id :| id in todo;
      todo := todo - {id};
      if rows[id].Expired(now) {
        IdsAppend(mems, Mem(id, rows[id]));
        mems := mems + [Mem(id, rows[id])];
      }
    }
    assert forall i :: 0 <= i < |mems| ==> mems[i] in mems;
  }

  function Reassigned(rows: Table, fromNS: string, ids: seq<Id>, toNS: string): Table {
    map id | id in rows :: if id in ids && rows[id].ns == fromNS then rows[id].(ns := toNS) else rows[id]
  }

  ghost function Movable(rows: Table, fromNS: string, ids: seq<Id>): set<Id> {
    set id | id in ids && id in rows && rows[id].ns == fromNS
  }

  lemma ReassignOneMore(rows: Table, fromNS: string, ids: seq<Id>, i: nat, toNS: string)
    requires i < |ids| && fromNS != toNS
    ensures var id, prev := ids[i], Reassigned(rows, fromNS, ids[..i], toNS);
      var fits := id in prev && prev[id].ns == fromNS;
      && Reassigned(rows, fromNS, ids[..i + 1], toNS) == (if fits then prev[id := prev[id].(ns := toNS)] else prev)
      && |Movable(rows, fromNS, ids[..i + 1])| == |Movable(rows, fromNS, ids[..i])| + if fits then 1 else 0
  {
    var id, prev, more := ids[i], Reassigned(rows, fromNS, ids[..i], toNS), Movable(rows, fromNS, ids[..i]);
    assert ids[..i + 1] == ids[..i] + [id];
    if id in prev && prev[id].ns == fromNS {
      assert Movable(rows, fromNS, ids[..i + 1]) == more + {id} && id !in more;
    } else {
      assert Movable(rows, fromNS, ids[..i + 1]) == more;
    }
  }

  method ReassignAll(rows0: Table, fromNS: string, ids: seq<Id>, toNS: string) returns (rows: Table, moved: nat)
    requires fromNS != toNS
    ensures rows == Reassigned(rows0, fromNS, ids, toNS) && moved == |Movable(rows0, fromNS, ids)|
  {
    rows, moved := rows0, 0;
    for i := 0 to |ids|
      invariant rows == Reassigned(rows0, fromNS, ids[..i], toNS) && moved == |Movable(rows0, fromNS, ids[..i])|
    {
      var id := ids[i];
      ReassignOneMore(rows0, fromNS, ids, i, toNS);
      if id in rows && rows[id].ns == fromNS {
        rows := rows[id := rows[id].(ns := toNS)];
        moved := moved + 1;
      }
    }
    assert ids[..|ids|] == ids;
  }
}
