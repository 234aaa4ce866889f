// The life of a store: the sweeper, the dedup job, callers that write, restore
// and delete, in any order, over any number of passes.
module StoreRuns {
  import opened Common
  import opened Supersession
  import opened MemoryStore
  import Clustering
  import ClusterCollapse
  import Ranking
  import DedupJob
  import Repair
  import Sweeper
  import Tombstones

  // One transition of the table, by whoever makes it.
  datatype Step =
    // a write, a supersession, a restore, a deletion or a contradiction; the
    // rows it deletes, or at which the chain of the row it rewrites runs out
    | Happens(event: Tombstones.Event, at: Time, ends: set<Id>)
    // recalls, demotions and edits: no row changes its namespace or its link
    | Touch
    // a purge of what has expired, with the slides and deletions of others
    | Purge(others: Sweeper.Others, from: nat, to: nat, now: Time, removed: seq<Removal>)
    // an eviction of what is over the short-term cap
    | Evict(w: Sweeper.Sweep, to: nat, cap: nat, wall: Time, score: Ranking.Score, evicted: set<Id>, n: nat,
            done: set<Id>)
    // a collection of tombstones by age
    | Collect(olderThan: Time, dropped: set<Id>, lost: set<Id>)
    // a tick of the dedup job over the given namespaces
    | Pass(log: DedupJob.PassLog, given: seq<string>, s: DedupJob.Setting)
    // anything else, such as a move between namespaces, or a supersession by a
    // row that leads back to the one superseded
    | Anything

  ghost predicate IsTouch(was: Table, now: Table) {
    now.Keys == was.Keys && forall id :: id in was ==>
      now[id].ns == was[id].ns && now[id].supersededBy == was[id].supersededBy
  }

  ghost predicate IsEvent(e: Tombstones.Event, now: Table, ends: set<Id>) {
    match e
    case Write(id, _) => id in now && ComesTo(GraphOf(now, now[id].ns), id, ends)
    case Supersede(id, _) => id in now && ComesTo(GraphOf(now, now[id].ns), id, ends)
    case Remove(ids) => ends == ids
    case _ => ends == {}
  }

  ghost predicate IsStep(was: Table, now: Table, step: Step) {
    match step
    case Happens(e, at, ends) =>
      var w := Tombstones.World(was, at);
      Tombstones.CanHappen(w, e) && now == Tombstones.Apply(w, e).rows && IsEvent(e, now, ends)
    case Touch => IsTouch(was, now)
    case Purge(others, from, to, at, removed) => Sweeper.IsPurging(was, now, others, from, to, at, removed)
    case Evict(w, to, cap, wall, score, evicted, n, done) =>
      && w.was == was && Sweeper.IsEvicting(was, now, evicted, Gone(w.deletes, w.since, to), n, done)
      && Sweeper.IsPartlyCapped(w, evicted, cap, wall, score)
    case Collect(olderThan, dropped, lost) =>
      dropped <= Tombstones.OldTombstones(was, olderThan) && now == was - (dropped + lost)
    case Pass(p, given, s) => p.was == was && p.now == now && DedupJob.IsPass(p, given, s)
    case Anything => true
  }

  // What a step deletes, itself or by others meanwhile, and the missing row
  // that a chain it rewrites runs out at.
  ghost function Gaps(step: Step): set<Id> {
    match step
    case Happens(_, _, ends) => ends
    case Touch => {}
    case Purge(others, from, to, _, removed) => Gone(others.deletes, from, to) + Sweeper.Removed(removed)
    case Evict(w, to, _, _, _, evicted, _, _) => evicted + Gone(w.deletes, w.since, to)
    case Collect(_, dropped, lost) => dropped + lost
    case Pass(p, _, s) => Gone(s.deletes, p.from, p.to)
    case Anything => {}
  }

  // From the empty store.
  ghost predicate IsRun(tables: seq<Table>, steps: seq<Step>) {
    && |tables| == |steps| + 1 && tables[0] == map[]
    && forall i :: 0 <= i < |steps| ==> IsStep(tables[i], tables[i + 1], steps[i])
  }

  // ---- One step -----------------------------------------------------------

  // Rows that are new in h come to a live row, or to a missing one of extra.
  ghost predicate BornEnding(g: Graph, h: Graph, extra: set<Id>) {
    forall id :: id in h && id !in g ==> EndsIn(h, id, extra)
  }

  lemma RewriteStep(was: Table, now: Table, id: Id, ends: set<Id>, ns: string)
    requires id in now && now == was[id := now[id]] && (id in was ==> was[id].ns == now[id].ns)
    requires ComesTo(GraphOf(now, now[id].ns), id, ends)
    ensures Accounts(GraphOf(was, ns), GraphOf(now, ns), ends) && BornEnding(GraphOf(was, ns), GraphOf(now, ns), ends)
  {
    var g, h := GraphOf(was, ns), GraphOf(now, ns);
    ComesToEnds(GraphOf(now, now[id].ns), id, ends);
    if ns == now[id].ns {
      RewriteAccounts(g, h, id, ends);
    } else {
      assert g == h;
      UnchangedAccounts(g, ends);
    }
  }

  lemma EventAccounts(w: Tombstones.World, e: Tombstones.Event, ends: set<Id>, ns: string)
    requires Tombstones.CanHappen(w, e) && IsEvent(e, Tombstones.Apply(w, e).rows, ends)
    ensures var g, h := GraphOf(w.rows, ns), GraphOf(Tombstones.Apply(w, e).rows, ns);
      Accounts(g, h, ends) && BornEnding(g, h, ends)
  {
    var now := Tombstones.Apply(w, e).rows;
    match e
    case Write(id, _) => RewriteStep(w.rows, now, id, ends, ns);
    case Supersede(id, _) => RewriteStep(w.rows, now, id, ends, ns);
    case Remove(ids) =>
      Repair.GraphMinus(w.rows, ids, ns);
      DeletionAccounts(GraphOf(w.rows, ns), ids);
    case _ =>
      assert Enlivens(GraphOf(w.rows, ns), GraphOf(now, ns));
      EnlivenAccounts(GraphOf(w.rows, ns), GraphOf(now, ns));
  }

  lemma DeletionStep(was: Table, now: Table, gone: set<Id>, ns: string)
    requires GraphOf(now, ns) == GraphOf(was, ns) - gone
    ensures Accounts(GraphOf(was, ns), GraphOf(now, ns), gone) && BornEnding(GraphOf(was, ns), GraphOf(now, ns), gone)
  {
    DeletionAccounts(GraphOf(was, ns), gone);
  }

  // No step but Anything costs a row its head, save by its gaps.
  lemma StepAccounts(was: Table, now: Table, step: Step, ns: string)
    requires IsStep(was, now, step) && !step.Anything?
    ensures Accounts(GraphOf(was, ns), GraphOf(now, ns), Gaps(step))
    ensures BornEnding(GraphOf(was, ns), GraphOf(now, ns), Gaps(step))
  {
    var g, h := GraphOf(was, ns), GraphOf(now, ns);
    match step
    case Happens(e, at, ends) => EventAccounts(Tombstones.World(was, at), e, ends, ns);
    case Touch =>
      assert g == h;
      EnlivenAccounts(g, h);
    case Purge(others, from, to, at, removed) =>
      DeletionStep(was, now, Gaps(step), ns);
    case Evict(_, _, _, _, _, _, _, _) =>
      Repair.GraphMinus(was, Gaps(step), ns);
      DeletionStep(was, now, Gaps(step), ns);
    case Collect(_, _, _) =>
      Repair.GraphMinus(was, Gaps(step), ns);
      DeletionStep(was, now, Gaps(step), ns);
    case Pass(p, given, s) =>
      DedupJob.PassAccounts(p, given, s, ns);
      assert now.Keys <= was.Keys;
      DedupJob.PassKeepsNamespaces(p, given, s);
  }

  // The supersessions left out are those that cost the superseded row itself
  // its head with no gap to account for it: while the namespace is accounted
  // for, exactly the ones by a row that leads back to it.
  lemma LoopsAreExcepted(w: Tombstones.World, id: Id, head: Id, dead: set<Id>)
    requires id in w.rows && HealedBut(GraphOf(w.rows, w.rows[id].ns), dead)
    ensures var ns, now := w.rows[id].ns, Tombstones.Apply(w, Tombstones.Supersede(id, head)).rows;
      && ((exists ends :: IsEvent(Tombstones.Supersede(id, head), now, ends)) <==>
          !LeadsTo(GraphOf(w.rows, ns), head, id))
      && (LeadsTo(GraphOf(w.rows, ns), head, id) ==> forall more :: !HealedBut(GraphOf(now, ns), more))
  {
    var e, ns := Tombstones.Supersede(id, head), w.rows[id].ns;
    var now := Tombstones.Apply(w, e).rows;
    var g, h := GraphOf(w.rows, ns), GraphOf(now, ns);
    assert h == g[id := Some(head)];
    RelinkedComesTo(g, h, dead, id, head);
    assert forall ends :: IsEvent(e, now, ends) <==> ComesTo(h, id, ends);
    if LeadsTo(g, head, id) {
      forall more
        ensures !HealedBut(h, more)
      {
        assert !EndsIn(h, id, more);
      }
    }
  }

  // ---- Whole runs ---------------------------------------------------------

  // The last repair of ns in this pass: from which call on deletions count.
  ghost function MendedIn(step: Step, ns: string): Option<nat> {
    if step.Pass? then Repair.MendedSince(step.log.mends, ns) else None
  }

  // Nothing unaccounted for has happened to ns since the store was empty or a
  // pass last repaired it.
  ghost predicate IsVouched(steps: seq<Step>, n: nat, ns: string)
    requires n <= |steps|
  {
    n == 0 || MendedIn(steps[n - 1], ns).Some? || (!steps[n - 1].Anything? && IsVouched(steps, n - 1, ns))
  }

  // The gaps that came since then.
  ghost function GapsSince(steps: seq<Step>, n: nat, ns: string): set<Id>
    requires n <= |steps|
  {
    if n == 0 then {}
    else
      var step := steps[n - 1];
      if MendedIn(step, ns).Some? then Gone(step.s.deletes, MendedIn(step, ns).value, step.log.to)
      else GapsSince(steps, n - 1, ns) + Gaps(step)
  }

  // In every run from the empty store, at every moment, every chain comes to a
  // live row or runs out at a gap that came since the last repair of its
  // namespace listed it.
  lemma {:induction false} RunsStayHealed(tables: seq<Table>, steps: seq<Step>, n: nat, ns: string)
    requires IsRun(tables, steps) && n <= |steps| && IsVouched(steps, n, ns)
    ensures HealedBut(GraphOf(tables[n], ns), GapsSince(steps, n, ns))
    decreases n
  {
    if n > 0 {
      var step, g, h := steps[n - 1], GraphOf(tables[n - 1], ns), GraphOf(tables[n], ns);
      assert IsStep(tables[n - 1], tables[n], step);
      if MendedIn(step, ns).Some? {
        DedupJob.PassMends(step.log, step.given, step.s, ns);
      } else {
        RunsStayHealed(tables, steps, n - 1, ns);
        StepAccounts(tables[n - 1], tables[n], step, ns);
        AccountedNext(g, h, GapsSince(steps, n - 1, ns), Gaps(step));
      }
    }
  }

  lemma AccountedNext(g: Graph, h: Graph, dead: set<Id>, extra: set<Id>)
    requires HealedBut(g, dead) && Accounts(g, h, extra) && BornEnding(g, h, extra)
    ensures HealedBut(h, dead + extra)
  {
    forall id | id in h
      ensures EndsIn(h, id, dead + extra)
    {
      if id in g {
        assert EndsIn(g, id, dead);
      } else {
        var n: nat :| EndsWithin(h, id, n, extra);
        EndsMore(h, id, n, extra, dead + extra);
      }
    }
  }

  // So, at any moment, a memory lacks a live head if and only if its chain runs
  // out at a row deleted since then, or at one that was missing when a memory
  // was superseded since then.
  lemma LostHeadsAreAccounted(tables: seq<Table>, steps: seq<Step>, n: nat, id: Id)
    requires IsRun(tables, steps) && n <= |steps| && id in tables[n] && IsVouched(steps, n, tables[n][id].ns)
    ensures var ns := tables[n][id].ns;
      !Reaches(GraphOf(tables[n], ns), id) <==> RunsOut(GraphOf(tables[n], ns), id, GapsSince(steps, n, ns))
  {
    var ns := tables[n][id].ns;
    RunsStayHealed(tables, steps, n, ns);
    LostHead(GraphOf(tables[n], ns), id, GapsSince(steps, n, ns));
  }

  // The gaps from step i up to step j.
  ghost function GapsFrom(steps: seq<Step>, i: nat, j: nat): set<Id>
    requires j <= |steps|
    decreases j
  {
    if j <= i then {} else GapsFrom(steps, i, j - 1) + Gaps(steps[j - 1])
  }

  ghost predicate IsAccounted(tables: seq<Table>, steps: seq<Step>, k: int, ns: string)
    requires 0 <= k < |steps| < |tables|
  {
    Accounts(GraphOf(tables[k], ns), GraphOf(tables[k + 1], ns), Gaps(steps[k]))
  }

  lemma {:induction false} AccountedOverall(tables: seq<Table>, steps: seq<Step>, i: nat, j: nat, ns: string)
    requires i <= j <= |steps| < |tables|
    requires forall k {:trigger IsAccounted(tables, steps, k, ns)} :: i <= k < j ==> IsAccounted(tables, steps, k, ns)
    ensures Accounts(GraphOf(tables[i], ns), GraphOf(tables[j], ns), GapsFrom(steps, i, j))
    decreases j
  {
    if i == j {
      EnlivenAccounts(GraphOf(tables[i], ns), GraphOf(tables[i], ns));
    } else {
      AccountedOverall(tables, steps, i, j - 1, ns);
      assert IsAccounted(tables, steps, j - 1, ns);
      AccountsBoth(GraphOf(tables[i], ns), GraphOf(tables[j - 1], ns), GraphOf(tables[j], ns),
                   GapsFrom(steps, i, j - 1), Gaps(steps[j - 1]));
    }
  }

  lemma StepsAccount(tables: seq<Table>, steps: seq<Step>, i: nat, j: nat, ns: string)
    requires IsRun(tables, steps) && i <= j <= |steps| && forall k :: i <= k < j ==> !steps[k].Anything?
    ensures Accounts(GraphOf(tables[i], ns), GraphOf(tables[j], ns), GapsFrom(steps, i, j))
  {
    forall k | i <= k < j
      ensures IsAccounted(tables, steps, k, ns)
    {
      StepAccounts(tables[k], tables[k + 1], steps[k], ns);
    }
    AccountedOverall(tables, steps, i, j, ns);
  }

  // A row that had a live head keeps one, unless its chain now runs out at a
  // gap that came in between; whatever passes ran and failed meanwhile.
  lemma NoHeadIsLostOtherwise(tables: seq<Table>, steps: seq<Step>, i: nat, j: nat, ns: string, id: Id)
    requires IsRun(tables, steps) && i <= j <= |steps| && forall k :: i <= k < j ==> !steps[k].Anything?
    requires Reaches(GraphOf(tables[i], ns), id) && id in GraphOf(tables[j], ns)
    ensures !Reaches(GraphOf(tables[j], ns), id) <==> RunsOut(GraphOf(tables[j], ns), id, GapsFrom(steps, i, j))
  {
    var g, dead: set<Id> := GraphOf(tables[i], ns), {};
    var n: nat :| ReachesIn(g, id, n);
    ReachesWithin(g, id, n, dead);
    assert EndsIn(g, id, dead);
    StepsAccount(tables, steps, i, j, ns);
    assert EndsIn(GraphOf(tables[j], ns), id, dead + GapsFrom(steps, i, j));
    assert dead + GapsFrom(steps, i, j) == GapsFrom(steps, i, j);
    LostHead(GraphOf(tables[j], ns), id, GapsFrom(steps, i, j));
  }

  // Right after a pass no call of which failed, whatever the table was before,
  // a memory of a namespace it covers lacks a live head if and only if its
  // chain runs out at a row that others deleted after the repair listed that
  // namespace; with no such deletion it has one.
  lemma EveryPassHeals(tables: seq<Table>, steps: seq<Step>, i: nat, id: Id)
    requires IsRun(tables, steps) && i < |steps| && steps[i].Pass? && id in tables[i + 1]
    requires !AnyFails(steps[i].s.fails, steps[i].log.from, steps[i].log.to)
    requires (steps[i].given == [] || tables[i + 1][id].ns in steps[i].given)
    ensures var ns := tables[i + 1][id].ns;
      && IsVouched(steps, i + 1, ns)
      && (!Reaches(GraphOf(tables[i + 1], ns), id) <==>
          RunsOut(GraphOf(tables[i + 1], ns), id, GapsSince(steps, i + 1, ns)))
      && ((forall k :: steps[i].log.from < k < steps[i].log.to ==> steps[i].s.deletes(k) == {}) ==>
            Reaches(GraphOf(tables[i + 1], ns), id))
  {
    var p, s, given, ns := steps[i].log, steps[i].s, steps[i].given, tables[i + 1][id].ns;
    assert IsStep(tables[i], tables[i + 1], steps[i]);
    DedupJob.RepairCompletesPass(p, given, s, id);
    var since := Repair.MendedSince(p.mends, ns).value;
    if forall k :: p.from < k < p.to ==> s.deletes(k) == {} {
      NoneGone(s.deletes, since, p.to);
    }
  }

  lemma {:induction false} NoneGone(deletes: nat -> set<Id>, lo: nat, hi: nat)
    requires forall k :: lo <= k < hi ==> deletes(k) == {}
    ensures Gone(deletes, lo, hi) == {}
    decreases hi
  {
    if lo < hi {
      NoneGone(deletes, lo, hi - 1);
    }
  }

  // ---- A pass that leaves a memory without a head -------------------------

  lemma QuietTurn(rows: Table, ns: string, n: nat, s: DedupJob.Setting)
    requires s.deletes(n) == {} && |Clustering.LiveIds(rows, ns, s.opts)| < s.opts.minClusterSize
    ensures DedupJob.IsTurn(DedupJob.Turn(ns, rows, rows, n, n + 1, map[], Clustering.Report(0, 0, 0), {}, true), s)
  {
    assert rows - {} == rows && Gone(s.deletes, n + 1, n + 1) == {};
    assert ClusterCollapse.Collapsed(rows, map[], s.wall) == rows;
  }

  lemma QuietMend(rows: Table, ns: string, n: nat, s: DedupJob.Setting)
    requires Repair.Stranded(rows - s.deletes(n), ns) == {}
    ensures Repair.IsMend(Repair.Mend(ns, rows, rows - s.deletes(n), n, n + 1, {}, true), s.deletes, s.fails, false)
  {
    assert Gone(s.deletes, n, n + 1) == Gone(s.deletes, n, n) + s.deletes(n);
    assert {} + s.deletes(n) == s.deletes(n) && Repair.Restoring(rows, {}) == rows;
  }

  lemma TwoTurns(x: DedupJob.Turn, y: DedupJob.Turn, s: DedupJob.Setting)
    requires DedupJob.IsTurn(x, s) && DedupJob.IsTurn(y, s) && x.after == y.before && x.to == y.from
    ensures DedupJob.AreTurns([x, y], [x.ns, y.ns], x.before, x.from, y.after, y.to, s)
  {
    assert [x, y][..1] == [x] && [x][..0] == [];
    assert DedupJob.AreTurns([x], [x.ns, y.ns], x.before, x.from, x.after, x.to, s);
  }

  lemma TwoMends(x: Repair.Mend, y: Repair.Mend, s: DedupJob.Setting)
    requires Repair.IsMend(x, s.deletes, s.fails, false) && Repair.IsMend(y, s.deletes, s.fails, false)
    requires x.after == y.before && x.to == y.from
    ensures Repair.AreMends([x, y], [x.ns, y.ns], x.before, x.from, y.after, y.to, s.deletes, s.fails, false)
  {
    Repair.OneMoreMend([], x, [x.ns, y.ns], x.before, x.from, s.deletes, s.fails, false);
    Repair.OneMoreMend([x], y, [x.ns, y.ns], x.before, x.from, s.deletes, s.fails, false);
    assert [] + [x] == [x] && [x] + [y] == [x, y];
  }

  // The namespace "n" holds a, superseded by b.
  ghost predicate IsPair(rows: Table) {
    rows.Keys == {"a", "b"} && rows["a"].ns == rows["b"].ns == "n" && rows["a"].supersededBy == Some("b") &&
      rows["b"].supersededBy.None?
  }

  lemma FewLive(rows: Table, ns: string, opts: Clustering.Options)
    requires IsPair(rows)
    ensures |Clustering.LiveIds(rows, ns, opts)| <= 1
  {
    assert Clustering.LiveIds(rows, ns, opts) <= {"b"};
    Clustering.SubsetSize(Clustering.LiveIds(rows, ns, opts), {"b"});
  }

  lemma HeadIsLive(rows: Table)
    requires IsPair(rows)
    ensures Repair.Stranded(rows, "n") == {} && Repair.Stranded(rows - {"b"}, "m") == {}
    ensures !Reaches(GraphOf(rows - {"b"}, "n"), "a")
  {
    var g, h := GraphOf(rows, "n"), GraphOf(rows - {"b"}, "n");
    ReachesStep(g, "b");
    ReachesStep(g, "a");
    ReachesStep(h, "b");
    ReachesStep(h, "a");
  }

  // Before its call 3 b is deleted.
  ghost predicate IsUnlucky(s: DedupJob.Setting) {
    && s.opts.similarity >= 0.0 && s.opts.minClusterSize >= 2
    && (forall k :: !s.fails(k)) && (forall k :: s.deletes(k) == if k == 3 then {"b"} else {})
  }

  lemma UnluckyTurns(rows: Table, s: DedupJob.Setting) returns (x: DedupJob.Turn, y: DedupJob.Turn)
    requires IsPair(rows) && IsUnlucky(s)
    ensures DedupJob.AreTurns([x, y], ["n", "m"], rows, 0, rows, 2, s)
  {
    FewLive(rows, "n", s.opts);
    FewLive(rows, "m", s.opts);
    QuietTurn(rows, "n", 0, s);
    QuietTurn(rows, "m", 1, s);
    x := DedupJob.Turn("n", rows, rows, 0, 1, map[], Clustering.Report(0, 0, 0), {}, true);
    y := DedupJob.Turn("m", rows, rows, 1, 2, map[], Clustering.Report(0, 0, 0), {}, true);
    TwoTurns(x, y, s);
  }

  lemma UnluckyMends(rows: Table, s: DedupJob.Setting) returns (x: Repair.Mend, y: Repair.Mend)
    requires IsPair(rows) && IsUnlucky(s)
    ensures Repair.AreMends([x, y], ["n", "m"], rows, 2, rows - {"b"}, 4, s.deletes, s.fails, false)
  {
    HeadIsLive(rows);
    assert rows - {} == rows;
    QuietMend(rows, "n", 2, s);
    QuietMend(rows, "m", 3, s);
    x := Repair.Mend("n", rows, rows, 2, 3, {}, true);
    y := Repair.Mend("m", rows, rows - {"b"}, 3, 4, {}, true);
    TwoMends(x, y, s);
  }

  lemma UnluckyPass(rows: Table, s: DedupJob.Setting) returns (p: DedupJob.PassLog)
    requires IsPair(rows) && IsUnlucky(s)
    ensures p.was == rows && p.now == rows - {"b"} && p.from == 0 && p.to == 4
    ensures DedupJob.IsPass(p, ["n", "m"], s)
  {
    var x, y := UnluckyTurns(rows, s);
    var u, v := UnluckyMends(rows, s);
    p := DedupJob.PassLog(rows, 0, ["n", "m"], 0, [x, y], rows, 2, ["n", "m"], 2, [u, v], rows - {"b"}, 4);
    LoggedPass(p, s);
  }

  // A pass with no call of its own before or between the two halves.
  lemma LoggedPass(p: DedupJob.PassLog, s: DedupJob.Setting)
    requires s.opts.similarity >= 0.0 && p.start == p.from && p.listed == p.mid && p.covered == p.swept == ["n", "m"]
    requires DedupJob.AreTurns(p.turns, p.covered, p.was, p.from, p.between, p.mid, s) && |p.turns| == 2
    requires Repair.AreMends(p.mends, p.swept, p.between, p.mid, p.now, p.to, s.deletes, s.fails, false)
    requires |p.mends| == 2
    ensures DedupJob.IsPass(p, ["n", "m"], s)
  {
    FoundAt(p.was, s.deletes, p.from, p.from);
    FoundAt(p.between, s.deletes, p.mid, p.mid);
  }

  lemma WriteStep(was: Table, id: Id, row: Row)
    requires row.supersededBy.None? && id !in was
    ensures IsStep(was, was[id := row], Happens(Tombstones.Write(id, row), 0, {}))
  {
    ReachesStep(GraphOf(was[id := row], row.ns), id);
  }

  lemma PairStep(row: Row)
    requires row.ns == "n" && row.supersededBy.None?
    ensures var was: Table := map["a" := row, "b" := row];
      var now := was["a" := AsSuperseded(row, "b", 0)];
      IsPair(now) && IsStep(was, now, Happens(Tombstones.Supersede("a", "b"), 0, {}))
  {
    var now: Table := map["a" := AsSuperseded(row, "b", 0), "b" := row];
    ReachesStep(GraphOf(now, "n"), "b");
    ReachesStep(GraphOf(now, "n"), "a");
    assert map["a" := row, "b" := row]["a" := AsSuperseded(row, "b", 0)] == now;
  }

  lemma LongerRun(tables: seq<Table>, steps: seq<Step>, now: Table, step: Step)
    requires IsRun(tables, steps) && IsStep(tables[|steps|], now, step)
    ensures IsRun(tables + [now], steps + [step])
  {
    forall i | 0 <= i < |steps + [step]|
      ensures IsStep((tables + [now])[i], (tables + [now])[i + 1], (steps + [step])[i])
    {
      assert i < |steps| ==> IsStep(tables[i], tables[i + 1], steps[i]);
    }
  }

  lemma PairRun(row: Row) returns (tables: seq<Table>, steps: seq<Step>)
    requires row.ns == "n" && row.supersededBy.None?
    ensures IsRun(tables, steps) && |steps| == 3 && IsPair(tables[3])
  {
    var none: Table, one: Table, two: Table := map[], map["a" := row], map["a" := row, "b" := row];
    var pair := two["a" := AsSuperseded(row, "b", 0)];
    WriteStep(none, "a", row);
    WriteStep(one, "b", row);
    PairStep(row);
    assert none["a" := row] == one && one["b" := row] == two;
    var writeA, writeB := Happens(Tombstones.Write("a", row), 0, {}), Happens(Tombstones.Write("b", row), 0, {});
    LongerRun([none], [], one, writeA);
    LongerRun([none] + [one], [] + [writeA], two, writeB);
    tables, steps := [none] + [one] + [two], [] + [writeA] + [writeB];
    LongerRun(tables, steps, pair, Happens(Tombstones.Supersede("a", "b"), 0, {}));
    tables, steps := tables + [pair], steps + [Happens(Tombstones.Supersede("a", "b"), 0, {})];
  }

  // No call of the pass fails, and yet a memory ends it without a head: the
  // one that superseded it is deleted when its namespace was listed already
  // and another has yet to be.
  lemma DeletionDuringPassStrands(row: Row, s: DedupJob.Setting) returns (tables: seq<Table>, steps: seq<Step>)
    requires row.ns == "n" && row.supersededBy.None? && IsUnlucky(s)
    ensures IsRun(tables, steps) && |steps| == 4 && steps[3].Pass? && steps[3].s == s && steps[3].given == ["n", "m"]
    ensures !AnyFails(s.fails, steps[3].log.from, steps[3].log.to)
    ensures "a" in tables[4] && tables[4]["a"].ns == "n" && (steps[3].given == [] || "n" in steps[3].given)
    ensures !Reaches(GraphOf(tables[4], "n"), "a")
  {
    tables, steps := PairRun(row);
    HeadIsLive(tables[3]);
    var p := UnluckyPass(tables[3], s);
    LongerRun(tables, steps, p.now, Pass(p, ["n", "m"], s));
    tables, steps := tables + [p.now], steps + [Pass(p, ["n", "m"], s)];
  }
}
