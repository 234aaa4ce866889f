// internal/maintenance/dedup.go: a dedup over many namespaces, and the periodic
// pass that follows it with a supersession repair.
module DedupJob {
  import opened Common
  import opened Supersession
  import opened MemoryStore
  import opened ClusterCollapse
  import opened Ranking
  import Clustering
  import Repair

  const DEFAULT_SIMILARITY := 0.85
  const DEFAULT_MIN_CLUSTER := 2

  datatype Report = Report(namespaces: nat, memoriesSeen: nat, clustersFound: nat, tombstoned: nat)

  // A vector search per namespace.
  type Search = string -> Clustering.Nearest

  ghost predicate IsSearchable(search: Search) {
    forall ns :: Clustering.IsSearch(search(ns))
  }

  // ---- What a dedup changes -----------------------------------------------

  // A live row was superseded; nothing else about it changed.
  ghost predicate IsTombstoning(was: Row, now: Row) {
    was.supersededBy.None? && now == was.(supersededBy := now.supersededBy, validTo := now.validTo)
  }

  ghost predicate NoNewHead(was: Table, now: Table, ns: string) {
    forall id :: Reaches(GraphOf(now, ns), id) ==> Reaches(GraphOf(was, ns), id)
  }

  ghost predicate NoNewCycle(was: Table, now: Table, ns: string) {
    forall id :: OnCycle(GraphOf(now, ns), id) ==> OnCycle(GraphOf(was, ns), id)
  }

  ghost predicate HeadsAccounted(was: Table, now: Table, ns: string, gone: set<Id>) {
    Accounts(GraphOf(was, ns), GraphOf(now, ns), gone)
  }

  // No row is gone but those others deleted, no row gains a live head or loses
  // one but to those deletions, and no cycle is closed.
  ghost predicate OnlyTombstones(was: Table, now: Table, gone: set<Id>) {
    && now.Keys == was.Keys - gone
    && (forall id :: id in now && now[id] != was[id] ==> IsTombstoning(was[id], now[id]))
    && (forall ns :: NoNewHead(was, now, ns) && NoNewCycle(was, now, ns) && HeadsAccounted(was, now, ns, gone))
  }

  lemma DeletionOnly(was: Table, gone: set<Id>)
    ensures OnlyTombstones(was, was - gone, gone)
  {
    forall ns
      ensures NoNewHead(was, was - gone, ns) && NoNewCycle(was, was - gone, ns)
      ensures HeadsAccounted(was, was - gone, ns, gone)
    {
      Repair.GraphMinus(was, gone, ns);
      DeletionAccounts(GraphOf(was, ns), gone);
      forall id
        ensures Reaches(GraphOf(was - gone, ns), id) ==> Reaches(GraphOf(was, ns), id)
        ensures OnCycle(GraphOf(was - gone, ns), id) ==> OnCycle(GraphOf(was, ns), id)
      {
        DeletionAddsNothing(GraphOf(was, ns), gone, id);
      }
    }
  }

  lemma CollapseOnly(was: Table, ns: string, head: Heads, wall: Time)
    requires AreHeads(was, ns, head)
    ensures OnlyTombstones(was, Collapsed(was, head, wall), {})
  {
    var now := Collapsed(was, head, wall);
    forall other
      ensures NoNewHead(was, now, other) && NoNewCycle(was, now, other) && HeadsAccounted(was, now, other, {})
    {
      CollapsedGraph(was, ns, head, wall, other);
      CollapseAccounts(GraphOf(was, other), GraphOf(now, other));
      forall id
        ensures Reaches(GraphOf(now, other), id) ==> Reaches(GraphOf(was, other), id)
        ensures OnCycle(GraphOf(now, other), id) ==> OnCycle(GraphOf(was, other), id)
      {
        CollapseKeepsReach(GraphOf(was, other), GraphOf(now, other), id);
        CollapseClosesNoCycle(GraphOf(was, other), GraphOf(now, other), id);
      }
    }
    forall id | id in was && now[id] != was[id]
      ensures IsTombstoning(was[id], now[id])
    {
      assert IsHeaded(was, ns, head, id);
    }
  }

  lemma OnlyTombstonesTransitive(a: Table, b: Table, c: Table, x: set<Id>, y: set<Id>)
    requires OnlyTombstones(a, b, x) && OnlyTombstones(b, c, y)
    ensures OnlyTombstones(a, c, x + y)
  {
    forall ns
      ensures NoNewHead(a, c, ns) && NoNewCycle(a, c, ns) && HeadsAccounted(a, c, ns, x + y)
    {
      assert NoNewHead(a, b, ns) && NoNewHead(b, c, ns);
      assert NoNewCycle(a, b, ns) && NoNewCycle(b, c, ns);
      assert HeadsAccounted(a, b, ns, x) && HeadsAccounted(b, c, ns, y);
      AccountsBoth(GraphOf(a, ns), GraphOf(b, ns), GraphOf(c, ns), x, y);
    }
    forall id | id in c && c[id] != a[id]
      ensures IsTombstoning(a[id], c[id])
    {
      if a[id] != b[id] && b[id] != c[id] {
        assert IsTombstoning(a[id], b[id]) && IsTombstoning(b[id], c[id]);
      }
    }
  }

  lemma OutcomeOnlyTombstones(was: Table, now: Table, ns: string, dryRun: bool, wall: Time, head: Heads, gone: set<Id>)
    requires IsOutcome(was, now, ns, dryRun, wall, head, gone)
    ensures OnlyTombstones(was, now, gone)
  {
    if dryRun {
      DeletionOnly(was, gone);
    } else {
      var mid := Collapsed(was, head, wall);
      CollapseOnly(was, ns, head, wall);
      DeletionOnly(mid, gone);
      OnlyTombstonesTransitive(was, mid, now, {}, gone);
      assert {} + gone == gone;
    }
  }

  // ---- Many namespaces ----------------------------------------------------

  // A negative similarity disables dedup, zero stands for the default, and a
  // cluster has at least two members.
  function Effective(opts: Clustering.Options): Clustering.Options {
    opts.(similarity := if opts.similarity == 0.0 then DEFAULT_SIMILARITY else opts.similarity,
          minClusterSize := if opts.minClusterSize < 2 then DEFAULT_MIN_CLUSTER else opts.minClusterSize)
  }

  // What a job works with: what others delete before each call, which calls
  // fail, its options, the search, the score and the store's clock.
  datatype Setting = Setting(deletes: nat -> set<Id>, fails: nat -> bool, opts: Clustering.Options, search: Search,
                             score: Score, wall: Time)

  // One namespace's turn: the table before and after it, its calls, the heads
  // it chose, what it reported and the rows it counted, and whether it went
  // through.
  datatype Turn = Turn(ns: string, before: Table, after: Table, from: nat, to: nat, head: Heads,
                       rep: Clustering.Report, done: set<Id>, ok: bool)

  ghost predicate IsTurn(t: Turn, s: Setting) {
    var seen, late := t.before - s.deletes(t.from), Gone(s.deletes, t.from + 1, t.to);
    && t.from < t.to
    && IsOutcome(seen, t.after, t.ns, s.opts.dryRun, s.wall, t.head, late)
    && (t.ok ==> Clustering.IsDedupResult(seen, t.ns, s.opts, s.search(t.ns), s.score, t.head, t.rep, t.done, late))
    && (!t.ok ==> AnyFails(s.fails, t.from, t.to))
  }

  // The turns of these namespaces, in order, each from the table and the call
  // its predecessor left off at.
  ghost predicate AreTurns(turns: seq<Turn>, namespaces: seq<string>, was: Table, from: nat, now: Table, to: nat,
                           s: Setting)
    decreases |turns|
  {
    if turns == [] then now == was && to == from
    else
      var n := |turns| - 1;
      && n < |namespaces| && turns[n].ns == namespaces[n] && turns[n].after == now && turns[n].to == to
      && IsTurn(turns[n], s)
      && AreTurns(turns[..n], namespaces, was, from, turns[n].before, turns[n].from, s)
  }

  function Plus(rep: Report, t: Turn): Report {
    if !t.ok || t.rep.memoriesSeen == 0 then rep
    else Report(rep.namespaces + 1, rep.memoriesSeen + t.rep.memoriesSeen,
                rep.clustersFound + t.rep.clustersFound, rep.tombstoned + t.rep.tombstoned)
  }

  // What the turns that went through add up to.
  function Total(turns: seq<Turn>): Report {
    if turns == [] then Report(0, 0, 0, 0) else Plus(Total(turns[..|turns| - 1]), turns[|turns| - 1])
  }

  function Sum(turns: seq<Turn>, part: Turn -> nat): nat {
    if turns == [] then 0 else Sum(turns[..|turns| - 1], part) + part(turns[|turns| - 1])
  }

  // Each figure of the report is the sum of that figure over the turns that
  // went through; the namespaces are those with enough memories to cluster.
  ghost predicate IsSum(rep: Report, turns: seq<Turn>) {
    && rep.memoriesSeen == Sum(turns, (t: Turn) => if t.ok then t.rep.memoriesSeen else 0)
    && rep.clustersFound == Sum(turns, (t: Turn) => if t.ok then t.rep.clustersFound else 0)
    && rep.tombstoned == Sum(turns, (t: Turn) => if t.ok then t.rep.tombstoned else 0)
    && rep.namespaces == Sum(turns, (t: Turn) => if t.ok && t.rep.memoriesSeen > 0 then 1 else 0)
  }

  lemma {:induction false} TotalIsSum(turns: seq<Turn>, namespaces: seq<string>, was: Table, from: nat, now: Table,
                                      to: nat, s: Setting)
    requires AreTurns(turns, namespaces, was, from, now, to, s) && s.opts.minClusterSize >= 2
    ensures IsSum(Total(turns), turns)
    decreases |turns|
  {
    if turns != [] {
      var t := turns[|turns| - 1];
      TotalIsSum(turns[..|turns| - 1], namespaces, was, from, t.before, t.from, s);
    }
  }

  lemma TurnOnlyTombstones(t: Turn, s: Setting)
    requires IsTurn(t, s)
    ensures OnlyTombstones(t.before, t.after, Gone(s.deletes, t.from, t.to))
    ensures s.opts.dryRun ==> t.after == t.before - Gone(s.deletes, t.from, t.to)
  {
    var seen, late := t.before - s.deletes(t.from), Gone(s.deletes, t.from + 1, t.to);
    DeletionOnly(t.before, s.deletes(t.from));
    OutcomeOnlyTombstones(seen, t.after, t.ns, s.opts.dryRun, s.wall, t.head, late);
    OnlyTombstonesTransitive(t.before, seen, t.after, s.deletes(t.from), late);
    GoneJoin(s.deletes, t.from, t.from + 1, t.to);
    assert s.deletes(t.from) + late == Gone(s.deletes, t.from, t.to) by {
      assert Gone(s.deletes, t.from, t.from + 1) == Gone(s.deletes, t.from, t.from) + s.deletes(t.from);
    }
    MinusJoin(t.before, s.deletes(t.from), late);
  }

  lemma {:induction false} TurnsOnlyTombstone(turns: seq<Turn>, namespaces: seq<string>, was: Table, from: nat,
                                              now: Table, to: nat, s: Setting)
    requires AreTurns(turns, namespaces, was, from, now, to, s)
    ensures from <= to && OnlyTombstones(was, now, Gone(s.deletes, from, to))
    ensures s.opts.dryRun ==> now == was - Gone(s.deletes, from, to)
    decreases |turns|
  {
    if turns == [] {
      DeletionOnly(was, {});
      assert was - {} == was;
    } else {
      var n := |turns| - 1;
      var t := turns[n];
      TurnsOnlyTombstone(turns[..n], namespaces, was, from, t.before, t.from, s);
      TurnOnlyTombstones(t, s);
      OnlyTombstonesTransitive(was, t.before, now, Gone(s.deletes, from, t.from), Gone(s.deletes, t.from, to));
      GoneJoin(s.deletes, from, t.from, to);
      LostJoin(was, s.deletes, from, t.from, to);
    }
  }

  // One turn, and what it adds to the report if it goes through.
  method TakeTurn(st: Store, ns: string, opts: Clustering.Options, search: Search, score: Score, rep0: Report)
    returns (rep: Report, err: Outcome, ghost turn: Turn)
    requires IsSearchable(search) && opts.minClusterSize >= 2
    modifies st`rows, st`calls
    ensures err == Done || err == Failed
    ensures turn == Turn(ns, old(st.rows), st.rows, old(st.calls), st.calls, turn.head, turn.rep, turn.done,
                         err == Done)
    ensures IsTurn(turn, Setting(st.deletes, st.fails, opts, search, score, st.wall))
    ensures rep == Plus(rep0, turn)
  {
    ghost var before, from, head, done := st.rows, st.calls, map[], {};
    assert Clustering.IsSearch(search(ns));
    var nsRep;
    nsRep, err, head, done := Clustering.DedupNamespace(st, ns, opts, search(ns), score);
    turn := Turn(ns, before, st.rows, from, st.calls, head, nsRep, done, err == Done);
    rep := rep0;
    if err != Done {
      return;
    }
    if nsRep.memoriesSeen == 0 {
      return; // too few memories to cluster
    }
    rep := Report(rep.namespaces + 1, rep.memoriesSeen + nsRep.memoriesSeen,
                  rep.clustersFound + nsRep.clustersFound, rep.tombstoned + nsRep.tombstoned);
  }

  // Takes the turns one after the other. With more than one namespace, one
  // that fails is logged and skipped.
  method DedupEach(st: Store, todo: seq<string>, opts: Clustering.Options, search: Search, score: Score)
    returns (rep: Report, err: Outcome, ghost turns: seq<Turn>)
    requires IsSearchable(search) && opts.minClusterSize >= 2
    modifies st`rows, st`calls
    ensures old(st.calls) <= st.calls
    ensures err == Done || (err == Failed && |todo| == 1 && st.FailedSince(old(st.calls)))
    ensures AreTurns(turns, todo, old(st.rows), old(st.calls), st.rows, st.calls,
                     Setting(st.deletes, st.fails, opts, search, score, st.wall))
    ensures rep == Total(turns) && (err == Done ==> |turns| == |todo|)
  {
    rep, turns := Report(0, 0, 0, 0), [];
    ghost var was, from, s := st.rows, st.calls, Setting(st.deletes, st.fails, opts, search, score, st.wall);
    var scoped := |todo| == 1;
    for i := 0 to |todo|
      invariant |turns| == i && rep == Total(turns) && from <= st.calls
      invariant AreTurns(turns, todo, was, from, st.rows, st.calls, s)
    {
      var e;
      ghost var turn;
      rep, e, turn := TakeTurn(st, todo[i], opts, search, score, rep);
      turns := turns + [turn];
      if e != Done && scoped {
        return rep, e, turns;
      }
    }
    return rep, Done, turns;
  }

  // Dedups the given namespaces, or all of them. `start` is the first call
  // after they are known.
  method Dedup(st: Store, namespaces0: seq<string>, opts0: Clustering.Options, search: Search, score: Score)
    returns (rep: Report, err: Outcome, ghost namespaces: seq<string>, ghost turns: seq<Turn>, ghost start: nat)
    requires IsSearchable(search)
    modifies st`rows, st`calls
    ensures err == Done || (err == Failed && st.FailedSince(old(st.calls)))
    ensures start == old(st.calls) + if opts0.similarity >= 0.0 && namespaces0 == [] then 1 else 0
    ensures AreTurns(turns, namespaces, old(st.rows) - Gone(st.deletes, old(st.calls), start), start, st.rows, st.calls,
                     Setting(st.deletes, st.fails, Effective(opts0), search, score, st.wall))
    ensures IsSum(rep, turns)
    ensures opts0.similarity < 0.0 ==> turns == [] && err == Done
    ensures opts0.similarity >= 0.0 && err == Done ==>
      && |turns| == |namespaces|
      && Repair.Covers(old(st.rows) - Gone(st.deletes, old(st.calls), start), namespaces0, namespaces)
  {
    rep, err, namespaces, turns, start := Report(0, 0, 0, 0), Done, namespaces0, [], st.calls;
    FoundAt(st.rows, st.deletes, st.calls, st.calls);
    var opts := opts0;
    if opts.similarity < 0.0 {
      return;
    }
    if opts.similarity == 0.0 {
      opts := opts.(similarity := DEFAULT_SIMILARITY);
    }
    if opts.minClusterSize < 2 {
      opts := opts.(minClusterSize := DEFAULT_MIN_CLUSTER);
    }
    var todo := namespaces0;
    if |todo| == 0 {
      var r := st.ListNamespaces();
      start := st.calls;
      if r.Err? {
        return rep, r.error, namespaces, turns, start;
      }
      todo := r.value;
      namespaces := todo;
    }
    ghost var was, from := st.rows, st.calls;
    rep, err, turns := DedupEach(st, todo, opts, search, score);
    TotalIsSum(turns, namespaces, was, from, st.rows, st.calls,
               Setting(st.deletes, st.fails, opts, search, score, st.wall));
  }

  // ---- The pass -----------------------------------------------------------

  // A tick of the job, as it went: the table and the call it began at; the
  // dedup of the namespaces it covered, from its call `start` on; the table
  // and the call the repair began at, and the first call after the repair
  // knew its namespaces; and where it all ended.
  datatype PassLog = PassLog(
    was: Table, from: nat, covered: seq<string>, start: nat, turns: seq<Turn>,
    between: Table, mid: nat, swept: seq<string>, listed: nat, mends: seq<Repair.Mend>,
    now: Table, to: nat)

  ghost predicate IsDedup(p: PassLog, s: Setting) {
    && p.from <= p.start
    && AreTurns(p.turns, p.covered, p.was - Gone(s.deletes, p.from, p.start), p.start, p.between, p.mid, s)
  }

  ghost predicate IsRepair(p: PassLog, s: Setting) {
    && p.mid <= p.listed
    && Repair.AreMends(p.mends, p.swept, p.between - Gone(s.deletes, p.mid, p.listed), p.listed, p.now, p.to,
                       s.deletes, s.fails, false)
  }

  // Every namespace the job covers had its turn; a negative similarity
  // disables the dedup.
  ghost predicate IsThrough(p: PassLog, given: seq<string>, s: Setting) {
    if s.opts.similarity < 0.0 then p.turns == [] && p.mid == p.from
    else |p.turns| == |p.covered| && Repair.Covers(p.was - Gone(s.deletes, p.from, p.start), given, p.covered)
  }

  // The repair knew all the namespaces the job covers, and took them all.
  ghost predicate IsWhole(p: PassLog, given: seq<string>, s: Setting) {
    |p.mends| == |p.swept| && Repair.Covers(p.between - Gone(s.deletes, p.mid, p.listed), given, p.swept)
  }

  ghost predicate IsPass(p: PassLog, given: seq<string>, s: Setting) {
    && IsDedup(p, s) && IsRepair(p, s)
    && ((IsThrough(p, given, s) && IsWhole(p, given, s)) || (p.mends == [] && AnyFails(s.fails, p.from, p.to)))
  }

  // One tick of the job. A dedup that fails ends it.
  method Pass(st: Store, namespaces: seq<string>, opts: Clustering.Options, search: Search, score: Score)
    returns (ghost p: PassLog)
    requires IsSearchable(search)
    modifies st`rows, st`calls
    ensures p.was == old(st.rows) && p.from == old(st.calls) && p.now == st.rows && p.to == st.calls
    ensures IsPass(p, namespaces, Setting(st.deletes, st.fails, Effective(opts), search, score, st.wall))
  {
    ghost var was, from, s := st.rows, st.calls, Setting(st.deletes, st.fails, Effective(opts), search, score, st.wall);
    var rep, err, covered, turns, start := Dedup(st, namespaces, opts, search, score);
    ghost var between, mid := st.rows, st.calls;
    p := PassLog(was, from, covered, start, turns, between, mid, [], mid, [], between, mid);
    TurnsOnlyTombstone(turns, covered, was - Gone(s.deletes, from, start), start, between, mid, s);
    if err != Done {
      return;
    }
    var rrep, rerr, swept, mends, listed := Repair.RepairSupersession(st, namespaces, false);
    p := PassLog(was, from, covered, start, turns, between, mid, swept, listed, mends, st.rows, st.calls);
  }

  lemma DedupAccounts(p: PassLog, s: Setting, ns: string)
    requires IsDedup(p, s)
    ensures p.from <= p.mid && OnlyTombstones(p.was, p.between, Gone(s.deletes, p.from, p.mid))
    ensures Accounts(GraphOf(p.was, ns), GraphOf(p.between, ns), Gone(s.deletes, p.from, p.mid))
  {
    var early := Gone(s.deletes, p.from, p.start);
    TurnsOnlyTombstone(p.turns, p.covered, p.was - early, p.start, p.between, p.mid, s);
    DeletionOnly(p.was, early);
    OnlyTombstonesTransitive(p.was, p.was - early, p.between, early, Gone(s.deletes, p.start, p.mid));
    GoneJoin(s.deletes, p.from, p.start, p.mid);
    assert HeadsAccounted(p.was, p.between, ns, Gone(s.deletes, p.from, p.mid));
  }

  lemma RepairAccounts(p: PassLog, s: Setting, ns: string)
    requires IsRepair(p, s)
    ensures p.mid <= p.to && Accounts(GraphOf(p.between, ns), GraphOf(p.now, ns), Gone(s.deletes, p.mid, p.to))
    ensures p.now.Keys == p.between.Keys - Gone(s.deletes, p.mid, p.to)
  {
    var early := Gone(s.deletes, p.mid, p.listed);
    Repair.MendsAccount(p.mends, p.swept, p.between - early, p.listed, p.now, p.to, s.deletes, s.fails, false, ns);
    Repair.GraphMinus(p.between, early, ns);
    DeletionAccounts(GraphOf(p.between, ns), early);
    AccountsBoth(GraphOf(p.between, ns), GraphOf(p.between - early, ns), GraphOf(p.now, ns), early,
                 Gone(s.deletes, p.listed, p.to));
    GoneJoin(s.deletes, p.mid, p.listed, p.to);
  }

  // A pass, whatever fails in it, loses heads only to rows that others delete
  // meanwhile, and deletes nothing itself.
  lemma PassAccounts(p: PassLog, given: seq<string>, s: Setting, ns: string)
    requires IsPass(p, given, s)
    ensures p.from <= p.to && Accounts(GraphOf(p.was, ns), GraphOf(p.now, ns), Gone(s.deletes, p.from, p.to))
    ensures p.now.Keys == p.was.Keys - Gone(s.deletes, p.from, p.to)
  {
    DedupAccounts(p, s, ns);
    RepairAccounts(p, s, ns);
    AccountsBoth(GraphOf(p.was, ns), GraphOf(p.between, ns), GraphOf(p.now, ns), Gone(s.deletes, p.from, p.mid),
                 Gone(s.deletes, p.mid, p.to));
    GoneJoin(s.deletes, p.from, p.mid, p.to);
  }

  lemma PassKeepsNamespaces(p: PassLog, given: seq<string>, s: Setting)
    requires IsPass(p, given, s)
    ensures forall id :: id in p.now ==> id in p.was && p.now[id].ns == p.was[id].ns
  {
    DedupAccounts(p, s, "");
    var early := Gone(s.deletes, p.mid, p.listed);
    Repair.MendsAccount(p.mends, p.swept, p.between - early, p.listed, p.now, p.to, s.deletes, s.fails, false, "");
  }

  // What a pass repaired is healed at its end, but for what others deleted
  // since, whatever else of the pass failed.
  lemma PassMends(p: PassLog, given: seq<string>, s: Setting, ns: string)
    requires IsPass(p, given, s) && Repair.MendedSince(p.mends, ns).Some?
    ensures p.from < Repair.MendedSince(p.mends, ns).value <= p.to
    ensures HealedBut(GraphOf(p.now, ns), Gone(s.deletes, Repair.MendedSince(p.mends, ns).value, p.to))
  {
    DedupAccounts(p, s, ns);
    Repair.MendedIsHealed(p.mends, p.swept, p.between - Gone(s.deletes, p.mid, p.listed), p.listed, p.now, p.to,
                          s.deletes, s.fails, ns);
  }

  lemma HeldWhenListed(rows: Table, given: seq<string>, namespaces: seq<string>, id: Id)
    requires Repair.Covers(rows, given, namespaces) && id in rows && (given == [] || rows[id].ns in given)
    ensures rows[id].ns in namespaces
  {
  }

  lemma CoveredByRepair(p: PassLog, given: seq<string>, s: Setting, id: Id)
    requires IsPass(p, given, s) && !AnyFails(s.fails, p.from, p.to)
    requires id in p.now && (given == [] || p.now[id].ns in given)
    ensures p.now[id].ns in p.swept && |p.mends| == |p.swept|
    ensures forall j :: 0 <= j < |p.mends| ==> p.mends[j].ns == p.swept[j] && p.mends[j].ok
  {
    var ns, first := p.now[id].ns, p.between - Gone(s.deletes, p.mid, p.listed);
    DedupAccounts(p, s, ns);
    Repair.MendsGoThrough(p.mends, p.swept, first, p.listed, p.now, p.to, s.deletes, s.fails, false);
    Repair.MendsAccount(p.mends, p.swept, first, p.listed, p.now, p.to, s.deletes, s.fails, false, ns);
    HeldWhenListed(first, given, p.swept, id);
  }

  // If no call of it fails, a pass mends every namespace it covers.
  lemma PassCovers(p: PassLog, given: seq<string>, s: Setting, id: Id)
    requires IsPass(p, given, s) && !AnyFails(s.fails, p.from, p.to)
    requires id in p.now && (given == [] || p.now[id].ns in given)
    ensures Repair.MendedSince(p.mends, p.now[id].ns).Some?
  {
    var ns := p.now[id].ns;
    CoveredByRepair(p, given, s, id);
    var i :| 0 <= i < |p.swept| && p.swept[i] == ns;
    assert p.mends[i].ns == ns;
    Repair.MendedBy(p.mends, ns);
  }

  // Dedup followed by repair: after a pass no call of which fails, a row of a
  // namespace it covers lacks a live head if and only if its chain runs out at
  // a row that others deleted after the repair listed that namespace.
  lemma RepairCompletesPass(p: PassLog, given: seq<string>, s: Setting, id: Id)
    requires IsPass(p, given, s) && !AnyFails(s.fails, p.from, p.to)
    requires id in p.now && (given == [] || p.now[id].ns in given)
    ensures var g, since := GraphOf(p.now, p.now[id].ns), Repair.MendedSince(p.mends, p.now[id].ns);
      && since.Some? && p.from < since.value <= p.to
      && (!Reaches(g, id) <==> RunsOut(g, id, Gone(s.deletes, since.value, p.to)))
  {
    var ns := p.now[id].ns;
    PassCovers(p, given, s, id);
    PassMends(p, given, s, ns);
    LostHead(GraphOf(p.now, ns), id, Gone(s.deletes, Repair.MendedSince(p.mends, ns).value, p.to));
  }

  // ---- What a pass leaves of a cluster ------------------------------------

  ghost function RowsIn(rows: Table, ns: string): Table {
    map id | id in rows && rows[id].ns == ns :: rows[id]
  }

  // Between two moments the namespace only lost rows that others deleted.
  ghost predicate IsLeftAlone(was: Table, now: Table, ns: string, gone: set<Id>) {
    && RowsIn(now, ns) == RowsIn(was, ns) - gone
    && now.Keys <= was.Keys && forall id :: id in now ==> now[id].ns == was[id].ns
  }

  lemma LeftAloneTwice(a: Table, b: Table, c: Table, ns: string, deletes: nat -> set<Id>, lo: nat, mid: nat, hi: nat)
    requires lo <= mid <= hi
    requires IsLeftAlone(a, b, ns, Gone(deletes, lo, mid)) && IsLeftAlone(b, c, ns, Gone(deletes, mid, hi))
    ensures IsLeftAlone(a, c, ns, Gone(deletes, lo, hi))
  {
    GoneJoin(deletes, lo, mid, hi);
    MinusJoin(RowsIn(a, ns), Gone(deletes, lo, mid), Gone(deletes, mid, hi));
  }

  lemma DeletionLeavesAlone(rows: Table, ns: string, gone: set<Id>)
    ensures IsLeftAlone(rows, rows - gone, ns, gone)
  {
  }

  lemma CollapseElsewhere(was: Table, other: string, head: Heads, wall: Time, ns: string)
    requires AreHeads(was, other, head) && other != ns
    ensures RowsIn(Collapsed(was, head, wall), ns) == RowsIn(was, ns)
  {
    forall id | id in was && was[id].ns == ns
      ensures id !in head
    {
      assert id in head ==> IsHeaded(was, other, head, id);
    }
  }

  lemma OutcomeElsewhere(was: Table, now: Table, other: string, dryRun: bool, wall: Time, head: Heads, gone: set<Id>,
                         ns: string)
    requires IsOutcome(was, now, other, dryRun, wall, head, gone) && other != ns
    ensures IsLeftAlone(was, now, ns, gone)
  {
    CollapseElsewhere(was, other, head, wall, ns);
    DeletionLeavesAlone(if dryRun then was else Collapsed(was, head, wall), ns, gone);
  }

  lemma TurnElsewhere(t: Turn, s: Setting, ns: string)
    requires IsTurn(t, s) && t.ns != ns
    ensures IsLeftAlone(t.before, t.after, ns, Gone(s.deletes, t.from, t.to))
  {
    var seen := t.before - s.deletes(t.from);
    OutcomeElsewhere(seen, t.after, t.ns, s.opts.dryRun, s.wall, t.head, Gone(s.deletes, t.from + 1, t.to), ns);
    DeletionLeavesAlone(t.before, ns, s.deletes(t.from));
    OneGone(s.deletes, t.from);
    LeftAloneTwice(t.before, seen, t.after, ns, s.deletes, t.from, t.from + 1, t.to);
  }

  lemma OneGone(deletes: nat -> set<Id>, at: nat)
    ensures Gone(deletes, at, at + 1) == deletes(at)
  {
    assert Gone(deletes, at, at) == {};
  }

  // After its last turn a namespace is left alone by the dedup.
  lemma {:induction false} TurnsAfter(turns: seq<Turn>, namespaces: seq<string>, was: Table, from: nat, now: Table,
                                      to: nat,
                                      s: Setting, i: nat)
    requires AreTurns(turns, namespaces, was, from, now, to, s)
    requires i < |turns| && forall k :: i < k < |turns| ==> turns[k].ns != turns[i].ns
    ensures IsTurn(turns[i], s) && turns[i].to <= to
    ensures IsLeftAlone(turns[i].after, now, turns[i].ns, Gone(s.deletes, turns[i].to, to))
    decreases |turns|
  {
    var n, ns := |turns| - 1, turns[i].ns;
    if i == n {
      assert RowsIn(now, ns) - {} == RowsIn(now, ns);
    } else {
      var t := turns[n];
      TurnsAfter(turns[..n], namespaces, was, from, t.before, t.from, s, i);
      TurnElsewhere(t, s, ns);
      LeftAloneTwice(turns[i].after, t.before, now, ns, s.deletes, turns[i].to, t.from, to);
    }
  }

  lemma MendElsewhere(m: Repair.Mend, s: Setting, ns: string)
    requires Repair.IsMend(m, s.deletes, s.fails, false) && m.ns != ns
    ensures IsLeftAlone(m.before, m.after, ns, Gone(s.deletes, m.from, m.to))
  {
    assert RowsIn(Repair.Restoring(m.before, m.ids), ns) == RowsIn(m.before, ns);
  }

  // After its last repair a namespace is left alone.
  lemma {:induction false} MendsAfter(mends: seq<Repair.Mend>, namespaces: seq<string>, was: Table, from: nat,
                                      now: Table,
                                      to: nat, s: Setting, j: nat)
    requires Repair.AreMends(mends, namespaces, was, from, now, to, s.deletes, s.fails, false)
    requires j < |mends| && forall k :: j < k < |mends| ==> mends[k].ns != mends[j].ns
    ensures Repair.IsMend(mends[j], s.deletes, s.fails, false) && mends[j].to <= to
    ensures Repair.AreMends(mends[..j], namespaces, was, from, mends[j].before, mends[j].from, s.deletes, s.fails,
                            false)
    ensures IsLeftAlone(mends[j].after, now, mends[j].ns, Gone(s.deletes, mends[j].to, to))
    decreases |mends|
  {
    var n, ns := |mends| - 1, mends[j].ns;
    var m := mends[n];
    if j == n {
      assert RowsIn(now, ns) - {} == RowsIn(now, ns);
    } else {
      MendsAfter(mends[..n], namespaces, was, from, m.before, m.from, s, j);
      assert mends[..n][..j] == mends[..j];
      MendElsewhere(m, s, ns);
      LeftAloneTwice(mends[j].after, m.before, now, ns, s.deletes, mends[j].to, m.from, to);
    }
  }

  // The last turn and the last repair of a namespace in a pass, both of which
  // went through.
  ghost predicate AreTurnAndMend(p: PassLog, i: nat, j: nat, ns: string) {
    && i < |p.turns| && p.turns[i].ns == ns && p.turns[i].ok && (forall k :: i < k < |p.turns| ==> p.turns[k].ns != ns)
    && j < |p.mends| && p.mends[j].ns == ns && p.mends[j].ok && (forall k :: j < k < |p.mends| ==> p.mends[k].ns != ns)
  }

  // The table the repairs begin with.
  ghost function Unrepaired(p: PassLog, s: Setting): Table {
    p.between - Gone(s.deletes, p.mid, p.listed)
  }

  // From the end of that turn to the first repair the namespace is left alone,
  // and so it is after its last one.
  lemma BetweenTurnAndMend(p: PassLog, s: Setting, i: nat, j: nat, ns: string)
    requires IsDedup(p, s) && IsRepair(p, s) && AreTurnAndMend(p, i, j, ns)
    ensures IsTurn(p.turns[i], s) && Repair.IsMend(p.mends[j], s.deletes, s.fails, false)
    ensures p.turns[i].to <= p.listed <= p.mends[j].from && p.mends[j].to <= p.to
    ensures IsLeftAlone(p.turns[i].after, Unrepaired(p, s), ns, Gone(s.deletes, p.turns[i].to, p.listed))
    ensures Repair.AreMends(p.mends[..j], p.swept, Unrepaired(p, s), p.listed, p.mends[j].before, p.mends[j].from,
                            s.deletes, s.fails, false)
    ensures IsLeftAlone(p.mends[j].after, p.now, ns, Gone(s.deletes, p.mends[j].to, p.to))
  {
    var t, m, first := p.turns[i], p.mends[j], Unrepaired(p, s);
    TurnsAfter(p.turns, p.covered, p.was - Gone(s.deletes, p.from, p.start), p.start, p.between, p.mid, s, i);
    MendsAfter(p.mends, p.swept, first, p.listed, p.now, p.to, s, j);
    Repair.MendsGoThrough(p.mends[..j], p.swept, first, p.listed, m.before, m.from, s.deletes, s.fails, false);
    DeletionLeavesAlone(p.between, ns, Gone(s.deletes, p.mid, p.listed));
    LeftAloneTwice(t.after, p.between, first, ns, s.deletes, t.to, p.mid, p.listed);
  }

  // What a repair does to a row it finds live.
  lemma MendKeepsLive(m: Repair.Mend, s: Setting, id: Id)
    requires Repair.IsMend(m, s.deletes, s.fails, false) && id in m.before && m.before[id].supersededBy.None?
    ensures (id in m.after <==> id !in Gone(s.deletes, m.from, m.to)) && (id in m.after ==> m.after[id] == m.before[id])
  {
    ReachesStep(GraphOf(Repair.SeenBy(m, s.deletes), m.ns), id);
  }

  // Repairs leave live rows as they are.
  lemma {:induction false} MendsKeepLive(mends: seq<Repair.Mend>, namespaces: seq<string>, was: Table, from: nat,
                                         now: Table, to: nat, s: Setting, id: Id)
    requires Repair.AreMends(mends, namespaces, was, from, now, to, s.deletes, s.fails, false)
    requires id in was && was[id].supersededBy.None?
    ensures from <= to && (id in now <==> id !in Gone(s.deletes, from, to)) && (id in now ==> now[id] == was[id])
    decreases |mends|
  {
    if mends != [] {
      var n := |mends| - 1;
      MendsKeepLive(mends[..n], namespaces, was, from, mends[n].before, mends[n].from, s, id);
      GoneJoin(s.deletes, from, mends[n].from, to);
      if id in mends[n].before {
        MendKeepsLive(mends[n], s, id);
      }
    }
  }

  // A row superseded by k, or brought back because k is gone.
  ghost predicate IsLoser(rows: Table, id: Id, k: Id, ns: string) {
    && id in rows && rows[id].ns == ns
    && (rows[id].supersededBy == Some(k) || (rows[id].supersededBy.None? && k !in rows))
  }

  ghost predicate IsKeptBy(rows: Table, k: Id, ns: string) {
    k in rows ==> rows[k].ns == ns && rows[k].supersededBy.None?
  }

  lemma MendKeepsLoser(m: Repair.Mend, s: Setting, id: Id, k: Id, ns: string)
    requires Repair.IsMend(m, s.deletes, s.fails, false) && IsLoser(m.before, id, k, ns) && IsKeptBy(m.before, k, ns)
    ensures IsKeptBy(m.after, k, ns) && (k in m.after <==> k in m.before && k !in Gone(s.deletes, m.from, m.to))
    ensures id in m.after <==> id !in Gone(s.deletes, m.from, m.to)
    ensures id in m.after ==> IsLoser(m.after, id, k, ns)
  {
    var seen := Repair.SeenBy(m, s.deletes);
    GoneJoin(s.deletes, m.from, m.from + 1, m.to);
    OneGone(s.deletes, m.from);
    ReachesStep(GraphOf(seen, m.ns), id);
    ReachesStep(GraphOf(seen, m.ns), k);
  }

  lemma {:induction false} MendsKeepLoser(mends: seq<Repair.Mend>, namespaces: seq<string>, was: Table, from: nat,
                                          now: Table, to: nat, s: Setting, id: Id, k: Id, ns: string)
    requires Repair.AreMends(mends, namespaces, was, from, now, to, s.deletes, s.fails, false)
    requires IsLoser(was, id, k, ns) && IsKeptBy(was, k, ns)
    ensures from <= to && IsKeptBy(now, k, ns) && (k in now <==> k in was && k !in Gone(s.deletes, from, to))
    ensures id in now <==> id !in Gone(s.deletes, from, to)
    ensures id in now ==> IsLoser(now, id, k, ns)
    decreases |mends|
  {
    if mends != [] {
      var n := |mends| - 1;
      var m := mends[n];
      MendsKeepLoser(mends[..n], namespaces, was, from, m.before, m.from, s, id, k, ns);
      GoneJoin(s.deletes, from, m.from, to);
      if id in m.before {
        MendKeepsLoser(m, s, id, k, ns);
      } else {
        KeeperOnly(m, s, k, ns);
      }
    }
  }

  lemma KeeperOnly(m: Repair.Mend, s: Setting, k: Id, ns: string)
    requires Repair.IsMend(m, s.deletes, s.fails, false) && IsKeptBy(m.before, k, ns)
    ensures IsKeptBy(m.after, k, ns) && (k in m.after <==> k in m.before && k !in Gone(s.deletes, m.from, m.to))
    ensures m.after.Keys <= m.before.Keys
  {
    if k in m.before {
      MendKeepsLive(m, s, k);
    }
  }

  // What a repair does to a row superseded by one that is live if it is there.
  lemma MendOnLoser(m: Repair.Mend, s: Setting, id: Id, k: Id)
    requires Repair.IsMend(m, s.deletes, s.fails, false) && m.ok
    requires IsLoser(m.before, id, k, m.ns) && IsKeptBy(m.before, k, m.ns)
    ensures id in m.after <==> id !in Gone(s.deletes, m.from, m.to)
    ensures id in m.after ==> m.after[id].ns == m.ns
    ensures id in m.after ==> m.after[id].supersededBy == if k in Repair.SeenBy(m, s.deletes) then Some(k) else None
  {
    var seen := Repair.SeenBy(m, s.deletes);
    GoneJoin(s.deletes, m.from, m.from + 1, m.to);
    OneGone(s.deletes, m.from);
    ReachesStep(GraphOf(seen, m.ns), id);
    ReachesStep(GraphOf(seen, m.ns), k);
  }

  // A row of the namespace as the turn left it: at the end of the pass it is
  // gone exactly if others deleted it since; if it was live it is the same.
  lemma RowAtEnd(p: PassLog, s: Setting, i: nat, j: nat, ns: string, id: Id)
    requires IsDedup(p, s) && IsRepair(p, s) && AreTurnAndMend(p, i, j, ns)
    requires id in p.turns[i].after && p.turns[i].after[id].ns == ns && p.turns[i].after[id].supersededBy.None?
    ensures id in p.now <==> id !in Gone(s.deletes, p.turns[i].to, p.to)
    ensures id in p.now ==> p.now[id] == p.turns[i].after[id]
  {
    var t, m, first := p.turns[i], p.mends[j], Unrepaired(p, s);
    BetweenTurnAndMend(p, s, i, j, ns);
    GoneInFour(p, s, i, j, ns);
    RowLeftAlone(t.after, first, ns, Gone(s.deletes, t.to, p.listed), id);
    if id in first {
      MendsKeepLive(p.mends[..j], p.swept, first, p.listed, m.before, m.from, s, id);
      if id in m.before {
        MendKeepsLive(m, s, id);
        if id in m.after {
          RowLeftAlone(m.after, p.now, ns, Gone(s.deletes, m.to, p.to), id);
        }
      }
    }
    GoneStaysGone(p, s, i, j, ns, id);
  }

  lemma RowLeftAlone(was: Table, now: Table, ns: string, gone: set<Id>, id: Id)
    requires IsLeftAlone(was, now, ns, gone) && id in was && was[id].ns == ns
    ensures (id in now <==> id !in gone) && (id in now ==> now[id] == was[id])
  {
    assert id in RowsIn(was, ns);
    assert id in now ==> id in RowsIn(now, ns);
    assert id !in gone ==> id in RowsIn(now, ns);
  }

  // What the last repair of a namespace brings back is where recall finds it at
  // the end of the pass too, unless others deleted it or it has expired.
  lemma PassRestores(p: PassLog, s: Setting, j: nat, id: Id)
    requires IsRepair(p, s) && j < |p.mends| && p.mends[j].ok && id in p.now
    requires forall k :: j < k < |p.mends| ==> p.mends[k].ns != p.mends[j].ns
    requires id in Repair.Stranded(Repair.SeenBy(p.mends[j], s.deletes), p.mends[j].ns)
    ensures var was, ns := Repair.SeenBy(p.mends[j], s.deletes)[id], p.mends[j].ns;
      && Repair.IsBack(was, p.now[id])
      && forall now :: Repair.IsShown(p.now[id], ns, now) <==> was.expiresAt.None? || now < was.expiresAt.value
  {
    var m := p.mends[j];
    MendsAfter(p.mends, p.swept, Unrepaired(p, s), p.listed, p.now, p.to, s, j);
    Repair.RestoredIsRecalled(m, s.deletes, s.fails, id);
    RowLeftAlone(m.after, p.now, m.ns, Gone(s.deletes, m.to, p.to), id);
  }

  // What others delete from the end of the turn on, in the parts of the pass.
  lemma GoneInFour(p: PassLog, s: Setting, i: nat, j: nat, ns: string)
    requires IsDedup(p, s) && IsRepair(p, s) && AreTurnAndMend(p, i, j, ns)
    ensures var t, m := p.turns[i], p.mends[j];
      Gone(s.deletes, t.to, p.to) == Gone(s.deletes, t.to, p.listed) + Gone(s.deletes, p.listed, m.from)
                                     + Gone(s.deletes, m.from, m.to) + Gone(s.deletes, m.to, p.to)
    ensures var t, m := p.turns[i], p.mends[j];
      Gone(s.deletes, t.to, m.from + 1) ==
        Gone(s.deletes, t.to, p.listed) + Gone(s.deletes, p.listed, m.from) + s.deletes(m.from)
  {
    var t, m := p.turns[i], p.mends[j];
    TurnThenMend(p, s, i, j, ns);
    GoneJoin(s.deletes, t.to, p.listed, m.from);
    GoneJoin(s.deletes, t.to, m.from, m.to);
    GoneJoin(s.deletes, t.to, m.to, p.to);
  }

  // A row that is gone stays away: others only delete.
  lemma GoneStaysGone(p: PassLog, s: Setting, i: nat, j: nat, ns: string, id: Id)
    requires IsDedup(p, s) && IsRepair(p, s) && AreTurnAndMend(p, i, j, ns)
    ensures id in p.now ==> id in p.mends[j].after
    ensures id in p.mends[j].after ==> id in p.mends[j].before
    ensures id in p.mends[j].before ==> id in Unrepaired(p, s)
    ensures id in Unrepaired(p, s) ==> id in p.turns[i].after
  {
    var m := p.mends[j];
    BetweenTurnAndMend(p, s, i, j, ns);
    Repair.MendsAccount(p.mends[..j], p.swept, Unrepaired(p, s), p.listed, m.before, m.from, s.deletes, s.fails,
                        false, ns);
  }

  // One that the turn superseded is back to life if by the last listing of its
  // namespace its head was gone.
  lemma LoserAtEnd(p: PassLog, s: Setting, i: nat, j: nat, ns: string, id: Id, k: Id)
    requires IsDedup(p, s) && IsRepair(p, s) && AreTurnAndMend(p, i, j, ns)
    requires id in p.turns[i].after && p.turns[i].after[id].ns == ns && p.turns[i].after[id].supersededBy == Some(k)
    requires IsKeptBy(p.turns[i].after, k, ns)
    ensures id in p.now <==> id !in Gone(s.deletes, p.turns[i].to, p.to)
    ensures var found := k in p.turns[i].after && k !in Gone(s.deletes, p.turns[i].to, p.mends[j].from + 1);
      id in p.now ==> p.now[id].supersededBy == if found then Some(k) else None
  {
    var t, m, first := p.turns[i], p.mends[j], Unrepaired(p, s);
    BetweenTurnAndMend(p, s, i, j, ns);
    GoneInFour(p, s, i, j, ns);
    RowLeftAlone(t.after, first, ns, Gone(s.deletes, t.to, p.listed), id);
    GoneStaysGone(p, s, i, j, ns, id);
    GoneStaysGone(p, s, i, j, ns, k);
    if k in t.after {
      RowLeftAlone(t.after, first, ns, Gone(s.deletes, t.to, p.listed), k);
    }
    if id in first {
      MendsKeepLoser(p.mends[..j], p.swept, first, p.listed, m.before, m.from, s, id, k, ns);
      if id in m.before {
        MendOnLoser(m, s, id, k);
        if id in m.after {
          RowLeftAlone(m.after, p.now, ns, Gone(s.deletes, m.to, p.to), id);
        }
      }
    }
  }

  // What a pass leaves of one similarity component that is large enough: one
  // member that no other beats stays as it was; the others that are still
  // there point at it, unless it was deleted before the repair listed the
  // namespace: then each of them is live again.
  ghost predicate IsLeft(was: Table, now: Table, score: Score, cls: set<Id>, k: Id, gone: set<Id>, missed: set<Id>) {
    && k in cls && k in was && was[k].supersededBy.None? && (k in now <==> k !in gone) &&
      (k in now ==> now[k] == was[k])
    && forall y :: y in cls && y != k ==>
      && y in was && IsNoBetter(score, was[y], was[k])
      && (y in now <==> y !in gone) && (y in now ==> now[y].supersededBy == if k in missed then None else Some(k))
  }

  // What a turn works on: the table it lists, and the memories in it.
  ghost function Listed(t: Turn, s: Setting): Table {
    t.before - s.deletes(t.from)
  }

  ghost function LiveAt(t: Turn, s: Setting): set<Id> {
    Clustering.LiveIds(Listed(t, s), t.ns, s.opts)
  }

  ghost function ClassAt(t: Turn, s: Setting, id: Id): set<Id> {
    Clustering.ClassOf(Clustering.CandidatePairs(s.search(t.ns), LiveAt(t, s), LiveAt(t, s), s.opts.similarity),
                       LiveAt(t, s), id)
  }

  ghost predicate IsLeftOver(p: PassLog, s: Setting, i: nat, j: nat, cls: set<Id>, k: Id)
    requires i < |p.turns| && j < |p.mends|
  {
    var t := p.turns[i];
    IsLeft(Listed(t, s), p.now, s.score, cls, k, Gone(s.deletes, t.from + 1, p.to),
           Gone(s.deletes, t.from + 1, p.mends[j].from + 1))
  }

  // What becomes of a member of a component collapsed into k, of which the
  // repair found k if k was not in `before`.
  ghost predicate IsFate(mid: Table, now: Table, k: Id, since: set<Id>, before: set<Id>, y: Id) {
    if y !in mid then y !in now
    else
      && (y in now <==> y !in since)
      && (y in now ==>
            if y == k then now[y] == mid[y]
            else now[y].supersededBy == if k in mid && k !in before then Some(k) else None)
  }

  lemma LeftByFates(was: Table, mid: Table, now: Table, score: Score, cls: set<Id>, k: Id, late: set<Id>,
                    since: set<Id>, before: set<Id>,
                    gone: set<Id>, missed: set<Id>)
    requires gone == late + since && missed == late + before
    requires Clustering.IsCollapsedTo(was, mid, score, cls, k, late)
    requires forall y {:trigger y in cls} :: y in cls ==> IsFate(mid, now, k, since, before, y)
    ensures IsLeft(was, now, score, cls, k, gone, missed)
  {
  }

  lemma FateAtEnd(p: PassLog, s: Setting, i: nat, j: nat, ns: string, k: Id, y: Id)
    requires IsDedup(p, s) && IsRepair(p, s) && AreTurnAndMend(p, i, j, ns)
    requires var mid := p.turns[i].after;
      && IsKeptBy(mid, k, ns)
      && (y in mid && y != k ==> mid[y].ns == ns && mid[y].supersededBy == Some(k))
    ensures var t := p.turns[i];
      IsFate(t.after, p.now, k, Gone(s.deletes, t.to, p.to), Gone(s.deletes, t.to, p.mends[j].from + 1), y)
  {
    if y !in p.turns[i].after {
      GoneStaysGone(p, s, i, j, ns, y);
    } else if y == k {
      RowAtEnd(p, s, i, j, ns, y);
    } else {
      LoserAtEnd(p, s, i, j, ns, y, k);
    }
  }

  lemma ClusterFates(p: PassLog, s: Setting, i: nat, j: nat, ns: string, cls: set<Id>, k: Id, late: set<Id>,
                     gone: set<Id>, missed: set<Id>)
    requires IsDedup(p, s) && IsRepair(p, s) && AreTurnAndMend(p, i, j, ns)
    requires gone == late + Gone(s.deletes, p.turns[i].to, p.to)
    requires missed == late + Gone(s.deletes, p.turns[i].to, p.mends[j].from + 1)
    requires Clustering.IsCollapsedTo(Listed(p.turns[i], s), p.turns[i].after, s.score, cls, k, late)
    requires forall y :: y in cls && y in p.turns[i].after ==> p.turns[i].after[y].ns == ns
    ensures IsLeft(Listed(p.turns[i], s), p.now, s.score, cls, k, gone, missed)
  {
    var t := p.turns[i];
    var since, before := Gone(s.deletes, t.to, p.to), Gone(s.deletes, t.to, p.mends[j].from + 1);
    forall y | y in cls
      ensures IsFate(t.after, p.now, k, since, before, y)
    {
      FateAtEnd(p, s, i, j, ns, k, y);
    }
    LeftByFates(Listed(t, s), t.after, p.now, s.score, cls, k, late, since, before, gone, missed);
  }

  lemma TurnThenMend(p: PassLog, s: Setting, i: nat, j: nat, ns: string)
    requires IsDedup(p, s) && IsRepair(p, s) && AreTurnAndMend(p, i, j, ns)
    ensures p.turns[i].from < p.turns[i].to <= p.listed <= p.mends[j].from < p.mends[j].to <= p.to
  {
    BetweenTurnAndMend(p, s, i, j, ns);
  }

  lemma GoneSinceListed(p: PassLog, s: Setting, i: nat, j: nat, ns: string)
    requires IsDedup(p, s) && IsRepair(p, s) && AreTurnAndMend(p, i, j, ns)
    ensures var t, m := p.turns[i], p.mends[j];
      && Gone(s.deletes, t.from + 1, p.to) == Gone(s.deletes, t.from + 1, t.to) + Gone(s.deletes, t.to, p.to)
      && Gone(s.deletes, t.from + 1, m.from + 1) ==
        Gone(s.deletes, t.from + 1, t.to) + Gone(s.deletes, t.to, m.from + 1)
  {
    TurnThenMend(p, s, i, j, ns);
    GoneJoin(s.deletes, p.turns[i].from + 1, p.turns[i].to, p.to);
    GoneJoin(s.deletes, p.turns[i].from + 1, p.turns[i].to, p.mends[j].from + 1);
  }

  lemma ClusterAtEnd(p: PassLog, s: Setting, i: nat, j: nat, ns: string, cls: set<Id>, k: Id)
    requires IsDedup(p, s) && IsRepair(p, s) && AreTurnAndMend(p, i, j, ns)
    requires var t := p.turns[i];
      Clustering.IsCollapsedTo(Listed(t, s), t.after, s.score, cls, k, Gone(s.deletes, t.from + 1, t.to))
    requires forall y :: y in cls && y in p.turns[i].after ==> p.turns[i].after[y].ns == ns
    ensures IsLeftOver(p, s, i, j, cls, k)
  {
    var t, m := p.turns[i], p.mends[j];
    GoneSinceListed(p, s, i, j, ns);
    ClusterFates(p, s, i, j, ns, cls, k, Gone(s.deletes, t.from + 1, t.to), Gone(s.deletes, t.from + 1, p.to),
                 Gone(s.deletes, t.from + 1, m.from + 1));
  }

  lemma TurnKeepsNamespaces(t: Turn, s: Setting, id: Id)
    requires IsTurn(t, s) && id in t.after
    ensures id in Listed(t, s) && t.after[id].ns == Listed(t, s)[id].ns
  {
  }

  // The exact outcome for each memory the turn listed: alone or in too small a
  // component it stays as it was, and otherwise its component is left so.
  lemma OneSurvivorAtEnd(p: PassLog, s: Setting, i: nat, j: nat, ns: string, id: Id)
    requires IsDedup(p, s) && IsRepair(p, s) && AreTurnAndMend(p, i, j, ns) && !s.opts.dryRun
    requires id in LiveAt(p.turns[i], s) && |LiveAt(p.turns[i], s)| >= s.opts.minClusterSize
    ensures var t := p.turns[i];
      var was, cls, gone := Listed(t, s), ClassAt(t, s, id), Gone(s.deletes, t.from + 1, p.to);
      if |cls| < s.opts.minClusterSize then (id in p.now <==> id !in gone) && (id in p.now ==> p.now[id] == was[id])
      else exists k :: IsLeftOver(p, s, i, j, cls, k)
  {
    var t := p.turns[i];
    BetweenTurnAndMend(p, s, i, j, ns);
    var was, cls, late := Listed(t, s), ClassAt(t, s, id), Gone(s.deletes, t.from + 1, t.to);
    Clustering.OneSurvivor(was, t.after, ns, s.opts, s.search(ns), s.score, s.wall, t.head, t.rep, t.done, late, id);
    if |cls| < s.opts.minClusterSize {
      SmallAtEnd(p, s, i, j, ns, id);
    } else {
      var k :| Clustering.IsCollapsedTo(was, t.after, s.score, cls, k, late);
      forall y | y in cls && y in t.after
        ensures t.after[y].ns == ns
      {
        TurnKeepsNamespaces(t, s, y);
      }
      ClusterAtEnd(p, s, i, j, ns, cls, k);
    }
  }

  lemma SurvivorOf(p: PassLog, s: Setting, i: nat, j: nat, ns: string, id: Id) returns (k: Id)
    requires IsDedup(p, s) && IsRepair(p, s) && AreTurnAndMend(p, i, j, ns) && !s.opts.dryRun
    requires id in LiveAt(p.turns[i], s) && |LiveAt(p.turns[i], s)| >= s.opts.minClusterSize
    requires |ClassAt(p.turns[i], s, id)| >= s.opts.minClusterSize
    ensures IsLeftOver(p, s, i, j, ClassAt(p.turns[i], s, id), k)
  {
    OneSurvivorAtEnd(p, s, i, j, ns, id);
    k :| IsLeftOver(p, s, i, j, ClassAt(p.turns[i], s, id), k);
  }

  // A turn over too few memories to cluster changes none of them.
  lemma TurnOfFew(t: Turn, s: Setting, id: Id)
    requires IsTurn(t, s) && t.ok && |LiveAt(t, s)| < s.opts.minClusterSize && id in Listed(t, s)
    ensures id in t.after <==> id !in Gone(s.deletes, t.from + 1, t.to)
    ensures id in t.after ==> t.after[id] == Listed(t, s)[id]
  {
  }

  // Two memories the search finds alike, at 0.85 or the threshold given, do not
  // both stay live, if pairs are merged, unless others delete the one that both
  // were merged into before the repair.
  lemma TwinsAtEnd(p: PassLog, s: Setting, opts: Clustering.Options, i: nat, j: nat, ns: string, x: Id, y: Id)
    requires s.opts == Effective(opts) && !opts.dryRun && opts.similarity >= 0.0 && opts.minClusterSize <= 2
    requires IsDedup(p, s) && IsRepair(p, s) && AreTurnAndMend(p, i, j, ns)
    requires var was := Listed(p.turns[i], s);
      && x in was && Clustering.IsOpen(was[x], ns, opts.tiers, opts.now)
      && y in was && Clustering.IsOpen(was[y], ns, opts.tiers, opts.now)
    requires Clustering.IsNear(s.search(ns), x, y, if opts.similarity == 0.0 then 0.85 else opts.similarity)
    requires x in p.now && p.now[x].supersededBy.None? && y in p.now && p.now[y].supersededBy.None?
    ensures exists k :: k in Listed(p.turns[i], s) && k in Gone(s.deletes, p.turns[i].from + 1, p.mends[j].from + 1)
  {
    var t := p.turns[i];
    Clustering.NearTogether(Listed(t, s), ns, s.opts, s.search(ns), x, y);
    var k := SurvivorOf(p, s, i, j, ns, x);
    BothLive(Listed(t, s), p.now, s.score, ClassAt(t, s, x), k, Gone(s.deletes, t.from + 1, p.to),
             Gone(s.deletes, t.from + 1, p.mends[j].from + 1), x, y);
  }

  lemma BothLive(was: Table, now: Table, score: Score, cls: set<Id>, k: Id, gone: set<Id>, missed: set<Id>, x: Id,
                 y: Id)
    requires IsLeft(was, now, score, cls, k, gone, missed) && x in cls && y in cls && x != y
    requires x in now && now[x].supersededBy.None? && y in now && now[y].supersededBy.None?
    ensures k in was && k in missed
  {
    assert x != k || y != k;
  }

  // A memory the search finds nothing alike to stays as it was.
  lemma LonerAtEnd(p: PassLog, s: Setting, opts: Clustering.Options, i: nat, j: nat, ns: string, x: Id)
    requires s.opts == Effective(opts) && !opts.dryRun && opts.similarity >= 0.0
    requires IsDedup(p, s) && IsRepair(p, s) && AreTurnAndMend(p, i, j, ns)
    requires var was := Listed(p.turns[i], s);
      && x in was && Clustering.IsOpen(was[x], ns, opts.tiers, opts.now)
      && Clustering.IsLoner(was, ns, opts.tiers, opts.now, s.search(ns),
                            if opts.similarity == 0.0 then 0.85 else opts.similarity, x)
    ensures var t := p.turns[i];
      && (x in p.now <==> x !in Gone(s.deletes, t.from + 1, p.to))
      && (x in p.now ==> p.now[x] == Listed(t, s)[x])
  {
    var t := p.turns[i];
    Clustering.LonerAlone(Listed(t, s), ns, s.opts, s.search(ns), x);
    if |LiveAt(t, s)| >= s.opts.minClusterSize {
      OneSurvivorAtEnd(p, s, i, j, ns, x);
    } else {
      FewAtEnd(p, s, i, j, ns, x);
    }
  }

  lemma FewAtEnd(p: PassLog, s: Setting, i: nat, j: nat, ns: string, id: Id)
    requires IsDedup(p, s) && IsRepair(p, s) && AreTurnAndMend(p, i, j, ns)
    requires id in LiveAt(p.turns[i], s) && |LiveAt(p.turns[i], s)| < s.opts.minClusterSize
    ensures id in p.now <==> id !in Gone(s.deletes, p.turns[i].from + 1, p.to)
    ensures id in p.now ==> p.now[id] == Listed(p.turns[i], s)[id]
  {
    BetweenTurnAndMend(p, s, i, j, ns);
    TurnOfFew(p.turns[i], s, id);
    SmallAtEnd(p, s, i, j, ns, id);
  }

  lemma SmallAtEnd(p: PassLog, s: Setting, i: nat, j: nat, ns: string, id: Id)
    requires IsDedup(p, s) && IsRepair(p, s) && AreTurnAndMend(p, i, j, ns)
    requires id in LiveAt(p.turns[i], s)
    requires var t := p.turns[i];
      (id in t.after <==> id !in Gone(s.deletes, t.from + 1, t.to)) &&
        (id in t.after ==> t.after[id] == Listed(t, s)[id])
    ensures id in p.now <==> id !in Gone(s.deletes, p.turns[i].from + 1, p.to)
    ensures id in p.now ==> p.now[id] == Listed(p.turns[i], s)[id]
  {
    var t := p.turns[i];
    TurnThenMend(p, s, i, j, ns);
    GoneJoin(s.deletes, t.from + 1, t.to, p.to);
    if id in t.after {
      RowAtEnd(p, s, i, j, ns, id);
    } else {
      GoneStaysGone(p, s, i, j, ns, id);
    }
  }

  lemma {:induction false} TurnsGoThrough(turns: seq<Turn>, namespaces: seq<string>, was: Table, from: nat,
                                          now: Table, to: nat, s: Setting)
    requires AreTurns(turns, namespaces, was, from, now, to, s)
    ensures from <= to && |turns| <= |namespaces| && forall i :: 0 <= i < |turns| ==> turns[i].ns == namespaces[i]
    ensures AnyFails(s.fails, from, to) || forall i :: 0 <= i < |turns| ==> turns[i].ok
    decreases |turns|
  {
    if turns != [] {
      var n := |turns| - 1;
      TurnsGoThrough(turns[..n], namespaces, was, from, turns[n].before, turns[n].from, s);
      assert forall i :: 0 <= i < n ==> turns[..n][i] == turns[i];
    }
  }

  lemma CoveredByDedup(p: PassLog, given: seq<string>, s: Setting, id: Id)
    requires IsPass(p, given, s) && !AnyFails(s.fails, p.from, p.to) && s.opts.similarity >= 0.0
    requires id in p.now && (given == [] || p.now[id].ns in given)
    ensures p.now[id].ns in p.covered && |p.turns| == |p.covered|
    ensures forall i :: 0 <= i < |p.turns| ==> p.turns[i].ns == p.covered[i] && p.turns[i].ok
  {
    PassAccounts(p, given, s, "");
    PassKeepsNamespaces(p, given, s);
    DedupAccounts(p, s, "");
    RepairAccounts(p, s, "");
    TurnsGoThrough(p.turns, p.covered, p.was - Gone(s.deletes, p.from, p.start), p.start, p.between, p.mid, s);
    GoneJoin(s.deletes, p.from, p.start, p.to);
    HeldWhenListed(p.was - Gone(s.deletes, p.from, p.start), given, p.covered, id);
  }

  lemma {:induction false} LastOf(namespaces: seq<string>, ns: string) returns (i: nat)
    requires ns in namespaces
    ensures i < |namespaces| && namespaces[i] == ns && forall k :: i < k < |namespaces| ==> namespaces[k] != ns
  {
    var n := |namespaces| - 1;
    if namespaces[n] == ns {
      return n;
    }
    assert namespaces == namespaces[..n] + [namespaces[n]];
    i := LastOf(namespaces[..n], ns);
  }

  // If no call of it fails, a pass gives every namespace it covers that still
  // holds rows a last turn and a last repair that go through.
  lemma PassTakesEach(p: PassLog, given: seq<string>, s: Setting, id: Id) returns (i: nat, j: nat)
    requires IsPass(p, given, s) && !AnyFails(s.fails, p.from, p.to) && s.opts.similarity >= 0.0
    requires id in p.now && (given == [] || p.now[id].ns in given)
    ensures AreTurnAndMend(p, i, j, p.now[id].ns)
  {
    CoveredByDedup(p, given, s, id);
    CoveredByRepair(p, given, s, id);
    i := LastOf(p.covered, p.now[id].ns);
    j := LastOf(p.swept, p.now[id].ns);
  }
}
