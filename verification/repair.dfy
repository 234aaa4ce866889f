// internal/maintenance/repair.go: healing broken supersession chains.
module Repair {
  import opened Common
  import opened Supersession
  import opened MemoryStore

  const EVERYTHING := Filter({}, true, true, 0)

  // The ids repair brings back: tombstones of ns whose chain reaches no live row.
  ghost function Stranded(rows: Table, ns: string): set<Id> {
    set id | id in rows && rows[id].ns == ns && !Reaches(GraphOf(rows, ns), id)
  }

  ghost function Restoring(rows: Table, ids: set<Id>): Table {
    map id | id in rows :: if id in ids then AsRestored(rows[id]) else rows[id]
  }

  // ---- One namespace ------------------------------------------------------

  method ByID(ghost rows: Table, ns: string, mems: seq<Mem>) returns (byID: Graph)
    requires IsListing(rows, ns, EVERYTHING, mems)
    ensures byID == GraphOf(rows, ns)
  {
    byID := map[];
    for i := 0 to |mems|
      invariant forall j :: 0 <= j < i ==> mems[j].id in byID
      invariant forall id :: id in byID ==> id in GraphOf(rows, ns) && byID[id] == GraphOf(rows, ns)[id]
    {
      byID := byID[mems[i].id := mems[i].row.supersededBy];
    }
  }

  // The listed rows that are stranded and not yet in done all lie from i on.
  ghost predicate Handled(mems: seq<Mem>, i: int, stranded: set<Id>, done: set<Id>) {
    && 0 <= i <= |mems| && done <= stranded
    && (forall j :: 0 <= j < i ==> mems[j].id in stranded ==> mems[j].id in done)
    && (forall j :: i <= j < |mems| ==> mems[j].id !in done)
  }

  lemma HandleNext(mems: seq<Mem>, i: int, stranded: set<Id>, done: set<Id>)
    requires Handled(mems, i, stranded, done) && i < |mems| && Distinct(mems)
    ensures mems[i].id !in stranded ==> Handled(mems, i + 1, stranded, done)
    ensures mems[i].id in stranded ==> Handled(mems, i + 1, stranded, done + {mems[i].id})
    ensures mems[i].id !in done
  {
  }

  lemma AllHandled(rows: Table, ns: string, mems: seq<Mem>, done: set<Id>)
    requires IsListing(rows, ns, EVERYTHING, mems)
    requires Handled(mems, |mems|, Stranded(rows, ns), done)
    ensures done == Stranded(rows, ns)
  {
    forall id | id in Stranded(rows, ns)
      ensures id in done
    {
      assert id in Ids(mems);
    }
  }

  // A repair of one namespace: the table before and after it, its calls, the
  // rows it set out to restore, and whether it went through.
  datatype Mend = Mend(ns: string, before: Table, after: Table, from: nat, to: nat, ids: set<Id>, ok: bool)

  // What it listed, with its first call.
  ghost function SeenBy(m: Mend, deletes: nat -> set<Id>): Table {
    m.before - deletes(m.from)
  }

  ghost predicate IsMend(m: Mend, deletes: nat -> set<Id>, fails: nat -> bool, dryRun: bool) {
    && m.from < m.to
    && m.ids <= Stranded(SeenBy(m, deletes), m.ns)
    && (m.ok ==> m.ids == if dryRun then {} else Stranded(SeenBy(m, deletes), m.ns))
    && (dryRun ==> m.ids == {})
    && (!m.ok ==> AnyFails(fails, m.from, m.to))
    && m.after == Restoring(m.before, m.ids) - Gone(deletes, m.from, m.to)
  }

  // Restoring and being deleted do not get in each other's way.
  lemma RestoringSeen(before: Table, deletes: nat -> set<Id>, lo: nat, hi: nat, ids: set<Id>)
    requires lo < hi
    ensures Restoring(before - deletes(lo), ids) - Gone(deletes, lo + 1, hi) ==
      Restoring(before, ids) - Gone(deletes, lo, hi)
    ensures Restoring(before, {}) == before
  {
    GoneJoin(deletes, lo, lo + 1, hi);
    assert Gone(deletes, lo, lo + 1) == Gone(deletes, lo, lo) + deletes(lo);
    MinusJoin(Restoring(before, ids), deletes(lo), Gone(deletes, lo + 1, hi));
    assert Restoring(before - deletes(lo), ids) == Restoring(before, ids) - deletes(lo);
  }

  // One listed row: restored, or on a dry run only counted, if it is stranded.
  method RepairRow(st: Store, ns: string, m: Mem, byID: Graph, dryRun: bool, ghost seen: Table,
                   ghost revived: set<Id>, ghost since: nat)
    returns (stranded: bool, err: Outcome)
    requires byID == GraphOf(seen, ns) && m.id in byID && byID[m.id] == m.row.supersededBy
    requires m.id !in revived && since <= st.calls && st.rows == Restoring(seen, revived) - st.Lost(since)
    modifies st`rows, st`calls
    ensures old(st.calls) <= st.calls && (err == Done || (err == Failed && st.FailedSince(old(st.calls))))
    ensures stranded == (m.id in Stranded(seen, ns))
    ensures var now := if err == Done && stranded && !dryRun then revived + {m.id} else revived;
      st.rows == Restoring(seen, now) - st.Lost(since)
  {
    err := Done;
    if m.row.supersededBy.None? {
      ReachesStep(byID, m.id);
      return false, Done;
    }
    var live := ReachesLive(byID, m.id);
    if live {
      return false, Done;
    }
    stranded := true;
    if dryRun {
      return;
    }
    ghost var base := Restoring(seen, revived);
    FoundAt(base, st.deletes, since, st.calls);
    var e := st.Restore(ns, m.id);
    if e != Done && e != NotFound {
      return stranded, e;
    }
    WrittenThrough(base, st.Lost(since), st.rows, m.id, AsRestored(base[m.id]));
  }

  method RepairListed(st: Store, ns: string, mems: seq<Mem>, byID: Graph, dryRun: bool, ghost seen: Table)
    returns (restored: nat, err: Outcome, ghost revived: set<Id>)
    requires IsListing(seen, ns, EVERYTHING, mems) && byID == GraphOf(seen, ns) && st.rows == seen
    modifies st`rows, st`calls
    ensures err == Done || (err == Failed && st.FailedSince(old(st.calls)))
    ensures old(st.calls) <= st.calls && st.rows == Restoring(seen, revived) - st.Lost(old(st.calls))
    ensures revived <= Stranded(seen, ns) && (dryRun ==> revived == {})
    ensures err == Done ==> restored == |Stranded(seen, ns)| && (dryRun || revived == Stranded(seen, ns))
  {
    ghost var since, stranded, done: set<Id> := st.calls, Stranded(seen, ns), {};
    restored, revived := 0, {};
    RestoringSeen(seen, st.deletes, since, since + 1, {});
    for i := 0 to |mems|
      invariant Handled(mems, i, stranded, done) && restored == |done| && since <= st.calls
      invariant revived == (if dryRun then {} else done) && st.rows == Restoring(seen, revived) - st.Lost(since)
    {
      HandleNext(mems, i, stranded, done);
      var hit, e := RepairRow(st, ns, mems[i], byID, dryRun, seen, revived, since);
      if hit {
        restored := restored + 1;
      }
      if e != Done {
        return restored, e, revived;
      }
      if hit {
        done := done + {mems[i].id};
        revived := if dryRun then {} else done;
      }
    }
    AllHandled(seen, ns, mems, done);
    err := Done;
  }

  // Sets out to restore exactly the stranded rows of the namespace, or on a
  // dry run counts them; a row deleted meanwhile needs no restoring.
  method RepairNamespace(st: Store, ns: string, dryRun: bool) returns (restored: nat, err: Outcome, ghost mend: Mend)
    modifies st`rows, st`calls
    ensures err == Done || err == Failed
    ensures mend == Mend(ns, old(st.rows), st.rows, old(st.calls), st.calls, mend.ids, err == Done)
    ensures IsMend(mend, st.deletes, st.fails, dryRun)
    ensures err == Done ==> restored == |Stranded(SeenBy(mend, st.deletes), ns)|
  {
    ghost var was, from := st.rows, st.calls;
    var r := st.List(ns, EVERYTHING);
    if r.Err? {
      RestoringSeen(was, st.deletes, from, st.calls, {});
      assert Restoring(st.rows, {}) == st.rows && Gone(st.deletes, from + 1, st.calls) == {} && st.rows - {} == st.rows;
      return 0, Failed, Mend(ns, was, st.rows, from, st.calls, {}, false);
    }
    ghost var seen := st.rows;
    var byID := ByID(seen, ns, r.value);
    ghost var revived;
    restored, err, revived := RepairListed(st, ns, r.value, byID, dryRun, seen);
    RestoringSeen(was, st.deletes, from, st.calls, revived);
    mend := Mend(ns, was, st.rows, from, st.calls, revived, err == Done);
  }

  // ---- All namespaces -----------------------------------------------------

  datatype Report = Report(restored: nat, namespaces: nat)

  function Counted(rep: Report, n: nat): Report {
    if n > 0 then Report(rep.restored + n, rep.namespaces + 1) else rep
  }

  // What the namespaces that went through add up to.
  ghost function Total(mends: seq<Mend>, deletes: nat -> set<Id>): Report {
    if mends == [] then Report(0, 0)
    else
      var rest, m := Total(mends[..|mends| - 1], deletes), mends[|mends| - 1];
      if m.ok then Counted(rest, |Stranded(SeenBy(m, deletes), m.ns)|) else rest
  }

  // The repairs of these namespaces, in order, each from the table and the
  // call its predecessor left off at.
  ghost predicate AreMends(mends: seq<Mend>, namespaces: seq<string>, was: Table, from: nat, now: Table, to: nat,
                           deletes: nat -> set<Id>, fails: nat -> bool, dryRun: bool)
    decreases |mends|
  {
    if mends == [] then now == was && to == from
    else
      var n := |mends| - 1;
      && n < |namespaces| && mends[n].ns == namespaces[n] && mends[n].after == now && mends[n].to == to
      && IsMend(mends[n], deletes, fails, dryRun)
      && AreMends(mends[..n], namespaces, was, from, mends[n].before, mends[n].from, deletes, fails, dryRun)
  }

  // The namespaces a call covers: the ones given, else all that hold rows.
  ghost predicate Covers(rows: Table, given: seq<string>, namespaces: seq<string>) {
    if given != [] then namespaces == given
    else Unique(namespaces) && forall ns :: ns in namespaces <==> exists id :: id in rows && rows[id].ns == ns
  }

  lemma TotalNext(mends: seq<Mend>, m: Mend, deletes: nat -> set<Id>)
    ensures Total(mends + [m], deletes) ==
      if m.ok then Counted(Total(mends, deletes), |Stranded(SeenBy(m, deletes), m.ns)|) else Total(mends, deletes)
  {
    assert (mends + [m])[..|mends|] == mends;
  }

  lemma OneMoreMend(mends: seq<Mend>, m: Mend, namespaces: seq<string>, was: Table, from: nat,
                    deletes: nat -> set<Id>, fails: nat -> bool, dryRun: bool)
    requires AreMends(mends, namespaces, was, from, m.before, m.from, deletes, fails, dryRun)
    requires |mends| < |namespaces| && m.ns == namespaces[|mends|] && IsMend(m, deletes, fails, dryRun)
    ensures AreMends(mends + [m], namespaces, was, from, m.after, m.to, deletes, fails, dryRun)
  {
    assert (mends + [m])[..|mends|] == mends;
  }

  // Repairs the namespaces in scope, one after the other; one that fails is
  // logged and skipped. `start` is the first call after they are known.
  method RepairSupersession(st: Store, namespaces0: seq<string>, dryRun: bool)
    returns (rep: Report, err: Outcome, ghost namespaces: seq<string>, ghost mends: seq<Mend>, ghost start: nat)
    modifies st`rows, st`calls
    ensures err == Done || err == Failed
    ensures start == old(st.calls) + if namespaces0 == [] then 1 else 0
    ensures AreMends(mends, namespaces, old(st.rows) - Gone(st.deletes, old(st.calls), start), start, st.rows, st.calls,
                     st.deletes, st.fails, dryRun)
    ensures err == Failed ==> mends == [] && st.FailedSince(old(st.calls))
    ensures err == Done ==> |mends| == |namespaces|
    ensures err == Done ==> Covers(old(st.rows) - Gone(st.deletes, old(st.calls), start), namespaces0, namespaces)
    ensures rep == Total(mends, st.deletes)
  {
    rep, err, mends, start, namespaces := Report(0, 0), Done, [], st.calls, namespaces0;
    ghost var was, from := st.rows, st.calls;
    FoundAt(was, st.deletes, from, from);
    var todo := namespaces0;
    if |todo| == 0 {
      var r := st.ListNamespaces();
      start := st.calls;
      if r.Err? {
        return rep, r.error, namespaces, mends, start;
      }
      todo := r.value;
      namespaces := todo;
    }
    ghost var first := st.rows;
    for i := 0 to |todo|
      invariant |mends| == i && rep == Total(mends, st.deletes)
      invariant AreMends(mends, todo, first, start, st.rows, st.calls, st.deletes, st.fails, dryRun)
    {
      var n, e;
      ghost var mend;
      n, e, mend := RepairNamespace(st, todo[i], dryRun);
      OneMoreMend(mends, mend, todo, first, start, st.deletes, st.fails, dryRun);
      TotalNext(mends, mend, st.deletes);
      mends := mends + [mend];
      if e != Done {
        continue;
      }
      if n > 0 {
        rep := Report(rep.restored + n, rep.namespaces + 1);
      }
    }
  }

  // ---- What repair leaves -------------------------------------------------

  lemma GraphMinus(rows: Table, gone: set<Id>, ns: string)
    ensures GraphOf(rows - gone, ns) == GraphOf(rows, ns) - gone
  {
  }

  lemma RevivesKeepsHeads(rows: Table, ids: set<Id>, ns: string, id: Id)
    requires Reaches(GraphOf(rows, ns), id)
    ensures Reaches(GraphOf(Restoring(rows, ids), ns), id)
  {
    var g, h := GraphOf(rows, ns), GraphOf(Restoring(rows, ids), ns);
    var n: nat :| ReachesIn(g, id, n);
    ReachesWithin(g, id, n, {});
    EnlivenEnds(g, h, id, n, {});
    ReachesWithin(h, id, n, {});
  }

  // A repair, whatever becomes of it, loses heads only to rows that others
  // delete meanwhile.
  lemma MendAccounts(m: Mend, deletes: nat -> set<Id>, fails: nat -> bool, dryRun: bool, ns: string)
    requires IsMend(m, deletes, fails, dryRun)
    ensures Accounts(GraphOf(m.before, ns), GraphOf(m.after, ns), Gone(deletes, m.from, m.to))
  {
    var gone, mid := Gone(deletes, m.from, m.to), GraphOf(Restoring(m.before, m.ids), ns);
    EnlivenAccounts(GraphOf(m.before, ns), mid);
    GraphMinus(Restoring(m.before, m.ids), gone, ns);
    DeletionAccounts(mid, gone);
    AccountsBoth(GraphOf(m.before, ns), mid, GraphOf(m.after, ns), {}, gone);
    assert {} + gone == gone;
  }

  // A repair that went through leaves a live head to every row of its
  // namespace but those whose chain runs out at a row deleted after it was
  // listed, whatever the graph was before.
  lemma MendHeals(m: Mend, deletes: nat -> set<Id>, fails: nat -> bool)
    requires IsMend(m, deletes, fails, false) && m.ok
    ensures HealedBut(GraphOf(m.after, m.ns), Gone(deletes, m.from + 1, m.to))
  {
    var seen, late := SeenBy(m, deletes), Gone(deletes, m.from + 1, m.to);
    var restored := Restoring(seen, m.ids);
    RestoringSeen(m.before, deletes, m.from, m.to, m.ids);
    assert GraphOf(restored, m.ns) == Repaired(GraphOf(seen, m.ns));
    RepairHeals(GraphOf(seen, m.ns));
    HealedIsHealedBut(GraphOf(restored, m.ns), {});
    GraphMinus(restored, late, m.ns);
    DeletionAccounts(GraphOf(restored, m.ns), late);
    assert {} + late == late;
  }

  // A row brought back: live, its end of validity gone, and otherwise as it
  // was.
  ghost predicate IsBack(was: Row, now: Row) {
    && now.supersededBy.None? && now.validTo.None?
    && now.(supersededBy := was.supersededBy, validTo := was.validTo) == was
  }

  // What recall shows at this time.
  ghost predicate IsShown(row: Row, ns: string, now: Time) {
    Matches(row, ns, Filter({}, false, false, now))
  }

  // A repair that went through brings every stranded row it listed back to
  // where recall finds it: it is live, no end of validity hides it, and so it
  // is shown at every time unless it has expired. Every other row is left as
  // it was.
  lemma RestoredIsRecalled(m: Mend, deletes: nat -> set<Id>, fails: nat -> bool, id: Id)
    requires IsMend(m, deletes, fails, false) && m.ok && id in m.after
    ensures id in SeenBy(m, deletes)
    ensures var was := SeenBy(m, deletes)[id];
      if was.ns == m.ns && !Reaches(GraphOf(SeenBy(m, deletes), m.ns), id) then
        && IsBack(was, m.after[id])
        && forall now :: IsShown(m.after[id], m.ns, now) <==> was.expiresAt.None? || now < was.expiresAt.value
      else m.after[id] == was
  {
    GoneJoin(deletes, m.from, m.from + 1, m.to);
    assert Gone(deletes, m.from, m.from + 1) == Gone(deletes, m.from, m.from) + deletes(m.from);
    assert id in m.before && id !in deletes(m.from);
  }

  lemma {:induction false} MendsAccount(mends: seq<Mend>, namespaces: seq<string>, was: Table, from: nat, now: Table,
                                        to: nat,
                                        deletes: nat -> set<Id>, fails: nat -> bool, dryRun: bool, ns: string)
    requires AreMends(mends, namespaces, was, from, now, to, deletes, fails, dryRun)
    ensures from <= to && Accounts(GraphOf(was, ns), GraphOf(now, ns), Gone(deletes, from, to))
    ensures now.Keys == was.Keys - Gone(deletes, from, to) && forall id :: id in now ==> now[id].ns == was[id].ns
    decreases |mends|
  {
    if mends == [] {
      EnlivenAccounts(GraphOf(was, ns), GraphOf(now, ns));
    } else {
      var m := mends[|mends| - 1];
      MendsAccount(mends[..|mends| - 1], namespaces, was, from, m.before, m.from, deletes, fails, dryRun, ns);
      MendAccounts(m, deletes, fails, dryRun, ns);
      GoneJoin(deletes, from, m.from, m.to);
      AccountsBoth(GraphOf(was, ns), GraphOf(m.before, ns), GraphOf(now, ns), Gone(deletes, from, m.from),
                   Gone(deletes, m.from, m.to));
    }
  }

  lemma MendKeepsHealed(m: Mend, deletes: nat -> set<Id>, fails: nat -> bool, dryRun: bool, ns: string, late: nat)
    requires IsMend(m, deletes, fails, dryRun) && late <= m.from
    requires HealedBut(GraphOf(m.before, ns), Gone(deletes, late, m.from))
    ensures HealedBut(GraphOf(m.after, ns), Gone(deletes, late, m.to))
  {
    MendAccounts(m, deletes, fails, dryRun, ns);
    GoneJoin(deletes, late, m.from, m.to);
  }

  // The same holds at the end of the whole call, for what others delete from
  // the listing of the namespace on.
  lemma {:induction false} MendsHeal(mends: seq<Mend>, namespaces: seq<string>, was: Table, from: nat, now: Table,
                                     to: nat,
                                     deletes: nat -> set<Id>, fails: nat -> bool, i: nat)
    requires AreMends(mends, namespaces, was, from, now, to, deletes, fails, false)
    requires i < |mends| && mends[i].ok
    ensures from <= mends[i].from < to
    ensures HealedBut(GraphOf(now, mends[i].ns), Gone(deletes, mends[i].from + 1, to))
    decreases |mends|
  {
    var n := |mends| - 1;
    var m, ns, late := mends[n], mends[i].ns, mends[i].from + 1;
    MendsGoThrough(mends[..n], namespaces, was, from, m.before, m.from, deletes, fails, false);
    if i == n {
      MendHeals(m, deletes, fails);
    } else {
      MendsHeal(mends[..n], namespaces, was, from, m.before, m.from, deletes, fails, i);
      MendKeepsHealed(m, deletes, fails, false, ns, late);
    }
  }

  // From which call on deletions can break what the last repair of ns mended.
  ghost function MendedSince(mends: seq<Mend>, ns: string): Option<nat> {
    if mends == [] then None
    else
      var m := mends[|mends| - 1];
      if m.ns == ns && m.ok then Some(m.from + 1) else MendedSince(mends[..|mends| - 1], ns)
  }

  lemma {:induction false} MendedBy(mends: seq<Mend>, ns: string)
    ensures MendedSince(mends, ns).Some? <==> exists i :: 0 <= i < |mends| && mends[i].ns == ns && mends[i].ok
    ensures MendedSince(mends, ns).Some? ==>
      exists i :: 0 <= i < |mends| && mends[i].ns == ns && mends[i].ok &&
        MendedSince(mends, ns) == Some(mends[i].from + 1)
  {
    if mends != [] {
      var n := |mends| - 1;
      MendedBy(mends[..n], ns);
      assert forall i :: 0 <= i < n ==> mends[..n][i] == mends[i];
    }
  }

  lemma MendedIsHealed(mends: seq<Mend>, namespaces: seq<string>, was: Table, from: nat, now: Table, to: nat,
                       deletes: nat -> set<Id>, fails: nat -> bool, ns: string)
    requires AreMends(mends, namespaces, was, from, now, to, deletes, fails, false) && MendedSince(mends, ns).Some?
    ensures from < MendedSince(mends, ns).value <= to
    ensures HealedBut(GraphOf(now, ns), Gone(deletes, MendedSince(mends, ns).value, to))
  {
    MendedBy(mends, ns);
    var i :| 0 <= i < |mends| && mends[i].ns == ns && mends[i].ok && MendedSince(mends, ns) == Some(mends[i].from + 1);
    MendsHeal(mends, namespaces, was, from, now, to, deletes, fails, i);
  }

  // No repair fails unless the store does.
  lemma {:induction false} MendsGoThrough(mends: seq<Mend>, namespaces: seq<string>, was: Table, from: nat,
                                          now: Table, to: nat,
                                          deletes: nat -> set<Id>, fails: nat -> bool, dryRun: bool)
    requires AreMends(mends, namespaces, was, from, now, to, deletes, fails, dryRun)
    ensures from <= to && |mends| <= |namespaces| && forall i :: 0 <= i < |mends| ==> mends[i].ns == namespaces[i]
    ensures AnyFails(fails, from, to) || forall i :: 0 <= i < |mends| ==> mends[i].ok
    decreases |mends|
  {
    if mends != [] {
      var n := |mends| - 1;
      MendsGoThrough(mends[..n], namespaces, was, from, mends[n].before, mends[n].from, deletes, fails, dryRun);
      assert forall i :: 0 <= i < n ==> mends[..n][i] == mends[i];
    }
  }

  // ---- With no one else at work -------------------------------------------

  ghost function StrandedIn(rows: Table, scope: set<string>): set<Id> {
    set id | id in rows && rows[id].ns in scope && !Reaches(GraphOf(rows, rows[id].ns), id)
  }

  ghost function NeedyIn(rows: Table, scope: set<string>): set<string> {
    set ns | ns in scope && Stranded(rows, ns) != {}
  }

  // What repairing one more namespace adds.
  lemma StrandedNext(was: Table, scope: set<string>, ns: string)
    ensures var now := Restoring(was, StrandedIn(was, scope));
      && Stranded(now, ns) == StrandedIn(was, scope + {ns}) - StrandedIn(was, scope)
      && Restoring(now, Stranded(now, ns)) == Restoring(was, StrandedIn(was, scope + {ns}))
    ensures ns !in scope ==> Stranded(was, ns) == StrandedIn(was, scope + {ns}) - StrandedIn(was, scope)
    ensures StrandedIn(was, scope) <= StrandedIn(was, scope + {ns})
  {
    var now := Restoring(was, StrandedIn(was, scope));
    var g := GraphOf(was, ns);
    if ns in scope {
      assert GraphOf(now, ns) == Repaired(g);
      RepairHeals(g);
    } else {
      assert GraphOf(now, ns) == g;
    }
  }

  lemma NeedyNext(was: Table, scope: set<string>, ns: string)
    ensures |NeedyIn(was, scope + {ns})| == |NeedyIn(was, scope)| +
      if ns in scope || Stranded(was, ns) == {} then 0 else 1
  {
    var before, after := NeedyIn(was, scope), NeedyIn(was, scope + {ns});
    if ns in scope {
      assert scope + {ns} == scope;
    } else if Stranded(was, ns) == {} {
      assert after == before;
    } else {
      assert after == before + {ns} && ns !in before;
    }
  }

  ghost function Scope(namespaces: seq<string>, n: nat): set<string>
    requires n <= |namespaces|
  {
    set i | 0 <= i < n :: namespaces[i]
  }

  lemma ScopeGrows(namespaces: seq<string>, n: nat)
    requires n < |namespaces|
    ensures Scope(namespaces, n + 1) == Scope(namespaces, n) + {namespaces[n]} && Scope(namespaces, 0) == {}
    ensures Unique(namespaces) ==> namespaces[n] !in Scope(namespaces, n)
  {
  }

  lemma ScopeIsAll(namespaces: seq<string>)
    ensures forall ns :: ns in namespaces <==> ns in Scope(namespaces, |namespaces|)
  {
  }

  // Where the table and the report stand once a scope is repaired.
  ghost predicate IsRepaired(was: Table, now: Table, dryRun: bool, scope: set<string>, rep: Report) {
    && now == (if dryRun then was else Restoring(was, StrandedIn(was, scope)))
    && rep == Report(|StrandedIn(was, scope)|, |NeedyIn(was, scope)|)
  }

  lemma NothingRepaired(was: Table, dryRun: bool)
    ensures IsRepaired(was, was, dryRun, {}, Report(0, 0))
  {
    assert StrandedIn(was, {}) == {} && NeedyIn(was, {}) == {} && Restoring(was, {}) == was;
  }

  lemma SizeJoin<T>(a: set<T>, b: set<T>)
    requires a <= b
    ensures |b| == |a| + |b - a|
  {
    assert b == a + (b - a);
  }

  lemma RepairedNext(was: Table, before: Table, after: Table, dryRun: bool, scope: set<string>, wider: set<string>,
                     rep: Report, total: Report, ns: string)
    requires IsRepaired(was, before, dryRun, scope, rep) && (dryRun ==> ns !in scope) && wider == scope + {ns}
    requires after == (if dryRun then before else Restoring(before, Stranded(before, ns)))
    requires total == Counted(rep, |Stranded(before, ns)|)
    ensures IsRepaired(was, after, dryRun, wider, total)
  {
    StrandedNext(was, scope, ns);
    NeedyNext(was, scope, ns);
    SizeJoin(StrandedIn(was, scope), StrandedIn(was, wider));
    assert ns in scope ==> wider == scope;
  }

  // A repair with no failure and nothing deleted meanwhile.
  ghost predicate IsQuiet(m: Mend, deletes: nat -> set<Id>, dryRun: bool) {
    && m.ok && SeenBy(m, deletes) == m.before
    && m.after == if dryRun then m.before else Restoring(m.before, Stranded(m.before, m.ns))
  }

  lemma QuietMend(m: Mend, deletes: nat -> set<Id>, fails: nat -> bool, dryRun: bool)
    requires IsMend(m, deletes, fails, dryRun)
    requires forall k :: deletes(k) == {}
    requires forall k :: !fails(k)
    ensures IsQuiet(m, deletes, dryRun)
  {
    NothingGone(deletes, m.from, m.to);
    assert SeenBy(m, deletes) == m.before;
    assert Restoring(m.before, {}) == m.before;
    assert Restoring(m.before, m.ids) - {} == Restoring(m.before, m.ids);
  }

  lemma QuietTotal(mends: seq<Mend>, m: Mend, deletes: nat -> set<Id>, dryRun: bool)
    requires IsQuiet(m, deletes, dryRun)
    ensures Total(mends + [m], deletes) == Counted(Total(mends, deletes), |Stranded(m.before, m.ns)|)
  {
    TotalNext(mends, m, deletes);
  }

  lemma QuietStep(m: Mend, namespaces: seq<string>, n: nat, was: Table, deletes: nat -> set<Id>, dryRun: bool,
                  rep: Report)
    requires IsQuiet(m, deletes, dryRun)
    requires n < |namespaces| && namespaces[n] == m.ns && (dryRun ==> Unique(namespaces))
    requires IsRepaired(was, m.before, dryRun, Scope(namespaces, n), rep)
    ensures IsRepaired(was, m.after, dryRun, Scope(namespaces, n + 1), Counted(rep, |Stranded(m.before, m.ns)|))
  {
    ScopeGrows(namespaces, n);
    RepairedNext(was, m.before, m.after, dryRun, Scope(namespaces, n), Scope(namespaces, n + 1), rep,
                 Counted(rep, |Stranded(m.before, m.ns)|), m.ns);
  }

  // Quiet repairs of these namespaces, in order.
  ghost predicate AreQuiet(mends: seq<Mend>, namespaces: seq<string>, was: Table, now: Table, deletes: nat -> set<Id>,
                           dryRun: bool)
    decreases |mends|
  {
    if mends == [] then now == was
    else
      var n := |mends| - 1;
      && n < |namespaces| && mends[n].ns == namespaces[n] && mends[n].after == now && IsQuiet(mends[n], deletes, dryRun)
      && AreQuiet(mends[..n], namespaces, was, mends[n].before, deletes, dryRun)
  }

  lemma {:induction false} QuietMends(mends: seq<Mend>, namespaces: seq<string>, was: Table, from: nat, now: Table,
                                      to: nat, deletes: nat -> set<Id>, fails: nat -> bool, dryRun: bool)
    requires AreMends(mends, namespaces, was, from, now, to, deletes, fails, dryRun)
    requires forall k :: deletes(k) == {}
    requires forall k :: !fails(k)
    ensures AreQuiet(mends, namespaces, was, now, deletes, dryRun)
    decreases |mends|
  {
    if mends != [] {
      var n := |mends| - 1;
      QuietMends(mends[..n], namespaces, was, from, mends[n].before, mends[n].from, deletes, fails, dryRun);
      QuietMend(mends[n], deletes, fails, dryRun);
    }
  }

  lemma {:induction false} QuietMendsRepair(mends: seq<Mend>, namespaces: seq<string>, was: Table, now: Table,
                                            deletes: nat -> set<Id>, dryRun: bool)
    requires AreQuiet(mends, namespaces, was, now, deletes, dryRun) && (dryRun ==> Unique(namespaces))
    ensures |mends| <= |namespaces| && IsRepaired(was, now, dryRun, Scope(namespaces, |mends|), Total(mends, deletes))
    decreases |mends|
  {
    if mends == [] {
      assert Scope(namespaces, 0) == {};
      NothingRepaired(was, dryRun);
    } else {
      var n := |mends| - 1;
      QuietMendsRepair(mends[..n], namespaces, was, mends[n].before, deletes, dryRun);
      QuietTotal(mends[..n], mends[n], deletes, dryRun);
      QuietStep(mends[n], namespaces, n, was, deletes, dryRun, Total(mends[..n], deletes));
      assert mends[..n] + [mends[n]] == mends;
    }
  }

  // With no failures and nothing deleted meanwhile, a call restores exactly
  // the stranded rows of its namespaces, counts each once however often its
  // namespace is given, and counts the namespaces that had any.
  lemma QuietRepair(mends: seq<Mend>, namespaces: seq<string>, was: Table, from: nat, now: Table, to: nat,
                    deletes: nat -> set<Id>, fails: nat -> bool, dryRun: bool)
    requires AreMends(mends, namespaces, was, from, now, to, deletes, fails, dryRun)
    requires forall k :: deletes(k) == {}
    requires forall k :: !fails(k)
    requires dryRun ==> Unique(namespaces)
    ensures |mends| <= |namespaces| && IsRepaired(was, now, dryRun, Scope(namespaces, |mends|), Total(mends, deletes))
  {
    QuietMends(mends, namespaces, was, from, now, to, deletes, fails, dryRun);
    QuietMendsRepair(mends, namespaces, was, now, deletes, dryRun);
  }

  lemma {:induction false} NothingGone(deletes: nat -> set<Id>, lo: nat, hi: nat)
    requires forall k :: deletes(k) == {}
    ensures Gone(deletes, lo, hi) == {}
    decreases hi
  {
    if lo < hi {
      NothingGone(deletes, lo, hi - 1);
    }
  }

  // After that every row in scope has a live head, the rows that had one are
  // untouched, and repairing again finds nothing.
  lemma RepairedScopeIsHealed(was: Table, scope: set<string>, ns: string)
    requires ns in scope
    ensures var now := Restoring(was, StrandedIn(was, scope));
      && Healed(GraphOf(now, ns))
      && StrandedIn(now, scope) == {}
      && forall id :: id in was && Reaches(GraphOf(was, was[id].ns), id) ==> now[id] == was[id]
  {
    var now := Restoring(was, StrandedIn(was, scope));
    forall other | other in scope
      ensures Healed(GraphOf(now, other))
    {
      assert GraphOf(now, other) == Repaired(GraphOf(was, other));
      RepairHeals(GraphOf(was, other));
    }
  }
}
