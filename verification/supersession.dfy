// The supersession graph of one namespace: each memory is live or points at the
// memory that replaced it. Targets may be missing and chains may be cyclic.
module Supersession {
  import opened Common

  type Id = string

  type Graph = map<Id, Option<Id>>

  // ---- Reaching a live row ------------------------------------------------

  ghost predicate ReachesIn(g: Graph, id: Id, n: nat)
    decreases n
  {
    id in g && (g[id].None? || (n > 0 && ReachesIn(g, g[id].value, n - 1)))
  }

  // The chain from id ends at a live row.
  ghost predicate Reaches(g: Graph, id: Id) {
    exists n: nat :: ReachesIn(g, id, n)
  }

  // Every row keeps a recallable head.
  ghost predicate Healed(g: Graph) {
    forall id :: id in g ==> Reaches(g, id)
  }

  lemma ReachesStep(g: Graph, id: Id)
    ensures Reaches(g, id) <==> id in g && (g[id].None? || Reaches(g, g[id].value))
  {
    if Reaches(g, id) {
      var n: nat :| ReachesIn(g, id, n);
      assert g[id].Some? ==> ReachesIn(g, g[id].value, n - 1);
    }
    if id in g {
      assert g[id].None? ==> ReachesIn(g, id, 0);
      if g[id].Some? && Reaches(g, g[id].value) {
        var n: nat :| ReachesIn(g, g[id].value, n);
        assert ReachesIn(g, id, n + 1);
      }
    }
  }

  // A set of tombstones closed under following the chain is a trap.
  lemma {:induction false} Trapped(g: Graph, s: set<Id>, id: Id, n: nat)
    requires forall x :: x in s ==> x in g && g[x].Some? && g[x].value in s
    requires id in s
    ensures !ReachesIn(g, id, n)
    decreases n
  {
    if n > 0 {
      Trapped(g, s, g[id].value, n - 1);
    }
  }

  // Walks the chain from id, remembering what it has seen.
  method ReachesLive(g: Graph, start: Id) returns (live: bool)
    requires start in g
    ensures live == Reaches(g, start)
  {
    var seen: set<Id> := {};
    var m := start;
    while g[m].Some?
      invariant m in g && seen <= g.Keys
      invariant forall x :: x in seen ==> g[x].Some? && (g[x].value == m || g[x].value in seen)
      invariant Reaches(g, start) == Reaches(g, m)
      decreases g.Keys - seen
    {
      ReachesStep(g, m);
      if m in seen {
        forall n: nat
          ensures !ReachesIn(g, m, n)
        {
          Trapped(g, seen, m, n);
        }
        return false;
      }
      seen := seen + {m};
      if g[m].value !in g {
        ReachesStep(g, g[m].value);
        return false;
      }
      m := g[m].value;
    }
    ReachesStep(g, m);
    return true;
  }

  // ---- Repair -------------------------------------------------------------

  // Rows that reach no live row are brought back to life.
  ghost function Repaired(g: Graph): Graph {
    map id | id in g :: if Reaches(g, id) then g[id] else None
  }

  lemma {:induction false} RepairKeepsPath(g: Graph, id: Id, n: nat)
    requires ReachesIn(g, id, n)
    ensures ReachesIn(Repaired(g), id, n)
    decreases n
  {
    if g[id].Some? {
      RepairKeepsPath(g, g[id].value, n - 1);
    }
  }

  // Whatever the graph was, with cycles and missing targets, repair leaves
  // every row with a live head, and a second repair changes nothing.
  lemma RepairHeals(g: Graph)
    ensures Healed(Repaired(g))
    ensures Repaired(Repaired(g)) == Repaired(g)
    ensures Repaired(g) == g <==> Healed(g)
  {
    var h := Repaired(g);
    forall id | id in h
      ensures Reaches(h, id)
    {
      if Reaches(g, id) {
        var n: nat :| ReachesIn(g, id, n);
        RepairKeepsPath(g, id, n);
      } else {
        ReachesStep(h, id);
      }
    }
    if h == g {
      assert Healed(g);
    }
  }

  // ---- Collapsing rows into live heads ------------------------------------

  // Some live rows of g are superseded in h, each by a row that stays live.
  ghost predicate Collapses(g: Graph, h: Graph) {
    && h.Keys == g.Keys
    && forall id :: id in g && h[id] != g[id] ==>
        && g[id].None? && h[id].Some?
        && h[id].value in g && g[h[id].value].None? && h[h[id].value].None?
  }

  lemma {:induction false} CollapseKeepsPath(g: Graph, h: Graph, id: Id, n: nat)
    requires Collapses(g, h) && ReachesIn(g, id, n)
    ensures ReachesIn(h, id, n + 1)
    decreases n
  {
    if g[id].Some? {
      CollapseKeepsPath(g, h, g[id].value, n - 1);
    } else if h[id].Some? {
      assert ReachesIn(h, h[id].value, n);
    }
  }

  lemma {:induction false} CollapseAddsNoPath(g: Graph, h: Graph, id: Id, n: nat)
    requires Collapses(g, h) && ReachesIn(h, id, n)
    ensures ReachesIn(g, id, n)
    decreases n
  {
    if g[id].Some? {
      CollapseAddsNoPath(g, h, g[id].value, n - 1);
    }
  }

  // Collapsing strands no row and rescues none.
  lemma CollapseKeepsReach(g: Graph, h: Graph, id: Id)
    requires Collapses(g, h)
    ensures Reaches(h, id) <==> Reaches(g, id)
  {
    if Reaches(g, id) {
      var n: nat :| ReachesIn(g, id, n);
      CollapseKeepsPath(g, h, id, n);
    }
    if Reaches(h, id) {
      var n: nat :| ReachesIn(h, id, n);
      CollapseAddsNoPath(g, h, id, n);
    }
  }

  // ---- Cycles -------------------------------------------------------------

  ghost function Walk(g: Graph, id: Id, n: nat): Option<Id>
    decreases n
  {
    if n == 0 then Some(id)
    else if id in g && g[id].Some? then Walk(g, g[id].value, n - 1)
    else None
  }

  ghost predicate OnCycle(g: Graph, id: Id) {
    exists n: nat :: n > 0 && Walk(g, id, n) == Some(id)
  }

  // A row has a live head exactly when the rows its chain comes to have one.
  lemma {:induction false} WalkKeepsReach(g: Graph, id: Id, n: nat, end: Id)
    requires Walk(g, id, n) == Some(end)
    ensures Reaches(g, id) <==> Reaches(g, end)
    decreases n
  {
    if n > 0 {
      ReachesStep(g, id);
      WalkKeepsReach(g, g[id].value, n - 1, end);
    }
  }

  // The chain from a comes to b.
  ghost predicate LeadsTo(g: Graph, a: Id, b: Id) {
    exists n: nat :: Walk(g, a, n) == Some(b)
  }

  lemma LeadsStep(g: Graph, a: Id, b: Id)
    ensures LeadsTo(g, a, b) <==> a == b || (a in g && g[a].Some? && LeadsTo(g, g[a].value, b))
  {
    if n: nat :| Walk(g, a, n) == Some(b) {
      assert n > 0 ==> Walk(g, g[a].value, n - 1) == Some(b);
    }
    assert Walk(g, a, 0) == Some(a);
    if a in g && g[a].Some? {
      if n: nat :| Walk(g, g[a].value, n) == Some(b) {
        assert Walk(g, a, n + 1) == Some(b);
      }
    }
  }

  // ---- One row rewritten --------------------------------------------------

  // The two graphs differ at most in the row at id.
  ghost predicate SameBut(g: Graph, h: Graph, id: Id) {
    forall x :: x != id ==> (x in g <==> x in h) && (x in g ==> g[x] == h[x])
  }

  lemma {:induction false} SameButLeads(g: Graph, h: Graph, id: Id, x: Id, n: nat)
    requires SameBut(g, h, id) && Walk(g, x, n) == Some(id)
    ensures LeadsTo(h, x, id)
    decreases n
  {
    LeadsStep(h, x, id);
    if x != id {
      SameButLeads(g, h, id, g[x].value, n - 1);
    }
  }

  // What has a live head afterwards had one before, or comes to that row.
  lemma {:induction false} SameButReaches(g: Graph, h: Graph, id: Id, x: Id, n: nat)
    requires SameBut(g, h, id) && ReachesIn(h, x, n)
    ensures Reaches(g, x) || LeadsTo(h, x, id)
    decreases n
  {
    LeadsStep(h, x, id);
    if x != id {
      ReachesStep(g, x);
      if g[x].Some? {
        SameButReaches(g, h, id, g[x].value, n - 1);
      }
    }
  }

  // A walk in h that ends at a tombstone of h takes no collapsed link.
  lemma {:induction false} CollapseWalk(g: Graph, h: Graph, id: Id, n: nat, end: Id)
    requires Collapses(g, h) && Walk(h, id, n) == Some(end)
    requires end in h && h[end].Some?
    ensures Walk(g, id, n) == Some(end)
    decreases n
  {
    if n > 0 {
      var next := h[id].value;
      assert Walk(h, next, n - 1) == Some(end);
      CollapseWalk(g, h, next, n - 1, end);
    }
  }

  // Collapsing closes no cycle.
  lemma CollapseClosesNoCycle(g: Graph, h: Graph, id: Id)
    requires Collapses(g, h)
    ensures OnCycle(h, id) ==> OnCycle(g, id)
  {
    if OnCycle(h, id) {
      var n: nat :| n > 0 && Walk(h, id, n) == Some(id);
      CollapseWalk(g, h, id, n, id);
    }
  }

  // ---- Accounting for lost heads ------------------------------------------

  // Within n steps the chain from id comes to a live row, or to a missing one
  // that is in dead.
  ghost predicate EndsWithin(g: Graph, id: Id, n: nat, dead: set<Id>)
    decreases n
  {
    if id !in g then id in dead
    else g[id].None? || (n > 0 && EndsWithin(g, g[id].value, n - 1, dead))
  }

  ghost predicate EndsIn(g: Graph, id: Id, dead: set<Id>) {
    exists n: nat :: EndsWithin(g, id, n, dead)
  }

  // A row has a live head unless its chain ends at a missing row of dead.
  ghost predicate HealedBut(g: Graph, dead: set<Id>) {
    forall id :: id in g ==> EndsIn(g, id, dead)
  }

  lemma {:induction false} ReachesWithin(g: Graph, id: Id, n: nat, dead: set<Id>)
    ensures ReachesIn(g, id, n) ==> EndsWithin(g, id, n, dead)
    ensures EndsWithin(g, id, n, {}) ==> ReachesIn(g, id, n)
    decreases n
  {
    if id in g && g[id].Some? && n > 0 {
      ReachesWithin(g, g[id].value, n - 1, dead);
    }
  }

  // A healed graph is one with nothing to account for.
  lemma HealedIsHealedBut(g: Graph, dead: set<Id>)
    ensures Healed(g) ==> HealedBut(g, dead)
    ensures HealedBut(g, {}) ==> Healed(g)
  {
    forall id | id in g
      ensures Reaches(g, id) ==> EndsIn(g, id, dead)
      ensures EndsIn(g, id, {}) ==> Reaches(g, id)
    {
      if n: nat :| ReachesIn(g, id, n) {
        ReachesWithin(g, id, n, dead);
      }
      if n: nat :| EndsWithin(g, id, n, {}) {
        ReachesWithin(g, id, n, dead);
      }
    }
  }

  // The chain from id runs out at a missing row of dead.
  ghost predicate RunsOut(g: Graph, id: Id, dead: set<Id>) {
    exists n: nat, x :: Walk(g, id, n) == Some(x) && x !in g && x in dead
  }

  lemma {:induction false} OutIsNotIn(g: Graph, id: Id, n: nat, x: Id, m: nat)
    requires Walk(g, id, n) == Some(x) && x !in g
    ensures !ReachesIn(g, id, m)
    decreases n
  {
    if n > 0 && m > 0 {
      OutIsNotIn(g, g[id].value, n - 1, x, m - 1);
    }
  }

  lemma {:induction false} EndsOneWay(g: Graph, id: Id, n: nat, dead: set<Id>)
    requires EndsWithin(g, id, n, dead)
    ensures Reaches(g, id) || RunsOut(g, id, dead)
    decreases n
  {
    if id !in g {
      assert Walk(g, id, 0) == Some(id);
    } else if g[id].None? {
      assert ReachesIn(g, id, 0);
    } else {
      var next := g[id].value;
      EndsOneWay(g, next, n - 1, dead);
      ReachesStep(g, id);
      if RunsOut(g, next, dead) {
        var m: nat, x :| Walk(g, next, m) == Some(x) && x !in g && x in dead;
        assert Walk(g, id, m + 1) == Some(x);
      }
    }
  }

  // An accounted row lacks a live head exactly when its chain runs out at a
  // row of dead.
  lemma LostHead(g: Graph, id: Id, dead: set<Id>)
    requires EndsIn(g, id, dead)
    ensures !Reaches(g, id) <==> RunsOut(g, id, dead)
  {
    var n: nat :| EndsWithin(g, id, n, dead);
    EndsOneWay(g, id, n, dead);
    if RunsOut(g, id, dead) {
      var m: nat, x :| Walk(g, id, m) == Some(x) && x !in g && x in dead;
      forall k: nat
        ensures !ReachesIn(g, id, k)
      {
        OutIsNotIn(g, id, m, x, k);
      }
    }
  }

  // Whatever was accounted for in g is in h, once extra is.
  ghost predicate Accounts(g: Graph, h: Graph, extra: set<Id>) {
    forall id, dead {:trigger EndsIn(h, id, dead + extra)} :: EndsIn(g, id, dead) ==> EndsIn(h, id, dead + extra)
  }

  lemma AccountsBoth(g: Graph, h: Graph, k: Graph, a: set<Id>, b: set<Id>)
    requires Accounts(g, h, a) && Accounts(h, k, b)
    ensures Accounts(g, k, a + b)
  {
    forall id, dead | EndsIn(g, id, dead)
      ensures EndsIn(k, id, dead + (a + b))
    {
      assert EndsIn(h, id, dead + a);
      assert EndsIn(k, id, dead + a + b);
      assert dead + a + b == dead + (a + b);
    }
  }

  lemma {:induction false} DeleteEnds(g: Graph, gone: set<Id>, id: Id, n: nat, dead: set<Id>)
    requires EndsWithin(g, id, n, dead)
    ensures EndsWithin(g - gone, id, n, dead + gone)
    decreases n
  {
    if id in g && g[id].Some? {
      DeleteEnds(g, gone, g[id].value, n - 1, dead);
    }
  }

  // Deleting rows loses heads only to the rows deleted.
  lemma DeletionAccounts(g: Graph, gone: set<Id>)
    ensures Accounts(g, g - gone, gone)
  {
    forall id, dead | EndsIn(g, id, dead)
      ensures EndsIn(g - gone, id, dead + gone)
    {
      var n: nat :| EndsWithin(g, id, n, dead);
      DeleteEnds(g, gone, id, n, dead);
    }
  }

  lemma {:induction false} DeleteReach(g: Graph, gone: set<Id>, id: Id, n: nat)
    requires ReachesIn(g - gone, id, n)
    ensures ReachesIn(g, id, n)
    decreases n
  {
    if g[id].Some? {
      DeleteReach(g, gone, g[id].value, n - 1);
    }
  }

  lemma {:induction false} DeleteWalk(g: Graph, gone: set<Id>, id: Id, n: nat)
    requires Walk(g - gone, id, n).Some?
    ensures Walk(g, id, n) == Walk(g - gone, id, n)
    decreases n
  {
    if n > 0 {
      DeleteWalk(g, gone, g[id].value, n - 1);
    }
  }

  // Deleting rows gives no one a head and closes no cycle.
  lemma DeletionAddsNothing(g: Graph, gone: set<Id>, id: Id)
    ensures Reaches(g - gone, id) ==> Reaches(g, id)
    ensures OnCycle(g - gone, id) ==> OnCycle(g, id)
  {
    if Reaches(g - gone, id) {
      var n: nat :| ReachesIn(g - gone, id, n);
      DeleteReach(g, gone, id, n);
    }
    if OnCycle(g - gone, id) {
      var n: nat :| n > 0 && Walk(g - gone, id, n) == Some(id);
      DeleteWalk(g, gone, id, n);
    }
  }

  // Some rows of g, or some rows that were missing, are live in h.
  ghost predicate Enlivens(g: Graph, h: Graph) {
    g.Keys <= h.Keys && forall id :: id in h ==> h[id].None? || (id in g && h[id] == g[id])
  }

  lemma {:induction false} EnlivenEnds(g: Graph, h: Graph, id: Id, n: nat, dead: set<Id>)
    requires Enlivens(g, h) && EndsWithin(g, id, n, dead)
    ensures EndsWithin(h, id, n, dead)
    decreases n
  {
    if id in g && g[id].Some? {
      EnlivenEnds(g, h, g[id].value, n - 1, dead);
    }
  }

  lemma EnlivenAccounts(g: Graph, h: Graph)
    requires Enlivens(g, h)
    ensures Accounts(g, h, {})
  {
    forall id, dead | EndsIn(g, id, dead)
      ensures EndsIn(h, id, dead + {})
    {
      var n: nat :| EndsWithin(g, id, n, dead);
      EnlivenEnds(g, h, id, n, dead);
      assert dead + {} == dead;
    }
  }

  lemma {:induction false} EndsMore(g: Graph, id: Id, n: nat, dead: set<Id>, more: set<Id>)
    requires EndsWithin(g, id, n, dead) && dead <= more
    ensures EndsWithin(g, id, n, more)
    decreases n
  {
    if id in g && g[id].Some? {
      EndsMore(g, g[id].value, n - 1, dead, more);
    }
  }

  lemma UnchangedAccounts(g: Graph, extra: set<Id>)
    ensures Accounts(g, g, extra)
  {
    forall id, dead | EndsIn(g, id, dead)
      ensures EndsIn(g, id, dead + extra)
    {
      var n: nat :| EndsWithin(g, id, n, dead);
      EndsMore(g, id, n, dead, dead + extra);
    }
  }

  lemma {:induction false} RewriteEnds(g: Graph, h: Graph, id: Id, extra: set<Id>, x: Id, n: nat, dead: set<Id>)
    requires SameBut(g, h, id) && EndsIn(h, id, extra) && EndsWithin(g, x, n, dead)
    ensures EndsIn(h, x, dead + extra)
    decreases n
  {
    if x == id {
      var k: nat :| EndsWithin(h, id, k, extra);
      EndsMore(h, id, k, extra, dead + extra);
    } else if x in g && g[x].Some? {
      var next := g[x].value;
      RewriteEnds(g, h, id, extra, next, n - 1, dead);
      var k: nat :| EndsWithin(h, next, k, dead + extra);
      assert EndsWithin(h, x, k + 1, dead + extra);
    } else {
      assert EndsWithin(h, x, 0, dead + extra);
    }
  }

  // Rewriting a row whose chain then comes to a live row, or to a missing one
  // of extra, loses heads only to those.
  lemma RewriteAccounts(g: Graph, h: Graph, id: Id, extra: set<Id>)
    requires SameBut(g, h, id) && EndsIn(h, id, extra)
    ensures Accounts(g, h, extra)
  {
    forall x, dead | EndsIn(g, x, dead)
      ensures EndsIn(h, x, dead + extra)
    {
      var n: nat :| EndsWithin(g, x, n, dead);
      RewriteEnds(g, h, id, extra, x, n, dead);
    }
  }

  // The chain from id comes to an end: at a live row, or at the one missing row
  // in ends.
  ghost predicate ComesTo(g: Graph, id: Id, ends: set<Id>) {
    if Reaches(g, id) then ends == {} else |ends| == 1 && RunsOut(g, id, ends)
  }

  lemma {:induction false} WalkEnds(g: Graph, id: Id, n: nat, x: Id, dead: set<Id>)
    requires Walk(g, id, n) == Some(x) && x !in g && x in dead
    ensures EndsWithin(g, id, n, dead)
    decreases n
  {
    if n > 0 {
      WalkEnds(g, g[id].value, n - 1, x, dead);
    }
  }

  lemma ComesToEnds(g: Graph, id: Id, ends: set<Id>)
    requires ComesTo(g, id, ends)
    ensures EndsIn(g, id, ends)
  {
    if n: nat :| ReachesIn(g, id, n) {
      ReachesWithin(g, id, n, ends);
    }
    if n: nat, x :| Walk(g, id, n) == Some(x) && x !in g && x in ends {
      WalkEnds(g, id, n, x, ends);
    }
  }

  lemma {:induction false} EndsFurther(g: Graph, id: Id, n: nat, end: Id, k: nat, dead: set<Id>)
    requires Walk(g, id, n) == Some(end) && EndsWithin(g, id, k, dead) && end in g && g[end].Some?
    ensures n <= k && EndsWithin(g, end, k - n, dead)
    decreases n
  {
    if n > 0 {
      EndsFurther(g, g[id].value, n - 1, end, k - 1, dead);
    }
  }

  lemma {:induction false} CycleHasNoEnd(g: Graph, id: Id, n: nat, k: nat, dead: set<Id>)
    requires n > 0 && Walk(g, id, n) == Some(id)
    ensures !EndsWithin(g, id, k, dead)
    decreases k
  {
    if EndsWithin(g, id, k, dead) {
      EndsFurther(g, id, n, id, k, dead);
      CycleHasNoEnd(g, id, n, k - n, dead);
    }
  }

  lemma {:induction false} SameButWalk(g: Graph, h: Graph, id: Id, a: Id, n: nat)
    requires SameBut(g, h, id) && Walk(g, a, n).Some? && !LeadsTo(g, a, id)
    ensures Walk(h, a, n) == Walk(g, a, n)
    decreases n
  {
    LeadsStep(g, a, id);
    if n > 0 {
      SameButWalk(g, h, id, g[a].value, n - 1);
    }
  }

  lemma OutIsLost(g: Graph, id: Id, n: nat, x: Id)
    requires Walk(g, id, n) == Some(x) && x !in g
    ensures ComesTo(g, id, {x})
  {
    forall m: nat
      ensures !ReachesIn(g, id, m)
    {
      OutIsNotIn(g, id, n, x, m);
    }
  }

  // What the end of a relinked row's chain is, when its new head does not lead
  // back to it.
  lemma RelinkedEnd(g: Graph, dead: set<Id>, id: Id, head: Id) returns (ends: set<Id>)
    requires HealedBut(g, dead) && !LeadsTo(g, head, id)
    ensures ComesTo(g[id := Some(head)], id, ends)
  {
    var h := g[id := Some(head)];
    LeadsStep(g, head, id);
    ReachesStep(h, id);
    assert Walk(h, head, 0) == Some(head);
    if head !in g {
      ends := {head};
      assert Walk(h, id, 1) == Some(head);
      OutIsLost(h, id, 1, head);
      return;
    }
    LostHead(g, head, dead);
    if n: nat :| ReachesIn(g, head, n) {
      SameButReaches(h, g, id, head, n);
      return {};
    }
    var n: nat, x :| Walk(g, head, n) == Some(x) && x !in g && x in dead;
    SameButWalk(g, h, id, head, n);
    assert Walk(h, id, n + 1) == Some(x);
    OutIsLost(h, id, n + 1, x);
    ends := {x};
  }

  // Giving a row of an accounted graph a new head leaves its chain with an end
  // exactly when the head does not lead back to it; if it does, nothing missing
  // accounts for the row.
  lemma RelinkedComesTo(g: Graph, h: Graph, dead: set<Id>, id: Id, head: Id)
    requires HealedBut(g, dead) && h == g[id := Some(head)]
    ensures (exists ends :: ComesTo(h, id, ends)) <==> !LeadsTo(g, head, id)
    ensures LeadsTo(g, head, id) ==> forall more :: !EndsIn(h, id, more)
  {
    if LeadsTo(g, head, id) {
      var n: nat :| Walk(g, head, n) == Some(id);
      SameButLeads(g, h, id, head, n);
      var m: nat :| Walk(h, head, m) == Some(id);
      assert Walk(h, id, m + 1) == Some(id);
      forall more, k: nat
        ensures !EndsWithin(h, id, k, more)
      {
        CycleHasNoEnd(h, id, m + 1, k, more);
      }
      if ends :| ComesTo(h, id, ends) {
        ComesToEnds(h, id, ends);
      }
    } else {
      var ends := RelinkedEnd(g, dead, id, head);
    }
  }

  lemma {:induction false} CollapseEnds(g: Graph, h: Graph, id: Id, n: nat, dead: set<Id>)
    requires Collapses(g, h) && EndsWithin(g, id, n, dead)
    ensures EndsWithin(h, id, n + 1, dead)
    decreases n
  {
    if id in g && g[id].Some? {
      CollapseEnds(g, h, g[id].value, n - 1, dead);
    } else if id in g && h[id].Some? {
      assert EndsWithin(h, h[id].value, n, dead);
    }
  }

  lemma CollapseAccounts(g: Graph, h: Graph)
    requires Collapses(g, h)
    ensures Accounts(g, h, {})
  {
    forall id, dead | EndsIn(g, id, dead)
      ensures EndsIn(h, id, dead + {})
    {
      var n: nat :| EndsWithin(g, id, n, dead);
      CollapseEnds(g, h, id, n, dead);
      assert dead + {} == dead;
    }
  }

  // ---- Purging tombstones by age ------------------------------------------

  type Times = map<Id, int>

  // Hard-deleting the tombstones older than the cutoff.
  ghost function Purged(g: Graph, time: Times, cutoff: int): Graph
    requires g.Keys <= time.Keys
  {
    map id | id in g && !(g[id].Some? && time[id] < cutoff) :: g[id]
  }

  // No surviving row that had a live head loses it.
  ghost predicate KeepsHeads(g: Graph, time: Times, cutoff: int)
    requires g.Keys <= time.Keys
  {
    forall id :: id in Purged(g, time, cutoff) && Reaches(g, id) ==> Reaches(Purged(g, time, cutoff), id)
  }

  // Along every chain to a live row, a tombstone is no older than the ones
  // that point at it.
  ghost predicate AgesForward(g: Graph, time: Times)
    requires g.Keys <= time.Keys
  {
    forall id :: id in g && Reaches(g, id) && g[id].Some? && g[id].value in g && g[g[id].value].Some? ==>
      time[id] <= time[g[id].value]
  }

  lemma {:induction false} PurgeKeepsPath(g: Graph, time: Times, cutoff: int, id: Id, n: nat)
    requires g.Keys <= time.Keys && AgesForward(g, time)
    requires ReachesIn(g, id, n) && id in Purged(g, time, cutoff)
    ensures ReachesIn(Purged(g, time, cutoff), id, n)
    decreases n
  {
    if g[id].Some? {
      assert Reaches(g, id);
      PurgeKeepsPath(g, time, cutoff, g[id].value, n - 1);
    }
  }

  // Garbage collection by age strands nothing, whatever the cutoff, if and
  // only if tombstone ages never decrease along a chain.
  lemma PurgeIsSafe(g: Graph, time: Times)
    requires g.Keys <= time.Keys
    ensures (forall cutoff :: KeepsHeads(g, time, cutoff)) <==> AgesForward(g, time)
  {
    if AgesForward(g, time) {
      forall cutoff, id | id in Purged(g, time, cutoff) && Reaches(g, id)
        ensures Reaches(Purged(g, time, cutoff), id)
      {
        var n: nat :| ReachesIn(g, id, n);
        PurgeKeepsPath(g, time, cutoff, id, n);
      }
    } else {
      var id :| id in g && Reaches(g, id) && g[id].Some? && g[id].value in g && g[g[id].value].Some? &&
        time[g[id].value] < time[id];
      var h := Purged(g, time, time[id]);
      ReachesStep(h, id);
      ReachesStep(h, g[id].value);
      assert !KeepsHeads(g, time, time[id]);
    }
  }
}
