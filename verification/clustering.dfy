// internal/maintenance/dedup.go: clustering a namespace's live memories by
// similarity and superseding all but the best of each cluster.
module Clustering {
  import opened Common
  import opened Supersession
  import opened MemoryStore
  import opened UnionFinding
  import opened Ranking
  import opened ClusterCollapse

  datatype Scored = Scored(id: Id, score: real)

  // A vector search around a memory: best first, or nothing when the memory's
  // embedding is invalid. Results may lie outside the listed snapshot.
  type Nearest = Id -> Option<seq<Scored>>

  ghost predicate BestFirst(cands: seq<Scored>) {
    forall i, j :: 0 <= i < j < |cands| ==> cands[i].score >= cands[j].score
  }

  ghost predicate IsSearch(nearest: Nearest) {
    forall id :: nearest(id).Some? ==> BestFirst(nearest(id).value)
  }

  // ---- The similarity graph -----------------------------------------------

  ghost predicate IsHit(c: Scored, anchor: Id, ids: set<Id>, similarity: real) {
    c.id != anchor && c.id in ids && c.score >= similarity
  }

  // The pairs one anchor's candidates give, wherever they are in the list.
  ghost function PairsOf(anchor: Id, cands: seq<Scored>, ids: set<Id>, similarity: real): Edges {
    set c | c in cands && IsHit(c, anchor, ids, similarity) :: (anchor, c.id)
  }

  ghost function PairsAt(nearest: Nearest, anchor: Id, ids: set<Id>, similarity: real): Edges {
    if nearest(anchor).None? then {} else PairsOf(anchor, nearest(anchor).value, ids, similarity)
  }

  // Every pair of listed memories of which one is a candidate of the other at
  // or above the threshold.
  ghost function CandidatePairs(nearest: Nearest, anchors: set<Id>, ids: set<Id>, similarity: real): Edges {
    set x, p | x in anchors && p in PairsAt(nearest, x, ids, similarity) :: p
  }

  lemma PairsGrow(anchor: Id, cands: seq<Scored>, j: nat, ids: set<Id>, similarity: real)
    requires j < |cands|
    ensures PairsOf(anchor, cands[..j + 1], ids, similarity) == PairsOf(anchor, cands[..j], ids, similarity) +
      if IsHit(cands[j], anchor, ids, similarity) then {(anchor, cands[j].id)} else {}
  {
    assert cands[..j + 1] == cands[..j] + [cands[j]];
    assert cands[j] in cands[..j + 1];
  }

  // Stopping at the first candidate below the threshold loses no pair.
  lemma RestIsBelow(anchor: Id, cands: seq<Scored>, j: nat, ids: set<Id>, similarity: real)
    requires j < |cands| && BestFirst(cands) && cands[j].score < similarity
    ensures PairsOf(anchor, cands[..j], ids, similarity) == PairsOf(anchor, cands, ids, similarity)
  {
    forall c | c in cands && IsHit(c, anchor, ids, similarity)
      ensures c in cands[..j]
    {
      var i :| 0 <= i < |cands| && cands[i] == c;
      assert i < j;
      assert cands[..j][i] == c;
    }
    assert forall c :: c in cands[..j] ==> c in cands;
  }

  // Joins one listed pair.
  method JoinPair(u: UnionFind, anchor: Id, id: Id, ghost e: Edges) returns (ghost pairs: Edges)
    requires u.Valid() && anchor in u.parent && id in u.parent && Represents(u.root, e)
    modifies u
    ensures u.Valid() && u.parent.Keys == old(u.parent).Keys
    ensures pairs == e + {(anchor, id)} && Represents(u.root, pairs)
  {
    pairs := e + {(anchor, id)};
    MergeRepresents(u.root, e, anchor, id);
    u.Union(anchor, id);
  }

  // Part way through a list of candidates: these are the pairs so far.
  ghost predicate IsJoining(pairs: Edges, e: Edges, anchor: Id, cands: seq<Scored>, j: nat, ids: set<Id>,
                            similarity: real) {
    j <= |cands| && pairs == e + PairsOf(anchor, cands[..j], ids, similarity)
  }

  lemma JoiningNext(pairs: Edges, e: Edges, anchor: Id, cands: seq<Scored>, j: nat, ids: set<Id>, similarity: real)
    requires IsJoining(pairs, e, anchor, cands, j, ids, similarity) && j < |cands|
    ensures var hit := IsHit(cands[j], anchor, ids, similarity);
      IsJoining(if hit then pairs + {(anchor, cands[j].id)} else pairs, e, anchor, cands, j + 1, ids, similarity)
  {
    PairsGrow(anchor, cands, j, ids, similarity);
  }

  lemma JoiningDone(pairs: Edges, e: Edges, anchor: Id, cands: seq<Scored>, j: nat, ids: set<Id>, similarity: real)
    requires IsJoining(pairs, e, anchor, cands, j, ids, similarity) && BestFirst(cands)
    requires j < |cands| ==> cands[j].score < similarity
    ensures pairs == e + PairsOf(anchor, cands, ids, similarity)
  {
    if j < |cands| {
      RestIsBelow(anchor, cands, j, ids, similarity);
    } else {
      assert cands[..j] == cands;
    }
  }

  method JoinCandidates(u: UnionFind, anchor: Id, cands: seq<Scored>, similarity: real, ghost e: Edges)
    requires u.Valid() && anchor in u.parent && BestFirst(cands) && Represents(u.root, e)
    modifies u
    ensures u.Valid() && u.parent.Keys == old(u.parent).Keys
    ensures Represents(u.root, e + PairsOf(anchor, cands, u.parent.Keys, similarity))
  {
    ghost var ids := u.parent.Keys;
    ghost var pairs := e;
    for j := 0 to |cands|
      invariant u.Valid() && u.parent.Keys == ids
      invariant IsJoining(pairs, e, anchor, cands, j, ids, similarity) && Represents(u.root, pairs)
    {
      var c := cands[j];
      JoiningNext(pairs, e, anchor, cands, j, ids, similarity);
      if c.id == anchor {
        continue;
      }
      if c.score < similarity {
        JoiningDone(pairs, e, anchor, cands, j, ids, similarity);
        return;
      }
      if c.id !in u.parent {
        continue;
      }
      pairs := JoinPair(u, anchor, c.id, pairs);
    }
    JoiningDone(pairs, e, anchor, cands, |cands|, ids, similarity);
  }

  // ---- Clusters -----------------------------------------------------------

  // The listed memories whose representative is r, in listing order.
  ghost function GroupOf(mems: seq<Mem>, root: map<Id, Id>, r: Id): seq<Mem> {
    if mems == [] then []
    else
      var m := mems[|mems| - 1];
      GroupOf(mems[..|mems| - 1], root, r) + if m.id in root && root[m.id] == r then [m] else []
  }

  lemma {:induction false} GroupMembers(mems: seq<Mem>, root: map<Id, Id>, r: Id)
    ensures forall m :: m in GroupOf(mems, root, r) <==> m in mems && m.id in root && root[m.id] == r
  {
    if mems != [] {
      var init, last := mems[..|mems| - 1], mems[|mems| - 1];
      assert mems == init + [last];
      GroupMembers(init, root, r);
    }
  }

  lemma {:induction false} GroupIsDistinct(mems: seq<Mem>, root: map<Id, Id>, r: Id)
    requires Distinct(mems)
    ensures Distinct(GroupOf(mems, root, r))
  {
    if mems != [] {
      var init := mems[..|mems| - 1];
      GroupIsDistinct(init, root, r);
      GroupMembers(init, root, r);
      var g := GroupOf(init, root, r);
      forall i | 0 <= i < |g|
        ensures g[i].id != mems[|mems| - 1].id
      {
        assert g[i] in init;
      }
    }
  }

  ghost predicate IsGrouping(comps: map<Id, seq<Mem>>, mems: seq<Mem>, root: map<Id, Id>) {
    && (forall m :: m in mems ==> m.id in root && root[m.id] in comps)
    && (forall r :: r in comps ==> comps[r] == GroupOf(mems, root, r) && comps[r] != [])
    && (forall r :: r !in comps ==> GroupOf(mems, root, r) == [])
  }

  lemma GroupOfOneMore(mems: seq<Mem>, i: nat, root: map<Id, Id>, x: Id)
    requires i < |mems| && mems[i].id in root
    ensures GroupOf(mems[..i + 1], root, x) ==
      GroupOf(mems[..i], root, x) + if x == root[mems[i].id] then [mems[i]] else []
  {
    assert mems[..i + 1][..i] == mems[..i];
  }

  lemma GroupingOneMore(comps: map<Id, seq<Mem>>, mems: seq<Mem>, i: nat, root: map<Id, Id>)
    requires i < |mems| && IsGrouping(comps, mems[..i], root) && mems[i].id in root
    ensures var r := root[mems[i].id];
      IsGrouping(comps[r := (if r in comps then comps[r] else []) + [mems[i]]], mems[..i + 1], root)
  {
    var r := root[mems[i].id];
    var now := comps[r := (if r in comps then comps[r] else []) + [mems[i]]];
    assert mems[..i + 1] == mems[..i] + [mems[i]];
    forall x
      ensures var g := GroupOf(mems[..i + 1], root, x); if x in now then now[x] == g != [] else g == []
    {
      GroupOfOneMore(mems, i, root, x);
    }
  }

  method Components(u: UnionFind, mems: seq<Mem>) returns (comps: map<Id, seq<Mem>>)
    requires u.Valid() && forall m :: m in mems ==> m.id in u.parent
    modifies u`parent
    ensures u.Valid() && u.parent.Keys == old(u.parent).Keys
    ensures IsGrouping(comps, mems, u.root)
  {
    comps := map[];
    for i := 0 to |mems|
      invariant u.Valid() && u.parent.Keys == old(u.parent).Keys
      invariant IsGrouping(comps, mems[..i], u.root)
    {
      var m := mems[i];
      var r := u.Find(m.id);
      GroupingOneMore(comps, mems, i, u.root);
      comps := comps[r := (if r in comps then comps[r] else []) + [m]];
    }
    assert mems[..|mems|] == mems;
  }

  // ---- Sorting a cluster --------------------------------------------------

  // The sorted cluster: the same memories, the head no worse than any.
  lemma SortedCluster(score: Score, comp: seq<Mem>) returns (k: Mem, rest: seq<Mem>)
    requires Distinct(comp) && comp != []
    ensures SortStable(ByRetention(score), comp) == [k] + rest
    ensures Distinct(rest) && k.id !in Ids(rest) && Ids(comp) == Ids(rest) + {k.id} && |comp| == 1 + |rest|
    ensures forall m :: m in rest ==> m in comp
    ensures k in comp && forall m :: m in comp ==> IsNoBetter(score, m.row, k.row)
  {
    var less, sorted := ByRetention(score), SortStable(ByRetention(score), comp);
    BetterIsWeakOrder(score);
    SortOrders(less, comp);
    DistinctPermuted(comp, sorted);
    SamePermuted(comp, sorted);
    var i := SortPutsLeastFirst(less, comp);
    k, rest := sorted[0], sorted[1..];
    assert comp[i] == k;
    forall j | 0 <= j < |comp|
      ensures IsNoBetter(score, comp[j].row, k.row)
    {
      assert !less(comp[j], k);
      UnbeatenIsBest(score, comp[j], k);
    }
    SameIds(comp, sorted);
    SplitHead(sorted);
  }

  lemma SplitHead(sorted: seq<Mem>)
    requires Distinct(sorted) && sorted != []
    ensures sorted == [sorted[0]] + sorted[1..] && Distinct(sorted[1..])
    ensures sorted[0].id !in Ids(sorted[1..]) && Ids(sorted) == Ids(sorted[1..]) + {sorted[0].id}
  {
    var rest := sorted[1..];
    assert forall j :: 0 <= j < |rest| ==> rest[j] == sorted[j + 1];
    forall j | 0 <= j < |sorted|
      ensures sorted[j].id in Ids(rest) + {sorted[0].id}
    {
      if j > 0 {
        assert rest[j - 1] == sorted[j];
      }
    }
  }

  // ---- Collapsing the clusters --------------------------------------------

  // The cluster is collapsed into k, which none of its members beats.
  ghost predicate IsResolved(head: Heads, score: Score, group: seq<Mem>, k: Mem) {
    k in group && forall m :: m in group ==> m.id in head && head[m.id] == k.id && IsNoBetter(score, m.row, k.row)
  }

  type Groups = map<Id, seq<Mem>>

  ghost predicate IsSettledAt(groups: Groups, minSize: int, score: Score, head: Heads, r: Id) {
    r in groups && (|groups[r]| >= minSize ==> exists k :: IsResolved(head, score, groups[r], k))
  }

  ghost predicate IsConfinedAt(groups: Groups, root: map<Id, Id>, minSize: int, settled: set<Id>, id: Id) {
    id in root && root[id] in settled && root[id] in groups && |groups[root[id]]| >= minSize
  }

  // What holds once the clusters with representatives in `settled` have been
  // through: the large enough ones are resolved, and nothing is touched but
  // their members.
  ghost predicate IsSettled(groups: Groups, root: map<Id, Id>, minSize: int, score: Score, settled: set<Id>,
                            head: Heads) {
    && (forall r {:trigger IsSettledAt(groups, minSize, score, head, r)} ::
        r in settled ==> IsSettledAt(groups, minSize, score, head, r))
    && (forall id {:trigger IsConfinedAt(groups, root, minSize, settled, id)} ::
          id in head ==> IsConfinedAt(groups, root, minSize, settled, id))
  }

  lemma SettleSmall(groups: Groups, root: map<Id, Id>, minSize: int, score: Score, settled: set<Id>, head: Heads, r: Id)
    requires IsSettled(groups, root, minSize, score, settled, head)
    requires r in groups && |groups[r]| < minSize
    ensures IsSettled(groups, root, minSize, score, settled + {r}, head)
  {
    forall q | q in settled + {r}
      ensures IsSettledAt(groups, minSize, score, head, q)
    {
      assert q in settled ==> IsSettledAt(groups, minSize, score, head, q);
    }
    forall id | id in head
      ensures IsConfinedAt(groups, root, minSize, settled + {r}, id)
    {
      assert IsConfinedAt(groups, root, minSize, settled, id);
    }
  }

  lemma SettledAtGrows(groups: Groups, minSize: int, score: Score, head: Heads, now: Heads, r: Id)
    requires IsSettledAt(groups, minSize, score, head, r)
    requires forall id :: id in head ==> id in now && now[id] == head[id]
    ensures IsSettledAt(groups, minSize, score, now, r)
  {
    if |groups[r]| >= minSize {
      var k :| IsResolved(head, score, groups[r], k);
      assert IsResolved(now, score, groups[r], k);
    }
  }

  lemma ResolvedNew(head: Heads, score: Score, group: seq<Mem>, k: Mem, ids: set<Id>)
    requires k in group && Ids(group) == ids + {k.id} && Ids(group) !! head.Keys
    requires forall m :: m in group ==> IsNoBetter(score, m.row, k.row)
    ensures IsResolved(WithCluster(head, k.id, ids), score, group, k)
  {
    var now := WithCluster(head, k.id, ids);
    forall m | m in group
      ensures m.id in now && now[m.id] == k.id
    {
      assert m.id in Ids(group);
    }
  }

  lemma SettleCluster(groups: Groups, root: map<Id, Id>, minSize: int, score: Score, settled: set<Id>, head: Heads,
                      r: Id, k: Mem, ids: set<Id>)
    requires IsSettled(groups, root, minSize, score, settled, head)
    requires r in groups && |groups[r]| >= minSize && k in groups[r]
    requires Ids(groups[r]) == ids + {k.id} && ids + {k.id} !! head.Keys
    requires forall m :: m in groups[r] ==> m.id in root && root[m.id] == r
    requires forall m :: m in groups[r] ==> IsNoBetter(score, m.row, k.row)
    ensures IsSettled(groups, root, minSize, score, settled + {r}, WithCluster(head, k.id, ids))
  {
    var now := WithCluster(head, k.id, ids);
    ResolvedNew(head, score, groups[r], k, ids);
    forall id | id in now
      ensures IsConfinedAt(groups, root, minSize, settled + {r}, id)
    {
      if id in head {
        assert IsConfinedAt(groups, root, minSize, settled, id);
      } else {
        assert id in Ids(groups[r]);
      }
    }
    forall q | q in settled + {r}
      ensures IsSettledAt(groups, minSize, score, now, q)
    {
      if q in settled {
        assert IsSettledAt(groups, minSize, score, head, q);
        SettledAtGrows(groups, minSize, score, head, now, q);
      }
    }
  }

  // The snapshot a pass works on.
  ghost predicate AreListed(rows: Table, ns: string, mems: seq<Mem>) {
    Distinct(mems) && forall m :: m in mems ==> IsLiveIn(rows, ns, m.id) && rows[m.id] == m.row
  }

  ghost predicate IsCluster(rows: Table, ns: string, root: map<Id, Id>, r: Id, group: seq<Mem>) {
    && group != [] && Distinct(group)
    && forall m :: m in group ==> IsLiveIn(rows, ns, m.id) && rows[m.id] == m.row && m.id in root && root[m.id] == r
  }

  ghost predicate AreClusters(rows: Table, ns: string, root: map<Id, Id>, groups: Groups) {
    forall r {:trigger IsCluster(rows, ns, root, r, groups[r])} ::
      r in groups ==> IsCluster(rows, ns, root, r, groups[r])
  }

  lemma GroupsAreClusters(rows: Table, ns: string, mems: seq<Mem>, root: map<Id, Id>, groups: Groups)
    requires AreListed(rows, ns, mems) && IsGrouping(groups, mems, root)
    ensures AreClusters(rows, ns, root, groups)
  {
    forall r | r in groups
      ensures IsCluster(rows, ns, root, r, groups[r])
    {
      GroupMembers(mems, root, r);
      GroupIsDistinct(mems, root, r);
    }
  }

  datatype Counts = Counts(clusters: nat, tombstoned: nat)

  // A pass part way through: the table after choosing these heads, and counts
  // that agree with them.
  ghost predicate IsCollapsing(was: Table, now: Table, ns: string, dryRun: bool, wall: Time, head: Heads, gone: set<Id>,
                               res: Counts, done: set<Id>) {
    && IsOutcome(was, now, ns, dryRun, wall, head, gone)
    && res.clusters == |Keepers(head)|
    && IsTally(res.tombstoned, done, Losers(head), gone)
    && (dryRun ==> done == Losers(head))
  }

  lemma TakeOne(all: set<Id>, pending: set<Id>, r: Id)
    requires r in pending && pending <= all
    ensures all - (pending - {r}) == all - pending + {r} && r !in all - pending
  {
  }

  // Goes through the clusters in whatever order the map yields them.
  method CollapseClusters(st: Store, ns: string, comps: Groups, minSize: int, dryRun: bool, score: Score,
                          ghost root: map<Id, Id>, ghost was: Table, ghost since: nat)
    returns (res: Counts, err: Outcome, ghost head: Heads, ghost done: set<Id>)
    requires AreClusters(was, ns, root, comps) && since <= st.calls && st.rows == was - st.Lost(since)
    modifies st`rows, st`calls
    ensures old(st.calls) <= st.calls && (err == Done || (err == Failed && st.FailedSince(old(st.calls))))
    ensures IsCollapsing(was, st.rows, ns, dryRun, st.wall, head, st.Lost(since), res, done)
    ensures err == Done ==> IsSettled(comps, root, minSize, score, comps.Keys, head)
  {
    res, err, head, done := Counts(0, 0), Done, map[], {};
    var pending := comps.Keys;
    ghost var settled: set<Id> := {};
    while pending != {}
      invariant pending <= comps.Keys && settled == comps.Keys - pending && old(st.calls) <= st.calls
      invariant IsCollapsing(was, st.rows, ns, dryRun, st.wall, head, st.Lost(since), res, done)
      invariant IsSettled(comps, root, minSize, score, settled, head)
      decreases pending
    {
      var r :| r in pending;
      TakeOne(comps.Keys, pending, r);
      pending := pending - {r};
      assert IsCluster(was, ns, root, r, comps[r]);
      if |comps[r]| < minSize {
        SettleSmall(comps, root, minSize, score, settled, head, r);
        settled := settled + {r};
        continue;
      }
      res, err, head, done := CollapseCluster(st, ns, comps[r], dryRun, score, res, comps, root, was, head, done,
                                              since, minSize, settled, r);
      if err != Done {
        return;
      }
      settled := settled + {r};
    }
    assert settled == comps.Keys;
    err := Done;
  }

  // The members of a cluster not yet settled are not yet touched.
  lemma Untouched(comps: Groups, root: map<Id, Id>, minSize: int, score: Score, settled: set<Id>, head: Heads, r: Id)
    requires IsSettled(comps, root, minSize, score, settled, head) && r in comps && r !in settled
    requires forall m :: m in comps[r] ==> m.id in root && root[m.id] == r
    ensures Ids(comps[r]) !! head.Keys
  {
    forall id | id in head
      ensures id !in Ids(comps[r])
    {
      assert IsConfinedAt(comps, root, minSize, settled, id);
    }
  }

  // Adding a cluster to what a pass has done.
  lemma CollapsingNext(was: Table, ns: string, dryRun: bool, wall: Time, head: Heads, gone: set<Id>, res: Counts,
                       done: set<Id>,
                       k: Id, ids: set<Id>, now: Table, nowGone: set<Id>, n: nat, more: set<Id>)
    requires AreHeads(was, ns, head) && res.clusters == |Keepers(head)|
    requires IsTally(res.tombstoned, done, Losers(head), gone)
    requires dryRun ==> done == Losers(head) && more == ids
    requires IsLiveIn(was, ns, k) && k !in head && k !in ids && ids !! head.Keys &&
      forall id :: id in ids ==> IsLiveIn(was, ns, id)
    requires gone <= nowGone && IsTally(n, more, ids, nowGone)
    requires now == (if dryRun then was else Collapsed(was, WithCluster(head, k, ids), wall)) - nowGone
    ensures IsCollapsing(was, now, ns, dryRun, wall, WithCluster(head, k, ids), nowGone,
                         Counts(res.clusters + 1, res.tombstoned + n), done + more)
  {
    WithClusterHeads(was, ns, head, k, ids);
    WithClusterLosers(head, k, ids);
    WithClusterKeepers(head, k, ids);
    TallyJoin(res.tombstoned, done, Losers(head), gone, n, more, ids, nowGone);
  }

  // One cluster: the best member is kept and the rest point at it.
  method CollapseCluster(st: Store, ns: string, comp: seq<Mem>, dryRun: bool, score: Score, res0: Counts,
                         ghost comps: Groups, ghost root: map<Id, Id>, ghost was: Table, ghost head: Heads,
                         ghost done0: set<Id>,
                         ghost since: nat, ghost minSize: int, ghost settled: set<Id>, ghost r: Id)
    returns (res: Counts, err: Outcome, ghost now: Heads, ghost done: set<Id>)
    requires r in comps && comp == comps[r] && IsCluster(was, ns, root, r, comp) && |comp| >= minSize && r !in settled
    requires since <= st.calls && IsCollapsing(was, st.rows, ns, dryRun, st.wall, head, st.Lost(since), res0, done0)
    requires IsSettled(comps, root, minSize, score, settled, head)
    modifies st`rows, st`calls
    ensures old(st.calls) <= st.calls && (err == Done || (err == Failed && st.FailedSince(old(st.calls))))
    ensures IsCollapsing(was, st.rows, ns, dryRun, st.wall, now, st.Lost(since), res, done)
    ensures err == Done ==> IsSettled(comps, root, minSize, score, settled + {r}, now)
  {
    Untouched(comps, root, minSize, score, settled, head, r);
    ghost var k0, rest0 := SortedCluster(score, comp);
    var sorted := SortStable(ByRetention(score), comp);
    var keep, rest := sorted[0], sorted[1..];
    assert keep == k0 && rest == rest0;
    assert keep.id in Ids(comp);
    ghost var ids, more, gone := Ids(rest), Ids(rest), st.Lost(since);
    var n := |rest|;
    err := Done;
    DistinctIds(rest);
    forall m | m in rest
      ensures IsLiveIn(was, ns, m.id) && m.id !in head && m.id != keep.id
    {
      assert m.id in Ids(rest);
    }
    if !dryRun {
      n, err, ids, more := SupersedeRest(st, ns, keep.id, rest, was, head, since);
      GoneJoin(st.deletes, since, old(st.calls), st.calls);
    }
    CollapsingNext(was, ns, dryRun, st.wall, head, gone, res0, done0, keep.id, ids, st.rows, st.Lost(since), n, more);
    res, now, done := Counts(res0.clusters + 1, res0.tombstoned + n), WithCluster(head, keep.id, ids), done0 + more;
    if err == Done {
      SettleCluster(comps, root, minSize, score, settled, head, r, keep, ids);
    }
  }

  // ---- One namespace ------------------------------------------------------

  datatype Options = Options(similarity: real, minClusterSize: int, tiers: set<Tier>, dryRun: bool, now: Time)

  datatype Report = Report(memoriesSeen: nat, clustersFound: nat, tombstoned: nat)

  function LiveFilter(opts: Options): Filter {
    Filter(opts.tiers, false, false, opts.now)
  }

  // The memories a pass looks at: live, unexpired and of the chosen tiers.
  ghost function LiveIds(rows: Table, ns: string, opts: Options): set<Id> {
    set id | id in rows && Matches(rows[id], ns, LiveFilter(opts))
  }

  // The memories a memory is connected to through chains of similar pairs.
  ghost function ClassOf(e: Edges, live: set<Id>, id: Id): set<Id> {
    set y | y in live && Connected(e, id, y)
  }

  // A large enough similarity component is mapped to one of its members that
  // no other beats; a smaller one is left alone.
  ghost predicate IsDedupedAt(rows: Table, live: set<Id>, e: Edges, minSize: int, score: Score, head: Heads, id: Id)
    requires live <= rows.Keys
  {
    var cls := ClassOf(e, live, id);
    if |cls| < minSize then id !in head
    else
      && id in head && head[id] in cls
      && forall y :: y in cls ==>
           y in head && head[y] == head[id] && IsNoBetter(score, rows[y], rows[head[id]])
  }

  ghost predicate IsDeduped(rows: Table, live: set<Id>, e: Edges, minSize: int, score: Score, head: Heads)
    requires live <= rows.Keys
  {
    && head.Keys <= live
    && forall id {:trigger IsDedupedAt(rows, live, e, minSize, score, head, id)} ::
         id in live ==> IsDedupedAt(rows, live, e, minSize, score, head, id)
  }

  lemma ClassIsGroup(mems: seq<Mem>, root: map<Id, Id>, e: Edges, id: Id)
    requires Distinct(mems) && root.Keys == Ids(mems) && Represents(root, e) && id in root
    ensures Ids(GroupOf(mems, root, root[id])) == ClassOf(e, Ids(mems), id)
    ensures |ClassOf(e, Ids(mems), id)| == |GroupOf(mems, root, root[id])|
  {
    var group := GroupOf(mems, root, root[id]);
    GroupMembers(mems, root, root[id]);
    GroupIsDistinct(mems, root, root[id]);
    forall i | 0 <= i < |group|
      ensures group[i].id in ClassOf(e, Ids(mems), id)
    {
      assert group[i] in group;
    }
    forall y | y in ClassOf(e, Ids(mems), id)
      ensures y in Ids(group)
    {
      var i :| 0 <= i < |mems| && mems[i].id == y;
      assert mems[i] in group;
    }
    DistinctCounts(group, mems[0]);
  }

  lemma SettledIsDeduped(rows: Table, ns: string, mems: seq<Mem>, root: map<Id, Id>, comps: Groups, e: Edges,
                         minSize: int, score: Score, head: Heads)
    requires AreListed(rows, ns, mems) && Ids(mems) <= rows.Keys
    requires root.Keys == Ids(mems) && Represents(root, e) && IsGrouping(comps, mems, root)
    requires IsSettled(comps, root, minSize, score, comps.Keys, head)
    ensures IsDeduped(rows, Ids(mems), e, minSize, score, head)
  {
    forall id | id in head
      ensures id in Ids(mems) && |comps[root[id]]| >= minSize
    {
      assert IsConfinedAt(comps, root, minSize, comps.Keys, id);
    }
    forall id | id in Ids(mems)
      ensures IsDedupedAt(rows, Ids(mems), e, minSize, score, head, id)
    {
      ClassIsGroup(mems, root, e, id);
      var i :| 0 <= i < |mems| && mems[i].id == id;
      assert mems[i] in mems;
      var group := comps[root[id]];
      assert IsSettledAt(comps, minSize, score, head, root[id]);
      if |group| >= minSize {
        var k :| IsResolved(head, score, group, k);
        GroupMembers(mems, root, root[id]);
        forall y | y in Ids(group)
          ensures y in head && head[y] == k.id && IsNoBetter(score, rows[y], rows[k.id])
        {
          var j :| 0 <= j < |group| && group[j].id == y;
          assert group[j] in group;
        }
      }
    }
  }

  lemma PairsOfOneMore(nearest: Nearest, anchors: set<Id>, x: Id, ids: set<Id>, similarity: real)
    ensures CandidatePairs(nearest, anchors + {x}, ids, similarity) ==
      CandidatePairs(nearest, anchors, ids, similarity) + PairsAt(nearest, x, ids, similarity)
    ensures nearest(x).None? ==>
      CandidatePairs(nearest, anchors + {x}, ids, similarity) == CandidatePairs(nearest, anchors, ids, similarity)
  {
  }

  method IdsOf(mems: seq<Mem>) returns (ids: seq<Id>)
    ensures forall id :: id in ids <==> id in Ids(mems)
  {
    ids := [];
    for i := 0 to |mems|
      invariant forall id :: id in ids <==> id in Ids(mems[..i])
    {
      IdsPrefix(mems, i);
      ids := ids + [mems[i].id];
    }
    assert mems[..|mems|] == mems;
  }

  // Drops expired entries the filter might have let through.
  method DropExpired(mems: seq<Mem>, now: Time) returns (live: seq<Mem>)
    ensures (forall m :: m in mems ==> !m.row.Expired(now)) ==> live == mems
  {
    live := [];
    for i := 0 to |mems|
      invariant (forall m :: m in mems ==> !m.row.Expired(now)) ==> live == mems[..i]
    {
      assert mems[..i + 1] == mems[..i] + [mems[i]];
      if !mems[i].row.Expired(now) {
        live := live + [mems[i]];
      }
    }
    assert mems[..|mems|] == mems;
  }

  // Searches around one memory and joins it with what it finds.
  method JoinAround(st: Store, u: UnionFind, anchor: Id, nearest: Nearest, similarity: real, ghost pairs: Edges)
    returns (err: Outcome)
    requires u.Valid() && anchor in u.parent && IsSearch(nearest) && Represents(u.root, pairs)
    modifies st`rows, st`calls, u
    ensures old(st.calls) <= st.calls && (err == Done || (err == Failed && st.FailedSince(old(st.calls))))
    ensures st.rows == old(st.rows) - st.Lost(old(st.calls))
    ensures u.Valid() && u.parent.Keys == old(u.parent).Keys
    ensures err == Done ==> Represents(u.root, pairs + PairsAt(nearest, anchor, u.parent.Keys, similarity))
  {
    FoundAt(st.rows, st.deletes, st.calls, st.calls);
    var cands := nearest(anchor);
    if cands.None? {
      assert pairs + {} == pairs;
      return Done;
    }
    var ok := st.Call();
    if !ok {
      return Failed;
    }
    JoinCandidates(u, anchor, cands.value, similarity, pairs);
    return Done;
  }

  // Searches around every memory in turn.
  method JoinAll(st: Store, mems: seq<Mem>, nearest: Nearest, similarity: real) returns (u: UnionFind, err: Outcome)
    requires Distinct(mems) && IsSearch(nearest)
    modifies st`rows, st`calls
    ensures old(st.calls) <= st.calls && (err == Done || (err == Failed && st.FailedSince(old(st.calls))))
    ensures st.rows == old(st.rows) - st.Lost(old(st.calls))
    ensures fresh(u) && u.Valid() && u.parent.Keys == Ids(mems)
    ensures err == Done ==> Represents(u.root, CandidatePairs(nearest, Ids(mems), Ids(mems), similarity))
  {
    ghost var was, from := st.rows, st.calls;
    FoundAt(was, st.deletes, from, from);
    var ids := IdsOf(mems);
    u := new UnionFind(ids);
    err := Done;
    ghost var all, anchors: set<Id>, pairs: Edges := Ids(mems), {}, {};
    assert CandidatePairs(nearest, {}, all, similarity) == {};
    for i := 0 to |mems|
      invariant err == Done && from <= st.calls && st.rows == was - st.Lost(from)
      invariant fresh(u) && u.Valid() && u.parent.Keys == all
      invariant anchors == Ids(mems[..i]) && pairs == CandidatePairs(nearest, anchors, all, similarity)
      invariant Represents(u.root, pairs)
    {
      var anchor := mems[i].id;
      IdsPrefix(mems, i);
      PairsOfOneMore(nearest, anchors, anchor, all, similarity);
      ghost var at := st.calls;
      err := JoinAround(st, u, anchor, nearest, similarity, pairs);
      LostJoin(was, st.deletes, from, at, st.calls);
      if err != Done {
        return;
      }
      anchors, pairs := anchors + {anchor}, pairs + PairsAt(nearest, anchor, all, similarity);
    }
    assert mems[..|mems|] == mems;
  }

  method Cluster(st: Store, mems: seq<Mem>, nearest: Nearest, similarity: real)
    returns (comps: Groups, err: Outcome, ghost root: map<Id, Id>)
    requires Distinct(mems) && IsSearch(nearest)
    modifies st`rows, st`calls
    ensures old(st.calls) <= st.calls && (err == Done || (err == Failed && st.FailedSince(old(st.calls))))
    ensures st.rows == old(st.rows) - st.Lost(old(st.calls))
    ensures err == Done ==>
      && root.Keys == Ids(mems) && IsGrouping(comps, mems, root)
      && Represents(root, CandidatePairs(nearest, Ids(mems), Ids(mems), similarity))
  {
    var u;
    u, err := JoinAll(st, mems, nearest, similarity);
    root := u.root;
    comps := map[];
    if err == Done {
      comps := Components(u, mems);
    }
  }

  lemma ListingIsLive(rows: Table, ns: string, opts: Options, mems: seq<Mem>)
    requires IsListing(rows, ns, LiveFilter(opts), mems)
    ensures Ids(mems) == LiveIds(rows, ns, opts) <= rows.Keys
    ensures AreListed(rows, ns, mems) && forall m :: m in mems ==> !m.row.Expired(opts.now)
  {
  }

  // The heads chosen for the table `was`, and a report that leaves out only
  // members others deleted.
  ghost predicate IsDedupResult(was: Table, ns: string, opts: Options, nearest: Nearest, score: Score, head: Heads,
                                res: Report, done: set<Id>, gone: set<Id>) {
    var live := LiveIds(was, ns, opts);
    if |live| < opts.minClusterSize then head == map[] && res == Report(0, 0, 0)
    else
      && IsDeduped(was, live, CandidatePairs(nearest, live, live, opts.similarity), opts.minClusterSize, score, head)
      && res.memoriesSeen == |live| && res.clustersFound == |Keepers(head)|
      && IsTally(res.tombstoned, done, Losers(head), gone) && (opts.dryRun ==> done == Losers(head))
  }

  // A pass that chooses no heads only loses what others delete.
  lemma NoHeads(seen: Table, ns: string, dryRun: bool, wall: Time, gone: set<Id>)
    ensures IsOutcome(seen, seen - gone, ns, dryRun, wall, map[], gone)
  {
    assert Collapsed(seen, map[], wall) == seen;
  }

  // Collapses every large enough similarity component of the namespace, as it
  // listed it with its first call, into its best member, and changes nothing
  // else.
  method DedupNamespace(st: Store, ns: string, opts: Options, nearest: Nearest, score: Score)
    returns (res: Report, err: Outcome, ghost head: Heads, ghost done: set<Id>)
    requires opts.minClusterSize >= 2 && IsSearch(nearest)
    modifies st`rows, st`calls
    ensures old(st.calls) < st.calls && (err == Done || (err == Failed && st.FailedSince(old(st.calls))))
    ensures var seen, late := old(st.rows) - st.deletes(old(st.calls)), st.Lost(old(st.calls) + 1);
      && IsOutcome(seen, st.rows, ns, opts.dryRun, st.wall, head, late)
      && (err == Done ==> IsDedupResult(seen, ns, opts, nearest, score, head, res, done, late))
  {
    res, head, done := Report(0, 0, 0), map[], {};
    var r := st.List(ns, LiveFilter(opts));
    ghost var seen, since := st.rows, st.calls;
    FoundAt(seen, st.deletes, since, since);
    NoHeads(seen, ns, opts.dryRun, st.wall, {});
    if r.Err? {
      return res, Failed, head, done;
    }
    ListingIsLive(seen, ns, opts, r.value);
    DistinctIds(r.value);
    var mems := DropExpired(r.value, opts.now);
    if |mems| < opts.minClusterSize {
      return res, Done, head, done;
    }
    var ok := st.Call();
    NoHeads(seen, ns, opts.dryRun, st.wall, st.Lost(since));
    if !ok {
      return res, Failed, head, done;
    }
    res, err, head, done := DedupListed(st, ns, opts, nearest, score, mems, seen, since);
  }

  method DedupListed(st: Store, ns: string, opts: Options, nearest: Nearest, score: Score, mems: seq<Mem>,
                     ghost seen: Table, ghost since: nat)
    returns (res: Report, err: Outcome, ghost head: Heads, ghost done: set<Id>)
    requires opts.minClusterSize >= 2 && IsSearch(nearest)
    requires AreListed(seen, ns, mems) && Ids(mems) == LiveIds(seen, ns, opts) <= seen.Keys
    requires |mems| == |Ids(mems)| >= opts.minClusterSize
    requires since <= st.calls && st.rows == seen - st.Lost(since)
    modifies st`rows, st`calls
    ensures old(st.calls) <= st.calls && (err == Done || (err == Failed && st.FailedSince(old(st.calls))))
    ensures IsOutcome(seen, st.rows, ns, opts.dryRun, st.wall, head, st.Lost(since))
    ensures err == Done ==> IsDedupResult(seen, ns, opts, nearest, score, head, res, done, st.Lost(since))
  {
    res, head, done := Report(0, 0, 0), map[], {};
    var comps;
    ghost var root;
    comps, err, root := Cluster(st, mems, nearest, opts.similarity);
    GoneJoin(st.deletes, since, old(st.calls), st.calls);
    MinusJoin(seen, Gone(st.deletes, since, old(st.calls)), st.Lost(old(st.calls)));
    if err != Done {
      return;
    }
    GroupsAreClusters(seen, ns, mems, root, comps);
    var counts;
    counts, err, head, done := CollapseClusters(st, ns, comps, opts.minClusterSize, opts.dryRun, score, root, seen,
                                                since);
    res := Report(|mems|, counts.clusters, counts.tombstoned);
    if err == Done {
      SettledIsDeduped(seen, ns, mems, root, comps, CandidatePairs(nearest, Ids(mems), Ids(mems), opts.similarity),
                       opts.minClusterSize, score, head);
    }
  }

  // A row of the namespace that a search may merge: live, unexpired and of the
  // chosen tiers, all of them if none is chosen.
  ghost predicate IsOpen(row: Row, ns: string, tiers: set<Tier>, now: Time) {
    && row.ns == ns && (tiers == {} || row.tier in tiers)
    && (row.expiresAt.Some? ==> row.expiresAt.value > now)
    && row.supersededBy.None? && (row.validTo.Some? ==> row.validTo.value > now)
  }

  // The search around x finds y at the threshold or above.
  ghost predicate IsNear(nearest: Nearest, x: Id, y: Id, similarity: real) {
    && x != y && nearest(x).Some?
    && exists i :: 0 <= i < |nearest(x).value| && nearest(x).value[i].id == y &&
         nearest(x).value[i].score >= similarity
  }

  lemma LiveAreOpen(rows: Table, ns: string, opts: Options, id: Id)
    ensures id in LiveIds(rows, ns, opts) <==> id in rows && IsOpen(rows[id], ns, opts.tiers, opts.now)
  {
  }

  lemma PairsAreNear(nearest: Nearest, live: set<Id>, similarity: real, x: Id, y: Id)
    ensures (x, y) in CandidatePairs(nearest, live, live, similarity) <==>
      x in live && y in live && IsNear(nearest, x, y, similarity)
  {
    if x in live && y in live && IsNear(nearest, x, y, similarity) {
      var c :| c in nearest(x).value && c.id == y && c.score >= similarity;
      assert IsHit(c, x, live, similarity) && (x, c.id) in PairsAt(nearest, x, live, similarity);
    }
  }

  // Two open rows, one of which the search finds around the other, are in one
  // component.
  lemma NearTogether(rows: Table, ns: string, opts: Options, nearest: Nearest, x: Id, y: Id)
    requires x in rows && y in rows && IsOpen(rows[x], ns, opts.tiers, opts.now)
    requires IsOpen(rows[y], ns, opts.tiers, opts.now) && IsNear(nearest, x, y, opts.similarity)
    ensures var live := LiveIds(rows, ns, opts);
      var cls := ClassOf(CandidatePairs(nearest, live, live, opts.similarity), live, x);
      x in live && y in live && x in cls && y in cls && |cls| >= 2 && |live| >= 2
  {
    var live := LiveIds(rows, ns, opts);
    var e := CandidatePairs(nearest, live, live, opts.similarity);
    PairsAreNear(nearest, live, opts.similarity, x, y);
    ConnectedSelf(e, x);
    ConnectedEdge(e, x, y);
    SubsetSize({x, y}, ClassOf(e, live, x));
    SubsetSize({x, y}, live);
  }

  // No search finds it around another such row, or another around it.
  ghost predicate IsLoner(rows: Table, ns: string, tiers: set<Tier>, now: Time, nearest: Nearest, similarity: real,
                          x: Id) {
    forall y {:trigger IsNear(nearest, x, y, similarity)} {:trigger IsNear(nearest, y, x, similarity)} ::
      y in rows && IsOpen(rows[y], ns, tiers, now) ==>
        !IsNear(nearest, x, y, similarity) && !IsNear(nearest, y, x, similarity)
  }

  lemma LonerAlone(rows: Table, ns: string, opts: Options, nearest: Nearest, x: Id)
    requires x in rows && IsOpen(rows[x], ns, opts.tiers, opts.now)
    requires IsLoner(rows, ns, opts.tiers, opts.now, nearest, opts.similarity, x)
    ensures var live := LiveIds(rows, ns, opts);
      x in live && ClassOf(CandidatePairs(nearest, live, live, opts.similarity), live, x) == {x}
  {
    var live := LiveIds(rows, ns, opts);
    var e := CandidatePairs(nearest, live, live, opts.similarity);
    forall z
      ensures !Adjacent(e, x, z)
    {
      LiveAreOpen(rows, ns, opts, z);
      PairsAreNear(nearest, live, opts.similarity, x, z);
      PairsAreNear(nearest, live, opts.similarity, z, x);
    }
    forall y | y in live && Connected(e, x, y)
      ensures y == x
    {
      if y != x {
        ConnectedMovesOn(e, x, y);
      }
    }
    ConnectedSelf(e, x);
  }

  // What a pass that is not a dry run leaves of one similarity component that
  // is large enough: one member that no other beats stays as it was, and all
  // the others that are still there point at it; so of the component, at most
  // that one is live.
  ghost predicate IsCollapsedTo(was: Table, now: Table, score: Score, cls: set<Id>, k: Id, gone: set<Id>) {
    && k in cls && k in was && was[k].supersededBy.None? && (k in now <==> k !in gone) &&
      (k in now ==> now[k] == was[k])
    && forall y :: y in cls && y != k ==>
      && y in was && IsNoBetter(score, was[y], was[k])
      && (y in now <==> y !in gone) && (y in now ==> now[y].supersededBy == Some(k))
  }

  lemma OneSurvivor(was: Table, now: Table, ns: string, opts: Options, nearest: Nearest, score: Score,
                    wall: Time, head: Heads, res: Report, done: set<Id>, gone: set<Id>, id: Id)
    requires IsOutcome(was, now, ns, false, wall, head, gone)
    requires IsDedupResult(was, ns, opts, nearest, score, head, res, done, gone)
    requires id in LiveIds(was, ns, opts) && |LiveIds(was, ns, opts)| >= opts.minClusterSize
    ensures var live := LiveIds(was, ns, opts);
      var cls := ClassOf(CandidatePairs(nearest, live, live, opts.similarity), live, id);
      if |cls| < opts.minClusterSize then (id in now <==> id !in gone) && (id in now ==> now[id] == was[id])
      else exists k :: IsCollapsedTo(was, now, score, cls, k, gone)
  {
    var live := LiveIds(was, ns, opts);
    var e := CandidatePairs(nearest, live, live, opts.similarity);
    var cls := ClassOf(e, live, id);
    assert IsDedupedAt(was, live, e, opts.minClusterSize, score, head, id);
    if |cls| >= opts.minClusterSize {
      var k := head[id];
      assert IsHeaded(was, ns, head, id) && IsHeaded(was, ns, head, k);
      assert IsCollapsedTo(was, now, score, cls, k, gone);
    }
  }

  // ---- A dry run reports what a run does ----------------------------------

  lemma {:induction false} ImageSize(s: set<Id>, f: Heads)
    requires forall x :: x in s ==> x in f
    requires forall x, y :: x in s && y in s && f[x] == f[y] ==> x == y
    ensures |set x | x in s :: f[x]| == |s|
  {
    if s == {} {
      assert (set x | x in s :: f[x]) == {};
    } else {
      var x :| x in s;
      ImageSize(s - {x}, f);
      assert (set y | y in s :: f[y]) == (set y | y in s - {x} :: f[y]) + {f[x]};
    }
  }

  lemma SameHeadSameClass(rows: Table, live: set<Id>, e: Edges, minSize: int, score: Score, head: Heads, x: Id, y: Id)
    requires live <= rows.Keys && IsDeduped(rows, live, e, minSize, score, head)
    requires x in head && y in head && head[x] == head[y]
    ensures y in ClassOf(e, live, x)
  {
    assert IsDedupedAt(rows, live, e, minSize, score, head, x) && IsDedupedAt(rows, live, e, minSize, score, head, y);
    ConnectedSym(e, y, head[y]);
    ConnectedTrans(e, x, head[x], y);
  }

  lemma KeepersNoMore(rows: Table, live: set<Id>, e: Edges, minSize: int, score: Score, head: Heads, other: Heads)
    requires live <= rows.Keys
    requires IsDeduped(rows, live, e, minSize, score, head) && IsDeduped(rows, live, e, minSize, score, other)
    ensures head.Keys <= other.Keys && |Keepers(head)| <= |Keepers(other)|
  {
    forall x | x in head
      ensures x in other && other[x] in Keepers(other)
    {
      assert IsDedupedAt(rows, live, e, minSize, score, head, x) &&
        IsDedupedAt(rows, live, e, minSize, score, other, x);
    }
    forall x, y | x in Keepers(head) && y in Keepers(head) && other[x] == other[y]
      ensures x == y
    {
      SameHeadSameClass(rows, live, e, minSize, score, other, x, y);
      assert IsDedupedAt(rows, live, e, minSize, score, head, x);
    }
    ImageSize(Keepers(head), other);
    SubsetSize(set x | x in Keepers(head) :: other[x], Keepers(other));
  }

  lemma {:induction false} SubsetSize(a: set<Id>, b: set<Id>)
    requires a <= b
    ensures |a| <= |b|
  {
    if a != {} {
      var x :| x in a;
      SubsetSize(a - {x}, b - {x});
    }
  }

  lemma HeadsSize(head: Heads)
    ensures |head.Keys| == |Keepers(head)| + |Losers(head)|
  {
    assert head.Keys == Keepers(head) + Losers(head) && Keepers(head) !! Losers(head);
  }

  // The report is determined by the table: whichever members tie, and whether
  // or not anything is written, a pass that no deletion disturbs reports the
  // same.
  lemma ReportIsDetermined(was: Table, ns: string, opts: Options, nearest: Nearest, score: Score,
                           head: Heads, res: Report, done: set<Id>, other: Heads, dry: Report, wouldBe: set<Id>)
    requires IsDedupResult(was, ns, opts, nearest, score, head, res, done, {})
    requires IsDedupResult(was, ns, opts.(dryRun := !opts.dryRun), nearest, score, other, dry, wouldBe, {})
    ensures res == dry
  {
    var live := LiveIds(was, ns, opts);
    assert LiveIds(was, ns, opts.(dryRun := !opts.dryRun)) == live;
    if |live| >= opts.minClusterSize {
      var e := CandidatePairs(nearest, live, live, opts.similarity);
      KeepersNoMore(was, live, e, opts.minClusterSize, score, head, other);
      KeepersNoMore(was, live, e, opts.minClusterSize, score, other, head);
      assert head.Keys == other.Keys;
      HeadsSize(head);
      HeadsSize(other);
      TallyIsExact(res.tombstoned, done, Losers(head));
      TallyIsExact(dry.tombstoned, wouldBe, Losers(other));
    }
  }
}
