// Collapsing clusters in the table: every clustered memory is mapped to its
// cluster's head, and every memory but the heads is superseded by it.
module ClusterCollapse {
  import opened Supersession
  import opened MemoryStore

  type Heads = map<Id, Id>

  ghost predicate IsLiveIn(rows: Table, ns: string, id: Id) {
    id in rows && rows[id].ns == ns && rows[id].supersededBy.None?
  }

  ghost predicate IsHeaded(rows: Table, ns: string, head: Heads, id: Id)
    requires id in head
  {
    IsLiveIn(rows, ns, id) && head[id] in head && head[head[id]] == head[id]
  }

  // Live memories of ns, each mapped to a head that is its own head.
  ghost predicate AreHeads(rows: Table, ns: string, head: Heads) {
    forall id {:trigger IsHeaded(rows, ns, head, id)} :: id in head ==> IsHeaded(rows, ns, head, id)
  }

  ghost function Collapsed(rows: Table, head: Heads, now: Time): Table {
    map id | id in rows :: if id in head && head[id] != id then AsSuperseded(rows[id], head[id], now) else rows[id]
  }

  // The table after a pass chose these heads, if it was not a dry run, and
  // others deleted some rows.
  ghost predicate IsOutcome(was: Table, now: Table, ns: string, dryRun: bool, wall: Time, head: Heads, gone: set<Id>) {
    && AreHeads(was, ns, head)
    && now == (if dryRun then was else Collapsed(was, head, wall)) - gone
  }

  ghost function Losers(head: Heads): set<Id> {
    set id | id in head && head[id] != id
  }

  ghost function Keepers(head: Heads): set<Id> {
    set id | id in head && head[id] == id
  }

  ghost function WithCluster(head: Heads, k: Id, ids: set<Id>): Heads {
    map id | id in head.Keys + ids + {k} :: if id in head then head[id] else k
  }

  lemma WithClusterHeads(rows: Table, ns: string, head: Heads, k: Id, ids: set<Id>)
    requires AreHeads(rows, ns, head) && IsLiveIn(rows, ns, k) && k !in head
    requires forall id :: id in ids ==> IsLiveIn(rows, ns, id)
    ensures AreHeads(rows, ns, WithCluster(head, k, ids))
  {
    var now := WithCluster(head, k, ids);
    forall id | id in now
      ensures IsHeaded(rows, ns, now, id)
    {
      if id in head {
        assert IsHeaded(rows, ns, head, id);
      }
    }
  }

  lemma WithClusterLosers(head: Heads, k: Id, ids: set<Id>)
    requires k !in ids && ids !! head.Keys
    ensures Losers(WithCluster(head, k, ids)) == Losers(head) + ids
    ensures |Losers(head) + ids| == |Losers(head)| + |ids|
  {
    assert Losers(head) <= head.Keys;
  }

  lemma WithClusterKeepers(head: Heads, k: Id, ids: set<Id>)
    requires k !in head && k !in ids && ids !! head.Keys
    ensures Keepers(WithCluster(head, k, ids)) == Keepers(head) + {k}
    ensures |Keepers(head) + {k}| == |Keepers(head)| + 1
  {
    var now := WithCluster(head, k, ids);
    assert k in now && now[k] == k;
    forall id
      ensures id in Keepers(now) <==> id in Keepers(head) + {k}
    {
      if id in now && id !in head {
        assert now[id] == k;
      }
    }
    assert k !in Keepers(head);
  }

  // On the supersession graph, the whole collapse points live rows at rows
  // that stay live; other namespaces are not touched.
  lemma CollapsedGraph(rows: Table, ns: string, head: Heads, now: Time, other: string)
    requires AreHeads(rows, ns, head)
    ensures Collapses(GraphOf(rows, other), GraphOf(Collapsed(rows, head, now), other))
  {
    var g, h := GraphOf(rows, other), GraphOf(Collapsed(rows, head, now), other);
    forall id | id in g && h[id] != g[id]
      ensures g[id].None? && h[id].Some? && h[id].value in g && g[h[id].value].None? && h[h[id].value].None?
    {
      assert IsHeaded(rows, ns, head, id);
      assert IsHeaded(rows, ns, head, head[id]);
    }
  }

  lemma CollapseOneMore(rows: Table, head: Heads, k: Id, ids: set<Id>, id: Id, now: Time)
    requires id in rows && id !in head && id != k && id !in ids
    ensures var t := Collapsed(rows, WithCluster(head, k, ids), now);
      t[id] == rows[id] && Collapsed(rows, WithCluster(head, k, ids + {id}), now) ==
        t[id := AsSuperseded(t[id], k, now)]
  {
  }

  // Part way through a cluster: ids point at its head k, n of them by now.
  ghost predicate IsSuperseding(rows: Table, was: Table, head: Heads, k: Id, wall: Time, ids: set<Id>, gone: set<Id>,
                                n: nat, done: set<Id>) {
    && rows == Collapsed(was, WithCluster(head, k, ids), wall) - gone
    && IsTally(n, done, ids, gone)
  }

  lemma NothingSuperseded(was: Table, head: Heads, k: Id, wall: Time, gone: set<Id>)
    requires k !in head
    ensures IsSuperseding(Collapsed(was, head, wall) - gone, was, head, k, wall, {}, gone, 0, {})
  {
    assert Collapsed(was, WithCluster(head, k, {}), wall) == Collapsed(was, head, wall);
  }

  lemma SupersedingFound(rows: Table, was: Table, head: Heads, k: Id, wall: Time, ids: set<Id>, n: nat, done: set<Id>,
                         deletes: nat -> set<Id>, since: nat, at: nat)
    requires since <= at && IsSuperseding(rows, was, head, k, wall, ids, Gone(deletes, since, at), n, done)
    ensures IsSuperseding(rows - deletes(at), was, head, k, wall, ids, Gone(deletes, since, at + 1), n, done)
  {
    FoundAt(Collapsed(was, WithCluster(head, k, ids), wall), deletes, since, at);
  }

  // One more of them: superseded, unless it is gone already.
  lemma SupersedingNext(rows: Table, was: Table, head: Heads, k: Id, wall: Time, ids: set<Id>, gone: set<Id>, n: nat,
                        done: set<Id>, id: Id)
    requires IsSuperseding(rows, was, head, k, wall, ids, gone, n, done)
    requires id in was && id !in head && id != k && id !in ids
    ensures id in rows ==> rows[id] == was[id]
    ensures id in rows ==>
      IsSuperseding(rows[id := AsSuperseded(rows[id], k, wall)], was, head, k, wall, ids + {id}, gone, n + 1,
                    done + {id})
    ensures id !in rows ==> IsSuperseding(rows, was, head, k, wall, ids + {id}, gone, n, done)
  {
    var base := Collapsed(was, WithCluster(head, k, ids), wall);
    CollapseOneMore(was, head, k, ids, id, wall);
    var row := AsSuperseded(base[id], k, wall);
    WrittenThrough(base, gone, if id in rows then rows[id := row] else rows, id, row);
    assert done + {} == done;
  }

  // Supersedes one member; one that is gone already is passed over.
  method SupersedeOne(st: Store, ns: string, k: Id, id: Id, n0: nat,
                      ghost was: Table, ghost head: Heads, ghost ids: set<Id>, ghost done0: set<Id>, ghost since: nat)
    returns (n: nat, err: Outcome, ghost done: set<Id>)
    requires since <= st.calls && IsSuperseding(st.rows, was, head, k, st.wall, ids, st.Lost(since), n0, done0)
    requires IsLiveIn(was, ns, id) && id !in head && id != k && id !in ids
    modifies st`rows, st`calls
    ensures st.calls == old(st.calls) + 1 && (err == Done || (err == Failed && st.fails(old(st.calls))))
    ensures IsSuperseding(st.rows, was, head, k, st.wall, if err == Done then ids + {id} else ids, st.Lost(since), n,
                          done)
  {
    SupersedingFound(st.rows, was, head, k, st.wall, ids, n0, done0, st.deletes, since, st.calls);
    SupersedingNext(st.rows - st.deletes(st.calls), was, head, k, st.wall, ids, Gone(st.deletes, since, st.calls + 1),
                    n0, done0, id);
    var e := st.SetSuperseded(ns, id, k);
    if e != Done {
      if e == NotFound {
        return n0, Done, done0; // raced with a concurrent delete
      }
      return n0, e, done0;
    }
    return n0 + 1, Done, done0 + {id};
  }

  // Supersedes the rest of a cluster by its head. A failing store leaves a
  // smaller cluster collapsed into the same head.
  method SupersedeRest(st: Store, ns: string, k: Id, rest: seq<Mem>, ghost was: Table, ghost head: Heads,
                       ghost since: nat)
    returns (n: nat, err: Outcome, ghost ids: set<Id>, ghost done: set<Id>)
    requires since <= st.calls && st.rows == Collapsed(was, head, st.wall) - st.Lost(since)
    requires IsLiveIn(was, ns, k) && k !in head
    requires Distinct(rest)
    requires forall m :: m in rest ==> IsLiveIn(was, ns, m.id) && m.id !in head && m.id != k
    modifies st`rows, st`calls
    ensures old(st.calls) <= st.calls && (err == Done || (err == Failed && st.FailedSince(old(st.calls))))
    ensures IsSuperseding(st.rows, was, head, k, st.wall, ids, st.Lost(since), n, done)
    ensures ids <= Ids(rest) && (err == Done ==> ids == Ids(rest))
  {
    n, err, ids, done := 0, Done, {}, {};
    NothingSuperseded(was, head, k, st.wall, st.Lost(since));
    for i := 0 to |rest|
      invariant old(st.calls) <= st.calls && ids == Ids(rest[..i]) && err == Done
      invariant IsSuperseding(st.rows, was, head, k, st.wall, ids, st.Lost(since), n, done)
    {
      IdsPrefix(rest, i);
      assert rest[i] in rest;
      n, err, done := SupersedeOne(st, ns, k, rest[i].id, n, was, head, ids, done, since);
      if err != Done {
        return;
      }
      ids := ids + {rest[i].id};
    }
    assert rest[..|rest|] == rest;
  }
}
