// The promise spanning internal/importer and internal/maintenance: a merge that
// erased source namespaces can be undone by splitting the pool.
module MergeSplit {
  import opened Common
  import opened Text
  import opened Supersession
  import opened MemoryStore
  import opened Namespaces
  import opened Importer

  ghost predicate AreNew(rows: Table, recs: seq<Record>) {
    && (forall i, j :: 0 <= i < j < |recs| ==> recs[i].id != recs[j].id)
    && (forall i :: 0 <= i < |recs| ==> recs[i].id !in rows)
  }

  // Redaction leaves the recorded source namespace alone.
  ghost predicate KeepsSource(host: Host) {
    forall m {:trigger host.redactMeta(m)} :: Renamespace.SOURCE_NAMESPACE_KEY in m ==>
      && Renamespace.SOURCE_NAMESPACE_KEY in host.redactMeta(m)
      && host.redactMeta(m)[Renamespace.SOURCE_NAMESPACE_KEY] == m[Renamespace.SOURCE_NAMESPACE_KEY]
  }

  // ---- What importing new records leaves ----------------------------------

  // The table with the rows of these records.
  function Landed(rows: Table, recs: seq<Record>, opts: Options, host: Host): Table {
    if recs == [] then rows
    else Landed(rows, recs[..|recs| - 1], opts, host)[recs[|recs| - 1].id := ToRow(recs[|recs| - 1], opts, host)]
  }

  // That table, short of rows that others deleted.
  ghost predicate IsLanding(rows: Table, now: Table, recs: seq<Record>, opts: Options, host: Host, gone: set<Id>) {
    var all := Landed(rows, recs, opts, host);
    && now.Keys <= all.Keys <= now.Keys + gone
    && forall id :: id in now ==> now[id] == all[id]
  }

  // With nothing deleted there is only one such table.
  lemma LandingIsUnique(rows: Table, now: Table, recs: seq<Record>, opts: Options, host: Host)
    requires IsLanding(rows, now, recs, opts, host, {})
    ensures now == Landed(rows, recs, opts, host)
  {
  }

  lemma {:induction false} LandedKeys(rows: Table, recs: seq<Record>, opts: Options, host: Host, id: Id)
    ensures id in Landed(rows, recs, opts, host) <==> id in rows || exists i :: 0 <= i < |recs| && recs[i].id == id
    ensures id in rows && (forall i :: 0 <= i < |recs| ==> recs[i].id != id) ==>
      Landed(rows, recs, opts, host)[id] == rows[id]
  {
    if recs != [] {
      var init := recs[..|recs| - 1];
      LandedKeys(rows, init, opts, host, id);
      assert forall i :: 0 <= i < |init| ==> init[i] == recs[i];
    }
  }

  lemma {:induction false} LandedAt(rows: Table, recs: seq<Record>, i: nat, opts: Options, host: Host)
    requires i < |recs| && AreNew(rows, recs)
    ensures var now := Landed(rows, recs, opts, host);
      recs[i].id in now && now[recs[i].id] == ToRow(recs[i], opts, host)
  {
    if i < |recs| - 1 {
      LandedAt(rows, recs[..|recs| - 1], i, opts, host);
    }
  }

  // New records are all written, if no call fails.
  lemma {:induction false} NewArePending(f: Feed, b: Backend, recs: seq<Record>, opts: Options)
    requires AreNew(f.rows, recs) && Screened(f, b, recs, opts).errs == []
    ensures Screened(f, b, recs, opts) == Screening(recs, 0, [])
  {
    if recs != [] {
      var n := |recs| - 1;
      NewArePending(f, b, recs[..n], opts);
      assert recs == recs[..n] + [recs[n]];
    }
  }

  lemma LandOneMore(rows: Table, recs: seq<Record>, n: nat, now: Table, opts: Options, host: Host, gone: set<Id>,
                    more: set<Id>)
    requires n < |recs| && AreNew(rows, recs) && IsLanding(rows, now, recs[..n], opts, host, gone)
    ensures recs[n].id !in now
    ensures IsLanding(rows, (now - more)[recs[n].id := ToRow(recs[n], opts, host)], recs[..n + 1], opts, host,
                      gone + more)
  {
    assert recs[..n + 1][..n] == recs[..n];
    LandedKeys(rows, recs[..n], opts, host, recs[n].id);
  }

  // Part way through a batch of new records: n of them have landed.
  ghost predicate IsLandedBy(rows: Table, q: Progress, b: Backend, recs: seq<Record>, n: nat, opts: Options,
                             host: Host, from: nat)
    requires n <= |recs|
  {
    from <= q.feed.call && IsLanding(rows, q.feed.rows, recs[..n], opts, host, Gone(b.deletes, from, q.feed.call))
  }

  lemma UpsertLands(rows: Table, q: Progress, b: Backend, recs: seq<Record>, n: nat, opts: Options, host: Host,
                    from: nat)
    requires n < |recs| && AreNew(rows, recs) && IsLandedBy(rows, q, b, recs, n, opts, host, from)
    ensures var next := Upserting(q, b, recs[n], opts, host);
      next.errs == q.errs ==> IsLandedBy(rows, next, b, recs, n + 1, opts, host, from)
  {
    LandOneMore(rows, recs, n, q.feed.rows, opts, host, Gone(b.deletes, from, q.feed.call), b.deletes(q.feed.call));
    assert |q.errs + [recs[n].id]| > |q.errs|;
  }

  lemma {:induction false} UpsertsLand(rows: Table, p: Progress, b: Backend, recs: seq<Record>, n: nat, opts: Options,
                                       host: Host, from: nat)
    requires n <= |recs| && AreNew(rows, recs) && IsLandedBy(rows, p, b, recs, 0, opts, host, from)
    ensures var q := UpsertAll(p, b, recs[..n], opts, host);
      p.errs <= q.errs && (q.errs == p.errs ==> IsLandedBy(rows, q, b, recs, n, opts, host, from))
    decreases n
  {
    if n == 0 {
      assert recs[..0] == [];
    } else {
      assert recs[..n][..n - 1] == recs[..n - 1];
      var q := UpsertAll(p, b, recs[..n - 1], opts, host);
      UpsertsLand(rows, p, b, recs, n - 1, opts, host, from);
      if q.errs == p.errs {
        UpsertLands(rows, q, b, recs, n - 1, opts, host, from);
      } else {
        assert |q.errs| > |p.errs|;
      }
    }
  }

  lemma NothingLanded(f: Feed, b: Backend, recs: seq<Record>, n: nat, opts: Options, host: Host)
    ensures var p := Progress(AfterScreen(f, b, n, opts), true, 0, 0, []);
      IsLandedBy(f.rows, p, b, recs, 0, opts, host, f.call)
  {
    assert recs[..0] == [];
    AfterJoin(f, b, 0, 0);
  }

  lemma BatchLands(f: Feed, b: Backend, recs: seq<Record>, opts: Options, host: Host)
    requires AreNew(f.rows, recs)
    ensures var q := WriteBatch(f, b, recs, opts, host);
      q.ok && q.errs == [] ==> IsLandedBy(f.rows, q, b, recs, |recs|, opts, host, f.call)
  {
    var s, f1 := Screened(f, b, recs, opts), AfterScreen(f, b, |recs|, opts);
    UpsertsCount(Progress(f1, true, 0, s.duplicates, s.errs), b, s.pending, opts, host);
    if s.errs == [] {
      NewArePending(f, b, recs, opts);
      NothingLanded(f, b, recs, |recs|, opts, host);
      UpsertsLand(f.rows, Progress(f1, true, 0, 0, []), b, recs, |recs|, opts, host, f.call);
      assert recs[..|recs|] == recs;
    }
  }

  lemma NewParts(rows: Table, now: Table, recs: seq<Record>, k: nat, opts: Options, host: Host, gone: set<Id>)
    requires k <= |recs| && AreNew(rows, recs)
    ensures AreNew(rows, recs[..k])
    ensures IsLanding(rows, now, recs[..k], opts, host, gone) ==> AreNew(now, recs[k..])
  {
    if IsLanding(rows, now, recs[..k], opts, host, gone) {
      forall i | 0 <= i < |recs| - k
        ensures recs[k..][i].id !in now
      {
        LandedKeys(rows, recs[..k], opts, host, recs[k + i].id);
      }
    }
  }

  lemma LandingsJoin(rows: Table, mid: Table, now: Table, recs: seq<Record>, k: nat, opts: Options, host: Host,
                     gone: set<Id>, more: set<Id>)
    requires k <= |recs| && AreNew(rows, recs)
    requires IsLanding(rows, mid, recs[..k], opts, host, gone) && IsLanding(mid, now, recs[k..], opts, host, more)
    ensures IsLanding(rows, now, recs, opts, host, gone + more)
  {
    forall id
      ensures id in now ==> id in Landed(rows, recs, opts, host) && now[id] == Landed(rows, recs, opts, host)[id]
      ensures id in Landed(rows, recs, opts, host) ==> id in now || id in gone + more
    {
      LandedInTwo(rows, mid, recs, k, opts, host, gone, id);
    }
  }

  lemma LandedInTwo(rows: Table, mid: Table, recs: seq<Record>, k: nat, opts: Options, host: Host, gone: set<Id>,
                    id: Id)
    requires k <= |recs| && AreNew(rows, recs) && IsLanding(rows, mid, recs[..k], opts, host, gone)
    ensures var all, part := Landed(rows, recs, opts, host), Landed(mid, recs[k..], opts, host);
      && (id in part ==> id in all && part[id] == all[id])
      && (id in all ==> id in part || id in gone)
  {
    NewParts(rows, mid, recs, k, opts, host, gone);
    if i :| k <= i < |recs| && recs[i].id == id {
      LandedLate(rows, mid, recs, k, i, opts, host);
    } else {
      var tail := recs[k..];
      LandedKeys(rows, recs, opts, host, id);
      LandedKeys(mid, tail, opts, host, id);
      assert forall j :: 0 <= j < |tail| ==> tail[j].id == recs[k + j].id != id;
      LandedHead(rows, recs, k, opts, host, id);
    }
  }

  lemma LandedLate(rows: Table, mid: Table, recs: seq<Record>, k: nat, i: nat, opts: Options, host: Host)
    requires k <= i < |recs| && AreNew(rows, recs) && AreNew(mid, recs[k..])
    ensures var all, part := Landed(rows, recs, opts, host), Landed(mid, recs[k..], opts, host);
      recs[i].id in all && recs[i].id in part && part[recs[i].id] == all[recs[i].id]
  {
    LandedAt(rows, recs, i, opts, host);
    assert recs[k..][i - k] == recs[i];
    LandedAt(mid, recs[k..], i - k, opts, host);
  }

  // Later records leave the rows of the others alone.
  lemma LandedHead(rows: Table, recs: seq<Record>, k: nat, opts: Options, host: Host, id: Id)
    requires k <= |recs| && AreNew(rows, recs) && forall i :: k <= i < |recs| ==> recs[i].id != id
    ensures var all, part := Landed(rows, recs, opts, host), Landed(rows, recs[..k], opts, host);
      (id in all <==> id in part) && (id in all ==> all[id] == part[id])
    decreases |recs|
  {
    if k < |recs| {
      assert recs[..|recs| - 1][..k] == recs[..k];
      LandedHead(rows, recs[..|recs| - 1], k, opts, host, id);
    } else {
      assert recs[..k] == recs;
    }
  }

  lemma LandBatch(p: Progress, b: Backend, recs: seq<Record>, k: nat, n: nat, opts: Options, host: Host)
    returns (next: Progress)
    requires n > 0 && recs != [] && k == Min(n, |recs|) && p.ok && AreNew(p.feed.rows, recs)
    ensures p.errs <= next.errs
    ensures next.ok && next.errs == p.errs ==>
      IsLandedBy(p.feed.rows, next, b, recs, k, opts, host, p.feed.call) && AreNew(next.feed.rows, recs[k..])
    ensures AfterBatches(p, b, recs, n, opts, host) == AfterBatches(next, b, recs[k..], n, opts, host)
  {
    var q := WriteBatch(p.feed, b, recs[..k], opts, host);
    next := Plus(p, q);
    NewParts(p.feed.rows, q.feed.rows, recs, k, opts, host, Gone(b.deletes, p.feed.call, q.feed.call));
    BatchLands(p.feed, b, recs[..k], opts, host);
    assert recs[..k][..k] == recs[..k];
    assert q.errs != [] ==> |next.errs| > |p.errs|;
  }

  lemma {:induction false} BatchesLand(p: Progress, b: Backend, recs: seq<Record>, n: nat, opts: Options, host: Host)
    requires n > 0 && AreNew(p.feed.rows, recs)
    ensures var q := AfterBatches(p, b, recs, n, opts, host);
      q.ok && q.errs == p.errs ==>
        && p.feed.call <= q.feed.call
        && IsLanding(p.feed.rows, q.feed.rows, recs, opts, host, Gone(b.deletes, p.feed.call, q.feed.call))
    decreases |recs|
  {
    if recs != [] && p.ok {
      var k := Min(n, |recs|);
      var next := LandBatch(p, b, recs, k, n, opts, host);
      var q := AfterBatches(next, b, recs[k..], n, opts, host);
      BatchesKeepErrors(next, b, recs[k..], n, opts, host);
      if q.ok && q.errs == p.errs {
        assert |next.errs| <= |q.errs|;
        BatchesLand(next, b, recs[k..], n, opts, host);
        GoneJoin(b.deletes, p.feed.call, next.feed.call, q.feed.call);
        LandingsJoin(p.feed.rows, next.feed.rows, q.feed.rows, recs, k, opts, host,
                     Gone(b.deletes, p.feed.call, next.feed.call), Gone(b.deletes, next.feed.call, q.feed.call));
      }
    }
  }

  // Without errors, records with new ids of their own land the same way
  // whatever the batch size: each as its own row, and only what others delete
  // is missing.
  lemma BatchSizeIsImmaterial(f: Feed, b: Backend, recs: seq<Record>, n: nat, opts: Options, host: Host)
    requires n > 0 && AreNew(f.rows, recs)
    ensures var q := AfterBatches(Start(f), b, recs, n, opts, host);
      q.ok && q.errs == [] ==> IsLanding(f.rows, q.feed.rows, recs, opts, host, Gone(b.deletes, f.call, q.feed.call))
  {
    BatchesLand(Start(f), b, recs, n, opts, host);
  }

  // ---- The round trip -----------------------------------------------------

  // A table an import leaves of these records, if it met no error.
  ghost predicate IsMerged(rows: Table, merged: Table, recs: seq<Record>, opts: Options, host: Host, gone: set<Id>) {
    IsLanding(rows, merged, FinalizedAll(recs, opts, host), opts, host, gone)
  }

  // The table a split with the default keys then leaves.
  ghost function SplitApart(rows: Table, pool: string): Table {
    var bound := Renamespace.Bound(rows, pool, Renamespace.DEFAULT_SPLIT_KEYS);
    Renamespace.SplitRows(rows, bound, bound.Values)
  }

  lemma SplitMoves(rows: Table, pool: string, id: Id)
    requires id in rows && rows[id].ns == pool
    ensures id in SplitApart(rows, pool)
    ensures match Renamespace.SplitTarget(rows[id], pool, Renamespace.DEFAULT_SPLIT_KEYS)
      case Some(t) => SplitApart(rows, pool)[id] == rows[id].(ns := t)
      case None => SplitApart(rows, pool)[id] == rows[id]
  {
    var bound := Renamespace.Bound(rows, pool, Renamespace.DEFAULT_SPLIT_KEYS);
    assert id in bound ==> bound[id] in bound.Values;
  }

  lemma MergedRow(rows: Table, merged: Table, recs: seq<Record>, i: nat, opts: Options, host: Host, gone: set<Id>)
    requires opts.forceNamespace != "" && i < |recs| && AreNew(rows, FinalizedAll(recs, opts, host))
    requires IsMerged(rows, merged, recs, opts, host, gone)
    ensures var id := Finalized(recs[i], opts, host).id;
      && (id in merged || id in gone)
      && (id in merged ==>
            merged[id] == ToRow(Finalized(recs[i], opts, host), opts, host) && merged[id].ns == opts.forceNamespace)
  {
    LandedAt(rows, FinalizedAll(recs, opts, host), i, opts, host);
  }

  // A namespace that can be addressed as it stands and is no pattern.
  ghost predicate IsOwnTarget(ns: string) {
    IsPlain(ns) && '*' !in ns
  }

  lemma StampWins(r: Record, opts: Options, host: Host)
    requires opts.forceNamespace != "" && KeepsSource(host)
    requires r.ns != opts.forceNamespace && TrimSpace(r.ns) != ""
    ensures Renamespace.FirstMetaValue(host.redactMeta(FinalMetadata(r, opts)), Renamespace.DEFAULT_SPLIT_KEYS) ==
      TrimSpace(r.ns)
  {
    var m := FinalMetadata(r, opts);
    assert m[Renamespace.SOURCE_NAMESPACE_KEY] == Meta.Text(r.ns);
    assert host.redactMeta(m)[Renamespace.SOURCE_NAMESPACE_KEY] == Meta.Text(r.ns);
  }

  // A record merged away from a source namespace that is not blank comes back
  // to it, whatever else its metadata names, exactly when that namespace was
  // addressable as it stood; the split changes nothing else about it.
  lemma MergeThenSplit(rows: Table, merged: Table, recs: seq<Record>, i: nat, opts: Options, host: Host, gone: set<Id>)
    requires opts.forceNamespace != "" && KeepsSource(host)
    requires i < |recs| && AreNew(rows, FinalizedAll(recs, opts, host))
    requires IsMerged(rows, merged, recs, opts, host, gone)
    requires recs[i].ns != opts.forceNamespace && TrimSpace(recs[i].ns) != ""
    ensures var id, apart := Finalized(recs[i], opts, host).id, SplitApart(merged, opts.forceNamespace);
      && (id in merged || id in gone)
      && (id in merged ==>
            && merged[id].ns == opts.forceNamespace && id in apart && apart[id] == merged[id].(ns := apart[id].ns)
            && (apart[id].ns == recs[i].ns <==> IsOwnTarget(recs[i].ns)))
  {
    var r, pool := recs[i], opts.forceNamespace;
    var id := Finalized(r, opts, host).id;
    MergedRow(rows, merged, recs, i, opts, host, gone);
    if id in merged {
      SplitMoves(merged, pool, id);
      StampWins(r, opts, host);
      TrimIsIdempotent(r.ns);
      PlainIsCanonical(r.ns);
      assert Renamespace.SplitTarget(merged[id], pool, Renamespace.DEFAULT_SPLIT_KEYS) ==
        if Renamespace.IsTarget(Canonical(r.ns), pool) then Some(Canonical(r.ns)) else None;
    }
  }

  // So a merge is undone in full when every record came from such a namespace.
  lemma MergeIsReversible(rows: Table, merged: Table, recs: seq<Record>, opts: Options, host: Host, gone: set<Id>)
    requires opts.forceNamespace != "" && KeepsSource(host)
    requires AreNew(rows, FinalizedAll(recs, opts, host)) && IsMerged(rows, merged, recs, opts, host, gone)
    requires forall r :: r in recs ==> r.ns != opts.forceNamespace && TrimSpace(r.ns) != "" && IsOwnTarget(r.ns)
    ensures var apart := SplitApart(merged, opts.forceNamespace);
      forall i :: 0 <= i < |recs| ==>
        var id := Finalized(recs[i], opts, host).id;
        if id in merged then id in apart && apart[id].ns == recs[i].ns else id in gone
  {
    forall i | 0 <= i < |recs|
      ensures var id, apart := Finalized(recs[i], opts, host).id, SplitApart(merged, opts.forceNamespace);
        if id in merged then id in apart && apart[id].ns == recs[i].ns else id in gone
    {
      assert recs[i] in recs;
      MergeThenSplit(rows, merged, recs, i, opts, host, gone);
    }
  }

  // ---- Where the promise stops --------------------------------------------

  lemma DoubledSlashCollapses()
    ensures Canonical("a//b") == "a/b" && IsValidNamespace("a/b")
  {
    assert TrimSpace("a//b") == "a//b";
    assert "a//b"[1..] == "//b" && "//b"[1..] == "/b" && "/b"[1..] == "b" && "b"[1..] == "" && "" + "a" == "a" &&
      "" + "b" == "b";
    assert SegmentsFrom("", "b") == SegmentsFrom("b", "") == ["b"];
    assert SegmentsFrom("", "/b") == [] + ["b"] == ["b"];
    assert SegmentsFrom("a", "//b") == ["a"] + ["b"] == ["a", "b"];
    assert Join(["a", "b"]) == "a" + "/" + "b" == "a/b" by {
      assert ["a", "b"][1..] == ["b"];
    }
    assert "a/b"[1..] == "/b" && ByteLength("/b") == 2;
  }

  lemma DoubledSlashTarget(r: Record, opts: Options, host: Host)
    requires KeepsSource(host) && opts.forceNamespace != "" && opts.forceNamespace != "a/b"
    requires opts.forceNamespace != "a//b"
    requires r.ns == "a//b"
    ensures Renamespace.SplitTarget(ToRow(Finalized(r, opts, host), opts, host), opts.forceNamespace,
                                    Renamespace.DEFAULT_SPLIT_KEYS) ==
      Some("a/b")
  {
    assert TrimSpace("a//b") == "a//b";
    StampWins(r, opts, host);
    DoubledSlashCollapses();
  }

  // A record of a namespace with a doubled slash does not come back to it: the
  // split canonicalizes what the stamp names.
  lemma DoubledSlashIsNotRestored(rows: Table, r: Record, opts: Options, host: Host)
    requires KeepsSource(host) && opts.forceNamespace != "" && opts.forceNamespace != "a/b"
    requires opts.forceNamespace != "a//b"
    requires r.ns == "a//b" && r.id != "" && r.id !in rows
    ensures var merged := Landed(rows, FinalizedAll([r], opts, host), opts, host);
      var apart := SplitApart(merged, opts.forceNamespace);
      && AreNew(rows, FinalizedAll([r], opts, host)) && IsMerged(rows, merged, [r], opts, host, {})
      && r.id in merged && r.id in apart && apart[r.id].ns == "a/b"
  {
    var final := Finalized(r, opts, host);
    assert FinalizedAll([r], opts, host) == [final];
    var merged := Landed(rows, [final], opts, host);
    assert merged.Keys + {} == merged.Keys;
    MergedRow(rows, merged, [r], 0, opts, host, {});
    SplitMoves(merged, opts.forceNamespace, r.id);
    DoubledSlashTarget(r, opts, host);
  }

  // A record that was in the pool already, or in no namespace, carries no
  // stamp: the split takes it wherever its own metadata points.
  lemma UnstampedGoWhereMetadataPoints(rows: Table, merged: Table, recs: seq<Record>, i: nat, opts: Options,
                                       host: Host, gone: set<Id>)
    requires opts.forceNamespace != ""
    requires i < |recs| && AreNew(rows, FinalizedAll(recs, opts, host))
    requires IsMerged(rows, merged, recs, opts, host, gone)
    requires recs[i].ns == opts.forceNamespace || recs[i].ns == ""
    ensures var id, apart := Finalized(recs[i], opts, host).id, SplitApart(merged, opts.forceNamespace);
      var t := Canonical(Renamespace.FirstMetaValue(host.redactMeta(FinalMetadata(recs[i], opts)),
                                                    Renamespace.DEFAULT_SPLIT_KEYS));
      id in merged ==>
        id in apart && apart[id].ns == if Renamespace.IsTarget(t, opts.forceNamespace) then t else opts.forceNamespace
  {
    var id := Finalized(recs[i], opts, host).id;
    MergedRow(rows, merged, recs, i, opts, host, gone);
    if id in merged {
      SplitMoves(merged, opts.forceNamespace, id);
    }
  }

  // Two records of one content and no ids of their own get one id once merged,
  // so the second replaces the first: of the first's row only the creation
  // time is left.
  lemma EqualContentsCollide(p: Progress, b: Backend, x: Record, y: Record, opts: Options, host: Host)
    requires opts.forceNamespace != "" && x.id == y.id == "" && x.content == y.content
    ensures Finalized(x, opts, host).id == Finalized(y, opts, host).id
    ensures var q := UpsertAll(p, b, [Finalized(x, opts, host), Finalized(y, opts, host)], opts, host);
      var id := Finalized(y, opts, host).id;
      q.errs == p.errs ==>
        && id in q.feed.rows
        && q.feed.rows[id] == ToRow(Finalized(y, opts, host), opts, host).(createdAt := q.feed.rows[id].createdAt)
  {
    var fx, fy := Finalized(x, opts, host), Finalized(y, opts, host);
    assert [fx, fy][..1] == [fx] && [fx][..|[fx]| - 1] == [];
    assert UpsertAll(p, b, [], opts, host) == p;
    var one := UpsertAll(p, b, [fx], opts, host);
    assert one == Upserting(p, b, fx, opts, host);
    assert UpsertAll(p, b, [fx, fy], opts, host) == Upserting(one, b, fy, opts, host);
    UpsertsCount(p, b, [fx], opts, host);
    assert |one.errs + [fy.id]| > |p.errs|;
  }
}
