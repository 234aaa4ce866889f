// internal/maintenance/renamespace.go: regrouping a namespace by metadata.
module Renamespace {
  import opened Common
  import opened Text
  import opened Supersession
  import opened MemoryStore
  import opened Namespaces
  import Repair

  const SOURCE_NAMESPACE_KEY := "import_source_namespace"
  const DEFAULT_SPLIT_KEYS: seq<string> := [SOURCE_NAMESPACE_KEY, "user_id", "agent_id", "run_id", "project"]

  // The first of the keys whose value is a string that is not blank, trimmed.
  function FirstMetaValue(metadata: map<string, Meta>, keys: seq<string>): string {
    if keys == [] then ""
    else if keys[0] in metadata && metadata[keys[0]].Text? && TrimSpace(metadata[keys[0]].text) != "" then
      TrimSpace(metadata[keys[0]].text)
    else FirstMetaValue(metadata, keys[1..])
  }

  predicate IsTarget(target: string, fromNS: string) {
    target != "" && target != fromNS && IsValidNamespace(target) && '*' !in target
  }

  // Where a split sends a row of fromNS: nowhere if no key names a namespace
  // that can be addressed.
  function SplitTarget(row: Row, fromNS: string, keys: seq<string>): Option<string> {
    var target := Canonical(FirstMetaValue(row.metadata, keys));
    if IsTarget(target, fromNS) then Some(target) else None
  }

  // The value of a key of the metadata, if it is a string that is not blank.
  ghost predicate IsNamed(metadata: map<string, Meta>, key: string, value: string) {
    key in metadata && metadata[key].Text? && value == TrimSpace(metadata[key].text) != ""
  }

  // The first of the keys to name anything names this.
  ghost predicate IsFirstNamed(metadata: map<string, Meta>, keys: seq<string>, k: int, value: string) {
    && 0 <= k < |keys| && IsNamed(metadata, keys[k], value)
    && forall j, other {:trigger IsNamed(metadata, keys[j], other)} :: 0 <= j < k ==>
         !IsNamed(metadata, keys[j], other)
  }

  // What the first of the keys to name anything names is the target, in its
  // canonical form: 1 to 256 bytes of UTF-8, no NUL and no star among them,
  // and not where the row is already.
  ghost predicate IsSentTo(row: Row, keys: seq<string>, target: string) {
    && 1 <= |Encode(target)| <= 256 && '\0' !in target && '*' !in target && target != row.ns
    && exists k, value {:trigger IsFirstNamed(row.metadata, keys, k, value)} ::
         IsFirstNamed(row.metadata, keys, k, value) && target == Canonical(value)
  }

  lemma {:induction false} FirstMetaIsFirst(metadata: map<string, Meta>, keys: seq<string>) returns (k: int)
    ensures FirstMetaValue(metadata, keys) != "" ==> IsFirstNamed(metadata, keys, k, FirstMetaValue(metadata, keys))
    ensures FirstMetaValue(metadata, keys) == "" ==>
      forall j, other {:trigger IsNamed(metadata, keys[j], other)} :: 0 <= j < |keys| ==>
        !IsNamed(metadata, keys[j], other)
  {
    if keys == [] {
      return 0;
    }
    var rest := FirstMetaIsFirst(metadata, keys[1..]);
    k := if IsNamed(metadata, keys[0], FirstMetaValue(metadata, keys)) then 0 else rest + 1;
    forall j, other {:trigger IsNamed(metadata, keys[j], other)} | 0 < j < |keys|
      ensures IsNamed(metadata, keys[j], other) <==> IsNamed(metadata, keys[1..][j - 1], other)
    {
    }
  }

  lemma FirstNamedIsOne(metadata: map<string, Meta>, keys: seq<string>, k: int, value: string, j: int, other: string)
    requires IsFirstNamed(metadata, keys, k, value) && IsFirstNamed(metadata, keys, j, other)
    ensures value == other
  {
    assert IsNamed(metadata, keys[k], value) && IsNamed(metadata, keys[j], other);
  }

  // A split sends each row where its metadata names first, if anywhere.
  lemma SentWhereNamed(row: Row, keys: seq<string>, target: string)
    ensures SplitTarget(row, row.ns, keys) == Some(target) <==> IsSentTo(row, keys, target)
  {
    var value := FirstMetaValue(row.metadata, keys);
    var k := FirstMetaIsFirst(row.metadata, keys);
    EncodingDecodes(target);
    if IsSentTo(row, keys, target) {
      var j, other :| IsFirstNamed(row.metadata, keys, j, other) && target == Canonical(other);
      assert IsNamed(row.metadata, keys[j], other);
      FirstNamedIsOne(row.metadata, keys, k, value, j, other);
    }
    if SplitTarget(row, row.ns, keys) == Some(target) {
      assert IsFirstNamed(row.metadata, keys, k, value) && target == Canonical(value);
    }
  }

  // The rows of fromNS that are bound elsewhere, and for where.
  ghost function Bound(rows: Table, fromNS: string, keys: seq<string>): map<Id, string> {
    map id | id in rows && rows[id].ns == fromNS && SplitTarget(rows[id], fromNS, keys).Some? ::
      SplitTarget(rows[id], fromNS, keys).value
  }

  ghost function BoundFor(bound: map<Id, string>, t: string): set<Id> {
    set id | id in bound && bound[id] == t
  }

  ghost function Stayers(rows: Table, fromNS: string, bound: map<Id, string>): set<Id> {
    set id | id in rows && rows[id].ns == fromNS && id !in bound
  }

  // The table with the rows bound for these targets moved there.
  ghost function SplitRows(rows: Table, bound: map<Id, string>, targets: set<string>): Table {
    map id | id in rows :: if id in bound && bound[id] in targets then rows[id].(ns := bound[id]) else rows[id]
  }

  datatype Report = Report(moved: nat, targets: map<string, nat>, skipped: nat)

  // ---- Counting -----------------------------------------------------------

  // The rows moved to each target.
  type Takings = map<string, set<Id>>

  ghost function Union(taken: Takings): set<Id> {
    set t, id | t in taken && id in taken[t] :: id
  }

  // Each row is bound for one target, so none is taken twice.
  ghost predicate AreBound(taken: Takings, bound: map<Id, string>) {
    forall t, id :: t in taken && id in taken[t] ==> id in bound && bound[id] == t
  }

  ghost predicate IsCounted(taken: Takings, counts: map<string, nat>, t: string) {
    t in taken && t in counts && counts[t] == |taken[t]|
  }

  ghost predicate AreCounts(taken: Takings, counts: map<string, nat>) {
    && counts.Keys == taken.Keys
    && forall t {:trigger IsCounted(taken, counts, t)} :: t in taken ==> IsCounted(taken, counts, t)
  }

  ghost function Sum(m: map<string, nat>): nat {
    if m == map[] then 0
    else
      var k :| k in m;
      m[k] + Sum(m - {k})
  }

  lemma UnionNext(taken: Takings, t: string, ids: set<Id>)
    requires t !in taken && ids !! Union(taken)
    ensures Union(taken[t := ids]) == Union(taken) + ids && |Union(taken[t := ids])| == |Union(taken)| + |ids|
  {
    var next := taken[t := ids];
    forall id
      ensures id in Union(next) <==> id in Union(taken) + ids
    {
      if id in ids {
        assert id in next[t];
      }
      if id in Union(taken) {
        var u :| u in taken && id in taken[u];
        assert id in next[u];
      }
    }
  }

  lemma CountNext(taken: Takings, counts: map<string, nat>, t: string, ids: set<Id>)
    requires AreCounts(taken, counts) && t !in taken
    ensures AreCounts(taken[t := ids], counts[t := |ids|])
  {
    forall u {:trigger IsCounted(taken[t := ids], counts[t := |ids|], u)} | u in taken[t := ids]
      ensures IsCounted(taken[t := ids], counts[t := |ids|], u)
    {
      assert u != t ==> IsCounted(taken, counts, u);
    }
  }

  lemma CountLess(taken: Takings, counts: map<string, nat>, k: string)
    requires AreCounts(taken, counts) && k in taken
    ensures AreCounts(taken - {k}, counts - {k}) && counts[k] == |taken[k]|
  {
    assert IsCounted(taken, counts, k);
    forall t | t in taken - {k}
      ensures IsCounted(taken - {k}, counts - {k}, t)
    {
      assert IsCounted(taken, counts, t);
    }
  }

  lemma UnionLess(taken: Takings, bound: map<Id, string>, k: string)
    requires AreBound(taken, bound) && k in taken
    ensures AreBound(taken - {k}, bound) && |Union(taken)| == |Union(taken - {k})| + |taken[k]|
  {
    var less := taken - {k};
    forall id | id in Union(less)
      ensures id !in taken[k]
    {
      var t :| t in less && id in less[t];
      assert bound[id] == t;
    }
    UnionNext(less, k, taken[k]);
    assert less[k := taken[k]] == taken;
  }

  lemma {:induction false} CountsSum(taken: Takings, bound: map<Id, string>, counts: map<string, nat>)
    requires AreBound(taken, bound) && AreCounts(taken, counts)
    ensures Sum(counts) == |Union(taken)|
    decreases counts
  {
    if counts == map[] {
      assert Union(taken) == {};
    } else {
      var k :| k in counts && Sum(counts) == counts[k] + Sum(counts - {k});
      CountLess(taken, counts, k);
      UnionLess(taken, bound, k);
      CountsSum(taken - {k}, bound, counts - {k});
    }
  }

  // ---- What a split takes -------------------------------------------------

  // A split under way: what it listed and where that is bound, what others
  // delete from its call `since` on, and at which call it moved each target it
  // is done with.
  datatype Splitting = Splitting(listed: Table, fromNS: string, bound: map<Id, string>, dryRun: bool,
                                 deletes: nat -> set<Id>, since: nat, at: map<string, nat>)

  // The rows bound for one target that nobody deleted before its turn.
  ghost function TakenBy(w: Splitting, t: string, k: nat): set<Id> {
    BoundFor(w.bound, t) - if w.dryRun then {} else Gone(w.deletes, w.since, k + 1)
  }

  ghost function Taken(w: Splitting): Takings {
    map t | t in w.at :: TakenBy(w, t, w.at[t])
  }

  // The rows that were deleted before their turn.
  ghost function Missed(w: Splitting): set<Id> {
    w.bound.Keys - Union(Taken(w))
  }

  // What a split reports so far.
  ghost predicate IsReport(w: Splitting, rep: Report) {
    && AreCounts(Taken(w), rep.targets)
    && rep.moved == |Union(Taken(w))|
    && rep.skipped == |Stayers(w.listed, w.fromNS, w.bound)|
  }

  lemma TakenNext(w: Splitting, t: string, k: nat)
    requires t !in w.at
    ensures Taken(w.(at := w.at[t := k])) == Taken(w)[t := TakenBy(w, t, k)]
    ensures TakenBy(w, t, k) !! Union(Taken(w))
  {
    forall id | id in Union(Taken(w))
      ensures id !in TakenBy(w, t, k)
    {
      var u :| u in Taken(w) && id in Taken(w)[u];
    }
  }

  lemma TakenIsBound(w: Splitting)
    ensures AreBound(Taken(w), w.bound) && Union(Taken(w)) <= w.bound.Keys
  {
    forall id | id in Union(Taken(w))
      ensures id in w.bound
    {
      var t :| t in Taken(w) && id in Taken(w)[t];
    }
  }

  lemma RowsAddUp(w: Splitting)
    requires w.bound.Keys <= GraphOf(w.listed, w.fromNS).Keys
    ensures |Union(Taken(w))| + |Missed(w)| == |w.bound.Keys|
    ensures |w.bound.Keys| + |Stayers(w.listed, w.fromNS, w.bound)| == |GraphOf(w.listed, w.fromNS).Keys|
  {
    TakenIsBound(w);
    Repair.SizeJoin(Union(Taken(w)), w.bound.Keys);
    assert Stayers(w.listed, w.fromNS, w.bound) == GraphOf(w.listed, w.fromNS).Keys - w.bound.Keys;
    Repair.SizeJoin(w.bound.Keys, GraphOf(w.listed, w.fromNS).Keys);
  }

  // The report accounts for every row the split listed: what was moved, plus
  // what was skipped, plus what others deleted before its turn; and the
  // per-target counts add up to what was moved. On a dry run, or when nobody
  // deletes anything, nothing is missed.
  lemma ReportAddsUp(w: Splitting, rep: Report)
    requires w.bound.Keys <= GraphOf(w.listed, w.fromNS).Keys && w.at.Keys == w.bound.Values && IsReport(w, rep)
    ensures rep.moved + rep.skipped + |Missed(w)| == |GraphOf(w.listed, w.fromNS).Keys|
    ensures Sum(rep.targets) == rep.moved
    ensures w.dryRun || (forall k :: w.deletes(k) == {}) ==> Missed(w) == {}
  {
    TakenIsBound(w);
    CountsSum(Taken(w), w.bound, rep.targets);
    RowsAddUp(w);
    if w.dryRun || forall k :: w.deletes(k) == {} {
      NothingMissed(w);
    }
  }

  lemma NothingMissed(w: Splitting)
    requires w.at.Keys == w.bound.Values && (w.dryRun || forall k :: w.deletes(k) == {})
    ensures Missed(w) == {}
  {
    forall id | id in w.bound
      ensures id in Union(Taken(w))
    {
      var t := w.bound[id];
      assert t in w.bound.Values && t in w.at;
      if !w.dryRun {
        Repair.NothingGone(w.deletes, w.since, w.at[t] + 1);
      }
      assert id in Taken(w)[t];
    }
  }

  // ---- Grouping -----------------------------------------------------------

  // The listed ids bound for one target, in listing order.
  ghost function GroupFor(mems: seq<Mem>, fromNS: string, keys: seq<string>, t: string): seq<Id> {
    if mems == [] then []
    else
      var m := mems[|mems| - 1];
      GroupFor(mems[..|mems| - 1], fromNS, keys, t) + if SplitTarget(m.row, fromNS, keys) == Some(t) then [m.id] else []
  }

  ghost function SkippedIds(mems: seq<Mem>, fromNS: string, keys: seq<string>): seq<Id> {
    if mems == [] then []
    else
      var m := mems[|mems| - 1];
      SkippedIds(mems[..|mems| - 1], fromNS, keys) + if SplitTarget(m.row, fromNS, keys).None? then [m.id] else []
  }

  lemma {:induction false} GroupMembers(mems: seq<Mem>, fromNS: string, keys: seq<string>, t: string)
    requires Distinct(mems)
    ensures Unique(GroupFor(mems, fromNS, keys, t))
    ensures forall id :: id in GroupFor(mems, fromNS, keys, t) <==>
      exists m :: m in mems && m.id == id && SplitTarget(m.row, fromNS, keys) == Some(t)
  {
    if mems != [] {
      var init, last := mems[..|mems| - 1], mems[|mems| - 1];
      assert mems == init + [last];
      GroupMembers(init, fromNS, keys, t);
      var g := GroupFor(init, fromNS, keys, t);
      forall i | 0 <= i < |g|
        ensures g[i] != last.id
      {
        assert g[i] in g;
        var m :| m in init && m.id == g[i] && SplitTarget(m.row, fromNS, keys) == Some(t);
      }
    }
  }

  lemma {:induction false} SkippedMembers(mems: seq<Mem>, fromNS: string, keys: seq<string>)
    requires Distinct(mems)
    ensures Unique(SkippedIds(mems, fromNS, keys))
    ensures forall id :: id in SkippedIds(mems, fromNS, keys) <==>
      exists m :: m in mems && m.id == id && SplitTarget(m.row, fromNS, keys).None?
  {
    if mems != [] {
      var init, last := mems[..|mems| - 1], mems[|mems| - 1];
      assert mems == init + [last];
      SkippedMembers(init, fromNS, keys);
      var g := SkippedIds(init, fromNS, keys);
      forall i | 0 <= i < |g|
        ensures g[i] != last.id
      {
        assert g[i] in g;
        var m :| m in init && m.id == g[i] && SplitTarget(m.row, fromNS, keys).None?;
      }
    }
  }

  lemma {:induction false} UniqueCount(s: seq<Id>, ids: set<Id>)
    requires Unique(s) && forall id :: id in s <==> id in ids
    ensures |s| == |ids|
  {
    if s == [] {
      assert ids == {};
    } else {
      var init, last := s[..|s| - 1], s[|s| - 1];
      assert s == init + [last];
      UniqueCount(init, ids - {last});
    }
  }

  ghost predicate IsGroup(groups: map<string, seq<Id>>, mems: seq<Mem>, fromNS: string, keys: seq<string>, t: string) {
    var g := GroupFor(mems, fromNS, keys, t);
    if t in groups then groups[t] == g != [] else g == []
  }

  ghost predicate AreGroups(groups: map<string, seq<Id>>, mems: seq<Mem>, fromNS: string, keys: seq<string>) {
    forall t {:trigger IsGroup(groups, mems, fromNS, keys, t)} :: IsGroup(groups, mems, fromNS, keys, t)
  }

  lemma GroupStep(mems: seq<Mem>, i: nat, fromNS: string, keys: seq<string>, t: string)
    requires i < |mems|
    ensures GroupFor(mems[..i + 1], fromNS, keys, t) ==
      GroupFor(mems[..i], fromNS, keys, t) + if SplitTarget(mems[i].row, fromNS, keys) == Some(t) then [mems[i].id]
        else []
  {
    assert mems[..i + 1][..i] == mems[..i];
  }

  lemma SkipStep(mems: seq<Mem>, i: nat, fromNS: string, keys: seq<string>)
    requires i < |mems|
    ensures |SkippedIds(mems[..i + 1], fromNS, keys)| ==
      |SkippedIds(mems[..i], fromNS, keys)| + if SplitTarget(mems[i].row, fromNS, keys).None? then 1 else 0
  {
    assert mems[..i + 1][..i] == mems[..i];
  }

  function WithMember(groups: map<string, seq<Id>>, target: Option<string>, id: Id): map<string, seq<Id>> {
    match target
    case None => groups
    case Some(t) => groups[t := (if t in groups then groups[t] else []) + [id]]
  }

  lemma GroupOneMore(groups: map<string, seq<Id>>, mems: seq<Mem>, i: nat, fromNS: string, keys: seq<string>)
    requires i < |mems| && AreGroups(groups, mems[..i], fromNS, keys)
    ensures AreGroups(WithMember(groups, SplitTarget(mems[i].row, fromNS, keys), mems[i].id), mems[..i + 1], fromNS,
                      keys)
  {
    var now, next := WithMember(groups, SplitTarget(mems[i].row, fromNS, keys), mems[i].id), mems[..i + 1];
    forall t
      ensures IsGroup(now, next, fromNS, keys, t)
    {
      GroupStep(mems, i, fromNS, keys, t);
      assert IsGroup(groups, mems[..i], fromNS, keys, t);
    }
  }

  method GroupByTarget(mems: seq<Mem>, fromNS: string, keys: seq<string>)
    returns (groups: map<string, seq<Id>>, skipped: nat)
    ensures AreGroups(groups, mems, fromNS, keys) && skipped == |SkippedIds(mems, fromNS, keys)|
  {
    groups, skipped := map[], 0;
    assert AreGroups(groups, [], fromNS, keys);
    for i := 0 to |mems|
      invariant AreGroups(groups, mems[..i], fromNS, keys) && skipped == |SkippedIds(mems[..i], fromNS, keys)|
    {
      var m := mems[i];
      GroupOneMore(groups, mems, i, fromNS, keys);
      SkipStep(mems, i, fromNS, keys);
      var target := NormalizeNamespace(FirstMetaValue(m.row.metadata, keys));
      if target == "" || target == fromNS || !IsValidNamespace(target) || '*' in target {
        skipped := skipped + 1;
        continue;
      }
      groups := groups[target := (if target in groups then groups[target] else []) + [m.id]];
    }
    assert mems[..|mems|] == mems;
  }

  // The groups of a listing are the rows each target takes.
  lemma GroupIsMovers(rows: Table, fromNS: string, keys: seq<string>, mems: seq<Mem>, t: string)
    requires IsListing(rows, fromNS, Repair.EVERYTHING, mems)
    ensures var g := GroupFor(mems, fromNS, keys, t);
      && |g| == |BoundFor(Bound(rows, fromNS, keys), t)|
      && (forall id :: id in g <==> id in BoundFor(Bound(rows, fromNS, keys), t))
  {
    var g := GroupFor(mems, fromNS, keys, t);
    GroupMembers(mems, fromNS, keys, t);
    forall id
      ensures id in g <==> id in BoundFor(Bound(rows, fromNS, keys), t)
    {
    }
    UniqueCount(g, BoundFor(Bound(rows, fromNS, keys), t));
  }

  lemma SkippedAreStayers(rows: Table, fromNS: string, keys: seq<string>, mems: seq<Mem>)
    requires IsListing(rows, fromNS, Repair.EVERYTHING, mems)
    ensures |SkippedIds(mems, fromNS, keys)| == |Stayers(rows, fromNS, Bound(rows, fromNS, keys))|
  {
    var g := SkippedIds(mems, fromNS, keys);
    SkippedMembers(mems, fromNS, keys);
    forall id
      ensures id in g <==> id in Stayers(rows, fromNS, Bound(rows, fromNS, keys))
    {
    }
    UniqueCount(g, Stayers(rows, fromNS, Bound(rows, fromNS, keys)));
  }

  lemma GroupsAreTargets(rows: Table, fromNS: string, keys: seq<string>, mems: seq<Mem>, groups: map<string, seq<Id>>)
    requires IsListing(rows, fromNS, Repair.EVERYTHING, mems) && AreGroups(groups, mems, fromNS, keys)
    ensures groups.Keys == Bound(rows, fromNS, keys).Values
  {
    var bound := Bound(rows, fromNS, keys);
    forall t
      ensures t in groups <==> t in bound.Values
    {
      GroupIsMovers(rows, fromNS, keys, mems, t);
      var g := GroupFor(mems, fromNS, keys, t);
      assert IsGroup(groups, mems, fromNS, keys, t);
      if t in groups {
        assert g[0] in g;
        assert bound[g[0]] == t;
      }
      if t in bound.Values {
        var id :| id in bound && bound[id] == t;
        assert id in g;
      }
    }
  }

  // The rows listed for each target.
  ghost predicate IsGroupOf(bound: map<Id, string>, t: string, gids: seq<Id>) {
    gids != [] && |gids| == |BoundFor(bound, t)| && forall id :: id in gids <==> id in BoundFor(bound, t)
  }

  ghost predicate AreMovers(bound: map<Id, string>, groups: map<string, seq<Id>>) {
    forall t {:trigger IsGroupOf(bound, t, groups[t])} :: t in groups ==> IsGroupOf(bound, t, groups[t])
  }

  lemma GroupsAreMovers(listed: Table, fromNS: string, keys: seq<string>, mems: seq<Mem>, groups: map<string, seq<Id>>)
    requires IsListing(listed, fromNS, Repair.EVERYTHING, mems) && AreGroups(groups, mems, fromNS, keys)
    ensures AreMovers(Bound(listed, fromNS, keys), groups)
  {
    forall t | t in groups
      ensures IsGroupOf(Bound(listed, fromNS, keys), t, groups[t])
    {
      GroupIsMovers(listed, fromNS, keys, mems, t);
      assert IsGroup(groups, mems, fromNS, keys, t);
    }
  }

  // Where the table stands once the targets of w have had their turn.
  ghost predicate IsSplit(w: Splitting, rows: Table, to: nat) {
    && w.since <= to && (w.dryRun || forall t :: t in w.at ==> w.since <= w.at[t] < to)
    && (forall id :: id in w.bound ==> id in w.listed && w.listed[id].ns == w.fromNS && w.bound[id] != w.fromNS)
    && rows == (if w.dryRun then w.listed else SplitRows(w.listed, w.bound, w.at.Keys)) - Gone(w.deletes, w.since, to)
  }

  lemma NothingMoved(w: Splitting)
    requires w.at == map[] && forall id :: id in w.bound ==>
      id in w.listed && w.listed[id].ns == w.fromNS && w.bound[id] != w.fromNS
    ensures IsSplit(w, w.listed, w.since)
    ensures IsReport(w, Report(0, map[], |Stayers(w.listed, w.fromNS, w.bound)|))
  {
    assert SplitRows(w.listed, w.bound, {}) == w.listed && Union(Taken(w)) == {};
    FoundAt(w.listed, w.deletes, w.since, w.since);
  }

  lemma SplitFound(w: Splitting, rows: Table, at: nat)
    requires IsSplit(w, rows, at)
    ensures IsSplit(w, rows - w.deletes(at), at + 1)
  {
    FoundAt(if w.dryRun then w.listed else SplitRows(w.listed, w.bound, w.at.Keys), w.deletes, w.since, at);
  }

  lemma ReportNext(w: Splitting, rep: Report, t: string, k: nat, n: nat)
    requires IsReport(w, rep) && t !in w.at && n == |TakenBy(w, t, k)|
    ensures IsReport(w.(at := w.at[t := k]), Report(rep.moved + n, rep.targets[t := n], rep.skipped))
  {
    TakenNext(w, t, k);
    UnionNext(Taken(w), t, TakenBy(w, t, k));
    CountNext(Taken(w), rep.targets, t, TakenBy(w, t, k));
  }

  ghost predicate InProgress(w: Splitting, rows: Table, to: nat, rep: Report) {
    IsSplit(w, rows, to) && IsReport(w, rep)
  }

  function WithTarget(rep: Report, t: string, n: nat): Report {
    Report(rep.moved + n, rep.targets[t := n], rep.skipped)
  }

  lemma SplitNext(w: Splitting, rows: Table, t: string, gids: seq<Id>, k: nat)
    requires !w.dryRun && IsSplit(w, rows, k) && t !in w.at && IsGroupOf(w.bound, t, gids)
    ensures IsSplit(w.(at := w.at[t := k]), Reassigned(rows - w.deletes(k), w.fromNS, gids, t), k + 1)
    ensures Movable(rows - w.deletes(k), w.fromNS, gids) == TakenBy(w, t, k)
  {
    SplitFound(w, rows, k);
    assert w.at[t := k].Keys == w.at.Keys + {t};
  }

  // The turn of one target, at the call numbered k.
  lemma GroupMoved(w: Splitting, rows: Table, t: string, gids: seq<Id>, k: nat, rep: Report)
    requires !w.dryRun && InProgress(w, rows, k, rep) && t !in w.at && IsGroupOf(w.bound, t, gids)
    ensures var found := rows - w.deletes(k);
      && InProgress(w, found, k + 1, rep)
      && InProgress(w.(at := w.at[t := k]), Reassigned(found, w.fromNS, gids, t), k + 1,
                    WithTarget(rep, t, |Movable(found, w.fromNS, gids)|))
  {
    SplitFound(w, rows, k);
    SplitNext(w, rows, t, gids, k);
    ReportNext(w, rep, t, k, |TakenBy(w, t, k)|);
  }

  // The same, by what the call answers.
  lemma GroupTried(w: Splitting, rows: Table, now: Table, t: string, gids: seq<Id>, k: nat, rep: Report, n: nat,
                   ok: bool)
    requires !w.dryRun && InProgress(w, rows, k, rep) && t !in w.at && IsGroupOf(w.bound, t, gids)
    requires now == if ok then Reassigned(rows - w.deletes(k), w.fromNS, gids, t) else rows - w.deletes(k)
    requires ok ==> n == |Movable(rows - w.deletes(k), w.fromNS, gids)|
    ensures InProgress(if ok then w.(at := w.at[t := k]) else w, now, k + 1, if ok then WithTarget(rep, t, n) else rep)
  {
    GroupMoved(w, rows, t, gids, k, rep);
  }

  lemma GroupCounted(w: Splitting, rows: Table, t: string, gids: seq<Id>, k: nat, rep: Report)
    requires w.dryRun && InProgress(w, rows, k, rep) && t !in w.at && IsGroupOf(w.bound, t, gids)
    ensures InProgress(w.(at := w.at[t := k]), rows, k, WithTarget(rep, t, |gids|))
  {
    assert TakenBy(w, t, k) == BoundFor(w.bound, t);
    ReportNext(w, rep, t, k, |gids|);
    assert IsSplit(w.(at := w.at[t := k]), rows, k);
  }

  method MoveGroup(st: Store, fromNS: string, t: string, gids: seq<Id>, dryRun: bool, rep0: Report, ghost w: Splitting)
    returns (rep: Report, ok: bool)
    requires w.fromNS == fromNS && w.dryRun == dryRun && w.deletes == st.deletes
    requires IsGroupOf(w.bound, t, gids) && t !in w.at
    requires InProgress(w, st.rows, st.calls, rep0)
    modifies st`rows, st`calls
    ensures old(st.calls) <= st.calls && (!ok ==> st.FailedSince(old(st.calls)))
    ensures InProgress(if ok then w.(at := w.at[t := old(st.calls)]) else w, st.rows, st.calls, rep)
  {
    rep := rep0;
    if dryRun {
      GroupCounted(w, st.rows, t, gids, st.calls, rep);
      return WithTarget(rep, t, |gids|), true;
    }
    ghost var before := st.rows;
    var n := st.Reassign(fromNS, gids, t);
    rep, ok := if n.Ok? then WithTarget(rep0, t, n.value) else rep0, n.Ok?;
    GroupTried(w, before, st.rows, t, gids, old(st.calls), rep0, if ok then n.value else 0, ok);
  }

  lemma TakeOne(all: set<string>, pending: set<string>, t: string)
    requires t in pending && pending <= all
    ensures all - (pending - {t}) == all - pending + {t} && t !in all - pending
  {
  }

  method MoveGroups(st: Store, fromNS: string, groups: map<string, seq<Id>>, rep0: Report, dryRun: bool,
                    ghost w0: Splitting)
    returns (rep: Report, err: Outcome, ghost w: Splitting)
    requires w0.fromNS == fromNS && w0.dryRun == dryRun && w0.deletes == st.deletes && w0.at == map[]
    requires AreMovers(w0.bound, groups)
    requires InProgress(w0, st.rows, st.calls, rep0)
    modifies st`rows, st`calls
    ensures old(st.calls) <= st.calls && (err == Done || (err == Failed && st.FailedSince(old(st.calls))))
    ensures w == w0.(at := w.at) && InProgress(w, st.rows, st.calls, rep)
    ensures err == Done ==> w.at.Keys == groups.Keys
  {
    rep, err, w := rep0, Done, w0;
    var pending := groups.Keys;
    while pending != {}
      invariant pending <= groups.Keys && w.at.Keys == groups.Keys - pending
      invariant old(st.calls) <= st.calls && w == w0.(at := w.at)
      invariant InProgress(w, st.rows, st.calls, rep)
      decreases pending
    {
      var target :| target in pending;
      TakeOne(groups.Keys, pending, target);
      pending := pending - {target};
      assert target in groups && IsGroupOf(w.bound, target, groups[target]);
      ghost var k := st.calls;
      var ok;
      rep, ok := MoveGroup(st, fromNS, target, groups[target], dryRun, rep, w);
      if !ok {
        return rep, Failed, w;
      }
      assert w.at[target := k].Keys == w.at.Keys + {target};
      w := w.(at := w.at[target := k]);
    }
  }

  // A row of the table as the split listed it: moved to where its metadata
  // sends it if it was in the namespace, otherwise as it was.
  ghost predicate IsRegrouped(was: Row, row: Row, fromNS: string, keys: seq<string>) {
    && row == was.(ns := row.ns)
    && (row.ns != was.ns ==> was.ns == fromNS && IsSentTo(was, keys, row.ns))
    && (was.ns == fromNS && (exists t :: IsSentTo(was, keys, t)) ==> row.ns != fromNS)
  }

  ghost predicate IsRegroupedAt(listed: Table, rows: Table, fromNS: string, keys: seq<string>, id: Id) {
    id in rows ==> id in listed && IsRegrouped(listed[id], rows[id], fromNS, keys)
  }

  lemma SplitRegroups(w: Splitting, rows: Table, to: nat, keys: seq<string>, id: Id)
    requires IsSplit(w, rows, to) && !w.dryRun && w.bound == Bound(w.listed, w.fromNS, keys)
    requires w.at.Keys == w.bound.Values
    ensures IsRegroupedAt(w.listed, rows, w.fromNS, keys, id)
  {
    if id in rows && w.listed[id].ns == w.fromNS {
      var was := w.listed[id];
      if id in w.bound {
        assert w.bound[id] in w.bound.Values;
        SentWhereNamed(was, keys, w.bound[id]);
      }
      forall t | IsSentTo(was, keys, t)
        ensures id in w.bound
      {
        SentWhereNamed(was, keys, t);
      }
    }
  }

  // Moves every row of the namespace, as it lists it with its first call, to
  // where its metadata names, or only reports what it would move. An error
  // leaves the targets reported so far moved, and no others.
  method Split(st: Store, fromNS: string, byKeys: seq<string>, dryRun: bool)
    returns (rep: Report, err: Outcome, ghost w: Splitting)
    modifies st`rows, st`calls
    ensures old(st.calls) < st.calls && (err == Done || (err == Failed && st.FailedSince(old(st.calls))))
    ensures var listed := old(st.rows) - st.deletes(old(st.calls));
      var bound := Bound(listed, fromNS, if byKeys == [] then DEFAULT_SPLIT_KEYS else byKeys);
      w == Splitting(listed, fromNS, bound, dryRun, st.deletes, old(st.calls) + 1, w.at)
    ensures InProgress(w, st.rows, st.calls, rep) ||
      (rep == Report(0, map[], 0) && w.at == map[] && IsSplit(w, st.rows, st.calls) && st.fails(old(st.calls)))
    ensures err == Done ==> InProgress(w, st.rows, st.calls, rep) && w.at.Keys == w.bound.Values
    ensures err == Done && !dryRun ==>
      var keys := if byKeys != [] then byKeys
                  else ["import_source_namespace", "user_id", "agent_id", "run_id", "project"];
      forall id {:trigger IsRegroupedAt(w.listed, st.rows, fromNS, keys, id)} ::
        IsRegroupedAt(w.listed, st.rows, fromNS, keys, id)
  {
    var keys := if |byKeys| == 0 then DEFAULT_SPLIT_KEYS else byKeys;
    rep := Report(0, map[], 0);
    var r := st.List(fromNS, Repair.EVERYTHING);
    ghost var listed, bound := st.rows, Bound(st.rows, fromNS, keys);
    w := Splitting(listed, fromNS, bound, dryRun, st.deletes, st.calls, map[]);
    NothingMoved(w);
    if r.Err? {
      return rep, Failed, w;
    }
    var groups, skipped := GroupByTarget(r.value, fromNS, keys);
    GroupsAreTargets(listed, fromNS, keys, r.value, groups);
    SkippedAreStayers(listed, fromNS, keys, r.value);
    rep := rep.(skipped := skipped);
    GroupsAreMovers(listed, fromNS, keys, r.value, groups);
    rep, err, w := MoveGroups(st, fromNS, groups, rep, dryRun, w);
    if err == Done && !dryRun {
      forall id
        ensures IsRegroupedAt(listed, st.rows, fromNS, keys, id)
      {
        SplitRegroups(w, st.rows, st.calls, keys, id);
      }
    }
  }

  // ---- Moving a namespace whole -------------------------------------------

  ghost function Moved(rows: Table, fromNS: string, toNS: string): Table {
    map id | id in rows :: if rows[id].ns == fromNS then rows[id].(ns := toNS) else rows[id]
  }

  function IdsOf(mems: seq<Mem>): seq<Id> {
    seq(|mems|, i requires 0 <= i < |mems| => mems[i].id)
  }

  lemma ListedIds(rows: Table, ns: string, mems: seq<Mem>)
    requires IsListing(rows, ns, Repair.EVERYTHING, mems)
    ensures Unique(IdsOf(mems)) && |IdsOf(mems)| == |GraphOf(rows, ns).Keys|
    ensures forall id :: id in IdsOf(mems) <==> id in GraphOf(rows, ns).Keys
  {
    var ids := IdsOf(mems);
    forall id
      ensures id in ids <==> id in GraphOf(rows, ns).Keys
    {
      if id in ids {
        var i :| 0 <= i < |ids| && ids[i] == id;
        assert mems[i] in mems;
      }
      if m: Mem :| m in mems && m.id == id {
        var i :| 0 <= i < |mems| && mems[i] == m;
        assert ids[i] == id;
      }
    }
    UniqueCount(ids, GraphOf(rows, ns).Keys);
  }

  lemma ReassignListed(seen: Table, gone: set<Id>, fromNS: string, toNS: string, mems: seq<Mem>)
    requires IsListing(seen, fromNS, Repair.EVERYTHING, mems)
    ensures Reassigned(seen - gone, fromNS, IdsOf(mems), toNS) == Moved(seen, fromNS, toNS) - gone
    ensures Movable(seen - gone, fromNS, IdsOf(mems)) == GraphOf(seen - gone, fromNS).Keys
  {
    ListedIds(seen, fromNS, mems);
  }

  // What a move leaves of a table that others delete from, and what it counts:
  // the rows that were still there when it moved them.
  ghost predicate IsMove(was: Table, now: Table, deletes: nat -> set<Id>, from: nat, to: nat, fromNS: string,
                         toNS: string, dryRun: bool, rep: Report) {
    var seen := was - Gone(deletes, from, if dryRun then from + 1 else to);
    && now == (if dryRun then was else Moved(was, fromNS, toNS)) - Gone(deletes, from, to)
    && rep.skipped == 0 && rep.moved == |GraphOf(seen, fromNS).Keys|
    && rep.targets == if GraphOf(was - deletes(from), fromNS) == map[] then map[] else map[toNS := rep.moved]
  }

  lemma NoneIn(rows: Table, ns: string)
    requires GraphOf(rows, ns).Keys == {}
    ensures forall id :: id in rows ==> rows[id].ns != ns
  {
    forall id | id in rows
      ensures rows[id].ns != ns
    {
      assert id !in GraphOf(rows, ns).Keys;
    }
  }

  lemma NothingToMove(was: Table, deletes: nat -> set<Id>, from: nat, fromNS: string, toNS: string, dryRun: bool)
    requires GraphOf(was - deletes(from), fromNS).Keys == {}
    ensures IsMove(was, was - deletes(from), deletes, from, from + 1, fromNS, toNS, dryRun, Report(0, map[], 0))
  {
    var seen := was - deletes(from);
    FoundAt(was, deletes, from, from);
    NoneIn(seen, fromNS);
    assert Moved(was, fromNS, toNS) - Gone(deletes, from, from + 1) == seen;
  }

  lemma MovedListed(was: Table, deletes: nat -> set<Id>, from: nat, fromNS: string, toNS: string, mems: seq<Mem>)
    requires IsListing(was - deletes(from), fromNS, Repair.EVERYTHING, mems) && mems != []
    ensures var found := was - deletes(from) - deletes(from + 1); var n := |Movable(found, fromNS, IdsOf(mems))|;
      && found == was - Gone(deletes, from, from + 2)
      && IsMove(was, Reassigned(found, fromNS, IdsOf(mems), toNS), deletes, from, from + 2, fromNS, toNS, false,
                Report(n, map[toNS := n], 0))
    ensures IsMove(was, was - deletes(from), deletes, from, from + 1, fromNS, toNS, true,
                   Report(|mems|, map[toNS := |mems|], 0))
  {
    var seen := was - deletes(from);
    FoundAt(was, deletes, from, from);
    FoundAt(was, deletes, from, from + 1);
    ReassignListed(seen, deletes(from + 1), fromNS, toNS, mems);
    ListedIds(seen, fromNS, mems);
    assert mems[0].id in IdsOf(mems) by {
      assert IdsOf(mems)[0] == mems[0].id;
    }
    assert mems[0].id in GraphOf(seen, fromNS);
    assert Moved(seen, fromNS, toNS) - deletes(from + 1) == Moved(was, fromNS, toNS) - Gone(deletes, from, from + 2);
  }

  method MoveListed(st: Store, fromNS: string, toNS: string, ids: seq<Id>, ghost was: Table, ghost mems: seq<Mem>)
    returns (rep: Report, err: Outcome)
    requires fromNS != toNS && mems != [] && ids == IdsOf(mems) && st.calls > 0
    requires st.rows == was - st.deletes(st.calls - 1)
    requires IsListing(st.rows, fromNS, Repair.EVERYTHING, mems)
    modifies st`rows, st`calls
    ensures st.calls == old(st.calls) + 1 && (err == Done || (err == Failed && st.fails(old(st.calls))))
    ensures err == Failed ==>
      st.rows == was - Gone(st.deletes, old(st.calls) - 1, st.calls) && rep == Report(0, map[], 0)
    ensures err == Done ==> IsMove(was, st.rows, st.deletes, old(st.calls) - 1, st.calls, fromNS, toNS, false, rep)
  {
    MovedListed(was, st.deletes, st.calls - 1, fromNS, toNS, mems);
    var n := st.Reassign(fromNS, ids, toNS);
    if n.Err? {
      return Report(0, map[], 0), Failed;
    }
    return Report(n.value, map[toNS := n.value], 0), Done;
  }

  // Moves every row of one namespace into another, or only counts them.
  method Move(st: Store, fromNS: string, toNS: string, dryRun: bool) returns (rep: Report, err: Outcome)
    modifies st`rows, st`calls
    ensures old(st.calls) <= st.calls && (err == Done || (err == Failed && st.FailedSince(old(st.calls))))
    ensures fromNS == toNS ==>
      err == Done && st.calls == old(st.calls) && st.rows == old(st.rows) && rep == Report(0, map[], 0)
    ensures err == Failed ==> st.rows == old(st.rows) - st.Lost(old(st.calls)) && rep == Report(0, map[], 0)
    ensures fromNS != toNS && err == Done ==>
      IsMove(old(st.rows), st.rows, st.deletes, old(st.calls), st.calls, fromNS, toNS, dryRun, rep)
  {
    rep := Report(0, map[], 0);
    if fromNS == toNS {
      return rep, Done;
    }
    ghost var was, from := st.rows, st.calls;
    FoundAt(was, st.deletes, from, from);
    var r := st.List(fromNS, Repair.EVERYTHING);
    if r.Err? {
      return rep, Failed;
    }
    var ids := IdsOf(r.value);
    if |ids| == 0 {
      ListedIds(st.rows, fromNS, r.value);
      NothingToMove(was, st.deletes, from, fromNS, toNS, dryRun);
      return rep, Done;
    }
    if dryRun {
      MovedListed(was, st.deletes, from, fromNS, toNS, r.value);
      return Report(|ids|, map[toNS := |ids|], 0), Done;
    }
    rep, err := MoveListed(st, fromNS, toNS, ids, was, r.value);
  }

  // Moving back undoes a move exactly when the destination held nothing.
  lemma MoveBackRestores(rows: Table, fromNS: string, toNS: string)
    requires fromNS != toNS
    ensures Moved(Moved(rows, fromNS, toNS), toNS, fromNS) == rows <==> GraphOf(rows, toNS) == map[]
  {
    var back := Moved(Moved(rows, fromNS, toNS), toNS, fromNS);
    if GraphOf(rows, toNS) == map[] {
      forall id | id in rows
        ensures back[id] == rows[id]
      {
        assert rows[id].ns == toNS ==> id in GraphOf(rows, toNS);
      }
    } else {
      var id :| id in GraphOf(rows, toNS);
      assert back[id].ns == fromNS;
    }
  }
}
