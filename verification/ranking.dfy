// Stable sorting by a strict order with ties, and the order
// betterRepresentative sorts a cluster by.
module Ranking {
  import opened MemoryStore

  // less is irreflexive, asymmetric, and whatever is neither less nor greater
  // counts as a tie, on a, b and c.
  ghost predicate IsWeakAt<T>(less: (T, T) -> bool, a: T, b: T, c: T) {
    && !less(a, a)
    && (less(a, b) ==> !less(b, a))
    && (less(a, b) ==> less(a, c) || less(c, b))
  }

  ghost predicate IsWeakOrder<T(!new)>(less: (T, T) -> bool) {
    forall a, b, c {:trigger IsWeakAt(less, a, b, c)} :: IsWeakAt(less, a, b, c)
  }

  // Inserts after everything that is not greater, so ties keep their order.
  function Insert<T>(less: (T, T) -> bool, s: seq<T>, m: T): seq<T> {
    if s == [] || !less(m, s[|s| - 1]) then s + [m]
    else Insert(less, s[..|s| - 1], m) + [s[|s| - 1]]
  }

  function SortStable<T>(less: (T, T) -> bool, s: seq<T>): seq<T> {
    if s == [] then [] else Insert(less, SortStable(less, s[..|s| - 1]), s[|s| - 1])
  }

  ghost predicate Ordered<T>(less: (T, T) -> bool, s: seq<T>) {
    forall i, j :: 0 <= i < j < |s| ==> !less(s[j], s[i])
  }

  lemma {:induction false} InsertKeeps<T>(less: (T, T) -> bool, s: seq<T>, m: T)
    ensures multiset(Insert(less, s, m)) == multiset(s) + multiset{m}
  {
    if s != [] && less(m, s[|s| - 1]) {
      assert s == s[..|s| - 1] + [s[|s| - 1]];
      InsertKeeps(less, s[..|s| - 1], m);
    }
  }

  lemma {:induction false} InsertOrders<T(!new)>(less: (T, T) -> bool, s: seq<T>, m: T)
    requires IsWeakOrder(less) && Ordered(less, s)
    ensures Ordered(less, Insert(less, s, m))
  {
    if s != [] {
      var init, last := s[..|s| - 1], s[|s| - 1];
      if less(m, last) {
        InsertOrders(less, init, m);
        InsertKeeps(less, init, m);
        var t := Insert(less, init, m);
        forall i | 0 <= i < |t|
          ensures !less(last, t[i])
        {
          assert t[i] in multiset(t);
          assert IsWeakAt(less, m, last, last);
          assert IsWeakAt(less, last, m, m);
        }
      } else {
        forall i | 0 <= i < |s|
          ensures !less(m, s[i])
        {
          assert IsWeakAt(less, m, s[i], last);
        }
      }
    }
  }

  lemma {:induction false} SortOrders<T(!new)>(less: (T, T) -> bool, s: seq<T>)
    requires IsWeakOrder(less)
    ensures Ordered(less, SortStable(less, s))
    ensures multiset(SortStable(less, s)) == multiset(s)
  {
    if s != [] {
      var init, last := s[..|s| - 1], s[|s| - 1];
      assert s == init + [last];
      SortOrders(less, init);
      InsertOrders(less, SortStable(less, init), last);
      InsertKeeps(less, SortStable(less, init), last);
    }
  }

  // The first of the least: less than all before it, greater than none.
  ghost predicate IsFirstLeast<T>(less: (T, T) -> bool, s: seq<T>, i: int) {
    && 0 <= i < |s|
    && (forall j :: 0 <= j < i ==> less(s[i], s[j]))
    && (forall j :: 0 <= j < |s| ==> !less(s[j], s[i]))
  }

  lemma {:induction false} InsertHead<T(!new)>(less: (T, T) -> bool, s: seq<T>, m: T)
    requires IsWeakOrder(less) && Ordered(less, s)
    ensures |Insert(less, s, m)| > 0
    ensures Insert(less, s, m)[0] == if s == [] || less(m, s[0]) then m else s[0]
  {
    if s != [] {
      var init, last := s[..|s| - 1], s[|s| - 1];
      if less(m, last) {
        InsertHead(less, init, m);
      } else {
        assert IsWeakAt(less, m, s[0], last);
      }
    }
  }

  // A new least element goes to the front, and only that.
  lemma NewLeast<T(!new)>(less: (T, T) -> bool, s: seq<T>, i: nat, m: T)
    requires IsWeakOrder(less) && IsFirstLeast(less, s, i)
    ensures IsFirstLeast(less, s + [m], if less(m, s[i]) then |s| else i)
  {
    forall j | 0 <= j < |s| && less(m, s[i])
      ensures less(m, s[j]) && !less(s[j], m)
    {
      assert IsWeakAt(less, m, s[i], s[j]);
      assert IsWeakAt(less, m, s[j], m);
    }
    assert IsWeakAt(less, m, m, m);
  }

  lemma SortHead<T(!new)>(less: (T, T) -> bool, s: seq<T>, last: T)
    requires IsWeakOrder(less)
    ensures var sorted, head := SortStable(less, s + [last]), SortStable(less, s);
      |sorted| > 0 && sorted[0] == if head == [] || less(last, head[0]) then last else head[0]
  {
    assert (s + [last])[..|s|] == s;
    SortOrders(less, s);
    InsertHead(less, SortStable(less, s), last);
  }

  // The stable sort puts the first of the least in front.
  lemma {:induction false} SortPutsLeastFirst<T(!new)>(less: (T, T) -> bool, s: seq<T>) returns (i: nat)
    requires IsWeakOrder(less) && s != []
    ensures IsFirstLeast(less, s, i) && |SortStable(less, s)| > 0 && SortStable(less, s)[0] == s[i]
  {
    var init, last := s[..|s| - 1], s[|s| - 1];
    assert s == init + [last];
    SortHead(less, init, last);
    if init == [] {
      i := 0;
      assert IsWeakAt(less, last, last, last);
    } else {
      var h := SortPutsLeastFirst(less, init);
      NewLeast(less, init, h, last);
      i := if less(last, init[h]) then |init| else h;
    }
  }

  // ---- Sorting listed memories --------------------------------------------

  lemma {:induction false} DistinctCounts(s: seq<Mem>, m: Mem)
    requires Distinct(s)
    ensures multiset(s)[m] <= 1 && |Ids(s)| == |s|
  {
    if s != [] {
      var init, last := s[..|s| - 1], s[|s| - 1];
      assert s == init + [last];
      DistinctCounts(init, m);
      IdsPrefix(s, |s| - 1);
      assert m == last ==> m !in init;
    }
  }

  lemma DistinctIds(s: seq<Mem>)
    requires Distinct(s)
    ensures |Ids(s)| == |s|
  {
    if s != [] {
      DistinctCounts(s, s[0]);
    }
  }

  lemma SamePermuted(s: seq<Mem>, t: seq<Mem>)
    requires multiset(s) == multiset(t)
    ensures |s| == |t| && forall m :: m in s <==> m in t
  {
    assert |multiset(s)| == |s| && |multiset(t)| == |t|;
    assert forall m :: m in s <==> m in multiset(s);
    assert forall m :: m in t <==> m in multiset(t);
  }

  lemma DistinctPermuted(s: seq<Mem>, t: seq<Mem>)
    requires Distinct(s) && multiset(s) == multiset(t)
    ensures Distinct(t)
  {
    SamePermuted(s, t);
    forall i, j | 0 <= i < j < |t|
      ensures t[i].id != t[j].id
    {
      DistinctCounts(s, t[i]);
      var left, right := t[..j], t[j..];
      assert t == left + right && left[i] == t[i] && right[0] == t[j];
      assert multiset(t) == multiset(left) + multiset(right);
      assert t[i] in multiset(left) && t[j] in multiset(right);
      assert t[i] in s && t[j] in s;
    }
  }

  lemma SameIds(s: seq<Mem>, t: seq<Mem>)
    requires forall m :: m in s <==> m in t
    ensures Ids(s) == Ids(t)
  {
    forall i | 0 <= i < |s|
      ensures s[i].id in Ids(t)
    {
      assert s[i] in t;
    }
    forall i | 0 <= i < |t|
      ensures t[i].id in Ids(s)
    {
      assert t[i] in s;
    }
  }

  // ---- Representatives ----------------------------------------------------

  // Retention is a formula over exp and log; only the order it induces matters.
  type Score = Row -> real

  predicate Better(score: Score, a: Mem, b: Mem) {
    if score(a.row) != score(b.row) then score(a.row) > score(b.row)
    else if a.row.updatedAt != b.row.updatedAt then a.row.updatedAt > b.row.updatedAt
    else a.row.createdAt > b.row.createdAt
  }

  // By its fields: no higher score; of equal scores, no later update; of those
  // too, no later creation.
  ghost predicate IsNoBetter(score: Score, a: Row, b: Row) {
    && score(a) <= score(b)
    && (score(a) == score(b) ==> a.updatedAt <= b.updatedAt)
    && (score(a) == score(b) && a.updatedAt == b.updatedAt ==> a.createdAt <= b.createdAt)
  }

  lemma UnbeatenIsBest(score: Score, a: Mem, b: Mem)
    ensures !Better(score, a, b) <==> IsNoBetter(score, a.row, b.row)
  {
  }

  function ByRetention(score: Score): (Mem, Mem) -> bool {
    (a: Mem, b: Mem) => Better(score, a, b)
  }

  lemma BetterIsWeakOrder(score: Score)
    ensures IsWeakOrder(ByRetention(score))
  {
  }

  // Eviction sorts the other way round, on the score alone.
  function ByLowScore(score: Score): (Mem, Mem) -> bool {
    (a: Mem, b: Mem) => score(a.row) < score(b.row)
  }

}
