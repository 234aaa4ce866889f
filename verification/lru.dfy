// The order of a least-recently-used cache, by keys alone: what a use does to it
// and how long a key is kept.
module RecentUse {

  ghost predicate NoRepeats(order: seq<string>) {
    forall i, j :: 0 <= i < j < |order| ==> order[i] != order[j]
  }

  ghost function Among(order: seq<string>): set<string> {
    set k | k in order
  }

  function Dropped(order: seq<string>, k: string): seq<string> {
    if order == [] then []
    else (if order[0] == k then [] else [order[0]]) + Dropped(order[1..], k)
  }

  // Using a key brings it to the front, most recently used first, and may push
  // the last one out.
  function Used(order: seq<string>, capacity: nat, k: string): seq<string> {
    var all := [k] + Dropped(order, k);
    if |all| <= capacity then all else all[..capacity]
  }

  // The order after using these keys, one after the other.
  function UsedAll(order: seq<string>, capacity: nat, uses: seq<string>): seq<string> {
    if uses == [] then order
    else Used(UsedAll(order, capacity, uses[..|uses| - 1]), capacity, uses[|uses| - 1])
  }

  lemma {:induction false} DroppedHas(order: seq<string>, k: string, x: string)
    ensures x in Dropped(order, k) <==> x in order && x != k
  {
    if order != [] {
      DroppedHas(order[1..], k, x);
      assert order == [order[0]] + order[1..];
    }
  }

  lemma {:induction false} DroppedNoRepeats(order: seq<string>, k: string)
    requires NoRepeats(order)
    ensures NoRepeats(Dropped(order, k))
  {
    if order != [] {
      var rest := Dropped(order[1..], k);
      DroppedNoRepeats(order[1..], k);
      forall j | 0 <= j < |rest|
        ensures rest[j] != order[0]
      {
        DroppedHas(order[1..], k, rest[j]);
        assert rest[j] in rest;
      }
    }
  }

  lemma {:induction false} DroppedParts(a: seq<string>, b: seq<string>, k: string)
    ensures Dropped(a + b, k) == Dropped(a, k) + Dropped(b, k)
  {
    if a == [] {
      assert a + b == b;
    } else {
      assert (a + b)[1..] == a[1..] + b;
      DroppedParts(a[1..], b, k);
    }
  }

  lemma {:induction false} AmongSize(order: seq<string>)
    requires NoRepeats(order)
    ensures |Among(order)| == |order|
  {
    if order == [] {
      assert Among(order) == {};
    } else {
      var n := |order| - 1;
      AmongSize(order[..n]);
      assert order == order[..n] + [order[n]];
      assert Among(order) == Among(order[..n]) + {order[n]};
    }
  }

  lemma UsedNoRepeats(order: seq<string>, capacity: nat, k: string)
    requires NoRepeats(order)
    ensures NoRepeats([k] + Dropped(order, k)) && NoRepeats(Used(order, capacity, k))
    ensures |Used(order, capacity, k)| <= capacity
  {
    var rest := Dropped(order, k);
    DroppedNoRepeats(order, k);
    forall j | 0 <= j < |rest|
      ensures rest[j] != k
    {
      DroppedHas(order, k, rest[j]);
      assert rest[j] in rest;
    }
  }

  // k lies behind exactly these keys, or they have pushed it out.
  ghost predicate IsBehind(order: seq<string>, capacity: nat, k: string, front: set<string>) {
    if |front| < capacity then exists head, tail :: order == head + [k] + tail && Among(head) == front
    else k !in order
  }

  lemma FrontAmong(head: seq<string>, x: string)
    requires NoRepeats(head)
    ensures var front := [x] + Dropped(head, x);
      Among(front) == Among(head) + {x} && |front| == |Among(head) + {x}|
  {
    var front := [x] + Dropped(head, x);
    forall y
      ensures y in front <==> y in Among(head) + {x}
    {
      DroppedHas(head, x, y);
    }
    assert Among(front) == Among(head) + {x};
    UsedNoRepeats(head, 0, x);
    AmongSize(front);
  }

  lemma UsedAround(head: seq<string>, k: string, tail: seq<string>, x: string)
    requires x != k
    ensures [x] + Dropped(head + [k] + tail, x) == ([x] + Dropped(head, x)) + [k] + Dropped(tail, x)
  {
    DroppedParts(head + [k], tail, x);
    DroppedParts(head, [k], x);
    assert [k][1..] == [] && Dropped([k], x) == [k];
  }

  // Another key is used: it lies before k from then on.
  lemma BehindNext(order: seq<string>, capacity: nat, k: string, front: set<string>, x: string)
    requires NoRepeats(order) && IsBehind(order, capacity, k, front) && x != k
    ensures IsBehind(Used(order, capacity, x), capacity, k, front + {x})
  {
    if |front| < capacity {
      var head, tail :| order == head + [k] + tail && Among(head) == front;
      UsedAround(head, k, tail, x);
      assert NoRepeats(head) by {
        assert forall i :: 0 <= i < |head| ==> head[i] == order[i];
      }
      FrontAmong(head, x);
      UsedNoRepeats(order, capacity, x);
      Keeps(order, capacity, [x] + Dropped(head, x), k, Dropped(tail, x), x);
    } else {
      DroppedHas(order, x, k);
      assert |front| <= |front + {x}| by {
        assert x in front ==> front + {x} == front;
      }
    }
  }

  lemma Keeps(order: seq<string>, capacity: nat, head: seq<string>, k: string, tail: seq<string>, x: string)
    requires [x] + Dropped(order, x) == head + [k] + tail && NoRepeats([x] + Dropped(order, x))
    requires |head| == |Among(head)|
    ensures IsBehind(Used(order, capacity, x), capacity, k, Among(head))
  {
    var all := head + [k] + tail;
    if |all| <= capacity {
      assert Used(order, capacity, x) == head + [k] + tail;
    } else if |head| < capacity {
      assert all[..capacity] == head + [k] + tail[..capacity - |head| - 1];
    } else {
      assert forall i :: 0 <= i < capacity ==> all[i] != all[|head|];
    }
  }

  lemma {:induction false} UsesPushBehind(order: seq<string>, capacity: nat, k: string, uses: seq<string>)
    requires NoRepeats(order) && IsBehind(order, capacity, k, {}) && k !in uses
    ensures NoRepeats(UsedAll(order, capacity, uses))
    ensures IsBehind(UsedAll(order, capacity, uses), capacity, k, Among(uses))
  {
    if uses == [] {
      assert Among(uses) == {};
    } else {
      var n := |uses| - 1;
      assert uses == uses[..n] + [uses[n]];
      UsesPushBehind(order, capacity, k, uses[..n]);
      UsedNoRepeats(UsedAll(order, capacity, uses[..n]), capacity, uses[n]);
      BehindNext(UsedAll(order, capacity, uses[..n]), capacity, k, Among(uses[..n]), uses[n]);
      assert Among(uses) == Among(uses[..n]) + {uses[n]};
    }
  }

  // A key that was just used is still in the cache, after any uses of others,
  // if and only if fewer distinct keys than the cache holds were used since.
  lemma KeptWhileFewUsed(order: seq<string>, capacity: nat, k: string, uses: seq<string>)
    requires NoRepeats(order) && k !in uses
    ensures k in UsedAll(Used(order, capacity, k), capacity, uses) <==> |Among(uses)| < capacity
  {
    var start := Used(order, capacity, k);
    UsedNoRepeats(order, capacity, k);
    if capacity > 0 {
      assert start == [] + [k] + start[1..] && Among([]) == {};
    }
    UsesPushBehind(start, capacity, k, uses);
  }
}
