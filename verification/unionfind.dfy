// The path-compressing union-find of internal/maintenance/dedup.go, proved
// against connectivity in the graph of the pairs that were joined.
module UnionFinding {
  import opened Supersession

  type Edges = set<(Id, Id)>

  ghost predicate Adjacent(e: Edges, x: Id, y: Id) {
    (x, y) in e || (y, x) in e
  }

  ghost predicate IsPath(e: Edges, p: seq<Id>) {
    |p| > 0 && forall i :: 0 <= i < |p| - 1 ==> Adjacent(e, p[i], p[i + 1])
  }

  ghost predicate Joins(e: Edges, p: seq<Id>, x: Id, y: Id) {
    IsPath(e, p) && p[0] == x && p[|p| - 1] == y
  }

  // x and y are linked by a chain of pairs, taken in either direction.
  ghost predicate Connected(e: Edges, x: Id, y: Id) {
    exists p :: Joins(e, p, x, y)
  }

  lemma ConnectedSelf(e: Edges, x: Id)
    ensures Connected(e, x, x)
  {
    assert Joins(e, [x], x, x);
  }

  lemma ConnectedEdge(e: Edges, x: Id, y: Id)
    requires Adjacent(e, x, y)
    ensures Connected(e, x, y)
  {
    assert Joins(e, [x, y], x, y);
  }

  lemma ConnectedMovesOn(e: Edges, x: Id, y: Id)
    requires Connected(e, x, y) && x != y
    ensures exists z :: Adjacent(e, x, z)
  {
    var p :| Joins(e, p, x, y);
    assert Adjacent(e, p[0], p[1]);
  }

  lemma ConnectedGrow(e: Edges, f: Edges, x: Id, y: Id)
    requires e <= f && Connected(e, x, y)
    ensures Connected(f, x, y)
  {
    var p :| Joins(e, p, x, y);
    assert Joins(f, p, x, y);
  }

  lemma ConnectedTrans(e: Edges, x: Id, y: Id, z: Id)
    requires Connected(e, x, y) && Connected(e, y, z)
    ensures Connected(e, x, z)
  {
    var p :| Joins(e, p, x, y);
    var q :| Joins(e, q, y, z);
    var r := p + q[1..];
    forall i | 0 <= i < |r| - 1
      ensures Adjacent(e, r[i], r[i + 1])
    {
      if i >= |p| - 1 {
        assert r[i] == q[i - |p| + 1] && r[i + 1] == q[i - |p| + 2];
      }
    }
    assert Joins(e, r, x, z);
  }

  lemma ConnectedSym(e: Edges, x: Id, y: Id)
    requires Connected(e, x, y)
    ensures Connected(e, y, x)
  {
    var p :| Joins(e, p, x, y);
    var r := seq(|p|, i requires 0 <= i < |p| => p[|p| - 1 - i]);
    assert Joins(e, r, y, x);
  }

  // A labelling of the ids is the partition into connected components.
  ghost predicate Represents(root: map<Id, Id>, e: Edges) {
    && (forall x, y :: Adjacent(e, x, y) ==> x in root && y in root)
    && (forall x, y :: x in root && y in root ==> (root[x] == root[y] <==> Connected(e, x, y)))
  }

  lemma {:induction false} SameAlongPath(root: map<Id, Id>, e: Edges, p: seq<Id>, i: nat)
    requires IsPath(e, p) && i < |p| && p[0] in root
    requires forall x, y :: Adjacent(e, x, y) ==> x in root && y in root && root[x] == root[y]
    ensures p[i] in root && root[p[i]] == root[p[0]]
  {
    if i > 0 {
      SameAlongPath(root, e, p, i - 1);
      assert Adjacent(e, p[i - 1], p[i]);
    }
  }

  ghost function Merged(root: map<Id, Id>, rx: Id, ry: Id): map<Id, Id> {
    map z | z in root :: if root[z] == rx then ry else root[z]
  }

  lemma MergedJoins(root: map<Id, Id>, e: Edges, a: Id, b: Id, x: Id, y: Id)
    requires Represents(root, e) && a in root && b in root && x in root && y in root
    requires root[x] == root[a] && root[y] == root[b]
    ensures Connected(e + {(a, b)}, x, y) && Connected(e + {(a, b)}, y, x)
  {
    var f := e + {(a, b)};
    ConnectedGrow(e, f, x, a);
    ConnectedEdge(f, a, b);
    ConnectedGrow(e, f, b, y);
    ConnectedTrans(f, x, a, b);
    ConnectedTrans(f, x, b, y);
    ConnectedSym(f, x, y);
  }

  // Joining the classes of a and b is adding the pair (a, b).
  lemma MergeRepresents(root: map<Id, Id>, e: Edges, a: Id, b: Id)
    requires Represents(root, e) && a in root && b in root
    ensures Represents(Merged(root, root[a], root[b]), e + {(a, b)})
  {
    var f, now := e + {(a, b)}, Merged(root, root[a], root[b]);
    forall x, y | Adjacent(f, x, y)
      ensures x in now && y in now && now[x] == now[y]
    {
      if Adjacent(e, x, y) {
        ConnectedEdge(e, x, y);
      }
    }
    forall x, y | x in now && y in now
      ensures now[x] == now[y] <==> Connected(f, x, y)
    {
      if Connected(f, x, y) {
        var p :| Joins(f, p, x, y);
        SameAlongPath(now, f, p, |p| - 1);
      }
      if now[x] == now[y] {
        if root[x] == root[y] {
          ConnectedGrow(e, f, x, y);
        } else if root[x] == root[a] {
          MergedJoins(root, e, a, b, x, y);
        } else {
          MergedJoins(root, e, a, b, y, x);
        }
      }
    }
  }

  // One id of the forest: its link leads towards its representative, up
  // strictly growing ranks.
  ghost predicate IsNode(parent: map<Id, Id>, root: map<Id, Id>, rank: map<Id, nat>, top: nat, x: Id)
    requires x in parent && root.Keys == parent.Keys && rank.Keys == parent.Keys
  {
    && parent[x] in parent && root[x] in parent
    && root[parent[x]] == root[x] && root[root[x]] == root[x]
    && (parent[x] == x <==> root[x] == x)
    && rank[x] <= rank[root[x]] <= top
    && (parent[x] != x ==> rank[x] < rank[parent[x]])
  }

  ghost predicate IsForest(parent: map<Id, Id>, root: map<Id, Id>, rank: map<Id, nat>, top: nat) {
    && root.Keys == parent.Keys && rank.Keys == parent.Keys
    && forall x {:trigger IsNode(parent, root, rank, top, x)} :: x in parent ==> IsNode(parent, root, rank, top, x)
  }

  lemma NodeOf(parent: map<Id, Id>, root: map<Id, Id>, rank: map<Id, nat>, top: nat, x: Id)
    requires IsForest(parent, root, rank, top) && x in parent
    ensures IsNode(parent, root, rank, top, x) && IsNode(parent, root, rank, top, parent[x])
  {
    assert IsNode(parent, root, rank, top, x);
    assert IsNode(parent, root, rank, top, parent[x]);
  }

  lemma CompressKeepsForest(parent: map<Id, Id>, root: map<Id, Id>, rank: map<Id, nat>, top: nat, x: Id)
    requires IsForest(parent, root, rank, top) && x in parent
    ensures IsForest(parent[x := root[x]], root, rank, top)
  {
    NodeOf(parent, root, rank, top, x);
    forall z | z in parent
      ensures IsNode(parent[x := root[x]], root, rank, top, z)
    {
      assert IsNode(parent, root, rank, top, z);
    }
  }

  ghost function Raised(rank: map<Id, nat>, rx: Id, ry: Id): map<Id, nat>
    requires rx in rank && ry in rank
  {
    rank[ry := if rank[ry] <= rank[rx] then rank[rx] + 1 else rank[ry]]
  }

  lemma LinkKeepsNode(parent: map<Id, Id>, root: map<Id, Id>, rank: map<Id, nat>, top: nat, rx: Id, ry: Id, z: Id)
    requires root.Keys == parent.Keys && rank.Keys == parent.Keys && z in parent
    requires rx in parent && ry in parent && rx != ry && root[rx] == rx && root[ry] == ry
    requires IsNode(parent, root, rank, top, rx) && IsNode(parent, root, rank, top, ry)
    requires IsNode(parent, root, rank, top, z)
    ensures IsNode(parent[rx := ry], Merged(root, rx, ry), Raised(rank, rx, ry), top + 1, z)
  {
  }

  lemma LinkKeepsKeys(parent: map<Id, Id>, root: map<Id, Id>, rank: map<Id, nat>, rx: Id, ry: Id)
    requires root.Keys == parent.Keys && rank.Keys == parent.Keys && rx in parent && ry in parent
    ensures parent[rx := ry].Keys == parent.Keys
    ensures Merged(root, rx, ry).Keys == parent.Keys && Raised(rank, rx, ry).Keys == parent.Keys
  {
  }

  lemma LinkKeepsForest(parent: map<Id, Id>, root: map<Id, Id>, rank: map<Id, nat>, top: nat, rx: Id, ry: Id)
    requires IsForest(parent, root, rank, top)
    requires rx in parent && ry in parent && rx != ry && root[rx] == rx && root[ry] == ry
    ensures IsForest(parent[rx := ry], Merged(root, rx, ry), Raised(rank, rx, ry), top + 1)
  {
    NodeOf(parent, root, rank, top, rx);
    NodeOf(parent, root, rank, top, ry);
    LinkKeepsKeys(parent, root, rank, rx, ry);
    forall z | z in parent
      ensures IsNode(parent[rx := ry], Merged(root, rx, ry), Raised(rank, rx, ry), top + 1, z)
    {
      NodeOf(parent, root, rank, top, z);
      LinkKeepsNode(parent, root, rank, top, rx, ry, z);
    }
  }

  class UnionFind {
    var parent: map<Id, Id>
    // The representative of every id, and a rank that grows towards it.
    ghost var root: map<Id, Id>
    ghost var rank: map<Id, nat>
    ghost var top: nat

    ghost predicate Valid()
      reads this
    {
      IsForest(parent, root, rank, top)
    }

    constructor (ids: seq<Id>)
      ensures Valid() && (forall id :: id in parent <==> id in ids)
      ensures Represents(root, {})
    {
      var p: map<Id, Id> := map[];
      for i := 0 to |ids|
        invariant forall id :: id in p <==> id in ids[..i]
        invariant forall id :: id in p ==> p[id] == id
      {
        p := p[ids[i] := ids[i]];
      }
      parent := p;
      root := p;
      rank := map id | id in p :: 0;
      top := 0;
      assert ids[..|ids|] == ids;
      new;
      forall x, y | x in root && y in root
        ensures root[x] == root[y] <==> Connected({}, x, y)
      {
        ConnectedSelf({}, x);
        if Connected({}, x, y) {
          var q :| Joins({}, q, x, y);
          SameAlongPath(root, {}, q, |q| - 1);
        }
      }
    }

    // Returns the representative and points everything on the way at it.
    method Find(x: Id) returns (r: Id)
      requires Valid() && x in parent
      modifies this`parent
      ensures Valid() && parent.Keys == old(parent).Keys
      ensures r == root[x] && parent[x] == r
      decreases top - rank[x]
    {
      NodeOf(parent, root, rank, top, x);
      if parent[x] != x {
        r := Find(parent[x]);
        CompressKeepsForest(parent, root, rank, top, x);
        parent := parent[x := r];
      }
      r := parent[x];
    }

    // Points one representative at another.
    method Link(rx: Id, ry: Id)
      requires Valid() && rx in parent && ry in parent && rx != ry
      requires root[rx] == rx && root[ry] == ry
      modifies this
      ensures Valid() && parent.Keys == old(parent).Keys
      ensures root == Merged(old(root), rx, ry)
    {
      LinkKeepsForest(parent, root, rank, top, rx, ry);
      root, rank, top := Merged(root, rx, ry), Raised(rank, rx, ry), top + 1;
      parent := parent[rx := ry];
    }

    // Merges the classes of x and y; MergeRepresents says what that means.
    method Union(x: Id, y: Id)
      requires Valid() && x in parent && y in parent
      modifies this
      ensures Valid() && parent.Keys == old(parent).Keys
      ensures root == Merged(old(root), old(root)[x], old(root)[y])
    {
      NodeOf(parent, root, rank, top, x);
      NodeOf(parent, root, rank, top, y);
      var rx := Find(x);
      var ry := Find(y);
      if rx != ry {
        Link(rx, ry);
      } else {
        assert Merged(root, rx, ry) == root;
      }
    }
  }
}
