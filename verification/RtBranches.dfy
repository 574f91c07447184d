// The branches of a radix node: a map from first elements to nodes, kept as a
// red-black tree of the stubs inside those nodes.
module RtBranches {
  import opened RbShape
  import opened RbLinks
  import opened RbOrder
  import RbTree

  // The stubs are told apart by their keys, and b has the node of each of them.
  ghost predicate StandFor<X>(N: set<Stub>, owner: map<Stub, X>, b: map<int, X>) {
    && (forall s :: s in N ==> s in owner && s.key in b && b[s.key] == owner[s])
    && (forall s, t :: s in N && t in N && s.key == t.key ==> s == t)
    && (forall k :: k in b ==> exists s :: s in N && s.key == k)
  }

  lemma {:induction false} OneMore<X>(N: set<Stub>, owner: map<Stub, X>, b: map<int, X>, s: Stub, x: X)
    requires StandFor(N, owner, b) && s !in N && s.key !in b
    ensures StandFor(N + {s}, owner[s := x], b[s.key := x])
  {
    var b' := b[s.key := x];
    forall k | k in b' ensures exists t :: t in N + {s} && t.key == k {
      if k == s.key {
        assert s in N + {s};
      } else {
        var t :| t in N && t.key == k;
        assert t in N + {s};
      }
    }
  }

  lemma {:induction false} OneLess<X>(N: set<Stub>, owner: map<Stub, X>, b: map<int, X>, s: Stub)
    requires StandFor(N, owner, b) && s in N
    ensures StandFor(N - {s}, owner, b - {s.key})
  {
    var b' := b - {s.key};
    forall k | k in b' ensures exists t :: t in N - {s} && t.key == k {
      var t :| t in N && t.key == k;
      assert t in N - {s};
    }
  }

  // There are as many stubs as branches.
  lemma {:induction false} AsMany<X>(N: set<Stub>, owner: map<Stub, X>, b: map<int, X>)
    requires StandFor(N, owner, b)
    ensures |N| == |b|
    decreases |N|
  {
    hide StandFor;
    if s :| s in N {
      StubOf(N, owner, b, s);
      OneLess(N, owner, b, s);
      AsMany(N - {s}, owner, b - {s.key});
      assert |(b - {s.key}).Keys| == |b.Keys - {s.key}|;
    } else {
      NoStubs(N, owner, b);
    }
  }

  lemma {:induction false} StubOf<X>(N: set<Stub>, owner: map<Stub, X>, b: map<int, X>, s: Stub)
    requires StandFor(N, owner, b) && s in N
    ensures s in owner && s.key in b && b[s.key] == owner[s]
  {}

  lemma {:induction false} NoStubs<X>(N: set<Stub>, owner: map<Stub, X>, b: map<int, X>)
    requires StandFor(N, owner, b) && N == {}
    ensures |b| == 0
  {
    assert forall k :: k !in b;
    assert b.Keys == {};
  }

  // A walk that meets every stub once meets every key, as often as there are keys.
  lemma {:induction false} EachKey<X>(N: set<Stub>, owner: map<Stub, X>, b: map<int, X>, v: seq<Stub>)
    requires StandFor(N, owner, b) && multiset(v) == multiset(N)
    ensures |v| == |b| && forall i :: 0 <= i < |v| ==> v[i] in N && v[i].key in b
    ensures forall k :: k in b ==> exists i :: 0 <= i < |v| && v[i].key == k
  {
    AsMany(N, owner, b);
    assert |multiset(v)| == |v| && |multiset(N)| == |N|;
    forall i | 0 <= i < |v| ensures v[i] in N {
      assert v[i] in multiset(v);
    }
    forall k | k in b ensures exists i :: 0 <= i < |v| && v[i].key == k {
      var s :| s in N && s.key == k;
      assert s in multiset(v);
      var i :| 0 <= i < |v| && v[i] == s;
    }
  }

  lemma {:induction false} DisjointTree(m: Memory, t: Shape)
    requires IsAt(m, Top, t)
    ensures Disjoint(t)
  {}

  class Branches<X> {
    const tree: RbTree.Tree
    // The node that a stub is part of.
    ghost var owner: map<Stub, X>
    // The map that the radix tree works with.
    ghost var branches: map<int, X>

    ghost predicate Valid()
      reads this, tree, tree.nodes
    {
      tree.Valid() && StandFor(tree.nodes, owner, branches)
    }

    constructor ()
      ensures Valid() && branches == map[] && tree.nodes == {} && fresh(tree)
    {
      tree := new RbTree.Tree();
      owner, branches := map[], map[];
    }

    // `search_branch`
    method Find(key: int) returns (s: Stub?)
      requires Valid()
      ensures s == null <==> key !in branches
      ensures s != null ==> s in tree.nodes && s.key == key && s in owner && owner[s] == branches[key]
    {
      s := tree.Search(key);
    }

    // The branch that `add_rt_node` adds.
    method Add(s: Stub, ghost x: X)
      requires Valid() && s !in tree.nodes && s.key !in branches
      modifies this, tree, tree.nodes, s
      ensures Valid() && branches == old(branches)[s.key := x] && tree.nodes == old(tree.nodes) + {s}
    {
      hide StandFor, IsAt, IsRbTree, Sorted, InOrder, Elements, Instead, Inserted, Without;
      OneMore(tree.nodes, owner, branches, s, x);
      tree.InsertNode(s);
      owner, branches := owner[s := x], branches[s.key := x];
    }

    // The branch that `cut_and_add_rt_node` and the removal of a leaf take out.
    method Drop(s: Stub)
      requires Valid() && s in tree.nodes
      modifies this, tree, tree.nodes
      ensures Valid() && branches == old(branches) - {s.key} && tree.nodes == old(tree.nodes) - {s}
    {
      hide StandFor, IsAt, IsRbTree, Sorted, InOrder, Elements, Instead, Inserted, Without;
      OneLess(tree.nodes, owner, branches, s);
      tree.RemoveNode(s);
      branches := branches - {s.key};
    }

    // The branch that `rt_replace_node` turns to another node.
    method Replace(s: Stub, t: Stub, ghost x: X)
      requires Valid() && s in tree.nodes && t !in tree.nodes && t.key == s.key
      modifies this, tree, tree.nodes, t
      ensures Valid() && branches == old(branches)[s.key := x] && tree.nodes == old(tree.nodes) - {s} + {t}
    {
      hide StandFor, IsAt, IsRbTree, Sorted, InOrder, Elements, Instead, Inserted, Without;
      StubOf(tree.nodes, owner, branches, s);
      OneLess(tree.nodes, owner, branches, s);
      OneMore(tree.nodes - {s}, owner, branches - {s.key}, t, x);
      tree.ReplaceNode(s, t);
      owner, branches := owner[t := x], (branches - {s.key})[s.key := x];
      assert branches == old(branches)[s.key := x];
    }

    // `bst_get_node_count_for_rt_tree`
    method Count() returns (count: nat)
      requires Valid()
      ensures count == AtMostTwo(|branches|)
    {
      AsMany(tree.nodes, owner, branches);
      count := tree.CountUpToTwo();
    }

    // `bst_travel`, as in `update_rt_children`: every branch once.
    method Visit() returns (visited: seq<Stub>)
      requires Valid()
      ensures |visited| == |branches|
      ensures forall i :: 0 <= i < |visited| ==> visited[i] in tree.nodes && visited[i].key in branches
      ensures forall k :: k in branches ==> exists i :: 0 <= i < |visited| && visited[i].key == k
    {
      hide StandFor, IsAt, IsRbTree, Sorted, InOrder, Elements, PreOrder;
      visited := tree.Travel();
      PreOrderIsComplete(tree.shape);
      DisjointTree(Snapshot(tree.nodes), tree.shape);
      EachKey(tree.nodes, owner, branches, visited);
    }
  }
}
