// Splitting labels at wildcards, node by node.
module RmTree {
  import opened RtLinks
  import opened RtSteps
  import opened RtSets
  import opened RtTree
  import opened RmSplit

  class Root {
    const tree: Tree
    const wildcard: Elem

    constructor (t: Tree, w: Elem)
      ensures tree == t && wildcard == w
    {
      tree, wildcard := t, w;
    }

    // The tree, with the nodes in D done.
    ghost predicate Holds(D: set<Node>)
      reads tree, tree.nodes
    {
      tree.root != null && IsMata(Snapshot(tree.nodes), tree.nodes, tree.paths, tree.root, wildcard, D)
    }

    ghost function Strings(): set<Str>
      reads tree, tree.nodes
    {
      Keys(Snapshot(tree.nodes), tree.nodes, tree.paths)
    }

    // `rm_splitnode`: the new node takes the label up to and including position i.
    method SplitNode(t: Node, i: nat) returns (n: Node)
      requires tree.root != null && IsRadix(Snapshot(tree.nodes), tree.nodes, tree.paths, tree.root)
      requires t in tree.nodes && t in tree.paths && i + 1 < |t.skey| <= |tree.paths[t]|
      modifies tree, tree.nodes
      ensures fresh(n) && tree.nodes == old(tree.nodes) + {n}
      ensures tree.paths == old(tree.paths)[n := old(tree.paths)[t][..|old(tree.paths)[t]| - |old(t.skey)| + i + 1]]
      ensures tree.root == if old(t.parent) == null then n else old(tree.root)
      ensures t in Grown(old(Snapshot(tree.nodes)), n, old(t.skey)[..i + 1])
      ensures Grown(old(Snapshot(tree.nodes)), n, old(t.skey)[..i + 1])[t].skey == old(t.skey)
      ensures Snapshot(tree.nodes) == SplitAt(Grown(old(Snapshot(tree.nodes)), n, old(t.skey)[..i + 1]), t, n, i + 1)
    {
      hide IsRadix, Snapshot, Added, CutAdded;
      var k := t.skey;
      ghost var m := Snapshot(tree.nodes);
      SnapshotAt(tree.nodes, t);
      ParentIs(m, tree.nodes, tree.paths, tree.root, t);
      n := Allocate(k[..i + 1], tree.nodes);
      ghost var S := tree.nodes + {n};
      GrownIs(m, n, k[..i + 1], t);
      tree.CutAndAdd(t, n, k[..i + 1], S);
      tree.AddNode(n, t, k[i + 1..], S);
      tree.nodes, tree.paths := S, tree.paths[n := tree.paths[t][..|tree.paths[t]| - |k| + i + 1]];
    }

    // A new node, where no string ends.
    method Allocate(k: Str, ghost N: set<Node>) returns (n: Node)
      ensures fresh(n) && n.branches == map[] && Snapshot(N + {n}) == Grown(old(Snapshot(N)), n, k)
    {
      n := new Node(k);
      n.valid := false;
    }

    // A segment at the front of a label becomes a node, and is done.
    method CutFront(t: Node, i: nat, isWildcard: bool, ghost D: set<Node>) returns (n: Node, ghost D': set<Node>)
      requires Holds(D) && t in tree.nodes && t !in D && i + 1 < |t.skey| && IsSegment(wildcard, t.skey[..i + 1])
      requires (isWildcard <==> t.skey[0] == wildcard) && UpsDone(Snapshot(tree.nodes), D, t)
      modifies tree, tree.nodes
      ensures UpsDone(Snapshot(tree.nodes), D', t)
      ensures Holds(D') && Strings() == old(Strings()) && fresh(n) && D' == D + {n}
          && tree.nodes == old(tree.nodes) + {n}
      ensures t.skey == old(t.skey)[i + 1..] && t.parent == n
      ensures Evolves(old(Snapshot(tree.nodes)), old(tree.nodes), old(tree.paths), Snapshot(tree.nodes), tree.nodes,
          tree.paths, {t})
    {
      hide IsRadix, Snapshot, Keys, WcsOk, SegmentsOk, AllApart, SplitAt, Evolves, Grown, UpsDone;
      ghost var m, N, P, r := Snapshot(tree.nodes), tree.nodes, tree.paths, tree.root;
      PathEnds(m, N, P, r, t);
      SnapshotAt(N, t);
      ghost var k := t.skey;
      n := SplitNode(t, i);
      ghost var g := Grown(m, n, k[..i + 1]);
      GrownKeeps(m, N, P, r, wildcard, D, n, k[..i + 1], {t});
      GrownIs(m, n, k[..i + 1], t);
      FrontKeeps(g, N, P, r, wildcard, D, t, n, i + 1);
      GrownUps(m, N, D, t, n, k[..i + 1]);
      FrontUps(g, N, P, r, wildcard, D, t, n, i + 1);
      FrontEvolves(g, N, P, r, wildcard, D, t, n, i + 1);
      EvolvesOn(m, N, P, g, N, P, Front(g, t, n, i + 1, wildcard), N + {n}, SplitPaths(g, P, t, n, i + 1), {t}, {t});
      SplitCells(g, N, P, r, t, n, i + 1);
      SnapshotAt(tree.nodes, n);
      if isWildcard && n.parent != null {
        n.parent.SetWcNode(n, tree.nodes);
      }
      SnapshotAt(tree.nodes, t);
      D' := D + {n};
    }

    // The wildcard at the end of a label stays where it is, and is done; the
    // rest of the label moves to a new node above it.
    method CutBack(t: Node, ghost D: set<Node>) returns (n: Node, ghost D': set<Node>)
      requires Holds(D) && t in tree.nodes && t !in D && 1 < |t.skey| && t.skey[|t.skey| - 1] == wildcard
      requires UpsDone(Snapshot(tree.nodes), D, t)
      modifies tree, tree.nodes
      ensures UpsDone(Snapshot(tree.nodes), D', n)
      ensures Holds(D') && Strings() == old(Strings()) && fresh(n) && D' == D + {t}
          && tree.nodes == old(tree.nodes) + {n}
      ensures n.skey == old(t.skey)[..|old(t.skey)| - 1]
      ensures Evolves(old(Snapshot(tree.nodes)), old(tree.nodes), old(tree.paths), Snapshot(tree.nodes), tree.nodes,
          tree.paths, {t})
    {
      hide IsRadix, Snapshot, Keys, WcsOk, SegmentsOk, AllApart, SplitAt, Evolves, Grown, UpsDone;
      ghost var m, N, P, r := Snapshot(tree.nodes), tree.nodes, tree.paths, tree.root;
      PathEnds(m, N, P, r, t);
      SnapshotAt(N, t);
      ghost var k := t.skey;
      var i := |t.skey| - 2;
      n := SplitNode(t, i);
      ghost var g := Grown(m, n, k[..i + 1]);
      GrownKeeps(m, N, P, r, wildcard, D, n, k[..i + 1], {t});
      GrownIs(m, n, k[..i + 1], t);
      BackKeeps(g, N, P, r, wildcard, D, t, n);
      GrownUps(m, N, D, t, n, k[..i + 1]);
      BackUps(g, N, P, r, wildcard, D, t, n);
      BackEvolves(g, N, P, r, wildcard, D, t, n);
      EvolvesOn(m, N, P, g, N, P, Back(g, t, n), N + {n}, SplitPaths(g, P, t, n, i + 1), {t}, {t});
      SplitCells(g, N, P, r, t, n, i + 1);
      SnapshotAt(tree.nodes, t);
      if t.parent != null {
        t.parent.SetWcNode(t, tree.nodes);
      }
      SnapshotAt(tree.nodes, n);
      D' := D + {t};
    }

    // A node whose label is a segment is done.
    method Settle(t: Node, ghost D: set<Node>) returns (ghost D': set<Node>)
      requires Holds(D) && t in tree.nodes && t !in D && IsSegment(wildcard, t.skey)
          && UpsDone(Snapshot(tree.nodes), D, t)
      modifies tree.nodes`wcNode
      ensures UpsDone(Snapshot(tree.nodes), D', null)
      ensures Holds(D') && Strings() == old(Strings()) && D' == D + {t}
      ensures Evolves(old(Snapshot(tree.nodes)), tree.nodes, tree.paths, Snapshot(tree.nodes), tree.nodes,
          tree.paths, {t})
    {
      hide IsRadix, Snapshot, Keys, WcsOk, SegmentsOk, AllApart, Evolves, UpsDone;
      ghost var m := Snapshot(tree.nodes);
      SnapshotAt(tree.nodes, t);
      ParentIs(m, tree.nodes, tree.paths, tree.root, t);
      SettleKeeps(m, tree.nodes, tree.paths, tree.root, wildcard, D, t);
      SettleUps(m, t, wildcard, D);
      SettleEvolves(m, tree.nodes, tree.paths, tree.root, wildcard, t);
      if |t.skey| == 1 && t.skey[0] == wildcard && t.parent != null {
        t.parent.SetWcNode(t, tree.nodes);
      }
      D' := D + {t};
    }

    // In the middle of splitting t0: everything new but t is done.
    ghost predicate Going(m0: Memory, N0: set<Node>, P0: Paths, D0: set<Node>, t0: Node, t: Node, D: set<Node>)
      reads tree, tree.nodes
    {
      && Holds(D) && t in tree.nodes && t !in D && D == D0 + {t0} + (tree.nodes - N0) - {t} && N0 <= tree.nodes
      && Evolves(m0, N0, P0, Snapshot(tree.nodes), tree.nodes, tree.paths, {t0}) && (t == t0 || t !in N0) && t0 in N0
      && UpsDone(Snapshot(tree.nodes), D, t)
    }

    method GoFront(t: Node, i: nat, isWildcard: bool, ghost m0: Memory, ghost N0: set<Node>, ghost P0: Paths,
          ghost D0: set<Node>, ghost t0: Node, ghost D: set<Node>)
      returns (ghost D': set<Node>)
      requires Going(m0, N0, P0, D0, t0, t, D) && i + 1 < |t.skey| && IsSegment(wildcard, t.skey[..i + 1])
      requires isWildcard <==> t.skey[0] == wildcard
      modifies tree, tree.nodes
      ensures Going(m0, N0, P0, D0, t0, t, D') && Strings() == old(Strings()) && t.skey == old(t.skey)[i + 1..]
      ensures old(tree.nodes) <= tree.nodes && fresh(tree.nodes - old(tree.nodes))
    {
      hide Holds, Snapshot, Keys, Evolves, UpsDone;
      ghost var m, N, P := Snapshot(tree.nodes), tree.nodes, tree.paths;
      var n;
      n, D' := CutFront(t, i, isWildcard, D);
      EvolvesOn(m0, N0, P0, m, N, P, Snapshot(tree.nodes), tree.nodes, tree.paths, {t0}, {t});
    }

    method GoBack(t: Node, ghost m0: Memory, ghost N0: set<Node>, ghost P0: Paths, ghost D0: set<Node>, ghost t0: Node,
          ghost D: set<Node>)
      returns (n: Node, ghost D': set<Node>)
      requires Going(m0, N0, P0, D0, t0, t, D) && 1 < |t.skey| && t.skey[|t.skey| - 1] == wildcard
      modifies tree, tree.nodes
      ensures Going(m0, N0, P0, D0, t0, n, D') && Strings() == old(Strings())
          && n.skey == old(t.skey)[..|old(t.skey)| - 1]
      ensures old(tree.nodes) <= tree.nodes && fresh(tree.nodes - old(tree.nodes))
    {
      hide Holds, Snapshot, Keys, Evolves, UpsDone;
      ghost var m, N, P := Snapshot(tree.nodes), tree.nodes, tree.paths;
      n, D' := CutBack(t, D);
      EvolvesOn(m0, N0, P0, m, N, P, Snapshot(tree.nodes), tree.nodes, tree.paths, {t0}, {t});
    }

    method GoSettle(t: Node, ghost m0: Memory, ghost N0: set<Node>, ghost P0: Paths, ghost D0: set<Node>,
          ghost t0: Node, ghost D: set<Node>)
      returns (ghost D': set<Node>)
      requires Going(m0, N0, P0, D0, t0, t, D) && IsSegment(wildcard, t.skey)
      modifies tree.nodes`wcNode
      ensures Holds(D') && Strings() == old(Strings()) && D' == D0 + {t0} + (tree.nodes - N0)
          && UpsDone(Snapshot(tree.nodes), D', null)
      ensures Evolves(m0, N0, P0, Snapshot(tree.nodes), tree.nodes, tree.paths, {t0})
    {
      hide Holds, Snapshot, Keys, Evolves, UpsDone;
      ghost var m := Snapshot(tree.nodes);
      D' := Settle(t, D);
      EvolvesOn(m0, N0, P0, m, tree.nodes, tree.paths, Snapshot(tree.nodes), tree.nodes, tree.paths, {t0}, {t});
    }

    lemma {:induction false} Begin(t0: Node, D0: set<Node>)
      requires Holds(D0) && t0 in tree.nodes && t0 !in D0 && UpsDone(Snapshot(tree.nodes), D0, t0)
      ensures Going(Snapshot(tree.nodes), tree.nodes, tree.paths, D0, t0, t0, D0)
    {
      hide Snapshot, Evolves, IsMata, UpsDone;
      MataIs(Snapshot(tree.nodes), tree.nodes, tree.paths, tree.root, wildcard, D0);
      EvolvesAtOnce(Snapshot(tree.nodes), tree.nodes, tree.paths, tree.root, {t0});
      assert D0 + {t0} + (tree.nodes - tree.nodes) - {t0} == D0;
    }

    // `rm_matafy_node`
    method MatafyNode(t0: Node, ghost D0: set<Node>) returns (ghost D: set<Node>)
      requires Holds(D0) && t0 in tree.nodes && t0 !in D0 && NoneAdjacent(wildcard, t0.skey)
      requires UpsDone(Snapshot(tree.nodes), D0, t0)
      modifies tree, tree.nodes
      ensures UpsDone(Snapshot(tree.nodes), D, null)
      ensures Holds(D) && Strings() == old(Strings()) && old(tree.nodes) <= tree.nodes
          && fresh(tree.nodes - old(tree.nodes))
      ensures D == D0 + {t0} + (tree.nodes - old(tree.nodes))
      ensures Evolves(old(Snapshot(tree.nodes)), old(tree.nodes), old(tree.paths), Snapshot(tree.nodes), tree.nodes,
          tree.paths, {t0})
    {
      hide Snapshot, Keys, Evolves, Holds, NoneAdjacent, Going, IsSegment, Strings, UpsDone;
      ghost var m0, N0, P0 := Snapshot(tree.nodes), tree.nodes, tree.paths;
      Begin(t0, D0);
      var t := t0;
      D := D0;
      if |t.skey| <= 1 {
        ShortSegment(wildcard, t.skey);
        D := GoSettle(t, m0, N0, P0, D0, t0, D);
        return;
      }
      if t.skey[0] == wildcard {
        CutOff(wildcard, t.skey, 1);
        D := GoFront(t, 0, true, m0, N0, P0, D0, t0, D);
        if |t.skey| <= 1 {
          ShortSegment(wildcard, t.skey);
          D := GoSettle(t, m0, N0, P0, D0, t0, D);
          return;
        }
      }
      if t.skey[|t.skey| - 1] == wildcard {
        CutOff(wildcard, t.skey, |t.skey| - 1);
        t, D := GoBack(t, m0, N0, P0, D0, t0, D);
        if |t.skey| <= 1 {
          ShortSegment(wildcard, t.skey);
          D := GoSettle(t, m0, N0, P0, D0, t0, D);
          return;
        }
      }
      D := CutMiddle(t, m0, N0, P0, D0, t0, D);
    }

    // The loop of `rm_matafy_node`, for a label with no wildcard at either end.
    // The test whether one element is left, which the original repeats between
    // the two cuts, cannot succeed there.
    method CutMiddle(t: Node, ghost m0: Memory, ghost N0: set<Node>, ghost P0: Paths, ghost D0: set<Node>,
          ghost t0: Node, ghost D1: set<Node>)
      returns (ghost D: set<Node>)
      requires Going(m0, N0, P0, D0, t0, t, D1) && NoneAdjacent(wildcard, t.skey)
      requires |t.skey| > 1 && t.skey[0] != wildcard && t.skey[|t.skey| - 1] != wildcard
      modifies tree, tree.nodes
      ensures Holds(D) && Strings() == old(Strings()) && D == D0 + {t0} + (tree.nodes - N0)
          && UpsDone(Snapshot(tree.nodes), D, null)
      ensures old(tree.nodes) <= tree.nodes && fresh(tree.nodes - old(tree.nodes))
      ensures Evolves(m0, N0, P0, Snapshot(tree.nodes), tree.nodes, tree.paths, {t0})
    {
      hide Snapshot, Keys, Evolves, Holds, NoneAdjacent, Going, IsSegment, Strings, UpsDone;
      var i := 1;
      D := D1;
      NotYet(wildcard, t.skey);
      while i < |t.skey|
        invariant Going(m0, N0, P0, D0, t0, t, D) && Strings() == old(Strings())
        invariant old(tree.nodes) <= tree.nodes && fresh(tree.nodes - old(tree.nodes))
        invariant 1 <= i <= |t.skey| && t.skey[0] != wildcard && t.skey[|t.skey| - 1] != wildcard
        invariant IsSegment(wildcard, t.skey[..i]) && NoneAdjacent(wildcard, t.skey)
        decreases |t.skey|, |t.skey| - i
      {
        if t.skey[i] == wildcard {
          CutOff(wildcard, t.skey, i);
          D := GoFront(t, i - 1, false, m0, N0, P0, D0, t0, D);
          CutOff(wildcard, t.skey, 1);
          D := GoFront(t, 0, true, m0, N0, P0, D0, t0, D);
          NotYet(wildcard, t.skey);
          i := 1;
        } else {
          OneFurther(wildcard, t.skey, i);
          i := i + 1;
        }
      }
      assert t.skey[..i] == t.skey;
      D := GoSettle(t, m0, N0, P0, D0, t0, D);
    }

    // The children of a node, in an order that does not matter here.
    method ListBranches(b: map<Elem, Node>) returns (s: seq<Node>)
      requires forall c, d :: c in b && d in b && b[c] == b[d] ==> c == d
      ensures forall i, j :: 0 <= i < j < |s| ==> s[i] != s[j]
      ensures forall x :: x in s <==> x in Kids(b)
    {
      var todo, more := b.Keys, true;
      s := [];
      while more
        invariant forall c :: c in todo ==> c in b && b[c] !in s
        invariant forall c :: c in b && c !in todo ==> b[c] in s
        invariant forall x :: x in s ==> x in Kids(b)
        invariant forall i, j :: 0 <= i < j < |s| ==> s[i] != s[j]
        invariant !more ==> forall c :: c !in todo
        decreases todo, more
      {
        if c :| c in todo {
          KidOf(b, c);
          s := s + [b[c]];
          todo := todo - {c};
        } else {
          more := false;
        }
      }
      forall x | x in Kids(b) ensures x in s {
        var c := KeyOf(b, x);
      }
    }

    // The state of the search: D is done, and q waits.
    ghost predicate Searching(m0: Memory, N0: set<Node>, P0: Paths, D: set<Node>, q: seq<Node>)
      reads tree, tree.nodes
    {
      && Holds(D) && N0 <= tree.nodes && tree.nodes - D <= N0 && UpsDone(Snapshot(tree.nodes), D, null)
      && QueueOk(Snapshot(tree.nodes), tree.nodes, D, q) && AllWait(Snapshot(tree.nodes), tree.nodes, D, q)
      && Evolves(m0, N0, P0, Snapshot(tree.nodes), tree.nodes, tree.paths, N0)
    }

    // One round of `rm_matafy`
    method MatafyNext(q: seq<Node>, ghost m0: Memory, ghost N0: set<Node>, ghost P0: Paths, ghost D: set<Node>)
      returns (q': seq<Node>, ghost D': set<Node>)
      requires Searching(m0, N0, P0, D, q) && q != []
      modifies tree, tree.nodes
      ensures Searching(m0, N0, P0, D', q') && Strings() == old(Strings())
      ensures D < D' && (tree.nodes - D') < old(tree.nodes - D) && old(tree.nodes) <= tree.nodes
          && fresh(tree.nodes - old(tree.nodes))
    {
      hide Snapshot, Keys, Evolves, QueueOk, AllWait, UpsDone, NoneAdjacent, IsMata, IsRadix;
      var t := q[0];
      ghost var m, N, P, r := Snapshot(tree.nodes), tree.nodes, tree.paths, tree.root;
      MataIs(m, N, P, tree.root, wildcard, D);
      QueueIs(m, N, D, q, 0);
      SnapshotAt(tree.nodes, t);
      LabelApart(m, N, P, tree.root, wildcard, D, t);
      BranchesDiffer(m, N, P, tree.root, t);
      var kids := ListBranches(t.branches);
      UpsNow(m, D, t);
      D' := MatafyNode(t, D);
      q' := q[1..] + kids;
      QueueGoesOn(m, N, P, r, D, q, kids, Snapshot(tree.nodes), tree.nodes, tree.paths, D');
      EvolvesOn(m0, N0, P0, m, N, P, Snapshot(tree.nodes), tree.nodes, tree.paths, N0, {t});
    }

    // `rm_matafy`: every wildcard becomes a node of its own and is known to its
    // parent, the strings and the nodes where they end stay the same.
    method Matafy()
      requires tree.Valid() && tree.root != null && NoWcs(tree.nodes)
      requires forall s :: s in Strings() ==> NoneAdjacent(wildcard, s)
      modifies tree, tree.nodes
      ensures Holds(tree.nodes) && Strings() == old(Strings())
      ensures Evolves(old(Snapshot(tree.nodes)), old(tree.nodes), old(tree.paths), Snapshot(tree.nodes), tree.nodes,
          tree.paths, old(tree.nodes))
    {
      hide Snapshot, Keys, Evolves, QueueOk, AllWait, UpsDone, NoneAdjacent, IsMata, IsRadix, IsCompressed, Searching;
      ghost var m0, N0, P0 := Snapshot(tree.nodes), tree.nodes, tree.paths;
      var q: seq<Node> := [tree.root];
      ghost var D: set<Node> := {};
      Start();
      while q != []
        invariant Searching(m0, N0, P0, D, q) && Strings() == old(Strings())
        invariant old(tree.nodes) <= tree.nodes && fresh(tree.nodes - old(tree.nodes))
        decreases tree.nodes - D
      {
        q, D := MatafyNext(q, m0, N0, P0, D);
      }
      Finish(m0, N0, P0, D);
    }

    lemma {:induction false} Start()
      requires tree.Valid() && tree.root != null && NoWcs(tree.nodes)
      requires forall s :: s in Strings() ==> NoneAdjacent(wildcard, s)
      ensures Searching(Snapshot(tree.nodes), tree.nodes, tree.paths, {}, [tree.root])
    {
      hide IsRadix, IsCompressed, Evolves, QueueOk, AllWait, UpsDone, NoneAdjacent, Keys;
      var m, N, P := Snapshot(tree.nodes), tree.nodes, tree.paths;
      forall x | x in N ensures x in P && NoneAdjacent(wildcard, P[x]) && WcOk(m, wildcard, {}, x) {
        NodeIs(m, N, P, tree.root, x);
        PathsApart(m, N, P, tree.root, wildcard, x);
        SnapshotAt(tree.nodes, x);
      }
      AllWcs(m, N, wildcard, {});
      AllSegments(m, wildcard, {});
      QueueStarts(m, N, P, tree.root);
      EvolvesAtOnce(m, N, P, tree.root, N);
    }

    lemma {:induction false} Finish(m0: Memory, N0: set<Node>, P0: Paths, D: set<Node>)
      requires Searching(m0, N0, P0, D, [])
      ensures Holds(tree.nodes) && D == tree.nodes
      ensures Evolves(m0, N0, P0, Snapshot(tree.nodes), tree.nodes, tree.paths, N0)
    {
      hide IsRadix, Evolves, QueueOk, AllWait, UpsDone, Snapshot, WcsOk, SegmentsOk, AllApart;
      forall x | x in tree.nodes ensures x in D {
        NodeIs(Snapshot(tree.nodes), tree.nodes, tree.paths, tree.root, x);
        QueueEnds(Snapshot(tree.nodes), tree.nodes, tree.paths, tree.root, D, x);
      }
      assert D == tree.nodes;
    }
  }

  lemma {:induction false} UpsNow(m: Memory, D: set<Node>, t: Node)
    requires UpsDone(m, D, null) && UpIsDone(m, D, null, t)
    ensures UpsDone(m, D, t)
  {
    forall x | x in D ensures UpIsDone(m, D, t, x) {
      assert UpIsDone(m, D, null, x);
    }
  }

  lemma {:induction false} BranchesDiffer(m: Memory, N: set<Node>, P: Paths, root: Node?, t: Node)
    requires IsRadix(m, N, P, root) && t in N && t in m
    ensures forall c, d :: c in m[t].branches && d in m[t].branches && m[t].branches[c] == m[t].branches[d] ==> c == d
  {
    hide IsRadix;
    forall c | c in m[t].branches ensures LinkOk(m, N, P, t, c) { LinkIs(m, N, P, root, t, c); }
  }

  lemma {:induction false} LabelApart(m: Memory, N: set<Node>, P: Paths, root: Node?, w: Elem, D: set<Node>, t: Node)
    requires IsMata(m, N, P, root, w, D) && t in N
    ensures t in m && NoneAdjacent(w, m[t].skey)
  {
    hide IsRadix, WcsOk, SegmentsOk;
    PathEnds(m, N, P, root, t);
    var a := |P[t]| - |m[t].skey|;
    assert forall i :: 0 <= i < |m[t].skey| ==> m[t].skey[i] == P[t][a + i];
  }

  lemma {:induction false} NotYet(w: Elem, k: Str)
    requires |k| > 0 && k[0] != w
    ensures IsSegment(w, k[..1])
  {}

  lemma {:induction false} OneFurther(w: Elem, k: Str, i: nat)
    requires 0 < i < |k| && IsSegment(w, k[..i]) && k[0] != w && k[i] != w
    ensures IsSegment(w, k[..i + 1])
  {
    assert k[..i][0] == k[0];
    assert k[..i + 1] == k[..i] + [k[i]];
  }

  lemma {:induction false} MataIs(m: Memory, N: set<Node>, P: Paths, root: Node?, w: Elem, D: set<Node>)
    requires IsMata(m, N, P, root, w, D)
    ensures IsRadix(m, N, P, root) && D <= N
  {}

  lemma {:induction false} ShortSegment(w: Elem, k: Str)
    requires |k| <= 1
    ensures IsSegment(w, k)
  {}

  // Both parts of a label keep wildcards apart, and what follows a wildcard, or
  // comes before it, is none.
  lemma {:induction false} CutOff(w: Elem, k: Str, i: nat)
    requires NoneAdjacent(w, k) && 0 < i < |k|
    ensures NoneAdjacent(w, k[..i]) && NoneAdjacent(w, k[i..])
    ensures k[i - 1] == w ==> k[i] != w
    ensures k[i] == w ==> k[i - 1] != w
    ensures i == 1 && k[0] == w ==> IsSegment(w, k[..1])
  {
    assert forall j {:trigger k[i..][j]} :: 0 <= j < |k[i..]| ==> k[i..][j] == k[i + j];
    forall j {:trigger k[i..][j]} | 0 <= j < |k[i..]| - 1 && k[i..][j] == w ensures k[i..][j + 1] != w {
      assert k[i + j] == w && k[i..][j + 1] == k[i + j + 1];
    }
    assert k[i - 1] == w ==> k[i - 1 + 1] != w;
  }

  lemma {:induction false} GrownIs(m: Memory, n: Node, k: Str, t: Node)
    requires t in m && n !in m
    ensures t in Grown(m, n, k) && Grown(m, n, k)[t] == m[t] && n in Grown(m, n, k)
    ensures Grown(m, n, k)[n] == Cell(k, map[], null, false, null)
  {}
}
