// The radix tree: exact search, insertion and removal.
module RtTree {
  import opened RtLinks
  import opened RtSteps
  import opened RtSets
  import RbShape

  // The nodes of before stand for the strings they stood for.
  ghost predicate PathsKept(N: set<Node>, P: Paths, P': Paths) {
    forall y :: y in N && y in P ==> y in P' && P'[y] == P[y]
  }

  // None of these nodes has a link to a wildcard child. Nothing here sets one:
  // that is what preparing a tree for matching starts from.
  ghost predicate NoWcs(S: set<Node>)
    reads S`wcNode
  {
    forall n :: n in S ==> n.wcNode == null
  }

  lemma {:induction false} PartHasNoWcs(S: set<Node>, N: set<Node>)
    requires N <= S
    ensures NoWcs(S) ==> NoWcs(N)
  {}

  lemma {:induction false} OneMoreHasNoWcs(N: set<Node>, n: Node)
    ensures NoWcs(N) && n.wcNode == null ==> NoWcs(N + {n})
  {}

  // ---------------------------------------------------------------- searching

  // Whoever has this path is found at or below t.
  ghost predicate OnWay(N: set<Node>, P: Paths, key: Str, t: Node) {
    forall x {:trigger P[x]} :: x in N && x in P && P[x] == key ==> t in P && P[t] <= key
  }

  ghost predicate IsAbsent(N: set<Node>, P: Paths, key: Str) {
    forall x {:trigger P[x]} :: x in N && x in P ==> P[x] != key
  }

  lemma {:induction false} RootOnWay(m: Memory, N: set<Node>, P: Paths, root: Node, key: Str)
    requires IsRadix(m, N, P, root)
    ensures root in P && OnWay(N, P, key, root)
  {
    hide IsRadix;
    RootIs(m, N, P, root);
    NodeIs(m, N, P, root, root);
    forall x | x in N && x in P && P[x] == key ensures P[root] <= key {
      RootIsLeast(m, N, P, root, x);
    }
  }

  lemma {:induction false} BranchOnWay(m: Memory, N: set<Node>, P: Paths, root: Node, t: Node, key: Str)
    requires IsRadix(m, N, P, root) && t in N && t in m && t in P && P[t] < key && key[|P[t]|] in m[t].branches
    ensures var y := m[t].branches[key[|P[t]|]];
            && y in N && y in m && y in P && OnWay(N, P, key, y)
            && |P[y]| - |m[y].skey| == |P[t]| && P[y][..|P[t]|] == key[..|P[t]|] && m[y].skey != []
            && m[y].skey[0] == key[|P[t]|]
  {
    hide IsRadix;
    LinkIs(m, N, P, root, t, key[|P[t]|]);
    forall x | x in N && x in P && P[x] == key ensures P[m[t].branches[key[|P[t]|]]] <= key {
      Divide(m, N, P, root, t, x);
    }
  }

  // There is no branch to go on, or the label goes another way.
  lemma {:induction false} DeadEnd(m: Memory, N: set<Node>, P: Paths, root: Node, t: Node, key: Str)
    requires IsRadix(m, N, P, root) && t in N && t in m && t in P && OnWay(N, P, key, t)
    requires (P[t] < key && key[|P[t]|] !in m[t].branches) || !(P[t] <= key)
    ensures IsAbsent(N, P, key)
  {
    hide IsRadix;
    forall x | x in N && x in P ensures P[x] != key {
      if P[x] == key {
        Divide(m, N, P, root, t, x);
      }
    }
  }

  // `search_node`: how far the label and the rest of the key agree.
  method MatchLabel(skey: Str, key: Str, keyPos: nat) returns (i: nat)
    requires keyPos <= |key|
    ensures i <= |skey| && keyPos + i <= |key| && skey[..i] == key[keyPos..keyPos + i]
    ensures i == |skey| || keyPos + i == |key| || skey[i] != key[keyPos + i]
  {
    i := 0;
    while i < |skey| && keyPos + i < |key| && skey[i] == key[keyPos + i]
      invariant i <= |skey| && keyPos + i <= |key| && skey[..i] == key[keyPos..keyPos + i]
    {
      i := i + 1;
    }
  }

  // What a match of the label tells about the path.
  lemma {:induction false} MatchPath(path: Str, skey: Str, key: Str, keyPos: nat, i: nat)
    requires |skey| <= |path| && keyPos == |path| - |skey| && keyPos <= |key| && path == path[..keyPos] + skey
    requires path[..keyPos] == key[..keyPos]
    requires i <= |skey| && keyPos + i <= |key| && skey[..i] == key[keyPos..keyPos + i]
    requires i == |skey| || keyPos + i == |key| || skey[i] != key[keyPos + i]
    ensures path[..keyPos + i] == key[..keyPos + i]
    ensures i == |skey| <==> path <= key
    ensures i == |skey| && keyPos + i == |key| <==> path == key
  {
    assert path[..keyPos + i] == path[..keyPos] + skey[..i];
    assert key[..keyPos + i] == key[..keyPos] + key[keyPos..keyPos + i];
    if i == |skey| {
      assert path == path[..keyPos + i];
    } else {
      assert path[keyPos + i] == skey[i];
    }
  }

  // ------------------------------------------------------ the strings of a tree

  lemma {:induction false} Resnap(S: set<Node>, S': set<Node>, N: set<Node>, P: Paths, root: Node?)
    requires IsRadix(Snapshot(S), N, P, root) && N <= S && N <= S'
    ensures IsRadix(Snapshot(S'), N, P, root) && Keys(Snapshot(S'), N, P) == Keys(Snapshot(S), N, P)
    ensures IsCompressed(Snapshot(S), N) <==> IsCompressed(Snapshot(S'), N)
  {
    hide IsRadix, NodeOk;
    var m, m' := Snapshot(S), Snapshot(S');
    assert forall x :: x in N ==> m'[x] == m[x];
    if root != null {
      forall x | x in N ensures NodeOk(m', N, P, root, x) {
        NodeFrame(m, m', N, P, root, x);
      }
      RootIs(m, N, P, root);
      AllOk(m', N, P, root);
    } else {
      NoNodes(m, m', N, P);
    }
    assert forall x :: x in N ==> IsFull(m, x) == IsFull(m', x);
  }

  lemma {:induction false} NoNodes(m: Memory, m': Memory, N: set<Node>, P: Paths)
    requires IsRadix(m, N, P, null)
    ensures IsRadix(m', N, P, null) && N == {}
  {}

  lemma {:induction false} NodeFrame(m: Memory, m': Memory, N: set<Node>, P: Paths, root: Node?, x: Node)
    requires IsRadix(m, N, P, root) && x in N && forall z :: z in N ==> z in m && z in m' && m'[z] == m[z]
    ensures NodeOk(m', N, P, root, x)
  {
    hide IsRadix;
    NodeIs(m, N, P, root, x);
    forall c | c in m'[x].branches ensures LinkOk(m', N, P, x, c) {
      LinkIs(m, N, P, root, x, c);
    }
  }

  // ------------------------------------------------------------------- the tree

  // The node a caller provides, and the node it gets back.
  class Arg {
    var dummy: Node?
    var extra: Node?

    constructor (d: Node)
      ensures dummy == d && extra == null
    {
      dummy, extra := d, null;
    }
  }

  class Tree {
    var root: Node?
    ghost var nodes: set<Node>
    ghost var paths: Paths

    ghost predicate Valid()
      reads this, nodes
    {
      IsRadix(Snapshot(nodes), nodes, paths, root) && IsCompressed(Snapshot(nodes), nodes)
    }

    // The strings that the tree stands for.
    ghost function Strings(): set<Str>
      reads this, nodes
    {
      Keys(Snapshot(nodes), nodes, paths)
    }

    constructor ()
      ensures Valid() && nodes == {} && Strings() == {}
    {
      root, nodes, paths := null, {}, map[];
    }

    // `search_branch`
    method SearchBranch(t: Node, c: Elem) returns (y: Node?)
      ensures y == if c in t.branches then t.branches[c] else null
    {
      y := if c in t.branches then t.branches[c] else null;
    }

    // `rt_search`, exact mode
    method Search(key: Str) returns (t: Node?)
      requires Valid() && key != []
      ensures t != null ==> t in nodes && t in paths && paths[t] == key
      ensures t == null ==> IsAbsent(nodes, paths, key)
      ensures (t != null && t.valid) <==> key in Strings()
    {
      hide IsRadix, Snapshot, OnWay, IsAbsent, IsCompressed, IsOpen, IsEnd;
      ghost var m := Snapshot(nodes);
      var keyPos := 0;
      t := root;
      if t == null {
        EmptyTree(m, nodes, paths, key);
        return;
      }
      OpenRoot(m, nodes, paths, root, key);
      SnapshotAt(nodes, t);
      if t.skey == [] {
        t := StepDown(t, key, 0);
      }
      while t != null
        invariant t != null ==>
              t in nodes && IsOpen(m, nodes, paths, t, key, keyPos) && m[t].skey == t.skey && t.skey != []
        invariant t == null ==> IsAbsent(nodes, paths, key)
        decreases if t != null then 1 + |key| - keyPos else 0
      {
        OpenFacts(m, nodes, paths, t, key, keyPos);
        var pos := MatchLabel(t.skey, key, keyPos);
        MatchEnd(m, nodes, paths, root, t, key, keyPos, pos);
        keyPos := keyPos + pos;
        SnapshotAt(nodes, t);
        if pos == |t.skey| {
          if keyPos < |key| {
            if t.branches != map[] {
              t := StepDown(t, key, keyPos);
            } else {
              DeadEnd(m, nodes, paths, root, t, key);
              t := null;
              break;
            }
          } else {
            break;
          }
        } else {
          DeadEnd(m, nodes, paths, root, t, key);
          t := null;
          break;
        }
      }
      if t != null {
        SnapshotAt(nodes, t);
      }
      KeyFound(m, nodes, paths, root, t, key);
    }

    // Down the branch for the next element of the key.
    method StepDown(t: Node, key: Str, keyPos: nat) returns (y: Node?)
      requires root != null && IsRadix(Snapshot(nodes), nodes, paths, root) && t in nodes && t in paths
      requires paths[t] < key && keyPos == |paths[t]| && OnWay(nodes, paths, key, t)
      ensures y == null ==> IsAbsent(nodes, paths, key) && key[keyPos] !in t.branches
      ensures y != null ==>
            IsOpen(Snapshot(nodes), nodes, paths, y, key, keyPos) && y.skey == Snapshot(nodes)[y].skey && y.skey != []
      ensures y != null ==> y.skey[0] == key[keyPos] && y in nodes
    {
      hide IsRadix, Snapshot, OnWay, IsAbsent;
      SnapshotAt(nodes, t);
      y := SearchBranch(t, key[keyPos]);
      if y == null {
        DeadEnd(Snapshot(nodes), nodes, paths, root, t, key);
      } else {
        BranchOnWay(Snapshot(nodes), nodes, paths, root, t, key);
        SnapshotAt(nodes, y);
      }
    }

    // The descent of `rt_insert_node`: the node at which it ends, and how much
    // of its label and of the key agree.
    method Descend(key: Str) returns (t: Node, pos: nat, keyPos: nat)
      requires Valid() && key != [] && root != null
      ensures t in nodes && IsEnd(Snapshot(nodes), nodes, paths, t, key, pos, keyPos)
    {
      hide IsRadix, Snapshot, OnWay, IsAbsent, IsCompressed, IsOpen, IsEnd;
      ghost var m := Snapshot(nodes);
      var p: Node? := null;
      var cur: Node? := root;
      keyPos, pos := 0, 0;
      OpenRoot(m, nodes, paths, root, key);
      SnapshotAt(nodes, cur);
      if cur.skey == [] {
        p := cur;
        cur := StepDown(cur, key, 0);
        if cur == null {
          cur := p;
        }
      }
      while cur != null
        invariant cur != null ==> cur in nodes && IsOpen(m, nodes, paths, cur, key, keyPos) && m[cur].skey == cur.skey
        invariant cur != null && cur.skey == [] ==> keyPos == 0 && key[0] !in cur.branches
        invariant cur == null ==> p != null && p in nodes && IsEnd(m, nodes, paths, p, key, pos, keyPos)
        decreases if cur == null then 0 else 1 + |key| - keyPos, cur != null && cur.skey == []
      {
        OpenFacts(m, nodes, paths, cur, key, keyPos);
        pos := MatchLabel(cur.skey, key, keyPos);
        MatchEnd(m, nodes, paths, root, cur, key, keyPos, pos);
        keyPos := keyPos + pos;
        SnapshotAt(nodes, cur);
        if pos == |cur.skey| {
          if keyPos < |key| {
            if cur.branches != map[] {
              p := cur;
              cur := StepDown(cur, key, keyPos);
            } else {
              break;
            }
          } else {
            break;
          }
        } else {
          break;
        }
      }
      t := if cur != null then cur else p;
    }

    // `add_rt_node`
    method AddNode(p: Node, c: Node, key: Str, ghost S: set<Node>)
      requires p in S && c in S && key != [] && key[0] !in p.branches
      modifies p`branches, c`parent, c`skey
      ensures Snapshot(S) == Added(old(Snapshot(S)), p, c, key)
    {
      hide Snapshot;
      c.SetParent(p, S);
      c.SetKey(key, S);
      SnapshotAt(S, p);
      p.SetBranches(p.branches[key[0] := c], S);
    }

    // `cut_and_add_rt_node`
    method CutAndAdd(cut: Node, x: Node, key: Str, ghost S: set<Node>)
      requires cut in S && x in S && (cut.parent != null ==> cut.parent in S && cut.skey != [])
      requires cut.parent != null && key != [] ==> key[0] == cut.skey[0]
      requires IsBranch(Snapshot(S), cut)
      modifies `root, x`skey, x`parent, (set p | p in S && p == cut.parent)`branches
      ensures Snapshot(S) == CutAdded(old(Snapshot(S)), cut, x, key)
      ensures root == if old(cut.parent) != null && key != [] then old(root) else x
    {
      hide Snapshot;
      var p := cut.parent;
      SnapshotAt(S, cut);
      SnapshotAt(S, p);
      if p != null && key != [] {
        p.SetBranches(p.branches - {cut.skey[0]}, S);
        AddNode(p, x, key, S);
      } else {
        root := x;
        x.SetParent(null, S);
        x.SetKey(key, S);
      }
    }

    // `rt_replace_node`
    method ReplaceNode(t: Node, n: Node, ghost S: set<Node>)
      requires t in S && n in S && t != n
          && (t.parent != null ==> t.parent in S && t.skey != [] && t.parent != t && t.parent != n)
      requires IsBranch(Snapshot(S), t)
      modifies S`skey, S`branches, S`parent
      ensures Snapshot(S) == Replaced(old(Snapshot(S)), t, n)
      ensures n.parent == old(t.parent) && n.branches == old(t.branches)
    {
      hide Snapshot;
      SnapshotAt(S, t);
      var p := t.parent;
      SnapshotAt(S, p);
      if p != null {
        p.SetBranches(p.branches[t.skey[0] := n], S);
      }
      n.SetParent(t.parent, S);
      n.SetBranches(t.branches, S);
      n.SetKey(t.skey, S);
    }

    // `update_rt_children`, in an order that does not matter
    method UpdateChildren(c: Node, ghost S: set<Node>)
      requires c in S && Kids(c.branches) <= S
      modifies S`parent
      ensures Snapshot(S) == Adopted(old(Snapshot(S)), old(c.branches), c)
    {
      hide Snapshot;
      ghost var m := Snapshot(S);
      var b := c.branches;
      var todo, more := b.Keys, true;
      ghost var done: map<Elem, Node> := map[];
      NoneAdopted(m, c);
      while more
        invariant forall k :: k in b <==> k in todo || k in done
        invariant forall k :: k in done ==> done[k] == b[k]
        invariant Snapshot(S) == Adopted(m, done, c)
        invariant !more ==> forall k :: k !in todo
        decreases todo, more
      {
        if k :| k in todo {
          KidOf(b, k);
          OneAdopted(m, done, k, b[k], c);
          b[k].SetParent(c, S);
          done := done[k := b[k]];
          todo := todo - {k};
        } else {
          more := false;
        }
      }
      AllAdopted(m, done, b, c);
    }

    // The tree is in order, seen in a memory that holds more nodes.
    ghost predicate Holds(S: set<Node>)
      reads this, S
    {
      && nodes <= S && IsRadix(Snapshot(S), nodes, paths, root) && IsCompressed(Snapshot(S), nodes)
    }

    lemma {:induction false} ValidIn(S: set<Node>)
      requires nodes <= S
      ensures Valid() <==> Holds(S)
      ensures Valid() ==> Keys(Snapshot(S), nodes, paths) == Strings()
    {
      hide IsRadix, IsCompressed, Snapshot, Keys;
      if Valid() {
        Resnap(nodes, S, nodes, paths, root);
      }
      if Holds(S) {
        Resnap(S, nodes, nodes, paths, root);
      }
    }

    // `rt_replace_node` with the updates that follow it.
    method Swap(t: Node, n: Node, ghost S: set<Node>)
      requires t in S && n in S && t != n
          && (t.parent != null ==> t.parent in S && t.skey != [] && t.parent != t && t.parent != n)
      requires IsBranch(Snapshot(S), t)
      requires Kids(t.branches) <= S
      modifies `root, S`skey, S`branches, S`parent
      ensures Snapshot(S) == Adopted(Replaced(old(Snapshot(S)), t, n), old(t.branches), n)
      ensures root == if old(t.parent) == null then n else old(root)
    {
      hide Snapshot, Adopted, Replaced, Kids, IsBranch;
      ReplaceNode(t, n, S);
      if n.parent == null {
        root := n;
      }
      UpdateChildren(n, S);
    }

    // With that, n stands where t stood.
    method TakeOver(t: Node, n: Node, ghost S: set<Node>)
      requires Holds(S) && root != null && t in nodes && t in paths && n in S && n !in nodes
      requires if n.valid then !t.valid && paths[t] != [] else 2 <= |t.branches.Keys|
      modifies `root, `nodes, `paths, S`skey, S`branches, S`parent
      ensures Holds(S) && nodes == old(nodes) - {t} + {n} && paths == old(paths)[n := old(paths)[t]]
          && n.valid == old(n.valid)
      ensures Keys(Snapshot(S), nodes, paths) == if n.valid then old(Keys(Snapshot(S), nodes, paths)) + {old(paths)[t]}
                                                 else old(Keys(Snapshot(S), nodes, paths)) - {old(paths)[t]}
    {
      hide IsRadix, IsCompressed, Snapshot, Keys, Adopted, Replaced, Kids, NodesKept, IsBranch;
      ghost var m := Snapshot(S);
      SnapshotAt(S, t);
      SnapshotAt(S, n);
      ReplaceAll(m, nodes, paths, root, t, n);
      Swap(t, n, S);
      SnapshotAt(S, n);
      nodes, paths := nodes - {t} + {n}, paths[n := paths[t]];
    }

    // Insertion, where the key ends at a node that only splits: the new node
    // takes its place.
    method InsertHere(t: Node, x: Node, key: Str, arg: Arg, ghost S: set<Node>)
      requires Holds(S) && root != null && t in nodes && t in paths && paths[t] == key && key != [] && !t.valid
      requires x in S && x !in nodes && x.valid
      modifies `root, `nodes, `paths, arg`extra, S`skey, S`branches, S`parent
      ensures Holds(S) && nodes == old(nodes) - {t} + {x} && x in paths && paths[x] == key && arg.extra == t && x.valid
      ensures Keys(Snapshot(S), nodes, paths) == old(Keys(Snapshot(S), nodes, paths)) + {key}
      ensures PathsKept(old(nodes), old(paths), paths)
    {
      hide IsRadix, IsCompressed, Snapshot, Keys;
      TakeOver(t, x, S);
      arg.extra := t;
    }

    // Insertion, where no branch continues the key: a further child.
    method InsertChild(t: Node, x: Node, key: Str, keyPos: nat, ghost S: set<Node>)
      requires Holds(S) && root != null && t in nodes && t in paths && keyPos < |key| && paths[t] == key[..keyPos]
      requires key[keyPos] !in t.branches && x in S && x !in nodes && x.valid && x.branches == map[]
      modifies `nodes, `paths, S`skey, S`branches, S`parent
      ensures Holds(S) && nodes == old(nodes) + {x} && x in paths && paths[x] == key && x.valid
      ensures Keys(Snapshot(S), nodes, paths) == old(Keys(Snapshot(S), nodes, paths)) + {key}
      ensures PathsKept(old(nodes), old(paths), paths)
    {
      hide IsRadix, IsCompressed, Snapshot, Keys, Added;
      ghost var m := Snapshot(S);
      var rest := key[keyPos..];
      assert paths[t] + rest == key;
      SnapshotAt(S, t);
      SnapshotAt(S, x);
      AddKeeps(m, nodes, paths, root, t, x, rest);
      AddSets(m, nodes, paths, root, t, x, rest);
      AddNode(t, x, rest, S);
      SnapshotAt(S, x);
      nodes, paths := nodes + {x}, paths[x := key];
    }

    // Insertion, where the key ends inside the label of t: a new parent.
    method InsertAbove(t: Node, x: Node, key: Str, pos: nat, ghost S: set<Node>)
      requires Holds(S) && root != null && t in nodes && t in paths && pos < |t.skey| && (pos == 0 ==> t.parent == null)
      requires |t.skey| <= |paths[t]| && key == paths[t][..|paths[t]| - |t.skey| + pos] && key != []
      requires x in S && x !in nodes && x.valid && x.branches == map[]
      modifies `root, `nodes, `paths, S`skey, S`branches, S`parent
      ensures Holds(S) && nodes == old(nodes) + {x} && x in paths && paths[x] == key && x.valid
      ensures Keys(Snapshot(S), nodes, paths) == old(Keys(Snapshot(S), nodes, paths)) + {key}
      ensures PathsKept(old(nodes), old(paths), paths)
    {
      hide IsRadix, IsCompressed, Snapshot, Keys, Added, CutAdded, NodesKept, IsBranch;
      ghost var m := Snapshot(S);
      SnapshotAt(S, t);
      SnapshotAt(S, x);
      SplitAll(m, nodes, paths, root, t, x, pos);
      var k := t.skey;
      CutAndAdd(t, x, k[..pos], S);
      AddNode(x, t, k[pos..], S);
      assert Snapshot(S) == SplitAt(m, t, x, pos);
      SnapshotAt(S, x);
      nodes, paths := nodes + {x}, SplitPaths(m, paths, t, x, pos);
    }

    // Insertion, where key and label part: a node that splits, with two children.
    method InsertBeside(t: Node, d: Node, x: Node, key: Str, pos: nat, keyPos: nat, ghost S: set<Node>)
      requires Holds(S) && root != null && t in nodes && t in paths && pos < |t.skey| && (pos == 0 ==> t.parent == null)
      requires |t.skey| <= |paths[t]| && keyPos == |paths[t]| - |t.skey| + pos && keyPos < |key|
      requires paths[t][..keyPos] == key[..keyPos] && t.skey[pos] != key[keyPos]
      requires x in S && x !in nodes && x.valid && x.branches == map[] && d in S && d !in nodes && d != x
      modifies `root, `nodes, `paths, S`skey, S`branches, S`parent, d`valid
      ensures Holds(S) && nodes == old(nodes) + {d} + {x} && x in paths && paths[x] == key && x.valid
      ensures Keys(Snapshot(S), nodes, paths) == old(Keys(Snapshot(S), nodes, paths)) + {key}
      ensures !d.valid
      ensures PathsKept(old(nodes), old(paths), paths)
    {
      hide IsRadix, IsCompressed, Snapshot, Keys, Added, CutAdded, NodesKept, IsBranch;
      SnapshotAt(S, x);
      Clear(d, S);
      SnapshotAt(S, t);
      ParentIs(Snapshot(S), nodes, paths, root, t);
      SplitOff(t, d, pos, S);
      SnapshotAt(S, d);
      SnapshotAt(S, x);
      InsertBranch(d, x, key, keyPos, S);
    }

    method Clear(d: Node, ghost S: set<Node>)
      requires Holds(S) && d in S && d !in nodes
      modifies d`branches, d`valid
      ensures Holds(S) && d.branches == map[] && !d.valid
      ensures Keys(Snapshot(S), nodes, paths) == old(Keys(Snapshot(S), nodes, paths))
    {
      hide IsRadix, IsCompressed, Snapshot, Keys;
      ghost var m := Snapshot(S);
      d.SetBranches(map[], S);
      OnlyOutside(m, Snapshot(S), nodes, paths, root);
      Invalidate(d, S);
    }

    method SplitOff(t: Node, d: Node, pos: nat, ghost S: set<Node>)
      requires Holds(S) && root != null && t in nodes && t in paths && pos < |t.skey| <= |paths[t]|
          && (pos == 0 ==> t.parent == null)
      requires d in S && d !in nodes && !d.valid && d.branches == map[]
      modifies `root, `nodes, `paths, d`skey, d`branches, d`parent, t`skey, t`parent,
          (set p | p in S && p == t.parent)`branches
      ensures nodes == old(nodes) + {d}
          && paths == old(paths)[d := old(paths)[t][..|old(paths)[t]| - |old(t.skey)| + pos]]
      ensures root != null && nodes <= S && IsRadix(Snapshot(S), nodes, paths, root)
          && IsCompressed(Snapshot(S), nodes - {d})
      ensures Keys(Snapshot(S), nodes, paths) == old(Keys(Snapshot(S), nodes, paths))
      ensures d.branches.Keys == {old(t.skey)[pos]} && !d.valid
    {
      hide IsRadix, IsCompressed, Snapshot, Keys, Added, CutAdded, NodesKept, IsBranch;
      ghost var m := Snapshot(S);
      SnapshotAt(S, t);
      SnapshotAt(S, d);
      SplitAll(m, nodes, paths, root, t, d, pos);
      var k := t.skey;
      CutAndAdd(t, d, k[..pos], S);
      AddNode(d, t, k[pos..], S);
      SnapshotAt(S, d);
      assert nodes == nodes + {d} - {d};
      nodes, paths := nodes + {d}, SplitPaths(m, paths, t, d, pos);
    }

    // A second child for a node that splits.
    method InsertBranch(d: Node, x: Node, key: Str, keyPos: nat, ghost S: set<Node>)
      requires root != null && nodes <= S && IsRadix(Snapshot(S), nodes, paths, root)
          && IsCompressed(Snapshot(S), nodes - {d})
      requires d in nodes && d in paths && keyPos < |key| && paths[d] == key[..keyPos] && |d.branches.Keys| == 1
      requires key[keyPos] !in d.branches && x in S && x !in nodes && x.valid && x.branches == map[]
      modifies `nodes, `paths, d`branches, x`skey, x`parent
      ensures Holds(S) && nodes == old(nodes) + {x} && x in paths && paths[x] == key && x.valid
      ensures Keys(Snapshot(S), nodes, paths) == old(Keys(Snapshot(S), nodes, paths)) + {key}
      ensures PathsKept(old(nodes), old(paths), paths)
    {
      hide IsRadix, IsCompressed, Snapshot, Keys, Added;
      ghost var m := Snapshot(S);
      var rest := key[keyPos..];
      assert paths[d] + rest == key;
      SnapshotAt(S, d);
      SnapshotAt(S, x);
      AddKeeps(m, nodes, paths, root, d, x, rest);
      AddSets(m, nodes, paths, root, d, x, rest);
      AddFills(m, nodes, paths, root, d, x, rest);
      AddNode(d, x, rest, S);
      SnapshotAt(S, x);
      nodes, paths := nodes + {x}, paths[x := key];
    }

    // `rt_insert_node`. The dummy node is used up exactly when it has become a
    // node that splits, and a node that split before is handed out exactly when
    // the new node has taken its place.
    method InsertNode(x: Node, arg: Arg) returns (r: Node?)
      requires Valid() && x !in nodes && x.skey != [] && x.branches == map[] && x.parent == null && x.valid
      requires arg.dummy != null && arg.dummy !in nodes && arg.dummy != x && arg.extra == null
      modifies this, arg, nodes`skey, nodes`branches, nodes`parent, x`skey, x`branches, x`parent
      modifies arg.dummy`skey, arg.dummy`branches, arg.dummy`parent, arg.dummy`valid
      ensures Valid() && Strings() == old(Strings()) + {old(x.skey)}
      ensures r != null ==> IsThere(r, old(x.skey)) && old(x.skey) in old(Strings())
      ensures r != null ==> nodes == old(nodes) && root == old(root) && paths == old(paths)
      ensures r != null ==> Snapshot(nodes) == old(Snapshot(nodes)) && arg.dummy == old(arg.dummy) && arg.extra == null
      ensures r == null ==> IsThere(x, old(x.skey)) && old(x.skey) !in old(Strings())
      ensures r == null ==> nodes == old(nodes) + {x} + (if arg.dummy == null then {old(arg.dummy)} else {})
                                     - (if arg.extra == null then {} else {arg.extra})
      ensures arg.extra != null ==> arg.dummy != null && arg.extra in old(nodes) && !arg.extra.valid
      ensures arg.extra != null ==> arg.extra in old(paths) && old(paths)[arg.extra] == old(x.skey)
      ensures arg.dummy == null || arg.dummy == old(arg.dummy)
      ensures old(NoWcs(nodes) && x.wcNode == null && arg.dummy.wcNode == null) ==> NoWcs(nodes)
      ensures arg.dummy == null ==> !old(arg.dummy).valid
      ensures PathsKept(old(nodes), old(paths), paths)
    {
      hide IsRadix, IsCompressed, Snapshot, Keys, NoWcs;
      ghost var S := nodes + {x} + {arg.dummy};
      OneMoreHasNoWcs(nodes, x);
      OneMoreHasNoWcs(nodes + {x}, arg.dummy);
      ValidIn(S);
      r := PutIn(x, arg.dummy, arg, S);
      ValidIn(S);
      PartHasNoWcs(S, nodes);
    }

    // The node stands for this string.
    ghost predicate IsThere(x: Node, key: Str)
      reads this, x
    {
      x in nodes && x.valid && x in paths && paths[x] == key
    }

    // The cases of an insertion.
    method PutIn(x: Node, d: Node, arg: Arg, ghost S: set<Node>) returns (r: Node?)
      requires Valid() && Holds(S) && x !in nodes && x.skey != [] && x.branches == map[] && x.parent == null && x.valid
      requires arg.dummy == d && d !in nodes && d != x && arg.extra == null && x in S && d in S
      modifies `root, `nodes, `paths, arg, S`skey, S`branches, S`parent, d`valid
      ensures Holds(S) && Keys(Snapshot(S), nodes, paths) == old(Keys(Snapshot(S), nodes, paths)) + {old(x.skey)}
      ensures r != null ==> IsThere(r, old(x.skey)) && old(x.skey) in old(Keys(Snapshot(S), nodes, paths))
      ensures r != null ==> nodes == old(nodes) && root == old(root) && paths == old(paths)
      ensures r != null ==> Snapshot(nodes) == old(Snapshot(nodes)) && arg.dummy == d && arg.extra == null
      ensures r == null ==> IsThere(x, old(x.skey)) && old(x.skey) !in old(Keys(Snapshot(S), nodes, paths))
      ensures r == null ==> nodes == old(nodes) + {x} + (if arg.dummy == null then {d} else {})
                                     - (if arg.extra == null then {} else {arg.extra})
      ensures arg.extra != null ==> arg.dummy != null && arg.extra in old(nodes) && !arg.extra.valid
      ensures arg.extra != null ==> arg.extra in old(paths) && old(paths)[arg.extra] == old(x.skey)
      ensures arg.dummy == null || arg.dummy == d
      ensures arg.dummy == null ==> !d.valid
      ensures PathsKept(old(nodes), old(paths), paths)
    {
      hide IsRadix, IsCompressed, Snapshot, Keys, IsEnd, OnWay, IsAbsent;
      var key := x.skey;
      ValidIn(S);
      r := null;
      if root == null {
        FirstNode(x, key, S);
      } else {
        var t, pos, keyPos := Descend(key);
        EndFacts(Snapshot(nodes), nodes, paths, root, t, key, pos, keyPos);
        SnapshotAt(nodes, t);
        if pos == |t.skey| && keyPos == |key| {
          if t.valid {
            r := t;
          } else {
            InsertHere(t, x, key, arg, S);
          }
        } else if pos == |t.skey| {
          InsertChild(t, x, key, keyPos, S);
        } else if keyPos == |key| {
          InsertAbove(t, x, key, pos, S);
        } else {
          InsertBeside(t, d, x, key, pos, keyPos, S);
          arg.dummy := null;
        }
      }
    }

    method FirstNode(x: Node, key: Str, ghost S: set<Node>)
      requires Holds(S) && root == null && x in S && x.skey == key && key != [] && x.branches == map[]
          && x.parent == null && x.valid
      modifies `root, `nodes, `paths
      ensures Holds(S) && nodes == {x} && x in paths && paths[x] == key
      ensures Keys(Snapshot(S), nodes, paths) == {key} && old(Keys(Snapshot(S), nodes, paths)) == {} && old(nodes) == {}
      ensures PathsKept(old(nodes), old(paths), paths)
    {
      root, nodes, paths := x, {x}, map[x := key];
      SnapshotAt(S, x);
      assert NodeOk(Snapshot(S), nodes, paths, root, x);
    }

    // One child is left: it takes over the part of the path that x stood for.
    method MergeInto(x: Node, ghost S: set<Node>) returns (t: Node)
      requires root != null && nodes <= S && IsRadix(Snapshot(S), nodes, paths, root)
          && IsCompressed(Snapshot(S), nodes - {x})
      requires x in nodes && x in paths && |x.branches.Keys| == 1
      modifies `root, `nodes, S`skey, S`branches, S`parent
      ensures Holds(S) && nodes == old(nodes) - {x} && t in nodes && root != null
      ensures Keys(Snapshot(S), nodes, paths) == if old(x.valid) then old(Keys(Snapshot(S), nodes, paths)) - {paths[x]}
                                                 else old(Keys(Snapshot(S), nodes, paths))
      ensures x.parent == old(x.parent) && (x.parent != null ==> x.parent in nodes)
    {
      hide IsRadix, IsCompressed, Snapshot, Keys, CutAdded, IsBranch;
      ghost var m := Snapshot(S);
      SnapshotAt(S, x);
      ghost var k := AnyOf(x.branches.Keys);
      if c :| c in x.branches {
        t := x.branches[c];
        MergeAll(m, nodes, paths, root, x, c);
        SnapshotAt(S, t);
        CutAndAdd(x, t, x.skey + t.skey, S);
        nodes := nodes - {x};
      } else {
        assert false;
        t := x;
      }
    }

    // Removal of a leaf that has a parent.
    method RemoveLeaf(x: Node, p: Node, arg: Arg, ghost S: set<Node>)
      requires Holds(S) && root != null && x in nodes && x in paths && x.branches == map[] && x.parent == p
          && arg.extra == null
      modifies `root, `nodes, arg`extra, S`skey, S`branches, S`parent
      ensures Holds(S) && Keys(Snapshot(S), nodes, paths) == old(Keys(Snapshot(S), nodes, paths)) - {paths[x]}
      ensures arg.extra == if !old(p.valid) && old(|p.branches.Keys|) == 2 then p else null
      ensures nodes == old(nodes) - {x} - (if arg.extra == null then {} else {arg.extra}) && p in old(nodes)
    {
      hide IsRadix, IsCompressed, Snapshot, Keys;
      ghost var m := Snapshot(S);
      SnapshotAt(S, x);
      ParentIs(m, nodes, paths, root, x);
      DropAll(m, nodes, paths, root, x);
      SnapshotAt(S, p);
      FullIs(m, nodes, p);
      p.SetBranches(p.branches - {x.skey[0]}, S);
      nodes := nodes - {x};
      assert Snapshot(S) == Dropped(m, x);
      SnapshotAt(S, p);
      if p.valid || RbShape.AtMostTwo(|p.branches.Keys|) > 1 {
        return;
      }
      var t := MergeInto(p, S);
      arg.extra := p;
    }

    // Removal of the only node.
    method RemoveLast(x: Node, ghost S: set<Node>)
      requires Holds(S) && x in nodes && x in paths && x.branches == map[] && x == root
      modifies `root, `nodes
      ensures Holds(S) && nodes == {} && old(nodes) == {x}
      ensures Keys(Snapshot(S), nodes, paths) == old(Keys(Snapshot(S), nodes, paths)) - {paths[x]}
    {
      hide Snapshot;
      SnapshotAt(S, x);
      OnlyNode(Snapshot(S), nodes, paths, x);
      root, nodes := null, {};
    }

    // Removal of a node with one child.
    method RemoveBetween(x: Node, ghost S: set<Node>)
      requires Holds(S) && root != null && x in nodes && x in paths && |x.branches.Keys| == 1
      modifies `root, `nodes, S`skey, S`branches, S`parent
      ensures Holds(S) && nodes == old(nodes) - {x}
      ensures Keys(Snapshot(S), nodes, paths) == old(Keys(Snapshot(S), nodes, paths)) - {paths[x]}
    {
      hide IsRadix, Snapshot, Keys;
      SnapshotAt(S, x);
      FullIs(Snapshot(S), nodes, x);
      var t := MergeInto(x, S);
      if x.parent != null {
        SnapshotAt(S, x.parent);
        AdoptedAlready(Snapshot(S), nodes, paths, root, x.parent);
        UpdateChildren(x.parent, S);
      }
    }

    // `set_rt_invalid` on a node that is not in the tree
    method Invalidate(d: Node, ghost S: set<Node>)
      requires Holds(S) && d in S && d !in nodes
      modifies d`valid
      ensures Holds(S) && !d.valid && Keys(Snapshot(S), nodes, paths) == old(Keys(Snapshot(S), nodes, paths))
    {
      hide IsRadix, IsCompressed, Snapshot, Keys;
      ghost var m := Snapshot(S);
      d.SetValid(false, S);
      OnlyOutside(m, Snapshot(S), nodes, paths, root);
    }

    // Removal of a node with several children: the dummy node takes its place.
    method RemoveSplitting(x: Node, d: Node, ghost S: set<Node>)
      requires Holds(S) && root != null && x in nodes && x in paths && 2 <= |x.branches.Keys| && d in S && d !in nodes
      modifies `root, `nodes, `paths, S`skey, S`branches, S`parent, d`valid
      ensures Holds(S) && nodes == old(nodes) - {x} + {d}
      ensures Keys(Snapshot(S), nodes, paths) == old(Keys(Snapshot(S), nodes, paths)) - {old(paths)[x]}
      ensures PathsKept(old(nodes), old(paths), paths)
    {
      hide IsRadix, IsCompressed, Snapshot, Keys;
      Invalidate(d, S);
      TakeOver(x, d, S);
    }

    // A leaf whose parent only splits, with one other child.
    ghost predicate LeavesOne(x: Node)
      reads x, x.parent
    {
      x.branches == map[] && x.parent != null && !x.parent.valid && |x.parent.branches.Keys| == 2
    }

    // `rt_remove_node`. The dummy node is used up exactly when the removed node
    // had two children or more, and a node that split is handed out exactly when
    // the removed leaf leaves it with one child.
    method RemoveNode(x: Node, arg: Arg) returns (r: Node)
      requires Valid() && x in nodes && x in paths
      requires arg.dummy != null && arg.dummy !in nodes && arg.extra == null
      modifies this, arg, nodes`skey, nodes`branches, nodes`parent
      modifies arg.dummy`skey, arg.dummy`branches, arg.dummy`parent, arg.dummy`valid
      ensures r == x && x !in nodes
      ensures arg.dummy == if old(|x.branches.Keys|) >= 2 then null else old(arg.dummy)
      ensures arg.extra == if old(LeavesOne(x)) then old(x.parent) else null
      ensures nodes == old(nodes) - {x} - (if arg.extra == null then {} else {arg.extra})
                       + (if arg.dummy == null then {old(arg.dummy)} else {})
      ensures Valid() && Strings() == old(Strings()) - {old(paths)[x]}
      ensures old(NoWcs(nodes) && arg.dummy.wcNode == null) ==> NoWcs(nodes)
      ensures PathsKept(old(nodes), old(paths), paths)
    {
      hide IsRadix, IsCompressed, Snapshot, Keys, NoWcs;
      ghost var S := nodes + {arg.dummy};
      OneMoreHasNoWcs(nodes, arg.dummy);
      ValidIn(S);
      TakeOut(x, arg.dummy, arg, S);
      r := x;
      ValidIn(S);
      PartHasNoWcs(S, nodes);
    }

    // The cases of a removal.
    method TakeOut(x: Node, d: Node, arg: Arg, ghost S: set<Node>)
      requires Holds(S) && x in nodes && x in paths && arg.dummy == d && d in S && d !in nodes && arg.extra == null
      modifies `root, `nodes, `paths, arg, S`skey, S`branches, S`parent, d`valid
      ensures Holds(S) && x !in nodes
      ensures Keys(Snapshot(S), nodes, paths) == old(Keys(Snapshot(S), nodes, paths)) - {old(paths)[x]}
      ensures arg.dummy == if old(|x.branches.Keys|) >= 2 then null else d
      ensures arg.extra == if old(LeavesOne(x)) then old(x.parent) else null
      ensures nodes == old(nodes) - {x} - (if arg.extra == null then {} else {arg.extra})
                       + (if arg.dummy == null then {d} else {})
      ensures PathsKept(old(nodes), old(paths), paths)
    {
      hide IsRadix, IsCompressed, Snapshot, Keys;
      var p := x.parent;
      NotEmptyRoot(Snapshot(S), nodes, paths, root);
      SnapshotAt(S, x);
      ParentIs(Snapshot(S), nodes, paths, root, x);
      NoBranches(x.branches);
      if x.branches == map[] {
        if p != null {
          RemoveLeaf(x, p, arg, S);
        } else {
          RemoveLast(x, S);
        }
      } else if RbShape.AtMostTwo(|x.branches.Keys|) == 1 {
        RemoveBetween(x, S);
      } else {
        RemoveSplitting(x, d, S);
        arg.dummy := null;
      }
    }

    // `rt_remove`. It may hand out a node that only split, when the key is not
    // in the set but ends where that node does.
    method Remove(key: Str, arg: Arg) returns (r: Node?)
      requires Valid() && key != []
      requires arg.dummy != null && arg.dummy !in nodes && arg.extra == null
      modifies this, arg, nodes`skey, nodes`branches, nodes`parent
      modifies arg.dummy`skey, arg.dummy`branches, arg.dummy`parent, arg.dummy`valid
      ensures Valid() && Strings() == old(Strings()) - {key}
      ensures r == null ==> nodes == old(nodes) && arg.dummy == old(arg.dummy) && IsAbsent(old(nodes), old(paths), key)
      ensures r != null ==> r in old(nodes) && r in old(paths) && old(paths)[r] == key && r !in nodes
      ensures key in old(Strings()) ==> r != null && old(r.valid)
      ensures r != null ==>
                && arg.dummy == (if old(|r.branches.Keys|) >= 2 then null else old(arg.dummy))
                && arg.extra == (if old(LeavesOne(r)) then old(r.parent) else null)
                && nodes == old(nodes) - {r} - (if arg.extra == null then {} else {arg.extra})
                            + (if arg.dummy == null then {old(arg.dummy)} else {})
                && PathsKept(old(nodes), old(paths), paths)
      ensures old(NoWcs(nodes) && arg.dummy.wcNode == null) ==> NoWcs(nodes)
    {
      hide IsRadix, IsCompressed, Snapshot, Keys, IsAbsent, NoWcs, PathsKept, LeavesOne;
      r := Search(key);
      if r != null {
        var x := RemoveNode(r, arg);
      }
    }

    // Nodes that only split are always fewer than strings, so that one of them
    // for each insertion is enough.
    lemma {:induction false} SplitsAreFew()
      requires Valid() && nodes != {}
      ensures |Splits(Snapshot(nodes), nodes)| < |Ends(Snapshot(nodes), nodes)|
      ensures |Ends(Snapshot(nodes), nodes)| == |Strings()|
    {
      hide IsRadix, IsCompressed, Snapshot, Keys;
      FewSplits(Snapshot(nodes), nodes, paths, root);
      OneNodeEach(Snapshot(nodes), nodes, paths, root);
    }
  }

  lemma {:induction false} NoBranches<X, Y>(b: map<X, Y>)
    ensures b == map[] <==> |b.Keys| == 0
  {
    if |b.Keys| == 0 {
      assert forall k :: k !in b.Keys;
      assert b == map[];
    }
  }

  // A root without children is the only node.
  lemma {:induction false} OnlyNode(m: Memory, N: set<Node>, P: Paths, root: Node)
    requires IsRadix(m, N, P, root) && root in m && root in P && m[root].branches == map[]
    ensures N == {root} && Keys(m, N, P) - {P[root]} == {}
  {
    hide IsRadix;
    RootIs(m, N, P, root);
    forall z | z in N ensures z == root {
      NodeIs(m, N, P, root, z);
      RootIsLeast(m, N, P, root, z);
      Divide(m, N, P, root, root, z);
    }
  }

  lemma {:induction false} EndFacts(m: Memory, N: set<Node>, P: Paths, root: Node, t: Node, key: Str, pos: nat,
        keyPos: nat)
    requires IsRadix(m, N, P, root) && t in N && IsEnd(m, N, P, t, key, pos, keyPos)
    ensures t in m && t in P && |m[t].skey| <= |P[t]| && pos <= |m[t].skey| && keyPos <= |key|
    ensures keyPos == |P[t]| - |m[t].skey| + pos && P[t][..keyPos] == key[..keyPos]
    ensures pos == |m[t].skey| && keyPos < |key| ==> key[keyPos] !in m[t].branches && P[t] == key[..keyPos]
    ensures pos < |m[t].skey| && keyPos < |key| ==> m[t].skey[pos] != key[keyPos]
    ensures pos < |m[t].skey| && pos == 0 ==> m[t].parent == null
    ensures pos < |m[t].skey| && keyPos == |key| ==> key == P[t][..|P[t]| - |m[t].skey| + pos]
    ensures if pos == |m[t].skey| && keyPos == |key| then P[t] == key
        && (m[t].valid <==> key in Keys(m, N, P)) else key !in Keys(m, N, P)
  {
    hide IsRadix, OnWay;
    PathEnds(m, N, P, root, t);
    var k := m[t].skey;
    if pos < |k| {
      assert P[t][keyPos] == k[pos];
      DeadEnd(m, N, P, root, t, key);
    } else if keyPos < |key| {
      DeadEnd(m, N, P, root, t, key);
    } else {
      KeyFound(m, N, P, root, t, key);
    }
    if !(pos == |k| && keyPos == |key|) {
      KeyFound(m, N, P, root, null, key);
    }
  }

  // Nodes that are not in the tree do not matter.
  lemma {:induction false} OnlyOutside(m: Memory, m': Memory, N: set<Node>, P: Paths, root: Node?)
    requires IsRadix(m, N, P, root) && IsCompressed(m, N)
    requires forall z :: z in N && z in m ==> z in m' && m'[z] == m[z]
    ensures IsRadix(m', N, P, root) && IsCompressed(m', N) && Keys(m', N, P) == Keys(m, N, P)
  {
    hide IsRadix, NodeOk;
    forall x | x in N ensures x in m { NodeIs(m, N, P, root, x); }
    if root != null {
      forall x | x in N ensures NodeOk(m', N, P, root, x) {
        NodeFrame(m, m', N, P, root, x);
      }
      RootIs(m, N, P, root);
      AllOk(m', N, P, root);
    } else {
      NoNodes(m, m', N, P);
    }
    forall x | x in N ensures IsFull(m', x) {
      assert IsFull(m, x);
    }
  }

  lemma {:induction false} AllAdopted(m: Memory, a: map<Elem, Node>, b: map<Elem, Node>, n: Node)
    requires forall k :: (k in a <==> k in b) && (k in a ==> a[k] == b[k])
    ensures Adopted(m, a, n) == Adopted(m, b, n)
  {
    forall z ensures z in Kids(a) <==> z in Kids(b) {
      if z in Kids(a) {
        var c := KeyOf(a, z);
        KidOf(b, c);
      }
      if z in Kids(b) {
        var c := KeyOf(b, z);
        KidOf(a, c);
      }
    }
  }

  lemma {:induction false} NoneAdopted(m: Memory, n: Node)
    ensures Adopted(m, map[], n) == m
  {}

  lemma {:induction false} OneAdopted(m: Memory, b: map<Elem, Node>, k: Elem, y: Node, n: Node)
    requires k in b ==> b[k] == y
    ensures Adopted(m, b[k := y], n) == PutParent(Adopted(m, b, n), y, n)
  {
    var b' := b[k := y];
    KidOf(b', k);
    forall z ensures z in Kids(b') <==> z in Kids(b) || z == y {
      if z in Kids(b') && z != y {
        var c := KeyOf(b', z);
        KidOf(b, c);
      }
      if z in Kids(b) {
        var c := KeyOf(b, z);
        KidOf(b', c);
      }
    }
  }

  // Where a descent ends: at the end of the key, at a missing branch, or inside
  // a label.
  ghost predicate IsEnd(m: Memory, N: set<Node>, P: Paths, t: Node, key: Str, pos: nat, keyPos: nat) {
    && t in m && t in P && |m[t].skey| <= |P[t]| && pos <= |m[t].skey| && keyPos <= |key|
    && keyPos == |P[t]| - |m[t].skey| + pos && P[t][..keyPos] == key[..keyPos] && OnWay(N, P, key, t)
    && (pos == |m[t].skey| && keyPos < |key| ==> key[keyPos] !in m[t].branches)
    && (pos < |m[t].skey| && keyPos < |key| ==> m[t].skey[pos] != key[keyPos])
    && (m[t].skey == [] || 0 < pos || m[t].parent == null)
  }

  // The key agrees with the path of t up to the beginning of its label.
  ghost predicate IsOpen(m: Memory, N: set<Node>, P: Paths, t: Node, key: Str, keyPos: nat) {
    && t in N && t in m && t in P && OnWay(N, P, key, t) && keyPos < |key|
    && |m[t].skey| <= |P[t]| && keyPos == |P[t]| - |m[t].skey| && P[t][..keyPos] == key[..keyPos]
    && (m[t].skey == [] ==> keyPos == 0 && P[t] == [])
    && (m[t].parent != null ==> m[t].skey != [] && m[t].skey[0] == key[keyPos])
  }

  lemma {:induction false} OpenRoot(m: Memory, N: set<Node>, P: Paths, root: Node, key: Str)
    requires IsRadix(m, N, P, root) && key != []
    ensures root in N && root in m && root in P && IsOpen(m, N, P, root, key, 0)
    ensures m[root].skey == [] ==> P[root] == [] && OnWay(N, P, key, root)
  {
    hide IsRadix, OnWay;
    RootIs(m, N, P, root);
    RootOnWay(m, N, P, root, key);
    PathEnds(m, N, P, root, root);
  }

  lemma {:induction false} OpenFacts(m: Memory, N: set<Node>, P: Paths, t: Node, key: Str, keyPos: nat)
    requires IsOpen(m, N, P, t, key, keyPos)
    ensures t in N && t in m && t in P && OnWay(N, P, key, t) && keyPos < |key|
  {}

  lemma {:induction false} MatchEnd(m: Memory, N: set<Node>, P: Paths, root: Node?, t: Node, key: Str, keyPos: nat,
        i: nat)
    requires IsRadix(m, N, P, root) && IsOpen(m, N, P, t, key, keyPos)
    requires i <= |m[t].skey| && keyPos + i <= |key| && m[t].skey[..i] == key[keyPos..keyPos + i]
    requires i == |m[t].skey| || keyPos + i == |key| || m[t].skey[i] != key[keyPos + i]
    ensures i == |m[t].skey| && keyPos + i < |key| ==> P[t] < key && |P[t]| == keyPos + i
    ensures i == |m[t].skey| && keyPos + i == |key| ==> P[t] == key
    ensures i < |m[t].skey| ==> !(P[t] <= key)
    ensures (i == |m[t].skey| && keyPos + i < |key| ==> key[keyPos + i] !in m[t].branches)
        ==> IsEnd(m, N, P, t, key, i, keyPos + i)
    ensures m[t].skey == [] || i > 0 || m[t].parent == null
  {
    hide IsRadix, OnWay;
    PathEnds(m, N, P, root, t);
    MatchPath(P[t], m[t].skey, key, keyPos, i);
  }

  lemma {:induction false} EmptyTree(m: Memory, N: set<Node>, P: Paths, key: Str)
    requires IsRadix(m, N, P, null)
    ensures IsAbsent(N, P, key) && Keys(m, N, P) == {} && N == {}
  {}

  lemma {:induction false} KeyFound(m: Memory, N: set<Node>, P: Paths, root: Node?, t: Node?, key: Str)
    requires IsRadix(m, N, P, root)
    requires t == null ==> IsAbsent(N, P, key)
    requires t != null ==> t in N && t in m && t in P && P[t] == key
    ensures key in Keys(m, N, P) <==> t != null && m[t].valid
  {
    hide IsRadix;
    if t != null {
      forall x | x in N && x in m && x in P && P[x] == key ensures x == t {
        Divide(m, N, P, root, x, t);
      }
    }
  }
}
