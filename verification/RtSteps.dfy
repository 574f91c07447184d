// The five changes that insertion, removal and splitting make to a radix tree.
// Each keeps the tree in order, and none changes the path of a node.
module RtSteps {
  import opened RtLinks

  // Parent, label and path of a node are what they were.
  ghost predicate SameHead(m: Memory, m': Memory, P: Paths, P': Paths, y: Node) {
    && y in m && y in m' && m'[y].parent == m[y].parent && m'[y].skey == m[y].skey
    && y in P && y in P' && P'[y] == P[y]
  }

  // All nodes but those in T keep their heads.
  ghost predicate HeadsKept(m: Memory, m': Memory, N: set<Node>, N': set<Node>, P: Paths, P': Paths, T: set<Node>) {
    forall y {:trigger SameHead(m, m', P, P', y)} :: y in N && y !in T ==> y in N' && SameHead(m, m', P, P', y)
  }

  // The parent's side of the link to z.
  ghost predicate HangsFrom(m: Memory, N: set<Node>, P: Paths, root: Node?, z: Node, p: Node?) {
    && z in m && z in P
    && (p == null ==> z == root)
    && (p != null ==>
          && z != root && p in N && p in m && p in P && m[z].skey != []
          && m[z].skey[0] in m[p].branches && m[p].branches[m[z].skey[0]] == z && P[z] == P[p] + m[z].skey)
  }

  // Links to children that keep their heads stay in order.
  lemma {:induction false} DownKept(m: Memory, m': Memory, N: set<Node>, N': set<Node>, P: Paths, P': Paths,
        T: set<Node>, z: Node)
    requires DownOk(m, N, P, z) && HeadsKept(m, m', N, N', P, P', T)
    requires z in m' && m'[z].branches == m[z].branches && z in P' && z in P && P'[z] == P[z]
    requires forall y :: y in T && y in N ==> y in m && m[y].parent != z
    ensures DownOk(m', N', P', z)
  {
    forall c | c in m'[z].branches ensures LinkOk(m', N', P', z, c) {
      assert LinkOk(m, N, P, z, c);
      assert SameHead(m, m', P, P', m[z].branches[c]);
    }
  }

  // A node that has not changed is in order when its links from above are.
  lemma {:induction false} Kept(m: Memory, m': Memory, N: set<Node>, N': set<Node>, P: Paths, P': Paths, root: Node?,
        root': Node?, T: set<Node>, z: Node)
    requires NodeOk(m, N, P, root, z) && z !in T && z in N
    requires HeadsKept(m, m', N, N', P, P', T)
    requires z in m' && m'[z].branches == m[z].branches && m'[z].valid == m[z].valid
    requires forall y :: y in T && y in N ==> y in m && m[y].parent != z
    requires HangsFrom(m', N', P', root', z, m[z].parent)
    ensures NodeOk(m', N', P', root', z)
  {
    hide DownOk, HeadsKept;
    assert SameHead(m, m', P, P', z) by { HeadOf(m, m', N, N', P, P', T, z); }
    DownKept(m, m', N, N', P, P', T, z);
  }

  lemma {:induction false} HeadOf(m: Memory, m': Memory, N: set<Node>, N': set<Node>, P: Paths, P': Paths, T: set<Node>,
        z: Node)
    requires HeadsKept(m, m', N, N', P, P', T) && z in N && z !in T
    ensures SameHead(m, m', P, P', z) && z in N'
  {}

  // ------------------------------------------------------------ a further child

  // The memory after `add_rt_node`.
  function Added(m: Memory, p: Node, c: Node, key: Str): Memory
    requires key != []
  {
    var m1 := PutKey(PutParent(m, c, p), c, key);
    if p !in m1 then m1 else PutBranches(m1, p, m1[p].branches[key[0] := c])
  }

  lemma {:induction false} AddKeeps(m: Memory, N: set<Node>, P: Paths, root: Node, t: Node, x: Node, key: Str)
    requires IsRadix(m, N, P, root) && t in N && x in m && x !in N && m[x].branches == map[]
    requires key != [] && t in m && t in P && key[0] !in m[t].branches
    ensures IsRadix(Added(m, t, x, key), N + {x}, P[x := P[t] + key], root)
  {
    hide IsRadix;
    var m', N', P' := Added(m, t, x, key), N + {x}, P[x := P[t] + key];
    RootIs(m, N, P, root);
    assert HeadsKept(m, m', N, N', P, P', {}) by { AddHeads(m, N, P, root, t, x, key); }
    forall z | z in N' ensures NodeOk(m', N', P', root, z) {
      if z == x {
        NodeIs(m, N, P, root, t);
        assert UpOk(m', N', P', root, x);
      } else if z == t {
        AddParent(m, N, P, root, t, x, key);
      } else {
        NodeIs(m, N, P, root, z);
        if m[z].parent != null {
          NodeIs(m, N, P, root, m[z].parent);
        }
        Kept(m, m', N, N', P, P', root, root, {}, z);
      }
    }
    AllOk(m', N', P', root);
  }

  lemma {:induction false} RootIs(m: Memory, N: set<Node>, P: Paths, root: Node)
    requires IsRadix(m, N, P, root)
    ensures root in N && root in m && m[root].parent == null
  {}

  lemma {:induction false} AllOk(m: Memory, N: set<Node>, P: Paths, root: Node?)
    requires root != null && root in N && root in m && m[root].parent == null
    requires forall x {:trigger NodeOk(m, N, P, root, x)} :: x in N ==> NodeOk(m, N, P, root, x)
    ensures IsRadix(m, N, P, root)
  {}

  lemma {:induction false} AddHeads(m: Memory, N: set<Node>, P: Paths, root: Node, t: Node, x: Node, key: Str)
    requires IsRadix(m, N, P, root) && t in N && x in m && x !in N && key != [] && t in m && t in P
    ensures HeadsKept(m, Added(m, t, x, key), N, N + {x}, P, P[x := P[t] + key], {})
  {
    forall y | y in N ensures y in m && y in P { NodeIs(m, N, P, root, y); }
  }

  lemma {:induction false} AddParent(m: Memory, N: set<Node>, P: Paths, root: Node, t: Node, x: Node, key: Str)
    requires IsRadix(m, N, P, root) && t in N && x in m && x !in N
    requires key != [] && t in m && t in P && key[0] !in m[t].branches
    ensures NodeOk(Added(m, t, x, key), N + {x}, P[x := P[t] + key], root, t)
  {
    hide IsRadix;
    var m', N', P' := Added(m, t, x, key), N + {x}, P[x := P[t] + key];
    AddHeads(m, N, P, root, t, x, key);
    NodeIs(m, N, P, root, t);
    if m[t].parent != null {
      NodeIs(m, N, P, root, m[t].parent);
    }
    forall c | c in m'[t].branches ensures LinkOk(m', N', P', t, c) {
      if c != key[0] {
        assert LinkOk(m, N, P, t, c);
        assert SameHead(m, m', P, P', m[t].branches[c]);
      }
    }
  }

  // ------------------------------------------------------ one node for another

  // The children that a node's branches lead to.
  ghost function Kids(b: map<Elem, Node>): set<Node> {
    set c | c in b :: b[c]
  }

  // Every child in b gets parent n, as `update_rt_children` does it.
  ghost function Adopted(m: Memory, b: map<Elem, Node>, n: Node): Memory {
    map z | z in m :: if z in Kids(b) then m[z].(parent := n) else m[z]
  }

  // The memory after `rt_replace_node`.
  function Replaced(m: Memory, old_: Node, n: Node): Memory {
    if old_ !in m then m
    else
      var p, k := m[old_].parent, m[old_].skey;
      var m1 := if p == null || p !in m || k == [] then m else PutBranches(m, p, m[p].branches[k[0] := n]);
      PutKey(PutBranches(PutParent(m1, n, p), n, m[old_].branches), n, k)
  }

  lemma {:induction false} KidOf(b: map<Elem, Node>, c: Elem)
    requires c in b
    ensures b[c] in Kids(b)
  {}

  lemma {:induction false} KeyOf(b: map<Elem, Node>, z: Node) returns (c: Elem)
    requires z in Kids(b)
    ensures c in b && b[c] == z
  {
    assert exists k :: k in b && b[k] == z;
    c :| c in b && b[c] == z;
  }

  // A node's children are the nodes that name it as their parent.
  lemma {:induction false} Children(m: Memory, N: set<Node>, P: Paths, root: Node?, t: Node, z: Node)
    requires IsRadix(m, N, P, root) && t in N && z in N && t in m && z in m
    ensures z in Kids(m[t].branches) <==> m[z].parent == t
    ensures m[z].parent == t ==> z in P && t in P && |P[t]| < |P[z]|
  {
    hide IsRadix;
    NodeIs(m, N, P, root, z);
    if z in Kids(m[t].branches) {
      var c := KeyOf(m[t].branches, z);
      LinkIs(m, N, P, root, t, c);
    } else if m[z].parent == t {
      KidOf(m[t].branches, m[z].skey[0]);
    }
  }

  lemma {:induction false} ChildrenIn(m: Memory, N: set<Node>, P: Paths, root: Node?, t: Node)
    requires IsRadix(m, N, P, root) && t in N && t in m
    ensures Kids(m[t].branches) <= N
    ensures forall z :: z in Kids(m[t].branches) ==> z in m && m[z].parent == t
  {
    hide IsRadix;
    forall z | z in Kids(m[t].branches) ensures z in N && z in m && m[z].parent == t {
      var c := KeyOf(m[t].branches, z);
      LinkIs(m, N, P, root, t, c);
    }
  }

  lemma {:induction false} ReplaceKeeps(m: Memory, N: set<Node>, P: Paths, root: Node, t: Node, n: Node)
    requires IsRadix(m, N, P, root) && t in N && n in m && n !in N && t in m && t in P
    requires m[t].skey == [] ==> !m[n].valid
    ensures IsRadix(Adopted(Replaced(m, t, n), m[t].branches, n), N - {t} + {n}, P[n := P[t]],
        if t == root then n else root)
  {
    hide IsRadix, NodeOk;
    var m', N', P', root' := Adopted(Replaced(m, t, n), m[t].branches, n), N - {t} + {n}, P[n := P[t]],
        if t == root then n else root;
    forall z | z in N' ensures NodeOk(m', N', P', root', z) {
      ReplaceNode(m, N, P, root, t, n, z);
    }
    RootIs(m, N, P, root);
    NodeIs(m, N, P, root, t);
    ChildrenIn(m, N, P, root, t);
    Children(m, N, P, root, t, root);
    AllOk(m', N', P', root');
  }

  lemma {:induction false} ReplaceHeads(m: Memory, N: set<Node>, P: Paths, root: Node, t: Node, n: Node)
    requires IsRadix(m, N, P, root) && t in N && n in m && n !in N && t in m && t in P
    ensures HeadsKept(m, Adopted(Replaced(m, t, n), m[t].branches, n), N, N - {t} + {n}, P, P[n := P[t]],
        {t} + Kids(m[t].branches))
  {
    forall y | y in N ensures y in m && y in P { NodeIs(m, N, P, root, y); }
  }

  lemma {:induction false} ReplaceNode(m: Memory, N: set<Node>, P: Paths, root: Node, t: Node, n: Node, z: Node)
    requires IsRadix(m, N, P, root) && t in N && n in m && n !in N && t in m && t in P
    requires m[t].skey == [] ==> !m[n].valid
    requires z in N - {t} + {n}
    ensures NodeOk(Adopted(Replaced(m, t, n), m[t].branches, n), N - {t} + {n}, P[n := P[t]],
        if t == root then n else root, z)
  {
    hide IsRadix, HeadsKept, DownOk;
    var b, T := m[t].branches, {t} + Kids(m[t].branches);
    var m', N', P', root' := Adopted(Replaced(m, t, n), b, n), N - {t} + {n}, P[n := P[t]],
        if t == root then n else root;
    var p := m[t].parent;
    ReplaceHeads(m, N, P, root, t, n);
    NodeIs(m, N, P, root, t);
    RootIs(m, N, P, root);
    ChildrenIn(m, N, P, root, t);
    if p != null {
      NodeIs(m, N, P, root, p);
      Children(m, N, P, root, t, p);
    }
    if z == n {
      ReplaceDown(m, N, P, root, t, n);
    } else {
      NodeIs(m, N, P, root, z);
      Children(m, N, P, root, t, z);
      if z == p {
        ReplaceParent(m, N, P, root, t, n);
      } else if z in Kids(b) {
        DownKept(m, m', N, N', P, P', T, z);
      } else {
        Kept(m, m', N, N', P, P', root, root', T, z);
      }
    }
  }

  lemma {:induction false} ReplaceParent(m: Memory, N: set<Node>, P: Paths, root: Node, t: Node, n: Node)
    requires IsRadix(m, N, P, root) && t in N && n in m && n !in N && t in m && t in P && m[t].parent != null
    ensures NodeOk(Adopted(Replaced(m, t, n), m[t].branches, n), N - {t} + {n}, P[n := P[t]],
        if t == root then n else root, m[t].parent)
  {
    hide IsRadix, HeadsKept;
    var b, T, p := m[t].branches, {t} + Kids(m[t].branches), m[t].parent;
    var m', N', P', root' := Adopted(Replaced(m, t, n), b, n), N - {t} + {n}, P[n := P[t]],
        if t == root then n else root;
    ReplaceHeads(m, N, P, root, t, n);
    ChildrenIn(m, N, P, root, t);
    NodeIs(m, N, P, root, t);
    NodeIs(m, N, P, root, p);
    RootIs(m, N, P, root);
    Children(m, N, P, root, t, p);
    if m[p].parent != null {
      NodeIs(m, N, P, root, m[p].parent);
      Children(m, N, P, root, p, m[p].parent);
    }
    forall c | c in m'[p].branches ensures LinkOk(m', N', P', p, c) {
      LinkIs(m, N, P, root, p, c);
      var y := m[p].branches[c];
      if y != t {
        HeadOf(m, m', N, N', P, P', T, y);
      }
    }
  }

  lemma {:induction false} ReplaceDown(m: Memory, N: set<Node>, P: Paths, root: Node, t: Node, n: Node)
    requires IsRadix(m, N, P, root) && t in N && n in m && n !in N && t in m && t in P
    ensures DownOk(Adopted(Replaced(m, t, n), m[t].branches, n), N - {t} + {n}, P[n := P[t]], n)
  {
    hide IsRadix;
    var b := m[t].branches;
    var m', N', P' := Adopted(Replaced(m, t, n), b, n), N - {t} + {n}, P[n := P[t]];
    ChildrenIn(m, N, P, root, t);
    NodeIs(m, N, P, root, t);
    forall c | c in m'[n].branches ensures LinkOk(m', N', P', n, c) {
      LinkIs(m, N, P, root, t, c);
      assert b[c] in Kids(b);
      Children(m, N, P, root, t, b[c]);
    }
  }

  // ------------------------------------------------- a node in between, or less

  // The memory after `cut_and_add_rt_node`.
  function CutAdded(m: Memory, cut: Node, x: Node, key: Str): Memory {
    if cut !in m then m
    else
      var p := m[cut].parent;
      if p != null && key != [] then
        if p !in m || m[cut].skey == [] then m
        else Added(PutBranches(m, p, m[p].branches - {m[cut].skey[0]}), p, x, key)
      else
        PutKey(PutParent(m, x, null), x, key)
  }

  // The label of t is split after pos elements; n takes the first part.
  function SplitAt(m: Memory, t: Node, n: Node, pos: nat): Memory
    requires t in m && pos < |m[t].skey|
  {
    Added(CutAdded(m, t, n, m[t].skey[..pos]), n, t, m[t].skey[pos..])
  }

  ghost predicate CanSplit(m: Memory, N: set<Node>, P: Paths, root: Node, t: Node, n: Node, pos: nat) {
    && IsRadix(m, N, P, root) && t in N && t in m && t in P && pos < |m[t].skey|
    && n in m && n !in N && m[n].branches == map[]
    && (pos == 0 ==> m[t].parent == null && !m[n].valid)
  }

  // The path of the new node.
  function SplitPaths(m: Memory, P: Paths, t: Node, n: Node, pos: nat): Paths
    requires t in m && t in P && pos < |m[t].skey| <= |P[t]|
  {
    P[n := P[t][..|P[t]| - |m[t].skey| + pos]]
  }

  lemma {:induction false} PathEnds(m: Memory, N: set<Node>, P: Paths, root: Node?, t: Node)
    requires IsRadix(m, N, P, root) && t in N
    ensures t in m && t in P && |m[t].skey| <= |P[t]|
    ensures P[t] == P[t][..|P[t]| - |m[t].skey|] + m[t].skey
    ensures m[t].parent != null ==> m[t].parent in P && P[m[t].parent] == P[t][..|P[t]| - |m[t].skey|]
    ensures m[t].parent == null ==> P[t] == m[t].skey
  {
    hide IsRadix;
    NodeIs(m, N, P, root, t);
  }

  // A node with a parent is the branch of that parent for its first element.
  predicate IsBranch(m: Memory, t: Node) {
    t in m && (m[t].parent != null ==>
      && m[t].parent in m && m[t].skey != [] && m[t].skey[0] in m[m[t].parent].branches
      && m[m[t].parent].branches[m[t].skey[0]] == t)
  }

  lemma {:induction false} ParentIs(m: Memory, N: set<Node>, P: Paths, root: Node?, t: Node)
    requires IsRadix(m, N, P, root) && t in N && t in m
    ensures IsBranch(m, t)
    ensures m[t].parent == null <==> t == root
    ensures m[t].parent != null ==> m[t].parent in N && m[t].parent in m && m[t].parent != t && m[t].skey != []
    ensures t in P && m[t].skey == [] ==> !m[t].valid
  {
    hide IsRadix;
    NodeIs(m, N, P, root, t);
  }

  lemma {:induction false} SplitCells(m: Memory, N: set<Node>, P: Paths, root: Node, t: Node, n: Node, pos: nat)
    requires CanSplit(m, N, P, root, t, n, pos)
    ensures var m', k, p := SplitAt(m, t, n, pos), m[t].skey, m[t].parent;
            && m'.Keys == m.Keys
            && m'[n] == Cell(k[..pos], map[k[pos] := t], p, m[n].valid, m[n].wcNode)
            && m'[t] == Cell(k[pos..], m[t].branches, n, m[t].valid, m[t].wcNode)
            && (p != null ==> p in m && k[0] in m[p].branches && m'[p] == m[p].(branches := m[p].branches[k[0] := n]))
            && (forall z :: z in m && z != n && z != t && z != p ==> m'[z] == m[z])
  {
    hide IsRadix;
    NodeIs(m, N, P, root, t);
    var k, p := m[t].skey, m[t].parent;
    if p != null {
      assert m[p].branches - {k[0]} + map[k[0] := n] == m[p].branches[k[0] := n];
      assert (m[p].branches - {k[0]})[k[0] := n] == m[p].branches[k[0] := n];
      PathEnds(m, N, P, root, t);
    }
    assert m[n].branches[k[pos] := t] == map[k[pos] := t];
  }

  lemma {:induction false} SplitKeeps(m: Memory, N: set<Node>, P: Paths, root: Node, t: Node, n: Node, pos: nat)
    requires CanSplit(m, N, P, root, t, n, pos)
    ensures |m[t].skey| <= |P[t]|
    ensures IsRadix(SplitAt(m, t, n, pos), N + {n}, SplitPaths(m, P, t, n, pos),
        if m[t].parent == null then n else root)
  {
    hide IsRadix, NodeOk, SplitAt;
    PathEnds(m, N, P, root, t);
    var root' := if m[t].parent == null then n else root;
    var m', N', P' := SplitAt(m, t, n, pos), N + {n}, SplitPaths(m, P, t, n, pos);
    forall z | z in N' ensures NodeOk(m', N', P', root', z) {
      SplitNode(m, N, P, root, t, n, pos, z);
    }
    RootIs(m, N, P, root);
    NodeIs(m, N, P, root, t);
    SplitCells(m, N, P, root, t, n, pos);
    AllOk(m', N', P', root');
  }

  lemma {:induction false} SplitHeads(m: Memory, N: set<Node>, P: Paths, root: Node, t: Node, n: Node, pos: nat)
    requires CanSplit(m, N, P, root, t, n, pos) && |m[t].skey| <= |P[t]|
    ensures HeadsKept(m, SplitAt(m, t, n, pos), N, N + {n}, P, SplitPaths(m, P, t, n, pos), {t})
  {
    hide SplitAt;
    SplitCells(m, N, P, root, t, n, pos);
    forall y | y in N ensures y in m && y in P { NodeIs(m, N, P, root, y); }
  }

  lemma {:induction false} SplitNew(m: Memory, N: set<Node>, P: Paths, root: Node, t: Node, n: Node, pos: nat)
    requires CanSplit(m, N, P, root, t, n, pos) && |m[t].skey| <= |P[t]|
    ensures NodeOk(SplitAt(m, t, n, pos), N + {n}, SplitPaths(m, P, t, n, pos),
        if m[t].parent == null then n else root, n)
  {
    hide IsRadix, SplitAt;
    SplitCells(m, N, P, root, t, n, pos);
    PathEnds(m, N, P, root, t);
    NodeIs(m, N, P, root, t);
    RootIs(m, N, P, root);
    var k := m[t].skey;
    assert k[..pos] + k[pos..] == k;
    var P' := SplitPaths(m, P, t, n, pos);
    assert P'[t] == P'[n] + k[pos..];
    if m[t].parent != null {
      assert P'[n] == P[m[t].parent] + k[..pos];
    }
  }

  lemma {:induction false} SplitParent(m: Memory, N: set<Node>, P: Paths, root: Node, t: Node, n: Node, pos: nat)
    requires CanSplit(m, N, P, root, t, n, pos) && |m[t].skey| <= |P[t]| && m[t].parent != null
    ensures NodeOk(SplitAt(m, t, n, pos), N + {n}, SplitPaths(m, P, t, n, pos), root, m[t].parent)
  {
    hide IsRadix, SplitAt, HeadsKept;
    var p := m[t].parent;
    var m', N', P' := SplitAt(m, t, n, pos), N + {n}, SplitPaths(m, P, t, n, pos);
    SplitHeads(m, N, P, root, t, n, pos);
    SplitCells(m, N, P, root, t, n, pos);
    PathEnds(m, N, P, root, t);
    NodeIs(m, N, P, root, t);
    RootIs(m, N, P, root);
    NodeIs(m, N, P, root, p);
    if m[p].parent != null {
      NodeIs(m, N, P, root, m[p].parent);
      PathEnds(m, N, P, root, p);
    }
    forall c | c in m'[p].branches ensures LinkOk(m', N', P', p, c) {
      LinkIs(m, N, P, root, p, c);
      var y := m[p].branches[c];
      if y != t {
        HeadOf(m, m', N, N', P, P', {t}, y);
      } else {
        var k := m[t].skey;
        assert P'[n] == P[p] + k[..pos];
      }
    }
  }

  // The path of t continues that of the new node with the rest of the label.
  lemma {:induction false} SplitPath(m: Memory, N: set<Node>, P: Paths, root: Node, t: Node, n: Node, pos: nat)
    requires CanSplit(m, N, P, root, t, n, pos) && |m[t].skey| <= |P[t]|
    ensures var P' := SplitPaths(m, P, t, n, pos);
            t in P' && n in P' && t != n && P'[t] == P'[n] + m[t].skey[pos..]
  {
    hide IsRadix;
    PathEnds(m, N, P, root, t);
    var k := m[t].skey;
    assert k[..pos] + k[pos..] == k;
  }

  // Below the label that is taken apart, nothing changes.
  lemma {:induction false} SplitBelow(m: Memory, N: set<Node>, P: Paths, root: Node, t: Node, n: Node, pos: nat)
    requires CanSplit(m, N, P, root, t, n, pos) && |m[t].skey| <= |P[t]|
    ensures DownOk(SplitAt(m, t, n, pos), N + {n}, SplitPaths(m, P, t, n, pos), t)
  {
    hide IsRadix, SplitAt, HeadsKept, DownOk;
    SplitHeads(m, N, P, root, t, n, pos);
    SplitCells(m, N, P, root, t, n, pos);
    NodeIs(m, N, P, root, t);
    DownKept(m, SplitAt(m, t, n, pos), N, N + {n}, P, SplitPaths(m, P, t, n, pos), {t}, t);
  }

  lemma {:induction false} Hangs(m: Memory, N: set<Node>, P: Paths, root: Node?, z: Node, p: Node)
    requires HangsFrom(m, N, P, root, z, p) && m[z].parent == p && DownOk(m, N, P, z)
    ensures NodeOk(m, N, P, root, z)
  {
    hide DownOk;
  }

  lemma {:induction false} SplitLower(m: Memory, N: set<Node>, P: Paths, root: Node, t: Node, n: Node, pos: nat)
    requires CanSplit(m, N, P, root, t, n, pos) && |m[t].skey| <= |P[t]|
    ensures NodeOk(SplitAt(m, t, n, pos), N + {n}, SplitPaths(m, P, t, n, pos),
        if m[t].parent == null then n else root, t)
  {
    hide IsRadix, SplitAt, SplitPaths, NodeOk, UpOk, DownOk;
    SplitBelow(m, N, P, root, t, n, pos);
    SplitCells(m, N, P, root, t, n, pos);
    ParentIs(m, N, P, root, t);
    SplitPath(m, N, P, root, t, n, pos);
    Hangs(SplitAt(m, t, n, pos), N + {n}, SplitPaths(m, P, t, n, pos), if m[t].parent == null then n else root, t, n);
  }

  lemma {:induction false} SplitOther(m: Memory, N: set<Node>, P: Paths, root: Node, t: Node, n: Node, pos: nat,
        z: Node)
    requires CanSplit(m, N, P, root, t, n, pos) && |m[t].skey| <= |P[t]| && z in N && z != t && z != m[t].parent
    ensures NodeOk(SplitAt(m, t, n, pos), N + {n}, SplitPaths(m, P, t, n, pos),
        if m[t].parent == null then n else root, z)
  {
    hide IsRadix, SplitAt, HeadsKept, DownOk;
    var root' := if m[t].parent == null then n else root;
    var m', N', P' := SplitAt(m, t, n, pos), N + {n}, SplitPaths(m, P, t, n, pos);
    SplitHeads(m, N, P, root, t, n, pos);
    SplitCells(m, N, P, root, t, n, pos);
    NodeIs(m, N, P, root, t);
    NodeIs(m, N, P, root, z);
    RootIs(m, N, P, root);
    assert HangsFrom(m', N', P', root', z, m[z].parent);
    Kept(m, m', N, N', P, P', root, root', {t}, z);
  }

  lemma {:induction false} SplitNode(m: Memory, N: set<Node>, P: Paths, root: Node, t: Node, n: Node, pos: nat, z: Node)
    requires CanSplit(m, N, P, root, t, n, pos) && |m[t].skey| <= |P[t]| && z in N + {n}
    ensures NodeOk(SplitAt(m, t, n, pos), N + {n}, SplitPaths(m, P, t, n, pos),
        if m[t].parent == null then n else root, z)
  {
    hide IsRadix, NodeOk, SplitAt, SplitPaths;
    if z == n {
      SplitNew(m, N, P, root, t, n, pos);
    } else if z == t {
      SplitLower(m, N, P, root, t, n, pos);
    } else if z == m[t].parent {
      SplitParent(m, N, P, root, t, n, pos);
    } else {
      SplitOther(m, N, P, root, t, n, pos, z);
    }
  }

  // ------------------------------------------------------------- a leaf dropped

  // The memory after `rbt_remove_node` on the branches of the parent.
  function Dropped(m: Memory, x: Node): Memory {
    if x !in m || m[x].parent == null || m[x].parent !in m || m[x].skey == [] then m
    else PutBranches(m, m[x].parent, m[m[x].parent].branches - {m[x].skey[0]})
  }

  lemma {:induction false} DropKeeps(m: Memory, N: set<Node>, P: Paths, root: Node, x: Node)
    requires IsRadix(m, N, P, root) && x in N && x in m && m[x].branches == map[] && m[x].parent != null
    ensures IsRadix(Dropped(m, x), N - {x}, P, root)
  {
    hide IsRadix, NodeOk, Dropped;
    var m', N' := Dropped(m, x), N - {x};
    forall z | z in N' ensures NodeOk(m', N', P, root, z) {
      DropNode(m, N, P, root, x, z);
    }
    RootIs(m, N, P, root);
    DropCells(m, N, P, root, x);
    AllOk(m', N', P, root);
  }

  lemma {:induction false} DropCells(m: Memory, N: set<Node>, P: Paths, root: Node, x: Node)
    requires IsRadix(m, N, P, root) && x in N && x in m && m[x].parent != null
    ensures var m', k, p := Dropped(m, x), m[x].skey, m[x].parent;
            && m'.Keys == m.Keys && k != [] && p in m && p in N && k[0] in m[p].branches && p != x && x != root
            && m'[p] == m[p].(branches := m[p].branches - {k[0]})
            && (forall z :: z in m && z != p ==> m'[z] == m[z])
    ensures HeadsKept(m, Dropped(m, x), N, N - {x}, P, P, {x})
  {
    hide IsRadix;
    NodeIs(m, N, P, root, x);
    forall y | y in N ensures y in m && y in P { NodeIs(m, N, P, root, y); }
  }

  lemma {:induction false} DropNode(m: Memory, N: set<Node>, P: Paths, root: Node, x: Node, z: Node)
    requires IsRadix(m, N, P, root) && x in N && x in m && m[x].branches == map[] && m[x].parent != null && z in N - {x}
    ensures NodeOk(Dropped(m, x), N - {x}, P, root, z)
  {
    hide IsRadix, Dropped, HeadsKept;
    var m', N', p := Dropped(m, x), N - {x}, m[x].parent;
    DropCells(m, N, P, root, x);
    NodeIs(m, N, P, root, x);
    NodeIs(m, N, P, root, z);
    RootIs(m, N, P, root);
    if z == p {
      forall c | c in m'[p].branches ensures LinkOk(m', N', P, p, c) {
        LinkIs(m, N, P, root, p, c);
        HeadOf(m, m', N, N', P, P, {x}, m[p].branches[c]);
      }
    } else {
      Kept(m, m', N, N', P, P, root, root, {x}, z);
    }
  }

  // -------------------------------------------- a node merged with its only child

  // The memory after x's only child t has taken over its part of the path.
  function Merged(m: Memory, x: Node, t: Node): Memory {
    if x !in m || t !in m then m else CutAdded(m, x, t, m[x].skey + m[t].skey)
  }

  ghost predicate CanMerge(m: Memory, N: set<Node>, P: Paths, root: Node, x: Node, t: Node) {
    IsRadix(m, N, P, root) && x in N && x in m && t in m && Kids(m[x].branches) == {t}
  }

  lemma {:induction false} MergeCells(m: Memory, N: set<Node>, P: Paths, root: Node, x: Node, t: Node)
    requires CanMerge(m, N, P, root, x, t)
    ensures t in N && m[t].parent == x && m[t].skey != [] && t != x
    ensures var m', k, p := Merged(m, x, t), m[x].skey, m[x].parent;
            && m'.Keys == m.Keys && p != x && p != t
            && m'[t] == m[t].(skey := k + m[t].skey, parent := p)
            && (p != null ==>
                  && p in m && p in N && k != [] && k[0] in m[p].branches
                  && m'[p] == m[p].(branches := m[p].branches[k[0] := t]))
            && (forall z :: z in m && z != t && z != p ==> m'[z] == m[z])
    ensures HeadsKept(m, Merged(m, x, t), N, N - {x}, P, P, {x, t})
  {
    hide IsRadix, HeadsKept;
    ChildrenIn(m, N, P, root, x);
    assert t in Kids(m[x].branches);
    NodeIs(m, N, P, root, x);
    NodeIs(m, N, P, root, t);
    MergeCellsOnly(m, N, P, root, x, t);
    MergeHeads(m, N, P, root, x, t);
  }

  lemma {:induction false} MergeCellsOnly(m: Memory, N: set<Node>, P: Paths, root: Node, x: Node, t: Node)
    requires UpOk(m, N, P, root, x) && UpOk(m, N, P, root, t) && m[t].parent == x
    ensures var m', k, p := Merged(m, x, t), m[x].skey, m[x].parent;
            && m'.Keys == m.Keys && p != x && p != t
            && m'[t] == m[t].(skey := k + m[t].skey, parent := p)
            && (p != null ==>
                  && p in m && p in N && k != [] && k[0] in m[p].branches
                  && m'[p] == m[p].(branches := m[p].branches[k[0] := t]))
            && (forall z :: z in m && z != t && z != p ==> m'[z] == m[z])
  {
    var k, p := m[x].skey, m[x].parent;
    if p != null {
      assert |P[p]| < |P[x]| < |P[t]|;
      assert (m[p].branches - {k[0]})[k[0] := t] == m[p].branches[k[0] := t];
      assert (k + m[t].skey)[0] == k[0];
    }
  }

  lemma {:induction false} MergeHeads(m: Memory, N: set<Node>, P: Paths, root: Node, x: Node, t: Node)
    requires IsRadix(m, N, P, root) && x in N && t in N && t in m && x in m && m[x].parent != t && m[x].parent != x
    requires var m', p := Merged(m, x, t), m[x].parent;
             && m'.Keys == m.Keys && (forall z :: z in m && z != t && z != p ==> m'[z] == m[z])
             && (p != null ==> p in m && m'[p].parent == m[p].parent && m'[p].skey == m[p].skey)
    ensures HeadsKept(m, Merged(m, x, t), N, N - {x}, P, P, {x, t})
  {
    hide IsRadix, Merged;
    forall y | y in N ensures y in m && y in P { NodeIs(m, N, P, root, y); }
  }

  lemma {:induction false} MergeKeeps(m: Memory, N: set<Node>, P: Paths, root: Node, x: Node, t: Node)
    requires CanMerge(m, N, P, root, x, t)
    ensures IsRadix(Merged(m, x, t), N - {x}, P, if m[x].parent == null then t else root)
  {
    hide IsRadix, NodeOk, Merged, HeadsKept;
    var root' := if m[x].parent == null then t else root;
    var m', N' := Merged(m, x, t), N - {x};
    forall z | z in N' ensures NodeOk(m', N', P, root', z) {
      MergeNode(m, N, P, root, x, t, z);
    }
    RootIs(m, N, P, root);
    NodeIs(m, N, P, root, x);
    MergeCells(m, N, P, root, x, t);
    AllOk(m', N', P, root');
  }

  lemma {:induction false} MergeNode(m: Memory, N: set<Node>, P: Paths, root: Node, x: Node, t: Node, z: Node)
    requires CanMerge(m, N, P, root, x, t) && z in N - {x}
    ensures NodeOk(Merged(m, x, t), N - {x}, P, if m[x].parent == null then t else root, z)
  {
    hide IsRadix, NodeOk, Merged, HeadsKept;
    if z == t {
      MergeChild(m, N, P, root, x, t);
    } else if z == m[x].parent {
      MergeParent(m, N, P, root, x, t);
    } else {
      MergeOther(m, N, P, root, x, t, z);
    }
  }

  lemma {:induction false} MergeChild(m: Memory, N: set<Node>, P: Paths, root: Node, x: Node, t: Node)
    requires CanMerge(m, N, P, root, x, t)
    ensures NodeOk(Merged(m, x, t), N - {x}, P, if m[x].parent == null then t else root, t)
  {
    hide IsRadix, Merged, HeadsKept, DownOk;
    var m', N' := Merged(m, x, t), N - {x};
    MergeCells(m, N, P, root, x, t);
    NodeIs(m, N, P, root, x);
    NodeIs(m, N, P, root, t);
    RootIs(m, N, P, root);
    DownKept(m, m', N, N', P, P, {x, t}, t);
    if m[x].parent != null {
      assert P[t] == P[m[x].parent] + (m[x].skey + m[t].skey);
    }
  }

  lemma {:induction false} MergeParent(m: Memory, N: set<Node>, P: Paths, root: Node, x: Node, t: Node)
    requires CanMerge(m, N, P, root, x, t) && m[x].parent != null
    ensures NodeOk(Merged(m, x, t), N - {x}, P, root, m[x].parent)
  {
    hide IsRadix, Merged, HeadsKept;
    var m', N', p := Merged(m, x, t), N - {x}, m[x].parent;
    MergeCells(m, N, P, root, x, t);
    NodeIs(m, N, P, root, x);
    NodeIs(m, N, P, root, t);
    NodeIs(m, N, P, root, p);
    RootIs(m, N, P, root);
    if m[p].parent != null {
      NodeIs(m, N, P, root, m[p].parent);
    }
    assert P[t] == P[p] + (m[x].skey + m[t].skey);
    forall c | c in m'[p].branches ensures LinkOk(m', N', P, p, c) {
      LinkIs(m, N, P, root, p, c);
      var y := m[p].branches[c];
      if y != x {
        HeadOf(m, m', N, N', P, P, {x, t}, y);
      }
    }
  }

  lemma {:induction false} MergeOther(m: Memory, N: set<Node>, P: Paths, root: Node, x: Node, t: Node, z: Node)
    requires CanMerge(m, N, P, root, x, t) && z in N && z != x && z != t && z != m[x].parent
    ensures NodeOk(Merged(m, x, t), N - {x}, P, if m[x].parent == null then t else root, z)
  {
    hide IsRadix, Merged, HeadsKept, DownOk;
    var root' := if m[x].parent == null then t else root;
    var m', N' := Merged(m, x, t), N - {x};
    MergeCells(m, N, P, root, x, t);
    NodeIs(m, N, P, root, x);
    NodeIs(m, N, P, root, z);
    RootIs(m, N, P, root);
    Children(m, N, P, root, x, z);
    assert HangsFrom(m', N', P, root', z, m[z].parent);
    Kept(m, m', N, N', P, P, root, root', {x, t}, z);
  }
}
