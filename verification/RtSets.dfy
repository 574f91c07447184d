// What each of the five changes does to the set of strings, and that a node
// where no string ends keeps at least two children.
module RtSets {
  import opened RtLinks
  import opened RtSteps

  // Validity of the nodes is as before, and no branch is lost.
  ghost predicate NodesKept(m: Memory, m': Memory, z: Node) {
    z in m && z in m' && m'[z].valid == m[z].valid && |m[z].branches.Keys| <= |m'[z].branches.Keys|
  }

  lemma {:induction false} Updated(b: map<Elem, Node>, c: Elem, n: Node)
    ensures c in b ==> b[c := n].Keys == b.Keys && |b[c := n].Keys| == |b.Keys|
    ensures b[c := n].Keys == b.Keys + {c} && |b.Keys| <= |b[c := n].Keys|
  {
    assert b[c := n].Keys == b.Keys + {c};
    if c in b {
      assert b[c := n].Keys == b.Keys;
    }
  }

  lemma {:induction false} StaysCompressed(m: Memory, N: set<Node>, m': Memory, N': set<Node>, T: set<Node>)
    requires IsCompressed(m, N)
    requires forall z :: z in N' && z !in T ==> z in N && NodesKept(m, m', z)
    requires forall z :: z in N' && z in T ==> IsFull(m', z)
    ensures IsCompressed(m', N')
  {
    forall z | z in N' ensures IsFull(m', z) {
      if z !in T {
        assert IsFull(m, z);
      }
    }
  }

  // The nodes with a string are those of before and x.
  lemma {:induction false} KeysGrow(m: Memory, N: set<Node>, P: Paths, m': Memory, N': set<Node>, P': Paths, x: Node)
    requires x in N' && x in m' && x in P' && m'[x].valid
    requires forall z :: z in N && z in m && z in P && m[z].valid ==>
          z in N' && z in m' && z in P' && m'[z].valid && P'[z] == P[z]
    requires forall z :: z in N' && z in m' && z in P' && m'[z].valid && z != x ==>
          z in N && z in m && z in P && m[z].valid && P'[z] == P[z]
    ensures Keys(m', N', P') == Keys(m, N, P) + {P'[x]}
  {
    assert forall z :: z in N && z in m && z in P && m[z].valid ==> P[z] == P'[z] && P'[z] in Keys(m', N', P');
  }

  lemma {:induction false} KeysSame(m: Memory, N: set<Node>, P: Paths, m': Memory, N': set<Node>, P': Paths)
    requires forall z :: z in N && z in m && z in P && m[z].valid ==>
          z in N' && z in m' && z in P' && m'[z].valid && P'[z] == P[z]
    requires forall z :: z in N' && z in m' && z in P' && m'[z].valid ==>
          z in N && z in m && z in P && m[z].valid && P'[z] == P[z]
    ensures Keys(m', N', P') == Keys(m, N, P)
  {}

  // The nodes with a string are those of before without x.
  lemma {:induction false} KeysShrink(m: Memory, N: set<Node>, P: Paths, root: Node?, m': Memory, N': set<Node>,
        P': Paths, x: Node)
    requires IsRadix(m, N, P, root) && x in N && x in P
    requires forall z :: z in N && z in m && z in P && m[z].valid && z != x ==>
          z in N' && z in m' && z in P' && m'[z].valid && P'[z] == P[z]
    requires forall z :: z in N' && z in m' && z in P' && m'[z].valid ==>
          z != x && z in N && z in m && z in P && m[z].valid && P'[z] == P[z]
    ensures Keys(m', N', P') == Keys(m, N, P) - {P[x]}
  {
    hide IsRadix;
    forall z | z in N && z in P && z != x ensures P[z] != P[x] {
      NodeIs(m, N, P, root, z);
      Divide(m, N, P, root, z, x);
    }
  }

  // ------------------------------------------------------------------- adding

  lemma {:induction false} AddSets(m: Memory, N: set<Node>, P: Paths, root: Node, t: Node, x: Node, key: Str)
    requires IsRadix(m, N, P, root) && t in N && x in m && x !in N && key != [] && t in m && t in P
    requires m[x].valid && key[0] !in m[t].branches
    ensures var m', N', P' := Added(m, t, x, key), N + {x}, P[x := P[t] + key];
            && Keys(m', N', P') == Keys(m, N, P) + {P[t] + key}
            && (IsCompressed(m, N) ==> IsCompressed(m', N'))
            && |m'[t].branches.Keys| == |m[t].branches.Keys| + 1 && x in m' && m'[x].valid
  {
    hide IsRadix, IsCompressed;
    var m', N', P' := Added(m, t, x, key), N + {x}, P[x := P[t] + key];
    Updated(m[t].branches, key[0], x);
    forall z | z in N ensures NodesKept(m, m', z) && z in P { NodeIs(m, N, P, root, z); }
    KeysGrow(m, N, P, m', N', P', x);
    if IsCompressed(m, N) {
      StaysCompressed(m, N, m', N', {x});
    }
  }

  // A second child makes a node full.
  lemma {:induction false} AddFills(m: Memory, N: set<Node>, P: Paths, root: Node, t: Node, x: Node, key: Str)
    requires IsRadix(m, N, P, root) && t in N && x in m && x !in N && key != [] && t in m
    requires m[x].valid && key[0] !in m[t].branches && |m[t].branches.Keys| == 1 && IsCompressed(m, N - {t})
    ensures IsCompressed(Added(m, t, x, key), N + {x})
  {
    hide IsRadix, IsCompressed;
    var m', N' := Added(m, t, x, key), N + {x};
    Updated(m[t].branches, key[0], x);
    forall z | z in N - {t} ensures NodesKept(m, m', z) { NodeIs(m, N, P, root, z); }
    StaysCompressed(m, N - {t}, m', N', {x, t});
  }

  // ---------------------------------------------------------------- replacing

  lemma {:induction false} ReplaceCells(m: Memory, N: set<Node>, P: Paths, root: Node, t: Node, n: Node)
    requires IsRadix(m, N, P, root) && t in N && n in m && n !in N && t in m
    ensures var m' := Adopted(Replaced(m, t, n), m[t].branches, n);
            && m'.Keys == m.Keys && m'[n].branches == m[t].branches && m'[n].valid == m[n].valid
            && forall z :: z in N && z != t ==> NodesKept(m, m', z)
  {
    hide IsRadix;
    NodeIs(m, N, P, root, t);
    ChildrenIn(m, N, P, root, t);
    var m' := Adopted(Replaced(m, t, n), m[t].branches, n);
    forall z | z in N && z != t ensures NodesKept(m, m', z) {
      NodeIs(m, N, P, root, z);
      if m[t].parent == z {
        Updated(m[z].branches, m[t].skey[0], n);
      }
    }
  }

  // A node with a string takes the place of one without, or the reverse.
  lemma {:induction false} ReplaceSets(m: Memory, N: set<Node>, P: Paths, root: Node, t: Node, n: Node)
    requires IsRadix(m, N, P, root) && t in N && n in m && n !in N && t in m && t in P && IsCompressed(m, N)
    requires m[n].valid || 2 <= |m[t].branches.Keys|
    ensures var m', N', P' := Adopted(Replaced(m, t, n), m[t].branches, n), N - {t} + {n}, P[n := P[t]];
            && IsCompressed(m', N')
            && (m[n].valid && !m[t].valid ==> Keys(m', N', P') == Keys(m, N, P) + {P[t]})
            && (!m[n].valid ==> Keys(m', N', P') == Keys(m, N, P) - {P[t]})
  {
    hide IsRadix, IsCompressed;
    var m', N', P' := Adopted(Replaced(m, t, n), m[t].branches, n), N - {t} + {n}, P[n := P[t]];
    ReplaceCells(m, N, P, root, t, n);
    forall z | z in N ensures z in P { NodeIs(m, N, P, root, z); }
    StaysCompressed(m, N, m', N', {n});
    if m[n].valid && !m[t].valid {
      KeysGrow(m, N, P, m', N', P', n);
    }
    if !m[n].valid {
      KeysShrink(m, N, P, root, m', N', P', t);
    }
  }

  lemma {:induction false} ReplaceAll(m: Memory, N: set<Node>, P: Paths, root: Node, t: Node, n: Node)
    requires IsRadix(m, N, P, root) && t in N && n in m && n !in N && t in m && t in P && IsCompressed(m, N)
    requires if m[n].valid then !m[t].valid && P[t] != [] else 2 <= |m[t].branches.Keys|
    ensures m[t].parent != null ==> m[t].parent in N && m[t].parent in m && m[t].parent != t && m[t].skey != []
    ensures IsBranch(m, t) && (m[t].parent == null <==> t == root)
    ensures Kids(m[t].branches) <= N
    ensures var m', N', P' := Adopted(Replaced(m, t, n), m[t].branches, n), N - {t} + {n}, P[n := P[t]];
            && IsRadix(m', N', P', if m[t].parent == null then n else root) && IsCompressed(m', N')
            && Keys(m', N', P') == (if m[n].valid then Keys(m, N, P) + {P[t]} else Keys(m, N, P) - {P[t]})
            && n in m' && m'[n].valid == m[n].valid
  {
    hide IsRadix, IsCompressed, Adopted, Replaced, Keys;
    ParentIs(m, N, P, root, t);
    PathEnds(m, N, P, root, t);
    ReplaceKeeps(m, N, P, root, t, n);
    ReplaceSets(m, N, P, root, t, n);
    ReplaceCells(m, N, P, root, t, n);
    ChildrenIn(m, N, P, root, t);
  }

  // ---------------------------------------------------------------- splitting

  lemma {:induction false} SplitSets(m: Memory, N: set<Node>, P: Paths, root: Node, t: Node, n: Node, pos: nat)
    requires CanSplit(m, N, P, root, t, n, pos) && |m[t].skey| <= |P[t]|
    ensures var m', N', P' := SplitAt(m, t, n, pos), N + {n}, SplitPaths(m, P, t, n, pos);
            && (m[n].valid ==> Keys(m', N', P') == Keys(m, N, P) + {P'[n]})
            && (!m[n].valid ==> Keys(m', N', P') == Keys(m, N, P))
            && (IsCompressed(m, N) ==> IsCompressed(m', N) && (m[n].valid ==> IsCompressed(m', N')))
            && n in m' && m'[n].valid == m[n].valid && |m'[n].branches.Keys| == 1
            && m'[n].branches.Keys == {m[t].skey[pos]}
  {
    hide IsRadix, IsCompressed, SplitAt;
    var m', N', P' := SplitAt(m, t, n, pos), N + {n}, SplitPaths(m, P, t, n, pos);
    SplitCells(m, N, P, root, t, n, pos);
    assert m'[n].branches.Keys == {m[t].skey[pos]};
    var p := m[t].parent;
    if p != null {
      Updated(m[p].branches, m[t].skey[0], n);
    }
    forall z | z in N ensures NodesKept(m, m', z) && z in P {
      NodeIs(m, N, P, root, z);
    }
    if m[n].valid {
      KeysGrow(m, N, P, m', N', P', n);
    } else {
      KeysSame(m, N, P, m', N', P');
    }
    if IsCompressed(m, N) {
      StaysCompressed(m, N, m', N, {});
      if m[n].valid {
        StaysCompressed(m, N, m', N', {n});
      }
    }
  }

  lemma {:induction false} SplitAll(m: Memory, N: set<Node>, P: Paths, root: Node, t: Node, n: Node, pos: nat)
    requires IsRadix(m, N, P, root) && t in N && t in m && t in P && pos < |m[t].skey|
    requires n in m && n !in N && m[n].branches == map[] && (pos == 0 ==> m[t].parent == null)
    requires |m[t].skey| <= |P[t]| && (m[n].valid ==> P[t][..|P[t]| - |m[t].skey| + pos] != [])
    ensures m[t].parent != null ==> m[t].parent in N && m[t].parent in m && m[t].parent != t && m[t].skey != []
    ensures IsBranch(m, t)
    ensures var m', N', P' := SplitAt(m, t, n, pos), N + {n}, SplitPaths(m, P, t, n, pos);
            && IsRadix(m', N', P', if m[t].parent == null then n else root)
            && Keys(m', N', P') == (if m[n].valid then Keys(m, N, P) + {P'[n]} else Keys(m, N, P))
            && (IsCompressed(m, N) ==> IsCompressed(m', N) && (m[n].valid ==> IsCompressed(m', N')))
            && n in m' && m'[n].valid == m[n].valid && m'[n].branches.Keys == {m[t].skey[pos]}
    ensures m[t].parent == null || pos > 0
  {
    hide IsRadix, IsCompressed, SplitAt, Keys;
    ParentIs(m, N, P, root, t);
    PathEnds(m, N, P, root, t);
    SplitKeeps(m, N, P, root, t, n, pos);
    SplitSets(m, N, P, root, t, n, pos);
  }

  // ----------------------------------------------------------------- dropping

  // Everything but the parent of a dropped leaf stays compressed.
  lemma {:induction false} DropSets(m: Memory, N: set<Node>, P: Paths, root: Node, x: Node)
    requires IsRadix(m, N, P, root) && x in N && x in m && x in P && m[x].parent != null && IsCompressed(m, N)
    ensures var m', N', p := Dropped(m, x), N - {x}, m[x].parent;
            && Keys(m', N', P) == Keys(m, N, P) - {P[x]}
            && p in N' && p in m && p in m' && m'[p].valid == m[p].valid
            && (IsFull(m', p) ==> IsCompressed(m', N'))
            && IsCompressed(m', N' - {p})
            && |m'[p].branches.Keys| == |m[p].branches.Keys| - 1
  {
    hide IsRadix, IsCompressed, Dropped;
    var m', N', p := Dropped(m, x), N - {x}, m[x].parent;
    DropCells(m, N, P, root, x);
    forall z | z in N ensures z in P && z in m { NodeIs(m, N, P, root, z); }
    KeysShrink(m, N, P, root, m', N', P, x);
    assert m'[p].branches.Keys == m[p].branches.Keys - {m[x].skey[0]};
    StaysCompressed(m, N, m', N' - {p}, {});
    if IsFull(m', p) {
      StaysCompressed(m, N, m', N', {p});
    }
  }

  // ------------------------------------------------------------------ merging

  lemma {:induction false} MergeSets(m: Memory, N: set<Node>, P: Paths, root: Node, x: Node, t: Node)
    requires CanMerge(m, N, P, root, x, t) && x in P && IsCompressed(m, N - {x})
    ensures var m', N' := Merged(m, x, t), N - {x};
            && IsCompressed(m', N')
            && Keys(m', N', P) == if m[x].valid then Keys(m, N, P) - {P[x]} else Keys(m, N, P)
  {
    hide IsRadix, IsCompressed, Merged;
    var m', N', p := Merged(m, x, t), N - {x}, m[x].parent;
    MergeCells(m, N, P, root, x, t);
    if p != null {
      Updated(m[p].branches, m[x].skey[0], t);
    }
    forall z | z in N ensures z in P && z in m && (z != x ==> NodesKept(m, m', z)) { NodeIs(m, N, P, root, z); }
    if m[x].valid {
      KeysShrink(m, N, P, root, m', N', P, x);
    } else {
      KeysSame(m, N, P, m', N', P);
    }
    StaysCompressed(m, N - {x}, m', N', {});
  }

  lemma {:induction false} DropAll(m: Memory, N: set<Node>, P: Paths, root: Node, x: Node)
    requires IsRadix(m, N, P, root) && x in N && x in m && x in P && m[x].branches == map[] && m[x].parent != null
        && IsCompressed(m, N)
    ensures var m', N', p := Dropped(m, x), N - {x}, m[x].parent;
            && p in m && m[x].skey != [] && m[x].skey[0] in m[p].branches
            && IsRadix(m', N', P, root) && Keys(m', N', P) == Keys(m, N, P) - {P[x]}
            && p in N' && p in m && p in m' && p in P && m'[p].valid == m[p].valid
            && m'[p].branches == m[p].branches - {m[x].skey[0]}
            && (IsFull(m', p) ==> IsCompressed(m', N')) && IsCompressed(m', N' - {p})
            && |m'[p].branches.Keys| == |m[p].branches.Keys| - 1
  {
    hide IsRadix, IsCompressed, Dropped, Keys;
    DropCells(m, N, P, root, x);
    DropKeeps(m, N, P, root, x);
    DropSets(m, N, P, root, x);
    NodeIs(m, N, P, root, m[x].parent);
  }

  lemma {:induction false} OnlyKid(b: map<Elem, Node>, c: Elem)
    requires c in b && |b.Keys| == 1
    ensures Kids(b) == {b[c]}
  {
    assert {c} <= b.Keys;
    SameSize({c}, b.Keys);
    KidOf(b, c);
    forall z | z in Kids(b) ensures z == b[c] {
      var k := KeyOf(b, z);
      assert k in b.Keys;
    }
  }

  lemma {:induction false} SameSize(a: set<Elem>, b: set<Elem>)
    requires a <= b && |a| == |b|
    ensures a == b
  {
    assert |b - a| == |b| - |a|;
    assert b == a + (b - a);
  }

  lemma {:induction false} MergeAll(m: Memory, N: set<Node>, P: Paths, root: Node, x: Node, c: Elem)
    requires IsRadix(m, N, P, root) && x in N && x in m && x in P && IsCompressed(m, N - {x})
    requires c in m[x].branches && |m[x].branches.Keys| == 1
    ensures var t := m[x].branches[c];
            && t in N && t in m && t != x && m[t].skey != []
            && IsRadix(Merged(m, x, t), N - {x}, P, if m[x].parent == null then t else root)
            && IsCompressed(Merged(m, x, t), N - {x})
            && Keys(Merged(m, x, t), N - {x}, P) == if m[x].valid then Keys(m, N, P) - {P[x]} else Keys(m, N, P)
    ensures m[x].parent != null ==> m[x].parent in N && m[x].parent in m && m[x].parent != x && m[x].skey != []
                                    && m[x].parent != m[x].branches[c]
    ensures IsBranch(m, x) && (m[x].parent == null <==> x == root)
  {
    hide IsRadix, IsCompressed, Merged, Keys;
    var t := m[x].branches[c];
    OnlyKid(m[x].branches, c);
    LinkIs(m, N, P, root, x, c);
    ParentIs(m, N, P, root, x);
    MergeCells(m, N, P, root, x, t);
    MergeKeeps(m, N, P, root, x, t);
    MergeSets(m, N, P, root, x, t);
  }

  // Children that name the right parent already do not change.
  lemma {:induction false} AdoptedAlready(m: Memory, N: set<Node>, P: Paths, root: Node?, p: Node)
    requires IsRadix(m, N, P, root) && p in N && p in m
    ensures Adopted(m, m[p].branches, p) == m && Kids(m[p].branches) <= N
  {
    hide IsRadix;
    ChildrenIn(m, N, P, root, p);
  }

  // ------------------------------------------------------------------- counting

  // The nodes that only split, and those where a string ends.
  ghost function Splits(m: Memory, N: set<Node>): set<Node> {
    set x | x in N && x in m && !m[x].valid
  }

  ghost function Ends(m: Memory, N: set<Node>): set<Node> {
    set x | x in N && x in m && m[x].valid
  }

  ghost function ChildrenOf(m: Memory, N: set<Node>, I: set<Node>): set<Node> {
    set y | y in N && y in m && m[y].parent in I
  }

  // There are fewer nodes that only split than strings: every node but the root
  // is a child, and those nodes have two children each.
  lemma {:induction false} FewSplits(m: Memory, N: set<Node>, P: Paths, root: Node?)
    requires IsRadix(m, N, P, root) && IsCompressed(m, N) && N != {}
    ensures |Splits(m, N)| < |Ends(m, N)|
  {
    hide IsRadix, IsCompressed;
    var I, V, C := Splits(m, N), Ends(m, N), ChildrenOf(m, N, Splits(m, N));
    forall x | x in N ensures x in m { NodeIs(m, N, P, root, x); }
    TwoEach(m, N, P, root, I);
    NotEmptyRoot(m, N, P, root);
    OneMore(C, root);
    SubsetSize(C + {root}, N);
    DisjointSize(I, V, N);
  }

  lemma {:induction false} DisjointSize<X>(a: set<X>, b: set<X>, c: set<X>)
    requires a !! b && a + b == c
    ensures |a| + |b| == |c|
  {}

  lemma {:induction false} OneMore<X>(a: set<X>, x: X)
    requires x !in a
    ensures |a + {x}| == |a| + 1
  {}

  lemma {:induction false} NotEmptyRoot(m: Memory, N: set<Node>, P: Paths, root: Node?)
    requires IsRadix(m, N, P, root) && N != {}
    ensures root != null && root in N && root in m && m[root].parent == null
  {}

  lemma {:induction false} SubsetSize<X>(a: set<X>, b: set<X>)
    requires a <= b
    ensures |a| <= |b|
  {
    assert |b - a| == |b| - |a|;
  }

  // The children of the nodes in I are at least twice as many.
  lemma {:induction false} TwoEach(m: Memory, N: set<Node>, P: Paths, root: Node?, I: set<Node>)
    requires IsRadix(m, N, P, root) && IsCompressed(m, N) && I <= Splits(m, N)
    ensures 2 * |I| <= |ChildrenOf(m, N, I)|
    decreases |I|
  {
    hide IsRadix, IsCompressed;
    if |I| > 0 {
      var x := AnyOf(I);
      var J := I - {x};
      OneMore(J, x);
      assert J + {x} == I;
      TwoEach(m, N, P, root, J);
      TwoKids(m, N, P, root, x);
      DisjointSize(ChildrenOf(m, N, J), ChildrenOf(m, N, {x}), ChildrenOf(m, N, I));
    }
  }

  lemma {:induction false} TwoKids(m: Memory, N: set<Node>, P: Paths, root: Node?, x: Node)
    requires IsRadix(m, N, P, root) && IsCompressed(m, N) && x in Splits(m, N)
    ensures 2 <= |ChildrenOf(m, N, {x})|
  {
    hide IsRadix, IsCompressed;
    FullIs(m, N, x);
    var a, b := TwoOf(m[x].branches.Keys);
    LinkIs(m, N, P, root, x, a);
    LinkIs(m, N, P, root, x, b);
    var y, z := m[x].branches[a], m[x].branches[b];
    OneMore({y}, z);
    SubsetSize({y} + {z}, ChildrenOf(m, N, {x}));
  }

  // Each string has its own node.
  lemma {:induction false} OneNodeEach(m: Memory, N: set<Node>, P: Paths, root: Node?)
    requires IsRadix(m, N, P, root)
    ensures |Ends(m, N)| == |Keys(m, N, P)|
  {
    hide IsRadix;
    forall x | x in N ensures x in m && x in P { NodeIs(m, N, P, root, x); }
    var E := Ends(m, N);
    forall x, y | x in E && y in E && P[x] == P[y] ensures x == y { Divide(m, N, P, root, x, y); }
    assert Keys(m, N, P) == PathsOf(P, E);
    PathsOfSize(P, E);
  }

  ghost function PathsOf(P: Paths, E: set<Node>): set<Str> {
    set x | x in E && x in P :: P[x]
  }

  lemma {:induction false} PathsOfSize(P: Paths, E: set<Node>)
    requires forall x :: x in E ==> x in P
    requires forall x, y :: x in E && y in E && P[x] == P[y] ==> x == y
    ensures |PathsOf(P, E)| == |E|
    decreases |E|
  {
    if |E| > 0 {
      var x := AnyOf(E);
      PathsOfSize(P, E - {x});
      assert PathsOf(P, E) == PathsOf(P, E - {x}) + {P[x]};
      OneMore(PathsOf(P, E - {x}), P[x]);
    } else {
      assert E == {};
      assert PathsOf(P, E) == {};
    }
  }

  lemma {:induction false} FullIs(m: Memory, N: set<Node>, x: Node)
    requires IsCompressed(m, N) && x in N
    ensures IsFull(m, x)
  {}

  lemma {:induction false} AnyOf<X>(s: set<X>) returns (a: X)
    requires 0 < |s|
    ensures a in s
  {
    a :| a in s;
  }

  lemma {:induction false} TwoOf<X>(s: set<X>) returns (a: X, b: X)
    requires 2 <= |s|
    ensures a in s && b in s && a != b
  {
    a :| a in s;
    var r := s - {a};
    assert |r| == |s| - 1;
    b := AnyOf(r);
  }
}
