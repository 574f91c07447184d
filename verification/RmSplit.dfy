// Preparing a radix tree for matching: labels are split so that every wildcard
// is a node of its own, and every node points to its wildcard child.
module RmSplit {
  import opened RtLinks
  import opened RtSteps
  import opened RtSets

  // A label that needs no more splitting.
  predicate IsSegment(w: Elem, k: Str) {
    k == [w] || w !in k
  }

  // No two wildcards in a row.
  predicate NoneAdjacent(w: Elem, s: Str) {
    forall i {:trigger s[i]} :: 0 <= i < |s| - 1 && s[i] == w ==> s[i + 1] != w
  }

  // The wildcard child, as far as it is done.
  ghost predicate WcOk(m: Memory, w: Elem, D: set<Node>, x: Node) {
    x in m && m[x].wcNode == if w in m[x].branches && m[x].branches[w] in D then m[x].branches[w] else null
  }

  ghost predicate WcsOk(m: Memory, N: set<Node>, w: Elem, D: set<Node>) {
    forall x {:trigger WcOk(m, w, D, x)} :: x in N ==> WcOk(m, w, D, x)
  }

  ghost predicate SegmentOk(m: Memory, w: Elem, x: Node) {
    x in m && IsSegment(w, m[x].skey)
  }

  ghost predicate SegmentsOk(m: Memory, w: Elem, D: set<Node>) {
    forall x {:trigger SegmentOk(m, w, x)} :: x in D ==> SegmentOk(m, w, x)
  }

  // The nodes in D are done.
  ghost predicate IsMata(m: Memory, N: set<Node>, P: Paths, root: Node?, w: Elem, D: set<Node>) {
    IsRadix(m, N, P, root) && D <= N && WcsOk(m, N, w, D) && SegmentsOk(m, w, D) && AllApart(N, P, w)
  }

  // No path has two wildcards in a row.
  ghost predicate AllApart(N: set<Node>, P: Paths, w: Elem) {
    forall x :: x in N ==> x in P && NoneAdjacent(w, P[x])
  }

  lemma {:induction false} SplitApart(m: Memory, N: set<Node>, P: Paths, w: Elem, t: Node, n: Node, pos: nat)
    requires t in m && t in N && t in P && pos < |m[t].skey| <= |P[t]| && AllApart(N, P, w)
    ensures AllApart(N + {n}, SplitPaths(m, P, t, n, pos), w)
  {
    var s := P[t][..|P[t]| - |m[t].skey| + pos];
    assert NoneAdjacent(w, P[t]);
    assert forall i :: 0 <= i < |s| ==> s[i] == P[t][i];
    assert NoneAdjacent(w, s);
  }

  lemma {:induction false} WcIs(m: Memory, N: set<Node>, w: Elem, D: set<Node>, x: Node)
    requires WcsOk(m, N, w, D) && x in N
    ensures WcOk(m, w, D, x)
  {}

  lemma {:induction false} SegmentIs(m: Memory, w: Elem, D: set<Node>, x: Node)
    requires SegmentsOk(m, w, D) && x in D
    ensures SegmentOk(m, w, x)
  {}

  // The link to the wildcard child plays no part in the structure of the tree.
  lemma {:induction false} WcIsApart(m: Memory, N: set<Node>, P: Paths, root: Node?, x: Node, n: Node?)
    requires IsRadix(m, N, P, root) && root != null
    ensures IsRadix(PutWcNode(m, x, n), N, P, root) && Keys(PutWcNode(m, x, n), N, P) == Keys(m, N, P)
  {
    hide IsRadix;
    var m' := PutWcNode(m, x, n);
    forall z | z in N ensures NodeOk(m', N, P, root, z) {
      NodeIs(m, N, P, root, z);
      forall c | c in m'[z].branches ensures LinkOk(m', N, P, z, c) {
        LinkIs(m, N, P, root, z, c);
      }
    }
    RootIs(m, N, P, root);
    AllOk(m', N, P, root);
  }

  // A label is cut off at the front: what is cut off is done.
  function Front(m: Memory, t: Node, n: Node, pos: nat, w: Elem): Memory
    requires t in m && pos < |m[t].skey|
  {
    var m1, p := SplitAt(m, t, n, pos), m[t].parent;
    if m[t].skey[0] == w && p != null then PutWcNode(m1, p, n) else m1
  }

  ghost predicate CanCut(m: Memory, N: set<Node>, P: Paths, root: Node?, w: Elem, D: set<Node>, t: Node, n: Node,
        pos: nat)
  {
    && IsMata(m, N, P, root, w, D) && root != null && t in N && t !in D && t in m && t in P
    && 0 < pos < |m[t].skey| <= |P[t]|
    && n in m && n !in N && m[n].branches == map[] && !m[n].valid && m[n].wcNode == null
  }

  lemma {:induction false} FrontKeeps(m: Memory, N: set<Node>, P: Paths, root: Node?, w: Elem, D: set<Node>, t: Node,
        n: Node, pos: nat)
    requires CanCut(m, N, P, root, w, D, t, n, pos) && IsSegment(w, m[t].skey[..pos])
    ensures var m', root' := Front(m, t, n, pos, w), if m[t].parent == null then n else root;
            && IsMata(m', N + {n}, SplitPaths(m, P, t, n, pos), root', w, D + {n})
            && Keys(m', N + {n}, SplitPaths(m, P, t, n, pos)) == Keys(m, N, P)
  {
    hide IsRadix, SplitAt, WcsOk, SegmentsOk, AllApart, Keys;
    var m1, m', p := SplitAt(m, t, n, pos), Front(m, t, n, pos, w), m[t].parent;
    var N', P', root' := N + {n}, SplitPaths(m, P, t, n, pos), if m[t].parent == null then n else root;
    SplitAll(m, N, P, root, t, n, pos);
    SplitCells(m, N, P, root, t, n, pos);
    if m[t].skey[0] == w && p != null {
      WcIsApart(m1, N', P', root', p, n);
    }
    SplitApart(m, N, P, w, t, n, pos);
    FrontWc(m, N, P, root, w, D, t, n, pos);
    FrontSegments(m, N, P, root, w, D, t, n, pos);
  }

  lemma {:induction false} FrontWc(m: Memory, N: set<Node>, P: Paths, root: Node?, w: Elem, D: set<Node>, t: Node,
        n: Node, pos: nat)
    requires CanCut(m, N, P, root, w, D, t, n, pos)
    ensures WcsOk(Front(m, t, n, pos, w), N + {n}, w, D + {n})
  {
    hide IsRadix, SplitAt, WcsOk, SegmentsOk, AllApart;
    var m', D', p := Front(m, t, n, pos, w), D + {n}, m[t].parent;
    SplitCells(m, N, P, root, t, n, pos);
    ParentIs(m, N, P, root, t);
    forall x | x in N + {n} ensures WcOk(m', w, D', x) {
      if x != n {
        WcIs(m, N, w, D, x);
        if w in m[x].branches {
          LinkIs(m, N, P, root, x, w);
        }
        NodeIs(m, N, P, root, t);
      }
    }
    AllWcs(m', N + {n}, w, D');
  }

  lemma {:induction false} AllWcs(m: Memory, N: set<Node>, w: Elem, D: set<Node>)
    requires forall x {:trigger WcOk(m, w, D, x)} :: x in N ==> WcOk(m, w, D, x)
    ensures WcsOk(m, N, w, D)
  {}

  lemma {:induction false} FrontSegments(m: Memory, N: set<Node>, P: Paths, root: Node?, w: Elem, D: set<Node>, t: Node,
        n: Node, pos: nat)
    requires CanCut(m, N, P, root, w, D, t, n, pos) && IsSegment(w, m[t].skey[..pos])
    ensures SegmentsOk(Front(m, t, n, pos, w), w, D + {n})
  {
    hide IsRadix, SplitAt, WcsOk, SegmentsOk, AllApart;
    var m' := Front(m, t, n, pos, w);
    SplitCells(m, N, P, root, t, n, pos);
    forall x | x in D + {n} ensures SegmentOk(m', w, x) {
      if x != n {
        SegmentIs(m, w, D, x);
        NodeIs(m, N, P, root, x);
      }
    }
    AllSegments(m', w, D + {n});
  }

  lemma {:induction false} AllSegments(m: Memory, w: Elem, D: set<Node>)
    requires forall x {:trigger SegmentOk(m, w, x)} :: x in D ==> SegmentOk(m, w, x)
    ensures SegmentsOk(m, w, D)
  {}

  // The wildcard at the end of a label is cut off: the lower part is done.
  function Back(m: Memory, t: Node, n: Node): Memory
    requires t in m && m[t].skey != []
  {
    PutWcNode(SplitAt(m, t, n, |m[t].skey| - 1), n, t)
  }

  lemma {:induction false} BackKeeps(m: Memory, N: set<Node>, P: Paths, root: Node?, w: Elem, D: set<Node>, t: Node,
        n: Node)
    requires t in m && |m[t].skey| > 1 && CanCut(m, N, P, root, w, D, t, n, |m[t].skey| - 1)
        && m[t].skey[|m[t].skey| - 1] == w
    ensures var m', root', P' := Back(m, t, n), if m[t].parent == null then n else root,
        SplitPaths(m, P, t, n, |m[t].skey| - 1);
            && IsMata(m', N + {n}, P', root', w, D + {t}) && Keys(m', N + {n}, P') == Keys(m, N, P)
  {
    hide IsRadix, SplitAt, WcsOk, SegmentsOk, AllApart, Keys;
    var pos := |m[t].skey| - 1;
    var m1, m', p := SplitAt(m, t, n, pos), Back(m, t, n), m[t].parent;
    var N', P', root' := N + {n}, SplitPaths(m, P, t, n, pos), if m[t].parent == null then n else root;
    SplitAll(m, N, P, root, t, n, pos);
    SplitCells(m, N, P, root, t, n, pos);
    WcIsApart(m1, N', P', root', n, t);
    BackWc(m, N, P, root, w, D, t, n);
    SplitApart(m, N, P, w, t, n, pos);
    assert m[t].skey[pos..] == [w];
    forall x | x in D + {t} ensures SegmentOk(m', w, x) {
      if x != t {
        SegmentIs(m, w, D, x);
        NodeIs(m, N, P, root, x);
      }
    }
    AllSegments(m', w, D + {t});
  }

  lemma {:induction false} BackWc(m: Memory, N: set<Node>, P: Paths, root: Node?, w: Elem, D: set<Node>, t: Node,
        n: Node)
    requires t in m && |m[t].skey| > 1 && CanCut(m, N, P, root, w, D, t, n, |m[t].skey| - 1)
        && m[t].skey[|m[t].skey| - 1] == w
    ensures WcsOk(Back(m, t, n), N + {n}, w, D + {t})
  {
    hide IsRadix, SplitAt, WcsOk, SegmentsOk, AllApart;
    var m', D' := Back(m, t, n), D + {t};
    SplitCells(m, N, P, root, t, n, |m[t].skey| - 1);
    ParentIs(m, N, P, root, t);
    NodeIs(m, N, P, root, t);
    forall x | x in N + {n} ensures WcOk(m', w, D', x) {
      if x != n {
        WcIs(m, N, w, D, x);
        if w in m[x].branches {
          LinkIs(m, N, P, root, x, w);
        }
      }
    }
    AllWcs(m', N + {n}, w, D');
  }

  // A label without wildcards, or a single wildcard, is done as it is.
  function Settled(m: Memory, t: Node, w: Elem): Memory
    requires t in m
  {
    if m[t].skey == [w] && m[t].parent != null then PutWcNode(m, m[t].parent, t) else m
  }

  lemma {:induction false} SettleKeeps(m: Memory, N: set<Node>, P: Paths, root: Node?, w: Elem, D: set<Node>, t: Node)
    requires IsMata(m, N, P, root, w, D) && root != null && t in N && t !in D && t in m && IsSegment(w, m[t].skey)
    ensures IsMata(Settled(m, t, w), N, P, root, w, D + {t}) && Keys(Settled(m, t, w), N, P) == Keys(m, N, P)
  {
    hide IsRadix, WcsOk, SegmentsOk, AllApart, Keys;
    var m', D', p := Settled(m, t, w), D + {t}, m[t].parent;
    ParentIs(m, N, P, root, t);
    NodeIs(m, N, P, root, t);
    if m[t].skey == [w] && p != null {
      WcIsApart(m, N, P, root, p, t);
    }
    forall x | x in N ensures WcOk(m', w, D', x) {
      WcIs(m, N, w, D, x);
      if w in m[x].branches {
        LinkIs(m, N, P, root, x, w);
      }
    }
    AllWcs(m', N, w, D');
    forall x | x in D' ensures SegmentOk(m', w, x) {
      if x != t {
        SegmentIs(m, w, D, x);
      }
    }
    AllSegments(m', w, D');
  }

  // --------------------------------------------------------- what does not change

  ghost predicate OldKept(m: Memory, m': Memory, P: Paths, P': Paths, T: set<Node>, x: Node) {
    && x in m && x in m' && x in P && x in P' && P'[x] == P[x] && m'[x].valid == m[x].valid
    && (x !in T ==> m'[x].parent == m[x].parent)
  }

  // The old nodes keep path and validity, those outside T their parent as well,
  // and no string ends at a new node.
  ghost predicate Evolves(m: Memory, N: set<Node>, P: Paths, m': Memory, N': set<Node>, P': Paths, T: set<Node>) {
    && N <= N' && (forall x {:trigger OldKept(m, m', P, P', T, x)} :: x in N ==> OldKept(m, m', P, P', T, x))
    && (forall x :: x in N' && x !in N ==> x in m' && !m'[x].valid)
  }

  lemma {:induction false} EvolvesOn(m: Memory, N: set<Node>, P: Paths, m1: Memory, N1: set<Node>, P1: Paths,
        m2: Memory, N2: set<Node>, P2: Paths, T: set<Node>, T1: set<Node>)
    requires Evolves(m, N, P, m1, N1, P1, T) && Evolves(m1, N1, P1, m2, N2, P2, T1)
    requires forall x :: x in T1 && x in N ==> x in T
    ensures Evolves(m, N, P, m2, N2, P2, T)
  {
    forall x | x in N ensures OldKept(m, m2, P, P2, T, x) {
      assert OldKept(m, m1, P, P1, T, x) && OldKept(m1, m2, P1, P2, T1, x);
    }
    forall x | x in N2 && x !in N ensures x in m2 && !m2[x].valid {
      if x in N1 {
        assert OldKept(m1, m2, P1, P2, T1, x);
      }
    }
  }

  lemma {:induction false} EvolvesAtOnce(m: Memory, N: set<Node>, P: Paths, root: Node?, T: set<Node>)
    requires IsRadix(m, N, P, root)
    ensures Evolves(m, N, P, m, N, P, T)
  {
    hide IsRadix;
    forall x | x in N ensures OldKept(m, m, P, P, T, x) { NodeIs(m, N, P, root, x); }
  }

  lemma {:induction false} FrontEvolves(m: Memory, N: set<Node>, P: Paths, root: Node?, w: Elem, D: set<Node>, t: Node,
        n: Node, pos: nat)
    requires CanCut(m, N, P, root, w, D, t, n, pos)
    ensures Evolves(m, N, P, Front(m, t, n, pos, w), N + {n}, SplitPaths(m, P, t, n, pos), {t})
  {
    hide IsRadix, SplitAt;
    SplitCells(m, N, P, root, t, n, pos);
    var m', P' := Front(m, t, n, pos, w), SplitPaths(m, P, t, n, pos);
    forall x | x in N ensures OldKept(m, m', P, P', {t}, x) { NodeIs(m, N, P, root, x); }
  }

  lemma {:induction false} BackEvolves(m: Memory, N: set<Node>, P: Paths, root: Node?, w: Elem, D: set<Node>, t: Node,
        n: Node)
    requires t in m && |m[t].skey| > 1 && CanCut(m, N, P, root, w, D, t, n, |m[t].skey| - 1)
    ensures Evolves(m, N, P, Back(m, t, n), N + {n}, SplitPaths(m, P, t, n, |m[t].skey| - 1), {t})
  {
    hide IsRadix, SplitAt;
    SplitCells(m, N, P, root, t, n, |m[t].skey| - 1);
    var m', P' := Back(m, t, n), SplitPaths(m, P, t, n, |m[t].skey| - 1);
    forall x | x in N ensures OldKept(m, m', P, P', {t}, x) { NodeIs(m, N, P, root, x); }
  }

  lemma {:induction false} SettleEvolves(m: Memory, N: set<Node>, P: Paths, root: Node?, w: Elem, t: Node)
    requires IsRadix(m, N, P, root) && t in m
    ensures Evolves(m, N, P, Settled(m, t, w), N, P, {t})
  {
    hide IsRadix;
    var m' := Settled(m, t, w);
    forall x | x in N ensures OldKept(m, m', P, P, {t}, x) { NodeIs(m, N, P, root, x); }
  }

  // -------------------------------------------------------------- a node allocated

  function Grown(m: Memory, n: Node, k: Str): Memory {
    m[n := Cell(k, map[], null, false, null)]
  }

  lemma {:induction false} GrownKeeps(m: Memory, N: set<Node>, P: Paths, root: Node?, w: Elem, D: set<Node>, n: Node,
        k: Str, T: set<Node>)
    requires IsMata(m, N, P, root, w, D) && root != null && n !in N
    ensures IsMata(Grown(m, n, k), N, P, root, w, D) && Keys(Grown(m, n, k), N, P) == Keys(m, N, P)
    ensures Evolves(m, N, P, Grown(m, n, k), N, P, T)
  {
    hide IsRadix, WcsOk, SegmentsOk, AllApart;
    var m' := Grown(m, n, k);
    forall x | x in N ensures NodeOk(m', N, P, root, x) && WcOk(m', w, D, x) && OldKept(m, m', P, P, T, x) {
      NodeIs(m, N, P, root, x);
      WcIs(m, N, w, D, x);
      GrownNode(m, N, P, root, n, k, x);
    }
    RootIs(m, N, P, root);
    AllOk(m', N, P, root);
    AllWcs(m', N, w, D);
    forall x | x in D ensures SegmentOk(m', w, x) { SegmentIs(m, w, D, x); }
    AllSegments(m', w, D);
  }

  lemma {:induction false} GrownNode(m: Memory, N: set<Node>, P: Paths, root: Node?, n: Node, k: Str, x: Node)
    requires IsRadix(m, N, P, root) && n !in N && x in N
    ensures NodeOk(Grown(m, n, k), N, P, root, x)
  {
    hide IsRadix;
    var m' := Grown(m, n, k);
    NodeIs(m, N, P, root, x);
    forall c | c in m'[x].branches ensures LinkOk(m', N, P, x, c) {
      LinkIs(m, N, P, root, x, c);
    }
  }

  // ------------------------------------------------------------ from the top down

  ghost predicate UpIsDone(m: Memory, D: set<Node>, cur: Node?, x: Node) {
    x in m && (m[x].parent == null || m[x].parent in D || m[x].parent == cur)
  }

  // Done nodes hang from done nodes, or from the one being worked on.
  ghost predicate UpsDone(m: Memory, D: set<Node>, cur: Node?) {
    && (forall x {:trigger UpIsDone(m, D, cur, x)} :: x in D ==> UpIsDone(m, D, cur, x))
    && (cur != null ==> UpIsDone(m, D, null, cur))
  }

  lemma {:induction false} FrontUps(m: Memory, N: set<Node>, P: Paths, root: Node?, w: Elem, D: set<Node>, t: Node,
        n: Node, pos: nat)
    requires CanCut(m, N, P, root, w, D, t, n, pos) && UpsDone(m, D, t)
    ensures UpsDone(Front(m, t, n, pos, w), D + {n}, t)
  {
    hide IsRadix, SplitAt;
    SplitCells(m, N, P, root, t, n, pos);
    var m', D' := Front(m, t, n, pos, w), D + {n};
    forall x | x in D' ensures UpIsDone(m', D', t, x) {
      if x != n {
        assert UpIsDone(m, D, t, x);
      }
    }
  }

  lemma {:induction false} BackUps(m: Memory, N: set<Node>, P: Paths, root: Node?, w: Elem, D: set<Node>, t: Node,
        n: Node)
    requires t in m && |m[t].skey| > 1 && CanCut(m, N, P, root, w, D, t, n, |m[t].skey| - 1) && UpsDone(m, D, t)
    ensures UpsDone(Back(m, t, n), D + {t}, n)
  {
    hide IsRadix, SplitAt;
    SplitCells(m, N, P, root, t, n, |m[t].skey| - 1);
    var m', D' := Back(m, t, n), D + {t};
    forall x | x in D' ensures UpIsDone(m', D', n, x) {
      if x != t {
        assert UpIsDone(m, D, t, x);
      }
    }
  }

  lemma {:induction false} SettleUps(m: Memory, t: Node, w: Elem, D: set<Node>)
    requires t in m && UpsDone(m, D, t)
    ensures UpsDone(Settled(m, t, w), D + {t}, null)
  {
    var m', D' := Settled(m, t, w), D + {t};
    forall x | x in D' ensures UpIsDone(m', D', null, x) {
      if x != t {
        assert UpIsDone(m, D, t, x);
      }
    }
  }

  lemma {:induction false} GrownUps(m: Memory, N: set<Node>, D: set<Node>, t: Node, n: Node, k: Str)
    requires UpsDone(m, D, t) && D <= N && t in N && n !in N
    ensures UpsDone(Grown(m, n, k), D, t)
  {
    forall x | x in D ensures UpIsDone(Grown(m, n, k), D, t, x) {
      assert UpIsDone(m, D, t, x);
    }
  }

  // A node that waits in the queue hangs from a done node.
  ghost predicate QueuedOk(m: Memory, N: set<Node>, D: set<Node>, x: Node) {
    x in N && x !in D && UpIsDone(m, D, null, x)
  }

  ghost predicate QueueOk(m: Memory, N: set<Node>, D: set<Node>, q: seq<Node>) {
    && (forall i {:trigger q[i]} :: 0 <= i < |q| ==> QueuedOk(m, N, D, q[i]))
    && (forall i, j :: 0 <= i < j < |q| ==> q[i] != q[j])
  }

  // A node that is not done waits in the queue, or for its parent.
  ghost predicate Waits(m: Memory, D: set<Node>, q: seq<Node>, x: Node) {
    x in m && (x in q || (m[x].parent != null && m[x].parent !in D))
  }

  ghost predicate AllWait(m: Memory, N: set<Node>, D: set<Node>, q: seq<Node>) {
    forall x {:trigger Waits(m, D, q, x)} :: x in N && x !in D ==> Waits(m, D, q, x)
  }

  lemma {:induction false} QueueStarts(m: Memory, N: set<Node>, P: Paths, root: Node)
    requires IsRadix(m, N, P, root)
    ensures QueueOk(m, N, {}, [root]) && AllWait(m, N, {}, [root]) && UpsDone(m, {}, null)
  {
    hide IsRadix;
    RootIs(m, N, P, root);
    forall x | x in N ensures Waits(m, {}, [root], x) {
      NodeIs(m, N, P, root, x);
    }
  }

  lemma {:induction false} QueueGoesOn(m: Memory, N: set<Node>, P: Paths, root: Node?, D: set<Node>, q: seq<Node>,
        kids: seq<Node>, m': Memory, N': set<Node>, P': Paths, D': set<Node>)
    requires IsRadix(m, N, P, root) && q != [] && QueueOk(m, N, D, q) && AllWait(m, N, D, q) && UpsDone(m, D, null)
        && q[0] in m
    requires Evolves(m, N, P, m', N', P', {q[0]}) && D' == D + {q[0]} + (N' - N)
    requires (forall i, j :: 0 <= i < j < |kids| ==> kids[i] != kids[j])
        && (forall x :: x in kids <==> x in Kids(m[q[0]].branches))
    ensures QueueOk(m', N', D', q[1..] + kids) && AllWait(m', N', D', q[1..] + kids)
  {
    hide IsRadix, QueueOk, AllWait, Evolves;
    var q', t := q[1..] + kids, q[0];
    QueueIs(m, N, D, q, 0);
    forall x | x in q' ensures QueuedOk(m', N', D', x) {
      QueueEntry(m, N, P, root, D, q, kids, m', N', P', D', x);
    }
    QueueDistinct(m, N, P, root, D, q, kids);
    AllQueued(m', N', D', q');
    forall x | x in N' && x !in D' ensures Waits(m', D', q', x) {
      QueueWaits(m, N, P, root, D, q, kids, m', N', P', D', x);
    }
    AllWaiting(m', N', D', q');
  }

  lemma {:induction false} QueueIs(m: Memory, N: set<Node>, D: set<Node>, q: seq<Node>, i: nat)
    requires QueueOk(m, N, D, q) && i < |q|
    ensures QueuedOk(m, N, D, q[i])
  {}

  lemma {:induction false} AllQueued(m: Memory, N: set<Node>, D: set<Node>, q: seq<Node>)
    requires (forall x :: x in q ==> QueuedOk(m, N, D, x)) && (forall i, j :: 0 <= i < j < |q| ==> q[i] != q[j])
    ensures QueueOk(m, N, D, q)
  {}

  lemma {:induction false} AllWaiting(m: Memory, N: set<Node>, D: set<Node>, q: seq<Node>)
    requires forall x {:trigger Waits(m, D, q, x)} :: x in N && x !in D ==> Waits(m, D, q, x)
    ensures AllWait(m, N, D, q)
  {}

  lemma {:induction false} QueueEntry(m: Memory, N: set<Node>, P: Paths, root: Node?, D: set<Node>, q: seq<Node>,
        kids: seq<Node>, m': Memory, N': set<Node>, P': Paths, D': set<Node>, x: Node)
    requires IsRadix(m, N, P, root) && q != [] && QueueOk(m, N, D, q) && UpsDone(m, D, null) && q[0] in m && q[0] in N
    requires Evolves(m, N, P, m', N', P', {q[0]}) && D' == D + {q[0]} + (N' - N)
    requires (forall z :: z in kids <==> z in Kids(m[q[0]].branches)) && x in q[1..] + kids
    ensures QueuedOk(m', N', D', x)
  {
    hide IsRadix;
    var t := q[0];
    ChildrenIn(m, N, P, root, t);
    ParentIs(m, N, P, root, t);
    assert QueuedOk(m, N, D, q[0]);
    if x in kids {
      assert x in D ==> UpIsDone(m, D, null, x);
      ParentIs(m, N, P, root, x);
    } else {
      var i :| 0 <= i < |q[1..]| && q[1..][i] == x;
      assert QueuedOk(m, N, D, q[i + 1]) && q[i + 1] == x;
    }
    assert OldKept(m, m', P, P', {t}, x);
  }

  lemma {:induction false} QueueDistinct(m: Memory, N: set<Node>, P: Paths, root: Node?, D: set<Node>, q: seq<Node>,
        kids: seq<Node>)
    requires IsRadix(m, N, P, root) && q != [] && QueueOk(m, N, D, q) && q[0] in m && q[0] in N
    requires (forall i, j :: 0 <= i < j < |kids| ==> kids[i] != kids[j])
        && (forall x :: x in kids ==> x in Kids(m[q[0]].branches))
    ensures var q' := q[1..] + kids; forall i, j :: 0 <= i < j < |q'| ==> q'[i] != q'[j]
  {
    hide IsRadix;
    ChildrenIn(m, N, P, root, q[0]);
    assert QueuedOk(m, N, D, q[0]);
    var q' := q[1..] + kids;
    forall i, j | 0 <= i < j < |q'| ensures q'[i] != q'[j] {
      if i < |q| - 1 <= j {
        assert QueuedOk(m, N, D, q[i + 1]) && q'[i] == q[i + 1];
        assert q'[j] == kids[j - (|q| - 1)] && q'[j] in kids;
      }
    }
  }

  lemma {:induction false} QueueWaits(m: Memory, N: set<Node>, P: Paths, root: Node?, D: set<Node>, q: seq<Node>,
        kids: seq<Node>, m': Memory, N': set<Node>, P': Paths, D': set<Node>, x: Node)
    requires IsRadix(m, N, P, root) && q != [] && AllWait(m, N, D, q) && q[0] in m && q[0] in N
    requires Evolves(m, N, P, m', N', P', {q[0]}) && D' == D + {q[0]} + (N' - N)
    requires (forall z :: z in kids <==> z in Kids(m[q[0]].branches)) && x in N' && x !in D'
    ensures Waits(m', D', q[1..] + kids, x)
  {
    hide IsRadix;
    var t := q[0];
    assert Waits(m, D, q, x) && OldKept(m, m', P, P', {t}, x);
    if x in q {
      assert q == [t] + q[1..];
    } else {
      Children(m, N, P, root, t, x);
      ParentIs(m, N, P, root, x);
    }
  }

  // When the queue is empty, everything is done.
  lemma {:induction false} QueueEnds(m: Memory, N: set<Node>, P: Paths, root: Node?, D: set<Node>, x: Node)
    requires IsRadix(m, N, P, root) && AllWait(m, N, D, []) && x in N && x in P
    ensures x in D
    decreases |P[x]|
  {
    hide IsRadix;
    if x !in D {
      assert Waits(m, D, [], x);
      NodeIs(m, N, P, root, x);
      QueueEnds(m, N, P, root, D, m[x].parent);
    }
  }

  // ------------------------------------------------------- wildcards kept apart

  // In a compressed tree, the path of each node is the beginning of a string.
  lemma {:induction false} LeadsToString(m: Memory, N: set<Node>, P: Paths, root: Node?, x: Node) returns (y: Node)
    requires IsRadix(m, N, P, root) && IsCompressed(m, N) && x in N && x in P
        && (forall z :: z in N ==> z in P && z in m)
    ensures y in N && m[y].valid && P[x] <= P[y] && P[y] in Keys(m, N, P)
  {
    hide IsRadix, IsCompressed;
    var A := set z | z in N && P[x] <= P[z];
    SubsetSize({x}, A);
    y := LongestPath(P, A);
    FullIs(m, N, y);
    if !m[y].valid {
      var z := Continues(m, N, P, root, y);
    }
  }

  lemma {:induction false} Continues(m: Memory, N: set<Node>, P: Paths, root: Node?, y: Node) returns (z: Node)
    requires IsRadix(m, N, P, root) && y in N && y in m && y in P && 0 < |m[y].branches.Keys|
    ensures z in N && z in P && P[y] < P[z]
  {
    hide IsRadix;
    var c := AnyOf(m[y].branches.Keys);
    LinkIs(m, N, P, root, y, c);
    z := m[y].branches[c];
  }

  lemma {:induction false} LongestPath(P: Paths, A: set<Node>) returns (y: Node)
    requires A != {} && |A| > 0 && (forall z :: z in A ==> z in P)
    ensures y in A && forall z :: z in A ==> |P[z]| <= |P[y]|
    decreases |A|
  {
    var a := AnyOf(A);
    var B := A - {a};
    if |B| == 0 {
      assert B == {};
      y := a;
    } else {
      var b := LongestPath(P, B);
      y := if |P[a]| < |P[b]| then b else a;
    }
    assert forall z :: z in A ==> z == a || z in B;
  }

  lemma {:induction false} PathsApart(m: Memory, N: set<Node>, P: Paths, root: Node?, w: Elem, x: Node)
    requires IsRadix(m, N, P, root) && IsCompressed(m, N) && x in N && x in P
    requires forall s :: s in Keys(m, N, P) ==> NoneAdjacent(w, s)
    ensures NoneAdjacent(w, P[x])
  {
    hide IsRadix, IsCompressed;
    forall z | z in N ensures z in P && z in m { NodeIs(m, N, P, root, z); }
    var y := LeadsToString(m, N, P, root, x);
    assert forall i :: 0 <= i < |P[x]| ==> P[x][i] == P[y][i];
  }
}
