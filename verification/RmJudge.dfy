// A caller of the matcher may give a judge, which is asked before a branch is
// taken. What can be found is then what the rest of the tree can find: the
// branches that are never taken, and everything below them, are as good as gone.
module RmJudge {
  import opened RtLinks
  import opened RtSteps
  import opened RmSplit
  import opened RmItems

  // Whether the branch from the first node to the second one may be taken.
  type Judge = (Node, Node) -> bool

  // Nobody is asked about the way into a wildcard.
  predicate Passes(t: Net, judge: Judge, y: Node) {
    y in t.m && (t.m[y].parent == null || t.m[y].skey == [] || t.m[y].skey[0] == t.w || judge(t.m[y].parent, y))
  }

  // No branch on the way to this node is refused.
  ghost predicate IsReached(t: Net, judge: Judge, x: Node) {
    x in t.P && forall y {:trigger Passes(t, judge, y)} ::
                  y in t.N && y in t.P && t.P[y] <= t.P[x] ==> Passes(t, judge, y)
  }

  ghost function Reached(t: Net, judge: Judge): set<Node> {
    set x | x in t.N && IsReached(t, judge, x)
  }

  function OpenBranches(t: Net, judge: Judge, x: Node): map<Elem, Node> {
    map c | c in BranchesOf(t, x) && (c == t.w || judge(x, BranchesOf(t, x)[c])) :: BranchesOf(t, x)[c]
  }

  ghost function OpenMemory(t: Net, judge: Judge): Memory {
    map x | x in Reached(t, judge) && x in t.m :: t.m[x].(branches := OpenBranches(t, judge, x))
  }

  // The tree without the branches that are refused.
  ghost function OpenNet(t: Net, judge: Judge): Net {
    Net(OpenMemory(t, judge), Reached(t, judge), t.P, t.root, t.w)
  }

  lemma {:induction false} OpenIs(t: Net, judge: Judge, x: Node)
    requires x in Reached(t, judge) && x in t.m
    ensures var t' := OpenNet(t, judge);
            x in t'.m && x in t.N && t'.m[x] == t.m[x].(branches := OpenBranches(t, judge, x))
  {
    hide IsReached, OpenBranches;
  }

  lemma {:induction false} InNet(t: Net, judge: Judge, x: Node)
    requires IsNet(t) && x in Reached(t, judge)
    ensures x in t.N && x in t.m && x in t.P && IsReached(t, judge, x)
  {
    hide IsNet, IsReached;
    NetNode(t, x);
  }

  lemma {:induction false} RootIsReached(t: Net, judge: Judge)
    requires IsNet(t)
    ensures t.root in Reached(t, judge) && t.root in t.m && t.m[t.root].parent == null
  {
    hide IsRadix;
    RootIs(t.m, t.N, t.P, t.root);
    NodeIs(t.m, t.N, t.P, t.root, t.root);
    forall y | y in t.N && y in t.P && t.P[y] <= t.P[t.root] ensures Passes(t, judge, y) {
      NodeIs(t.m, t.N, t.P, t.root, y);
      RootIsLeast(t.m, t.N, t.P, t.root, y);
      Divide(t.m, t.N, t.P, t.root, y, t.root);
    }
  }

  // A node is reached when its parent is, and the branch to it may be taken.
  lemma {:induction false} ReachedFrom(t: Net, judge: Judge, x: Node)
    requires IsNet(t) && x in t.N && x in t.m && t.m[x].parent != null
    ensures t.m[x].parent in t.N
    ensures x in Reached(t, judge) <==> t.m[x].parent in Reached(t, judge) && Passes(t, judge, x)
  {
    hide IsRadix, Passes;
    NodeIs(t.m, t.N, t.P, t.root, x);
    var p := t.m[x].parent;
    assert t.P[p] <= t.P[x];
    NodeIs(t.m, t.N, t.P, t.root, p);
    if p in Reached(t, judge) && Passes(t, judge, x) {
      forall y | y in t.N && y in t.P && t.P[y] <= t.P[x] ensures Passes(t, judge, y) {
        Between(t, p, y, x);
      }
    }
    if x in Reached(t, judge) {
      assert Passes(t, judge, x);
      forall y | y in t.N && y in t.P && t.P[y] <= t.P[p] ensures Passes(t, judge, y) {}
    }
  }

  // Between a node and its parent there is no other one.
  lemma {:induction false} Between(t: Net, p: Node, y: Node, x: Node)
    requires IsNet(t) && x in t.N && x in t.m && t.m[x].parent == p && p in t.N && y in t.N
    requires x in t.P && y in t.P && p in t.P && t.P[y] <= t.P[x]
    ensures y == x || t.P[y] <= t.P[p]
  {
    hide IsRadix;
    NodeIs(t.m, t.N, t.P, t.root, x);
    NodeIs(t.m, t.N, t.P, t.root, p);
    NodeIs(t.m, t.N, t.P, t.root, y);
    if !(t.P[y] <= t.P[p]) {
      assert t.P[p] < t.P[y];
      Divide(t.m, t.N, t.P, t.root, p, y);
      assert t.P[y][|t.P[p]|] == t.P[x][|t.P[p]|] == t.m[x].skey[0];
      Divide(t.m, t.N, t.P, t.root, x, y);
    }
  }

  lemma {:induction false} OpenNodeOk(t: Net, judge: Judge, x: Node)
    requires IsNet(t) && x in Reached(t, judge)
    ensures var t' := OpenNet(t, judge);
            NodeOk(t'.m, t'.N, t'.P, t'.root, x) && WcOk(t'.m, t'.w, t'.N, x) && SegmentOk(t'.m, t'.w, x)
  {
    hide IsRadix, WcsOk, SegmentsOk, AllApart, Reached, OpenMemory;
    var t' := OpenNet(t, judge);
    InNet(t, judge, x);
    OpenIs(t, judge, x);
    NodeIs(t.m, t.N, t.P, t.root, x);
    SegmentIs(t.m, t.w, t.N, x);
    WcIs(t.m, t.N, t.w, t.N, x);
    var p := t.m[x].parent;
    if p != null {
      ReachedFrom(t, judge, x);
      InNet(t, judge, p);
      OpenIs(t, judge, p);
    }
    forall c | c in OpenBranches(t, judge, x) ensures LinkOk(t'.m, t'.N, t'.P, x, c) {
      LinkIs(t.m, t.N, t.P, t.root, x, c);
      ReachedFrom(t, judge, t.m[x].branches[c]);
      OpenIs(t, judge, t.m[x].branches[c]);
    }
    if t.w in t.m[x].branches {
      LinkIs(t.m, t.N, t.P, t.root, x, t.w);
      assert LinkOk(t'.m, t'.N, t'.P, x, t.w);
    }
  }

  lemma {:induction false} OpenIsNet(t: Net, judge: Judge)
    requires IsNet(t)
    ensures IsNet(OpenNet(t, judge))
  {
    hide NodeOk, WcOk, SegmentOk, Reached, OpenMemory;
    var t' := OpenNet(t, judge);
    RootIsReached(t, judge);
    OpenIs(t, judge, t.root);
    forall x | x in t'.N
      ensures NodeOk(t'.m, t'.N, t'.P, t'.root, x) && WcOk(t'.m, t'.w, t'.N, x) && SegmentOk(t'.m, t'.w, x)
      ensures x in t.N
    {
      OpenNodeOk(t, judge, x);
      InNet(t, judge, x);
    }
  }

  // A judge that never refuses changes nothing.
  lemma {:induction false} AllOpen(t: Net, judge: Judge)
    requires IsNet(t) && t.m.Keys == t.N && forall x, y :: x in t.N && y in t.N ==> judge(x, y)
    ensures OpenNet(t, judge) == t
  {
    hide IsNet;
    forall x | x in t.N ensures x in Reached(t, judge) && OpenBranches(t, judge, x) == t.m[x].branches {
      EveryoneReached(t, judge, x);
    }
    assert Reached(t, judge) == t.N;
    assert OpenMemory(t, judge) == t.m;
  }

  lemma {:induction false} EveryoneReached(t: Net, judge: Judge, x: Node)
    requires IsNet(t) && x in t.N && forall x, y :: x in t.N && y in t.N ==> judge(x, y)
    ensures x in Reached(t, judge) && x in t.m && OpenBranches(t, judge, x) == t.m[x].branches
  {
    hide IsNet;
    NetNode(t, x);
    forall y | y in t.N && y in t.P && t.P[y] <= t.P[x] ensures Passes(t, judge, y) {
      NetNode(t, y);
    }
    forall c | c in t.m[x].branches ensures c in OpenBranches(t, judge, x) {
      NetChild(t, x, c);
    }
  }
}
