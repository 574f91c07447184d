// Freeing a whole tree without a stack: the parent links, which are no longer
// needed, hold the queue of the nodes that are still to be freed. The radix tree
// does so on both of its levels at once.
module RtFree {

  // A node of the radix tree with the stub by which it hangs in the tree of the
  // branches of its parent. The two have a parent link each.
  class Node {
    var rtParent: Node?
    var branches: Node?
    var parent: Node?
    var left: Node?
    var right: Node?
    // Fields are read and written only before the node is freed: all access goes
    // through the members below.
    ghost var live: bool

    constructor ()
      ensures rtParent == null && branches == null && parent == null && left == null && right == null && live
    {
      rtParent, branches, parent, left, right := null, null, null, null, null;
      live := true;
    }

    function Left(): Node?
      requires live
      reads `left, `live
    {
      left
    }

    function Right(): Node?
      requires live
      reads `right, `live
    {
      right
    }

    function Parent(): Node?
      requires live
      reads `parent, `live
    {
      parent
    }

    function RtParent(): Node?
      requires live
      reads `rtParent, `live
    {
      rtParent
    }

    function Branches(): Node?
      requires live
      reads `branches, `live
    {
      branches
    }

    method SetParent(p: Node?)
      requires live
      modifies `parent
      ensures parent == p
    {
      parent := p;
    }

    method SetRtParent(p: Node?)
      requires live
      modifies `rtParent
      ensures rtParent == p
    {
      rtParent := p;
    }

    // `free_node`
    method Free()
      requires live
      modifies `live
      ensures !live
    {
      live := false;
    }
  }

  // Nodes, of which some have an owner in a lower rank.
  datatype Forest = Forest(nodes: set<Node>, owner: map<Node, Node>, rank: map<Node, nat>)

  ghost predicate IsForest(f: Forest) {
    forall n {:trigger IsOwned(f, n)} :: n in f.nodes && n in f.owner ==> IsOwned(f, n)
  }

  ghost predicate IsOwned(f: Forest, n: Node) {
    n in f.owner && n in f.rank && f.owner[n] in f.nodes && f.owner[n] in f.rank && f.rank[f.owner[n]] < f.rank[n]
  }

  ghost predicate Owns(f: Forest, n: Node, m: Node) {
    m in f.nodes && m in f.owner && f.owner[m] == n
  }

  ghost predicate HasRoot(f: Forest, root: Node?) {
    && (root == null ==> f.nodes == {}) && (root != null ==> root in f.nodes)
    && forall n :: n in f.nodes ==> (n !in f.owner <==> n == root)
  }

  predicate AreDistinct(s: seq<Node>) {
    forall i, j {:trigger s[i], s[j]} :: 0 <= i < j < |s| ==> s[i] != s[j]
  }

  ghost predicate AreKids(f: Forest, n: Node, kids: seq<Node>) {
    && AreDistinct(kids) && (forall m :: m in kids ==> Owns(f, n, m))
    && forall m {:trigger Owns(f, n, m)} :: m in f.nodes && Owns(f, n, m) ==> m in kids
  }

  // ------------------------------------------------------------ breadth-first

  ghost predicate Entered(f: Forest, w: seq<Node>, k: nat, n: Node)
    requires k <= |w|
  {
    n in w <==> (n !in f.owner || f.owner[n] in w[..k])
  }

  // The nodes in w have entered the queue, in this order, and the first k of them
  // have left it again.
  ghost predicate Walk(f: Forest, w: seq<Node>, k: nat) {
    && k <= |w| && AreDistinct(w) && (forall x :: x in w ==> x in f.nodes)
    && forall n {:trigger Entered(f, w, k, n)} :: n in f.nodes ==> Entered(f, w, k, n)
  }

  lemma {:induction false} WalkStart(f: Forest, root: Node)
    requires HasRoot(f, root)
    ensures Walk(f, [root], 0)
  {
    forall n | n in f.nodes ensures Entered(f, [root], 0, n) {}
  }

  lemma {:induction false} NotEarlier(w: seq<Node>, k: nat)
    requires AreDistinct(w) && k < |w|
    ensures w[k] !in w[..k] && w[..k + 1] == w[..k] + [w[k]]
  {}

  lemma {:induction false} BothDistinct(a: seq<Node>, b: seq<Node>)
    requires AreDistinct(a) && AreDistinct(b) && forall x :: x in b ==> x !in a
    ensures AreDistinct(a + b)
  {
    var s := a + b;
    forall i, j | 0 <= i < j < |s| ensures s[i] != s[j] {
      if i < |a| <= j {
        assert a[i] in a && b[j - |a|] in b;
      }
    }
  }

  // One node leaves the queue, and those that it owns enter it.
  lemma {:induction false} WalkStep(f: Forest, w: seq<Node>, k: nat, kids: seq<Node>)
    requires Walk(f, w, k) && k < |w| && AreKids(f, w[k], kids)
    ensures Walk(f, w + kids, k + 1)
  {
    NotEarlier(w, k);
    var w', k' := w + kids, k + 1;
    forall x | x in kids ensures x !in w {
      assert Owns(f, w[k], x) && Entered(f, w, k, x);
    }
    BothDistinct(w, kids);
    assert w'[..k'] == w[..k] + [w[k]];
    forall n | n in f.nodes ensures Entered(f, w', k', n) {
      assert Entered(f, w, k, n);
      assert n in kids <==> Owns(f, w[k], n);
    }
  }

  // With an empty queue, every node has been in it.
  lemma {:induction false} WalkEnd(f: Forest, w: seq<Node>, n: Node)
    requires IsForest(f) && Walk(f, w, |w|) && n in f.nodes
    ensures n in w
    decreases if n in f.rank then f.rank[n] else 0
  {
    assert Entered(f, w, |w|, n);
    assert w[..|w|] == w;
    if n in f.owner {
      assert IsOwned(f, n);
      WalkEnd(f, w, f.owner[n]);
    }
  }

  lemma {:induction false} WalkIsOver(f: Forest, w: seq<Node>)
    requires IsForest(f) && Walk(f, w, |w|)
    ensures AreDistinct(w) && forall n :: n in f.nodes <==> n in w
  {
    forall n | n in f.nodes ensures n in w { WalkEnd(f, w, n); }
  }

  lemma {:induction false} NoMoreThan(w: seq<Node>, s: set<Node>)
    requires AreDistinct(w) && forall x :: x in w ==> x in s
    ensures |w| <= |s|
  {
    if w != [] {
      var x, r := w[|w| - 1], w[..|w| - 1];
      assert w == r + [x] && AreDistinct(r) && x !in r;
      NoMoreThan(r, s - {x});
    }
  }

  // ------------------------------------------------------------- binary trees

  ghost predicate IsChild(f: Forest, n: Node, m: Node?) {
    m != null ==> Owns(f, n, m)
  }

  ghost predicate LinksOk(f: Forest, n: Node)
    reads n`left, n`right
  {
    && IsChild(f, n, n.left) && IsChild(f, n, n.right) && (n.left != null ==> n.left != n.right)
    && forall m {:trigger Owns(f, n, m)} :: m in f.nodes && Owns(f, n, m) ==> m == n.left || m == n.right
  }

  // The links to the left and to the right make a tree of these nodes. Nothing
  // is said about parent links.
  ghost predicate IsBst(f: Forest, root: Node?)
    reads f.nodes`left, f.nodes`right
  {
    IsForest(f) && HasRoot(f, root) && forall n {:trigger LinksOk(f, n)} :: n in f.nodes ==> LinksOk(f, n)
  }

  ghost function Kids(n: Node): (r: seq<Node>)
    reads n`left, n`right
  {
    (if n.left == null then [] else [n.left]) + (if n.right == null then [] else [n.right])
  }

  lemma {:induction false} KidsOk(f: Forest, n: Node)
    requires LinksOk(f, n)
    ensures AreKids(f, n, Kids(n))
  {}

  function After(w: seq<Node>, i: nat): Node? {
    if i + 1 < |w| then w[i + 1] else null
  }

  // From the first k nodes on, each node leads to the next by its parent link.
  ghost predicate IsQueue(w: seq<Node>, k: nat)
    reads w`parent
  {
    forall i {:trigger w[i]} :: k <= i < |w| - 1 ==> w[i].parent == After(w, i)
  }

  // The same, on the upper level.
  ghost predicate IsRtQueue(w: seq<Node>, k: nat)
    reads w`rtParent
  {
    forall i {:trigger w[i]} :: k <= i < |w| - 1 ==> w[i].rtParent == After(w, i)
  }

  // A node goes to the end of the queue.
  method Append(last: Node, x: Node, ghost w: seq<Node>, ghost k: nat) returns (r: Node)
    requires w != [] && last == w[|w| - 1] && AreDistinct(w) && IsQueue(w, k) && last.live
    modifies last`parent
    ensures r == x && IsQueue(w + [x], k)
  {
    last.SetParent(x);
    r := x;
  }

  lemma {:induction false} FirstDistinct(a: seq<Node>, b: seq<Node>)
    requires AreDistinct(a + b)
    ensures AreDistinct(a)
  {
    var s := a + b;
    forall i, j | 0 <= i < j < |a| ensures a[i] != a[j] {
      assert s[i] == a[i] && s[j] == a[j];
    }
  }

  lemma {:induction false} LeftFirst(n: Node)
    ensures n.left != null ==> Kids(n) == [n.left] + if n.right == null then [] else [n.right]
    ensures n.left == null ==> Kids(n) == if n.right == null then [] else [n.right]
  {}

  ghost predicate AreLive(s: seq<Node>)
    reads s`live
  {
    forall x :: x in s ==> x.live
  }

  // Only these nodes have been freed.
  ghost predicate OthersLive(f: Forest, gone: seq<Node>)
    reads f.nodes`live
  {
    forall x :: x in f.nodes && x !in gone ==> x.live
  }

  // What is still in the queue, and what is about to enter it, is alive.
  lemma {:induction false} NextIsLive(f: Forest, w: seq<Node>, k: nat, kids: seq<Node>)
    requires k < |w| && OthersLive(f, w[..k]) && AreDistinct(w + kids) && forall x :: x in w + kids ==> x in f.nodes
    ensures AreLive(w[k..]) && AreLive(kids) && w[k].live && w[|w| - 1].live
    ensures (w + kids)[|w + kids| - 1].live
  {
    var s := w + kids;
    forall i | k <= i < |s| ensures s[i] !in w[..k] && s[i].live {
      forall j | 0 <= j < k ensures w[j] != s[i] { assert s[j] == w[j]; }
      assert s[i] in s;
    }
    forall x | x in w[k..] ensures x.live {
      var i :| k <= i < |w| && w[i] == x;
      assert s[i] == x;
    }
    forall x | x in kids ensures x.live {
      var i :| 0 <= i < |kids| && kids[i] == x;
      assert s[|w| + i] == x;
    }
    assert s[k] == w[k] && s[|w| - 1] == w[|w| - 1];
  }

  lemma {:induction false} GoneIsOn(f: Forest, w: seq<Node>, gone: seq<Node>, head: Node)
    requires |gone| < |w| && gone == w[..|gone|] && head == w[|gone|] && AreDistinct(w) && OthersLive(f, gone)
        && head in f.nodes
    ensures head.live && head !in gone
  {
    NotEarlier(w, |gone|);
  }

  lemma {:induction false} AllLive(g: Forest, v: seq<Node>, kids: seq<Node>)
    requires OthersLive(g, []) && forall x :: x in v + kids ==> x in g.nodes
    ensures AreLive(v) && AreLive(kids)
  {
    forall x | x in kids ensures x.live { assert x in v + kids; }
    forall x | x in v ensures x.live { assert x in v + kids; }
  }

  lemma {:induction false} OneMoreGone(f: Forest, gone: seq<Node>, head: Node)
    requires forall x :: x in f.nodes && x !in gone && x != head ==> x.live
    ensures OthersLive(f, gone + [head])
  {}

  // The children of the node at the front go to the end of the queue.
  method AppendKids(head: Node, last0: Node, ghost w: seq<Node>, ghost k: nat) returns (last: Node)
    requires w != [] && last0 == w[|w| - 1] && AreDistinct(w + Kids(head)) && IsQueue(w, k)
    requires head.live && last0.live && AreLive(Kids(head))
    modifies (set x | x in w + Kids(head))`parent
    ensures var w' := w + Kids(head); IsQueue(w', k) && last == w'[|w'| - 1]
  {
    hide AreDistinct, IsQueue;
    LeftFirst(head);
    FirstDistinct(w, Kids(head));
    ghost var v := w;
    last := last0;
    if head.Left() != null {
      last := Append(last, head.Left(), v, k);
      v := v + [head.Left()];
      assert v + (if head.Right() == null then [] else [head.Right()]) == w + Kids(head);
      FirstDistinct(v, if head.Right() == null then [] else [head.Right()]);
    }
    if head.Right() != null {
      last := Append(last, head.Right(), v, k);
      v := v + [head.Right()];
    }
    assert v == w + Kids(head);
  }

  lemma {:induction false} EmptyForest(f: Forest)
    requires IsBst(f, null)
    ensures f.nodes == {} && AreDistinct([])
  {}

  lemma {:induction false} StartIs(f: Forest, root: Node)
    requires IsBst(f, root)
    ensures IsFreeing(f, [root], 0, root, root)
  {
    WalkStart(f, root);
  }

  lemma {:induction false} BstIsForest(f: Forest, root: Node?)
    requires IsBst(f, root)
    ensures IsForest(f)
  {}

  lemma {:induction false} QueueFront(w: seq<Node>, k: nat)
    requires k < |w| && IsQueue(w, k) && w[|w| - 1].parent == null
    ensures w[k].parent == (if k + 1 < |w| then w[k + 1] else null) && IsQueue(w, k + 1)
  {}

  // The first k nodes of the queue have been freed; head is the next one.
  ghost predicate IsFreeing(f: Forest, w: seq<Node>, k: nat, head: Node?, last: Node?)
    reads w`parent
  {
    && k <= |w| && Walk(f, w, k) && w != [] && last == w[|w| - 1] && IsQueue(w, k)
    && head == if k < |w| then w[k] else null
  }

  lemma {:induction false} StepIsOn(f: Forest, root: Node?, w: seq<Node>, k: nat, head: Node)
    requires IsBst(f, root) && Walk(f, w, k) && k < |w| && head == w[k]
    ensures Walk(f, w + Kids(head), k + 1) && AreDistinct(w + Kids(head)) && |w + Kids(head)| <= |f.nodes|
    ensures forall x :: x in w + Kids(head) ==> x in f.nodes
  {
    assert LinksOk(f, head);
    KidsOk(f, head);
    WalkStep(f, w, k, Kids(head));
    NoMoreThan(w + Kids(head), f.nodes);
  }

  // The queue ends here.
  method EndQueue(last: Node, ghost w: seq<Node>, ghost k: nat)
    requires w != [] && last == w[|w| - 1] && AreDistinct(w) && IsQueue(w, k) && last.live
    modifies last`parent
    ensures IsQueue(w, k) && w[|w| - 1].parent == null
  {
    last.SetParent(null);
  }

  // One round of `bst_free_all`, up to the call that frees the head
  method FreeNext(head: Node, last0: Node, ghost f: Forest, ghost root: Node?, ghost w: seq<Node>, ghost k: nat)
    returns (next: Node?, last: Node)
    requires IsBst(f, root) && IsFreeing(f, w, k, head, last0) && OthersLive(f, w[..k])
    modifies f.nodes`parent
    ensures IsFreeing(f, w + Kids(head), k + 1, next, last) && k < |w| && w[k] == head && |w + Kids(head)| <= |f.nodes|
  {
    hide IsBst, AreDistinct, Walk, OthersLive, IsQueue, Kids;
    StepIsOn(f, root, w, k, head);
    ghost var w' := w + Kids(head);
    NextIsLive(f, w, k, Kids(head));
    last := AppendKids(head, last0, w, k);
    assert w' == w + Kids(head);
    EndQueue(last, w', k);
    QueueFront(w', k);
    next := head.Parent();
  }

  // `bst_free_all`, with the nodes in the order in which they are freed
  method BstFreeAll(root: Node?, ghost f: Forest) returns (r: Node?, freed: seq<Node>)
    requires IsBst(f, root) && OthersLive(f, [])
    modifies f.nodes`parent, f.nodes`live
    ensures r == null && AreDistinct(freed) && forall n :: n in f.nodes <==> n in freed
    ensures forall n :: n in f.nodes ==> !n.live
  {
    hide IsBst, AreDistinct, Walk, IsQueue;
    freed := [];
    r := null;
    if root == null {
      EmptyForest(f);
      return;
    }
    var head: Node?, last := root, root;
    ghost var w: seq<Node> := [root];
    StartIs(f, root);
    while head != null
      invariant IsFreeing(f, w, |freed|, head, last) && freed == w[..|freed|] && IsBst(f, root)
      invariant OthersLive(f, freed) && forall x :: x in freed ==> !x.live
      decreases |f.nodes| - |freed|
    {
      ghost var w' := w + Kids(head);
      var next: Node?;
      WalkFacts(f, w, |freed|);
      GoneIsOn(f, w, freed, head);
      next, last := FreeNext(head, last, f, root, w, |freed|);
      w := w';
      head.Free();
      OneMoreGone(f, freed, head);
      freed := freed + [head];
      head := next;
    }
    BstIsForest(f, root);
    WalkIsOver(f, w);
    assert freed == w;
  }

  // -------------------------------------------------------------- two levels

  // The branches of a node are a binary tree of exactly the nodes it owns.
  ghost predicate BranchesOk(f: Forest, trees: map<Node, Forest>, n: Node)
    reads n`branches, f.nodes`left, f.nodes`right
  {
    && n in trees && trees[n].nodes <= f.nodes && IsBst(trees[n], n.branches)
    && forall m {:trigger Owns(f, n, m)} :: m in f.nodes ==> (Owns(f, n, m) <==> m in trees[n].nodes)
  }

  ghost predicate IsRadix(f: Forest, trees: map<Node, Forest>, root: Node?)
    reads f.nodes`branches, f.nodes`left, f.nodes`right
  {
    IsForest(f) && HasRoot(f, root)
        && forall n {:trigger BranchesOk(f, trees, n)} :: n in f.nodes ==> BranchesOk(f, trees, n)
  }

  // `add_to_free_node_list`: to the end of both queues. The first time, the node
  // is itself the end of the queue of the branches.
  method AddToLists(x: Node, rtLast0: Node, bstLast0: Node, ghost w: seq<Node>, ghost k: nat, ghost v: seq<Node>,
        ghost j: nat)
    returns (rtLast: Node, bstLast: Node)
    requires w != [] && rtLast0 == w[|w| - 1] && AreDistinct(w) && IsRtQueue(w, k)
    requires AreDistinct(v) && IsQueue(v, j) && (v != [] ==> bstLast0 == v[|v| - 1])
    requires rtLast0.live && bstLast0.live
    modifies rtLast0`rtParent, bstLast0`parent
    ensures rtLast == x && IsRtQueue(w + [x], k) && bstLast == x && IsQueue(v + [x], j)
  {
    rtLast0.SetRtParent(x);
    rtLast := rtLast0.RtParent();
    bstLast0.SetParent(x);
    bstLast := bstLast0.Parent();
  }

  method AddKids(head: Node, rtLast0: Node, bstLast0: Node, ghost w: seq<Node>, ghost k: nat, ghost v: seq<Node>,
        ghost j: nat)
    returns (rtLast: Node, bstLast: Node)
    requires w != [] && rtLast0 == w[|w| - 1] && AreDistinct(w + Kids(head)) && IsRtQueue(w, k)
    requires v != [] && bstLast0 == v[|v| - 1] && AreDistinct(v + Kids(head)) && IsQueue(v, j)
    requires head.live && rtLast0.live && bstLast0.live && AreLive(Kids(head))
    modifies (set x | x in w + Kids(head))`rtParent, (set x | x in v + Kids(head))`parent
    ensures var w' := w + Kids(head); IsRtQueue(w', k) && rtLast == w'[|w'| - 1]
    ensures var v' := v + Kids(head); IsQueue(v', j) && bstLast == v'[|v'| - 1]
    ensures rtLast.live && bstLast.live
  {
    hide AreDistinct, IsQueue, IsRtQueue;
    LeftFirst(head);
    FirstDistinct(w, Kids(head));
    FirstDistinct(v, Kids(head));
    ghost var a, b := w, v;
    rtLast, bstLast := rtLast0, bstLast0;
    if head.Left() != null {
      rtLast, bstLast := AddToLists(head.Left(), rtLast, bstLast, a, k, b, j);
      a, b := a + [head.Left()], b + [head.Left()];
      ghost var rest := if head.Right() == null then [] else [head.Right()];
      assert a + rest == w + Kids(head) && b + rest == v + Kids(head);
      FirstDistinct(a, rest);
      FirstDistinct(b, rest);
    }
    if head.Right() != null {
      rtLast, bstLast := AddToLists(head.Right(), rtLast, bstLast, a, k, b, j);
      a, b := a + [head.Right()], b + [head.Right()];
    }
    assert a == w + Kids(head) && b == v + Kids(head);
  }

  // While the branches of a node are queued: nodes of the tree g of branches that
  // are in the queue w of the upper level are those in the queue v of the lower.
  ghost predicate IsQueueing(g: Forest, w: seq<Node>, k: nat, v: seq<Node>, rtLast: Node)
    reads w`rtParent
  {
    && w != [] && rtLast == w[|w| - 1] && AreDistinct(w) && IsRtQueue(w, k)
    && forall x :: x in g.nodes && x in w ==> x in v
  }

  lemma {:induction false} KidsAreNew(g: Forest, root: Node?, w: seq<Node>, v: seq<Node>, j: nat, head: Node)
    requires IsBst(g, root) && Walk(g, v, j) && j < |v| && head == v[j]
    requires AreDistinct(w) && forall x :: x in g.nodes && x in w ==> x in v
    ensures AreDistinct(w + Kids(head)) && forall x :: x in g.nodes && x in w + Kids(head) ==> x in v + Kids(head)
  {
    StepIsOn(g, root, v, j, head);
    ghost var kids := Kids(head);
    forall x | x in kids ensures x !in w {
      assert x in v + kids;
      NotInBoth(v, kids, x);
    }
    LastDistinct(v, kids);
    BothDistinct(w, kids);
  }

  lemma {:induction false} NotInBoth(a: seq<Node>, b: seq<Node>, x: Node)
    requires AreDistinct(a + b) && x in b
    ensures x !in a
  {
    var s, i :| 0 <= i < |b| && b[i] == x && s == a + b;
    forall j | 0 <= j < |a| ensures a[j] != x { assert s[j] == a[j] && s[|a| + i] == b[i]; }
  }

  lemma {:induction false} LastDistinct(a: seq<Node>, b: seq<Node>)
    requires AreDistinct(a + b)
    ensures AreDistinct(b)
  {
    var s := a + b;
    forall i, j | 0 <= i < j < |b| ensures b[i] != b[j] {
      assert s[|a| + i] == b[i] && s[|a| + j] == b[j];
    }
  }

  // One round of the inner loop of `rt_free_all`
  method BranchNext(head: Node, rtLast0: Node, bstLast0: Node, ghost g: Forest, ghost root: Node?, ghost w: seq<Node>,
        ghost k: nat, ghost v: seq<Node>, ghost j: nat)
    returns (next: Node?, rtLast: Node, bstLast: Node)
    requires IsBst(g, root) && IsFreeing(g, v, j, head, bstLast0) && IsQueueing(g, w, k, v, rtLast0)
    requires rtLast0.live && OthersLive(g, [])
    modifies (set x | x in w + Kids(head))`rtParent, g.nodes`parent
    ensures IsFreeing(g, v + Kids(head), j + 1, next, bstLast) && |v + Kids(head)| <= |g.nodes| && j < |v|
    ensures IsQueueing(g, w + Kids(head), k, v + Kids(head), rtLast) && rtLast.live
  {
    hide IsBst, AreDistinct, Walk, IsRtQueue, OthersLive, IsQueue, Kids;
    StepIsOn(g, root, v, j, head);
    KidsAreNew(g, root, w, v, j, head);
    ghost var w', v' := w + Kids(head), v + Kids(head);
    AllLive(g, v, Kids(head));
    rtLast, bstLast := AddKids(head, rtLast0, bstLast0, w, k, v, j);
    assert v' == v + Kids(head) && w' == w + Kids(head);
    assert IsRtQueue(w', k);
    EndQueue(bstLast, v', j);
    QueueFront(v', j);
    next := head.Parent();
  }

  lemma {:induction false} OwnedAreNew(f: Forest, trees: map<Node, Forest>, root: Node?, w: seq<Node>, k: nat)
    requires IsRadix(f, trees, root) && Walk(f, w, k) && k < |w|
    ensures var h := w[k]; BranchesOk(f, trees, h) && forall x :: x in trees[h].nodes ==> x !in w
  {
    var h := w[k];
    assert BranchesOk(f, trees, h);
    NotEarlier(w, k);
    forall x | x in trees[h].nodes ensures x !in w {
      assert Owns(f, h, x) && Entered(f, w, k, x);
    }
  }

  lemma {:induction false} OneMore(w: seq<Node>, x: Node)
    requires AreDistinct(w) && x !in w
    ensures AreDistinct(w + [x]) && AreDistinct([])
  {}

  lemma {:induction false} TreeIsKids(f: Forest, trees: map<Node, Forest>, h: Node, v: seq<Node>)
    requires BranchesOk(f, trees, h) && AreDistinct(v) && forall x :: x in trees[h].nodes <==> x in v
    ensures AreKids(f, h, v)
  {
    forall m | m in v ensures Owns(f, h, m) { assert m in f.nodes; }
  }

  // The inner loop of `rt_free_all`
  method QueueTree(bstRoot: Node, last0: Node, ghost g: Forest, ghost w: seq<Node>, ghost k: nat)
    returns (last: Node, ghost v: seq<Node>)
    requires IsBst(g, bstRoot) && w != [] && last0 == w[|w| - 1] && AreDistinct(w) && IsRtQueue(w, k)
    requires (forall x :: x in g.nodes ==> x !in w) && last0.live && OthersLive(g, [])
    modifies w`rtParent, g.nodes`rtParent, g.nodes`parent
    ensures AreDistinct(v) && (forall x :: x in g.nodes <==> x in v)
    ensures IsRtQueue(w + v, k) && last == (w + v)[|w + v| - 1] && last.live
  {
    hide IsBst, AreDistinct, Walk, IsQueue, IsRtQueue, IsFreeing, IsQueueing;
    RootIs(g, bstRoot);
    OneMore(w, bstRoot);
    var bstHead: Node?, bstLast: Node;
    last, bstLast := AddToLists(bstRoot, last0, bstRoot, w, k, [], 0);
    bstHead, v := bstRoot, [bstRoot];
    StartIs(g, bstRoot);
    QueueingStarts(g, w, k, bstRoot);
    ghost var j := 0;
    while bstHead != null
      invariant IsFreeing(g, v, j, bstHead, bstLast) && IsQueueing(g, w + v, k, v, last) && IsBst(g, bstRoot)
      invariant j <= |g.nodes| && last.live
      decreases |g.nodes| - j
    {
      ghost var v' := v + Kids(bstHead);
      assert (w + v) + Kids(bstHead) == w + v';
      InsideTree(g, bstRoot, v, j, bstHead, bstLast);
      var next: Node?;
      next, last, bstLast := BranchNext(bstHead, last, bstLast, g, bstRoot, w + v, k, v, j);
      v, j := v', j + 1;
      bstHead := next;
    }
    TreeIsQueued(g, bstRoot, w + v, k, v, j, bstLast, last);
  }

  lemma {:induction false} QueueingStarts(g: Forest, w: seq<Node>, k: nat, x: Node)
    requires AreDistinct(w + [x]) && IsRtQueue(w + [x], k) && forall y :: y in g.nodes ==> y !in w
    ensures IsQueueing(g, w + [x], k, [x], x)
  {}

  lemma {:induction false} InsideTree(g: Forest, root: Node?, v: seq<Node>, j: nat, head: Node, last: Node?)
    requires IsBst(g, root) && IsFreeing(g, v, j, head, last)
    ensures forall x :: x in v + Kids(head) ==> x in g.nodes
    ensures j + 1 <= |g.nodes|
  {
    StepIsOn(g, root, v, j, head);
  }

  lemma {:induction false} TreeIsQueued(g: Forest, root: Node?, w: seq<Node>, k: nat, v: seq<Node>, j: nat,
        bstLast: Node?, rtLast: Node)
    requires IsBst(g, root) && IsFreeing(g, v, j, null, bstLast) && IsQueueing(g, w, k, v, rtLast)
    ensures AreDistinct(v) && (forall x :: x in g.nodes <==> x in v)
    ensures IsRtQueue(w, k) && w != [] && rtLast == w[|w| - 1]
  {
    BstIsForest(g, root);
    WalkIsOver(g, v);
  }

  // The inner part of `rt_free_all`: all branches of a node go to the end of the
  // queue, in the order in which they are met.
  method QueueBranches(h: Node, last0: Node, ghost f: Forest, ghost trees: map<Node, Forest>, ghost root: Node?,
        ghost w: seq<Node>, ghost k: nat)
    returns (last: Node, ghost v: seq<Node>)
    requires IsRadix(f, trees, root) && Walk(f, w, k) && k < |w| && w[k] == h
    requires last0 == w[|w| - 1] && AreDistinct(w) && IsRtQueue(w, k) && OthersLive(f, w[..k])
    modifies f.nodes`rtParent, f.nodes`parent
    ensures AreKids(f, h, v) && IsRtQueue(w + v, k) && last == (w + v)[|w + v| - 1] && last.live
  {
    hide IsRadix, IsBst, AreDistinct, Walk, AreKids, IsRtQueue;
    OwnedAreNew(f, trees, root, w, k);
    WalkFacts(f, w, k);
    assert w + [] == w;
    NextIsLive(f, w, k, []);
    var bstHead := h.Branches();
    if bstHead != null {
      last, v := QueueTree(bstHead, last0, trees[h], w, k);
    } else {
      last, v := last0, [];
      EmptyForest(trees[h]);
      assert w + v == w;
    }
    TreeIsKids(f, trees, h, v);
  }

  lemma {:induction false} RootIs(g: Forest, root: Node)
    requires IsBst(g, root)
    ensures root in g.nodes
  {}

  // While nodes are freed: the first k nodes of the queue are gone, and the next
  // one is the head.
  ghost predicate IsRtFreeing(f: Forest, w: seq<Node>, k: nat, head: Node?, last: Node?)
    reads w`rtParent
  {
    && k <= |w| && Walk(f, w, k) && w != [] && last == w[|w| - 1] && IsRtQueue(w, k)
    && head == if k < |w| then w[k] else null
  }

  lemma {:induction false} RtQueueFront(w: seq<Node>, k: nat)
    requires k < |w| && IsRtQueue(w, k) && w[|w| - 1].rtParent == null
    ensures w[k].rtParent == (if k + 1 < |w| then w[k + 1] else null) && IsRtQueue(w, k + 1)
  {}

  lemma {:induction false} WalkFacts(f: Forest, w: seq<Node>, k: nat)
    requires Walk(f, w, k)
    ensures k <= |w| <= |f.nodes| && AreDistinct(w) && forall x :: x in w ==> x in f.nodes
  {
    NoMoreThan(w, f.nodes);
  }

  // One round of the outer loop of `rt_free_all`, up to the call that frees the
  // head
  method RtFreeNext(head: Node, last0: Node, ghost f: Forest, ghost trees: map<Node, Forest>, ghost root: Node?,
        ghost w: seq<Node>, ghost k: nat)
    returns (next: Node?, last: Node, ghost v: seq<Node>)
    requires IsRadix(f, trees, root) && IsRtFreeing(f, w, k, head, last0) && OthersLive(f, w[..k])
    modifies f.nodes`rtParent, f.nodes`parent
    ensures IsRtFreeing(f, w + v, k + 1, next, last) && k < |w| && w[k] == head && |w + v| <= |f.nodes|
  {
    hide IsRadix, AreDistinct, Walk, AreKids;
    WalkFacts(f, w, k);
    GoneIsOn(f, w, w[..k], head);
    last, v := QueueBranches(head, last0, f, trees, root, w, k);
    WalkStep(f, w, k, v);
    WalkFacts(f, w + v, k + 1);
    ghost var w' := w + v;
    last.SetRtParent(null);
    RtQueueFront(w', k);
    next := head.RtParent();
  }

  lemma {:induction false} RadixStart(f: Forest, trees: map<Node, Forest>, root: Node)
    requires IsRadix(f, trees, root)
    ensures IsRtFreeing(f, [root], 0, root, root)
  {
    WalkStart(f, root);
  }

  lemma {:induction false} RadixFacts(f: Forest, trees: map<Node, Forest>, root: Node?)
    requires IsRadix(f, trees, root)
    ensures IsForest(f) && (root == null ==> f.nodes == {}) && AreDistinct([])
  {}

  // `rt_free_all`, with the nodes in the order in which they are freed
  method RtFreeAll(root: Node?, ghost f: Forest, ghost trees: map<Node, Forest>) returns (r: Node?, freed: seq<Node>)
    requires IsRadix(f, trees, root) && OthersLive(f, [])
    modifies f.nodes`rtParent, f.nodes`parent, f.nodes`live
    ensures r == null && AreDistinct(freed) && forall n :: n in f.nodes <==> n in freed
    ensures forall n :: n in f.nodes ==> !n.live
  {
    hide IsRadix, AreDistinct, Walk, IsRtQueue;
    RadixFacts(f, trees, root);
    freed := [];
    r := null;
    if root == null {
      return;
    }
    var head: Node?, last := root, root;
    ghost var w: seq<Node> := [root];
    RadixStart(f, trees, root);
    while head != null
      invariant IsRtFreeing(f, w, |freed|, head, last) && freed == w[..|freed|] && IsRadix(f, trees, root)
      invariant OthersLive(f, freed) && forall x :: x in freed ==> !x.live
      decreases |f.nodes| - |freed|
    {
      var next: Node?;
      ghost var v;
      WalkFacts(f, w, |freed|);
      GoneIsOn(f, w, freed, head);
      next, last, v := RtFreeNext(head, last, f, trees, root, w, |freed|);
      w := w + v;
      head.Free();
      OneMoreGone(f, freed, head);
      freed := freed + [head];
      head := next;
    }
    WalkIsOver(f, w);
    assert freed == w;
  }
}
