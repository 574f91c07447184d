// The nodes of a radix tree, and what it means that a memory holds one. A
// memory is a snapshot of the fields of a set of nodes. The string that leads
// from the root to the end of a node's label is kept beside it as its path.
module RtLinks {

  type Elem = int
  type Str = seq<Elem>

  class Node {
    // the label, never empty except in a root that only splits
    var skey: Str
    // the children, by the first element of their labels
    var branches: map<Elem, Node>
    var parent: Node?
    // whether a string of the set ends here
    var valid: bool
    // the child that is a wildcard, in a tree prepared for matching
    var wcNode: Node?

    constructor (key: Str)
      ensures skey == key && branches == map[] && parent == null && valid && wcNode == null
    {
      skey, branches, parent, valid, wcNode := key, map[], null, true, null;
    }

    ghost function Fields(): Cell
      reads this
    {
      Cell(skey, branches, parent, valid, wcNode)
    }

    // One write each; S is a set of nodes that contains this one.
    method SetKey(k: Str, ghost S: set<Node>)
      requires this in S
      modifies `skey
      ensures Snapshot(S) == PutKey(old(Snapshot(S)), this, k) && skey == k
    {
      skey := k;
    }

    method SetParent(p: Node?, ghost S: set<Node>)
      requires this in S
      modifies `parent
      ensures Snapshot(S) == PutParent(old(Snapshot(S)), this, p) && parent == p
    {
      parent := p;
    }

    method SetBranches(b: map<Elem, Node>, ghost S: set<Node>)
      requires this in S
      modifies `branches
      ensures Snapshot(S) == PutBranches(old(Snapshot(S)), this, b) && branches == b
    {
      branches := b;
    }

    method SetValid(v: bool, ghost S: set<Node>)
      requires this in S
      modifies `valid
      ensures Snapshot(S) == PutValid(old(Snapshot(S)), this, v) && valid == v
    {
      valid := v;
    }

    method SetWcNode(n: Node?, ghost S: set<Node>)
      requires this in S
      modifies `wcNode
      ensures Snapshot(S) == PutWcNode(old(Snapshot(S)), this, n) && wcNode == n
    {
      wcNode := n;
    }
  }

  datatype Cell = Cell(skey: Str, branches: map<Elem, Node>, parent: Node?, valid: bool, wcNode: Node?)

  type Memory = map<Node, Cell>
  type Paths = map<Node, Str>

  ghost function Snapshot(S: set<Node>): (m: Memory)
    reads S
    ensures m.Keys == S
  {
    map x | x in S :: x.Fields()
  }

  lemma {:induction false} SnapshotAt(S: set<Node>, x: Node?)
    requires x != null ==> x in S
    ensures x != null ==> Snapshot(S)[x] == Cell(x.skey, x.branches, x.parent, x.valid, x.wcNode)
  {}

  function PutKey(m: Memory, x: Node, k: Str): Memory {
    if x !in m then m else m[x := m[x].(skey := k)]
  }

  function PutParent(m: Memory, x: Node, p: Node?): Memory {
    if x !in m then m else m[x := m[x].(parent := p)]
  }

  function PutBranches(m: Memory, x: Node, b: map<Elem, Node>): Memory {
    if x !in m then m else m[x := m[x].(branches := b)]
  }

  function PutValid(m: Memory, x: Node, v: bool): Memory {
    if x !in m then m else m[x := m[x].(valid := v)]
  }

  function PutWcNode(m: Memory, x: Node, n: Node?): Memory {
    if x !in m then m else m[x := m[x].(wcNode := n)]
  }

  // ------------------------------------------------------------- a radix tree

  // The child for element c hangs where it should.
  ghost predicate LinkOk(m: Memory, N: set<Node>, P: Paths, x: Node, c: Elem) {
    x in m && x in P && c in m[x].branches &&
    var y := m[x].branches[c];
    y in N && y in m && y in P && m[y].parent == x && m[y].skey != [] && m[y].skey[0] == c && P[y] == P[x] + m[y].skey
  }

  // A node hangs from its parent, or is the root.
  ghost predicate UpOk(m: Memory, N: set<Node>, P: Paths, root: Node?, x: Node) {
    && x in m && x in P
    && (m[x].parent == null ==> x == root && P[x] == m[x].skey && (m[x].skey == [] ==> !m[x].valid))
    && (m[x].parent != null ==>
          && x != root && m[x].parent in N && m[x].parent in m && m[x].parent in P && m[x].skey != []
          && m[x].skey[0] in m[m[x].parent].branches && m[m[x].parent].branches[m[x].skey[0]] == x
          && P[x] == P[m[x].parent] + m[x].skey)
  }

  ghost predicate DownOk(m: Memory, N: set<Node>, P: Paths, x: Node) {
    x in m && forall c {:trigger LinkOk(m, N, P, x, c)} :: c in m[x].branches ==> LinkOk(m, N, P, x, c)
  }

  ghost predicate NodeOk(m: Memory, N: set<Node>, P: Paths, root: Node?, x: Node) {
    UpOk(m, N, P, root, x) && DownOk(m, N, P, x)
  }

  ghost predicate IsRadix(m: Memory, N: set<Node>, P: Paths, root: Node?) {
    && (root == null ==> N == {})
    && (root != null ==> root in N && root in m && m[root].parent == null)
    && (forall x {:trigger NodeOk(m, N, P, root, x)} :: x in N ==> NodeOk(m, N, P, root, x))
  }

  // A node where no string ends has at least two children.
  ghost predicate IsFull(m: Memory, x: Node) {
    x in m && (m[x].valid || 2 <= |m[x].branches.Keys|)
  }

  ghost predicate IsCompressed(m: Memory, N: set<Node>) {
    forall x {:trigger IsFull(m, x)} :: x in N ==> IsFull(m, x)
  }

  // The strings of the set that the tree stands for.
  ghost function Keys(m: Memory, N: set<Node>, P: Paths): set<Str> {
    set x | x in N && x in m && x in P && m[x].valid :: P[x]
  }

  lemma {:induction false} NodeIs(m: Memory, N: set<Node>, P: Paths, root: Node?, x: Node)
    requires IsRadix(m, N, P, root) && x in N
    ensures UpOk(m, N, P, root, x) && DownOk(m, N, P, x)
  {
    assert NodeOk(m, N, P, root, x);
  }

  lemma {:induction false} LinkIs(m: Memory, N: set<Node>, P: Paths, root: Node?, x: Node, c: Elem)
    requires IsRadix(m, N, P, root) && x in N && x in m && c in m[x].branches
    ensures LinkOk(m, N, P, x, c)
  {
    NodeIs(m, N, P, root, x);
  }

  // Different nodes have different paths, and a node whose path continues that
  // of another one is found below it, in the branch for the next element.
  lemma {:induction false} Divide(m: Memory, N: set<Node>, P: Paths, root: Node?, x: Node, y: Node)
    requires IsRadix(m, N, P, root) && x in N && y in N && x in m && x in P && y in P
    ensures P[x] == P[y] ==> x == y
    ensures P[x] < P[y] ==> P[y][|P[x]|] in m[x].branches && LinkOk(m, N, P, x, P[y][|P[x]|])
                            && P[m[x].branches[P[y][|P[x]|]]] <= P[y]
    decreases |P[x]| + |P[y]|, 1
  {
    hide IsRadix, DownOk, NodeOk;
    NodeIs(m, N, P, root, x);
    NodeIs(m, N, P, root, y);
    if x != y && P[x] <= P[y] {
      var p := m[y].parent;
      if p == null {
        RootIsLeast(m, N, P, root, x);
      } else {
        NodeIs(m, N, P, root, p);
        assert P[y] == P[p] + m[y].skey && P[y][|P[p]|] == m[y].skey[0];
        if |P[x]| <= |P[p]| {
          Divide(m, N, P, root, x, p);
          LinkIs(m, N, P, root, p, m[y].skey[0]);
        } else {
          Divide(m, N, P, root, p, x);
          SamePath(m, N, P, root, x, y);
        }
      }
    }
  }

  lemma {:induction false} Prefixes(a: Str, b: Str, s: Str)
    requires a <= s && b <= s && |a| <= |b|
    ensures a <= b && (|a| < |b| ==> b[|a|] == s[|a|])
  {
    assert a == s[..|a|] && b == s[..|b|];
    assert a == b[..|a|];
  }

  // Two nodes with the same path hang from the same branch of the same parent.
  lemma {:induction false} SamePath(m: Memory, N: set<Node>, P: Paths, root: Node?, x: Node, y: Node)
    requires IsRadix(m, N, P, root) && x in N && y in N && x in m && x in P && y in P
    requires P[x] == P[y] && y in m && m[y].parent != null
    ensures x == y
    decreases |P[x]| + |P[y]|, 0
  {
    hide IsRadix, DownOk, NodeOk;
    NodeIs(m, N, P, root, x);
    NodeIs(m, N, P, root, y);
    var p, q := m[y].parent, m[x].parent;
    if q == null {
      RootIsLeast(m, N, P, root, y);
    } else {
      NodeIs(m, N, P, root, p);
      NodeIs(m, N, P, root, q);
      assert P[x][|P[q]|] == m[x].skey[0] && P[y][|P[p]|] == m[y].skey[0];
      if |P[q]| <= |P[p]| {
        Prefixes(P[q], P[p], P[x]);
        Divide(m, N, P, root, q, p);
      } else {
        Prefixes(P[p], P[q], P[x]);
        Divide(m, N, P, root, p, q);
      }
    }
  }

  lemma {:induction false} RootIsLeast(m: Memory, N: set<Node>, P: Paths, root: Node?, x: Node)
    requires IsRadix(m, N, P, root) && x in N && x in P && root != null && root in P
    ensures P[root] <= P[x] && (x != root ==> |P[root]| < |P[x]|)
    decreases |P[x]|
  {
    hide IsRadix, DownOk, NodeOk;
    NodeIs(m, N, P, root, x);
    var p := m[x].parent;
    if p != null {
      RootIsLeast(m, N, P, root, p);
    }
  }
}
