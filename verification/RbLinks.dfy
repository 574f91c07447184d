// Nodes with parent links and no sentinel, and what it means that a memory
// holds a tree in some place. A memory is a snapshot of the fields of a set of
// nodes, so that everything about links can be said about values.
module RbLinks {
  import opened RbShape

  class Stub {
    const key: int
    var parent: Stub?
    var left: Stub?
    var right: Stub?
    var red: bool

    constructor (k: int)
      ensures key == k
    {
      key := k;
      parent, left, right, red := null, null, null, false;
    }

    ghost function Fields(): Cell
      reads this
    {
      Cell(parent, left, right, red)
    }

    // One write each; S is a set of nodes that contains this one.
    method SetParent(p: Stub?, ghost S: set<Stub>)
      requires this in S
      modifies `parent
      ensures Snapshot(S) == PutParent(old(Snapshot(S)), this, p)
    {
      parent := p;
    }

    method SetLeft(l: Stub?, ghost S: set<Stub>)
      requires this in S
      modifies `left
      ensures Snapshot(S) == PutLeft(old(Snapshot(S)), this, l)
    {
      left := l;
    }

    method SetRight(r: Stub?, ghost S: set<Stub>)
      requires this in S
      modifies `right
      ensures Snapshot(S) == PutRight(old(Snapshot(S)), this, r)
    {
      right := r;
    }

    method SetRed(c: bool, ghost S: set<Stub>)
      requires this in S
      modifies `red
      ensures Snapshot(S) == PutRed(old(Snapshot(S)), this, c)
    {
      red := c;
    }
  }

  datatype Cell = Cell(parent: Stub?, left: Stub?, right: Stub?, red: bool)

  type Memory = map<Stub, Cell>
  type Shape = Tree<Stub>
  type Place = Hole<Stub>

  ghost function Snapshot(S: set<Stub>): (m: Memory)
    reads S
    ensures m.Keys == S
  {
    map x | x in S :: x.Fields()
  }

  lemma {:induction false} SnapshotAt(S: set<Stub>, x: Stub?)
    requires x != null ==> x in S
    ensures x != null ==> Snapshot(S)[x] == Cell(x.parent, x.left, x.right, x.red)
  {}

  function Ptr(t: Shape): Stub? {
    if t.Leaf? then null else t.x
  }

  // The node that the subtree in this place hangs from.
  function Owner(h: Place): Stub? {
    if h.Top? then null else h.x
  }

  // The topmost node, when f is the pointer in the place.
  function TopOf(h: Place, f: Stub?): Stub? {
    if h.Top? then f else TopOf(h.up, h.x)
  }

  // The nodes below pointer Ptr(t), whose parent link is p, have this shape.
  ghost predicate IsTree(m: Memory, t: Shape, p: Stub?) {
    match t
    case Leaf => true
    case Node(l, x, red, r) =>
      && x in m && m[x] == Cell(p, Ptr(l), Ptr(r), red)
      && IsTree(m, l, x) && IsTree(m, r, x)
  }

  // The nodes around a place have this shape, and f is the pointer in the place.
  ghost predicate IsHole(m: Memory, h: Place, f: Stub?) {
    match h
    case Top => true
    case InLeft(x, red, r, up) =>
      && x in m && m[x] == Cell(Owner(up), f, Ptr(r), red)
      && IsTree(m, r, x) && IsHole(m, up, x)
    case InRight(l, x, red, up) =>
      && x in m && m[x] == Cell(Owner(up), Ptr(l), f, red)
      && IsTree(m, l, x) && IsHole(m, up, x)
  }

  // The memory holds the tree t in the place h.
  ghost predicate IsAt(m: Memory, h: Place, t: Shape) {
    DisjointAt(h, t) && IsTree(m, t, Owner(h)) && IsHole(m, h, Ptr(t))
  }

  // Looking at a node from its parent, or the parent from the node, is only a
  // change of view.
  lemma {:induction false} FocusUp(m: Memory, h: Place, t: Shape)
    requires IsAt(m, h, t) && !h.Top?
    ensures IsAt(m, h.up, Refilled(h, t))
  {}

  ghost function Refilled(h: Place, t: Shape): Shape
    requires !h.Top?
  {
    if h.InLeft? then Node(t, h.x, h.red, h.right) else Node(h.left, h.x, h.red, t)
  }

  lemma {:induction false} FocusDown(m: Memory, h: Place, t: Shape)
    requires IsAt(m, h, t) && t.Node?
    ensures IsAt(m, InLeft(t.x, t.red, t.right, h), t.left)
    ensures IsAt(m, InRight(t.left, t.x, t.red, h), t.right)
  {}

  // ------------------------------------------------------------------ framing

  ghost predicate Agree(m: Memory, m': Memory, s: set<Stub>) {
    forall x :: x in s && x in m ==> x in m' && m'[x] == m[x]
  }

  lemma {:induction false} TreeFrame(m: Memory, m': Memory, t: Shape, p: Stub?)
    requires IsTree(m, t, p) && Agree(m, m', Elements(t))
    ensures IsTree(m', t, p)
  {
    if t.Node? {
      TreeFrame(m, m', t.left, t.x);
      TreeFrame(m, m', t.right, t.x);
    }
  }

  lemma {:induction false} HoleFrame(m: Memory, m': Memory, h: Place, f: Stub?)
    requires IsHole(m, h, f) && Agree(m, m', Around(h))
    ensures IsHole(m', h, f)
  {
    match h
    case Top =>
    case InLeft(x, red, r, up) =>
      TreeFrame(m, m', r, x);
      HoleFrame(m, m', up, x);
    case InRight(l, x, red, up) =>
      TreeFrame(m, m', l, x);
      HoleFrame(m, m', up, x);
  }

  // Another pointer in the place, and no other change around it.
  lemma {:induction false} HoleGets(m: Memory, m': Memory, h: Place, f: Stub?, g: Stub?)
    requires IsHole(m, h, f) && DisjointHole(h)
    requires Agree(m, m', Around(h) - {Owner(h)})
    requires h.InLeft? ==> h.x in m' && m'[h.x] == m[h.x].(left := g)
    requires h.InRight? ==> h.x in m' && m'[h.x] == m[h.x].(right := g)
    ensures IsHole(m', h, g)
  {
    if h.InLeft? {
      TreeFrame(m, m', h.right, h.x);
      HoleFrame(m, m', h.up, h.x);
    } else if h.InRight? {
      TreeFrame(m, m', h.left, h.x);
      HoleFrame(m, m', h.up, h.x);
    }
  }

  // The root of a subtree has got another parent link, and nothing else in the
  // subtree has changed.
  lemma {:induction false} TreeMoves(m: Memory, m': Memory, t: Shape, p: Stub?, q: Stub?)
    requires IsTree(m, t, p) && Disjoint(t)
    requires t.Node? ==> t.x in m' && m'[t.x] == m[t.x].(parent := q) && Agree(m, m', Elements(t) - {t.x})
    ensures IsTree(m', t, q)
  {
    if t.Node? {
      TreeFrame(m, m', t.left, t.x);
      TreeFrame(m, m', t.right, t.x);
    }
  }

  // ----------------------------------------------------------- disjoint parts

  lemma {:induction false} DisjointNode(h: Place, l: Shape, x: Stub, red: bool, r: Shape)
    ensures Elements(Node(l, x, red, r)) == Elements(l) + {x} + Elements(r)
    ensures DisjointAt(h, Node(l, x, red, r)) <==>
              && DisjointHole(h) && Disjoint(l) && Disjoint(r) && x !in Elements(l) && x !in Elements(r)
              && x !in Around(h)
              && Elements(l) !! Elements(r) && Elements(l) !! Around(h) && Elements(r) !! Around(h)
    ensures Disjoint(Node(l, x, red, r)) <==>
              Disjoint(l) && Disjoint(r) && x !in Elements(l) && x !in Elements(r) && Elements(l) !! Elements(r)
  {
    var t := Node(l, x, red, r);
    assert Elements(t) == Elements(l) + {x} + Elements(r);
    assert x in Elements(t) && Elements(l) <= Elements(t) && Elements(r) <= Elements(t);
  }

  // Three subtrees, two nodes and a place that share nothing.
  ghost predicate AreApart(h: Place, A: Shape, x: Stub, B: Shape, y: Stub, C: Shape) {
    && DisjointHole(h) && Disjoint(A) && Disjoint(B) && Disjoint(C)
    && x != y
    && x !in Elements(A) && x !in Elements(B) && x !in Elements(C) && x !in Around(h)
    && y !in Elements(A) && y !in Elements(B) && y !in Elements(C) && y !in Around(h)
    && Elements(A) !! Elements(B) && Elements(A) !! Elements(C) && Elements(B) !! Elements(C)
    && Elements(A) !! Around(h) && Elements(B) !! Around(h) && Elements(C) !! Around(h)
  }

  // Both sides of a rotation.
  function LowRight(A: Shape, x: Stub, cx: bool, B: Shape, y: Stub, cy: bool, C: Shape): Shape {
    Node(A, x, cx, Node(B, y, cy, C))
  }

  function LowLeft(A: Shape, x: Stub, cx: bool, B: Shape, y: Stub, cy: bool, C: Shape): Shape {
    Node(Node(A, x, cx, B), y, cy, C)
  }

  lemma {:induction false} ApartLow(h: Place, A: Shape, x: Stub, cx: bool, B: Shape, y: Stub, cy: bool, C: Shape)
    ensures DisjointAt(h, LowRight(A, x, cx, B, y, cy, C)) <==> AreApart(h, A, x, B, y, C)
    ensures DisjointAt(h, LowLeft(A, x, cx, B, y, cy, C)) <==> AreApart(h, A, x, B, y, C)
  {
    var L, R := Node(A, x, cx, B), Node(B, y, cy, C);
    DisjointNode(h, A, x, cx, R);
    DisjointNode(h, B, y, cy, C);
    DisjointNode(h, A, x, cx, B);
    DisjointNode(h, L, y, cy, C);
  }

  // ---------------------------------------------------------------- rotations

  function PutParent(m: Memory, x: Stub?, p: Stub?): Memory {
    if x == null || x !in m then m else m[x := m[x].(parent := p)]
  }

  function PutLeft(m: Memory, x: Stub?, l: Stub?): Memory {
    if x == null || x !in m then m else m[x := m[x].(left := l)]
  }

  function PutRight(m: Memory, x: Stub?, r: Stub?): Memory {
    if x == null || x !in m then m else m[x := m[x].(right := r)]
  }

  function PutRed(m: Memory, x: Stub?, c: bool): Memory {
    if x == null || x !in m then m else m[x := m[x].(red := c)]
  }

  // The owner's link to f becomes a link to g.
  function PutChild(m: Memory, p: Stub?, f: Stub?, g: Stub?): Memory {
    if p == null || p !in m then m
    else if m[p].left == f then PutLeft(m, p, g) else PutRight(m, p, g)
  }

  // The memory after `bst_left_rotate`.
  function RotateLeft(m: Memory, x: Stub): Memory {
    if x !in m || m[x].right == null || m[x].right !in m then m
    else
      var y, p := m[x].right, m[x].parent;
      var m1 := PutParent(PutChild(m, p, x, y), y, p);
      var m2 := PutParent(m1, x, y);
      var m3 := PutRight(m2, x, m2[y].left);
      var m4 := PutLeft(m3, y, x);
      PutParent(m4, m4[x].right, x)
  }

  // The memory after `bst_right_rotate`.
  function RotateRight(m: Memory, x: Stub): Memory {
    if x !in m || m[x].left == null || m[x].left !in m then m
    else
      var y, p := m[x].left, m[x].parent;
      var m1 := PutParent(PutChild(m, p, x, y), y, p);
      var m2 := PutParent(m1, x, y);
      var m3 := PutLeft(m2, x, m2[y].right);
      var m4 := PutRight(m3, y, x);
      PutParent(m4, m4[x].left, x)
  }

  // A rotation touches two nodes, the parent link of the middle subtree and
  // one link of the owner of the place.
  ghost predicate OnlyRotates(m: Memory, m': Memory, h: Place, f: Stub, g: Stub, x: Stub, y: Stub, B: Shape, q: Stub) {
    && Agree(m, m', m.Keys - {x, y, Ptr(B), Owner(h)})
    && (h.InLeft? ==> h.x in m && h.x in m' && m'[h.x] == m[h.x].(left := g))
    && (h.InRight? ==> h.x in m && h.x in m' && m'[h.x] == m[h.x].(right := g))
    && (B.Node? ==> B.x in m && B.x in m' && m'[B.x] == m[B.x].(parent := q))
  }

  lemma {:induction false} LowRightCells(m: Memory, h: Place, A: Shape, x: Stub, cx: bool, B: Shape, y: Stub, cy: bool,
        C: Shape)
    ensures IsTree(m, LowRight(A, x, cx, B, y, cy, C), Owner(h)) <==>
              && x in m && m[x] == Cell(Owner(h), Ptr(A), y, cx) && y in m && m[y] == Cell(x, Ptr(B), Ptr(C), cy)
              && IsTree(m, A, x) && IsTree(m, B, y) && IsTree(m, C, y)
    ensures IsTree(m, LowLeft(A, x, cx, B, y, cy, C), Owner(h)) <==>
              && x in m && m[x] == Cell(y, Ptr(A), Ptr(B), cx) && y in m && m[y] == Cell(Owner(h), x, Ptr(C), cy)
              && IsTree(m, A, x) && IsTree(m, B, x) && IsTree(m, C, y)
  {
    assert IsTree(m, Node(B, y, cy, C), x) <==>
             y in m && m[y] == Cell(x, Ptr(B), Ptr(C), cy) && IsTree(m, B, y) && IsTree(m, C, y);
    assert IsTree(m, Node(A, x, cx, B), y) <==>
             x in m && m[x] == Cell(y, Ptr(A), Ptr(B), cx) && IsTree(m, A, x) && IsTree(m, B, x);
  }

  lemma {:induction false} OwnerAround(m: Memory, h: Place, f: Stub?)
    requires IsHole(m, h, f)
    ensures !h.Top? ==> Owner(h) in Around(h) && Owner(h) in m
    ensures h.InLeft? ==> m[h.x].left == f
    ensures h.InRight? ==> m[h.x].right == f && m[h.x].left == Ptr(h.left)
  {}

  // The pointer in a place tells on which side of its owner the place is.
  lemma {:induction false} WhichSide(m: Memory, h: Place, t: Shape)
    requires IsAt(m, h, t) && t.Node? && !h.Top?
    ensures h.x in m
    ensures h.InLeft? <==> m[h.x].left == t.x
    ensures h.InRight? <==> m[h.x].right == t.x
  {
    if h.InRight? {
      RootInside(h.left);
      assert Elements(h.left) <= Around(h) && t.x in Elements(t);
    } else {
      RootInside(h.right);
      assert Elements(h.right) <= Around(h) && t.x in Elements(t);
    }
  }

  lemma {:induction false} RotateLeftCells(m: Memory, h: Place, A: Shape, x: Stub, cx: bool, B: Shape, y: Stub,
        cy: bool, C: Shape)
    requires IsAt(m, h, LowRight(A, x, cx, B, y, cy, C))
    ensures var m' := RotateLeft(m, x);
            && m'.Keys == m.Keys
            && x in m && m'[x] == Cell(y, Ptr(A), Ptr(B), cx)
            && y in m && m'[y] == Cell(Owner(h), x, Ptr(C), cy)
            && OnlyRotates(m, m', h, x, y, x, y, B, x)
  {
    hide IsTree, IsHole, Elements, Around, DisjointAt, Disjoint, DisjointHole;
    RotationFacts(m, h, A, x, cx, B, y, cy, C, LowRight(A, x, cx, B, y, cy, C));
  }

  lemma {:induction false} RotateRightCells(m: Memory, h: Place, A: Shape, x: Stub, cx: bool, B: Shape, y: Stub,
        cy: bool, C: Shape)
    requires IsAt(m, h, LowLeft(A, x, cx, B, y, cy, C))
    ensures var m' := RotateRight(m, y);
            && m'.Keys == m.Keys
            && y in m && m'[y] == Cell(x, Ptr(B), Ptr(C), cy)
            && x in m && m'[x] == Cell(Owner(h), Ptr(A), y, cx)
            && OnlyRotates(m, m', h, y, x, x, y, B, y)
  {
    hide IsTree, IsHole, Elements, Around, DisjointAt, Disjoint, DisjointHole;
    RotationFacts(m, h, A, x, cx, B, y, cy, C, LowLeft(A, x, cx, B, y, cy, C));
  }

  // What the fields tell about the nodes that a rotation touches.
  lemma {:induction false} RotationFacts(m: Memory, h: Place, A: Shape, x: Stub, cx: bool, B: Shape, y: Stub, cy: bool,
        C: Shape, t: Shape)
    requires t == LowRight(A, x, cx, B, y, cy, C) || t == LowLeft(A, x, cx, B, y, cy, C)
    requires IsAt(m, h, t)
    ensures x != y && x != Owner(h) && y != Owner(h)
    ensures B.Node? ==> B.x in m && B.x != x && B.x != y && B.x != Owner(h)
    ensures !h.Top? ==> h.x in m
    ensures h.InLeft? ==> m[h.x].left == t.x
    ensures h.InRight? ==> m[h.x].left != t.x && m[h.x].right == t.x
    ensures x in m && y in m
    ensures t == LowRight(A, x, cx, B, y, cy, C) ==>
              m[x] == Cell(Owner(h), Ptr(A), y, cx) && m[y] == Cell(x, Ptr(B), Ptr(C), cy)
    ensures t == LowLeft(A, x, cx, B, y, cy, C) ==>
              m[x] == Cell(y, Ptr(A), Ptr(B), cx) && m[y] == Cell(Owner(h), x, Ptr(C), cy)
  {
    ApartLow(h, A, x, cx, B, y, cy, C);
    LowRightCells(m, h, A, x, cx, B, y, cy, C);
    OwnerAround(m, h, t.x);
    if !h.Top? {
      WhichSide(m, h, t);
    }
    assert B.Node? ==> B.x in Elements(B);
  }

  // A rotation turns one shape into the other, in the same place.
  lemma {:induction false} Rotated(m: Memory, m': Memory, h: Place, A: Shape, x: Stub, cx: bool, B: Shape, y: Stub,
        cy: bool, C: Shape, left: bool)
    requires IsAt(m, h, if left then LowRight(A, x, cx, B, y, cy, C) else LowLeft(A, x, cx, B, y, cy, C))
    requires x in m && x in m' && y in m && y in m'
    requires left ==> m'[x] == Cell(y, Ptr(A), Ptr(B), cx) && m'[y] == Cell(Owner(h), x, Ptr(C), cy)
    requires !left ==> m'[y] == Cell(x, Ptr(B), Ptr(C), cy) && m'[x] == Cell(Owner(h), Ptr(A), y, cx)
    requires left ==> OnlyRotates(m, m', h, x, y, x, y, B, x)
    requires !left ==> OnlyRotates(m, m', h, y, x, x, y, B, y)
    ensures IsAt(m', h, if left then LowLeft(A, x, cx, B, y, cy, C) else LowRight(A, x, cx, B, y, cy, C))
  {
    hide IsTree, IsHole, Elements, Around, DisjointAt, Disjoint, DisjointHole;
    ApartLow(h, A, x, cx, B, y, cy, C);
    LowRightCells(m, h, A, x, cx, B, y, cy, C);
    LowRightCells(m', h, A, x, cx, B, y, cy, C);
    RotatedParts(m, m', h, A, x, B, y, C, if left then x else y, if left then y else x);
  }

  lemma {:induction false} RotatedParts(m: Memory, m': Memory, h: Place, A: Shape, x: Stub, B: Shape, y: Stub, C: Shape,
        f: Stub, g: Stub)
    requires AreApart(h, A, x, B, y, C) && ((f == x && g == y) || (f == y && g == x))
    requires IsHole(m, h, f) && IsTree(m, A, x) && IsTree(m, B, g) && IsTree(m, C, y)
    requires OnlyRotates(m, m', h, f, g, x, y, B, f)
    ensures IsHole(m', h, g) && IsTree(m', A, x) && IsTree(m', B, f) && IsTree(m', C, y)
  {
    hide IsTree, IsHole, Elements, Around, Disjoint, DisjointHole;
    OwnerAround(m, h, f);
    RootInside(B);
    TreeFrame(m, m', A, x);
    TreeFrame(m, m', C, y);
    TreeMoves(m, m', B, g, f);
    HoleGets(m, m', h, f, g);
  }

  lemma {:induction false} RootInside(t: Shape)
    ensures t.Node? ==> t.x in Elements(t)
  {}

  lemma {:induction false} RotateLeftKeeps(m: Memory, h: Place, A: Shape, x: Stub, cx: bool, B: Shape, y: Stub,
        cy: bool, C: Shape)
    requires IsAt(m, h, LowRight(A, x, cx, B, y, cy, C))
    ensures IsAt(RotateLeft(m, x), h, LowLeft(A, x, cx, B, y, cy, C))
    ensures RotateLeft(m, x).Keys == m.Keys && x in m && m[x].right == y && m[x].parent == Owner(h)
  {
    hide *;
    RotateLeftCells(m, h, A, x, cx, B, y, cy, C);
    RotationFacts(m, h, A, x, cx, B, y, cy, C, LowRight(A, x, cx, B, y, cy, C));
    Rotated(m, RotateLeft(m, x), h, A, x, cx, B, y, cy, C, true);
  }

  lemma {:induction false} RotateRightKeeps(m: Memory, h: Place, A: Shape, x: Stub, cx: bool, B: Shape, y: Stub,
        cy: bool, C: Shape)
    requires IsAt(m, h, LowLeft(A, x, cx, B, y, cy, C))
    ensures IsAt(RotateRight(m, y), h, LowRight(A, x, cx, B, y, cy, C))
    ensures RotateRight(m, y).Keys == m.Keys && y in m && m[y].left == x && m[y].parent == Owner(h)
  {
    hide *;
    RotateRightCells(m, h, A, x, cx, B, y, cy, C);
    RotationFacts(m, h, A, x, cx, B, y, cy, C, LowLeft(A, x, cx, B, y, cy, C));
    Rotated(m, RotateRight(m, y), h, A, x, cx, B, y, cy, C, false);
  }
}
