// What the steps of insertion and removal do to a memory that holds a tree,
// and why they keep or restore order and balance.
module RbSteps {
  import opened RbShape
  import opened RbLinks

  // ------------------------------------------------------------- reading nodes

  // The fields of a node and of its neighbours, when the node is in the tree.
  lemma {:induction false} NodeAt(m: Memory, h: Place, t: Shape)
    requires IsAt(m, h, t) && t.Node?
    ensures t.x in m && m[t.x] == Cell(Owner(h), Ptr(t.left), Ptr(t.right), t.red)
    ensures t.left.Node? ==> t.left.x in m && m[t.left.x].red == t.left.red
    ensures t.right.Node? ==> t.right.x in m && m[t.right.x].red == t.right.red
  {
    assert IsTree(m, t.left, t.x) && IsTree(m, t.right, t.x);
  }

  lemma {:induction false} OwnerAt(m: Memory, h: Place, t: Shape)
    requires IsAt(m, h, t) && !h.Top?
    ensures h.x in m && m[h.x].red == h.red && m[h.x].parent == Owner(h.up)
    ensures h.InLeft? ==> m[h.x].left == Ptr(t) && m[h.x].right == Ptr(h.right)
    ensures h.InRight? ==> m[h.x].right == Ptr(t) && m[h.x].left == Ptr(h.left)
  {}

  lemma {:induction false} OwnerRed(m: Memory, h: Place, t: Shape)
    requires IsAt(m, h, t)
    ensures !h.Top? ==> h.x in m && m[h.x].red == h.red
  {}

  lemma {:induction false} FillDown(h: Place, t: Shape)
    requires t.Node?
    ensures Fill(InLeft(t.x, t.red, t.right, h), t.left) == Fill(h, t)
    ensures Fill(InRight(t.left, t.x, t.red, h), t.right) == Fill(h, t)
  {}

  lemma {:induction false} SelfParent(m: Memory, h: Place, t: Shape)
    requires IsAt(m, h, t) && t.Node?
    ensures Owner(h) != t.x && (!h.Top? ==> h.x in m)
    ensures t.left.Node? ==> t.left.x in m
    ensures t.right.Node? ==> t.right.x in m
  {
    assert IsTree(m, t.left, t.x) && IsTree(m, t.right, t.x);
  }

  // One step up from a node.
  lemma {:induction false} Climb(m: Memory, h: Place, t: Shape)
    requires IsAt(m, h, t) && t.Node?
    ensures !h.Top? ==> h.x in m && (h.InLeft? <==> m[h.x].left == t.x)
    ensures !h.Top? ==> IsAt(m, h.up, Refilled(h, t)) && Fill(h.up, Refilled(h, t)) == Fill(h, t)
  {
    if !h.Top? {
      WhichSide(m, h, t);
      FocusUp(m, h, t);
    }
  }

  lemma {:induction false} FillUp(h: Place, t: Shape)
    requires !h.Top? && !h.up.Top?
    ensures Fill(h, t) == Fill(h.up.up, Refilled(h.up, Refilled(h, t)))
  {}

  lemma {:induction false} FocusTop(m: Memory, h: Place, t: Shape)
    requires IsAt(m, h, t)
    ensures IsAt(m, Top, Fill(h, t)) && TopOf(h, Ptr(t)) == Ptr(Fill(h, t))
    decreases h
  {
    hide IsTree, IsHole, DisjointAt, IsAt;
    if !h.Top? {
      FocusUp(m, h, t);
      FocusTop(m, h.up, Refilled(h, t));
    }
  }

  lemma {:induction false} Reframe(m: Memory, m': Memory, h: Place, t: Shape)
    requires IsAt(m, h, t) && Agree(m, m', Elements(t) + Around(h))
    ensures IsAt(m', h, t)
  {
    TreeFrame(m, m', t, Owner(h));
    HoleFrame(m, m', h, Ptr(t));
  }

  // Every element of a tree is the root of a subtree.
  lemma {:induction false} Locate(h: Place, t: Shape, x: Stub) returns (h': Place, t': Shape)
    requires x in Elements(t)
    ensures Fill(h', t') == Fill(h, t) && t'.Node? && t'.x == x
    decreases t
  {
    if t.x == x {
      h', t' := h, t;
    } else if x in Elements(t.left) {
      h', t' := Locate(InLeft(t.x, t.red, t.right, h), t.left, x);
    } else {
      h', t' := Locate(InRight(t.left, t.x, t.red, h), t.right, x);
    }
  }

  // A tree that fills up a place is seen from there.
  lemma {:induction false} FocusAt(m: Memory, h: Place, t: Shape)
    requires IsAt(m, Top, Fill(h, t))
    ensures IsAt(m, h, t)
    decreases h
  {
    hide IsTree, IsHole, DisjointAt, IsAt;
    if !h.Top? {
      FocusAt(m, h.up, Refilled(h, t));
      FocusDown(m, h.up, Refilled(h, t));
    }
  }

  lemma {:induction false} SameOrder(h: Place, s: Shape, t: Shape)
    requires InOrder(s) == InOrder(t) && Elements(s) == Elements(t)
    ensures InOrder(Fill(h, s)) == InOrder(Fill(h, t)) && Elements(Fill(h, s)) == Elements(Fill(h, t))
  {
    hide InOrder, Elements, Before, After, Around, Fill;
    InOrderFill(h, s);
    InOrderFill(h, t);
    DisjointFill(h, s);
    DisjointFill(h, t);
  }

  lemma {:induction false} RotationOrder(A: Shape, x: Stub, cx: bool, dx: bool, B: Shape, y: Stub, cy: bool, dy: bool,
        C: Shape)
    ensures InOrder(LowLeft(A, x, cx, B, y, cy, C)) == InOrder(LowRight(A, x, dx, B, y, dy, C))
    ensures Elements(LowLeft(A, x, cx, B, y, cy, C)) == Elements(LowRight(A, x, dx, B, y, dy, C))
  {
    assert InOrder(Node(A, x, cx, B)) == InOrder(A) + [x] + InOrder(B);
    assert InOrder(Node(B, y, dy, C)) == InOrder(B) + [y] + InOrder(C);
  }

  // ------------------------------------------------------------------ painting

  // The same tree with another colour at the root.
  function Painted(t: Shape, c: bool): Shape {
    if t.Leaf? then t else t.(red := c)
  }

  lemma {:induction false} PaintKeeps(m: Memory, h: Place, t: Shape, c: bool)
    requires IsAt(m, h, t)
    ensures IsAt(PutRed(m, Ptr(t), c), h, Painted(t, c))
    ensures PutRed(m, Ptr(t), c).Keys == m.Keys
  {
    if t.Node? {
      var m' := PutRed(m, t.x, c);
      DisjointNode(h, t.left, t.x, t.red, t.right);
      DisjointNode(h, t.left, t.x, c, t.right);
      TreeFrame(m, m', t.left, t.x);
      TreeFrame(m, m', t.right, t.x);
      HoleFrame(m, m', h, t.x);
    }
  }

  lemma {:induction false} PaintLeft(m: Memory, h: Place, t: Shape, c: bool)
    requires IsAt(m, h, t) && t.Node?
    ensures IsAt(PutRed(m, Ptr(t.left), c), h, t.(left := Painted(t.left, c)))
  {
    hide IsAt;
    FocusDown(m, h, t);
    var g := InLeft(t.x, t.red, t.right, h);
    PaintKeeps(m, g, t.left, c);
    FocusUp(PutRed(m, Ptr(t.left), c), g, Painted(t.left, c));
  }

  lemma {:induction false} PaintRight(m: Memory, h: Place, t: Shape, c: bool)
    requires IsAt(m, h, t) && t.Node?
    ensures IsAt(PutRed(m, Ptr(t.right), c), h, t.(right := Painted(t.right, c)))
  {
    hide IsAt;
    FocusDown(m, h, t);
    var g := InRight(t.left, t.x, t.red, h);
    PaintKeeps(m, g, t.right, c);
    FocusUp(PutRed(m, Ptr(t.right), c), g, Painted(t.right, c));
  }

  lemma {:induction false} PaintedInOrder(t: Shape, c: bool)
    ensures InOrder(Painted(t, c)) == InOrder(t) && Elements(Painted(t, c)) == Elements(t)
  {}

  // ------------------------------------------------------------------ rotating

  predicate CanRotateLeft(m: Memory, x: Stub) {
    && x in m && m[x].parent != x && m[x].right != x
    && (m[x].parent != null ==> m[x].parent in m)
    && (m[x].right != null ==>
          m[x].right in m && m[x].right != m[x].parent && (m[m[x].right].left != null ==> m[m[x].right].left in m))
  }

  predicate CanRotateRight(m: Memory, x: Stub) {
    && x in m && m[x].parent != x && m[x].left != x
    && (m[x].parent != null ==> m[x].parent in m)
    && (m[x].left != null ==>
          m[x].left in m && m[x].left != m[x].parent && (m[m[x].left].right != null ==> m[m[x].left].right in m))
  }

  lemma {:induction false} RotationAllowed(m: Memory, h: Place, A: Shape, x: Stub, cx: bool, B: Shape, y: Stub,
        cy: bool, C: Shape)
    ensures IsAt(m, h, LowRight(A, x, cx, B, y, cy, C)) ==>
              CanRotateLeft(m, x) && m[x].parent == Owner(h) && m[x].right == y
    ensures IsAt(m, h, LowLeft(A, x, cx, B, y, cy, C)) ==>
              CanRotateRight(m, y) && m[y].parent == Owner(h) && m[y].left == x
  {
    hide IsAt;
    if IsAt(m, h, LowRight(A, x, cx, B, y, cy, C)) {
      RotationFacts(m, h, A, x, cx, B, y, cy, C, LowRight(A, x, cx, B, y, cy, C));
    }
    if IsAt(m, h, LowLeft(A, x, cx, B, y, cy, C)) {
      RotationFacts(m, h, A, x, cx, B, y, cy, C, LowLeft(A, x, cx, B, y, cy, C));
    }
  }

  // The link from outside, when the pointer in a place changes.
  lemma {:induction false} TopChanges(h: Place, f: Stub?, g: Stub?)
    ensures TopOf(h, g) == if Owner(h) == null then g else TopOf(h, f)
  {}

  // ----------------------------------------------------------------- insertion

  // A red node whose parent may be red, too, and everything else in order.
  ghost predicate IsInsertion(h: Place, f: Shape, k: nat) {
    f.Node? && f.red && IsRb(f, k) && IsRbHole(h, k)
  }

  // Two red children of a black node give their colour to it.
  function Recolored(t: Shape): Shape
    requires t.Node?
  {
    Node(Painted(t.left, false), t.x, true, Painted(t.right, false))
  }

  lemma {:induction false} RecolorKeeps(m: Memory, h: Place, t: Shape)
    requires IsAt(m, h, t) && t.Node?
    ensures IsAt(PutRed(PutRed(PutRed(m, Ptr(t.left), false), Ptr(t.right), false), t.x, true), h, Recolored(t))
    ensures InOrder(Recolored(t)) == InOrder(t) && Elements(Recolored(t)) == Elements(t)
  {
    hide IsAt, PutRed;
    PaintLeft(m, h, t, false);
    var t1 := t.(left := Painted(t.left, false));
    var m1 := PutRed(m, Ptr(t.left), false);
    PaintRight(m1, h, t1, false);
    PaintKeeps(PutRed(m1, Ptr(t.right), false), h, t1.(right := Painted(t.right, false)), true);
    PaintedInOrder(t.left, false);
    PaintedInOrder(t.right, false);
  }

  lemma {:induction false} RecolorRb(h: Place, f: Shape, k: nat)
    requires IsInsertion(h, f, k) && IsRedHole(h)
    ensures !h.up.Top? && !h.up.red
    ensures var t := Refilled(h.up, Refilled(h, f));
            IsRed(t.left) && IsRed(t.right) ==> IsInsertion(h.up.up, Recolored(t), k + 1)
  {
    assert !h.up.Top? && !h.up.red;
    var s := Refilled(h, f);
    var t := Refilled(h.up, s);
    assert IsRbHole(h.up, k);
    assert IsRbHole(h.up.up, k + 1);
    if IsRed(t.left) && IsRed(t.right) {
      assert h.InLeft? || h.InRight?;
      assert IsRb(Painted(s, false), k + 1);
      if h.up.InLeft? {
        assert IsRb(Painted(h.up.right, false), k + 1);
      } else {
        assert IsRb(Painted(h.up.left, false), k + 1);
      }
    }
  }

  // The parts of a red pair, after the two have been put in line: both have
  // black subtrees of height k, the topmost node z has another black one.
  ghost predicate IsLine(h: Place, A: Shape, B: Shape, C: Shape, k: nat) {
    IsRb(A, k) && IsRb(B, k) && IsRb(C, k) && IsRbHole(h, k + 1) && !IsRed(B)
  }

  // The rotation that ends an insertion below the left child y of z.
  lemma {:induction false} FinishLeft(m: Memory, h: Place, A: Shape, y: Stub, B: Shape, z: Stub, C: Shape, k: nat)
    requires IsAt(m, h, LowLeft(A, y, true, B, z, false, C))
    requires IsLine(h, A, B, C, k) && !IsRed(C)
    ensures CanRotateRight(m, z) && m[z].parent == Owner(h) && m[z].left == y
    ensures IsAt(PutRed(PutRed(RotateRight(m, z), y, false), z, true), h, LowRight(A, y, false, B, z, true, C))
    ensures IsRbTree(Fill(h, LowRight(A, y, false, B, z, true, C)))
  {
    hide IsAt, RotateRight, PutRed, IsRbHole;
    RotationAllowed(m, h, A, y, true, B, z, false, C);
    RotateRightKeeps(m, h, A, y, true, B, z, false, C);
    var m1 := RotateRight(m, z);
    PaintKeeps(m1, h, LowRight(A, y, true, B, z, false, C), false);
    PaintRight(PutRed(m1, y, false), h, LowRight(A, y, false, B, z, false, C), true);
    RbFill(h, LowRight(A, y, false, B, z, true, C), k + 1);
  }

  lemma {:induction false} FinishRight(m: Memory, h: Place, A: Shape, z: Stub, B: Shape, y: Stub, C: Shape, k: nat)
    requires IsAt(m, h, LowRight(A, z, false, B, y, true, C))
    requires IsLine(h, A, B, C, k) && !IsRed(A)
    ensures CanRotateLeft(m, z) && m[z].parent == Owner(h) && m[z].right == y
    ensures IsAt(PutRed(PutRed(RotateLeft(m, z), y, false), z, true), h, LowLeft(A, z, true, B, y, false, C))
    ensures IsRbTree(Fill(h, LowLeft(A, z, true, B, y, false, C)))
  {
    hide IsAt, RotateLeft, PutRed, IsRbHole;
    RotationAllowed(m, h, A, z, false, B, y, true, C);
    RotateLeftKeeps(m, h, A, z, false, B, y, true, C);
    var m1 := RotateLeft(m, z);
    PaintKeeps(m1, h, LowLeft(A, z, false, B, y, true, C), false);
    PaintLeft(PutRed(m1, y, false), h, LowLeft(A, z, false, B, y, false, C), true);
    RbFill(h, LowLeft(A, z, true, B, y, false, C), k + 1);
  }

  // Two red nodes below z that are not in line are put in line.
  lemma {:induction false} StraightenLeft(m: Memory, h: Place, A: Shape, y: Stub, f: Shape, k: nat)
    requires IsAt(m, InRight(A, y, true, h), f) && IsInsertion(InRight(A, y, true, h), f, k)
    ensures CanRotateLeft(m, y) && m[y].parent == Owner(h) && m[y].right == f.x
    ensures IsAt(RotateLeft(m, y), h, Node(Node(A, y, true, f.left), f.x, true, f.right))
    ensures IsRb(Node(A, y, true, f.left), k) && IsRb(f.right, k) && !IsRed(f.right)
  {
    hide IsAt, RotateLeft, IsRbHole;
    FocusUp(m, InRight(A, y, true, h), f);
    RotationAllowed(m, h, A, y, true, f.left, f.x, true, f.right);
    RotateLeftKeeps(m, h, A, y, true, f.left, f.x, true, f.right);
    RbHoleRight(A, y, true, h, k);
  }

  lemma {:induction false} StraightenRight(m: Memory, h: Place, f: Shape, y: Stub, C: Shape, k: nat)
    requires IsAt(m, InLeft(y, true, C, h), f) && IsInsertion(InLeft(y, true, C, h), f, k)
    ensures CanRotateRight(m, y) && m[y].parent == Owner(h) && m[y].left == f.x
    ensures IsAt(RotateRight(m, y), h, Node(f.left, f.x, true, Node(f.right, y, true, C)))
    ensures IsRb(Node(f.right, y, true, C), k) && IsRb(f.left, k) && !IsRed(f.left)
  {
    hide IsAt, RotateRight, IsRbHole;
    FocusUp(m, InLeft(y, true, C, h), f);
    RotationAllowed(m, h, f.left, f.x, true, f.right, y, true, C);
    RotateRightKeeps(m, h, f.left, f.x, true, f.right, y, true, C);
    RbHoleLeft(y, true, C, h, k);
  }

  lemma {:induction false} RbHoleLeft(x: Stub, red: bool, r: Shape, h: Place, k: nat)
    ensures IsRbHole(InLeft(x, red, r, h), k) <==>
              IsRb(r, k) && (red ==> !IsRed(r) && !IsRedHole(h) && !h.Top?) && IsRbHole(h, k + if red then 0 else 1)
  {}

  lemma {:induction false} RbHoleRight(l: Shape, x: Stub, red: bool, h: Place, k: nat)
    ensures IsRbHole(InRight(l, x, red, h), k) <==>
              IsRb(l, k) && (red ==> !IsRed(l) && !IsRedHole(h) && !h.Top?) && IsRbHole(h, k + if red then 0 else 1)
  {}

  lemma {:induction false} LineParts(h: Place, f: Shape, k: nat)
    requires IsInsertion(h, f, k) && IsRedHole(h)
    ensures h.InLeft? ==> IsRb(h.right, k) && !IsRed(h.right)
    ensures !h.up.Top? && !h.up.red && IsRbHole(h.up, k) && IsRbHole(h.up.up, k + 1)
    ensures h.InRight? ==> IsRb(h.left, k) && !IsRed(h.left)
    ensures h.up.InLeft? ==> IsRb(h.up.right, k)
    ensures h.up.InRight? ==> IsRb(h.up.left, k)
  {
    assert !h.up.Top? && !h.up.red;
  }

  // All four ways to end an insertion keep the order of the nodes below z.
  lemma {:induction false} EndLeftOrder(h: Place, f: Shape, t: Shape, A: Shape, y: Stub, B: Shape)
    requires !h.Top? && h.up.InLeft? && f.Node?
    requires t == LowRight(A, y, false, B, h.up.x, true, h.up.right)
    requires h.InLeft? ==> A == f && y == h.x && B == h.right
    requires h.InRight? ==> A == Node(h.left, h.x, true, f.left) && y == f.x && B == f.right
    ensures InOrder(Fill(h.up.up, t)) == InOrder(Fill(h, f)) && Elements(Fill(h.up.up, t)) == Elements(Fill(h, f))
  {
    hide InOrder, Elements;
    var C, z := h.up.right, h.up.x;
    var s := Refilled(h, f);
    assert Fill(h, f) == Fill(h.up.up, Refilled(h.up, s));
    RotationOrder(A, y, true, false, B, z, h.up.red, true, C);
    if h.InRight? {
      RotationOrder(h.left, h.x, true, h.red, f.left, f.x, true, f.red, f.right);
      SameOrder(InLeft(z, h.up.red, C, Top), Node(A, y, true, B), s);
    } else {
      PaintedInOrder(s, true);
      SameOrder(InLeft(z, h.up.red, C, Top), Node(A, y, true, B), s);
    }
    SameOrder(h.up.up, t, Refilled(h.up, s));
  }

  lemma {:induction false} EndRightOrder(h: Place, f: Shape, t: Shape, B: Shape, y: Stub, C: Shape)
    requires !h.Top? && h.up.InRight? && f.Node?
    requires t == LowLeft(h.up.left, h.up.x, true, B, y, false, C)
    requires h.InRight? ==> C == f && y == h.x && B == h.left
    requires h.InLeft? ==> C == Node(f.right, h.x, true, h.right) && y == f.x && B == f.left
    ensures InOrder(Fill(h.up.up, t)) == InOrder(Fill(h, f)) && Elements(Fill(h.up.up, t)) == Elements(Fill(h, f))
  {
    hide InOrder, Elements;
    var A, z := h.up.left, h.up.x;
    var s := Refilled(h, f);
    assert Fill(h, f) == Fill(h.up.up, Refilled(h.up, s));
    RotationOrder(A, z, true, h.up.red, B, y, false, true, C);
    if h.InLeft? {
      RotationOrder(f.left, f.x, f.red, true, f.right, h.x, h.red, true, h.right);
      SameOrder(InRight(A, z, h.up.red, Top), Node(B, y, true, C), s);
    } else {
      PaintedInOrder(s, true);
      SameOrder(InRight(A, z, h.up.red, Top), Node(B, y, true, C), s);
    }
    SameOrder(h.up.up, t, Refilled(h.up, s));
  }

  // When the loop of an insertion ends, blackening the root is all there is to do.
  lemma {:induction false} InsertionEnds(h: Place, f: Shape, k: nat)
    requires IsInsertion(h, f, k) && !IsRedHole(h)
    ensures IsRbTree(Painted(Fill(h, f), false)) && Fill(h, f).Node?
  {
    DisjointFill(h, f);
    if !h.Top? {
      RbFill(h, f, k);
    }
  }

  // --------------------------------------------------------- linking a new node

  // The memory after the last writes of `bst_insert_node`.
  function Linked(m: Memory, p: Stub?, left: bool, x: Stub): Memory {
    var m1 := if left then PutLeft(m, p, x) else PutRight(m, p, x);
    PutRight(PutLeft(PutParent(m1, x, p), x, null), x, null)
  }

  lemma {:induction false} LinkKeeps(m: Memory, h: Place, x: Stub)
    requires IsAt(m, h, Leaf) && x in m && x !in Around(h)
    ensures IsAt(Linked(m, Owner(h), h.InLeft?, x), h, Node(Leaf, x, m[x].red, Leaf))
  {
    hide IsHole, DisjointHole, Around;
    OwnerAround(m, h, null);
    DisjointNode(h, Leaf, x, m[x].red, Leaf);
    var m' := Linked(m, Owner(h), h.InLeft?, x);
    HoleGets(m, m', h, null, x);
    var t: Shape := Node(Leaf, x, m[x].red, Leaf);
    assert IsTree(m', t.left, x) && IsTree(m', t.right, x);
    assert m'[x] == Cell(Owner(h), null, null, m[x].red);
    assert IsTree(m', t, Owner(h));
    assert DisjointAt(h, t);
  }

  lemma {:induction false} Resnap(S: set<Stub>, S': set<Stub>, h: Place, t: Shape)
    requires IsAt(Snapshot(S), h, t) && Elements(t) + Around(h) <= S'
    ensures IsAt(Snapshot(S'), h, t)
  {
    hide IsAt, Elements, Around;
    Reframe(Snapshot(S), Snapshot(S'), h, t);
  }
}
