// The steps of a removal: splicing a node out, moving a missing black node up
// the tree until it is made good, and putting one node in the place of another.
module RbShrink {
  import opened RbShape
  import opened RbLinks
  import opened RbSteps
  import opened RbOrder

  // ------------------------------------------------------------- splicing out

  // The memory after y, whose only child is c, has been bypassed.
  function Spliced(m: Memory, y: Stub, c: Stub?, pc: Stub?): Memory {
    PutChild(PutParent(m, c, pc), pc, y, c)
  }

  ghost predicate IsOnlyChild(u: Shape, c: Shape) {
    u.Node? && ((u.left.Leaf? && c == u.right) || (u.right.Leaf? && c == u.left))
  }

  lemma {:induction false} SpliceKeeps(m: Memory, h: Place, u: Shape, c: Shape)
    requires IsAt(m, h, u) && IsOnlyChild(u, c)
    ensures IsAt(Spliced(m, u.x, Ptr(c), Owner(h)), h, c)
    ensures u.x !in Elements(c) && u.x !in Around(h) && Elements(u) == Elements(c) + {u.x}
  {
    hide IsTree, IsHole, Disjoint, DisjointHole, Around, Elements;
    var m' := Spliced(m, u.x, Ptr(c), Owner(h));
    SpliceFacts(m, h, u, c);
    TreeMoves(m, m', c, u.x, Owner(h));
    HoleGets(m, m', h, u.x, Ptr(c));
  }

  lemma {:induction false} SpliceFacts(m: Memory, h: Place, u: Shape, c: Shape)
    requires IsAt(m, h, u) && IsOnlyChild(u, c)
    ensures u.x in m && IsTree(m, c, u.x) && IsHole(m, h, u.x) && DisjointAt(h, c)
    ensures u.x !in Elements(c) && u.x !in Around(h) && Elements(u) == Elements(c) + {u.x}
    ensures c.Node? ==> c.x in m && c.x in Elements(c) && c.x !in Around(h)
    ensures !h.Top? ==> h.x in m && h.x in Around(h) && h.x !in Elements(c)
    ensures h.InLeft? ==> m[h.x].left == u.x
    ensures h.InRight? ==> m[h.x].left != u.x && m[h.x].right == u.x
  {
    DisjointNode(h, u.left, u.x, u.red, u.right);
    RootInside(c);
    OwnerAround(m, h, u.x);
    if !h.Top? {
      WhichSide(m, h, u);
    }
  }

  // The sequence loses y, and nothing else.
  lemma {:induction false} SpliceOrder(h: Place, u: Shape, c: Shape)
    requires IsOnlyChild(u, c) && Disjoint(Fill(h, u))
    ensures InOrder(Fill(h, c)) == Without(InOrder(Fill(h, u)), u.x)
    ensures Elements(Fill(h, c)) == Elements(Fill(h, u)) - {u.x}
  {
    hide Fill, Disjoint, DisjointHole, Before, After, Without, Around;
    DisjointFill(h, u);
    DisjointFill(h, c);
    InOrderFill(h, u);
    InOrderFill(h, c);
    DisjointNode(h, u.left, u.x, u.red, u.right);
    assert InOrder(u) == [u.x] + InOrder(c) || InOrder(u) == InOrder(c) + [u.x];
    BeforeAround(h, u.x);
    InOrderElements(c, u.x);
    if InOrder(u) == [u.x] + InOrder(c) {
      WithoutBetween(Before(h), u.x, InOrder(c) + After(h));
      assert Before(h) + [u.x] + (InOrder(c) + After(h)) == Before(h) + InOrder(u) + After(h);
      assert Before(h) + (InOrder(c) + After(h)) == Before(h) + InOrder(c) + After(h);
    } else {
      WithoutBetween(Before(h) + InOrder(c), u.x, After(h));
      assert Before(h) + InOrder(c) + [u.x] + After(h) == Before(h) + InOrder(u) + After(h);
    }
  }

  // --------------------------------------------------- one black node too few

  // The subtree in the place has a black node too few on every path, and may
  // have two red nodes at its top.
  ghost predicate IsShort(h: Place, f: Shape, k: nat) {
    IsRbHole(h, k) && NoRedRed(Painted(f, false)) && IsBalanced(f) && BlackHeight(f) == k - 1
  }

  // The other subtree of the owner.
  function Sibling(h: Place): Shape
    requires !h.Top?
  {
    if h.InLeft? then h.right else h.left
  }

  // The sibling's child on the far side.
  function FarNephew(h: Place): Shape
    requires !h.Top? && Sibling(h).Node?
  {
    if h.InLeft? then h.right.right else h.left.left
  }

  // Zero when the next step is the last one.
  ghost function Phase(h: Place): nat {
    if !h.Top? && Sibling(h).Node? && !Sibling(h).red && IsRed(FarNephew(h)) then 0 else 1
  }

  lemma {:induction false} RbParts(l: Shape, x: Stub, red: bool, r: Shape, k: int)
    ensures var n := k - if red then 0 else 1;
            IsRb(Node(l, x, red, r), k) <==> IsRb(l, n) && IsRb(r, n) && (red ==> !IsRed(l) && !IsRed(r))
  {}

  lemma {:induction false} BlackHeightIsNode(t: Shape, k: int)
    requires IsRb(t, k) && k > 0
    ensures t.Node?
  {}

  lemma {:induction false} ShortIsRb(h: Place, f: Shape, k: nat)
    requires IsShort(h, f, k) && !IsRed(f)
    ensures IsRb(f, k - 1)
  {}

  lemma {:induction false} SiblingIsNode(h: Place, f: Shape, k: nat)
    requires IsShort(h, f, k) && !h.Top?
    ensures k > 0 && Sibling(h).Node? && IsRb(Sibling(h), k) && (Sibling(h).red ==> !h.red)
  {}

  // Removing a red node is harmless, a red child can take over the colour of a
  // black one, and otherwise a black node is missing.
  lemma {:induction false} SpliceRb(h: Place, u: Shape, c: Shape)
    requires IsRbTree(Fill(h, u)) && IsOnlyChild(u, c)
    ensures u.red ==> IsRbTree(Fill(h, c))
    ensures !u.red && IsRed(c) ==> IsRbTree(Fill(h, Painted(c, false)))
    ensures !u.red && !IsRed(c) ==> IsShort(h, c, BlackHeight(u))
  {
    hide Fill;
    RbUnfill(h, u);
    RbParts(u.left, u.x, u.red, u.right, BlackHeight(u));
    if IsRed(c) {
      RbParts(c.left, c.x, true, c.right, BlackHeight(u) - 1);
      RbParts(c.left, c.x, false, c.right, BlackHeight(u));
    }
    if u.red {
      RbFill(h, c, BlackHeight(u));
    } else if IsRed(c) {
      RbFill(h, Painted(c, false), BlackHeight(u));
    }
  }

  // Which child of its parent the subtree is can be told from the pointers,
  // even when the subtree is empty.
  lemma {:induction false} ShortSide(m: Memory, h: Place, f: Shape, k: nat)
    requires IsAt(m, h, f) && IsShort(h, f, k) && !h.Top?
    ensures h.x in m && (h.InLeft? <==> m[h.x].left == Ptr(f))
  {
    hide IsTree;
    SiblingIsNode(h, f, k);
    OwnerAt(m, h, f);
    if f.Node? {
      WhichSide(m, h, f);
    }
  }

  // ------------------------------------------------------ a red sibling, left

  function RedLeft(h: Place): (r: Place)
    requires h.InLeft? && h.right.Node?
    ensures r.InLeft? && r.x == h.x
  {
    InLeft(h.x, true, h.right.left, InLeft(h.right.x, false, h.right.right, h.up))
  }

  lemma {:induction false} RedLeftKeeps(m: Memory, h: Place, f: Shape)
    requires IsAt(m, h, f) && h.InLeft? && h.right.Node?
    ensures var m1 := PutRed(PutRed(m, h.right.x, false), h.x, true);
            && CanRotateLeft(m1, h.x) && m1[h.x].parent == Owner(h.up) && m1[h.x].right == h.right.x
            && IsAt(RotateLeft(m1, h.x), RedLeft(h), f)
  {
    hide IsAt, RotateLeft, PutRed;
    var w, m1 := h.right, PutRed(PutRed(m, h.right.x, false), h.x, true);
    FocusUp(m, h, f);
    PaintRight(m, h.up, Refilled(h, f), false);
    PaintKeeps(PutRed(m, w.x, false), h.up, Node(f, h.x, h.red, Painted(w, false)), true);
    RotationAllowed(m1, h.up, f, h.x, true, w.left, w.x, false, w.right);
    RotateLeftKeeps(m1, h.up, f, h.x, true, w.left, w.x, false, w.right);
    var m2, t := RotateLeft(m1, h.x), Node(f, h.x, true, w.left);
    FocusDown(m2, h.up, Node(t, w.x, false, w.right));
    FocusDown(m2, InLeft(w.x, false, w.right, h.up), t);
  }

  lemma {:induction false} RedLeftShort(h: Place, f: Shape, k: nat)
    requires IsShort(h, f, k) && h.InLeft? && IsRed(h.right)
    ensures IsShort(RedLeft(h), f, k) && RedLeft(h).right.Node? && !RedLeft(h).right.red
    ensures SizeAround(RedLeft(h)) == SizeAround(h)
    ensures InOrder(Fill(RedLeft(h), f)) == InOrder(Fill(h, f)) && Elements(Fill(RedLeft(h), f)) == Elements(Fill(h, f))
  {
    hide InOrder, Elements, IsRb, IsRbHole;
    SiblingIsNode(h, f, k);
    var w := h.right;
    RbHoleLeft(h.x, h.red, w, h.up, k);
    RbParts(w.left, w.x, w.red, w.right, k);
    RbHoleLeft(w.x, false, w.right, h.up, k);
    RbHoleLeft(h.x, true, w.left, RedLeft(h).up, k);
    BlackHeightIsNode(w.left, k);
    RotationOrder(f, h.x, true, h.red, w.left, w.x, false, w.red, w.right);
    SameOrder(h.up, LowLeft(f, h.x, true, w.left, w.x, false, w.right), Refilled(h, f));
    assert Fill(RedLeft(h), f) == Fill(RedLeft(h).up, Node(f, h.x, true, w.left));
  }

  // ----------------------------------------------------- black nephews, left

  // One level up, with the sibling red.
  function RaisedLeft(h: Place, f: Shape): (r: Shape)
    requires h.InLeft?
    ensures r.Node? && r.x == h.x && r.red == h.red
  {
    Node(f, h.x, h.red, Painted(h.right, true))
  }

  lemma {:induction false} RaiseLeftKeeps(m: Memory, h: Place, f: Shape)
    requires IsAt(m, h, f) && h.InLeft?
    ensures IsAt(PutRed(m, Ptr(h.right), true), h.up, RaisedLeft(h, f))
    ensures InOrder(Fill(h.up, RaisedLeft(h, f))) == InOrder(Fill(h, f))
    ensures Elements(Fill(h.up, RaisedLeft(h, f))) == Elements(Fill(h, f))
  {
    hide IsAt, PutRed;
    FocusUp(m, h, f);
    PaintRight(m, h.up, Refilled(h, f), true);
    PaintedInOrder(h.right, true);
    SameOrder(h.up, RaisedLeft(h, f), Refilled(h, f));
  }

  lemma {:induction false} RaiseLeftShort(h: Place, f: Shape, k: nat)
    requires IsShort(h, f, k) && h.InLeft? && !IsRed(f) && !IsRed(h.right)
    requires h.right.Node? ==> !IsRed(h.right.left) && !IsRed(h.right.right)
    ensures IsShort(h.up, RaisedLeft(h, f), k + if h.red then 0 else 1)
    ensures SizeAround(h.up) < SizeAround(h)
  {
    SiblingIsNode(h, f, k);
  }

  // ---------------------------------------------------- a red near nephew, left

  function NearLeft(h: Place): (r: Place)
    requires h.InLeft? && h.right.Node? && h.right.left.Node?
    ensures r.InLeft? && r.x == h.x
  {
    var w, v := h.right, h.right.left;
    InLeft(h.x, h.red, Node(v.left, v.x, false, Node(v.right, w.x, true, w.right)), h.up)
  }

  lemma {:induction false} NearLeftKeeps(m: Memory, h: Place, f: Shape)
    requires IsAt(m, h, f) && h.InLeft? && h.right.Node? && h.right.left.Node?
    ensures var m1 := PutRed(PutRed(m, h.right.left.x, false), h.right.x, true);
            && CanRotateRight(m1, h.right.x) && m1[h.right.x].parent == h.x
            && IsAt(RotateRight(m1, h.right.x), NearLeft(h), f)
  {
    hide IsAt, RotateRight, PutRed;
    var w, v, m1 := h.right, h.right.left, PutRed(PutRed(m, h.right.left.x, false), h.right.x, true);
    var g := InRight(f, h.x, h.red, h.up);
    FocusUp(m, h, f);
    FocusDown(m, h.up, Refilled(h, f));
    PaintLeft(m, g, w, false);
    PaintKeeps(PutRed(m, v.x, false), g, Node(Painted(v, false), w.x, w.red, w.right), true);
    RotationAllowed(m1, g, v.left, v.x, false, v.right, w.x, true, w.right);
    RotateRightKeeps(m1, g, v.left, v.x, false, v.right, w.x, true, w.right);
    var m2, t := RotateRight(m1, w.x), Node(v.left, v.x, false, Node(v.right, w.x, true, w.right));
    FocusUp(m2, g, t);
    FocusDown(m2, h.up, Node(f, h.x, h.red, t));
  }

  lemma {:induction false} NearLeftShort(h: Place, f: Shape, k: nat)
    requires IsShort(h, f, k) && h.InLeft? && h.right.Node? && !h.right.red && IsRed(h.right.left)
        && !IsRed(h.right.right)
    ensures IsShort(NearLeft(h), f, k) && Phase(NearLeft(h)) == 0 && SizeAround(NearLeft(h)) == SizeAround(h)
    ensures InOrder(Fill(NearLeft(h), f)) == InOrder(Fill(h, f))
        && Elements(Fill(NearLeft(h), f)) == Elements(Fill(h, f))
  {
    hide InOrder, Elements, IsRb, IsRbHole;
    var w, v := h.right, h.right.left;
    RbHoleLeft(h.x, h.red, w, h.up, k);
    RbParts(w.left, w.x, w.red, w.right, k);
    RbParts(v.left, v.x, v.red, v.right, k - 1);
    RbParts(v.right, w.x, true, w.right, k - 1);
    RbParts(v.left, v.x, false, NearLeft(h).right.right, k);
    RbHoleLeft(h.x, h.red, NearLeft(h).right, h.up, k);
    assert Size(NearLeft(h).right) == Size(v.left) + 1 + Size(NearLeft(h).right.right);
    assert Size(w) == Size(v) + 1 + Size(w.right);
    RotationOrder(v.left, v.x, v.red, false, v.right, w.x, w.red, true, w.right);
    SameOrder(InRight(f, h.x, h.red, h.up), NearLeft(h).right, w);
    assert Fill(NearLeft(h), f) == Fill(InRight(f, h.x, h.red, h.up), NearLeft(h).right);
    assert Fill(h, f) == Fill(InRight(f, h.x, h.red, h.up), w);
  }

  // ----------------------------------------------------- a red far nephew, left

  function FarLeft(h: Place, f: Shape): Shape
    requires h.InLeft? && h.right.Node?
  {
    Node(Node(f, h.x, false, h.right.left), h.right.x, h.red, Painted(h.right.right, false))
  }

  lemma {:induction false} FarLeftKeeps(m: Memory, h: Place, f: Shape)
    requires IsAt(m, h, f) && h.InLeft? && h.right.Node?
    ensures var m1 := PutRed(PutRed(PutRed(m, h.right.x, h.red), h.x, false), Ptr(h.right.right), false);
            && CanRotateLeft(m1, h.x) && m1[h.x].parent == Owner(h.up) && m1[h.x].right == h.right.x
            && IsAt(RotateLeft(m1, h.x), h.up, FarLeft(h, f))
  {
    hide IsAt, RotateLeft, PutRed;
    var w := h.right;
    var m0 := PutRed(PutRed(m, w.x, h.red), h.x, false);
    var m1 := PutRed(m0, Ptr(w.right), false);
    FocusUp(m, h, f);
    PaintRight(m, h.up, Refilled(h, f), h.red);
    PaintKeeps(PutRed(m, w.x, h.red), h.up, Node(f, h.x, h.red, Painted(w, h.red)), false);
    var g, w' := InRight(f, h.x, false, h.up), Painted(w, h.red);
    FocusDown(m0, h.up, Node(f, h.x, false, w'));
    PaintRight(m0, g, w', false);
    FocusUp(m1, g, w'.(right := Painted(w.right, false)));
    RotationAllowed(m1, h.up, f, h.x, false, w.left, w.x, h.red, Painted(w.right, false));
    RotateLeftKeeps(m1, h.up, f, h.x, false, w.left, w.x, h.red, Painted(w.right, false));
  }

  lemma {:induction false} FarLeftRb(h: Place, f: Shape, k: nat)
    requires IsShort(h, f, k) && h.InLeft? && !IsRed(f) && h.right.Node? && !h.right.red && IsRed(h.right.right)
    ensures IsRbTree(Fill(h.up, FarLeft(h, f)))
    ensures InOrder(Fill(h.up, FarLeft(h, f))) == InOrder(Fill(h, f))
    ensures Elements(Fill(h.up, FarLeft(h, f))) == Elements(Fill(h, f))
  {
    hide InOrder, Elements, IsRb, IsRbHole;
    var w, r := h.right, Painted(h.right.right, false);
    var n := k + if h.red then 0 else 1;
    RbHoleLeft(h.x, h.red, w, h.up, k);
    RbParts(w.left, w.x, w.red, w.right, k);
    RbParts(w.right.left, w.right.x, true, w.right.right, k - 1);
    RbParts(w.right.left, w.right.x, false, w.right.right, k);
    ShortIsRb(h, f, k);
    RbParts(f, h.x, false, w.left, k);
    RbParts(Node(f, h.x, false, w.left), w.x, h.red, r, n);
    RbFill(h.up, FarLeft(h, f), n);
    PaintedInOrder(w.right, false);
    PaintChildOrder(w, false);
    RotationOrder(f, h.x, false, h.red, w.left, w.x, h.red, w.red, r);
    SameOrder(InRight(f, h.x, h.red, Top), w.(right := r), w);
    SameOrder(h.up, FarLeft(h, f), Refilled(h, f));
  }

  // --------------------------------------------- the mirror images of all that

  function RedRight(h: Place): (r: Place)
    requires h.InRight? && h.left.Node?
    ensures r.InRight? && r.x == h.x
  {
    InRight(h.left.right, h.x, true, InRight(h.left.left, h.left.x, false, h.up))
  }

  lemma {:induction false} RedRightKeeps(m: Memory, h: Place, f: Shape)
    requires IsAt(m, h, f) && h.InRight? && h.left.Node?
    ensures var m1 := PutRed(PutRed(m, h.left.x, false), h.x, true);
            && CanRotateRight(m1, h.x) && m1[h.x].parent == Owner(h.up) && m1[h.x].left == h.left.x
            && IsAt(RotateRight(m1, h.x), RedRight(h), f)
  {
    hide IsAt, RotateRight, PutRed;
    var w, m1 := h.left, PutRed(PutRed(m, h.left.x, false), h.x, true);
    FocusUp(m, h, f);
    PaintLeft(m, h.up, Refilled(h, f), false);
    PaintKeeps(PutRed(m, w.x, false), h.up, Node(Painted(w, false), h.x, h.red, f), true);
    RotationAllowed(m1, h.up, w.left, w.x, false, w.right, h.x, true, f);
    RotateRightKeeps(m1, h.up, w.left, w.x, false, w.right, h.x, true, f);
    var m2, t := RotateRight(m1, h.x), Node(w.right, h.x, true, f);
    FocusDown(m2, h.up, Node(w.left, w.x, false, t));
    FocusDown(m2, InRight(w.left, w.x, false, h.up), t);
  }

  lemma {:induction false} RedRightShort(h: Place, f: Shape, k: nat)
    requires IsShort(h, f, k) && h.InRight? && IsRed(h.left)
    ensures IsShort(RedRight(h), f, k) && RedRight(h).left.Node? && !RedRight(h).left.red
    ensures SizeAround(RedRight(h)) == SizeAround(h)
    ensures InOrder(Fill(RedRight(h), f)) == InOrder(Fill(h, f))
        && Elements(Fill(RedRight(h), f)) == Elements(Fill(h, f))
  {
    hide InOrder, Elements, IsRb, IsRbHole;
    SiblingIsNode(h, f, k);
    var w := h.left;
    RbHoleRight(w, h.x, h.red, h.up, k);
    RbParts(w.left, w.x, w.red, w.right, k);
    RbHoleRight(w.left, w.x, false, h.up, k);
    RbHoleRight(w.right, h.x, true, RedRight(h).up, k);
    BlackHeightIsNode(w.right, k);
    RotationOrder(w.left, w.x, w.red, false, w.right, h.x, h.red, true, f);
    SameOrder(h.up, LowRight(w.left, w.x, false, w.right, h.x, true, f), Refilled(h, f));
    assert Fill(RedRight(h), f) == Fill(RedRight(h).up, Node(w.right, h.x, true, f));
  }

  function RaisedRight(h: Place, f: Shape): (r: Shape)
    requires h.InRight?
    ensures r.Node? && r.x == h.x && r.red == h.red
  {
    Node(Painted(h.left, true), h.x, h.red, f)
  }

  lemma {:induction false} RaiseRightKeeps(m: Memory, h: Place, f: Shape)
    requires IsAt(m, h, f) && h.InRight?
    ensures IsAt(PutRed(m, Ptr(h.left), true), h.up, RaisedRight(h, f))
    ensures InOrder(Fill(h.up, RaisedRight(h, f))) == InOrder(Fill(h, f))
    ensures Elements(Fill(h.up, RaisedRight(h, f))) == Elements(Fill(h, f))
  {
    hide IsAt, PutRed;
    FocusUp(m, h, f);
    PaintLeft(m, h.up, Refilled(h, f), true);
    PaintedInOrder(h.left, true);
    SameOrder(h.up, RaisedRight(h, f), Refilled(h, f));
  }

  lemma {:induction false} RaiseRightShort(h: Place, f: Shape, k: nat)
    requires IsShort(h, f, k) && h.InRight? && !IsRed(f) && !IsRed(h.left)
    requires h.left.Node? ==> !IsRed(h.left.left) && !IsRed(h.left.right)
    ensures IsShort(h.up, RaisedRight(h, f), k + if h.red then 0 else 1)
    ensures SizeAround(h.up) < SizeAround(h)
  {
    SiblingIsNode(h, f, k);
  }

  function NearRight(h: Place): (r: Place)
    requires h.InRight? && h.left.Node? && h.left.right.Node?
    ensures r.InRight? && r.x == h.x
  {
    var w, v := h.left, h.left.right;
    InRight(Node(Node(w.left, w.x, true, v.left), v.x, false, v.right), h.x, h.red, h.up)
  }

  lemma {:induction false} NearRightKeeps(m: Memory, h: Place, f: Shape)
    requires IsAt(m, h, f) && h.InRight? && h.left.Node? && h.left.right.Node?
    ensures var m1 := PutRed(PutRed(m, h.left.right.x, false), h.left.x, true);
            && CanRotateLeft(m1, h.left.x) && m1[h.left.x].parent == h.x
            && IsAt(RotateLeft(m1, h.left.x), NearRight(h), f)
  {
    hide IsAt, RotateLeft, PutRed;
    var w, v, m1 := h.left, h.left.right, PutRed(PutRed(m, h.left.right.x, false), h.left.x, true);
    var g := InLeft(h.x, h.red, f, h.up);
    FocusUp(m, h, f);
    FocusDown(m, h.up, Refilled(h, f));
    PaintRight(m, g, w, false);
    PaintKeeps(PutRed(m, v.x, false), g, Node(w.left, w.x, w.red, Painted(v, false)), true);
    RotationAllowed(m1, g, w.left, w.x, true, v.left, v.x, false, v.right);
    RotateLeftKeeps(m1, g, w.left, w.x, true, v.left, v.x, false, v.right);
    var m2, t := RotateLeft(m1, w.x), Node(Node(w.left, w.x, true, v.left), v.x, false, v.right);
    FocusUp(m2, g, t);
    FocusDown(m2, h.up, Node(t, h.x, h.red, f));
  }

  lemma {:induction false} NearRightShort(h: Place, f: Shape, k: nat)
    requires IsShort(h, f, k) && h.InRight? && h.left.Node? && !h.left.red && IsRed(h.left.right) && !IsRed(h.left.left)
    ensures IsShort(NearRight(h), f, k) && Phase(NearRight(h)) == 0 && SizeAround(NearRight(h)) == SizeAround(h)
    ensures InOrder(Fill(NearRight(h), f)) == InOrder(Fill(h, f))
        && Elements(Fill(NearRight(h), f)) == Elements(Fill(h, f))
  {
    hide InOrder, Elements, IsRb, IsRbHole;
    var w, v := h.left, h.left.right;
    RbHoleRight(w, h.x, h.red, h.up, k);
    RbParts(w.left, w.x, w.red, w.right, k);
    RbParts(v.left, v.x, v.red, v.right, k - 1);
    RbParts(w.left, w.x, true, v.left, k - 1);
    RbParts(NearRight(h).left.left, v.x, false, v.right, k);
    RbHoleRight(NearRight(h).left, h.x, h.red, h.up, k);
    assert Size(NearRight(h).left) == Size(NearRight(h).left.left) + 1 + Size(v.right);
    assert Size(w) == Size(w.left) + 1 + Size(v);
    RotationOrder(w.left, w.x, true, w.red, v.left, v.x, false, v.red, v.right);
    SameOrder(InLeft(h.x, h.red, f, h.up), NearRight(h).left, w);
    assert Fill(NearRight(h), f) == Fill(InLeft(h.x, h.red, f, h.up), NearRight(h).left);
    assert Fill(h, f) == Fill(InLeft(h.x, h.red, f, h.up), w);
  }

  function FarRight(h: Place, f: Shape): Shape
    requires h.InRight? && h.left.Node?
  {
    Node(Painted(h.left.left, false), h.left.x, h.red, Node(h.left.right, h.x, false, f))
  }

  lemma {:induction false} FarRightKeeps(m: Memory, h: Place, f: Shape)
    requires IsAt(m, h, f) && h.InRight? && h.left.Node?
    ensures var m1 := PutRed(PutRed(PutRed(m, h.left.x, h.red), h.x, false), Ptr(h.left.left), false);
            && CanRotateRight(m1, h.x) && m1[h.x].parent == Owner(h.up) && m1[h.x].left == h.left.x
            && IsAt(RotateRight(m1, h.x), h.up, FarRight(h, f))
  {
    hide IsAt, RotateRight, PutRed;
    var w := h.left;
    var m0 := PutRed(PutRed(m, w.x, h.red), h.x, false);
    var m1 := PutRed(m0, Ptr(w.left), false);
    FocusUp(m, h, f);
    PaintLeft(m, h.up, Refilled(h, f), h.red);
    PaintKeeps(PutRed(m, w.x, h.red), h.up, Node(Painted(w, h.red), h.x, h.red, f), false);
    var g, w' := InLeft(h.x, false, f, h.up), Painted(w, h.red);
    FocusDown(m0, h.up, Node(w', h.x, false, f));
    PaintLeft(m0, g, w', false);
    FocusUp(m1, g, w'.(left := Painted(w.left, false)));
    RotationAllowed(m1, h.up, Painted(w.left, false), w.x, h.red, w.right, h.x, false, f);
    RotateRightKeeps(m1, h.up, Painted(w.left, false), w.x, h.red, w.right, h.x, false, f);
  }

  lemma {:induction false} FarRightRb(h: Place, f: Shape, k: nat)
    requires IsShort(h, f, k) && h.InRight? && !IsRed(f) && h.left.Node? && !h.left.red && IsRed(h.left.left)
    ensures IsRbTree(Fill(h.up, FarRight(h, f)))
    ensures InOrder(Fill(h.up, FarRight(h, f))) == InOrder(Fill(h, f))
    ensures Elements(Fill(h.up, FarRight(h, f))) == Elements(Fill(h, f))
  {
    hide InOrder, Elements, IsRb, IsRbHole;
    var w, l := h.left, Painted(h.left.left, false);
    var n := k + if h.red then 0 else 1;
    RbHoleRight(w, h.x, h.red, h.up, k);
    RbParts(w.left, w.x, w.red, w.right, k);
    RbParts(w.left.left, w.left.x, true, w.left.right, k - 1);
    RbParts(w.left.left, w.left.x, false, w.left.right, k);
    ShortIsRb(h, f, k);
    RbParts(w.right, h.x, false, f, k);
    RbParts(l, w.x, h.red, Node(w.right, h.x, false, f), n);
    RbFill(h.up, FarRight(h, f), n);
    PaintedInOrder(w.left, false);
    PaintChildOrder(w, false);
    RotationOrder(l, w.x, w.red, h.red, w.right, h.x, h.red, false, f);
    SameOrder(InLeft(h.x, h.red, f, Top), w.(left := l), w);
    SameOrder(h.up, FarRight(h, f), Refilled(h, f));
  }

  lemma {:induction false} PaintChildOrder(w: Shape, c: bool)
    requires w.Node?
    ensures InOrder(w.(right := Painted(w.right, c))) == InOrder(w)
    ensures Elements(w.(right := Painted(w.right, c))) == Elements(w)
    ensures InOrder(w.(left := Painted(w.left, c))) == InOrder(w)
    ensures Elements(w.(left := Painted(w.left, c))) == Elements(w)
  {
    PaintedInOrder(w.right, c);
    PaintedInOrder(w.left, c);
  }

  // ------------------------------------------------- the root that comes early

  // The root pointer names y already while x, in whose place y will be put, is
  // still the topmost node.
  function EarlyRoot(top: Stub?, x: Stub, y: Stub): Stub? {
    if x != y && top == x then y else top
  }

  // The nodes from the place to the top.
  function Spine(h: Place): set<Stub> {
    if h.Top? then {} else {h.x} + Spine(h.up)
  }

  lemma {:induction false} SpineAround(h: Place)
    ensures Spine(h) <= Around(h)
  {
    if !h.Top? {
      SpineAround(h.up);
    }
  }

  // The node x is where the work is being done or above it, never beside it.
  ghost predicate OnPath(h: Place, f: Shape, x: Stub) {
    x in Elements(f) || x in Spine(h)
  }

  lemma {:induction false} NotBeside(h: Place, f: Shape, x: Stub)
    requires !h.Top? && DisjointAt(h, f) && OnPath(h, f, x)
    ensures x !in Elements(Sibling(h))
  {
    SpineAround(h.up);
  }

  // A memory in the middle of repairs.
  ghost predicate InRepair(m: Memory, h: Place, f: Shape, k: nat, root: Stub?, x: Stub, y: Stub) {
    && IsAt(m, h, f) && IsShort(h, f, k)
    && root != null && root == EarlyRoot(TopOf(h, Ptr(f)), x, y) && (x != y ==> OnPath(h, f, x))
  }

  // A memory after the repairs.
  ghost predicate IsRepaired(m: Memory, t: Shape, root: Stub?, x: Stub, y: Stub) {
    IsAt(m, Top, t) && IsRbTree(t) && root == EarlyRoot(Ptr(t), x, y) && (x != y ==> x in Elements(t))
  }

  // What a rotation at the owner of the place does to the root pointer.
  lemma {:induction false} RootFollows(h: Place, f: Shape, w: Stub, x: Stub, y: Stub)
    requires !h.Top? && DisjointAt(h, f) && w in Elements(Sibling(h)) && (x != y ==> OnPath(h, f, x))
    ensures EarlyRoot(TopOf(h.up, w), x, y) == if Owner(h.up) == null then w else EarlyRoot(TopOf(h, Ptr(f)), x, y)
  {
    if x != y {
      NotBeside(h, f, x);
    }
    TopChanges(h.up, h.x, w);
  }

  lemma {:induction false} PathLeft(h: Place, f: Shape, x: Stub)
    requires h.InLeft? && OnPath(h, f, x)
    ensures h.right.Node? ==> OnPath(RedLeft(h), f, x)
    ensures h.right.Node? && h.right.left.Node? ==> OnPath(NearLeft(h), f, x)
    ensures OnPath(h.up, RaisedLeft(h, f), x)
  {
    assert Elements(RaisedLeft(h, f)) == Elements(f) + {h.x} + Elements(Painted(h.right, true));
  }

  lemma {:induction false} PathRight(h: Place, f: Shape, x: Stub)
    requires h.InRight? && OnPath(h, f, x)
    ensures h.left.Node? ==> OnPath(RedRight(h), f, x)
    ensures h.left.Node? && h.left.right.Node? ==> OnPath(NearRight(h), f, x)
    ensures OnPath(h.up, RaisedRight(h, f), x)
  {
    assert Elements(RaisedRight(h, f)) == Elements(Painted(h.left, true)) + {h.x} + Elements(f);
  }

  lemma {:induction false} PathFill(h: Place, f: Shape, x: Stub)
    requires OnPath(h, f, x)
    ensures x in Elements(Fill(h, f))
  {
    SpineAround(h);
    DisjointFill(h, f);
  }

  // ------------------------------------------------------- the steps, assembled

  // The nodes that a step reads.
  lemma {:induction false} RepairFacts(m: Memory, h: Place, f: Shape, k: nat)
    requires IsAt(m, h, f) && IsShort(h, f, k) && !h.Top?
    ensures h.x in m && m[h.x].red == h.red && m[h.x].parent == Owner(h.up)
    ensures h.InLeft? ==> m[h.x].right == Ptr(h.right)
    ensures h.InRight? ==> m[h.x].left == Ptr(h.left)
    ensures var w := Sibling(h);
            && w.Node? && w.x in m && m[w.x] == Cell(h.x, Ptr(w.left), Ptr(w.right), w.red)
            && (w.left.Node? ==> w.left.x in m && m[w.left.x].red == w.left.red)
            && (w.right.Node? ==> w.right.x in m && m[w.right.x].red == w.right.red)
  {
    hide IsAt;
    SiblingIsNode(h, f, k);
    OwnerAt(m, h, f);
    FocusUp(m, h, f);
    FocusDown(m, h.up, Refilled(h, f));
    if h.InLeft? {
      NodeAt(m, InRight(f, h.x, h.red, h.up), h.right);
    } else {
      NodeAt(m, InLeft(h.x, h.red, f, h.up), h.left);
    }
  }

  lemma {:induction false} DisjointOf(m: Memory, h: Place, f: Shape)
    requires IsAt(m, h, f)
    ensures DisjointAt(h, f) && (!h.Top? && Sibling(h).Node? ==> Sibling(h).x in Elements(Sibling(h)))
  {}

  lemma {:induction false} TurnedRed(m: Memory, m': Memory, h: Place, f: Shape, k: nat, r: Stub?, r': Stub?, x: Stub,
        y: Stub)
    requires InRepair(m, h, f, k, r, x, y) && !h.Top? && IsRed(Sibling(h))
    requires IsAt(m', if h.InLeft? then RedLeft(h) else RedRight(h), f)
    requires r' == if Owner(h.up) == null then Sibling(h).x else r
    ensures InRepair(m', if h.InLeft? then RedLeft(h) else RedRight(h), f, k, r', x, y)
  {
    hide IsAt, IsShort, DisjointAt, OnPath, EarlyRoot, Elements;
    DisjointOf(m, h, f);
    RootFollows(h, f, Sibling(h).x, x, y);
    if h.InLeft? {
      RedLeftShort(h, f, k);
      assert TopOf(RedLeft(h).up, h.x) == TopOf(h.up, h.right.x);
      if x != y { PathLeft(h, f, x); }
    } else {
      RedRightShort(h, f, k);
      assert TopOf(RedRight(h).up, h.x) == TopOf(h.up, h.left.x);
      if x != y { PathRight(h, f, x); }
    }
  }

  lemma {:induction false} Raised(m: Memory, m': Memory, h: Place, f: Shape, k: nat, r: Stub?, x: Stub, y: Stub)
    requires InRepair(m, h, f, k, r, x, y) && !h.Top? && !IsRed(f) && !IsRed(Sibling(h))
    requires Sibling(h).Node? ==> !IsRed(Sibling(h).left) && !IsRed(Sibling(h).right)
    requires IsAt(m', h.up, if h.InLeft? then RaisedLeft(h, f) else RaisedRight(h, f))
    ensures InRepair(m', h.up, if h.InLeft? then RaisedLeft(h, f) else RaisedRight(h, f),
        k + if h.red then 0 else 1, r, x, y)
  {
    hide IsAt, IsShort, OnPath, EarlyRoot;
    if h.InLeft? {
      RaiseLeftShort(h, f, k);
      if x != y { PathLeft(h, f, x); }
    } else {
      RaiseRightShort(h, f, k);
      if x != y { PathRight(h, f, x); }
    }
  }

  lemma {:induction false} TurnedNear(m: Memory, m': Memory, h: Place, f: Shape, k: nat, r: Stub?, x: Stub, y: Stub)
    requires InRepair(m, h, f, k, r, x, y) && !h.Top? && Sibling(h).Node? && !Sibling(h).red && !IsRed(FarNephew(h))
    requires IsRed(if h.InLeft? then h.right.left else h.left.right)
    requires IsAt(m', if h.InLeft? then NearLeft(h) else NearRight(h), f)
    ensures InRepair(m', if h.InLeft? then NearLeft(h) else NearRight(h), f, k, r, x, y)
  {
    hide IsAt, IsShort, OnPath, EarlyRoot;
    if h.InLeft? {
      NearLeftShort(h, f, k);
      if x != y { PathLeft(h, f, x); }
    } else {
      NearRightShort(h, f, k);
      if x != y { PathRight(h, f, x); }
    }
  }

  lemma {:induction false} TurnedFar(m: Memory, m': Memory, h: Place, f: Shape, k: nat, r: Stub?, r': Stub?, x: Stub,
        y: Stub)
    requires InRepair(m, h, f, k, r, x, y) && !h.Top? && !IsRed(f) && Sibling(h).Node? && !Sibling(h).red
        && IsRed(FarNephew(h))
    requires IsAt(m', h.up, if h.InLeft? then FarLeft(h, f) else FarRight(h, f))
    requires r' == if Owner(h.up) == null then Sibling(h).x else r
    ensures IsRepaired(m', Fill(h.up, if h.InLeft? then FarLeft(h, f) else FarRight(h, f)), r', x, y)
    ensures InOrder(Fill(h.up, if h.InLeft? then FarLeft(h, f) else FarRight(h, f))) == InOrder(Fill(h, f))
    ensures Elements(Fill(h.up, if h.InLeft? then FarLeft(h, f) else FarRight(h, f))) == Elements(Fill(h, f))
  {
    hide IsAt, IsShort, DisjointAt, OnPath, EarlyRoot, Elements, InOrder, IsRbTree, Fill;
    DisjointOf(m, h, f);
    RootFollows(h, f, Sibling(h).x, x, y);
    if x != y { PathFill(h, f, x); }
    if h.InLeft? {
      FarLeftRb(h, f, k);
      FocusTop(m', h.up, FarLeft(h, f));
    } else {
      FarRightRb(h, f, k);
      FocusTop(m', h.up, FarRight(h, f));
    }
  }

  lemma {:induction false} RepairReads(m: Memory, h: Place, f: Shape, k: nat, r: Stub?, x: Stub, y: Stub)
    requires InRepair(m, h, f, k, r, x, y)
    ensures r != null && (f.Node? ==> f.x in m && m[f.x].red == f.red)
    ensures !h.Top? ==> h.x in m && (h.InLeft? <==> m[h.x].left == Ptr(f))
  {
    hide IsAt, OnPath, EarlyRoot, IsShort;
    if f.Node? {
      NodeAt(m, h, f);
    }
    if !h.Top? {
      ShortSide(m, h, f, k);
    }
  }

  // The loop ends at the top, or at a red node, which is painted black.
  lemma {:induction false} RepairEnds(m: Memory, h: Place, f: Shape, k: nat, r: Stub?, x: Stub, y: Stub)
    requires InRepair(m, h, f, k, r, x, y) && (h.Top? || IsRed(f))
    ensures IsRepaired(PutRed(m, Ptr(f), false), Fill(h, Painted(f, false)), r, x, y)
    ensures InOrder(Fill(h, Painted(f, false))) == InOrder(Fill(h, f))
    ensures Elements(Fill(h, Painted(f, false))) == Elements(Fill(h, f))
  {
    hide IsAt, OnPath, EarlyRoot, PutRed, InOrder, Elements;
    PaintKeeps(m, h, f, false);
    PaintedInOrder(f, false);
    SameOrder(h, Painted(f, false), f);
    FocusTop(PutRed(m, Ptr(f), false), h, Painted(f, false));
    if !h.Top? {
      RbFill(h, Painted(f, false), k);
    }
    if x != y { PathFill(h, f, x); }
  }

  // The test that ends the loop, when the pointer is the root already.
  lemma {:induction false} AtRoot(m: Memory, h: Place, f: Shape, k: nat, r: Stub?, x: Stub, y: Stub)
    requires InRepair(m, h, f, k, r, x, y) && Ptr(f) == r && y !in Elements(f)
    ensures h.Top?
  {
    if !h.Top? {
      TopAround(h, Ptr(f));
      RootInside(f);
    }
  }

  lemma {:induction false} TopAround(h: Place, f: Stub?)
    requires !h.Top?
    ensures TopOf(h, f) != null && TopOf(h, f) in Around(h)
  {
    if !h.up.Top? {
      TopAround(h.up, h.x);
    }
  }

  // Painting the root of a repaired tree black changes nothing, and it does not
  // matter when the root pointer names a node that is not in the tree.
  lemma {:induction false} RootIsBlack(m: Memory, t: Shape, r: Stub?, x: Stub, y: Stub)
    requires IsRepaired(m, t, r, x, y) && y !in Elements(t)
    ensures IsRepaired(PutRed(m, r, false), t, r, x, y) && (r == y || r == null || r in m)
  {
    hide IsTree, Elements;
    RootInside(t);
    if r == Ptr(t) {
      if t.Node? { NodeAt(m, Top, t); }
      PaintKeeps(m, Top, t, false);
    } else {
      Reframe(m, PutRed(m, r, false), Top, t);
    }
  }

  // --------------------------------------------------------------- transplanting

  // The memory after y has been put in the place of x.
  function Transplanted(m: Memory, x: Stub, y: Stub): Memory {
    if x !in m || y !in m then m
    else
      var m1 := PutParent(PutParent(m, m[x].left, y), m[x].right, y);
      CopiedLinks(PutChild(m1, m[x].parent, x, y), x, y)
  }

  function CopiedLinks(m: Memory, x: Stub, y: Stub): Memory {
    if x !in m then m
    else PutRed(PutRight(PutLeft(PutParent(m, y, m[x].parent), y, m[x].left), y, m[x].right), y, m[x].red)
  }

  // The memory after y has got the links of x, then the links to x, and then
  // the colour.
  function Replaced(m: Memory, x: Stub, y: Stub): Memory {
    if x !in m || y !in m then m
    else
      var m1 := PutChild(CopiedPointers(m, x, y), m[x].parent, x, y);
      PutRed(PutParent(PutParent(m1, m[x].left, y), m[x].right, y), y, m[x].red)
  }

  function CopiedPointers(m: Memory, x: Stub, y: Stub): Memory {
    if x !in m then m
    else PutRight(PutLeft(PutParent(m, y, m[x].parent), y, m[x].left), y, m[x].right)
  }

  // What either of them makes of one cell.
  function MovedCell(m: Memory, x: Stub, y: Stub, z: Stub): Cell
    requires x in m && z in m
  {
    if z == y then m[x]
    else
      var p := if z == m[x].left || z == m[x].right then y else m[z].parent;
      if z != m[x].parent then m[z].(parent := p)
      else if m[z].left == x then m[z].(parent := p, left := y)
      else m[z].(parent := p, right := y)
  }

  ghost predicate AreApartFrom(m: Memory, x: Stub, y: Stub) {
    x in m && y in m && x != y && m[x].parent !in [x, y] && m[x].left !in [x, y] && m[x].right !in [x, y]
  }

  lemma {:induction false} RelinkedCell(m: Memory, x: Stub, y: Stub, z: Stub)
    requires AreApartFrom(m, x, y)
    ensures var m1 := PutChild(CopiedPointers(m, x, y), m[x].parent, x, y);
            && (z in m1 <==> z in m)
            && (z in m ==> m1[z] == if z == y then m[x].(red := m[y].red)
                                    else if z != m[x].parent then m[z]
                                    else if m[z].left == x then m[z].(left := y)
                                    else m[z].(right := y))
  {}

  lemma {:induction false} ReplacedCell(m: Memory, x: Stub, y: Stub, z: Stub)
    requires AreApartFrom(m, x, y)
    ensures (z in Replaced(m, x, y) <==> z in m) && (z in m ==> Replaced(m, x, y)[z] == MovedCell(m, x, y, z))
  {
    hide CopiedPointers, PutChild;
    RelinkedCell(m, x, y, y);
    RelinkedCell(m, x, y, z);
  }

  lemma {:induction false} TransplantedCell(m: Memory, x: Stub, y: Stub, z: Stub)
    requires AreApartFrom(m, x, y)
    ensures (z in Transplanted(m, x, y) <==> z in m) && (z in m ==> Transplanted(m, x, y)[z] == MovedCell(m, x, y, z))
  {
    var m1 := PutParent(PutParent(m, m[x].left, y), m[x].right, y);
    var m2 := PutChild(m1, m[x].parent, x, y);
    assert x in m2 && y in m2 && m2[x] == m[x] && (z in m2 <==> z in m);
    if z == y {
    } else if z == m[x].parent {
    } else {
    }
  }

  // The order of the writes makes no difference.
  lemma {:induction false} ReplacedIsTransplanted(m: Memory, x: Stub, y: Stub)
    requires AreApartFrom(m, x, y)
    ensures Replaced(m, x, y) == Transplanted(m, x, y)
  {
    hide Replaced, Transplanted, MovedCell;
    var r, t := Replaced(m, x, y), Transplanted(m, x, y);
    forall z | z in r.Keys + t.Keys ensures z in r && z in t && r[z] == t[z] {
      ReplacedCell(m, x, y, z);
      TransplantedCell(m, x, y, z);
    }
  }

  lemma {:induction false} TransplantKeeps(m: Memory, h: Place, l: Shape, x: Stub, c: bool, r: Shape, y: Stub)
    requires IsAt(m, h, Node(l, x, c, r)) && y in m && y !in Elements(Node(l, x, c, r)) && y !in Around(h)
    ensures IsAt(Transplanted(m, x, y), h, Node(l, y, c, r))
  {
    hide IsTree, IsHole, Disjoint, DisjointHole, DisjointAt, Around, Elements;
    TransplantFacts(m, h, l, x, c, r, y);
    var m' := Transplanted(m, x, y);
    TreeMoves(m, m', l, x, y);
    TreeMoves(m, m', r, x, y);
    HoleGets(m, m', h, x, y);
    assert m'[y] == Cell(Owner(h), Ptr(l), Ptr(r), c);
    NodeIsTree(m', l, y, c, r, Owner(h));
  }

  lemma {:induction false} NodeIsTree(m: Memory, l: Shape, x: Stub, c: bool, r: Shape, p: Stub?)
    requires x in m && m[x] == Cell(p, Ptr(l), Ptr(r), c) && IsTree(m, l, x) && IsTree(m, r, x)
    ensures IsTree(m, Node(l, x, c, r), p)
  {}

  lemma {:induction false} TransplantFacts(m: Memory, h: Place, l: Shape, x: Stub, c: bool, r: Shape, y: Stub)
    requires IsAt(m, h, Node(l, x, c, r)) && y in m && y !in Elements(Node(l, x, c, r)) && y !in Around(h)
    ensures x in m && m[x] == Cell(Owner(h), Ptr(l), Ptr(r), c) && IsTree(m, l, x) && IsTree(m, r, x) && IsHole(m, h, x)
    ensures DisjointAt(h, Node(l, y, c, r)) && Disjoint(l) && Disjoint(r) && DisjointHole(h)
    ensures Elements(l) !! Elements(r) && Elements(l) !! Around(h) && Elements(r) !! Around(h)
    ensures x !in Elements(l) && x !in Elements(r) && x !in Around(h)
    ensures y !in Elements(l) && y !in Elements(r) && x != y
    ensures l.Node? ==> l.x in m && l.x in Elements(l)
    ensures r.Node? ==> r.x in m && r.x in Elements(r)
    ensures !h.Top? ==> h.x in m && h.x in Around(h)
    ensures h.InLeft? ==> m[h.x].left == x
    ensures h.InRight? ==> m[h.x].left != x && m[h.x].right == x
  {
    var t := Node(l, x, c, r);
    DisjointNode(h, l, x, c, r);
    DisjointNode(h, l, y, c, r);
    RootInside(l);
    RootInside(r);
    NodeAt(m, h, t);
    OwnerAround(m, h, x);
    if !h.Top? {
      WhichSide(m, h, t);
    }
  }

  // A new node and the links of the one it replaces.
  lemma {:induction false} NewIsApart(m: Memory, h: Place, t: Shape, y: Stub)
    requires IsAt(m, h, t) && t.Node? && y in m && y !in Elements(t) && y !in Around(h)
    ensures AreApartFrom(m, t.x, y) && {m[t.x].parent, m[t.x].left, m[t.x].right} <= m.Keys + {null}
  {
    hide IsAt, IsTree, IsHole, Disjoint, DisjointHole, DisjointAt, Around, Elements;
    TransplantFacts(m, h, t.left, t.x, t.red, t.right, y);
  }

  lemma {:induction false} SwapRb(h: Place, l: Shape, x: Stub, c: bool, r: Shape, y: Stub)
    requires IsRbTree(Fill(h, Node(l, x, c, r)))
    ensures IsRbTree(Fill(h, Node(l, y, c, r)))
  {
    RbUnfill(h, Node(l, x, c, r));
    RbFill(h, Node(l, y, c, r), BlackHeight(Node(l, x, c, r)));
  }

  function FirstAt(s: seq<Stub>, x: Stub): nat {
    if s == [] || s[0] == x then 0 else 1 + FirstAt(s[1..], x)
  }

  lemma {:induction false} FirstAtSplit(a: seq<Stub>, x: Stub, b: seq<Stub>)
    requires x !in a
    ensures FirstAt(a + [x] + b, x) == |a|
  {
    if a != [] {
      assert (a + [x] + b)[1..] == a[1..] + [x] + b;
      FirstAtSplit(a[1..], x, b);
    }
  }

  lemma {:induction false} SameSplit(a: seq<Stub>, b: seq<Stub>, a': seq<Stub>, b': seq<Stub>, x: Stub)
    requires a + [x] + b == a' + [x] + b' && x !in a && x !in a'
    ensures a == a' && b == b'
  {
    var s := a + [x] + b;
    FirstAtSplit(a, x, b);
    FirstAtSplit(a', x, b');
    assert a == s[..|a|] && a' == s[..|a'|];
    assert b == s[|a| + 1..] && b' == s[|a'| + 1..];
  }

  // In the sequence, y takes the position of x.
  lemma {:induction false} SwapOrder(h: Place, l: Shape, x: Stub, c: bool, r: Shape, y: Stub, a: seq<Stub>,
        b: seq<Stub>)
    requires InOrder(Fill(h, Node(l, x, c, r))) == a + [x] + b && x !in a && DisjointAt(h, Node(l, x, c, r))
    ensures InOrder(Fill(h, Node(l, y, c, r))) == a + [y] + b
    ensures Elements(Fill(h, Node(l, y, c, r))) == Elements(Fill(h, Node(l, x, c, r))) - {x} + {y}
  {
    hide Fill, Disjoint, DisjointHole, DisjointAt, Before, After, Around;
    InOrderFill(h, Node(l, x, c, r));
    InOrderFill(h, Node(l, y, c, r));
    DisjointFill(h, Node(l, x, c, r));
    DisjointFill(h, Node(l, y, c, r));
    DisjointNode(h, l, x, c, r);
    BeforeAround(h, x);
    InOrderElements(l, x);
    var a', b' := Before(h) + InOrder(l), InOrder(r) + After(h);
    assert Before(h) + InOrder(Node(l, x, c, r)) + After(h) == a' + [x] + b';
    assert Before(h) + InOrder(Node(l, y, c, r)) + After(h) == a' + [y] + b';
    SameSplit(a, b, a', b', x);
  }

  // The same, for the place of x in the whole tree.
  lemma {:induction false} ReplaceInOrder(h: Place, l: Shape, x: Stub, c: bool, r: Shape, y: Stub)
    requires DisjointAt(h, Node(l, x, c, r))
    ensures InOrder(Fill(h, Node(l, y, c, r))) == Instead(InOrder(Fill(h, Node(l, x, c, r))), x, y)
    ensures Elements(Fill(h, Node(l, y, c, r))) == Elements(Fill(h, Node(l, x, c, r))) - {x} + {y}
  {
    hide Fill, Before, After, Around, Disjoint, DisjointHole;
    var t, a, b := Node(l, x, c, r), Before(h) + InOrder(l), InOrder(r) + After(h);
    InOrderFill(h, t);
    assert Before(h) + InOrder(t) + After(h) == a + [x] + b;
    NotBefore(h, t);
    SwapOrder(h, l, x, c, r, y, a, b);
    InsteadBetween(a, x, b, y);
  }

  // Taking out the successor y and putting it in the place of x removes x.
  lemma {:induction false} MoveOrder(g: Place, u: Shape, c: Shape, a: seq<Stub>, x: Stub)
    requires IsOnlyChild(u, c) && u.left.Leaf? && Before(g) + InOrder(u.left) == a + [x] && x !in a
    ensures InOrder(Fill(g, c)) == a + [x] + (InOrder(c) + After(g))
    ensures a + [u.x] + (InOrder(c) + After(g)) == Without(InOrder(Fill(g, u)), x)
  {
    hide Fill, Before, After;
    InOrderFill(g, u);
    InOrderFill(g, c);
    var b := InOrder(c) + After(g);
    assert InOrder(u) == [u.x] + InOrder(u.right) && Before(g) == a + [x];
    assert c == u.right;
    WithoutBetween(a, x, [u.x] + b);
    assert a + [x] + ([u.x] + b) == Before(g) + InOrder(u) + After(g);
    assert a + ([u.x] + b) == a + [u.x] + b;
  }

  // The node y that will be bypassed: x itself, when it has a free side, or the
  // leftmost node of its right subtree, which comes right after x.
  ghost predicate IsChosen(h: Place, t: Shape, g: Place, u: Shape) {
    && t.Node? && u.Node? && Fill(g, u) == Fill(h, t)
    && (t.x == u.x ==> g == h && u == t && (t.left.Leaf? || t.right.Leaf?))
    && (t.x != u.x ==>
          && u.left.Leaf? && t.x in Spine(g) && t.x !in Before(h) + InOrder(t.left)
          && Before(g) + InOrder(u.left) == Before(h) + InOrder(t.left) + [t.x])
  }

  // The root pointer after the two assignments that follow the bypass.
  lemma {:induction false} RootAfterSplice(m: Memory, h: Place, t: Shape, g: Place, u: Shape, c: Shape)
    requires IsAt(m, h, t) && IsAt(m, g, u) && IsChosen(h, t, g, u)
    ensures EarlyRoot(TopOf(g, Ptr(c)), t.x, u.x) ==
              if t.x == u.x && Owner(g) == null then Ptr(c)
              else if Owner(h) == null then u.x
              else Ptr(Fill(h, t))
  {
    hide IsTree, IsHole, Elements, Around, InOrder, Before, Fill;
    FocusTop(m, h, t);
    FocusTop(m, g, u);
    TopChanges(g, u.x, Ptr(c));
    if !h.Top? {
      TopAround(h, t.x);
      RootInside(t);
    }
  }

  lemma {:induction false} SpliceElsewhere(m: Memory, y: Stub, c: Stub?, pc: Stub?, x: Stub)
    requires x in m && x != c
    ensures x in Spliced(m, y, c, pc) && Spliced(m, y, c, pc)[x].parent == m[x].parent
  {}

  lemma {:induction false} PathAfterSplice(m: Memory, h: Place, t: Shape, g: Place, u: Shape, c: Shape)
    requires IsAt(m, g, u) && IsChosen(h, t, g, u) && IsOnlyChild(u, c)
    ensures t.x != u.x ==> OnPath(g, c, t.x)
    ensures t.x != Ptr(c) && u.x != Ptr(c)
    ensures u.x !in Elements(Fill(g, c)) && Elements(Fill(g, c)) == Elements(Fill(h, t)) - {u.x}
  {
    hide InOrder, Before, Fill;
    SpineAround(g);
    RootInside(c);
    DisjointNode(g, u.left, u.x, u.red, u.right);
    DisjointFill(g, u);
    DisjointFill(g, c);
  }

  // The early root is the root after all.
  lemma {:induction false} LateRoot(h: Place, t: Shape, r: Stub?, y: Stub)
    requires t.Node? && DisjointAt(h, t) && r == EarlyRoot(Ptr(Fill(h, t)), t.x, y) && TopOf(h, t.x) == Ptr(Fill(h, t))
        && y != t.x
    ensures r == TopOf(h, y)
  {
    if !h.Top? {
      TopAround(h, t.x);
      RootInside(t);
      TopChanges(h, t.x, y);
    }
  }

  // The root pointer is the only one from outside that can point to a node.
  lemma {:induction false} RootMoves(h: Place, t: Shape, y: Stub)
    requires t.Node? && DisjointAt(h, t)
    ensures TopOf(h, y) == if TopOf(h, t.x) == t.x then y else TopOf(h, t.x)
  {
    if !h.Top? {
      TopAround(h, t.x);
      RootInside(t);
      TopChanges(h, t.x, y);
    }
  }

  // When no node is left, there is nothing to repair.
  lemma {:induction false} NothingLeft(h: Place, c: Shape)
    requires TopOf(h, Ptr(c)) == null
    ensures Fill(h, c) == Leaf && IsRbTree(Fill(h, c))
  {
    if !h.Top? {
      TopAround(h, Ptr(c));
    }
  }

  // What the bypass leaves, and what the transplant then makes of it.
  lemma {:induction false} ChosenOrder(h: Place, t: Shape, g: Place, u: Shape, c: Shape)
    requires IsChosen(h, t, g, u) && IsOnlyChild(u, c) && Disjoint(Fill(h, t))
    ensures t.x == u.x ==> InOrder(Fill(g, c)) == Without(InOrder(Fill(h, t)), t.x)
    ensures t.x != u.x ==>
              var a, b := Before(h) + InOrder(t.left), InOrder(c) + After(g);
              && t.x !in a && InOrder(Fill(g, c)) == a + [t.x] + b
              && a + [u.x] + b == Without(InOrder(Fill(h, t)), t.x)
  {
    hide Before, After, Fill, Without, InOrder, Disjoint;
    if t.x == u.x {
      SpliceOrder(g, u, c);
    } else {
      MoveOrder(g, u, c, Before(h) + InOrder(t.left), t.x);
    }
  }

  lemma {:induction false} ChosenFacts(m: Memory, h: Place, t: Shape, g: Place, u: Shape)
    requires IsAt(m, h, t) && IsChosen(h, t, g, u)
    ensures t.Node? && u.Node? && Fill(g, u) == Fill(h, t) && Disjoint(Fill(h, t))
    ensures IsOnlyChild(u, if u.left.Node? then u.left else u.right)
  {
    hide Fill, Disjoint;
    DisjointFill(h, t);
  }

  lemma {:induction false} NotSelf(m: Memory, g: Place, u: Shape, x: Stub)
    requires IsAt(m, g, u) && u.Node? && x in Spine(g)
    ensures u.x != x
  {
    SpineAround(g);
    RootInside(u);
  }

  lemma {:induction false} RepairedAll(m: Memory, t: Shape, r: Stub?, x: Stub)
    requires IsRepaired(m, t, r, x, x)
    ensures IsAt(m, Top, t) && IsRbTree(t) && r == Ptr(t)
  {}

  lemma {:induction false} SetSwap(S: set<Stub>, x: Stub, y: Stub)
    requires x in S && y in S
    ensures x != y ==> S - {y} - {x} + {y} == S - {x}
  {}
}
