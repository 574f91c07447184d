// The red-black tree: search, insertion and removal.
module RbTree {
  import opened RbShape
  import opened RbLinks
  import opened RbSteps
  import opened RbOrder
  import opened RbShrink

  // ------------------------------------------------------------------- the tree

  class Tree {
    var root: Stub?
    ghost var shape: Shape
    ghost var nodes: set<Stub>

    // A binary tree, whatever its colours and its order.
    ghost predicate IsLinked()
      reads this, nodes
    {
      nodes == Elements(shape) && root == Ptr(shape) && IsAt(Snapshot(nodes), Top, shape)
    }

    // A binary search tree, whatever its colours.
    ghost predicate IsOrdered()
      reads this, nodes
    {
      IsLinked() && Sorted(InOrder(shape))
    }

    // A red-black tree.
    ghost predicate Valid()
      reads this, nodes
    {
      IsOrdered() && IsRbTree(shape)
    }

    constructor ()
      ensures Valid() && InOrder(shape) == [] && nodes == {}
    {
      root, shape, nodes := null, Leaf, {};
    }

    // The link to x, from its parent or from outside, becomes a link to y.
    method Relink(x: Stub, y: Stub, ghost S: set<Stub>)
      requires x in S && (x.parent != null ==> x.parent in S)
      modifies `root, (set p | p in S && p == x.parent)`left, (set p | p in S && p == x.parent)`right
      ensures Snapshot(S) == PutChild(old(Snapshot(S)), old(x.parent), x, y)
      ensures root == if old(x.parent) == null then y else old(root)
    {
      SnapshotAt(S, x.parent);
      if x.parent != null {
        if x == x.parent.left {
          x.parent.SetLeft(y, S);
        } else {
          x.parent.SetRight(y, S);
        }
      } else {
        root := y;
      }
    }

    // `bst_left_rotate`
    method LeftRotate(x: Stub, ghost S: set<Stub>)
      requires CanRotateLeft(Snapshot(S), x)
      modifies S, `root
      ensures Snapshot(S) == RotateLeft(old(Snapshot(S)), x)
      ensures root == if old(x.parent) == null && old(x.right) != null then old(x.right) else old(root)
    {
      hide Snapshot;
      SnapshotAt(S, x);
      SnapshotAt(S, x.right);
      if x.right == null {
        return;
      }
      var y := x.right;
      Relink(x, y, S);
      y.SetParent(x.parent, S);
      x.SetParent(y, S);
      SnapshotAt(S, y);
      x.SetRight(y.left, S);
      y.SetLeft(x, S);
      SnapshotAt(S, x);
      if x.right != null {
        x.right.SetParent(x, S);
      }
    }

    // `bst_right_rotate`
    method RightRotate(x: Stub, ghost S: set<Stub>)
      requires CanRotateRight(Snapshot(S), x)
      modifies S, `root
      ensures Snapshot(S) == RotateRight(old(Snapshot(S)), x)
      ensures root == if old(x.parent) == null && old(x.left) != null then old(x.left) else old(root)
    {
      hide Snapshot;
      SnapshotAt(S, x);
      SnapshotAt(S, x.left);
      if x.left == null {
        return;
      }
      var y := x.left;
      Relink(x, y, S);
      y.SetParent(x.parent, S);
      x.SetParent(y, S);
      SnapshotAt(S, y);
      x.SetLeft(y.right, S);
      y.SetRight(x, S);
      SnapshotAt(S, x);
      if x.left != null {
        x.left.SetParent(x, S);
      }
    }

    // `bst_insert_node`, up to the links of the new node.
    method BstInsertNode(x: Stub, ghost S: set<Stub>) returns (ghost h: Place)
      requires Valid() && x !in nodes && S == nodes + {x}
      modifies `root, S
      ensures Fill(h, Leaf) == shape && Splits(h, x.key)
      ensures x in Snapshot(S) && IsAt(Snapshot(S), h, Node(Leaf, x, x.red, Leaf)) && root == TopOf(h, x)
    {
      hide IsAt, Sorted, Splits, IsRbTree, Snapshot, Linked;
      Resnap(nodes, S, Top, shape);
      var p: Stub?, t: Stub?, less := null, root, false;
      ghost var cur: Shape;
      h, cur := Top, shape;
      NothingSplits(x.key);
      while t != null
        invariant IsAt(Snapshot(S), h, cur) && Fill(h, cur) == shape && root == Ptr(shape)
        invariant t == Ptr(cur) && p == Owner(h) && (p != null ==> p in S) && less == h.InLeft?
        invariant Splits(h, x.key)
        decreases cur
      {
        NodeAt(Snapshot(S), h, cur);
        SnapshotAt(S, t);
        FocusDown(Snapshot(S), h, cur);
        Narrow(h, cur, x.key);
        p := t;
        less := x.key < t.key;
        t := if less then t.left else t.right;
        h, cur := if less then InLeft(cur.x, cur.red, cur.right, h) else InRight(cur.left, cur.x, cur.red, h),
                  if less then cur.left else cur.right;
      }
      DisjointFill(h, Leaf);
      FocusTop(Snapshot(S), h, cur);
      TopChanges(h, null, x);
      LinkKeeps(Snapshot(S), h, x);
      SnapshotAt(S, x);
      LinkNode(p, less, x, S);
    }

    // The last writes of `bst_insert_node`.
    method LinkNode(p: Stub?, less: bool, x: Stub, ghost S: set<Stub>)
      requires x in S && (p != null ==> p in S) && p != x
      modifies `root, S
      ensures Snapshot(S) == Linked(old(Snapshot(S)), p, less, x) && x.red == old(x.red)
      ensures root == if p == null then x else old(root)
    {
      hide Snapshot;
      if p == null {
        root := x;
      } else if less {
        p.SetLeft(x, S);
      } else {
        p.SetRight(x, S);
      }
      x.SetParent(p, S);
      x.SetLeft(null, S);
      x.SetRight(null, S);
    }

    // `_rbt_is_red`
    predicate IsRedNode(x: Stub?)
      reads x
    {
      x != null && x.red
    }

    // `_rbt_set_color`
    method SetColor(x: Stub?, c: bool, ghost S: set<Stub>)
      requires x != null ==> x in S
      modifies (set p | p in S && p == x)`red
      ensures Snapshot(S) == PutRed(old(Snapshot(S)), x, c)
    {
      if x != null {
        x.SetRed(c, S);
      }
    }

    // The branch of an insertion's loop that ends it, when y is a left child.
    method EndLeft(x0: Stub, y0: Stub, z: Stub, ghost S: set<Stub>, ghost h: Place, ghost f: Shape, ghost k: nat)
      requires IsAt(Snapshot(S), h, f) && IsInsertion(h, f, k) && IsRedHole(h) && h.up.InLeft?
      requires f.x == x0 && h.x == y0 && h.up.x == z && root == TopOf(h, x0) && !IsRed(h.up.right)
      modifies `root, `shape, S
      ensures IsAt(Snapshot(S), Top, shape) && root == Ptr(shape) && IsRbTree(shape)
      ensures InOrder(shape) == InOrder(Fill(h, f)) && Elements(shape) == Elements(Fill(h, f))
    {
      hide IsAt, IsRbHole, IsRbTree, InOrder, Elements, Snapshot, NoRedRed, IsBalanced, RotateLeft, RotateRight;
      var x, y := x0, y0;
      ghost var g, up, C := h.up, h.up.up, h.up.right;
      ghost var A, B := f, if h.InLeft? then h.right else f.right;
      OwnerAt(Snapshot(S), h, f);
      WhichSide(Snapshot(S), h, f);
      LineParts(h, f, k);
      SnapshotAt(S, y);
      FocusUp(Snapshot(S), h, f);
      if y.right == x {
        StraightenLeft(Snapshot(S), g, h.left, y, f, k);
        LeftRotate(y, S);
        A := Node(h.left, y, true, f.left);
        x := y;
        FocusDown(Snapshot(S), g, Node(A, f.x, true, B));
        NodeAt(Snapshot(S), InLeft(f.x, true, B, g), A);
        SnapshotAt(S, x);
        y := x.parent;
      }
      FocusUp(Snapshot(S), g, Node(A, y, true, B));
      FinishLeft(Snapshot(S), up, A, y, B, z, C, k);
      SnapshotAt(S, z);
      TopChanges(up, z, y);
      RightRotate(z, S);
      y.SetRed(false, S);
      z.SetRed(true, S);
      ghost var t := LowRight(A, y, false, B, z, true, C);
      FocusTop(Snapshot(S), up, t);
      EndLeftOrder(h, f, t, A, y, B);
      shape := Fill(up, t);
    }

    // The same, when y is a right child.
    method EndRight(x0: Stub, y0: Stub, z: Stub, ghost S: set<Stub>, ghost h: Place, ghost f: Shape, ghost k: nat)
      requires IsAt(Snapshot(S), h, f) && IsInsertion(h, f, k) && IsRedHole(h) && h.up.InRight?
      requires f.x == x0 && h.x == y0 && h.up.x == z && root == TopOf(h, x0) && !IsRed(h.up.left)
      modifies `root, `shape, S
      ensures IsAt(Snapshot(S), Top, shape) && root == Ptr(shape) && IsRbTree(shape)
      ensures InOrder(shape) == InOrder(Fill(h, f)) && Elements(shape) == Elements(Fill(h, f))
    {
      hide IsAt, IsRbHole, IsRbTree, InOrder, Elements, Snapshot, NoRedRed, IsBalanced, RotateLeft, RotateRight;
      var x, y := x0, y0;
      ghost var g, up, A := h.up, h.up.up, h.up.left;
      ghost var B, C := if h.InRight? then h.left else f.left, f;
      OwnerAt(Snapshot(S), h, f);
      WhichSide(Snapshot(S), h, f);
      LineParts(h, f, k);
      SnapshotAt(S, y);
      FocusUp(Snapshot(S), h, f);
      if y.left == x {
        StraightenRight(Snapshot(S), g, f, y, h.right, k);
        RightRotate(y, S);
        C := Node(f.right, y, true, h.right);
        x := y;
        FocusDown(Snapshot(S), g, Node(B, f.x, true, C));
        NodeAt(Snapshot(S), InRight(B, f.x, true, g), C);
        SnapshotAt(S, x);
        y := x.parent;
      }
      FocusUp(Snapshot(S), g, Node(B, y, true, C));
      FinishRight(Snapshot(S), up, A, z, B, y, C, k);
      SnapshotAt(S, z);
      TopChanges(up, z, y);
      LeftRotate(z, S);
      y.SetRed(false, S);
      z.SetRed(true, S);
      ghost var t := LowLeft(A, z, true, B, y, false, C);
      FocusTop(Snapshot(S), up, t);
      EndRightOrder(h, f, t, B, y, C);
      shape := Fill(up, t);
    }

    // The branch of an insertion's loop that goes on two levels up.
    method Recolor(z: Stub, ghost S: set<Stub>, ghost h: Place, ghost f: Shape, ghost k: nat)
      requires IsAt(Snapshot(S), h, f) && IsInsertion(h, f, k) && IsRedHole(h) && !h.up.Top? && h.up.x == z
      requires var t := Refilled(h.up, Refilled(h, f)); IsRed(t.left) && IsRed(t.right)
      requires z in S && z.left in S && z.right in S
      requires z.left == Ptr(Refilled(h.up, Refilled(h, f)).left)
          && z.right == Ptr(Refilled(h.up, Refilled(h, f)).right)
      modifies S`red
      ensures var up, t := h.up.up, Recolored(Refilled(h.up, Refilled(h, f)));
              && IsAt(Snapshot(S), up, t) && IsInsertion(up, t, k + 1)
              && (z.parent != null ==> z.parent in S && z.parent.red == up.red) && z.parent == Owner(up)
              && InOrder(Fill(up, t)) == InOrder(Fill(h, f)) && Elements(Fill(up, t)) == Elements(Fill(h, f))
    {
      hide IsAt, IsRbHole, InOrder, Elements, Snapshot, NoRedRed, IsBalanced, Fill, PutRed;
      ghost var up, t := h.up.up, Refilled(h.up, Refilled(h, f));
      RecolorRb(h, f, k);
      FocusUp(Snapshot(S), h, f);
      FocusUp(Snapshot(S), h.up, Refilled(h, f));
      RecolorKeeps(Snapshot(S), up, t);
      SetColor(z.left, false, S);
      SetColor(z.right, false, S);
      z.SetRed(true, S);
      SameOrder(up, t, Recolored(t));
      FillUp(h, f);
      NodeAt(Snapshot(S), up, Recolored(t));
      SnapshotAt(S, z);
      OwnerRed(Snapshot(S), up, Recolored(t));
      SnapshotAt(S, z.parent);
    }

    // The part of `rbt_insert_node` and `rbt_insearch_node` that follows the
    // insertion of a red leaf.
    method InsertFixup(x0: Stub, ghost S: set<Stub>, ghost h0: Place, ghost f0: Shape, ghost k0: nat)
      requires IsAt(Snapshot(S), h0, f0) && IsInsertion(h0, f0, k0) && f0.x == x0 && root == TopOf(h0, x0)
      modifies `root, `shape, S
      ensures IsAt(Snapshot(S), Top, shape) && root == Ptr(shape) && IsRbTree(shape)
      ensures InOrder(shape) == InOrder(Fill(h0, f0)) && Elements(shape) == Elements(Fill(h0, f0))
    {
      hide IsAt, IsRbHole, IsRbTree, InOrder, Elements, Snapshot, NoRedRed, IsBalanced, Fill, PutRed;
      ghost var h, f, k := h0, f0, k0;
      NodeAt(Snapshot(S), h, f);
      SnapshotAt(S, x0);
      var x, y := x0, x0.parent;
      OwnerRed(Snapshot(S), h, f);
      SnapshotAt(S, y);
      while y != null && y.red
        invariant IsAt(Snapshot(S), h, f) && IsInsertion(h, f, k) && f.x == x && y == Owner(h) && root == TopOf(h, x)
        invariant y != null ==> y in S && y.red == h.red
        invariant InOrder(Fill(h, f)) == InOrder(Fill(h0, f0)) && Elements(Fill(h, f)) == Elements(Fill(h0, f0))
        decreases h
      {
        OwnerAt(Snapshot(S), h, f);
        SnapshotAt(S, y);
        RecolorRb(h, f, k);
        var z := y.parent;
        FocusUp(Snapshot(S), h, f);
        FocusUp(Snapshot(S), h.up, Refilled(h, f));
        ghost var up, t := h.up.up, Refilled(h.up, Refilled(h, f));
        NodeAt(Snapshot(S), up, t);
        SnapshotAt(S, z);
        SnapshotAt(S, z.left);
        SnapshotAt(S, z.right);
        WhichSide(Snapshot(S), h.up, Refilled(h, f));
        if IsRedNode(z.left) && IsRedNode(z.right) {
          Recolor(z, S, h, f, k);
          h, f, k := up, Recolored(t), k + 1;
          x := z;
          y := z.parent;
        } else if y == z.left {
          EndLeft(x, y, z, S, h, f, k);
          return;
        } else {
          EndRight(x, y, z, S, h, f, k);
          return;
        }
      }
      InsertionEnds(h, f, k);
      FocusTop(Snapshot(S), h, f);
      PaintKeeps(Snapshot(S), Top, Fill(h, f), false);
      PaintedInOrder(Fill(h, f), false);
      NodeAt(Snapshot(S), Top, Fill(h, f));
      root.SetRed(false, S);
      shape := Painted(Fill(h, f), false);
    }

    // Valid again, after the links are in order.
    lemma {:induction false} BecomesValid(S: set<Stub>)
      requires IsAt(Snapshot(S), Top, shape) && root == Ptr(shape) && IsRbTree(shape) && Sorted(InOrder(shape))
      requires nodes == Elements(shape) && nodes <= S
      ensures Valid()
    {
      hide IsAt, IsRbTree, Sorted, InOrder, Snapshot, Elements;
      Resnap(S, nodes, Top, shape);
    }

    // `rbt_insert_node`
    method InsertNode(x: Stub)
      requires Valid() && x !in nodes
      modifies this, nodes, x
      ensures Valid() && nodes == old(nodes) + {x}
      ensures InOrder(shape) == Inserted(old(InOrder(shape)), x)
    {
      hide IsAt, Sorted, Splits, IsRbTree, IsRbHole, Snapshot, InOrder, Elements, Fill;
      ghost var S := nodes + {x};
      ghost var h := BstInsertNode(x, S);
      FinishInsertion(x, S, h);
    }

    // The common end of both kinds of insertion.
    method FinishInsertion(x: Stub, ghost S: set<Stub>, ghost h: Place)
      requires S == nodes + {x} && nodes == Elements(shape) && x in Snapshot(S)
      requires IsRbTree(shape) && Sorted(InOrder(shape)) && Fill(h, Leaf) == shape && Splits(h, x.key)
      requires IsAt(Snapshot(S), h, Node(Leaf, x, x.red, Leaf)) && root == TopOf(h, x)
      modifies this, S
      ensures Valid() && nodes == S
      ensures InOrder(shape) == Inserted(old(InOrder(shape)), x)
    {
      hide IsAt, Sorted, Splits, IsRbTree, IsRbHole, Snapshot, InOrder, Elements, Fill, PutRed;
      PaintKeeps(Snapshot(S), h, Node(Leaf, x, x.red, Leaf), true);
      x.SetRed(true, S);
      RbUnfill(h, Leaf);
      InsertsInOrder(h, x, true);
      InsertFixup(x, S, h, Node(Leaf, x, true, Leaf), 0);
      nodes := S;
      BecomesValid(S);
    }

    // `bst_insearch_node`, up to the links of the new node.
    method BstInsearchNode(x: Stub, ghost S: set<Stub>) returns (ok: bool, ghost h: Place)
      requires Valid() && x !in nodes && S == nodes + {x}
      modifies `root, S
      ensures ok <==> forall n :: n in nodes ==> n.key != x.key
      ensures !ok ==> root == old(root) && Snapshot(S) == old(Snapshot(S))
      ensures ok ==> Fill(h, Leaf) == shape && Splits(h, x.key) && x in Snapshot(S)
      ensures ok ==> IsAt(Snapshot(S), h, Node(Leaf, x, x.red, Leaf)) && root == TopOf(h, x)
    {
      hide IsAt, Sorted, Brackets, Splits, IsRbTree, Snapshot, Linked;
      Resnap(nodes, S, Top, shape);
      var p: Stub?, t: Stub?, less := null, root, false;
      ghost var cur: Shape;
      h, cur := Top, shape;
      NothingBrackets(x.key);
      while t != null
        invariant IsAt(Snapshot(S), h, cur) && Fill(h, cur) == shape && root == Ptr(shape)
        invariant t == Ptr(cur) && p == Owner(h) && (p != null ==> p in S) && less == h.InLeft?
        invariant Brackets(h, x.key) && Snapshot(S) == old(Snapshot(S))
        decreases cur
      {
        NodeAt(Snapshot(S), h, cur);
        SnapshotAt(S, t);
        FocusDown(Snapshot(S), h, cur);
        NarrowStrictly(h, cur, x.key);
        p := t;
        if x.key != t.key {
          less := x.key < t.key;
          t := if less then t.left else t.right;
          h, cur := if less then InLeft(cur.x, cur.red, cur.right, h) else InRight(cur.left, cur.x, cur.red, h),
                    if less then cur.left else cur.right;
        } else {
          DisjointFill(h, cur);
          return false, h;
        }
      }
      KeyIsAbsent(h, shape, x.key);
      DisjointFill(h, Leaf);
      FocusTop(Snapshot(S), h, cur);
      TopChanges(h, null, x);
      LinkKeeps(Snapshot(S), h, x);
      SnapshotAt(S, x);
      LinkNode(p, less, x, S);
      ok := true;
    }

    // `rbt_insearch_node`: an insertion unless the key is already there.
    method InsearchNode(x: Stub) returns (ok: bool)
      requires Valid() && x !in nodes
      modifies this, nodes, x
      ensures Valid() && (ok <==> forall n :: n in old(nodes) ==> n.key != x.key)
      ensures ok ==> nodes == old(nodes) + {x} && InOrder(shape) == Inserted(old(InOrder(shape)), x)
      ensures !ok ==> shape == old(shape) && nodes == old(nodes) && x.Fields() == old(x.Fields())
    {
      hide IsAt, Sorted, Splits, IsRbTree, IsRbHole, Snapshot, InOrder, Elements, Fill;
      ghost var S := nodes + {x};
      ghost var h;
      Resnap(nodes, S, Top, shape);
      SnapshotAt(S, x);
      ok, h := BstInsearchNode(x, S);
      if !ok {
        SnapshotAt(S, x);
        BecomesValid(S);
        return;
      }
      FinishInsertion(x, S, h);
    }

    // `bst_search`
    method Search(key: int) returns (r: Stub?)
      requires IsOrdered()
      ensures r == null <==> forall n :: n in nodes ==> n.key != key
      ensures r != null ==> r in nodes && r.key == key
    {
      hide IsAt, Sorted, Brackets, IsRbTree, Snapshot;
      ghost var S := nodes;
      ghost var h: Place, cur: Shape := Top, shape;
      NothingBrackets(key);
      r := root;
      while r != null
        invariant IsAt(Snapshot(S), h, cur) && Fill(h, cur) == shape && r == Ptr(cur) && Brackets(h, key)
        decreases cur
      {
        NodeAt(Snapshot(S), h, cur);
        SnapshotAt(S, r);
        FocusDown(Snapshot(S), h, cur);
        NarrowStrictly(h, cur, key);
        if key == r.key {
          return;
        }
        h, cur := if key < r.key then InLeft(cur.x, cur.red, cur.right, h) else InRight(cur.left, cur.x, cur.red, h),
                  if key < r.key then cur.left else cur.right;
        r := if key < r.key then r.left else r.right;
      }
      KeyIsAbsent(h, shape, key);
    }

    // A red sibling is rotated away, so that the sibling w is black.
    method SettleLeft(pc: Stub, ghost x: Stub, ghost y: Stub, ghost S: set<Stub>, ghost h0: Place, ghost f: Shape,
          ghost k: nat)
      returns (w: Stub, ghost h: Place)
      requires InRepair(Snapshot(S), h0, f, k, root, x, y) && h0.InLeft? && !IsRed(f) && pc == h0.x
      modifies `root, S
      ensures InRepair(Snapshot(S), h, f, k, root, x, y) && h.InLeft? && h.x == pc && h.right.Node? && !h.right.red
      ensures pc in S && pc.parent == Owner(h.up) && pc.red == h.red && w in S && w == h.right.x
      ensures w.left == Ptr(h.right.left) && (w.left != null ==> w.left in S && w.left.red == h.right.left.red)
      ensures w.right == Ptr(h.right.right) && (w.right != null ==> w.right in S && w.right.red == h.right.right.red)
      ensures SizeAround(h) == SizeAround(h0) && (h == h0 || Phase(h0) == 1)
      ensures InOrder(Fill(h, f)) == InOrder(Fill(h0, f)) && Elements(Fill(h, f)) == Elements(Fill(h0, f))
    {
      hide Snapshot, IsAt, IsShort, DisjointAt, RotateLeft, RotateRight, PutRed, OnPath, EarlyRoot, RedLeft,
        CanRotateLeft, CanRotateRight, SizeAround, InOrder, Elements, Fill;
      h := h0;
      RepairFacts(Snapshot(S), h, f, k);
      SnapshotAt(S, pc);
      w := pc.right;
      SnapshotAt(S, w);
      if IsRedNode(w) {
        TurnRedLeft(pc, w, x, y, S, h, f, k);
        RedLeftShort(h, f, k);
        h := RedLeft(h);
        RepairFacts(Snapshot(S), h, f, k);
        SnapshotAt(S, pc);
        w := pc.right;
        SnapshotAt(S, w);
      }
      SnapshotAt(S, w.left);
      SnapshotAt(S, w.right);
    }

    // One step of a removal's loop, when c is a left child.
    method StepLeft(c0: Stub?, pc0: Stub, ghost x: Stub, ghost y: Stub, ghost S: set<Stub>, ghost h0: Place,
          ghost f0: Shape, ghost k0: nat)
      returns (c: Stub?, pc: Stub?, ghost h: Place, ghost f: Shape, ghost k: nat, ghost done: bool)
      requires InRepair(Snapshot(S), h0, f0, k0, root, x, y) && h0.InLeft? && !IsRed(f0) && c0 == Ptr(f0)
          && pc0 == h0.x && y in S
      modifies `root, S
      ensures done ==> h.Top? && IsRepaired(Snapshot(S), f, root, x, y) && c == root
      ensures !done ==> InRepair(Snapshot(S), h, f, k, root, x, y) && c == Ptr(f) && pc == Owner(h)
      ensures !done ==> SizeAround(h) < SizeAround(h0) || (SizeAround(h) == SizeAround(h0) && Phase(h) < Phase(h0))
      ensures InOrder(Fill(h, f)) == InOrder(Fill(h0, f0)) && Elements(Fill(h, f)) == Elements(Fill(h0, f0))
    {
      hide Snapshot, IsAt, IsShort, DisjointAt, RotateLeft, RotateRight, PutRed, OnPath, EarlyRoot, RedLeft, NearLeft,
        FarLeft, CanRotateLeft, CanRotateRight, SizeAround, InOrder, Elements, Fill, IsRepaired, RaisedLeft;
      c, pc, f, k, done := c0, pc0, f0, k0, false;
      var w;
      w, h := SettleLeft(pc, x, y, S, h0, f, k);
      if !IsRedNode(w.left) && !IsRedNode(w.right) {
        ghost var m := Snapshot(S);
        RaiseLeftKeeps(m, h, f);
        RaiseLeftShort(h, f, k);
        SetColor(w, true, S);
        Raised(m, Snapshot(S), h, f, k, root, x, y);
        c := pc;
        pc := pc.parent;
        h, f, k := h.up, RaisedLeft(h, f), k + if h.red then 0 else 1;
      } else if !IsRedNode(w.right) {
        NearLeftShort(h, f, k);
        TurnNearLeft(pc, w, x, y, S, h, f, k);
        h := NearLeft(h);
      } else {
        FarLeftRb(h, f, k);
        TurnFarLeft(pc, w, x, y, S, h, f, k);
        c := root;
        h, f, done := Top, Fill(h.up, FarLeft(h, f)), true;
        TopFills(f);
      }
    }

    method TurnRedLeft(pc: Stub, w: Stub, ghost x: Stub, ghost y: Stub, ghost S: set<Stub>, ghost h: Place,
          ghost f: Shape, ghost k: nat)
      requires InRepair(Snapshot(S), h, f, k, root, x, y) && h.InLeft? && IsRed(h.right)
      requires pc in S && w in S && pc == h.x && w == h.right.x
      modifies `root, S
      ensures InRepair(Snapshot(S), RedLeft(h), f, k, root, x, y)
    {
      hide Snapshot, IsAt, IsShort, DisjointAt, RotateLeft, PutRed, OnPath, EarlyRoot, RedLeft, CanRotateLeft;
      ghost var m := Snapshot(S);
      RedLeftKeeps(m, h, f);
      w.SetRed(false, S);
      pc.SetRed(true, S);
      SnapshotAt(S, pc);
      ghost var r := root;
      LeftRotate(pc, S);
      TurnedRed(m, Snapshot(S), h, f, k, r, root, x, y);
    }

    method TurnNearLeft(pc: Stub, w: Stub, ghost x: Stub, ghost y: Stub, ghost S: set<Stub>, ghost h: Place,
          ghost f: Shape, ghost k: nat)
      requires InRepair(Snapshot(S), h, f, k, root, x, y) && h.InLeft? && h.right.Node? && !h.right.red
      requires IsRed(h.right.left) && !IsRed(h.right.right)
      requires pc in S && w in S && pc == h.x && w == h.right.x && w.left == h.right.left.x && w.left in S
      modifies `root, S
      ensures InRepair(Snapshot(S), NearLeft(h), f, k, root, x, y)
    {
      hide Snapshot, IsAt, IsShort, DisjointAt, RotateRight, PutRed, OnPath, EarlyRoot, NearLeft, CanRotateRight;
      ghost var m := Snapshot(S);
      NearLeftKeeps(m, h, f);
      SetColor(w.left, false, S);
      w.SetRed(true, S);
      SnapshotAt(S, w);
      RightRotate(w, S);
      TurnedNear(m, Snapshot(S), h, f, k, root, x, y);
    }

    method TurnFarLeft(pc: Stub, w: Stub, ghost x: Stub, ghost y: Stub, ghost S: set<Stub>, ghost h: Place,
          ghost f: Shape, ghost k: nat)
      requires InRepair(Snapshot(S), h, f, k, root, x, y) && h.InLeft? && !IsRed(f) && h.right.Node? && !h.right.red
          && IsRed(h.right.right)
      requires pc in S && w in S && pc == h.x && w == h.right.x && pc.red == h.red && w.right == h.right.right.x
          && w.right in S
      modifies `root, S
      ensures IsRepaired(Snapshot(S), Fill(h.up, FarLeft(h, f)), root, x, y)
    {
      hide Snapshot, IsAt, IsShort, DisjointAt, RotateLeft, PutRed, OnPath, EarlyRoot, FarLeft, CanRotateLeft,
        IsRepaired, Fill;
      ghost var m := Snapshot(S);
      FarLeftKeeps(m, h, f);
      w.SetRed(pc.red, S);
      pc.SetRed(false, S);
      SetColor(w.right, false, S);
      SnapshotAt(S, pc);
      ghost var r := root;
      LeftRotate(pc, S);
      TurnedFar(m, Snapshot(S), h, f, k, r, root, x, y);
    }

    method SettleRight(pc: Stub, ghost x: Stub, ghost y: Stub, ghost S: set<Stub>, ghost h0: Place, ghost f: Shape,
          ghost k: nat)
      returns (w: Stub, ghost h: Place)
      requires InRepair(Snapshot(S), h0, f, k, root, x, y) && h0.InRight? && !IsRed(f) && pc == h0.x
      modifies `root, S
      ensures InRepair(Snapshot(S), h, f, k, root, x, y) && h.InRight? && h.x == pc && h.left.Node? && !h.left.red
      ensures pc in S && pc.parent == Owner(h.up) && pc.red == h.red && w in S && w == h.left.x
      ensures w.right == Ptr(h.left.right) && (w.right != null ==> w.right in S && w.right.red == h.left.right.red)
      ensures w.left == Ptr(h.left.left) && (w.left != null ==> w.left in S && w.left.red == h.left.left.red)
      ensures SizeAround(h) == SizeAround(h0) && (h == h0 || Phase(h0) == 1)
      ensures InOrder(Fill(h, f)) == InOrder(Fill(h0, f)) && Elements(Fill(h, f)) == Elements(Fill(h0, f))
    {
      hide Snapshot, IsAt, IsShort, DisjointAt, RotateRight, RotateLeft, PutRed, OnPath, EarlyRoot, RedRight,
        CanRotateRight, CanRotateLeft, SizeAround, InOrder, Elements, Fill;
      h := h0;
      RepairFacts(Snapshot(S), h, f, k);
      SnapshotAt(S, pc);
      w := pc.left;
      SnapshotAt(S, w);
      if IsRedNode(w) {
        TurnRedRight(pc, w, x, y, S, h, f, k);
        RedRightShort(h, f, k);
        h := RedRight(h);
        RepairFacts(Snapshot(S), h, f, k);
        SnapshotAt(S, pc);
        w := pc.left;
        SnapshotAt(S, w);
      }
      SnapshotAt(S, w.right);
      SnapshotAt(S, w.left);
    }

    // One step of a removal's loop, when c is a right child.
    method StepRight(c0: Stub?, pc0: Stub, ghost x: Stub, ghost y: Stub, ghost S: set<Stub>, ghost h0: Place,
          ghost f0: Shape, ghost k0: nat)
      returns (c: Stub?, pc: Stub?, ghost h: Place, ghost f: Shape, ghost k: nat, ghost done: bool)
      requires InRepair(Snapshot(S), h0, f0, k0, root, x, y) && h0.InRight? && !IsRed(f0) && c0 == Ptr(f0)
          && pc0 == h0.x && y in S
      modifies `root, S
      ensures done ==> h.Top? && IsRepaired(Snapshot(S), f, root, x, y) && c == root
      ensures !done ==> InRepair(Snapshot(S), h, f, k, root, x, y) && c == Ptr(f) && pc == Owner(h)
      ensures !done ==> SizeAround(h) < SizeAround(h0) || (SizeAround(h) == SizeAround(h0) && Phase(h) < Phase(h0))
      ensures InOrder(Fill(h, f)) == InOrder(Fill(h0, f0)) && Elements(Fill(h, f)) == Elements(Fill(h0, f0))
    {
      hide Snapshot, IsAt, IsShort, DisjointAt, RotateRight, RotateLeft, PutRed, OnPath, EarlyRoot, RedRight, NearRight,
        FarRight, CanRotateRight, CanRotateLeft, SizeAround, InOrder, Elements, Fill, IsRepaired, RaisedRight;
      c, pc, f, k, done := c0, pc0, f0, k0, false;
      var w;
      w, h := SettleRight(pc, x, y, S, h0, f, k);
      if !IsRedNode(w.right) && !IsRedNode(w.left) {
        ghost var m := Snapshot(S);
        RaiseRightKeeps(m, h, f);
        RaiseRightShort(h, f, k);
        SetColor(w, true, S);
        Raised(m, Snapshot(S), h, f, k, root, x, y);
        c := pc;
        pc := pc.parent;
        h, f, k := h.up, RaisedRight(h, f), k + if h.red then 0 else 1;
      } else if !IsRedNode(w.left) {
        NearRightShort(h, f, k);
        TurnNearRight(pc, w, x, y, S, h, f, k);
        h := NearRight(h);
      } else {
        FarRightRb(h, f, k);
        TurnFarRight(pc, w, x, y, S, h, f, k);
        c := root;
        h, f, done := Top, Fill(h.up, FarRight(h, f)), true;
        TopFills(f);
      }
    }

    method TurnRedRight(pc: Stub, w: Stub, ghost x: Stub, ghost y: Stub, ghost S: set<Stub>, ghost h: Place,
          ghost f: Shape, ghost k: nat)
      requires InRepair(Snapshot(S), h, f, k, root, x, y) && h.InRight? && IsRed(h.left)
      requires pc in S && w in S && pc == h.x && w == h.left.x
      modifies `root, S
      ensures InRepair(Snapshot(S), RedRight(h), f, k, root, x, y)
    {
      hide Snapshot, IsAt, IsShort, DisjointAt, RotateRight, PutRed, OnPath, EarlyRoot, RedRight, CanRotateRight;
      ghost var m := Snapshot(S);
      RedRightKeeps(m, h, f);
      w.SetRed(false, S);
      pc.SetRed(true, S);
      SnapshotAt(S, pc);
      ghost var r := root;
      RightRotate(pc, S);
      TurnedRed(m, Snapshot(S), h, f, k, r, root, x, y);
    }

    method TurnNearRight(pc: Stub, w: Stub, ghost x: Stub, ghost y: Stub, ghost S: set<Stub>, ghost h: Place,
          ghost f: Shape, ghost k: nat)
      requires InRepair(Snapshot(S), h, f, k, root, x, y) && h.InRight? && h.left.Node? && !h.left.red
      requires IsRed(h.left.right) && !IsRed(h.left.left)
      requires pc in S && w in S && pc == h.x && w == h.left.x && w.right == h.left.right.x && w.right in S
      modifies `root, S
      ensures InRepair(Snapshot(S), NearRight(h), f, k, root, x, y)
    {
      hide Snapshot, IsAt, IsShort, DisjointAt, RotateLeft, PutRed, OnPath, EarlyRoot, NearRight, CanRotateLeft;
      ghost var m := Snapshot(S);
      NearRightKeeps(m, h, f);
      SetColor(w.right, false, S);
      w.SetRed(true, S);
      SnapshotAt(S, w);
      LeftRotate(w, S);
      TurnedNear(m, Snapshot(S), h, f, k, root, x, y);
    }

    method TurnFarRight(pc: Stub, w: Stub, ghost x: Stub, ghost y: Stub, ghost S: set<Stub>, ghost h: Place,
          ghost f: Shape, ghost k: nat)
      requires InRepair(Snapshot(S), h, f, k, root, x, y) && h.InRight? && !IsRed(f) && h.left.Node? && !h.left.red
          && IsRed(h.left.left)
      requires pc in S && w in S && pc == h.x && w == h.left.x && pc.red == h.red && w.left == h.left.left.x
          && w.left in S
      modifies `root, S
      ensures IsRepaired(Snapshot(S), Fill(h.up, FarRight(h, f)), root, x, y)
    {
      hide Snapshot, IsAt, IsShort, DisjointAt, RotateRight, PutRed, OnPath, EarlyRoot, FarRight, CanRotateRight,
        IsRepaired, Fill;
      ghost var m := Snapshot(S);
      FarRightKeeps(m, h, f);
      w.SetRed(pc.red, S);
      pc.SetRed(false, S);
      SetColor(w.left, false, S);
      SnapshotAt(S, pc);
      ghost var r := root;
      RightRotate(pc, S);
      TurnedFar(m, Snapshot(S), h, f, k, r, root, x, y);
    }

    // The loop of `rbt_remove_node`, and the painting that follows it. The
    // pointer c may be null, and *root may be a node that is not in the tree.
    method RemoveFixup(c0: Stub?, pc0: Stub?, ghost x: Stub, ghost y: Stub, ghost S: set<Stub>, ghost h0: Place,
          ghost f0: Shape, ghost k0: nat)
      returns (ghost t: Shape)
      requires InRepair(Snapshot(S), h0, f0, k0, root, x, y) && c0 == Ptr(f0) && pc0 == Owner(h0) && y in S
      requires y !in Elements(Fill(h0, f0))
      modifies `root, S
      ensures IsRepaired(Snapshot(S), t, root, x, y)
      ensures InOrder(t) == InOrder(Fill(h0, f0)) && Elements(t) == Elements(Fill(h0, f0))
    {
      hide Snapshot, InRepair, IsRepaired, PutRed, SizeAround, Phase, InOrder, Elements, Fill;
      var c, pc := c0, pc0;
      ghost var h, f, k, done := h0, f0, k0, false;
      RepairReads(Snapshot(S), h, f, k, root, x, y);
      SnapshotAt(S, c);
      while c != root && pc != null && !IsRedNode(c)
        invariant done ==> h.Top? && IsRepaired(Snapshot(S), f, root, x, y) && c == root
        invariant !done ==> InRepair(Snapshot(S), h, f, k, root, x, y) && c == Ptr(f) && pc == Owner(h)
        invariant !done && c != null ==> c in S && c.red == f.red
        invariant InOrder(Fill(h, f)) == InOrder(Fill(h0, f0)) && Elements(Fill(h, f)) == Elements(Fill(h0, f0))
        decreases if done then 0 else 1 + SizeAround(h), Phase(h)
      {
        RepairReads(Snapshot(S), h, f, k, root, x, y);
        SnapshotAt(S, pc);
        if c == pc.left {
          c, pc, h, f, k, done := StepLeft(c, pc, x, y, S, h, f, k);
        } else {
          c, pc, h, f, k, done := StepRight(c, pc, x, y, S, h, f, k);
        }
        if !done {
          RepairReads(Snapshot(S), h, f, k, root, x, y);
          SnapshotAt(S, c);
        }
      }
      if done {
        t := f;
        TopFills(t);
        RootIsBlack(Snapshot(S), t, root, x, y);
      } else {
        t := Fill(h, Painted(f, false));
        if c == root {
          DisjointFill(h, f);
          AtRoot(Snapshot(S), h, f, k, root, x, y);
        }
        RepairEnds(Snapshot(S), h, f, k, root, x, y);
      }
      SetColor(c, false, S);
    }

    // `bst_successor`, for the node in a given place
    method SuccessorAt(x0: Stub, ghost S: set<Stub>, ghost h: Place, ghost t: Shape)
      returns (r: Stub?, ghost g: Place, ghost u: Shape)
      requires IsAt(Snapshot(S), h, t) && t.Node? && t.x == x0
      ensures r == NextIn(InOrder(Fill(h, t)), x0)
      ensures r != null ==> Fill(g, u) == Fill(h, t) && IsAt(Snapshot(S), g, u) && u.Node? && u.x == r && r in S
      ensures r != null ==>
                && Before(g) + InOrder(u.left) == Before(h) + InOrder(t.left) + [x0]
                && x0 !in Before(h) + InOrder(t.left)
      ensures t.right.Node? ==> r != null && u.left.Leaf? && x0 in Spine(g)
    {
      hide Snapshot, IsAt, InOrder, Before, DisjointAt, Fill;
      NodeAt(Snapshot(S), h, t);
      DisjointOf(Snapshot(S), h, t);
      SnapshotAt(S, x0);
      var x := x0;
      if x.right != null {
        g, u := InRight(t.left, t.x, t.red, h), t.right;
        FocusDown(Snapshot(S), h, t);
        NodeAt(Snapshot(S), g, u);
        SameBefore(h, t);
        FillDown(h, t);
        x := x.right;
        SnapshotAt(S, x);
        while x.left != null
          invariant IsAt(Snapshot(S), g, u) && u.Node? && u.x == x && x in S && x.left == Ptr(u.left)
              && Fill(g, u) == Fill(h, t)
          invariant Before(g) == Before(h) + InOrder(t.left) + [x0] && x0 in Spine(g)
          decreases u
        {
          FocusDown(Snapshot(S), g, u);
          SameBefore(g, u);
          FillDown(g, u);
          g, u := InLeft(u.x, u.red, u.right, g), u.left;
          NodeAt(Snapshot(S), g, u);
          x := x.left;
          SnapshotAt(S, x);
        }
        BeforeTop(u);
        NotBefore(h, t);
        NextFound(g, u, Before(h) + InOrder(t.left), x0);
        r := x;
      } else {
        g, u := h, t;
        BeforeTop(t);
        Climb(Snapshot(S), g, u);
        SnapshotAt(S, x.parent);
        while x.parent != null && x != x.parent.left
          invariant !g.Top? ==> IsAt(Snapshot(S), g.up, Refilled(g, u)) && Fill(g.up, Refilled(g, u)) == Fill(h, t)
          invariant IsAt(Snapshot(S), g, u) && u.Node? && u.x == x && x in S && Fill(g, u) == Fill(h, t)
          invariant x.parent == Owner(g) && (x.parent != null ==> x.parent in S && (g.InLeft? <==> x == x.parent.left))
          invariant Before(g) + InOrder(u) == Before(h) + InOrder(t.left) + [x0]
          decreases g
        {
          SameBefore(g, u);
          g, u := g.up, Refilled(g, u);
          NodeAt(Snapshot(S), g, u);
          x := x.parent;
          SnapshotAt(S, x);
          Climb(Snapshot(S), g, u);
          SnapshotAt(S, x.parent);
        }
        r := x.parent;
        if r == null {
          BeforeTop(u);
          NoNext(h, t, u);
        } else {
          Climb(Snapshot(S), g, u);
          SameBefore(g, u);
          g, u := g.up, Refilled(g, u);
          NotBefore(h, t);
          NextFound(g, u, Before(h) + InOrder(t.left), x0);
        }
      }
    }

    // `bst_successor`
    method Successor(x: Stub) returns (r: Stub?)
      requires IsLinked() && x in nodes
      ensures r == NextIn(InOrder(shape), x)
    {
      hide IsAt, Snapshot, InOrder, Fill, IsRbTree, Sorted;
      ghost var h, t := Locate(Top, shape, x);
      TopFills(shape);
      FocusAt(Snapshot(nodes), h, t);
      ghost var g, u;
      r, g, u := SuccessorAt(x, nodes, h, t);
    }

    // The bypass of y in `rbt_remove_node`.
    method Splice(y: Stub, c: Stub?, ghost S: set<Stub>)
      requires y in S && c != y && (c != null ==> c in S) && y.parent != y && (y.parent != null ==> y.parent in S)
      modifies S`parent, S`left, S`right
      ensures Snapshot(S) == Spliced(old(Snapshot(S)), y, c, old(y.parent))
    {
      hide Snapshot;
      var pc := y.parent;
      if c != null {
        c.SetParent(pc, S);
      }
      SnapshotAt(S, pc);
      if pc != null {
        if y == pc.left {
          pc.SetLeft(c, S);
        } else {
          pc.SetRight(c, S);
        }
      }
    }

    // The end of `rbt_remove_node`: y takes over every link of x.
    method Transplant(x: Stub, y: Stub, ghost S: set<Stub>, ghost h: Place, ghost t: Shape)
      requires IsAt(Snapshot(S), h, t) && t.Node? && t.x == x && y in S && y !in Elements(t) && y !in Around(h)
      modifies S
      ensures Snapshot(S) == Transplanted(old(Snapshot(S)), x, y)
    {
      hide Snapshot, Elements, Around, IsAt, IsTree, CopiedLinks;
      TransplantFacts(Snapshot(S), h, t.left, x, t.red, t.right, y);
      SnapshotAt(S, x);
      if x.left != null {
        x.left.SetParent(y, S);
      }
      if x.right != null {
        x.right.SetParent(y, S);
      }
      SnapshotAt(S, x);
      SnapshotAt(S, x.parent);
      if x.parent != null {
        if x.parent.left == x {
          x.parent.SetLeft(y, S);
        } else {
          x.parent.SetRight(y, S);
        }
      }
      CopyLinks(x, y, S);
    }

    method CopyLinks(x: Stub, y: Stub, ghost S: set<Stub>)
      requires x in S && y in S && x != y
      modifies y
      ensures Snapshot(S) == CopiedLinks(old(Snapshot(S)), x, y)
    {
      hide Snapshot;
      SnapshotAt(S, x);
      CopyPointers(x, y, S);
      y.SetRed(x.red, S);
    }

    method CopyPointers(x: Stub, y: Stub, ghost S: set<Stub>)
      requires x in S && y in S && x != y
      modifies y`parent, y`left, y`right
      ensures Snapshot(S) == CopiedPointers(old(Snapshot(S)), x, y)
      ensures y.parent == x.parent && y.left == x.left && y.right == x.right
    {
      hide Snapshot;
      SnapshotAt(S, x);
      y.SetParent(x.parent, S);
      y.SetLeft(x.left, S);
      y.SetRight(x.right, S);
      SnapshotAt(S, y);
    }

    // The part of `rbt_remove_node` between the bypass of y and the label out.
    method Rebalance(c: Stub?, pc: Stub?, pcolor: bool, ghost x: Stub, ghost y: Stub, ghost S: set<Stub>,
          ghost g: Place, ghost u: Shape, ghost tc: Shape)
      returns (ghost t: Shape)
      requires IsAt(Snapshot(S), g, tc) && IsRbTree(Fill(g, u)) && IsOnlyChild(u, tc) && y in S
          && y !in Elements(Fill(g, tc))
      requires c == Ptr(tc) && pc == Owner(g) && pcolor == u.red
      requires root == EarlyRoot(TopOf(g, c), x, y) && (x != y ==> OnPath(g, tc, x))
      modifies `root, S
      ensures IsRepaired(Snapshot(S), t, root, x, y)
      ensures InOrder(t) == InOrder(Fill(g, tc)) && Elements(t) == Elements(Fill(g, tc))
    {
      hide Snapshot, IsAt, IsRbTree, Fill, IsShort, InOrder, Elements, OnPath;
      SpliceRb(g, u, tc);
      FocusTop(Snapshot(S), g, tc);
      if x != y {
        PathFill(g, tc, x);
      }
      if root == null || pcolor {
        t := Fill(g, tc);
        if root == null {
          NothingLeft(g, tc);
        }
        return;
      }
      if tc.Node? {
        NodeAt(Snapshot(S), g, tc);
        SnapshotAt(S, c);
      }
      if c != null && c.red {
        PaintKeeps(Snapshot(S), g, tc, false);
        PaintedInOrder(tc, false);
        SameOrder(g, Painted(tc, false), tc);
        c.SetRed(false, S);
        t := Fill(g, Painted(tc, false));
        FocusTop(Snapshot(S), g, Painted(tc, false));
        return;
      }
      t := RemoveFixup(c, pc, x, y, S, g, tc, BlackHeight(u));
    }

    // The first part of `rbt_remove_node`, down to the two assignments to *root.
    method Bypass(x: Stub, y: Stub, c: Stub?, ghost S: set<Stub>, ghost h: Place, ghost t: Shape, ghost g: Place,
          ghost u: Shape, ghost tc: Shape)
      requires IsAt(Snapshot(S), h, t) && IsAt(Snapshot(S), g, u) && IsChosen(h, t, g, u) && IsOnlyChild(u, tc)
      requires x == t.x && y == u.x && c == Ptr(tc) && root == Ptr(Fill(h, t))
      modifies `root, S
      ensures IsAt(Snapshot(S), g, tc) && root == EarlyRoot(TopOf(g, c), x, y)
      ensures (x != y ==> OnPath(g, tc, x)) && Elements(Fill(g, tc)) == Elements(Fill(h, t)) - {y}
    {
      hide Snapshot, IsAt, Spliced, InOrder, Elements, OnPath, EarlyRoot, Fill, Before;
      ghost var m := Snapshot(S);
      SpliceKeeps(m, g, u, tc);
      RootAfterSplice(m, h, t, g, u, tc);
      PathAfterSplice(m, h, t, g, u, tc);
      NodeAt(m, h, t);
      NodeAt(m, g, u);
      Climb(m, g, u);
      SnapshotAt(S, x);
      SnapshotAt(S, y);
      SpliceElsewhere(m, y, c, y.parent, x);
      SelfParent(m, g, u);
      var pc := y.parent;
      Splice(y, c, S);
      SnapshotAt(S, x);
      if x.parent == null {
        root := y;
      }
      if x == y && pc == null {
        root := c;
      }
    }

    // The last part of `rbt_remove_node`: y is put in the place of x.
    method PutInPlace(x: Stub, y: Stub, ghost S: set<Stub>, ghost t: Shape, ghost a: seq<Stub>, ghost b: seq<Stub>)
      returns (ghost t': Shape)
      requires IsRepaired(Snapshot(S), t, root, x, y) && x != y && y in S && y !in Elements(t)
      requires InOrder(t) == a + [x] + b && x !in a
      modifies S
      ensures IsAt(Snapshot(S), Top, t') && IsRbTree(t') && root == Ptr(t')
      ensures InOrder(t') == a + [y] + b && Elements(t') == Elements(t) - {x} + {y}
    {
      hide Snapshot, IsAt, IsRbTree, Fill, InOrder, Elements, EarlyRoot, Transplanted;
      ghost var m := Snapshot(S);
      ghost var h, u := Locate(Top, t, x);
      TopFills(t);
      FocusAt(m, h, u);
      DisjointFill(h, u);
      DisjointOf(m, h, u);
      FocusTop(m, h, u);
      LateRoot(h, u, root, y);
      TransplantKeeps(m, h, u.left, x, u.red, u.right, y);
      SwapRb(h, u.left, x, u.red, u.right, y);
      SwapOrder(h, u.left, x, u.red, u.right, y, a, b);
      Transplant(x, y, S, h, u);
      t' := Fill(h, Node(u.left, y, u.red, u.right));
      FocusTop(Snapshot(S), h, Node(u.left, y, u.red, u.right));
    }

    // The node that `rbt_remove_node` takes out of its place.
    method Choose(x: Stub, ghost S: set<Stub>, ghost h: Place, ghost t: Shape)
      returns (y: Stub, ghost g: Place, ghost u: Shape)
      requires IsAt(Snapshot(S), h, t) && t.Node? && t.x == x
      ensures IsAt(Snapshot(S), g, u) && IsChosen(h, t, g, u) && u.x == y && y in S
    {
      hide Snapshot, IsAt, Fill, InOrder, Elements, Before;
      NodeAt(Snapshot(S), h, t);
      SnapshotAt(S, x);
      y, g, u := x, h, t;
      if x.left != null && x.right != null {
        y, g, u := SuccessorAt(x, S, h, t);
        NotSelf(Snapshot(S), g, u, x);
      }
    }

    // `rbt_remove_node`
    method RemoveNode(x: Stub)
      requires Valid() && x in nodes
      modifies this, nodes
      ensures Valid() && nodes == old(nodes) - {x}
      ensures InOrder(shape) == Without(old(InOrder(shape)), x)
    {
      hide Snapshot, IsAt, IsRbTree, Fill, InOrder, Elements, Sorted, Without, OnPath, EarlyRoot, Before, After,
        Disjoint, IsChosen, IsRepaired;
      ghost var S, T := nodes, shape;
      ghost var h, t0 := Locate(Top, T, x);
      TopFills(T);
      FocusAt(Snapshot(S), h, t0);
      ghost var g, u;
      var y;
      y, g, u := Choose(x, S, h, t0);
      ChosenFacts(Snapshot(S), h, t0, g, u);
      NodeAt(Snapshot(S), g, u);
      SnapshotAt(S, y);
      var c := if y.left != null then y.left else y.right;
      var pc, pcolor := y.parent, y.red;
      ghost var tc := if u.left.Node? then u.left else u.right;
      ChosenOrder(h, t0, g, u, tc);
      Bypass(x, y, c, S, h, t0, g, u, tc);
      ghost var t := Rebalance(c, pc, pcolor, x, y, S, g, u, tc);
      if x != y {
        t := PutInPlace(x, y, S, t, Before(h) + InOrder(t0.left), InOrder(tc) + After(g));
      } else {
        RepairedAll(Snapshot(S), t, root, x);
      }
      SetSwap(S, x, y);
      InOrderElements(T, x);
      WithoutIsSorted(InOrder(T), x);
      Conclude(x, S, t);
    }

    ghost method Conclude(x: Stub, S: set<Stub>, t: Shape)
      requires IsAt(Snapshot(S), Top, t) && root == Ptr(t) && IsRbTree(t) && Sorted(InOrder(t))
          && Elements(t) == S - {x}
      modifies `shape, `nodes
      ensures Valid() && shape == t && nodes == S - {x}
    {
      hide Snapshot, IsAt, IsRbTree, InOrder, Elements, Sorted;
      shape, nodes := t, S - {x};
      BecomesValid(S);
    }

    // `rbt_remove`
    method Remove(key: int) returns (x: Stub?)
      requires Valid()
      modifies this, nodes
      ensures Valid() && (x == null <==> forall n :: n in old(nodes) ==> n.key != key)
      ensures x == null ==> nodes == old(nodes) && shape == old(shape)
      ensures x != null ==> x in old(nodes) && x.key == key && nodes == old(nodes) - {x}
      ensures x != null ==> InOrder(shape) == Without(old(InOrder(shape)), x)
    {
      x := Search(key);
      if x != null {
        RemoveNode(x);
      }
    }

    // `rbt_replace_node`: y takes over every link and the colour of x.
    method ReplaceNode(x: Stub, y: Stub)
      requires Valid() && x in nodes && y !in nodes && y.key == x.key
      modifies this, nodes, y
      ensures Valid() && nodes == old(nodes) - {x} + {y}
      ensures InOrder(shape) == Instead(old(InOrder(shape)), x, y)
    {
      hide Snapshot, IsAt, IsRbTree, Fill, InOrder, Elements, Before, After, Sorted, Transplanted, DisjointAt,
        AreApartFrom;
      ghost var S, T := nodes + {y}, shape;
      Resnap(nodes, S, Top, T);
      ghost var m := Snapshot(S);
      ghost var h, u := Locate(Top, T, x);
      TopFills(T);
      FocusAt(m, h, u);
      DisjointFill(h, u);
      DisjointOf(m, h, u);
      NodeAt(m, h, u);
      FocusTop(m, h, u);
      RootMoves(h, u, y);
      ReplaceInOrder(h, u.left, x, u.red, u.right, y);
      NewIsApart(m, h, u, y);
      TransplantKeeps(m, h, u.left, x, u.red, u.right, y);
      SwapRb(h, u.left, x, u.red, u.right, y);
      InsteadIsSorted(InOrder(T), x, y);
      SnapshotAt(S, x);
      BstReplaceNode(x, y, S);
      shape := Fill(h, Node(u.left, y, u.red, u.right));
      nodes := nodes - {x} + {y};
      FocusTop(Snapshot(S), h, Node(u.left, y, u.red, u.right));
      BecomesValid(S);
    }

    // `bst_replace_node`, and the colour
    method BstReplaceNode(x: Stub, y: Stub, ghost S: set<Stub>)
      requires AreApartFrom(Snapshot(S), x, y) && {x.parent, x.left, x.right} <= S + {null}
      modifies `root, S
      ensures Snapshot(S) == Transplanted(old(Snapshot(S)), x, y)
      ensures root == if old(root) == x then y else old(root)
    {
      hide Snapshot, Transplanted, PutRed, PutParent, PutChild, CopiedPointers;
      ghost var m := Snapshot(S);
      ReplacedIsTransplanted(m, x, y);
      SnapshotAt(S, x);
      CopyPointers(x, y, S);
      RelinkBelow(x.parent, x, y, S);
      PutParentOf(x.left, y, S);
      PutParentOf(x.right, y, S);
      y.SetRed(x.red, S);
      if root == x {
        root := y;
      }
    }

    // The parent link of a node that is perhaps not there.
    method PutParentOf(z: Stub?, p: Stub, ghost S: set<Stub>)
      requires z != null ==> z in S
      modifies (set q | q in S && q == z)`parent
      ensures Snapshot(S) == PutParent(old(Snapshot(S)), z, p)
    {
      if z != null {
        z.SetParent(p, S);
      }
    }

    // A parent's link to x becomes a link to y.
    method RelinkBelow(p: Stub?, x: Stub, y: Stub, ghost S: set<Stub>)
      requires p != null ==> p in S
      modifies (set q | q in S && q == p)`left, (set q | q in S && q == p)`right
      ensures Snapshot(S) == PutChild(old(Snapshot(S)), p, x, y)
    {
      hide Snapshot;
      if p != null {
        SnapshotAt(S, p);
        if p.left == x {
          p.SetLeft(y, S);
        } else {
          p.SetRight(y, S);
        }
      }
    }

    // The walk to the next node in preorder, as in `bst_travel`.
    method NextInPreorder(x: Stub, ghost S: set<Stub>, ghost g0: Place, ghost u0: Shape)
      returns (r: Stub?, ghost g: Place, ghost u: Shape)
      requires IsAt(Snapshot(S), g0, u0) && u0.Node? && u0.x == x
      ensures r == null ==> PreOrder(Fill(g0, u0)) == PreBefore(g0) + [x]
      ensures r != null ==> IsAt(Snapshot(S), g, u) && u.Node? && u.x == r && Fill(g, u) == Fill(g0, u0) && r in S
      ensures r != null ==> PreBefore(g) == PreBefore(g0) + [x]
    {
      hide Snapshot, IsAt, PreOrder, PreBefore, Fill;
      g, u := g0, u0;
      NodeAt(Snapshot(S), g, u);
      SnapshotAt(S, x);
      FocusDown(Snapshot(S), g, u);
      FillDown(g, u);
      PreDown(g, u);
      if x.left != null {
        g, u := InLeft(u.x, u.red, u.right, g), u.left;
        NodeAt(Snapshot(S), g, u);
        return x.left, g, u;
      }
      if x.right != null {
        g, u := InRight(u.left, u.x, u.red, g), u.right;
        NodeAt(Snapshot(S), g, u);
        return x.right, g, u;
      }
      var tmp := x;
      r := x.parent;
      ClimbReads(S, g, u);
      while r != null && (r.right == tmp || r.right == null)
        invariant IsAt(Snapshot(S), g, u) && u.Node? && u.x == tmp && r == Owner(g) && Fill(g, u) == Fill(g0, u0)
        invariant r != null ==> r in S && r.right == if g.InLeft? then Ptr(g.right) else tmp
        invariant g.InLeft? ==> Ptr(g.right) != tmp
        invariant PreBefore(g) + PreOrder(u) == PreBefore(g0) + [x]
        decreases g
      {
        Climb(Snapshot(S), g, u);
        PreUp(g, u);
        g, u := g.up, Refilled(g, u);
        NodeAt(Snapshot(S), g, u);
        SnapshotAt(S, r);
        ClimbReads(S, g, u);
        tmp := r;
        r := r.parent;
      }
      if r == null {
        PreTop(u);
      } else {
        Climb(Snapshot(S), g, u);
        PreUp(g, u);
        ghost var h, t := g.up, Refilled(g, u);
        FocusDown(Snapshot(S), h, t);
        FillDown(h, t);
        g, u := InRight(t.left, t.x, t.red, h), t.right;
        NodeAt(Snapshot(S), g, u);
        r := r.right;
      }
    }

    // What a node knows about its parent and its sibling.
    lemma {:induction false} ClimbReads(S: set<Stub>, g: Place, u: Shape)
      requires IsAt(Snapshot(S), g, u) && u.Node?
      ensures !g.Top? ==> g.x in S && g.x.right == if g.InLeft? then Ptr(g.right) else u.x
      ensures g.InLeft? ==> Ptr(g.right) != u.x
    {
      hide Snapshot;
      if !g.Top? {
        OwnerAt(Snapshot(S), g, u);
        SnapshotAt(S, g.x);
        if g.InLeft? {
          RootInside(g.right);
          RootInside(u);
        }
      }
    }

    // `bst_travel`, with the calls of the traveller recorded
    method Travel() returns (visited: seq<Stub>)
      requires IsLinked()
      ensures visited == PreOrder(shape)
    {
      hide IsAt, Snapshot, InOrder, PreOrder, PreBefore, Fill, IsRbTree, Sorted;
      visited := [];
      var r := root;
      ghost var g: Place, u: Shape := Top, shape;
      PreTop(shape);
      while r != null
        invariant r != null ==> IsAt(Snapshot(nodes), g, u) && u.Node? && u.x == r && Fill(g, u) == shape
        invariant r != null ==> visited == PreBefore(g)
        invariant r == null ==> visited == PreOrder(shape)
        decreases |PreOrder(shape)| - |visited|, r != null
      {
        PreFill(g, u);
        visited := visited + [r];
        r, g, u := NextInPreorder(r, nodes, g, u);
      }
    }

    // The longest way down is at most twice the binary logarithm of the number of
    // nodes plus one.
    lemma {:induction false} WaysAreShort()
      requires Valid()
      ensures Pow2(Height(shape)) <= (|nodes| + 1) * (|nodes| + 1)
    {
      hide Pow2, Height, IsAt;
      PreOrderIsComplete(shape);
      PreOrderSize(Snapshot(nodes), shape);
      SizeIsLength(shape);
      assert |multiset(PreOrder(shape))| == |PreOrder(shape)| && |multiset(InOrder(shape))| == |InOrder(shape)|;
      HeightIsLogarithmic(shape);
    }

    // `bst_get_node_count_for_rt_tree`: it stops counting at two.
    method CountUpToTwo() returns (count: nat)
      requires IsLinked()
      ensures count == if |nodes| < 2 then |nodes| else 2
    {
      hide IsAt, Snapshot, InOrder, PreOrder, PreBefore, Fill, IsRbTree, Sorted;
      count := 0;
      var r := root;
      ghost var g: Place, u: Shape := Top, shape;
      PreTop(shape);
      PreOrderSize(Snapshot(nodes), shape);
      while r != null && count < 2
        invariant r != null ==> IsAt(Snapshot(nodes), g, u) && u.Node? && u.x == r && Fill(g, u) == shape
        invariant r != null ==> count == |PreBefore(g)|
        invariant r == null ==> count == |PreOrder(shape)|
        decreases 2 - count
      {
        PreFill(g, u);
        count := count + 1;
        r, g, u := NextInPreorder(r, nodes, g, u);
      }
      if r != null {
        PreFill(g, u);
      }
    }
  }
}
