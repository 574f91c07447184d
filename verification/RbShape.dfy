// Coloured binary trees as values, and trees with a hole. The heap structure
// of the red-black tree is described by these, and what its operations do to
// order and balance is proved on them.
module RbShape {

  // A node of the tree, identified with the object that implements it.
  datatype Tree<X> = Leaf | Node(left: Tree<X>, x: X, red: bool, right: Tree<X>)

  // The rest of a tree around a subtree, from the subtree upwards.
  datatype Hole<X> =
    | Top
    | InLeft(x: X, red: bool, right: Tree<X>, up: Hole<X>)
    | InRight(left: Tree<X>, x: X, red: bool, up: Hole<X>)

  ghost function Fill<X>(h: Hole<X>, t: Tree<X>): Tree<X> {
    match h
    case Top => t
    case InLeft(x, red, r, up) => Fill(up, Node(t, x, red, r))
    case InRight(l, x, red, up) => Fill(up, Node(l, x, red, t))
  }

  lemma {:induction false} TopFills<X>(t: Tree<X>)
    ensures Fill(Top, t) == t
  {}

  ghost function InOrder<X>(t: Tree<X>): seq<X> {
    match t
    case Leaf => []
    case Node(l, x, _, r) => InOrder(l) + [x] + InOrder(r)
  }

  // What comes before the hole in order, and what comes after it.
  ghost function Before<X>(h: Hole<X>): seq<X> {
    match h
    case Top => []
    case InLeft(x, _, r, up) => Before(up)
    case InRight(l, x, _, up) => Before(up) + InOrder(l) + [x]
  }

  ghost function After<X>(h: Hole<X>): seq<X> {
    match h
    case Top => []
    case InLeft(x, _, r, up) => [x] + InOrder(r) + After(up)
    case InRight(l, x, _, up) => After(up)
  }

  lemma {:induction false} Regroup<X>(a: seq<X>, b: seq<X>, c: seq<X>, d: seq<X>, e: seq<X>)
    ensures a + (b + c + d) + e == (a + b) + c + (d + e)
    ensures a + (b + c + d) + e == (a + b + c) + d + e
    ensures a + (b + c + d) + e == a + b + (c + d + e)
  {}

  lemma {:induction false} InOrderFill<X>(h: Hole<X>, t: Tree<X>)
    ensures InOrder(Fill(h, t)) == Before(h) + InOrder(t) + After(h)
    decreases h
  {
    match h
    case Top =>
    case InLeft(x, red, r, up) =>
      InOrderFill(up, Node(t, x, red, r));
      Regroup(Before(up), InOrder(t), [x], InOrder(r), After(up));
    case InRight(l, x, red, up) =>
      InOrderFill(up, Node(l, x, red, t));
      Regroup(Before(up), InOrder(l), [x], InOrder(t), After(up));
  }

  ghost function Elements<X>(t: Tree<X>): set<X> {
    match t
    case Leaf => {}
    case Node(l, x, _, r) => Elements(l) + {x} + Elements(r)
  }

  ghost function Around<X>(h: Hole<X>): set<X> {
    match h
    case Top => {}
    case InLeft(x, _, r, up) => {x} + Elements(r) + Around(up)
    case InRight(l, x, _, up) => Elements(l) + {x} + Around(up)
  }

  // No node occurs twice.
  ghost predicate Disjoint<X>(t: Tree<X>) {
    match t
    case Leaf => true
    case Node(l, x, _, r) =>
      && Disjoint(l) && Disjoint(r)
      && x !in Elements(l) && x !in Elements(r) && Elements(l) !! Elements(r)
  }

  ghost predicate DisjointHole<X>(h: Hole<X>) {
    match h
    case Top => true
    case InLeft(x, _, r, up) =>
      && Disjoint(r) && DisjointHole(up)
      && x !in Elements(r) && x !in Around(up) && Elements(r) !! Around(up)
    case InRight(l, x, _, up) =>
      && Disjoint(l) && DisjointHole(up)
      && x !in Elements(l) && x !in Around(up) && Elements(l) !! Around(up)
  }

  ghost predicate DisjointAt<X>(h: Hole<X>, t: Tree<X>) {
    DisjointHole(h) && Disjoint(t) && Elements(t) !! Around(h)
  }

  lemma {:induction false} DisjointFill<X>(h: Hole<X>, t: Tree<X>)
    ensures Disjoint(Fill(h, t)) <==> DisjointAt(h, t)
    ensures Elements(Fill(h, t)) == Elements(t) + Around(h)
    decreases h
  {
    match h
    case Top =>
    case InLeft(x, red, r, up) => DisjointFill(up, Node(t, x, red, r));
    case InRight(l, x, red, up) => DisjointFill(up, Node(l, x, red, t));
  }

  ghost function Size<X>(t: Tree<X>): nat {
    match t
    case Leaf => 0
    case Node(l, _, _, r) => Size(l) + 1 + Size(r)
  }

  // What a walk counts that gives up at the second node.
  function AtMostTwo(n: nat): nat {
    if n < 2 then n else 2
  }

  ghost function SizeAround<X>(h: Hole<X>): nat {
    match h
    case Top => 0
    case InLeft(_, _, r, up) => 1 + Size(r) + SizeAround(up)
    case InRight(l, _, _, up) => 1 + Size(l) + SizeAround(up)
  }

  // ------------------------------------------------------------ red and black

  predicate IsRed<X>(t: Tree<X>) {
    t.Node? && t.red
  }

  ghost predicate NoRedRed<X>(t: Tree<X>) {
    match t
    case Leaf => true
    case Node(l, _, red, r) => NoRedRed(l) && NoRedRed(r) && (red ==> !IsRed(l) && !IsRed(r))
  }

  // The number of black nodes on the way to a leaf, going left.
  ghost function BlackHeight<X>(t: Tree<X>): nat {
    match t
    case Leaf => 0
    case Node(l, _, red, _) => BlackHeight(l) + if red then 0 else 1
  }

  ghost predicate IsBalanced<X>(t: Tree<X>) {
    match t
    case Leaf => true
    case Node(l, _, _, r) => IsBalanced(l) && IsBalanced(r) && BlackHeight(l) == BlackHeight(r)
  }

  // A subtree that may have a red root.
  ghost predicate IsRb<X>(t: Tree<X>, height: int) {
    NoRedRed(t) && IsBalanced(t) && BlackHeight(t) == height
  }

  ghost predicate IsRbTree<X>(t: Tree<X>) {
    NoRedRed(t) && IsBalanced(t) && !IsRed(t)
  }

  predicate IsRedHole<X>(h: Hole<X>) {
    !h.Top? && h.red
  }

  // The surroundings of a subtree of the given black height; a red node is
  // never the topmost one.
  ghost predicate IsRbHole<X>(h: Hole<X>, height: nat) {
    match h
    case Top => true
    case InLeft(_, red, r, up) =>
      && IsRb(r, height) && (red ==> !IsRed(r) && !IsRedHole(up) && !up.Top?)
      && IsRbHole(up, height + if red then 0 else 1)
    case InRight(l, _, red, up) =>
      && IsRb(l, height) && (red ==> !IsRed(l) && !IsRedHole(up) && !up.Top?)
      && IsRbHole(up, height + if red then 0 else 1)
  }

  // A subtree of the right height completes its surroundings, when it does not
  // put red below red and does not make the root red.
  lemma {:induction false} RbFill<X>(h: Hole<X>, t: Tree<X>, height: nat)
    requires IsRbHole(h, height) && IsRb(t, height) && !(IsRed(t) && (h.Top? || IsRedHole(h)))
    ensures IsRbTree(Fill(h, t))
    decreases h
  {
    match h
    case Top =>
    case InLeft(x, red, r, up) => RbFill(up, Node(t, x, red, r), height + if red then 0 else 1);
    case InRight(l, x, red, up) => RbFill(up, Node(l, x, red, t), height + if red then 0 else 1);
  }

  // Conversely, every place in a red-black tree looks like that.
  lemma {:induction false} RbUnfill<X>(h: Hole<X>, t: Tree<X>)
    requires IsRbTree(Fill(h, t))
    ensures IsRbHole(h, BlackHeight(t)) && IsRb(t, BlackHeight(t)) && !(IsRed(t) && (h.Top? || IsRedHole(h)))
    decreases h
  {
    match h
    case Top =>
    case InLeft(x, red, r, up) => RbUnfill(up, Node(t, x, red, r));
    case InRight(l, x, red, up) => RbUnfill(up, Node(l, x, red, t));
  }

  // ------------------------------------------------------------------ height

  ghost function Height<X>(t: Tree<X>): nat {
    match t
    case Leaf => 0
    case Node(l, _, _, r) => 1 + if Height(l) < Height(r) then Height(r) else Height(l)
  }

  function Pow2(n: nat): nat {
    if n == 0 then 1 else 2 * Pow2(n - 1)
  }

  lemma {:induction false} Pow2Monotone(m: nat, n: nat)
    requires m <= n
    ensures 0 < Pow2(m) <= Pow2(n)
  {
    if m > 0 {
      Pow2Monotone(m - 1, n - 1);
    } else if n > 0 {
      Pow2Monotone(m, n - 1);
    }
  }

  lemma {:induction false} HeightByBlack<X>(t: Tree<X>)
    requires NoRedRed(t) && IsBalanced(t)
    ensures Height(t) <= 2 * BlackHeight(t) + if IsRed(t) then 1 else 0
  {
    if t.Node? {
      HeightByBlack(t.left);
      HeightByBlack(t.right);
    }
  }

  lemma {:induction false} SizeByBlack<X>(t: Tree<X>)
    requires IsBalanced(t)
    ensures Pow2(BlackHeight(t)) <= Size(t) + 1
  {
    if t.Node? {
      SizeByBlack(t.left);
      SizeByBlack(t.right);
    }
  }

  // The height is at most twice the binary logarithm of the size plus one.
  lemma {:induction false} HeightIsLogarithmic<X>(t: Tree<X>)
    requires IsRbTree(t)
    ensures Pow2(Height(t)) <= (Size(t) + 1) * (Size(t) + 1)
  {
    var b := BlackHeight(t);
    HeightByBlack(t);
    SizeByBlack(t);
    Pow2Monotone(Height(t), 2 * b);
    Pow2Double(b);
    MulMonotone(Pow2(b), Size(t) + 1);
  }

  lemma {:induction false} Pow2Double(b: nat)
    ensures Pow2(2 * b) == Pow2(b) * Pow2(b)
  {
    if b > 0 {
      Pow2Double(b - 1);
      assert Pow2(2 * b) == 4 * Pow2(2 * (b - 1));
    }
  }

  lemma {:induction false} MulMonotone(a: nat, b: nat)
    requires a <= b
    ensures a * a <= b * b
  {
    assert a * a <= a * b <= b * b;
  }
}
