// The order of the keys in a tree: what a search relies on, and what an
// insertion and a removal make of the sequence of nodes.
module RbOrder {
  import opened RbShape
  import opened RbLinks

  predicate Sorted(s: seq<Stub>) {
    forall i, j :: 0 <= i < j < |s| ==> s[i].key <= s[j].key
  }

  predicate AtMost(s: seq<Stub>, k: int) {
    forall i :: 0 <= i < |s| ==> s[i].key <= k
  }

  predicate Above(s: seq<Stub>, k: int) {
    forall i :: 0 <= i < |s| ==> k < s[i].key
  }

  // The sequence with x put before the first node that has a greater key.
  function Inserted(s: seq<Stub>, x: Stub): seq<Stub> {
    if s == [] || x.key < s[0].key then [x] + s else [s[0]] + Inserted(s[1..], x)
  }

  lemma {:induction false} InsertedBetween(a: seq<Stub>, x: Stub, b: seq<Stub>)
    requires AtMost(a, x.key) && Above(b, x.key)
    ensures Inserted(a + b, x) == a + [x] + b
  {
    if a == [] {
      assert a + b == b;
    } else {
      assert (a + b)[1..] == a[1..] + b;
      InsertedBetween(a[1..], x, b);
    }
  }

  lemma {:induction false} SortedFrom(x: Stub, s: seq<Stub>)
    requires Sorted(s) && (s != [] ==> x.key <= s[0].key)
    ensures Sorted([x] + s)
  {
    var r := [x] + s;
    forall i, j | 0 <= i < j < |r| ensures r[i].key <= r[j].key {
      if i > 0 {
        assert s[i - 1].key <= s[j - 1].key;
      } else if j > 1 {
        assert s[0].key <= s[j - 1].key;
      }
    }
  }

  lemma {:induction false} SortedTail(s: seq<Stub>)
    requires Sorted(s) && s != []
    ensures Sorted(s[1..]) && (|s| > 1 ==> s[0].key <= s[1].key)
  {}

  // An insertion keeps the order and adds exactly one node.
  lemma {:induction false} InsertedIsSorted(s: seq<Stub>, x: Stub)
    requires Sorted(s)
    ensures Sorted(Inserted(s, x)) && multiset(Inserted(s, x)) == multiset(s) + multiset{x}
  {
    hide Sorted;
    if s == [] || x.key < s[0].key {
      SortedFrom(x, s);
    } else {
      assert s == [s[0]] + s[1..];
      SortedTail(s);
      InsertedIsSorted(s[1..], x);
      SortedFrom(s[0], Inserted(s[1..], x));
    }
  }

  lemma {:induction false} NoOrder()
    ensures InOrder<Stub>(Leaf) == [] && Elements<Stub>(Leaf) == {}
  {}

  lemma {:induction false} OneNode(x: Stub, c: bool)
    ensures InOrder(Node(Leaf, x, c, Leaf)) == [x] && Elements(Node(Leaf, x, c, Leaf)) == {x}
  {}

  // What an insertion does to a tree, by order.
  lemma {:induction false} InsertsInOrder(h: Place, x: Stub, c: bool)
    requires Splits(h, x.key) && Sorted(InOrder(Fill(h, Leaf)))
    ensures InOrder(Fill(h, Node(Leaf, x, c, Leaf))) == Inserted(InOrder(Fill(h, Leaf)), x)
    ensures Elements(Fill(h, Node(Leaf, x, c, Leaf))) == Elements(Fill(h, Leaf)) + {x}
    ensures Sorted(Inserted(InOrder(Fill(h, Leaf)), x))
  {
    hide Fill, Sorted, InOrder, Elements, Before, After, Inserted;
    InOrderFill(h, Leaf);
    InOrderFill(h, Node(Leaf, x, c, Leaf));
    NoOrder();
    OneNode(x, c);
    DisjointFill(h, Leaf);
    DisjointFill(h, Node(Leaf, x, c, Leaf));
    InsertedBetween(Before(h), x, After(h));
    InsertedIsSorted(InOrder(Fill(h, Leaf)), x);
    assert Before(h) + [] == Before(h);
  }

  // The sequence without the first occurrence of x.
  function Without(s: seq<Stub>, x: Stub): seq<Stub> {
    if s == [] then [] else if s[0] == x then s[1..] else [s[0]] + Without(s[1..], x)
  }

  lemma {:induction false} WithoutBetween(a: seq<Stub>, x: Stub, b: seq<Stub>)
    requires x !in a
    ensures Without(a + [x] + b, x) == a + b
  {
    if a == [] {
      assert a + [x] + b == [x] + b;
      assert a + b == b;
    } else {
      assert (a + [x] + b)[1..] == a[1..] + [x] + b;
      WithoutBetween(a[1..], x, b);
      assert a + b == [a[0]] + (a[1..] + b);
    }
  }

  // A removal keeps the order and takes away exactly one node.
  lemma {:induction false} WithoutIsSorted(s: seq<Stub>, x: Stub)
    requires Sorted(s) && x in s
    ensures Sorted(Without(s, x)) && multiset(Without(s, x)) == multiset(s) - multiset{x}
    ensures |s| > 0 && (|Without(s, x)| > 0 ==> s[0].key <= Without(s, x)[0].key)
  {
    hide Sorted;
    assert s == [s[0]] + s[1..];
    SortedTail(s);
    if s[0] != x {
      WithoutIsSorted(s[1..], x);
      SortedFrom(s[0], Without(s[1..], x));
    }
  }

  // The sequence with y in the position of x.
  function Instead(s: seq<Stub>, x: Stub, y: Stub): seq<Stub> {
    if s == [] then [] else if s[0] == x then [y] + s[1..] else [s[0]] + Instead(s[1..], x, y)
  }

  lemma {:induction false} InsteadBetween(a: seq<Stub>, x: Stub, b: seq<Stub>, y: Stub)
    requires x !in a
    ensures Instead(a + [x] + b, x, y) == a + [y] + b
  {
    if a == [] {
      assert a + [x] + b == [x] + b;
      assert a + [y] + b == [y] + b;
    } else {
      assert (a + [x] + b)[1..] == a[1..] + [x] + b;
      InsteadBetween(a[1..], x, b, y);
      assert a + [y] + b == [a[0]] + (a[1..] + [y] + b);
    }
  }

  // A node with the same key keeps the order.
  lemma {:induction false} InsteadIsSorted(s: seq<Stub>, x: Stub, y: Stub)
    requires Sorted(s) && x.key == y.key
    ensures Sorted(Instead(s, x, y)) && |Instead(s, x, y)| == |s|
    ensures |s| > 0 ==> Instead(s, x, y)[0].key == s[0].key
  {
    hide Sorted;
    if s != [] {
      assert s == [s[0]] + s[1..];
      SortedTail(s);
      if s[0] != x {
        InsteadIsSorted(s[1..], x, y);
        SortedFrom(s[0], Instead(s[1..], x, y));
      } else {
        SortedFrom(y, s[1..]);
      }
    }
  }

  // The place is where a node with this key belongs, after its equals.
  ghost predicate Splits(h: Place, k: int) {
    AtMost(Before(h), k) && Above(After(h), k)
  }

  lemma {:induction false} NothingSplits(k: int)
    ensures Splits(Top, k)
  {}

  // A search may forget one side of a node.
  lemma {:induction false} Narrow(h: Place, t: Shape, k: int)
    requires t.Node? && Sorted(InOrder(Fill(h, t)))
    requires Splits(h, k)
    ensures k < t.x.key ==> Splits(InLeft(t.x, t.red, t.right, h), k)
    ensures t.x.key <= k ==> Splits(InRight(t.left, t.x, t.red, h), k)
  {
    hide InOrder, Fill;
    InOrderFill(h, t);
    Around3(Before(h), t, After(h), k);
  }

  lemma {:induction false} Around3(a: seq<Stub>, t: Shape, b: seq<Stub>, k: int)
    requires t.Node? && Sorted(a + InOrder(t) + b)
    ensures k < t.x.key && Above(b, k) ==> Above([t.x] + InOrder(t.right) + b, k)
    ensures t.x.key <= k && AtMost(a, k) ==> AtMost(a + InOrder(t.left) + [t.x], k)
    ensures t.x.key < k && Below(a, k) ==> Below(a + InOrder(t.left) + [t.x], k)
  {
    var l, r := InOrder(t.left), InOrder(t.right);
    var s := a + InOrder(t) + b;
    assert s == a + l + [t.x] + r + b;
    var n := |a| + |l|;
    assert s[n] == t.x;
    forall i | 0 <= i < |l| ensures l[i].key <= t.x.key {
      assert s[|a| + i] == l[i];
    }
    forall i | 0 <= i < |r| ensures t.x.key <= r[i].key {
      assert s[n + 1 + i] == r[i];
    }
  }

  predicate Below(s: seq<Stub>, k: int) {
    forall i :: 0 <= i < |s| ==> s[i].key < k
  }

  // The place is where the node with this key is, if there is one.
  ghost predicate Brackets(h: Place, k: int) {
    Below(Before(h), k) && Above(After(h), k)
  }

  lemma {:induction false} NothingBrackets(k: int)
    ensures Brackets(Top, k)
  {}

  lemma {:induction false} NarrowStrictly(h: Place, t: Shape, k: int)
    requires t.Node? && Sorted(InOrder(Fill(h, t))) && Brackets(h, k)
    ensures k < t.x.key ==> Brackets(InLeft(t.x, t.red, t.right, h), k)
    ensures t.x.key < k ==> Brackets(InRight(t.left, t.x, t.red, h), k)
  {
    hide InOrder, Fill;
    InOrderFill(h, t);
    Around3(Before(h), t, After(h), k);
  }

  lemma {:induction false} InOrderElements(t: Shape, x: Stub)
    ensures x in InOrder(t) <==> x in Elements(t)
  {
    if t.Node? {
      InOrderElements(t.left, x);
      InOrderElements(t.right, x);
    }
  }

  // An empty place that brackets a key proves its absence.
  lemma {:induction false} KeyIsAbsent(h: Place, t: Shape, k: int)
    requires Fill(h, Leaf) == t && Brackets(h, k)
    ensures forall x :: x in Elements(t) ==> x.key != k
    ensures Splits(h, k)
  {
    hide InOrder, Elements;
    InOrderFill(h, Leaf);
    NoOrder();
    forall x | x in Elements(t) ensures x.key != k {
      InOrderElements(t, x);
      assert x in Before(h) || x in After(h);
    }
  }

  lemma {:induction false} BeforeAround(h: Place, x: Stub)
    ensures x in Before(h) || x in After(h) <==> x in Around(h)
  {
    if !h.Top? {
      BeforeAround(h.up, x);
      if h.InLeft? {
        InOrderElements(h.right, x);
      } else {
        InOrderElements(h.left, x);
      }
    }
  }

  // The node after x.
  function NextIn(s: seq<Stub>, x: Stub): Stub? {
    if s == [] then null else if s[0] == x then (if |s| > 1 then s[1] else null) else NextIn(s[1..], x)
  }

  lemma {:induction false} NextBetween(a: seq<Stub>, x: Stub, b: seq<Stub>)
    requires x !in a
    ensures NextIn(a + [x] + b, x) == if b == [] then null else b[0]
  {
    if a == [] {
      assert a + [x] + b == [x] + b;
    } else {
      assert (a + [x] + b)[1..] == a[1..] + [x] + b;
      NextBetween(a[1..], x, b);
    }
  }

  // The walk down to the leftmost node, and the walk up from a right child,
  // do not change what lies before.
  lemma {:induction false} SameBefore(g: Place, u: Shape)
    ensures u.Node? ==> Before(InLeft(u.x, u.red, u.right, g)) == Before(g)
    ensures u.Node? ==> Before(InRight(u.left, u.x, u.red, g)) == Before(g) + InOrder(u.left) + [u.x]
    ensures g.InRight? ==> Before(g.up) + InOrder(Refilled(g, u)) == Before(g) + InOrder(u)
    ensures g.InLeft? ==> Before(g.up) + InOrder(Refilled(g, u).left) == Before(g) + InOrder(u)
  {
    if g.InRight? {
      assert InOrder(Refilled(g, u)) == InOrder(g.left) + [g.x] + InOrder(u);
      assert Before(g) == Before(g.up) + InOrder(g.left) + [g.x];
    }
  }

  lemma {:induction false} NotBefore(h: Place, t: Shape)
    requires t.Node? && DisjointAt(h, t)
    ensures t.x !in Before(h) + InOrder(t.left)
  {
    hide Fill, Disjoint, DisjointHole, Before, After;
    DisjointNode(h, t.left, t.x, t.red, t.right);
    InOrderElements(t.left, t.x);
    BeforeAround(h, t.x);
  }

  // What the walks of a successor search have found: what comes before u ends
  // with x.
  lemma {:induction false} NextFound(g: Place, u: Shape, a: seq<Stub>, x: Stub)
    requires u.Node? && Before(g) + InOrder(u.left) == a + [x] && x !in a
    ensures NextIn(InOrder(Fill(g, u)), x) == u.x
  {
    hide Fill, Before, After;
    InOrderFill(g, u);
    var b := [u.x] + InOrder(u.right) + After(g);
    assert Before(g) + InOrder(u) + After(g) == Before(g) + InOrder(u.left) + b;
    NextBetween(a, x, b);
  }

  lemma {:induction false} NoNext(h: Place, t: Shape, u: Shape)
    requires t.Node? && DisjointAt(h, t) && u == Fill(h, t)
    requires InOrder(u) == Before(h) + InOrder(t.left) + [t.x]
    ensures NextIn(InOrder(Fill(h, t)), t.x) == null
  {
    hide Fill, Disjoint, DisjointHole, Before, After;
    DisjointNode(h, t.left, t.x, t.red, t.right);
    InOrderElements(t.left, t.x);
    BeforeAround(h, t.x);
    var a := Before(h) + InOrder(t.left);
    NextBetween(a, t.x, []);
    assert a + [t.x] + [] == a + [t.x];
  }

  lemma {:induction false} BeforeTop(t: Shape)
    ensures Before<Stub>(Top) + InOrder(t) == InOrder(t) && Fill(Top, t) == t
    ensures t.Node? && t.left.Leaf? ==> InOrder(t.left) == []
    ensures t.Node? && t.right.Leaf? ==> InOrder(t) == InOrder(t.left) + [t.x]
  {}

  // ------------------------------------------------------------------ preorder

  ghost function PreOrder(t: Shape): seq<Stub> {
    if t.Leaf? then [] else [t.x] + PreOrder(t.left) + PreOrder(t.right)
  }

  // What a walk in preorder has seen when it comes to a place, and what it sees
  // after it.
  ghost function PreBefore(h: Place): seq<Stub> {
    match h
    case Top => []
    case InLeft(x, _, _, up) => PreBefore(up) + [x]
    case InRight(l, x, _, up) => PreBefore(up) + [x] + PreOrder(l)
  }

  ghost function PreAfter(h: Place): seq<Stub> {
    match h
    case Top => []
    case InLeft(_, _, r, up) => PreOrder(r) + PreAfter(up)
    case InRight(_, _, _, up) => PreAfter(up)
  }

  lemma {:induction false} PreOrderFill(h: Place, t: Shape)
    ensures PreOrder(Fill(h, t)) == PreBefore(h) + PreOrder(t) + PreAfter(h)
    decreases h
  {
    match h
    case Top =>
    case InLeft(x, red, r, up) =>
      PreOrderFill(up, Node(t, x, red, r));
      Regroup(PreBefore(up), [x], PreOrder(t), PreOrder(r), PreAfter(up));
    case InRight(l, x, red, up) =>
      PreOrderFill(up, Node(l, x, red, t));
      Regroup(PreBefore(up), [x], PreOrder(l), PreOrder(t), PreAfter(up));
  }

  lemma {:induction false} PreFill(h: Place, t: Shape)
    requires t.Node?
    ensures |PreBefore(h)| < |PreOrder(Fill(h, t))|
  {
    hide Fill;
    PreOrderFill(h, t);
  }

  lemma {:induction false} PreDown(h: Place, t: Shape)
    requires t.Node?
    ensures PreBefore(InLeft(t.x, t.red, t.right, h)) == PreBefore(h) + [t.x]
    ensures t.left.Leaf? ==> PreBefore(InRight(t.left, t.x, t.red, h)) == PreBefore(h) + [t.x]
    ensures t.left.Leaf? && t.right.Leaf? ==> PreBefore(h) + PreOrder(t) == PreBefore(h) + [t.x]
  {}

  // Up from a left subtree, the right one is next; without one, and up from a
  // right subtree, the parent's subtree is done.
  lemma {:induction false} PreUp(h: Place, t: Shape)
    requires !h.Top?
    ensures h.InRight? || h.right.Leaf? ==> PreBefore(h.up) + PreOrder(Refilled(h, t)) == PreBefore(h) + PreOrder(t)
    ensures h.InLeft? ==> PreBefore(InRight(t, h.x, h.red, h.up)) == PreBefore(h) + PreOrder(t)
  {
    if h.InRight? {
      assert PreOrder(Refilled(h, t)) == [h.x] + PreOrder(h.left) + PreOrder(t);
    } else {
      assert PreOrder(Refilled(h, t)) == [h.x] + PreOrder(t) + PreOrder(h.right);
    }
  }

  lemma {:induction false} PreTop(t: Shape)
    ensures PreBefore(Top) == [] && PreBefore(Top) + PreOrder(t) == PreOrder(t) && Fill(Top, t) == t
    ensures t.Leaf? ==> PreOrder(t) == []
  {}

  // Every node is met exactly once, whatever the order.
  lemma {:induction false} PreOrderIsComplete(t: Shape)
    ensures multiset(PreOrder(t)) == multiset(InOrder(t))
    ensures Disjoint(t) ==> multiset(PreOrder(t)) == multiset(Elements(t))
  {
    if t.Node? {
      PreOrderIsComplete(t.left);
      PreOrderIsComplete(t.right);
      var p, q, i, j := PreOrder(t.left), PreOrder(t.right), InOrder(t.left), InOrder(t.right);
      ThreeParts(p, q, i, j, t.x);
      if Disjoint(t) {
        UnionCounts(Elements(t.left), t.x, Elements(t.right));
      }
    }
  }

  lemma {:induction false} ThreeParts(p: seq<Stub>, q: seq<Stub>, i: seq<Stub>, j: seq<Stub>, x: Stub)
    requires multiset(p) == multiset(i) && multiset(q) == multiset(j)
    ensures multiset([x] + p + q) == multiset(i + [x] + j) == multiset(p) + multiset{x} + multiset(q)
  {}

  lemma {:induction false} UnionCounts(a: set<Stub>, x: Stub, b: set<Stub>)
    requires x !in a && x !in b && a !! b
    ensures multiset(a + {x} + b) == multiset(a) + multiset{x} + multiset(b)
  {}

  lemma {:induction false} PreOrderSize(m: Memory, t: Shape)
    requires IsAt(m, Top, t)
    ensures |PreOrder(t)| == |Elements(t)|
  {
    PreOrderIsComplete(t);
    assert |multiset(PreOrder(t))| == |PreOrder(t)|;
    assert |multiset(Elements(t))| == |Elements(t)|;
  }

  // Searches and updates take logarithmic time.
  lemma {:induction false} SizeIsLength(t: Shape)
    ensures Size(t) == |InOrder(t)|
  {
    if t.Node? {
      SizeIsLength(t.left);
      SizeIsLength(t.right);
    }
  }
}
