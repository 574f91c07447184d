// The beginning and the end of a match: the partial matches of the first
// element, and the complete ones.
module RmEnds {
  import opened RtLinks
  import opened RmItems
  import opened RmStates
  import opened RmLoop

  // The wildcard with which rules begin, and the label with which they do.
  function FirstWild(t: Net): Node? {
    if t.root == null then null
    else if LabelOf(t, t.root) == [] then WcOf(t, t.root)
    else if IsWild(t, t.root) then t.root
    else null
  }

  function FirstLabel(t: Net, c: Elem): Node? {
    if t.root == null then null
    else if LabelOf(t, t.root) == [] then (if c in BranchesOf(t, t.root) then BranchesOf(t, t.root)[c] else null)
    else if !IsWild(t, t.root) && LabelOf(t, t.root)[0] == c then t.root
    else null
  }

  // The partial matches of one element.
  ghost predicate IsFirst(t: Net, c: Elem, it: Item) {
    var y := FirstWild(t);
    || (y != null && it == Item(y, 0, [Span(0, 1)]))
    || (FirstLabel(t, c) != null && it == Item(FirstLabel(t, c), 1, []))
    || (y != null && c in BranchesOf(t, y) && it == Item(BranchesOf(t, y)[c], 1, [Span(0, 0)]))
  }

  lemma {:induction false} FitsNothing(w: Elem, u: Str, s: Str, spans: seq<Span>)
    ensures Fits(w, u, s, 0, spans) && u != [] ==> u[|u| - 1] == w && spans != [] && Last(spans) == Span(0, 0)
    ensures Fits(w, [], s, 0, spans) <==> spans == []
  {}

  // Before a wildcard, nothing can be matched by nothing.
  lemma {:induction false} BeforeWild(t: Net, s: Str, x: Node, spans: seq<Span>)
    requires IsNet(t) && x in t.N && IsWild(t, x) && NodeInNet(t, x)
    ensures Fits(t.w, Upto(t, x, 0), s, 0, spans) <==> x == FirstWild(t) && spans == []
    ensures x == FirstWild(t) ==> Upto(t, x, 0) == []
  {
    hide IsNet, Fits, Upto, NodeInNet, FirstWild;
    LabelIsOne(t, x);
    UptoFacts(t, x, 1);
    FitsNothing(t.w, Upto(t, x, 0), s, spans);
    WildPlace(t, x);
  }

  lemma {:induction false} WildPlace(t: Net, x: Node)
    requires IsNet(t) && x in t.N && IsWild(t, x) && NodeInNet(t, x)
    ensures var q := ParentOf(t, x);
            && (q == null ==> x == FirstWild(t))
            && (q != null ==> (PathOf(t, q) == [] <==> x == FirstWild(t)))
            && (q != null && PathOf(t, q) != [] ==> PathOf(t, q)[|PathOf(t, q)| - 1] != t.w)
  {
    hide IsNet;
    var q := ParentOf(t, x);
    RootInNet(t);
    if q != null {
      NetNode(t, q);
    }
    if t.w in BranchesOf(t, t.root) {
      NetChild(t, t.root, t.w);
    }
  }

  lemma {:induction false} LabelIsOne(t: Net, q: Node)
    requires IsWild(t, q)
    ensures |LabelOf(t, q)| == 1 && LabelOf(t, q)[0] == t.w
  {}

  lemma {:induction false} RootInNet(t: Net)
    requires IsNet(t)
    ensures t.root != null && t.root in t.N && NodeInNet(t, t.root) && ParentOf(t, t.root) == null
  {
    NetNode(t, t.root);
  }

  lemma {:induction false} FirstIs(t: Net, s: Str, it: Item)
    requires IsNet(t) && |s| > 0 && t.w !in s && ItemOk(t, s, 1, it)
    ensures IsFirst(t, s[0], it)
  {
    hide IsNet, Fits;
    var x := it.node;
    NetNode(t, x);
    RootInNet(t);
    if IsWild(t, x) {
      UptoFacts(t, x, 1);
      FitsSnoc(t.w, Upto(t, x, 0), t.w, s, 1, it.spans);
      BeforeWild(t, s, x, Init(it.spans));
      assert it.spans == Init(it.spans) + [Last(it.spans)];
    } else {
      FirstLiteral(t, s, it);
    }
  }

  lemma {:induction false} FirstLiteral(t: Net, s: Str, it: Item)
    requires IsNet(t) && |s| > 0 && t.w !in s && ItemOk(t, s, 1, it) && !IsWild(t, it.node) && NodeInNet(t, it.node)
    ensures IsFirst(t, s[0], it)
  {
    hide IsNet, Fits;
    var x, k := it.node, LabelOf(t, it.node);
    RootInNet(t);
    UptoFacts(t, x, it.pos);
    FitsSnoc(t.w, Upto(t, x, it.pos - 1), k[it.pos - 1], s, 1, it.spans);
    FitsNothing(t.w, Upto(t, x, it.pos - 1), s, it.spans);
    if it.pos > 1 {
      UptoFacts(t, x, it.pos - 1);
    } else {
      var q := ParentOf(t, x);
      if q != null {
        NetNode(t, q);
        if PathOf(t, q) != [] {
          FirstPassed(t, s, it, q);
        }
      }
    }
  }

  lemma {:induction false} WildAbove(t: Net, q: Node)
    requires NodeInNet(t, q) && PathOf(t, q) != [] && PathOf(t, q)[|PathOf(t, q)| - 1] == t.w
    ensures IsWild(t, q)
  {
    var k, u := LabelOf(t, q), PathOf(t, q);
    assert k != [] && u[|u| - 1] == k[|k| - 1];
  }

  lemma {:induction false} FirstPassed(t: Net, s: Str, it: Item, q: Node)
    requires IsNet(t) && |s| > 0 && NodeInNet(t, it.node) && NodeInNet(t, q) && q in t.N && q == ParentOf(t, it.node)
    requires it.pos == 1 && PathOf(t, q) != [] && Fits(t.w, PathOf(t, q), s, 0, it.spans)
        && LabelOf(t, it.node)[0] == s[0]
    ensures IsFirst(t, s[0], it)
  {
    hide IsNet, Fits, FirstLabel, FirstWild, NodeInNet;
    FitsNothing(t.w, PathOf(t, q), s, it.spans);
    WildAbove(t, q);
    LabelIsOne(t, q);
    UptoFacts(t, q, 1);
    FitsSnoc(t.w, Upto(t, q, 0), t.w, s, 0, it.spans);
    BeforeWild(t, s, q, Init(it.spans));
    assert it.spans == Init(it.spans) + [Last(it.spans)];
    BranchIs(t, it.node, q);
  }

  lemma {:induction false} BranchIs(t: Net, x: Node, q: Node)
    requires NodeInNet(t, x) && ParentOf(t, x) == q
    ensures LabelOf(t, x) != [] && LabelOf(t, x)[0] in BranchesOf(t, q) && BranchesOf(t, q)[LabelOf(t, x)[0]] == x
  {}

  lemma {:induction false} FirstOk(t: Net, s: Str, it: Item)
    requires IsNet(t) && |s| > 0 && t.w !in s && IsFirst(t, s[0], it)
    ensures ItemOk(t, s, 1, it)
  {
    hide IsNet, Fits;
    RootInNet(t);
    var y := FirstWild(t);
    if LabelOf(t, t.root) == [] && y != null {
      NetChild(t, t.root, t.w);
    }
    if y != null && it == Item(y, 0, [Span(0, 1)]) {
      NetNode(t, y);
      UptoFacts(t, y, 1);
      BeforeWild(t, s, y, []);
      FitsSnoc(t.w, Upto(t, y, 0), t.w, s, 1, it.spans);
    } else if FirstLabel(t, s[0]) != null && it == Item(FirstLabel(t, s[0]), 1, []) {
      FirstLabelOk(t, s);
    } else {
      NetNode(t, y);
      UptoFacts(t, y, 1);
      BeforeWild(t, s, y, []);
      NetChild(t, y, s[0]);
      FirstChildOk(t, s, y, it);
    }
  }

  lemma {:induction false} FirstLabelOk(t: Net, s: Str)
    requires IsNet(t) && |s| > 0 && t.w !in s && FirstLabel(t, s[0]) != null
    ensures ItemOk(t, s, 1, Item(FirstLabel(t, s[0]), 1, []))
  {
    hide IsNet, Fits;
    RootInNet(t);
    var x := FirstLabel(t, s[0]);
    if LabelOf(t, t.root) == [] {
      NetChild(t, t.root, s[0]);
    }
    NetNode(t, x);
    UptoFacts(t, x, 1);
    FitsSnoc(t.w, Upto(t, x, 0), s[0], s, 1, []);
    FitsSnoc(t.w, [], s[0], s, 0, []);
  }

  lemma {:induction false} FirstChildOk(t: Net, s: Str, y: Node, it: Item)
    requires IsNet(t) && |s| > 0 && t.w !in s && y in t.N && NodeInNet(t, y) && IsWild(t, y) && ChildInNet(t, y, s[0])
    requires it == Item(BranchesOf(t, y)[s[0]], 1, [Span(0, 0)]) && Fits(t.w, Upto(t, y, 0), s, 0, [])
    ensures ItemOk(t, s, 1, it)
  {
    hide IsNet, Fits;
    var x := it.node;
    NetNode(t, x);
    UptoFacts(t, x, 1);
    UptoFacts(t, y, 1);
    FitsSnoc(t.w, Upto(t, y, 0), t.w, s, 0, it.spans);
    FitsSnoc(t.w, PathOf(t, y), s[0], s, 1, it.spans);
  }

  // ------------------------------------------------------- the states of the first

  // The states that the beginning of a match puts into the pool.
  function StartWild(t: Net, c: Elem): Pool {
    var y := FirstWild(t);
    if y == null then []
    else if c in BranchesOf(t, y) then [State(y, 0, 0, -1, 1, false), State(BranchesOf(t, y)[c], 1, 0, 0, 0, false)]
    else [State(y, 0, 0, -1, 0, false)]
  }

  function StartLabel(t: Net, c: Elem): Pool {
    if FirstLabel(t, c) == null then [] else [State(FirstLabel(t, c), 1, 0, -1, 0, false)]
  }

  function StartPool(t: Net, c: Elem): Pool {
    StartWild(t, c) + StartLabel(t, c)
  }

  // The nodes of the first states.
  lemma {:induction false} StartNodes(t: Net, c: Elem)
    requires IsNet(t) && c != t.w
    ensures FirstWild(t) != null ==> FirstWild(t) in t.N && IsWild(t, FirstWild(t))
    ensures FirstLabel(t, c) != null ==>
          FirstLabel(t, c) in t.N && !IsWild(t, FirstLabel(t, c)) && LabelOf(t, FirstLabel(t, c)) != []
    ensures FirstWild(t) != null && c in BranchesOf(t, FirstWild(t)) ==>
              var z := BranchesOf(t, FirstWild(t))[c]; z in t.N && !IsWild(t, z) && LabelOf(t, z) != []
  {
    hide IsNet;
    RootInNet(t);
    if LabelOf(t, t.root) == [] {
      if t.w in BranchesOf(t, t.root) {
        NetChild(t, t.root, t.w);
      }
      if c in BranchesOf(t, t.root) {
        NetChild(t, t.root, c);
      }
    }
    var y := FirstWild(t);
    if y != null && c in BranchesOf(t, y) {
      NetChild(t, y, c);
    }
  }

  ghost predicate StartItem(t: Net, c: Elem, i: int) {
    var pool := StartPool(t, c);
    0 <= i < |pool| && pool[i].enter == 0 && IsFirst(t, c, ItemOf(t, pool, i, 1)) && StateOk(t, pool, i)
  }

  lemma {:induction false} StartItems(t: Net, c: Elem, i: int)
    requires IsNet(t) && c != t.w && 0 <= i < |StartPool(t, c)|
    ensures StartItem(t, c, i)
  {
    hide IsNet, FirstWild, FirstLabel;
    StartNodes(t, c);
    var pool, n := StartPool(t, c), |StartWild(t, c)|;
    if i >= n {
      assert pool[i] == StartLabel(t, c)[i - n];
      assert Spans(t, pool, i, 1) == [];
    } else {
      assert pool[i] == StartWild(t, c)[i];
      assert Spans(t, pool, 0, 1) == [Span(0, 1)] && Spans(t, pool, 0, 0) == [Span(0, 0)];
      if i == 1 {
        assert Spans(t, pool, 1, 1) == [Span(0, 0)];
      }
    }
  }

  lemma {:induction false} StartHas(t: Net, c: Elem, L: set<int>, it: Item)
    requires IsNet(t) && c != t.w && IsFirst(t, c, it) && (forall i :: 0 <= i < |StartPool(t, c)| ==> i in L)
    ensures Has(t, 1, StartPool(t, c), L, it)
  {
    hide IsNet, FirstWild, FirstLabel;
    StartNodes(t, c);
    var pool, n := StartPool(t, c), |StartWild(t, c)|;
    assert n > 0 ==>
          pool[0] == StartWild(t, c)[0] && Spans(t, pool, 0, 1) == [Span(0, 1)] && Spans(t, pool, 0, 0) == [Span(0, 0)];
    if FirstWild(t) != null && it == Item(FirstWild(t), 0, [Span(0, 1)]) {
      assert ItemOf(t, pool, 0, 1) == it;
    } else if FirstLabel(t, c) != null && it == Item(FirstLabel(t, c), 1, []) {
      assert pool[n] == StartLabel(t, c)[0] && Spans(t, pool, n, 1) == [];
      assert ItemOf(t, pool, n, 1) == it;
    } else {
      assert pool[1] == StartWild(t, c)[1] && Spans(t, pool, 1, 1) == [Span(0, 0)];
      assert ItemOf(t, pool, 1, 1) == it;
    }
  }

  lemma {:induction false} StartDiffers(t: Net, c: Elem, i: int, j: int)
    requires IsNet(t) && c != t.w && SameItem(t, 1, StartPool(t, c), i, j)
    ensures i == j
  {
    hide IsNet, FirstWild, FirstLabel;
    StartNodes(t, c);
    var pool, n := StartPool(t, c), |StartWild(t, c)|;
    assert n > 0 ==>
          pool[0] == StartWild(t, c)[0] && Spans(t, pool, 0, 1) == [Span(0, 1)] && Spans(t, pool, 0, 0) == [Span(0, 0)];
    assert n > 1 ==> pool[1] == StartWild(t, c)[1] && Spans(t, pool, 1, 1) == [Span(0, 0)];
    assert |pool| > n ==> pool[n] == StartLabel(t, c)[0] && Spans(t, pool, n, 1) == [];
  }

  lemma {:induction false} StartIsExact(t: Net, s: Str, L: set<int>)
    requires IsNet(t) && |s| > 0 && t.w !in s && (forall i :: i in L <==> 0 <= i < |StartPool(t, s[0])|)
    ensures IsExact(t, s, 1, StartPool(t, s[0]), L)
  {
    hide IsNet, StartPool, IsFirst, Has, SameItem, ItemOk, StateOk;
    var c, pool := s[0], StartPool(t, s[0]);
    forall i | 0 <= i < |pool| ensures LiveOk(t, s, 1, pool, i) && StateOk(t, pool, i) {
      StartItems(t, c, i);
      FirstOk(t, s, ItemOf(t, pool, i, 1));
    }
    forall it | ItemOk(t, s, 1, it) ensures Has(t, 1, pool, L, it) {
      FirstIs(t, s, it);
      StartHas(t, c, L, it);
    }
    forall i, j | i in L && j in L && SameItem(t, 1, pool, i, j) ensures i == j {
      StartDiffers(t, c, i, j);
    }
  }

  lemma {:induction false} StartCounts(t: Net, c: Elem, L: set<int>)
    requires IsNet(t) && c != t.w && (forall i :: i in L <==> 0 <= i < |StartPool(t, c)|)
    ensures CountsOk(t, StartPool(t, c), L)
  {
    hide IsNet, FirstWild, FirstLabel;
    StartNodes(t, c);
    var pool, n := StartPool(t, c), |StartWild(t, c)|;
    assert n > 0 ==> pool[0] == StartWild(t, c)[0];
    assert n > 1 ==> pool[1] == StartWild(t, c)[1];
    assert |pool| > n ==> pool[n] == StartLabel(t, c)[0];
    forall p | 0 <= p < |pool| ensures CountOk(t, pool, L, p) {
      if IsWild(t, pool[p].stub) {
        var K := KidsOf(t, pool, L, p);
        forall i ensures i in K <==> n > 1 && i == 1 {}
        if n > 1 {
          SameSet(K, {1});
        } else {
          SameSet(K, {});
        }
      }
    }
  }

  lemma {:induction false} SameSet<X>(a: set<X>, b: set<X>)
    requires forall x :: x in a <==> x in b
    ensures a == b
  {}

  // ------------------------------------------------------------- complete matches

  // A rule, with the stretches of its wildcards.
  datatype Hit = Hit(rule: Node, spans: seq<Span>)

  predicate IsRule(t: Net, x: Node) {
    x in t.N && x in t.m && t.m[x].valid
  }

  // The rule, filled in like that, is the input.
  ghost predicate HitOk(t: Net, s: Str, older h: Hit) {
    IsRule(t, h.rule) && Fits(t.w, PathOf(t, h.rule), s, |s|, h.spans)
  }

  function HitOf(t: Net, pool: Pool, i: int, n: nat): Hit
    requires 0 <= i < |pool|
  {
    Hit(pool[i].stub, Spans(t, pool, i, n))
  }

  ghost predicate Found(t: Net, s: Str, pool: Pool, F: set<int>, h: Hit) {
    exists i :: i in F && 0 <= i < |pool| && HitOf(t, pool, i, |s|) == h
  }

  ghost predicate FoundOk(t: Net, s: Str, pool: Pool, i: int) {
    0 <= i < |pool| && HitOk(t, s, HitOf(t, pool, i, |s|))
  }

  ghost predicate SameHit(t: Net, s: Str, pool: Pool, i: int, j: int) {
    0 <= i < |pool| && 0 <= j < |pool| && HitOf(t, pool, i, |s|) == HitOf(t, pool, j, |s|)
  }

  // The states in F stand for all complete matches, each for another one.
  ghost predicate IsResult(t: Net, s: Str, pool: Pool, F: set<int>) {
    && PoolOk(t, pool)
    && (forall i {:trigger FoundOk(t, s, pool, i)} :: i in F ==> FoundOk(t, s, pool, i))
    && (forall h {:trigger Found(t, s, pool, F, h)} :: HitOk(t, s, h) ==> Found(t, s, pool, F, h))
    && (forall i, j {:trigger SameHit(t, s, pool, i, j)} :: i in F && j in F && SameHit(t, s, pool, i, j) ==> i == j)
  }

  ghost predicate AtEnd(t: Net, pool: Pool, i: int) {
    0 <= i < |pool| && !IsWild(t, pool[i].stub) && pool[i].pos == |LabelOf(t, pool[i].stub)|
  }

  // What the end of the input does to a live state.
  ghost predicate EndOf(t: Net, n: nat, pool: Pool, pool': Pool, F: set<int>, tails: map<int, int>, i: int) {
    0 <= i < |pool| && i < |pool'| && pool'[i].stub == pool[i].stub &&
    var y := WcOf(t, pool[i].stub);
    && (i in F <==> IsRule(t, pool[i].stub) && (IsWild(t, pool[i].stub) || AtEnd(t, pool, i)))
    && (AtEnd(t, pool, i) && y != null && IsRule(t, y) ==>
          && i in tails && |pool| <= tails[i] < |pool'| && tails[i] in F
          && pool'[tails[i]].stub == y && pool'[tails[i]].enter == n && pool'[tails[i]].parent == i)
  }

  ghost predicate TailOk(t: Net, n: nat, pool: Pool, pool': Pool, L: set<int>, tails: map<int, int>, a: int) {
    0 <= a < |pool'| &&
    var p := pool'[a].parent;
    if a < |pool| then a in L
    else
      && p in L && AtEnd(t, pool, p) && WcOf(t, pool[p].stub) == pool'[a].stub && IsRule(t, pool'[a].stub)
      && pool'[a].enter == n && p in tails && tails[p] == a
  }

  ghost predicate Ending(t: Net, s: Str, pool: Pool, pool': Pool, L: set<int>, F: set<int>, tails: map<int, int>) {
    && IsNet(t) && |s| > 0 && IsExact(t, s, |s|, pool, L) && PoolOk(t, pool') && LinesKept(t, pool, pool')
    && (forall i {:trigger EndOf(t, |s|, pool, pool', F, tails, i)} ::
          i in L ==> EndOf(t, |s|, pool, pool', F, tails, i))
    && (forall a {:trigger TailOk(t, |s|, pool, pool', L, tails, a)} ::
          a in F ==> TailOk(t, |s|, pool, pool', L, tails, a))
  }

  lemma {:induction false} EndFacts(t: Net, s: Str, pool: Pool, pool': Pool, L: set<int>, F: set<int>,
        tails: map<int, int>, i: int)
    requires Ending(t, s, pool, pool', L, F, tails) && i in L
    ensures EndOf(t, |s|, pool, pool', F, tails, i) && LiveOk(t, s, |s|, pool, i) && SameLine(t, pool, pool', i)
    ensures StateOk(t, pool, i) && IsNet(t)
    ensures forall e :: Spans(t, pool', i, e) == Spans(t, pool, i, e)
  {
    assert EndOf(t, |s|, pool, pool', F, tails, i) && LiveOk(t, s, |s|, pool, i) && SameLine(t, pool, pool', i);
    StateIs(t, pool, i);
    forall e ensures Spans(t, pool', i, e) == Spans(t, pool, i, e) {
      SpansFrame(t, pool, pool', i, e);
    }
  }

  lemma {:induction false} TailFacts(t: Net, s: Str, pool: Pool, pool': Pool, L: set<int>, F: set<int>,
        tails: map<int, int>, a: int)
    requires Ending(t, s, pool, pool', L, F, tails) && a in F && a >= |pool|
    ensures a < |pool'| && TailOk(t, |s|, pool, pool', L, tails, a) && StateOk(t, pool', a) && IsWild(t, pool'[a].stub)
    ensures Spans(t, pool', a, |s|) == Spans(t, pool, pool'[a].parent, |s|) + [Span(|s|, |s|)]
  {
    hide IsNet, Spans;
    assert TailOk(t, |s|, pool, pool', L, tails, a);
    StateIs(t, pool', a);
    var p := pool'[a].parent;
    EndFacts(t, s, pool, pool', L, F, tails, p);
    NetNode(t, pool[p].stub);
    NetChild(t, pool[p].stub, t.w);
    SpansBelow(t, pool', a, |s|);
  }

  lemma {:induction false} EndIsSound(t: Net, s: Str, pool: Pool, pool': Pool, L: set<int>, F: set<int>,
        tails: map<int, int>, a: int)
    requires Ending(t, s, pool, pool', L, F, tails) && a in F
    ensures FoundOk(t, s, pool', a)
  {
    hide Ending, IsNet, Spans, Fits;
    if a >= |pool| {
      TailFacts(t, s, pool, pool', L, F, tails, a);
      var p := pool'[a].parent;
      EndFacts(t, s, pool, pool', L, F, tails, p);
      NetNode(t, pool[p].stub);
      NetChild(t, pool[p].stub, t.w);
      NetNode(t, pool'[a].stub);
      UptoFacts(t, pool'[a].stub, 1);
      UptoFacts(t, pool[p].stub, pool[p].pos);
      FitsSnoc(t.w, PathOf(t, pool[p].stub), t.w, s, |s|, Spans(t, pool', a, |s|));
    } else {
      OldInF(t, s, pool, pool', L, F, tails, a);
      EndFacts(t, s, pool, pool', L, F, tails, a);
      NetNode(t, pool[a].stub);
      if !IsWild(t, pool[a].stub) {
        UptoFacts(t, pool[a].stub, pool[a].pos);
      }
    }
  }

  lemma {:induction false} OldInF(t: Net, s: Str, pool: Pool, pool': Pool, L: set<int>, F: set<int>,
        tails: map<int, int>, a: int)
    requires Ending(t, s, pool, pool', L, F, tails) && a in F && a < |pool|
    ensures a in L && 0 <= a
  {
    assert TailOk(t, |s|, pool, pool', L, tails, a);
  }

  lemma {:induction false} EndIsComplete(t: Net, s: Str, pool: Pool, pool': Pool, L: set<int>, F: set<int>,
        tails: map<int, int>, h: Hit)
    requires Ending(t, s, pool, pool', L, F, tails) && HitOk(t, s, h)
    ensures Found(t, s, pool', F, h)
  {
    hide IsNet, Spans, Fits, Has, LiveOk, SameItem;
    var x, n := h.rule, |s|;
    NetNode(t, x);
    if !IsWild(t, x) {
      FullLabel(t, x, s, n, h.spans);
      EndReached(t, s, pool, pool', L, F, tails, h, Item(x, |LabelOf(t, x)|, h.spans));
    } else {
      UptoFacts(t, x, 1);
      FitsSnoc(t.w, Upto(t, x, 0), t.w, s, n, h.spans);
      assert h.spans == Init(h.spans) + [Last(h.spans)];
      if Last(h.spans).enter < n {
        EndReached(t, s, pool, pool', L, F, tails, h, Item(x, 0, h.spans));
      } else {
        FitsSnoc(t.w, [], t.w, s, n, Init(h.spans));
        var q := ParentOf(t, x);
        NetNode(t, q);
        FullLabel(t, q, s, n, Init(h.spans));
        TailReached(t, s, pool, pool', L, F, tails, h, q);
      }
    }
  }

  lemma {:induction false} EndReached(t: Net, s: Str, pool: Pool, pool': Pool, L: set<int>, F: set<int>,
        tails: map<int, int>, h: Hit, it: Item)
    requires Ending(t, s, pool, pool', L, F, tails) && HitOk(t, s, h) && ItemOk(t, s, |s|, it)
    requires it.node == h.rule && it.spans == h.spans && (!IsWild(t, h.rule) ==> it.pos == |LabelOf(t, h.rule)|)
    ensures Found(t, s, pool', F, h)
  {
    hide IsNet, Spans, Fits, ItemOk;
    assert Has(t, |s|, pool, L, it);
    var i :| i in L && 0 <= i < |pool| && ItemOf(t, pool, i, |s|) == it;
    EndFacts(t, s, pool, pool', L, F, tails, i);
    assert HitOf(t, pool', i, |s|) == h;
  }

  lemma {:induction false} TailReached(t: Net, s: Str, pool: Pool, pool': Pool, L: set<int>, F: set<int>,
        tails: map<int, int>, h: Hit, q: Node)
    requires Ending(t, s, pool, pool', L, F, tails) && HitOk(t, s, h) && h.spans == Init(h.spans) + [Span(|s|, |s|)]
    requires ItemOk(t, s, |s|, Item(q, |LabelOf(t, q)|, Init(h.spans))) && !IsWild(t, q) && WcOf(t, q) == h.rule
    ensures Found(t, s, pool', F, h)
  {
    hide IsNet, Spans, Fits, ItemOk;
    var it := Item(q, |LabelOf(t, q)|, Init(h.spans));
    assert Has(t, |s|, pool, L, it);
    var i :| i in L && 0 <= i < |pool| && ItemOf(t, pool, i, |s|) == it;
    EndFacts(t, s, pool, pool', L, F, tails, i);
    var a := tails[i];
    TailFacts(t, s, pool, pool', L, F, tails, a);
    assert HitOf(t, pool', a, |s|) == h;
  }

  lemma {:induction false} EndIsUnique(t: Net, s: Str, pool: Pool, pool': Pool, L: set<int>, F: set<int>,
        tails: map<int, int>, a: int, b: int)
    requires Ending(t, s, pool, pool', L, F, tails) && a in F && b in F && SameHit(t, s, pool', a, b)
    ensures a == b
  {
    hide Ending, IsNet, Spans, Fits;
    if a >= |pool| && b >= |pool| {
      TailsUnique(t, s, pool, pool', L, F, tails, a, b);
    } else if a >= |pool| {
      TailDiffers(t, s, pool, pool', L, F, tails, a, b);
    } else if b >= |pool| {
      TailDiffers(t, s, pool, pool', L, F, tails, b, a);
    } else {
      OldUnique(t, s, pool, pool', L, F, tails, a, b);
    }
  }

  lemma {:induction false} OldUnique(t: Net, s: Str, pool: Pool, pool': Pool, L: set<int>, F: set<int>,
        tails: map<int, int>, a: int, b: int)
    requires Ending(t, s, pool, pool', L, F, tails) && a in F && b in F && a < |pool| && b < |pool|
        && SameHit(t, s, pool', a, b)
    ensures a == b
  {
    hide IsNet, Spans, Fits, ItemOk;
    OldInF(t, s, pool, pool', L, F, tails, a);
    OldInF(t, s, pool, pool', L, F, tails, b);
    EndFacts(t, s, pool, pool', L, F, tails, a);
    EndFacts(t, s, pool, pool', L, F, tails, b);
    assert SameItem(t, |s|, pool, a, b);
  }

  lemma {:induction false} TailsUnique(t: Net, s: Str, pool: Pool, pool': Pool, L: set<int>, F: set<int>,
        tails: map<int, int>, a: int, b: int)
    requires Ending(t, s, pool, pool', L, F, tails) && a in F && b in F && a >= |pool| && b >= |pool|
        && SameHit(t, s, pool', a, b)
    ensures a == b
  {
    hide IsNet, Spans, Fits, ItemOk;
    TailFacts(t, s, pool, pool', L, F, tails, a);
    TailFacts(t, s, pool, pool', L, F, tails, b);
    var p, q := pool'[a].parent, pool'[b].parent;
    EndFacts(t, s, pool, pool', L, F, tails, p);
    EndFacts(t, s, pool, pool', L, F, tails, q);
    var sp, sq := Spans(t, pool, p, |s|), Spans(t, pool, q, |s|);
    assert (sp + [Span(|s|, |s|)])[..|sp|] == sp && (sq + [Span(|s|, |s|)])[..|sq|] == sq;
    WcOwner(t, pool[p].stub);
    WcOwner(t, pool[q].stub);
    assert SameItem(t, |s|, pool, p, q);
  }

  // The wildcard child tells its parent.
  lemma {:induction false} WcOwner(t: Net, x: Node)
    requires IsNet(t) && x in t.N && WcOf(t, x) != null
    ensures ParentOf(t, WcOf(t, x)) == x
  {
    hide IsNet;
    NetNode(t, x);
    NetChild(t, x, t.w);
  }

  lemma {:induction false} TailDiffers(t: Net, s: Str, pool: Pool, pool': Pool, L: set<int>, F: set<int>,
        tails: map<int, int>, a: int, b: int)
    requires Ending(t, s, pool, pool', L, F, tails) && a in F && b in F && a >= |pool| && b < |pool|
    ensures !SameHit(t, s, pool', a, b)
  {
    hide IsNet, Spans, Fits, ItemOk;
    TailFacts(t, s, pool, pool', L, F, tails, a);
    OldInF(t, s, pool, pool', L, F, tails, b);
    EndFacts(t, s, pool, pool', L, F, tails, b);
    SpansFacts(t, pool, b, |s|, |s|);
  }

  lemma {:induction false} EndIsResult(t: Net, s: Str, pool: Pool, pool': Pool, L: set<int>, F: set<int>,
        tails: map<int, int>)
    requires Ending(t, s, pool, pool', L, F, tails)
    ensures IsResult(t, s, pool', F)
  {
    hide FoundOk, Found, SameHit, HitOk, IsNet, IsExact, PoolOk;
    forall a | a in F ensures FoundOk(t, s, pool', a) {
      EndIsSound(t, s, pool, pool', L, F, tails, a);
    }
    forall h | HitOk(t, s, h) ensures Found(t, s, pool', F, h) {
      EndIsComplete(t, s, pool, pool', L, F, tails, h);
    }
    forall a, b | a in F && b in F && SameHit(t, s, pool', a, b) ensures a == b {
      EndIsUnique(t, s, pool, pool', L, F, tails, a, b);
    }
  }

  // ------------------------------------------------------- in the middle of the end

  ghost predicate ClosedLists(pool0: Pool, live: seq<int>, r: nat, q: nat, pool: Pool, keep: seq<int>, add: seq<int>,
        F: set<int>, tails: map<int, int>)
  {
    && r <= |live| && q <= |live| && |pool0| <= |pool|
    && (forall i {:trigger i in F} :: i in F <==> i in keep || i in add)
    && (forall i :: i in keep ==> i in live[..r]) && (forall a :: a in add ==> |pool0| <= a < |pool|)
    && (forall x :: x in tails ==> x !in live[q..])
    && (forall i :: i in live ==> 0 <= i < |pool0|) && (forall i, j :: 0 <= i < j < |live| ==> live[i] != live[j])
    && (forall i, j :: 0 <= i < j < |keep| ==> keep[i] != keep[j])
    && (forall i, j :: 0 <= i < j < |add| ==> add[i] != add[j])
  }

  // The live states up to number r have been kept or dropped.
  ghost predicate Closing(t: Net, n: nat, pool0: Pool, live: seq<int>, L: set<int>, r: nat, q: nat, pool: Pool,
        keep: seq<int>, add: seq<int>, F: set<int>, tails: map<int, int>)
  {
    && PoolOk(t, pool) && r <= |live| && |pool0| <= |pool|
    && (forall i {:trigger pool[i]} :: 0 <= i < |pool0| ==> pool[i] == pool0[i])
    && (forall i :: i in L <==> i in live)
    && (forall i {:trigger EndOf(t, n, pool0, pool, F, tails, i)} ::
          i in live[..r] ==> EndOf(t, n, pool0, pool, F, tails, i))
    && (forall a {:trigger TailOk(t, n, pool0, pool, L, tails, a)} :: a in F ==> TailOk(t, n, pool0, pool, L, tails, a))
    && ClosedLists(pool0, live, r, q, pool, keep, add, F, tails)
  }

  lemma {:induction false} NextCloses(t: Net, n: nat, pool0: Pool, live: seq<int>, L: set<int>, r: nat, q: nat,
        pool: Pool, keep: seq<int>, add: seq<int>, F: set<int>, tails: map<int, int>)
    requires Closing(t, n, pool0, live, L, r, q, pool, keep, add, F, tails) && r < |live|
    ensures var j := live[r];
            && 0 <= j < |pool0| <= |pool| && pool[j] == pool0[j] && j in L && StateOk(t, pool, j) && j !in keep
            && j !in add && j !in F
            && (q == r ==> j !in tails)
  {
    var j := live[r];
    assert j in live;
    StateIs(t, pool, j);
    assert live[r..][0] == j;
    forall i | 0 <= i < r ensures live[..r][i] != j {}
  }

  // A tail is added for a wildcard at the end of a rule.
  lemma {:induction false} TailCloses(t: Net, n: nat, pool0: Pool, live: seq<int>, L: set<int>, r: nat, pool: Pool,
        keep: seq<int>, add: seq<int>, F: set<int>, tails: map<int, int>, j: int, y: Node)
    requires Closing(t, n, pool0, live, L, r, r, pool, keep, add, F, tails) && r < |live| && j == live[r]
        && 0 <= j < |pool0|
    requires AtEnd(t, pool0, j) && WcOf(t, pool0[j].stub) == y && IsRule(t, y) && IsWild(t, y)
    ensures Closing(t, n, pool0, live, L, r, r + 1, Entered(pool, j, y, n), keep, [|pool|] + add, F + {|pool|},
        tails[j := |pool|])
  {
    var a, pool1, F1, tails1 := |pool|, Entered(pool, j, y, n), F + {|pool|}, tails[j := |pool|];
    NextCloses(t, n, pool0, live, L, r, r, pool, keep, add, F, tails);
    forall i | 0 <= i < |pool1| ensures StateOk(t, pool1, i) {
      if i < |pool| {
        StateIs(t, pool, i);
      }
    }
    forall i | i in live[..r] ensures EndOf(t, n, pool0, pool1, F1, tails1, i) {
      assert EndOf(t, n, pool0, pool, F, tails, i);
      NotBefore(live, r, i);
    }
    forall b | b in F1 ensures TailOk(t, n, pool0, pool1, L, tails1, b) {
      if b != a {
        assert TailOk(t, n, pool0, pool, L, tails, b);
      }
    }
    assert live[r..] == [j] + live[r + 1..];
    NotAgainIn(live, r);
  }

  lemma {:induction false} NotBefore(live: seq<int>, r: nat, i: int)
    requires r < |live| && (forall i, j :: 0 <= i < j < |live| ==> live[i] != live[j]) && i in live[..r]
    ensures i != live[r]
  {
    var x :| 0 <= x < |live[..r]| && live[..r][x] == i;
    assert live[x] == i;
  }

  lemma {:induction false} NotAgainIn(live: seq<int>, r: nat)
    requires r < |live| && (forall i, j :: 0 <= i < j < |live| ==> live[i] != live[j])
    ensures live[r] !in live[r + 1..]
  {
    var rest := live[r + 1..];
    forall x | 0 <= x < |rest| ensures rest[x] != live[r] {}
  }

  // The next live state is kept or dropped.
  lemma {:induction false} StateCloses(t: Net, n: nat, pool0: Pool, live: seq<int>, L: set<int>, r: nat, q: nat,
        pool: Pool, keep: seq<int>, add: seq<int>, F: set<int>, tails: map<int, int>, j: int, stays: bool)
    requires Closing(t, n, pool0, live, L, r, q, pool, keep, add, F, tails) && r < |live| && j == live[r]
        && (q == r || q == r + 1)
    requires EndOf(t, n, pool0, pool, if stays then F + {j} else F, tails, j)
    ensures Closing(t, n, pool0, live, L, r + 1, r + 1, pool, if stays then keep + [j] else keep, add,
        if stays then F + {j} else F, tails)
  {
    var keep1, F1 := if stays then keep + [j] else keep, if stays then F + {j} else F;
    NextCloses(t, n, pool0, live, L, r, q, pool, keep, add, F, tails);
    assert live[..r + 1] == live[..r] + [j] && live[r..] == [j] + live[r + 1..];
    forall i | i in live[..r + 1] ensures EndOf(t, n, pool0, pool, F1, tails, i) {
      if i != j {
        assert EndOf(t, n, pool0, pool, F, tails, i);
      }
    }
    forall b | b in F1 ensures TailOk(t, n, pool0, pool, L, tails, b) {
      if b in F {
        assert TailOk(t, n, pool0, pool, L, tails, b);
      }
    }
  }

  lemma {:induction false} ClosingStarts(t: Net, n: nat, pool: Pool, live: seq<int>, L: set<int>)
    requires PoolOk(t, pool) && (forall i :: i in L <==> i in live) && (forall i :: i in live ==> 0 <= i < |pool|)
    requires forall i, j :: 0 <= i < j < |live| ==> live[i] != live[j]
    ensures Closing(t, n, pool, live, L, 0, 0, pool, [], [], {}, map[])
  {}

  lemma {:induction false} ClosingEnds(t: Net, s: Str, pool0: Pool, live: seq<int>, L: set<int>, pool: Pool,
        keep: seq<int>, add: seq<int>, F: set<int>, tails: map<int, int>)
    requires IsNet(t) && |s| > 0 && IsExact(t, s, |s|, pool0, L)
    requires Closing(t, |s|, pool0, live, L, |live|, |live|, pool, keep, add, F, tails)
    ensures Ending(t, s, pool0, pool, L, F, tails) && (forall i :: i in F <==> i in keep + add)
    ensures forall i, j :: 0 <= i < j < |keep + add| ==> (keep + add)[i] != (keep + add)[j]
  {
    hide IsNet, IsExact, EndOf, TailOk;
    assert live[..|live|] == live;
    forall i | 0 <= i < |pool0| ensures SameLine(t, pool0, pool, i) {}
    forall i | i in L ensures EndOf(t, |s|, pool0, pool, F, tails, i) {}
    var all := keep + add;
    forall i, j | 0 <= i < j < |all| ensures all[i] != all[j] {
      if i < |keep| <= j {
        assert keep[i] in keep && add[j - |keep|] in add && keep[i] in live;
      }
    }
  }
}
