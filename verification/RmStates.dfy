// The states of the matcher. They live in a pool that only grows and point to
// the state they were entered from; a set of live ones stands for the partial
// matches, each by exactly one state.
module RmStates {
  import opened RtLinks
  import opened RmItems

  // The parent is -1 for none; the flag says whether the state waits in the list
  // of states to be removed.
  datatype State = State(stub: Node, pos: nat, enter: nat, parent: int, nrChildren: int, listed: bool)

  type Pool = seq<State>

  // A label is entered from a wildcard and a wildcard from a label.
  ghost predicate StateOk(t: Net, pool: Pool, i: int) {
    0 <= i < |pool| &&
    var st := pool[i];
    && st.stub in t.N && LabelOf(t, st.stub) != [] && -1 <= st.parent < i
    && (st.parent >= 0 ==> (IsWild(t, st.stub) <==> !IsWild(t, pool[st.parent].stub)))
  }

  ghost predicate PoolOk(t: Net, pool: Pool) {
    forall i {:trigger StateOk(t, pool, i)} :: 0 <= i < |pool| ==> StateOk(t, pool, i)
  }

  lemma {:induction false} StateIs(t: Net, pool: Pool, i: int)
    requires PoolOk(t, pool) && 0 <= i < |pool|
    ensures StateOk(t, pool, i)
  {}

  // The stretches of the wildcards on the way to a state; a wildcard that it is
  // in itself is left at the given place.
  function Spans(t: Net, pool: Pool, i: int, end: nat): seq<Span>
    decreases i
  {
    if !(0 <= i < |pool|) then []
    else
      var st := pool[i];
      var before := if 0 <= st.parent < i then Spans(t, pool, st.parent, st.enter) else [];
      if IsWild(t, st.stub) then before + [Span(st.enter, end)] else before
  }

  function ItemOf(t: Net, pool: Pool, i: int, k: nat): Item
    requires 0 <= i < |pool|
  {
    Item(pool[i].stub, if IsWild(t, pool[i].stub) then 0 else pool[i].pos, Spans(t, pool, i, k))
  }

  ghost predicate SameLine(t: Net, pool: Pool, pool': Pool, i: int) {
    && 0 <= i < |pool| && i < |pool'| && pool'[i].enter == pool[i].enter && pool'[i].parent == pool[i].parent
    && (IsWild(t, pool'[i].stub) <==> IsWild(t, pool[i].stub))
  }

  ghost predicate LinesKept(t: Net, pool: Pool, pool': Pool) {
    |pool| <= |pool'| && forall i {:trigger SameLine(t, pool, pool', i)} ::
          0 <= i < |pool| ==> SameLine(t, pool, pool', i)
  }

  lemma {:induction false} SpansFrame(t: Net, pool: Pool, pool': Pool, i: int, end: nat)
    requires LinesKept(t, pool, pool') && 0 <= i < |pool|
    ensures Spans(t, pool', i, end) == Spans(t, pool, i, end)
    decreases i
  {
    assert SameLine(t, pool, pool', i);
    if 0 <= pool[i].parent < i {
      SpansFrame(t, pool, pool', pool[i].parent, pool[i].enter);
    }
  }

  lemma {:induction false} SpansFacts(t: Net, pool: Pool, i: int, e1: nat, e2: nat)
    requires 0 <= i < |pool|
    ensures !IsWild(t, pool[i].stub) ==> Spans(t, pool, i, e1) == Spans(t, pool, i, e2)
    ensures IsWild(t, pool[i].stub) ==>
              && Spans(t, pool, i, e1) != [] && Last(Spans(t, pool, i, e1)) == Span(pool[i].enter, e1)
              && Init(Spans(t, pool, i, e1)) == Init(Spans(t, pool, i, e2))
              && Spans(t, pool, i, e1) == Init(Spans(t, pool, i, e2)) + [Span(pool[i].enter, e1)]
  {}

  lemma {:induction false} SpansBelow(t: Net, pool: Pool, i: int, e: nat)
    requires StateOk(t, pool, i) && pool[i].parent >= 0
    ensures var p := pool[i].parent;
            Spans(t, pool, i, e) == if IsWild(t, pool[i].stub) then Spans(t, pool, p, pool[i].enter)
                + [Span(pool[i].enter, e)]
                                    else Spans(t, pool, p, pool[i].enter)
  {}

  // ------------------------------------------------------------- the live states

  ghost predicate LiveOk(t: Net, s: Str, k: nat, pool: Pool, i: int) {
    0 <= i < |pool| && pool[i].enter < k && ItemOk(t, s, k, ItemOf(t, pool, i, k))
  }

  ghost predicate Has(t: Net, k: nat, pool: Pool, L: set<int>, it: Item) {
    exists i :: i in L && 0 <= i < |pool| && ItemOf(t, pool, i, k) == it
  }

  ghost predicate SameItem(t: Net, k: nat, pool: Pool, i: int, j: int) {
    0 <= i < |pool| && 0 <= j < |pool| && ItemOf(t, pool, i, k) == ItemOf(t, pool, j, k)
  }

  // The live states stand for all partial matches, each for another one.
  ghost predicate IsExact(t: Net, s: Str, k: nat, pool: Pool, L: set<int>) {
    && PoolOk(t, pool)
    && (forall i {:trigger LiveOk(t, s, k, pool, i)} :: i in L ==> LiveOk(t, s, k, pool, i))
    && (forall it {:trigger Has(t, k, pool, L, it)} :: ItemOk(t, s, k, it) ==> Has(t, k, pool, L, it))
    && (forall i, j {:trigger SameItem(t, k, pool, i, j)} :: i in L && j in L && SameItem(t, k, pool, i, j) ==> i == j)
  }

  // ------------------------------------------------------------------- one step

  // What one element of the input does: which states stay, and which are added.
  datatype Trail = Trail(entered: map<int, int>, spawned: map<int, int>)

  ghost predicate HasSpawned(k: nat, pool: Pool, pool': Pool, L': set<int>, tr: Trail, p: int, y: Node) {
    && p in tr.spawned
    && var a := tr.spawned[p];
       a in L' && |pool| <= a < |pool'| && pool'[a].stub == y && pool'[a].pos == 1 && pool'[a].enter == k
           && pool'[a].parent == p
  }

  ghost predicate HasEntered(k: nat, pool: Pool, pool': Pool, L': set<int>, tr: Trail, j: int, y: Node) {
    && j in tr.entered
    && var a := tr.entered[j];
       a in L' && |pool| <= a < |pool'| && pool'[a].stub == y && pool'[a].enter == k && pool'[a].parent == j
  }

  // What has become of a state that was live before.
  ghost predicate StepOf(t: Net, c: Elem, k: nat, pool: Pool, pool': Pool, L': set<int>, tr: Trail, j: int) {
    0 <= j < |pool| && j < |pool'| &&
    var st, st' := pool[j], pool'[j];
    var b, y := BranchesOf(t, st.stub), WcOf(t, st.stub);
    if IsWild(t, st.stub) then
      && j in L' && st'.stub == st.stub
      && (c in b ==> HasSpawned(k, pool, pool', L', tr, j, b[c]))
    else if st.pos < |LabelOf(t, st.stub)| then
      && (j in L' <==> LabelOf(t, st.stub)[st.pos] == c)
      && (j in L' ==> st'.stub == st.stub && st'.pos == st.pos + 1)
    else
      && (j in L' <==> c in b)
      && (c in b ==> st'.stub == b[c] && st'.pos == 1)
      && (y != null ==>
            && HasEntered(k, pool, pool', L', tr, j, y)
            && (c in BranchesOf(t, y) ==> HasSpawned(k, pool, pool', L', tr, tr.entered[j], BranchesOf(t, y)[c])))
  }

  // Where a state that is live afterwards comes from.
  ghost predicate SourceOk(t: Net, c: Elem, k: nat, pool: Pool, pool': Pool, L: set<int>, L': set<int>, tr: Trail,
        a: int)
  {
    0 <= a < |pool'| &&
    var st, p := pool'[a], pool'[a].parent;
    if a < |pool| then a in L
    else if IsWild(t, st.stub) then
      && st.enter == k && p in L && 0 <= p < |pool| && p in tr.entered && tr.entered[p] == a
      && !IsWild(t, pool[p].stub) && pool[p].pos == |LabelOf(t, pool[p].stub)| && WcOf(t, pool[p].stub) == st.stub
    else
      && st.enter == k && st.pos == 1 && p in tr.spawned && tr.spawned[p] == a && 0 <= p < |pool'|
      && IsWild(t, pool'[p].stub)
      && p in L' && c in BranchesOf(t, pool'[p].stub) && BranchesOf(t, pool'[p].stub)[c] == st.stub
  }

  ghost predicate IsStep(t: Net, c: Elem, k: nat, pool: Pool, pool': Pool, L: set<int>, L': set<int>, tr: Trail) {
    && PoolOk(t, pool') && LinesKept(t, pool, pool')
    && (forall j {:trigger StepOf(t, c, k, pool, pool', L', tr, j)} ::
          j in L ==> StepOf(t, c, k, pool, pool', L', tr, j))
    && (forall a {:trigger SourceOk(t, c, k, pool, pool', L, L', tr, a)} ::
          a in L' ==> SourceOk(t, c, k, pool, pool', L, L', tr, a))
  }

  // The state that stands for an item of the given kind, when j stood for its origin.
  function Target(tr: Trail, kind: Kind, j: int): int {
    match kind
    case Stay => j
    case Advance => j
    case Branch => j
    case Enter => if j in tr.entered then tr.entered[j] else j
    case Leave => if j in tr.spawned then tr.spawned[j] else j
    case Pass => if j in tr.entered && tr.entered[j] in tr.spawned then tr.spawned[tr.entered[j]] else j
  }

  ghost predicate Stepping(t: Net, s: Str, k: nat, pool: Pool, pool': Pool, L: set<int>, L': set<int>, tr: Trail) {
    && IsNet(t) && 1 <= k < |s| && t.w !in s
    && IsExact(t, s, k, pool, L) && IsStep(t, s[k], k, pool, pool', L, L', tr)
  }

  lemma {:induction false} StepFacts(t: Net, s: Str, k: nat, pool: Pool, pool': Pool, L: set<int>, L': set<int>,
        tr: Trail, j: int)
    requires Stepping(t, s, k, pool, pool', L, L', tr) && j in L
    ensures StepOf(t, s[k], k, pool, pool', L', tr, j) && LiveOk(t, s, k, pool, j) && StateOk(t, pool, j)
        && StateOk(t, pool', j)
    ensures SameLine(t, pool, pool', j) && (forall e :: Spans(t, pool', j, e) == Spans(t, pool, j, e))
  {
    assert StepOf(t, s[k], k, pool, pool', L', tr, j) && LiveOk(t, s, k, pool, j);
    assert SameLine(t, pool, pool', j);
    StateIs(t, pool, j);
    StateIs(t, pool', j);
    forall e ensures Spans(t, pool', j, e) == Spans(t, pool, j, e) {
      SpansFrame(t, pool, pool', j, e);
    }
  }

  // The state that a state comes from stands for the origin of its item.
  ghost predicate Traced(t: Net, s: Str, k: nat, pool: Pool, pool': Pool, L: set<int>, tr: Trail, a: int, j: int) {
    && 0 <= a < |pool'| && 0 <= j < |pool| && j in L && pool'[a].enter <= k
    && var it := ItemOf(t, pool', a, k + 1);
       && ItemOf(t, pool, j, k) == Origin(t, k, it) && a == Target(tr, KindOf(t, k, it), j) && Allowed(t, s, k, it)
       && it.node in t.N
       && (IsWild(t, it.node) ==> it.pos == 0 && it.spans != [])
       && (!IsWild(t, it.node) ==> it.pos >= 1 && (KindOf(t, k, it) == Pass ==> it.spans != []))
  }

  lemma {:induction false} TraceOld(t: Net, s: Str, k: nat, pool: Pool, pool': Pool, L: set<int>, L': set<int>,
        tr: Trail, a: int)
    requires Stepping(t, s, k, pool, pool', L, L', tr) && a in L' && a in L
    ensures Traced(t, s, k, pool, pool', L, tr, a, a)
  {
    hide Stepping, Spans, Fits, IsNet;
    StepFacts(t, s, k, pool, pool', L, L', tr, a);
    SpansFacts(t, pool, a, k, k + 1);
    SpansFacts(t, pool, a, k + 1, k);
    NetIs(t, s, k, pool, pool', L, L', tr);
    var st := pool[a];
    if !IsWild(t, st.stub) && st.pos == |LabelOf(t, st.stub)| {
      NetChild(t, st.stub, s[k]);
    }
  }

  lemma {:induction false} NetIs(t: Net, s: Str, k: nat, pool: Pool, pool': Pool, L: set<int>, L': set<int>, tr: Trail)
    requires Stepping(t, s, k, pool, pool', L, L', tr)
    ensures IsNet(t) && 1 <= k < |s| && t.w !in s && s[k] != t.w
  {}

  lemma {:induction false} SourceFacts(t: Net, s: Str, k: nat, pool: Pool, pool': Pool, L: set<int>, L': set<int>,
        tr: Trail, a: int)
    requires Stepping(t, s, k, pool, pool', L, L', tr) && a in L'
    ensures SourceOk(t, s[k], k, pool, pool', L, L', tr, a) && StateOk(t, pool', a)
  {
    assert SourceOk(t, s[k], k, pool, pool', L, L', tr, a);
    StateIs(t, pool', a);
  }

  // A wildcard entered from a label that has been matched to its end.
  lemma {:induction false} TraceEntered(t: Net, s: Str, k: nat, pool: Pool, pool': Pool, L: set<int>, L': set<int>,
        tr: Trail, a: int)
    requires Stepping(t, s, k, pool, pool', L, L', tr) && a in L' && |pool| <= a < |pool'| && IsWild(t, pool'[a].stub)
    ensures 0 <= pool'[a].parent < |pool| && pool'[a].parent in L
    ensures Spans(t, pool', a, k + 1) == Spans(t, pool, pool'[a].parent, k) + [Span(k, k + 1)]
    ensures Spans(t, pool', a, k) == Spans(t, pool, pool'[a].parent, k) + [Span(k, k)]
    ensures Traced(t, s, k, pool, pool', L, tr, a, pool'[a].parent)
  {
    hide Stepping, Spans, Fits, IsNet, StepOf;
    SourceFacts(t, s, k, pool, pool', L, L', tr, a);
    var j := pool'[a].parent;
    StepFacts(t, s, k, pool, pool', L, L', tr, j);
    SpansBelow(t, pool', a, k + 1);
    SpansBelow(t, pool', a, k);
    NetIs(t, s, k, pool, pool', L, L', tr);
    NetNode(t, pool[j].stub);
    if t.w in BranchesOf(t, pool[j].stub) {
      NetChild(t, pool[j].stub, t.w);
    }
    assert Init(Spans(t, pool', a, k + 1)) == Spans(t, pool, j, k);
  }

  // A label entered from a wildcard that was live before.
  lemma {:induction false} TraceSpawned(t: Net, s: Str, k: nat, pool: Pool, pool': Pool, L: set<int>, L': set<int>,
        tr: Trail, a: int)
    requires Stepping(t, s, k, pool, pool', L, L', tr) && a in L' && |pool| <= a < |pool'| && !IsWild(t, pool'[a].stub)
    requires pool'[a].parent in L
    ensures Traced(t, s, k, pool, pool', L, tr, a, pool'[a].parent)
  {
    hide Stepping, Spans, Fits, IsNet;
    SourceFacts(t, s, k, pool, pool', L, L', tr, a);
    var p := pool'[a].parent;
    StepFacts(t, s, k, pool, pool', L, L', tr, p);
    SpansBelow(t, pool', a, k + 1);
    SpansFacts(t, pool, p, k, k);
    NetIs(t, s, k, pool, pool', L, L', tr);
    NetChild(t, pool'[p].stub, s[k]);
  }

  // A label entered from a wildcard that was entered just now.
  lemma {:induction false} TracePassed(t: Net, s: Str, k: nat, pool: Pool, pool': Pool, L: set<int>, L': set<int>,
        tr: Trail, a: int)
    requires Stepping(t, s, k, pool, pool', L, L', tr) && a in L' && |pool| <= a < |pool'| && !IsWild(t, pool'[a].stub)
    requires |pool| <= pool'[a].parent
    ensures pool'[a].parent < |pool'| && Traced(t, s, k, pool, pool', L, tr, a, pool'[pool'[a].parent].parent)
  {
    hide Stepping, Spans, Fits, IsNet, StepOf;
    SourceFacts(t, s, k, pool, pool', L, L', tr, a);
    var p := pool'[a].parent;
    TraceEntered(t, s, k, pool, pool', L, L', tr, p);
    SourceFacts(t, s, k, pool, pool', L, L', tr, p);
    var j := pool'[p].parent;
    StepFacts(t, s, k, pool, pool', L, L', tr, j);
    SpansBelow(t, pool', a, k + 1);
    NetIs(t, s, k, pool, pool', L, L', tr);
    NetChild(t, pool'[p].stub, s[k]);
    NetNode(t, pool[j].stub);
    if t.w in BranchesOf(t, pool[j].stub) {
      NetChild(t, pool[j].stub, t.w);
    }
    assert Init(Spans(t, pool', p, k)) == Spans(t, pool, j, k);
  }

  lemma {:induction false} Trace(t: Net, s: Str, k: nat, pool: Pool, pool': Pool, L: set<int>, L': set<int>, tr: Trail,
        a: int)
    returns (j: int)
    requires Stepping(t, s, k, pool, pool', L, L', tr) && a in L'
    ensures Traced(t, s, k, pool, pool', L, tr, a, j)
  {
    hide Stepping, Traced, IsNet;
    SourceFacts(t, s, k, pool, pool', L, L', tr, a);
    if a < |pool| {
      TraceOld(t, s, k, pool, pool', L, L', tr, a);
      j := a;
    } else if IsWild(t, pool'[a].stub) {
      TraceEntered(t, s, k, pool, pool', L, L', tr, a);
      j := pool'[a].parent;
    } else if pool'[a].parent < |pool| {
      SourceFacts(t, s, k, pool, pool', L, L', tr, pool'[a].parent);
      TraceSpawned(t, s, k, pool, pool', L, L', tr, a);
      j := pool'[a].parent;
    } else {
      TracePassed(t, s, k, pool, pool', L, L', tr, a);
      j := pool'[pool'[a].parent].parent;
    }
  }

  lemma {:induction false} StepIsSound(t: Net, s: Str, k: nat, pool: Pool, pool': Pool, L: set<int>, L': set<int>,
        tr: Trail, a: int)
    requires Stepping(t, s, k, pool, pool', L, L', tr) && a in L'
    ensures LiveOk(t, s, k + 1, pool', a)
  {
    hide Stepping, IsNet, Spans, Fits, ItemOk, Allowed, Origin, StepOf;
    var j := Trace(t, s, k, pool, pool', L, L', tr, a);
    StepFacts(t, s, k, pool, pool', L, L', tr, j);
    NetIs(t, s, k, pool, pool', L, L', tr);
    StepOk(t, s, k, ItemOf(t, pool', a, k + 1));
  }

  lemma {:induction false} StepIsUnique(t: Net, s: Str, k: nat, pool: Pool, pool': Pool, L: set<int>, L': set<int>,
        tr: Trail, a: int, b: int)
    requires Stepping(t, s, k, pool, pool', L, L', tr) && a in L' && b in L' && SameItem(t, k + 1, pool', a, b)
    ensures a == b
  {
    hide IsNet, Spans, Fits, ItemOk, Allowed, Origin, StepOf, IsStep;
    var i := Trace(t, s, k, pool, pool', L, L', tr, a);
    var j := Trace(t, s, k, pool, pool', L, L', tr, b);
    assert SameItem(t, k, pool, i, j);
  }

  // The state that stands for an item is where the kind of step says.
  lemma {:induction false} StepIsComplete(t: Net, s: Str, k: nat, pool: Pool, pool': Pool, L: set<int>, L': set<int>,
        tr: Trail, it: Item)
    requires Stepping(t, s, k, pool, pool', L, L', tr) && ItemOk(t, s, k + 1, it)
    ensures Has(t, k + 1, pool', L', it)
  {
    hide IsNet, Spans, Fits, ItemOk, Allowed, Origin, StepOf, IsStep;
    OriginOk(t, s, k, it);
    var o := Origin(t, k, it);
    assert Has(t, k, pool, L, o);
    var j :| j in L && 0 <= j < |pool| && ItemOf(t, pool, j, k) == o;
    Reached(t, s, k, pool, pool', L, L', tr, it, j);
  }

  lemma {:induction false} Reached(t: Net, s: Str, k: nat, pool: Pool, pool': Pool, L: set<int>, L': set<int>,
        tr: Trail, it: Item, j: int)
    requires Stepping(t, s, k, pool, pool', L, L', tr) && ItemOk(t, s, k + 1, it) && Allowed(t, s, k, it)
    requires j in L && 0 <= j < |pool| && ItemOf(t, pool, j, k) == Origin(t, k, it)
    ensures Has(t, k + 1, pool', L', it)
  {
    hide Stepping, IsNet, Spans, Fits, ItemOk, Allowed, Origin, StepOf, IsStep;
    match KindOf(t, k, it)
    case Stay => ReachedOld(t, s, k, pool, pool', L, L', tr, it, j);
    case Advance => ReachedOld(t, s, k, pool, pool', L, L', tr, it, j);
    case Branch => ReachedOld(t, s, k, pool, pool', L, L', tr, it, j);
    case Enter => ReachedEnter(t, s, k, pool, pool', L, L', tr, it, j);
    case Leave => ReachedLeave(t, s, k, pool, pool', L, L', tr, it, j);
    case Pass => ReachedPass(t, s, k, pool, pool', L, L', tr, it, j);
  }

  lemma {:induction false} ReachedOld(t: Net, s: Str, k: nat, pool: Pool, pool': Pool, L: set<int>, L': set<int>,
        tr: Trail, it: Item, j: int)
    requires Stepping(t, s, k, pool, pool', L, L', tr) && ItemOk(t, s, k + 1, it) && Allowed(t, s, k, it)
    requires j in L && 0 <= j < |pool| && ItemOf(t, pool, j, k) == Origin(t, k, it)
    requires KindOf(t, k, it) in {Stay, Advance, Branch}
    ensures Has(t, k + 1, pool', L', it)
  {
    hide Stepping, IsNet, Spans, Fits;
    StepFacts(t, s, k, pool, pool', L, L', tr, j);
    SpansFacts(t, pool, j, k + 1, k);
    SpansFacts(t, pool, j, k, k + 1);
    NetIs(t, s, k, pool, pool', L, L', tr);
    NetNode(t, it.node);
    if IsWild(t, it.node) {
      assert it.spans == Init(it.spans) + [Last(it.spans)];
      assert Init(Origin(t, k, it).spans) == Init(it.spans);
    }
    assert ItemOf(t, pool', j, k + 1) == it;
  }

  lemma {:induction false} ReachedEnter(t: Net, s: Str, k: nat, pool: Pool, pool': Pool, L: set<int>, L': set<int>,
        tr: Trail, it: Item, j: int)
    requires Stepping(t, s, k, pool, pool', L, L', tr) && ItemOk(t, s, k + 1, it) && Allowed(t, s, k, it)
    requires j in L && 0 <= j < |pool| && ItemOf(t, pool, j, k) == Origin(t, k, it) && KindOf(t, k, it) == Enter
    ensures Has(t, k + 1, pool', L', it)
  {
    hide Stepping, IsNet, Spans, Fits;
    StepFacts(t, s, k, pool, pool', L, L', tr, j);
    NetIs(t, s, k, pool, pool', L, L', tr);
    assert it.spans == Init(it.spans) + [Last(it.spans)];
    var a := tr.entered[j];
    TraceEntered(t, s, k, pool, pool', L, L', tr, a);
    assert ItemOf(t, pool', a, k + 1) == it;
  }

  lemma {:induction false} ReachedLeave(t: Net, s: Str, k: nat, pool: Pool, pool': Pool, L: set<int>, L': set<int>,
        tr: Trail, it: Item, j: int)
    requires Stepping(t, s, k, pool, pool', L, L', tr) && ItemOk(t, s, k + 1, it) && Allowed(t, s, k, it)
    requires j in L && 0 <= j < |pool| && ItemOf(t, pool, j, k) == Origin(t, k, it) && KindOf(t, k, it) == Leave
    ensures Has(t, k + 1, pool', L', it)
  {
    hide Stepping, IsNet, Spans, Fits;
    StepFacts(t, s, k, pool, pool', L, L', tr, j);
    NetIs(t, s, k, pool, pool', L, L', tr);
    var a := tr.spawned[j];
    SourceFacts(t, s, k, pool, pool', L, L', tr, a);
    SpansBelow(t, pool', a, k + 1);
    assert ItemOf(t, pool', a, k + 1) == it;
  }

  lemma {:induction false} ReachedPass(t: Net, s: Str, k: nat, pool: Pool, pool': Pool, L: set<int>, L': set<int>,
        tr: Trail, it: Item, j: int)
    requires Stepping(t, s, k, pool, pool', L, L', tr) && ItemOk(t, s, k + 1, it) && Allowed(t, s, k, it)
    requires j in L && 0 <= j < |pool| && ItemOf(t, pool, j, k) == Origin(t, k, it) && KindOf(t, k, it) == Pass
    ensures Has(t, k + 1, pool', L', it)
  {
    hide Stepping, IsNet, Spans, Fits;
    StepFacts(t, s, k, pool, pool', L, L', tr, j);
    NetIs(t, s, k, pool, pool', L, L', tr);
    PassSpans(t, s, k, it);
    var b := tr.entered[j];
    TraceEntered(t, s, k, pool, pool', L, L', tr, b);
    var a := tr.spawned[b];
    SourceFacts(t, s, k, pool, pool', L, L', tr, a);
    SpansBelow(t, pool', a, k + 1);
    assert ItemOf(t, pool', a, k + 1) == it;
  }

  // A passed wildcard leaves a stretch behind.
  lemma {:induction false} PassSpans(t: Net, s: Str, k: nat, it: Item)
    requires IsNet(t) && 1 <= k < |s| && t.w !in s && ItemOk(t, s, k + 1, it) && KindOf(t, k, it) == Pass
    ensures it.spans != [] && it.spans == Init(it.spans) + [Last(it.spans)]
  {
    hide IsNet, Fits;
    NetNode(t, it.node);
    var q := ParentOf(t, it.node);
    NetNode(t, q);
    UptoFacts(t, it.node, 1);
    UptoFacts(t, q, 1);
    FitsSnoc(t.w, PathOf(t, q), LabelOf(t, it.node)[0], s, k + 1, it.spans);
    FitsSnoc(t.w, Upto(t, q, 0), t.w, s, k, it.spans);
  }

  // Each step keeps the correspondence between live states and partial matches.
  lemma {:induction false} StepIsExact(t: Net, s: Str, k: nat, pool: Pool, pool': Pool, L: set<int>, L': set<int>,
        tr: Trail)
    requires Stepping(t, s, k, pool, pool', L, L', tr)
    ensures IsExact(t, s, k + 1, pool', L')
  {
    hide Stepping, LiveOk, Has, SameItem, ItemOk, IsNet, PoolOk;
    var k' := k + 1;
    forall a | a in L' ensures LiveOk(t, s, k', pool', a) {
      StepIsSound(t, s, k, pool, pool', L, L', tr, a);
    }
    forall it | ItemOk(t, s, k', it) ensures Has(t, k', pool', L', it) {
      StepIsComplete(t, s, k, pool, pool', L, L', tr, it);
    }
    forall a, b | a in L' && b in L' && SameItem(t, k', pool', a, b) ensures a == b {
      StepIsUnique(t, s, k, pool, pool', L, L', tr, a, b);
    }
    PoolStays(t, s, k, pool, pool', L, L', tr);
  }

  lemma {:induction false} PoolStays(t: Net, s: Str, k: nat, pool: Pool, pool': Pool, L: set<int>, L': set<int>,
        tr: Trail)
    requires Stepping(t, s, k, pool, pool', L, L', tr)
    ensures PoolOk(t, pool')
  {}
}
