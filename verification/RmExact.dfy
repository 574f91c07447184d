// For an input without the wildcard, the answer is right: live states and
// partial matches correspond one to one after every element, and at the end the
// states that are kept correspond to the complete matches.
module RmExact {
  import opened RtLinks
  import opened RmItems
  import opened RmStates
  import opened RmLoop
  import opened RmEnds
  import opened RmJudge
  import opened RmRun

  // The judge refuses none of the branches in this tree, except perhaps those
  // into wildcards.
  ghost predicate Agrees(t: Net, judge: Judge) {
    forall x, c {:trigger BranchesOf(t, x)[c]} ::
      x in t.N && c in BranchesOf(t, x) && c != t.w ==> judge(x, BranchesOf(t, x)[c])
  }

  predicate AreDistinct(s: seq<int>) {
    forall i, j :: 0 <= i < j < |s| ==> s[i] != s[j]
  }

  ghost function AsSet(s: seq<int>): set<int> {
    set i | i in s
  }

  // Each complete match is there exactly once, and nothing else.
  ghost predicate IsAnswer(t: Net, s: Str, hits: seq<Hit>) {
    && (forall i {:trigger hits[i]} :: 0 <= i < |hits| ==> HitOk(t, s, hits[i]))
    && (forall h {:trigger h in hits} :: HitOk(t, s, h) ==> h in hits)
    && (forall i, j :: 0 <= i < j < |hits| ==> hits[i] != hits[j])
  }

  // What a finished label has entered.
  ghost predicate HasGoneIn(t: Net, c: Elem, k: nat, pool0: Pool, pool: Pool, A: set<int>, tr: Trail, j: int) {
    0 <= j < |pool0| &&
    var y := WcOf(t, pool0[j].stub);
    y != null ==>
      && HasEntered(k, pool0, pool, A, tr, j, y)
      && (c in BranchesOf(t, y) ==> HasSpawned(k, pool0, pool, A, tr, tr.entered[j], BranchesOf(t, y)[c]))
  }

  lemma {:induction false} ResultIndices(t: Net, s: Str, pool: Pool, F: set<int>)
    requires IsResult(t, s, pool, F)
    ensures PoolOk(t, pool) && forall i :: i in F ==> 0 <= i < |pool|
  {
    forall i | i in F ensures 0 <= i < |pool| {
      assert FoundOk(t, s, pool, i);
    }
  }

  lemma {:induction false} IndicesFacts(n: nat)
    ensures |Indices(n)| == n && (forall i :: 0 <= i < n ==> Indices(n)[i] == i)
        && (forall i :: i in Indices(n) <==> 0 <= i < n)
    ensures forall i, j :: 0 <= i < j < |Indices(n)| ==> Indices(n)[i] != Indices(n)[j]
  {
    if n > 0 {
      IndicesFacts(n - 1);
    }
  }

  lemma {:induction false} AsSetIs(s: seq<int>, A: set<int>)
    requires forall i :: i in A <==> i in s
    ensures AsSet(s) == A
  {
    forall i ensures i in AsSet(s) <==> i in A {
      assert i in AsSet(s) <==> i in s;
    }
    SameSet(AsSet(s), A);
  }

  lemma {:induction false} DropFirstFacts(s: seq<int>, x: int)
    requires AreDistinct(s)
    ensures AreDistinct(DropFirst(s, x)) && forall i :: i in DropFirst(s, x) <==> i in s && i != x
  {
    if s != [] {
      assert s == [s[0]] + s[1..];
      forall i | 0 <= i < |s[1..]| ensures s[1..][i] != s[0] {}
      if s[0] != x {
        DropFirstFacts(s[1..], x);
        var r := DropFirst(s[1..], x);
        forall i | 0 <= i < |r| ensures r[i] != s[0] {
          assert r[i] in r;
        }
      }
    }
  }

  lemma {:induction false} EndLists(t: Net, c: Elem, k: nat, pool0: Pool, live: seq<int>, L: set<int>, pool: Pool,
        add: seq<int>, rem: seq<int>, A: set<int>, tr: Trail)
    requires Mid(t, c, k, pool0, live, L, |live|, |live|, pool, add, rem, A, tr)
    ensures AreDistinct(live + add) && (forall i :: i in A <==> i in live + add && i !in rem)
    ensures forall i :: i in A ==> 0 <= i < |pool| && !pool[i].listed
  {
    assert live[..|live|] == live;
    assert ListsOk(pool0, live, |live|, pool, add, rem, A) && Unlisted(pool, A);
    forall i ensures i in A <==> i in live + add && i !in rem {
      assert i in A <==> (i in live && i !in rem) || i in add;
    }
    var all := live + add;
    forall i, j | 0 <= i < j < |all| ensures all[i] != all[j] {
      if i < |live| <= j {
        assert live[i] in live && add[j - |live|] in add;
      }
    }
  }

  lemma {:induction false} ExactPool(t: Net, s: Str, k: nat, pool: Pool, L: set<int>)
    requires IsExact(t, s, k, pool, L)
    ensures PoolOk(t, pool)
  {}

  lemma {:induction false} PosIsInside(t: Net, s: Str, k: nat, pool0: Pool, live: seq<int>, L: set<int>, r: nat,
        pool: Pool, add: seq<int>, rem: seq<int>, A: set<int>, tr: Trail)
    requires k < |s| && Mid(t, s[k], k, pool0, live, L, r, r, pool, add, rem, A, tr) && r < |live|
        && IsExact(t, s, k, pool0, L)
    ensures 0 <= live[r] < |pool| && (!IsWild(t, pool[live[r]].stub)
        ==> 1 <= pool[live[r]].pos <= |LabelOf(t, pool[live[r]].stub)|)
  {
    MidFacts(t, s[k], k, pool0, live, L, r, r, pool, add, rem, A, tr);
    assert LiveOk(t, s, k, pool0, live[r]);
  }

  lemma {:induction false} NewIndex(t: Net, c: Elem, k: nat, pool0: Pool, live: seq<int>, L: set<int>, r: nat,
        pool: Pool, add: seq<int>, rem: seq<int>, A: set<int>, tr: Trail, a: int)
    requires Mid(t, c, k, pool0, live, L, r, r, pool, add, rem, A, tr) && r < |live| && a == |pool|
    ensures a !in live[r + 1..] && a !in tr.spawned
  {
    var rest := live[r + 1..];
    forall x | x in rest ensures x < |pool| {
      assert x in live;
    }
  }

  lemma {:induction false} StartUnlisted(t: Net, c: Elem)
    ensures forall i :: 0 <= i < |StartPool(t, c)| ==> !StartPool(t, c)[i].listed
  {}

  lemma {:induction false} ResultIsAnswer(t: Net, s: Str, pool: Pool, live: seq<int>, hits: seq<Hit>)
    requires IsResult(t, s, pool, AsSet(live)) && AreDistinct(live) && |hits| == |live|
    requires forall i {:trigger hits[i]} :: 0 <= i < |live| ==>
               0 <= live[|live| - 1 - i] < |pool| && hits[i] == HitOf(t, pool, live[|live| - 1 - i], |s|)
    ensures IsAnswer(t, s, hits)
  {
    var F, n := AsSet(live), |live|;
    forall i | 0 <= i < n ensures HitOk(t, s, hits[i]) {
      assert live[n - 1 - i] in F;
      assert FoundOk(t, s, pool, live[n - 1 - i]);
    }
    forall h | HitOk(t, s, h) ensures h in hits {
      assert Found(t, s, pool, F, h);
      var x :| x in F && 0 <= x < |pool| && HitOf(t, pool, x, |s|) == h;
      var y :| 0 <= y < n && live[y] == x;
      assert hits[n - 1 - y] == h;
    }
    forall i, j | 0 <= i < j < n ensures hits[i] != hits[j] {
      var a, b := live[n - 1 - i], live[n - 1 - j];
      assert a in F && b in F && a != b;
      assert SameHit(t, s, pool, a, b) ==> a == b;
    }
  }

  // ------------------------------------------------------------- one element

  ghost predicate Reading(t: Net, judge: Judge, c: Elem, k: nat, pool0: Pool, live: seq<int>, L: set<int>, r: nat,
        q: nat, v: Work, A: set<int>, tr: Trail)
  {
    && IsNet(t) && Agrees(t, judge) && c != t.w && r < |live| && (q == r || q == r + 1)
    && Mid(t, c, k, pool0, live, L, r, q, v.pool, v.add, v.rem, A, tr)
  }

  // A wildcard has a label below it that begins with the element, or has none.
  lemma {:induction false} ChildIsKept(t: Net, judge: Judge, c: Elem, k: nat, pool0: Pool, live: seq<int>, L: set<int>,
        r: nat, q: nat, v: Work, A: set<int>, tr: Trail, p: int)
    returns (A': set<int>, tr': Trail)
    requires Reading(t, judge, c, k, pool0, live, L, r, q, v, A, tr)
    requires 0 <= p < |v.pool| && p in A && IsWild(t, v.pool[p].stub) && p !in tr.spawned && p !in live[r + 1..]
        && v.pool[p].stub in t.N
    ensures var v', b := AfterChild(t, judge, c, k, v, p), BranchesOf(t, v.pool[p].stub);
            if c in b then
              && v'.pool == Spawned(v.pool, p, b[c], k) && A' == A + {|v.pool|} && tr' == SpawnedTrail(tr, p, |v.pool|)
              && HasSpawned(k, pool0, v'.pool, A', tr', p, b[c])
              && Reading(t, judge, c, k, pool0, live, L, r, r + 1, v', A', tr')
            else v' == v && A' == A && tr' == tr
  {
    hide IsNet, Mid;
    A', tr' := A, tr;
    var b := BranchesOf(t, v.pool[p].stub);
    if c in b {
      SpawnKeeps(t, c, k, pool0, live, L, r, q, v.pool, v.add, v.rem, A, tr, p, b[c]);
      A', tr' := A + {|v.pool|}, SpawnedTrail(tr, p, |v.pool|);
    }
  }

  lemma {:induction false} WildIsKept(t: Net, judge: Judge, c: Elem, k: nat, pool0: Pool, live: seq<int>, L: set<int>,
        r: nat, v: Work, A: set<int>, tr: Trail)
    returns (A': set<int>, tr': Trail)
    requires Reading(t, judge, c, k, pool0, live, L, r, r, v, A, tr)
    requires 0 <= live[r] < |v.pool| && IsWild(t, v.pool[live[r]].stub)
    ensures var v' := AfterChild(t, judge, c, k, v, live[r]);
            Mid(t, c, k, pool0, live, L, r + 1, r + 1, v'.pool, v'.add, v'.rem, A', tr')
  {
    hide IsNet, Mid, Agrees, AfterChild;
    var j := live[r];
    MidFacts(t, c, k, pool0, live, L, r, r, v.pool, v.add, v.rem, A, tr);
    A', tr' := ChildIsKept(t, judge, c, k, pool0, live, L, r, r, v, A, tr, j);
    var v', q := AfterChild(t, judge, c, k, v, j), if c in BranchesOf(t, v.pool[j].stub) then r + 1 else r;
    MidFacts(t, c, k, pool0, live, L, r, q, v'.pool, v'.add, v'.rem, A', tr');
    assert Moved(v'.pool, j, v'.pool[j].stub, v'.pool[j].pos) == v'.pool;
    MoveKeeps(t, c, k, pool0, live, L, r, q, v'.pool, v'.add, v'.rem, A', tr', j, v'.pool[j].stub, v'.pool[j].pos);
  }

  // A label is entered from a wildcard, which is therefore the nearest one.
  lemma {:induction false} RemovalIs(t: Net, v: Work, j: int)
    requires PoolOk(t, v.pool) && 0 <= j < |v.pool| && !IsWild(t, v.pool[j].stub) && !v.pool[j].listed
    ensures AfterRemoval(t, v, j) == Work(Removed(v.pool, j), v.add, [j] + v.rem)
  {
    StateIs(t, v.pool, j);
  }

  lemma {:induction false} InsideIsKept(t: Net, judge: Judge, c: Elem, k: nat, pool0: Pool, live: seq<int>, L: set<int>,
        r: nat, v: Work, A: set<int>, tr: Trail)
    returns (A': set<int>)
    requires Reading(t, judge, c, k, pool0, live, L, r, r, v, A, tr)
    requires 0 <= live[r] < |v.pool| && !IsWild(t, v.pool[live[r]].stub)
    requires v.pool[live[r]].pos < |LabelOf(t, v.pool[live[r]].stub)|
    ensures var v' := AfterState(t, judge, c, k, v, live[r]);
            Mid(t, c, k, pool0, live, L, r + 1, r + 1, v'.pool, v'.add, v'.rem, A', tr)
  {
    hide IsNet, Mid, Agrees, AfterRemoval;
    var j := live[r];
    MidFacts(t, c, k, pool0, live, L, r, r, v.pool, v.add, v.rem, A, tr);
    if LabelOf(t, v.pool[j].stub)[v.pool[j].pos] == c {
      A' := A;
      MoveKeeps(t, c, k, pool0, live, L, r, r, v.pool, v.add, v.rem, A, tr, j, v.pool[j].stub, v.pool[j].pos + 1);
    } else {
      A' := A - {j};
      RemovalIs(t, v, j);
      RemoveKeeps(t, c, k, pool0, live, L, r, r, v.pool, v.add, v.rem, A, tr, j);
    }
  }

  // The wildcard above a live label is never dropped.
  lemma {:induction false} DropIs(t: Net, v: Work, A: set<int>, j: int)
    requires PoolOk(t, v.pool) && CountsOk(t, v.pool, A) && 0 <= j < |v.pool| && j in A && !IsWild(t, v.pool[j].stub)
    ensures AfterDrop(t, v, j) == v
  {
    if v.pool[j].parent >= 0 {
      NeverDropped(t, v.pool, A, j);
    }
  }

  lemma {:induction false} EnteringIsKept(t: Net, judge: Judge, c: Elem, k: nat, pool0: Pool, live: seq<int>,
        L: set<int>, r: nat, v: Work, A: set<int>, tr: Trail)
    returns (A': set<int>, tr': Trail)
    requires Reading(t, judge, c, k, pool0, live, L, r, r, v, A, tr) && AtFullLabel(t, v.pool, live[r])
    ensures var v' := AfterEntering(t, judge, c, k, v, live[r], WcOf(t, v.pool[live[r]].stub));
            && Reading(t, judge, c, k, pool0, live, L, r, r + 1, v', A', tr')
            && HasGoneIn(t, c, k, pool0, v'.pool, A', tr', live[r])
  {
    hide IsNet, Mid, Agrees, AfterChild, AfterDrop;
    var j, a, y := live[r], |v.pool|, WcOf(t, v.pool[live[r]].stub);
    MidFacts(t, c, k, pool0, live, L, r, r, v.pool, v.add, v.rem, A, tr);
    NetNode(t, v.pool[j].stub);
    NetChild(t, v.pool[j].stub, t.w);
    EnterKeeps(t, c, k, pool0, live, L, r, v.pool, v.add, v.rem, A, tr, j, y);
    var A1, tr1 := A + {a}, EnteredTrail(tr, j, a);
    var v1 := Work(Entered(v.pool, j, y, k), [a] + v.add, v.rem);
    MidFacts(t, c, k, pool0, live, L, r, r + 1, v1.pool, v1.add, v1.rem, A1, tr1);
    DropIs(t, v1, A1, j);
    NewIndex(t, c, k, pool0, live, L, r, v.pool, v.add, v.rem, A, tr, a);
    A', tr' := ChildIsKept(t, judge, c, k, pool0, live, L, r, r + 1, v1, A1, tr1, a);
  }

  lemma {:induction false} BranchIsKept(t: Net, judge: Judge, c: Elem, k: nat, pool0: Pool, live: seq<int>, L: set<int>,
        r: nat, q: nat, v: Work, A: set<int>, tr: Trail)
    returns (A': set<int>)
    requires Reading(t, judge, c, k, pool0, live, L, r, q, v, A, tr)
    requires 0 <= live[r] < |v.pool| && !IsWild(t, v.pool[live[r]].stub)
    requires v.pool[live[r]].pos == |LabelOf(t, v.pool[live[r]].stub)|
        && HasGoneIn(t, c, k, pool0, v.pool, A, tr, live[r])
    ensures var v' := AfterBranch(t, judge, c, v, live[r]);
            Mid(t, c, k, pool0, live, L, r + 1, r + 1, v'.pool, v'.add, v'.rem, A', tr)
  {
    hide IsNet, Mid, AfterRemoval;
    var j := live[r];
    MidFacts(t, c, k, pool0, live, L, r, q, v.pool, v.add, v.rem, A, tr);
    var b := BranchesOf(t, v.pool[j].stub);
    if c in b {
      NetChild(t, v.pool[j].stub, c);
      A' := A;
      MoveKeeps(t, c, k, pool0, live, L, r, q, v.pool, v.add, v.rem, A, tr, j, b[c], 1);
    } else {
      A' := A - {j};
      RemovalIs(t, v, j);
      RemoveKeeps(t, c, k, pool0, live, L, r, q, v.pool, v.add, v.rem, A, tr, j);
    }
  }

  lemma {:induction false} EndIsKept(t: Net, judge: Judge, c: Elem, k: nat, pool0: Pool, live: seq<int>, L: set<int>,
        r: nat, v: Work, A: set<int>, tr: Trail)
    returns (A': set<int>, tr': Trail)
    requires Reading(t, judge, c, k, pool0, live, L, r, r, v, A, tr)
    requires 0 <= live[r] < |v.pool| && !IsWild(t, v.pool[live[r]].stub)
    requires v.pool[live[r]].pos == |LabelOf(t, v.pool[live[r]].stub)|
    ensures var v' := AfterState(t, judge, c, k, v, live[r]);
            Mid(t, c, k, pool0, live, L, r + 1, r + 1, v'.pool, v'.add, v'.rem, A', tr')
  {
    hide IsNet, Mid, Agrees, AfterEntering, AfterBranch;
    var j, y := live[r], WcOf(t, v.pool[live[r]].stub);
    MidFacts(t, c, k, pool0, live, L, r, r, v.pool, v.add, v.rem, A, tr);
    if y == null {
      tr' := tr;
      A' := BranchIsKept(t, judge, c, k, pool0, live, L, r, r, v, A, tr);
    } else {
      A', tr' := EnteringIsKept(t, judge, c, k, pool0, live, L, r, v, A, tr);
      var v1 := AfterEntering(t, judge, c, k, v, j, y);
      MidFacts(t, c, k, pool0, live, L, r, r + 1, v1.pool, v1.add, v1.rem, A', tr');
      A' := BranchIsKept(t, judge, c, k, pool0, live, L, r, r + 1, v1, A', tr');
    }
  }

  // One live state and one element: every partial match that comes from the state
  // is now live, and no other.
  lemma {:induction false} StateIsKept(t: Net, judge: Judge, s: Str, k: nat, pool0: Pool, live: seq<int>, L: set<int>,
        r: nat, v: Work, A: set<int>, tr: Trail)
    returns (A': set<int>, tr': Trail)
    requires k < |s| && Reading(t, judge, s[k], k, pool0, live, L, r, r, v, A, tr) && IsExact(t, s, k, pool0, L)
    ensures var v' := AfterState(t, judge, s[k], k, v, live[r]);
            Mid(t, s[k], k, pool0, live, L, r + 1, r + 1, v'.pool, v'.add, v'.rem, A', tr')
  {
    hide IsNet, Mid, IsExact, Agrees, AfterChild, AfterBranch, AfterEntering, AfterRemoval;
    var j := live[r];
    PosIsInside(t, s, k, pool0, live, L, r, v.pool, v.add, v.rem, A, tr);
    if IsWild(t, v.pool[j].stub) {
      A', tr' := WildIsKept(t, judge, s[k], k, pool0, live, L, r, v, A, tr);
    } else if v.pool[j].pos == |LabelOf(t, v.pool[j].stub)| {
      A', tr' := EndIsKept(t, judge, s[k], k, pool0, live, L, r, v, A, tr);
    } else {
      tr' := tr;
      A' := InsideIsKept(t, judge, s[k], k, pool0, live, L, r, v, A, tr);
    }
  }

  // The live states stand for the partial matches of the first k elements.
  ghost predicate IsLive(t: Net, judge: Judge, s: Str, k: nat, g: Config) {
    && IsNet(t) && Agrees(t, judge) && t.w !in s && IsExact(t, s, k, g.pool, AsSet(g.live))
    && CountsOk(t, g.pool, AsSet(g.live))
    && (forall i :: i in g.live ==> 0 <= i < |g.pool| && !g.pool[i].listed)
    && AreDistinct(g.live)
  }

  lemma {:induction false} StatesAreKept(t: Net, judge: Judge, s: Str, k: nat, g: Config, r: nat)
    returns (A: set<int>, tr: Trail)
    requires IsLive(t, judge, s, k, g) && 1 <= k < |s| && r <= |g.live|
    ensures var v := AfterStates(t, judge, s[k], k, g, r);
            Mid(t, s[k], k, g.pool, g.live, AsSet(g.live), r, r, v.pool, v.add, v.rem, A, tr)
    decreases r
  {
    hide IsNet, Mid, IsExact, CountsOk, Agrees, AfterState;
    var L := AsSet(g.live);
    if r == 0 {
      A, tr := L, Trail(map[], map[]);
      ExactPool(t, s, k, g.pool, L);
      MidStarts(t, s[k], k, g.pool, g.live, L);
    } else {
      A, tr := StatesAreKept(t, judge, s, k, g, r - 1);
      var v := AfterStates(t, judge, s[k], k, g, r - 1);
      A, tr := StateIsKept(t, judge, s, k, g.pool, g.live, L, r - 1, v, A, tr);
    }
  }

  lemma {:induction false} DroppedAll(s: seq<int>, rem: seq<int>)
    requires AreDistinct(s)
    ensures AreDistinct(DropAll(s, rem)) && forall i :: i in DropAll(s, rem) <==> i in s && i !in rem
    decreases |rem|
  {
    hide AreDistinct;
    if rem != [] {
      var rest, x := rem[..|rem| - 1], rem[|rem| - 1];
      assert rem == rest + [x];
      DroppedAll(s, rest);
      DropFirstFacts(DropAll(s, rest), x);
    }
  }

  // One element: the live states are exactly the partial matches again.
  lemma {:induction false} CharIsKept(t: Net, judge: Judge, s: Str, k: nat, g: Config)
    requires IsLive(t, judge, s, k, g) && 1 <= k < |s|
    ensures IsLive(t, judge, s, k + 1, AfterChar(t, judge, s[k], k, g))
  {
    hide IsNet, Mid, IsExact, IsStep, CountsOk, PoolOk, Agrees, AfterStates, AreDistinct;
    var L, c := AsSet(g.live), s[k];
    var A, tr := StatesAreKept(t, judge, s, k, g, |g.live|);
    var v := AfterStates(t, judge, c, k, g, |g.live|);
    MidEnds(t, c, k, g.pool, g.live, L, v.pool, v.add, v.rem, A, tr);
    StepIsExact(t, s, k, g.pool, v.pool, L, A, tr);
    EndLists(t, c, k, g.pool, g.live, L, v.pool, v.add, v.rem, A, tr);
    DroppedAll(g.live + v.add, v.rem);
    AsSetIs(DropAll(g.live + v.add, v.rem), A);
  }

  // ---------------------------------------------------------------- the beginning

  lemma {:induction false} FirstStatesAre(t: Net, judge: Judge, c: Elem)
    requires IsNet(t) && Agrees(t, judge) && c != t.w
    ensures FirstStates(t, judge, c) == StartPool(t, c)
  {
    hide IsNet;
    RootInNet(t);
    StartNodes(t, c);
  }

  lemma {:induction false} InputIsLive(t: Net, judge: Judge, s: Str, k: nat)
    requires IsNet(t) && Agrees(t, judge) && t.w !in s && 1 <= k <= |s|
    ensures IsLive(t, judge, s, k, AfterInput(t, judge, s, k))
    decreases k
  {
    hide IsNet, StartPool, FirstStates, IsExact, CountsOk, Agrees, AfterChar;
    if k == 1 {
      var c, pool := s[0], FirstStates(t, judge, s[0]);
      FirstStatesAre(t, judge, c);
      IndicesFacts(|pool|);
      AsSetIs(Indices(|pool|), AsSet(Indices(|pool|)));
      StartIsExact(t, s, AsSet(Indices(|pool|)));
      StartCounts(t, c, AsSet(Indices(|pool|)));
      StartUnlisted(t, c);
    } else {
      InputIsLive(t, judge, s, k - 1);
      CharIsKept(t, judge, s, k - 1, AfterInput(t, judge, s, k - 1));
    }
  }

  // ---------------------------------------------------------------------- the end

  lemma {:induction false} TailIsKept(t: Net, n: nat, pool0: Pool, live: seq<int>, L: set<int>, r: nat, v: Ends,
        F: set<int>, tails: map<int, int>)
    returns (pool': Pool, add': seq<int>, F': set<int>, tails': map<int, int>, q: nat)
    requires IsNet(t) && r < |live| && Closing(t, n, pool0, live, L, r, r, v.pool, v.keep, v.add, F, tails)
    requires 0 <= live[r] < |pool0| && AtEnd(t, pool0, live[r])
    ensures (q == r || q == r + 1) && Closing(t, n, pool0, live, L, r, q, pool', v.keep, add', F', tails')
    ensures var y := WcOf(t, pool0[live[r]].stub);
            if y != null && IsRule(t, y) then
              && pool' == Entered(v.pool, live[r], y, n) && add' == [|v.pool|] + v.add
              && live[r] in tails' && |pool0| <= tails'[live[r]] < |pool'| && tails'[live[r]] in F'
              && pool'[tails'[live[r]]].stub == y && pool'[tails'[live[r]]].enter == n
              && pool'[tails'[live[r]]].parent == live[r]
            else pool' == v.pool && add' == v.add
  {
    hide IsNet, Closing;
    var j, y := live[r], WcOf(t, pool0[live[r]].stub);
    NextCloses(t, n, pool0, live, L, r, r, v.pool, v.keep, v.add, F, tails);
    pool', add', F', tails', q := v.pool, v.add, F, tails, r;
    if y != null && IsRule(t, y) {
      NetNode(t, pool0[j].stub);
      NetChild(t, pool0[j].stub, t.w);
      TailCloses(t, n, pool0, live, L, r, v.pool, v.keep, v.add, F, tails, j, y);
      pool', add' := Entered(v.pool, j, y, n), [|v.pool|] + v.add;
      F', tails', q := F + {|v.pool|}, tails[j := |v.pool|], r + 1;
    }
  }

  // The end for one state: kept or dropped as it should be.
  lemma {:induction false} EndStateIsKept(t: Net, n: nat, pool0: Pool, live: seq<int>, L: set<int>, r: nat, v: Ends,
        F: set<int>, tails: map<int, int>)
    returns (F': set<int>, tails': map<int, int>)
    requires IsNet(t) && r < |live| && Closing(t, n, pool0, live, L, r, r, v.pool, v.keep, v.add, F, tails)
    ensures var v' := AfterEnd(t, n, v, live[r]);
            Closing(t, n, pool0, live, L, r + 1, r + 1, v'.pool, v'.keep, v'.add, F', tails')
  {
    hide IsNet, Closing;
    var j, q, pool', add' := live[r], r, v.pool, v.add;
    NextCloses(t, n, pool0, live, L, r, r, v.pool, v.keep, v.add, F, tails);
    F', tails' := F, tails;
    if AtEnd(t, pool0, j) {
      pool', add', F', tails', q := TailIsKept(t, n, pool0, live, L, r, v, F, tails);
    }
    NextCloses(t, n, pool0, live, L, r, q, pool', v.keep, add', F', tails');
    var x := pool0[j].stub;
    var stays := IsRule(t, x) && (IsWild(t, x) || AtEnd(t, pool0, j));
    var F1 := if stays then F' + {j} else F';
    assert EndOf(t, n, pool0, pool', F1, tails', j);
    StateCloses(t, n, pool0, live, L, r, q, pool', v.keep, add', F', tails', j, stays);
    F' := F1;
  }

  lemma {:induction false} EndStatesAreKept(t: Net, judge: Judge, s: Str, g: Config, r: nat)
    returns (F: set<int>, tails: map<int, int>)
    requires IsLive(t, judge, s, |s|, g) && r <= |g.live|
    ensures var v := AfterEnds(t, |s|, g, r);
            Closing(t, |s|, g.pool, g.live, AsSet(g.live), r, r, v.pool, v.keep, v.add, F, tails)
    decreases r
  {
    hide IsNet, IsExact, CountsOk, Closing, Agrees, AfterEnd;
    if r == 0 {
      F, tails := {}, map[];
      ExactPool(t, s, |s|, g.pool, AsSet(g.live));
      ClosingStarts(t, |s|, g.pool, g.live, AsSet(g.live));
    } else {
      F, tails := EndStatesAreKept(t, judge, s, g, r - 1);
      var v := AfterEnds(t, |s|, g, r - 1);
      F, tails := EndStateIsKept(t, |s|, g.pool, g.live, AsSet(g.live), r - 1, v, F, tails);
    }
  }

  lemma {:induction false} ClosedIsResult(t: Net, judge: Judge, s: Str, g: Config)
    requires IsLive(t, judge, s, |s|, g) && |s| > 0
    ensures var g' := Closed(t, |s|, g); AreDistinct(g'.live) && IsResult(t, s, g'.pool, AsSet(g'.live))
  {
    hide IsNet, IsExact, CountsOk, Closing, IsResult, Ending, Agrees, AfterEnds;
    var F, tails := EndStatesAreKept(t, judge, s, g, |g.live|);
    var v := AfterEnds(t, |s|, g, |g.live|);
    ClosingEnds(t, s, g.pool, g.live, AsSet(g.live), v.pool, v.keep, v.add, F, tails);
    EndIsResult(t, s, g.pool, v.pool, AsSet(g.live), F, tails);
    AsSetIs(v.keep + v.add, F);
  }

  // ------------------------------------------------------------- reading it back

  // Wildcards and labels alternate on the way up.
  lemma {:induction false} ReadBackIs(t: Net, pool: Pool, i: int, e: nat)
    requires PoolOk(t, pool) && -1 <= i < |pool|
    ensures ReadBack(t, pool, i, e) == Spans(t, pool, i, e)
    decreases i
  {
    if i >= 0 {
      StateIs(t, pool, i);
      var st := pool[i];
      ReadBackIs(t, pool, st.parent, if IsWild(t, st.stub) then e else st.enter);
      if st.parent >= 0 && IsWild(t, st.stub) {
        SpansFacts(t, pool, st.parent, e, st.enter);
      }
    }
  }

  lemma {:induction false} ResultsAt(t: Net, pool: Pool, ls: seq<int>, n: nat)
    requires PoolOk(t, pool) && forall x {:trigger ls[x]} :: 0 <= x < |ls| ==> 0 <= ls[x] < |pool|
    ensures |Results(t, pool, ls, n)| == |ls|
    ensures forall i {:trigger Results(t, pool, ls, n)[i]} :: 0 <= i < |ls| ==>
              0 <= ls[|ls| - 1 - i] < |pool| && Results(t, pool, ls, n)[i] == HitOf(t, pool, ls[|ls| - 1 - i], n)
    decreases |ls|
  {
    if ls != [] {
      var rest := ls[..|ls| - 1];
      forall x | 0 <= x < |rest| ensures 0 <= rest[x] < |pool| {
        assert rest[x] == ls[x];
      }
      ReadBackIs(t, pool, ls[|ls| - 1], n);
      ResultsAt(t, pool, rest, n);
    }
  }

  // Without the wildcard in the input, the answer is what it should be.
  lemma {:induction false} AnswerIsRight(t: Net, judge: Judge, s: Str)
    requires IsNet(t) && Agrees(t, judge) && s != [] && t.w !in s
    ensures IsAnswer(t, s, Answer(t, judge, s))
  {
    hide IsNet, Agrees, IsResult, AfterInput, Closed, IsAnswer, Results, IsLive;
    var g := AfterInput(t, judge, s, |s|);
    InputIsLive(t, judge, s, |s|);
    ClosedIsResult(t, judge, s, g);
    var g' := Closed(t, |s|, g);
    ResultIndices(t, s, g'.pool, AsSet(g'.live));
    forall x | 0 <= x < |g'.live| ensures 0 <= g'.live[x] < |g'.pool| {
      assert g'.live[x] in AsSet(g'.live);
    }
    ResultsAt(t, g'.pool, g'.live, |s|);
    ResultIsAnswer(t, s, g'.pool, g'.live, Results(t, g'.pool, g'.live, |s|));
  }
}
