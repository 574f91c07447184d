// In the middle of reading one element: some live states have been dealt with,
// the others wait, and the lists of added and removed states fill up.
module RmLoop {
  import opened RtLinks
  import opened RtSets
  import opened RmItems
  import opened RmStates

  ghost predicate Untouched(pool0: Pool, pool: Pool, A: set<int>, j: int) {
    && 0 <= j < |pool0| && j < |pool| && j in A
    && pool[j].stub == pool0[j].stub && pool[j].pos == pool0[j].pos && !pool[j].listed
  }

  ghost predicate IsDealtWith(t: Net, c: Elem, k: nat, pool0: Pool, live: seq<int>, r: nat, pool: Pool, A: set<int>,
        tr: Trail)
  {
    r <= |live| && forall j {:trigger StepOf(t, c, k, pool0, pool, A, tr, j)} ::
          j in live[..r] ==> StepOf(t, c, k, pool0, pool, A, tr, j)
  }

  ghost predicate IsWaiting(pool0: Pool, live: seq<int>, r: nat, pool: Pool, A: set<int>) {
    r <= |live| && forall j {:trigger Untouched(pool0, pool, A, j)} :: j in live[r..] ==> Untouched(pool0, pool, A, j)
  }

  ghost predicate AllSourced(t: Net, c: Elem, k: nat, pool0: Pool, L: set<int>, pool: Pool, A: set<int>, tr: Trail) {
    forall a {:trigger SourceOk(t, c, k, pool0, pool, L, A, tr, a)} :: a in A
        ==> SourceOk(t, c, k, pool0, pool, L, A, tr, a)
  }

  // The states that are live now: those of before without the removed ones, and
  // the added ones.
  ghost predicate ListsOk(pool0: Pool, live: seq<int>, r: nat, pool: Pool, add: seq<int>, rem: seq<int>, A: set<int>) {
    && r <= |live| && |pool0| <= |pool|
    && (forall i {:trigger i in A} :: i in A <==> (i in live && i !in rem) || i in add)
    && (forall i :: i in add ==> |pool0| <= i < |pool|) && (forall i :: i in rem ==> i in live[..r])
    && (forall i :: i in live ==> 0 <= i < |pool0|)
    && (forall i, j :: 0 <= i < j < |add| ==> add[i] != add[j])
  }

  // Nothing is recorded yet for the states from q on.
  ghost predicate KeysOk(live: seq<int>, q: nat, pool: Pool, tr: Trail) {
    && q <= |live| && (forall x :: x in tr.entered ==> x !in live[q..])
    && (forall x :: x in tr.spawned ==> x < |pool| && x !in live[q..])
  }

  // The live labels that were entered from a wildcard.
  ghost function KidsOf(t: Net, pool: Pool, A: set<int>, p: int): set<int> {
    set i | i in A && 0 <= i < |pool| && !IsWild(t, pool[i].stub) && pool[i].parent == p
  }

  ghost predicate CountOk(t: Net, pool: Pool, A: set<int>, p: int) {
    0 <= p < |pool| && (IsWild(t, pool[p].stub) ==> pool[p].nrChildren == |KidsOf(t, pool, A, p)|)
  }

  ghost predicate CountsOk(t: Net, pool: Pool, A: set<int>) {
    forall p {:trigger CountOk(t, pool, A, p)} :: 0 <= p < |pool| ==> CountOk(t, pool, A, p)
  }

  ghost predicate Mid(t: Net, c: Elem, k: nat, pool0: Pool, live: seq<int>, L: set<int>, r: nat, q: nat, pool: Pool,
        add: seq<int>, rem: seq<int>, A: set<int>, tr: Trail)
  {
    && PoolOk(t, pool) && LinesKept(t, pool0, pool) && (forall i :: i in L <==> i in live)
    && (forall i, j :: 0 <= i < j < |live| ==> live[i] != live[j])
    && IsDealtWith(t, c, k, pool0, live, r, pool, A, tr) && IsWaiting(pool0, live, r, pool, A)
    && AllSourced(t, c, k, pool0, L, pool, A, tr) && ListsOk(pool0, live, r, pool, add, rem, A)
    && KeysOk(live, q, pool, tr) && CountsOk(t, pool, A) && Unlisted(pool, A)
  }

  ghost predicate Unlisted(pool: Pool, A: set<int>) {
    forall i :: i in A ==> 0 <= i < |pool| && !pool[i].listed
  }

  lemma {:induction false} NextWaits(t: Net, c: Elem, k: nat, pool0: Pool, live: seq<int>, L: set<int>, r: nat, q: nat,
        pool: Pool, add: seq<int>, rem: seq<int>, A: set<int>, tr: Trail)
    requires Mid(t, c, k, pool0, live, L, r, q, pool, add, rem, A, tr) && r < |live|
    ensures Untouched(pool0, pool, A, live[r]) && StateOk(t, pool, live[r]) && live[r] in L && live[r] !in rem
    ensures q == r ==> live[r] !in tr.entered && live[r] !in tr.spawned
  {
    var j := live[r];
    assert j == live[r..][0];
    assert Untouched(pool0, pool, A, j);
    StateIs(t, pool, j);
    forall i | 0 <= i < r ensures live[..r][i] != j {}
  }

  // ------------------------------------------------------------- one state more

  ghost predicate SameState(pool: Pool, pool1: Pool, i: int) {
    && 0 <= i < |pool| && i < |pool1|
    && pool1[i] == pool[i].(nrChildren := pool1[i].nrChildren)
  }

  ghost predicate IsGrowth(pool: Pool, pool1: Pool, tr: Trail, tr1: Trail) {
    && |pool1| == |pool| + 1
    && (forall i {:trigger SameState(pool, pool1, i)} :: 0 <= i < |pool| ==> SameState(pool, pool1, i))
    && (forall x :: x in tr.entered ==> x in tr1.entered && tr1.entered[x] == tr.entered[x])
    && (forall x :: x in tr.spawned ==> x in tr1.spawned && tr1.spawned[x] == tr.spawned[x])
  }

  lemma {:induction false} GrowthStep(t: Net, c: Elem, k: nat, pool0: Pool, pool: Pool, A: set<int>, tr: Trail,
        pool1: Pool, tr1: Trail, j: int)
    requires StepOf(t, c, k, pool0, pool, A, tr, j) && IsGrowth(pool, pool1, tr, tr1) && |pool0| <= |pool|
    ensures StepOf(t, c, k, pool0, pool1, A + {|pool|}, tr1, j)
  {
    assert SameState(pool, pool1, j);
    var st := pool0[j];
    if j in tr.spawned && 0 <= tr.spawned[j] < |pool| {
      assert SameState(pool, pool1, tr.spawned[j]);
    }
    if j in tr.entered && 0 <= tr.entered[j] < |pool| {
      var a := tr.entered[j];
      assert SameState(pool, pool1, a);
      if a in tr.spawned && 0 <= tr.spawned[a] < |pool| {
        assert SameState(pool, pool1, tr.spawned[a]);
      }
    }
  }

  lemma {:induction false} GrowthSource(t: Net, c: Elem, k: nat, pool0: Pool, L: set<int>, pool: Pool, A: set<int>,
        tr: Trail, pool1: Pool, tr1: Trail, a: int)
    requires SourceOk(t, c, k, pool0, pool, L, A, tr, a) && IsGrowth(pool, pool1, tr, tr1) && |pool0| <= |pool|
    ensures SourceOk(t, c, k, pool0, pool1, L, A + {|pool|}, tr1, a)
  {
    assert SameState(pool, pool1, a);
    var p := pool[a].parent;
    if 0 <= p < |pool| {
      assert SameState(pool, pool1, p);
    }
  }

  lemma {:induction false} GrowthKeeps(t: Net, c: Elem, k: nat, pool0: Pool, live: seq<int>, L: set<int>, r: nat,
        q: nat, pool: Pool, add: seq<int>, rem: seq<int>, A: set<int>, tr: Trail, pool1: Pool, tr1: Trail)
    requires Mid(t, c, k, pool0, live, L, r, q, pool, add, rem, A, tr) && IsGrowth(pool, pool1, tr, tr1)
    ensures var n, A1 := |pool|, A + {|pool|};
            && LinesKept(t, pool0, pool1) && IsDealtWith(t, c, k, pool0, live, r, pool1, A1, tr1)
            && IsWaiting(pool0, live, r, pool1, A1)
            && (forall a {:trigger SourceOk(t, c, k, pool0, pool1, L, A1, tr1, a)} ::
                  a in A ==> SourceOk(t, c, k, pool0, pool1, L, A1, tr1, a))
            && ListsOk(pool0, live, r, pool1, [n] + add, rem, A1)
  {
    var n, A1 := |pool|, A + {|pool|};
    hide StepOf, SourceOk, PoolOk, CountsOk, KeysOk;
    forall j | j in live[..r] ensures StepOf(t, c, k, pool0, pool1, A1, tr1, j) {
      assert StepOf(t, c, k, pool0, pool, A, tr, j);
      GrowthStep(t, c, k, pool0, pool, A, tr, pool1, tr1, j);
    }
    forall j | j in live[r..] ensures Untouched(pool0, pool1, A1, j) {
      assert Untouched(pool0, pool, A, j) && SameState(pool, pool1, j);
    }
    forall a | a in A ensures SourceOk(t, c, k, pool0, pool1, L, A1, tr1, a) {
      assert SourceOk(t, c, k, pool0, pool, L, A, tr, a);
      GrowthSource(t, c, k, pool0, L, pool, A, tr, pool1, tr1, a);
    }
    forall i | 0 <= i < |pool0| ensures SameLine(t, pool0, pool1, i) {
      assert SameLine(t, pool0, pool, i) && SameState(pool, pool1, i);
    }
  }

  lemma {:induction false} GrowthPool(t: Net, pool: Pool, pool1: Pool, tr: Trail, tr1: Trail)
    requires PoolOk(t, pool) && IsGrowth(pool, pool1, tr, tr1)
    requires var st := pool1[|pool|];
             && st.stub in t.N && LabelOf(t, st.stub) != [] && 0 <= st.parent < |pool|
             && (IsWild(t, st.stub) <==> !IsWild(t, pool[st.parent].stub))
    ensures PoolOk(t, pool1)
  {
    forall i | 0 <= i < |pool1| ensures StateOk(t, pool1, i) {
      if i < |pool| {
        StateIs(t, pool, i);
        assert SameState(pool, pool1, i);
        if pool[i].parent >= 0 {
          assert SameState(pool, pool1, pool[i].parent);
        }
      } else {
        assert SameState(pool, pool1, pool1[i].parent);
      }
    }
  }

  // ------------------------------------------------------------- a wildcard entered

  function Entered(pool: Pool, j: int, y: Node, k: nat): Pool {
    pool + [State(y, 0, k, j, 0, false)]
  }

  function EnteredTrail(tr: Trail, j: int, a: int): Trail {
    Trail(tr.entered[j := a], tr.spawned)
  }

  lemma {:induction false} EnterKeeps(t: Net, c: Elem, k: nat, pool0: Pool, live: seq<int>, L: set<int>, r: nat,
        pool: Pool, add: seq<int>, rem: seq<int>, A: set<int>, tr: Trail, j: int, y: Node)
    requires Mid(t, c, k, pool0, live, L, r, r, pool, add, rem, A, tr) && r < |live| && IsNet(t)
    requires j == live[r] && 0 <= j < |pool| && AtFullLabel(t, pool, j) && WcOf(t, pool[j].stub) == y
    ensures var a := |pool|;
            && Mid(t, c, k, pool0, live, L, r, r + 1, Entered(pool, j, y, k), [a] + add, rem, A + {a},
                EnteredTrail(tr, j, a))
            && HasEntered(k, pool0, Entered(pool, j, y, k), A + {a}, EnteredTrail(tr, j, a), j, y)
  {
    var a, pool1, tr1 := |pool|, Entered(pool, j, y, k), EnteredTrail(tr, j, |pool|);
    hide StepOf, IsNet, IsDealtWith, IsWaiting, LinesKept, AllSourced, PoolOk, CountsOk;
    NextWaits(t, c, k, pool0, live, L, r, r, pool, add, rem, A, tr);
    forall i | 0 <= i < |pool| ensures SameState(pool, pool1, i) {}
    GrowthKeeps(t, c, k, pool0, live, L, r, r, pool, add, rem, A, tr, pool1, tr1);
    NetNode(t, pool[j].stub);
    NetChild(t, pool[j].stub, t.w);
    GrowthPool(t, pool, pool1, tr, tr1);
    EnterSource(t, c, k, pool0, live, L, r, pool, add, rem, A, tr, j, y);
    EnterCounts(t, pool, A, j, y, k);
  }

  ghost predicate AtFullLabel(t: Net, pool: Pool, j: int) {
    0 <= j < |pool| && !IsWild(t, pool[j].stub) && pool[j].pos == |LabelOf(t, pool[j].stub)|
        && WcOf(t, pool[j].stub) != null
  }

  lemma {:induction false} EnterSource(t: Net, c: Elem, k: nat, pool0: Pool, live: seq<int>, L: set<int>, r: nat,
        pool: Pool, add: seq<int>, rem: seq<int>, A: set<int>, tr: Trail, j: int, y: Node)
    requires Mid(t, c, k, pool0, live, L, r, r, pool, add, rem, A, tr) && r < |live| && IsWild(t, y)
    requires j == live[r] && 0 <= j < |pool| && AtFullLabel(t, pool, j) && WcOf(t, pool[j].stub) == y
    requires forall a {:trigger SourceOk(t, c, k, pool0, Entered(pool, j, y, k), L, A + {|pool|},
        EnteredTrail(tr, j, |pool|), a)} ::
               a in A ==> SourceOk(t, c, k, pool0, Entered(pool, j, y, k), L, A + {|pool|},
                   EnteredTrail(tr, j, |pool|), a)
    ensures AllSourced(t, c, k, pool0, L, Entered(pool, j, y, k), A + {|pool|}, EnteredTrail(tr, j, |pool|))
    ensures KeysOk(live, r + 1, Entered(pool, j, y, k), EnteredTrail(tr, j, |pool|))
  {
    hide StepOf;
    NextWaits(t, c, k, pool0, live, L, r, r, pool, add, rem, A, tr);
    assert live[r..] == [live[r]] + live[r + 1..];
    assert SourceOk(t, c, k, pool0, Entered(pool, j, y, k), L, A + {|pool|}, EnteredTrail(tr, j, |pool|), |pool|);
  }

  lemma {:induction false} EnterCounts(t: Net, pool: Pool, A: set<int>, j: int, y: Node, k: nat)
    requires CountsOk(t, pool, A) && PoolOk(t, pool) && IsWild(t, y) && 0 <= j < |pool|
    ensures CountsOk(t, Entered(pool, j, y, k), A + {|pool|})
  {
    var pool1, A1 := Entered(pool, j, y, k), A + {|pool|};
    forall p | 0 <= p < |pool1| ensures CountOk(t, pool1, A1, p) {
      if p < |pool| {
        assert CountOk(t, pool, A, p);
        assert KidsOf(t, pool1, A1, p) == KidsOf(t, pool, A, p);
      } else {
        forall i | 0 <= i < |pool| ensures pool[i].parent != p { StateIs(t, pool, i); }
        assert KidsOf(t, pool1, A1, p) == {};
      }
    }
  }

  // --------------------------------------------------------------- a label entered

  function Spawned(pool: Pool, p: int, y: Node, k: nat): Pool
    requires 0 <= p < |pool|
  {
    pool[p := pool[p].(nrChildren := pool[p].nrChildren + 1)] + [State(y, 1, k, p, 0, false)]
  }

  function SpawnedTrail(tr: Trail, p: int, a: int): Trail {
    Trail(tr.entered, tr.spawned[p := a])
  }

  ghost predicate CanSpawn(t: Net, c: Elem, pool: Pool, live: seq<int>, r: nat, A: set<int>, tr: Trail, p: int,
        y: Node)
  {
    && 0 <= p < |pool| && p in A && IsWild(t, pool[p].stub) && p !in tr.spawned && r < |live| && p !in live[r + 1..]
    && c in BranchesOf(t, pool[p].stub) && BranchesOf(t, pool[p].stub)[c] == y && c != t.w
  }

  lemma {:induction false} SpawnKeeps(t: Net, c: Elem, k: nat, pool0: Pool, live: seq<int>, L: set<int>, r: nat, q: nat,
        pool: Pool, add: seq<int>, rem: seq<int>, A: set<int>, tr: Trail, p: int, y: Node)
    requires Mid(t, c, k, pool0, live, L, r, q, pool, add, rem, A, tr) && IsNet(t) && (q == r || q == r + 1)
    requires CanSpawn(t, c, pool, live, r, A, tr, p, y)
    ensures var a := |pool|;
            && Mid(t, c, k, pool0, live, L, r, r + 1, Spawned(pool, p, y, k), [a] + add, rem, A + {a},
                SpawnedTrail(tr, p, a))
            && HasSpawned(k, pool0, Spawned(pool, p, y, k), A + {a}, SpawnedTrail(tr, p, a), p, y)
  {
    var a, pool1, tr1 := |pool|, Spawned(pool, p, y, k), SpawnedTrail(tr, p, |pool|);
    hide StepOf, IsNet, IsDealtWith, IsWaiting, LinesKept, AllSourced, PoolOk, CountsOk;
    forall i | 0 <= i < |pool| ensures SameState(pool, pool1, i) {}
    GrowthKeeps(t, c, k, pool0, live, L, r, q, pool, add, rem, A, tr, pool1, tr1);
    StateIs(t, pool, p);
    NetChild(t, pool[p].stub, c);
    GrowthPool(t, pool, pool1, tr, tr1);
    SpawnSource(t, c, k, pool0, live, L, r, q, pool, add, rem, A, tr, p, y);
    SpawnCounts(t, pool, A, p, y, k);
  }

  lemma {:induction false} SpawnSource(t: Net, c: Elem, k: nat, pool0: Pool, live: seq<int>, L: set<int>, r: nat,
        q: nat, pool: Pool, add: seq<int>, rem: seq<int>, A: set<int>, tr: Trail, p: int, y: Node)
    requires Mid(t, c, k, pool0, live, L, r, q, pool, add, rem, A, tr) && (q == r || q == r + 1)
    requires CanSpawn(t, c, pool, live, r, A, tr, p, y) && !IsWild(t, y)
    requires forall a {:trigger SourceOk(t, c, k, pool0, Spawned(pool, p, y, k), L, A + {|pool|},
        SpawnedTrail(tr, p, |pool|), a)} ::
               a in A ==> SourceOk(t, c, k, pool0, Spawned(pool, p, y, k), L, A + {|pool|},
                   SpawnedTrail(tr, p, |pool|), a)
    ensures AllSourced(t, c, k, pool0, L, Spawned(pool, p, y, k), A + {|pool|}, SpawnedTrail(tr, p, |pool|))
    ensures KeysOk(live, r + 1, Spawned(pool, p, y, k), SpawnedTrail(tr, p, |pool|))
  {
    hide StepOf;
    assert live[r..] == [live[r]] + live[r + 1..];
    assert SourceOk(t, c, k, pool0, Spawned(pool, p, y, k), L, A + {|pool|}, SpawnedTrail(tr, p, |pool|), |pool|);
  }

  lemma {:induction false} SpawnCounts(t: Net, pool: Pool, A: set<int>, p: int, y: Node, k: nat)
    requires CountsOk(t, pool, A) && PoolOk(t, pool) && !IsWild(t, y) && 0 <= p < |pool|
    ensures CountsOk(t, Spawned(pool, p, y, k), A + {|pool|})
  {
    var a, pool1, A1 := |pool|, Spawned(pool, p, y, k), A + {|pool|};
    forall i | 0 <= i < |pool1| ensures CountOk(t, pool1, A1, i) {
      if i < |pool| {
        assert CountOk(t, pool, A, i);
        if i == p {
          assert KidsOf(t, pool1, A1, i) == KidsOf(t, pool, A, i) + {a};
          OneMore(KidsOf(t, pool, A, i), a);
        } else {
          assert KidsOf(t, pool1, A1, i) == KidsOf(t, pool, A, i);
        }
      }
    }
  }

  // --------------------------------------------------------------- one state edited

  // State j may have moved within the tree, between labels, and counts may differ.
  ghost predicate IsEdit(t: Net, pool: Pool, pool1: Pool, j: int) {
    && |pool1| == |pool| && 0 <= j < |pool|
    && (forall i {:trigger SameState(pool, pool1, i)} :: 0 <= i < |pool| && i != j ==> SameState(pool, pool1, i))
    && pool1[j].enter == pool[j].enter && pool1[j].parent == pool[j].parent
    && (pool1[j].stub == pool[j].stub || (!IsWild(t, pool[j].stub) && !IsWild(t, pool1[j].stub)))
  }

  lemma {:induction false} EditStep(t: Net, c: Elem, k: nat, pool0: Pool, pool: Pool, A: set<int>, tr: Trail,
        pool1: Pool, A1: set<int>, j: int, i: int)
    requires StepOf(t, c, k, pool0, pool, A, tr, i) && IsEdit(t, pool, pool1, j) && i != j && j < |pool0| <= |pool|
    requires A1 == A || A1 == A - {j}
    ensures StepOf(t, c, k, pool0, pool1, A1, tr, i)
  {
    assert SameState(pool, pool1, i);
    if i in tr.spawned && 0 <= tr.spawned[i] < |pool| && tr.spawned[i] != j {
      assert SameState(pool, pool1, tr.spawned[i]);
    }
    if i in tr.entered && 0 <= tr.entered[i] < |pool| && tr.entered[i] != j {
      var a := tr.entered[i];
      assert SameState(pool, pool1, a);
      if a in tr.spawned && 0 <= tr.spawned[a] < |pool| && tr.spawned[a] != j {
        assert SameState(pool, pool1, tr.spawned[a]);
      }
    }
  }

  lemma {:induction false} EditSource(t: Net, c: Elem, k: nat, pool0: Pool, L: set<int>, pool: Pool, A: set<int>,
        tr: Trail, pool1: Pool, A1: set<int>, j: int, a: int)
    requires SourceOk(t, c, k, pool0, pool, L, A, tr, a) && IsEdit(t, pool, pool1, j) && j < |pool0| <= |pool|
    requires A1 == A || (A1 == A - {j} && !IsWild(t, pool[j].stub))
    ensures SourceOk(t, c, k, pool0, pool1, L, A1, tr, a)
  {
    if a != j {
      assert SameState(pool, pool1, a);
      var p := pool[a].parent;
      if 0 <= p < |pool| && p != j {
        assert SameState(pool, pool1, p);
      }
    }
  }

  lemma {:induction false} EditPool(t: Net, pool: Pool, pool1: Pool, j: int)
    requires PoolOk(t, pool) && IsEdit(t, pool, pool1, j) && pool1[j].stub in t.N && LabelOf(t, pool1[j].stub) != []
    ensures PoolOk(t, pool1)
  {
    forall i | 0 <= i < |pool1| ensures StateOk(t, pool1, i) {
      StateIs(t, pool, i);
      if i != j {
        assert SameState(pool, pool1, i);
      }
      var p := pool[i].parent;
      if p >= 0 && p != j {
        assert SameState(pool, pool1, p);
      }
    }
  }

  // With that, the next state has been dealt with.
  lemma {:induction false} EditKeeps(t: Net, c: Elem, k: nat, pool0: Pool, live: seq<int>, L: set<int>, r: nat, q: nat,
        pool: Pool, add: seq<int>, rem: seq<int>, A: set<int>, tr: Trail, pool1: Pool, A1: set<int>, j: int)
    requires Mid(t, c, k, pool0, live, L, r, q, pool, add, rem, A, tr) && r < |live| && j == live[r]
        && (q == r || q == r + 1)
    requires IsEdit(t, pool, pool1, j) && (A1 == A || (A1 == A - {j} && !IsWild(t, pool[j].stub)))
    requires StepOf(t, c, k, pool0, pool1, A1, tr, j)
    ensures LinesKept(t, pool0, pool1) && IsDealtWith(t, c, k, pool0, live, r + 1, pool1, A1, tr)
        && IsWaiting(pool0, live, r + 1, pool1, A1)
    ensures AllSourced(t, c, k, pool0, L, pool1, A1, tr) && KeysOk(live, r + 1, pool1, tr)
  {
    hide StepOf, SourceOk, PoolOk, CountsOk;
    NextWaits(t, c, k, pool0, live, L, r, q, pool, add, rem, A, tr);
    assert live[..r + 1] == live[..r] + [j] && live[r..] == [j] + live[r + 1..];
    forall i | i in live[..r + 1] ensures StepOf(t, c, k, pool0, pool1, A1, tr, i) {
      if i != j {
        assert StepOf(t, c, k, pool0, pool, A, tr, i);
        EditStep(t, c, k, pool0, pool, A, tr, pool1, A1, j, i);
      }
    }
    forall i | i in live[r + 1..] ensures Untouched(pool0, pool1, A1, i) {
      NotAgain(live, r, i);
      assert Untouched(pool0, pool, A, i) && SameState(pool, pool1, i);
    }
    forall a | a in A1 ensures SourceOk(t, c, k, pool0, pool1, L, A1, tr, a) {
      assert SourceOk(t, c, k, pool0, pool, L, A, tr, a);
      EditSource(t, c, k, pool0, L, pool, A, tr, pool1, A1, j, a);
    }
    forall i | 0 <= i < |pool0| ensures SameLine(t, pool0, pool1, i) {
      assert SameLine(t, pool0, pool, i);
      assert i != j ==> SameState(pool, pool1, i);
    }
  }

  lemma {:induction false} NotAgain(live: seq<int>, r: nat, i: int)
    requires r < |live| && (forall i, j :: 0 <= i < j < |live| ==> live[i] != live[j]) && i in live[r + 1..]
    ensures i != live[r] && i in live[r..]
  {
    var x :| 0 <= x < |live[r + 1..]| && live[r + 1..][x] == i;
    assert live[r + 1 + x] == i && live[r..][x + 1] == i;
  }

  function Moved(pool: Pool, j: int, y: Node, pos: nat): Pool
    requires 0 <= j < |pool|
  {
    pool[j := pool[j].(stub := y, pos := pos)]
  }

  // A wildcard stays as it is, a label goes on or gives way to the next one.
  lemma {:induction false} MoveKeeps(t: Net, c: Elem, k: nat, pool0: Pool, live: seq<int>, L: set<int>, r: nat, q: nat,
        pool: Pool, add: seq<int>, rem: seq<int>, A: set<int>, tr: Trail, j: int, y: Node, pos: nat)
    requires Mid(t, c, k, pool0, live, L, r, q, pool, add, rem, A, tr) && r < |live| && j == live[r]
        && (q == r || q == r + 1)
    requires 0 <= j < |pool| && y in t.N && LabelOf(t, y) != []
    requires pool[j].stub == y || (!IsWild(t, pool[j].stub) && !IsWild(t, y))
    requires StepOf(t, c, k, pool0, Moved(pool, j, y, pos), A, tr, j)
    ensures Mid(t, c, k, pool0, live, L, r + 1, r + 1, Moved(pool, j, y, pos), add, rem, A, tr)
  {
    var pool1 := Moved(pool, j, y, pos);
    hide StepOf, IsDealtWith, IsWaiting, LinesKept, AllSourced, PoolOk, CountsOk, KeysOk;
    forall i | 0 <= i < |pool| && i != j ensures SameState(pool, pool1, i) {}
    EditKeeps(t, c, k, pool0, live, L, r, q, pool, add, rem, A, tr, pool1, A, j);
    EditPool(t, pool, pool1, j);
    assert live[..r + 1] == live[..r] + [j];
    MoveCounts(t, pool, A, j, y, pos);
  }

  lemma {:induction false} MoveCounts(t: Net, pool: Pool, A: set<int>, j: int, y: Node, pos: nat)
    requires CountsOk(t, pool, A) && 0 <= j < |pool|
        && (pool[j].stub == y || (!IsWild(t, pool[j].stub) && !IsWild(t, y)))
    ensures CountsOk(t, Moved(pool, j, y, pos), A)
  {
    var pool1 := Moved(pool, j, y, pos);
    forall p | 0 <= p < |pool1| ensures CountOk(t, pool1, A, p) {
      assert CountOk(t, pool, A, p);
      assert KidsOf(t, pool1, A, p) == KidsOf(t, pool, A, p);
    }
  }

  // The memory after `rm_remove_state`, when the state has no wildcard above it
  // but its parent.
  function Removed(pool: Pool, j: int): Pool
    requires 0 <= j < |pool|
  {
    var p := pool[j].parent;
    var pool1 := if 0 <= p < |pool| then pool[p := pool[p].(nrChildren := pool[p].nrChildren - 1)] else pool;
    pool1[j := pool1[j].(listed := true)]
  }

  lemma {:induction false} RemoveKeeps(t: Net, c: Elem, k: nat, pool0: Pool, live: seq<int>, L: set<int>, r: nat,
        q: nat, pool: Pool, add: seq<int>, rem: seq<int>, A: set<int>, tr: Trail, j: int)
    requires Mid(t, c, k, pool0, live, L, r, q, pool, add, rem, A, tr) && r < |live| && j == live[r]
        && (q == r || q == r + 1)
    requires 0 <= j < |pool| && !IsWild(t, pool[j].stub)
    requires StepOf(t, c, k, pool0, Removed(pool, j), A - {j}, tr, j)
    ensures Mid(t, c, k, pool0, live, L, r + 1, r + 1, Removed(pool, j), add, [j] + rem, A - {j}, tr)
  {
    var pool1 := Removed(pool, j);
    hide StepOf, IsDealtWith, IsWaiting, LinesKept, AllSourced, PoolOk, CountsOk, KeysOk;
    NextWaits(t, c, k, pool0, live, L, r, q, pool, add, rem, A, tr);
    forall i | 0 <= i < |pool| && i != j ensures SameState(pool, pool1, i) {}
    EditKeeps(t, c, k, pool0, live, L, r, q, pool, add, rem, A, tr, pool1, A - {j}, j);
    EditPool(t, pool, pool1, j);
    assert live[..r + 1] == live[..r] + [j];
    RemoveCounts(t, pool, A, j);
    RemoveLists(pool0, live, r, pool, add, rem, A, j);
  }

  lemma {:induction false} RemoveLists(pool0: Pool, live: seq<int>, r: nat, pool: Pool, add: seq<int>, rem: seq<int>,
        A: set<int>, j: int)
    requires ListsOk(pool0, live, r, pool, add, rem, A) && r < |live| && j == live[r] && 0 <= j < |pool0|
    ensures ListsOk(pool0, live, r + 1, Removed(pool, j), add, [j] + rem, A - {j})
  {
    assert live[..r + 1] == live[..r] + [j];
    forall i ensures i in A - {j} <==> (i in live && i !in [j] + rem) || i in add {
      assert i in A <==> (i in live && i !in rem) || i in add;
    }
  }

  lemma {:induction false} RemoveCounts(t: Net, pool: Pool, A: set<int>, j: int)
    requires CountsOk(t, pool, A) && PoolOk(t, pool) && 0 <= j < |pool| && j in A && !IsWild(t, pool[j].stub)
    ensures CountsOk(t, Removed(pool, j), A - {j})
  {
    var pool1, A1, p := Removed(pool, j), A - {j}, pool[j].parent;
    StateIs(t, pool, j);
    forall i | 0 <= i < |pool1| ensures CountOk(t, pool1, A1, i) {
      assert CountOk(t, pool, A, i);
      if i == p {
        assert KidsOf(t, pool, A, i) == KidsOf(t, pool1, A1, i) + {j};
        OneMore(KidsOf(t, pool1, A1, i), j);
      } else {
        assert KidsOf(t, pool1, A1, i) == KidsOf(t, pool, A, i);
      }
    }
  }

  // The wildcard above a live label has a live label below it: the test by which
  // the matcher would drop such a wildcard never succeeds.
  lemma {:induction false} NeverDropped(t: Net, pool: Pool, A: set<int>, j: int)
    requires CountsOk(t, pool, A) && PoolOk(t, pool) && 0 <= j < |pool| && j in A && !IsWild(t, pool[j].stub)
        && pool[j].parent >= 0
    ensures pool[j].parent < j && IsWild(t, pool[pool[j].parent].stub) && pool[pool[j].parent].nrChildren > 0
  {
    StateIs(t, pool, j);
    var p := pool[j].parent;
    assert CountOk(t, pool, A, p);
    assert j in KidsOf(t, pool, A, p);
    SubsetSize({j}, KidsOf(t, pool, A, p));
  }

  // ------------------------------------------------------------- start and end

  lemma {:induction false} MidStarts(t: Net, c: Elem, k: nat, pool: Pool, live: seq<int>, L: set<int>)
    requires PoolOk(t, pool) && CountsOk(t, pool, L) && (forall i :: i in L <==> i in live)
    requires (forall i :: i in live ==> 0 <= i < |pool| && !pool[i].listed)
        && (forall i, j :: 0 <= i < j < |live| ==> live[i] != live[j])
    ensures Mid(t, c, k, pool, live, L, 0, 0, pool, [], [], L, Trail(map[], map[]))
  {
    hide CountsOk, PoolOk;
    var tr := Trail(map[], map[]);
    forall j | j in live[0..] ensures Untouched(pool, pool, L, j) {}
    forall i | 0 <= i < |pool| ensures SameLine(t, pool, pool, i) {}
    forall a | a in L ensures SourceOk(t, c, k, pool, pool, L, L, tr, a) {}
  }

  lemma {:induction false} MidEnds(t: Net, c: Elem, k: nat, pool0: Pool, live: seq<int>, L: set<int>, pool: Pool,
        add: seq<int>, rem: seq<int>, A: set<int>, tr: Trail)
    requires Mid(t, c, k, pool0, live, L, |live|, |live|, pool, add, rem, A, tr)
    ensures IsStep(t, c, k, pool0, pool, L, A, tr) && CountsOk(t, pool, A)
  {
    hide StepOf, SourceOk, CountsOk, PoolOk;
    assert live[..|live|] == live;
    forall j | j in L ensures StepOf(t, c, k, pool0, pool, A, tr, j) {}
  }

  lemma {:induction false} MidFacts(t: Net, c: Elem, k: nat, pool0: Pool, live: seq<int>, L: set<int>, r: nat, q: nat,
        pool: Pool, add: seq<int>, rem: seq<int>, A: set<int>, tr: Trail)
    requires Mid(t, c, k, pool0, live, L, r, q, pool, add, rem, A, tr) && r < |live|
    ensures var j := live[r];
            && 0 <= j < |pool0| <= |pool| && j in A && j !in rem && pool[j].stub == pool0[j].stub
            && pool[j].pos == pool0[j].pos && !pool[j].listed
            && StateOk(t, pool, j) && SameLine(t, pool0, pool, j) && j !in live[r + 1..]
            && (q == r ==> j !in tr.entered && j !in tr.spawned)
    ensures PoolOk(t, pool) && CountsOk(t, pool, A)
    ensures |pool| !in live && |pool| !in tr.spawned
  {
    NextWaits(t, c, k, pool0, live, L, r, q, pool, add, rem, A, tr);
    assert SameLine(t, pool0, pool, live[r]);
    if live[r] in live[r + 1..] {
      NotAgain(live, r, live[r]);
    }
  }
}
