// Matching one input against all rules at once. Each procedure is proved to do
// what `RmRun` says, whatever the input.
module RmMatch {
  import opened RtLinks
  import opened RtTree
  import opened RmSplit
  import opened RmTree
  import opened RmItems
  import opened RmJudge
  import opened RmStates
  import opened RmEnds
  import opened RmLoop
  import opened RmRun
  import opened RmExact

  class Handle {
    const root: Root
    const input: Str
    // asked before a branch is taken
    const judge: Judge
    // all states ever made, and the list of those that are live
    var pool: Pool
    var live: seq<int>

    constructor (r: Root, str: Str, j: Judge)
      ensures root == r && input == str && judge == j && pool == [] && live == []
    {
      root, input, judge := r, str, j;
      pool, live := [], [];
    }

    ghost function WholeNet(): Net
      reads root.tree, root.tree.nodes
    {
      Net(Snapshot(root.tree.nodes), root.tree.nodes, root.tree.paths, root.tree.root, root.wildcard)
    }

    // What the judge lets be seen of it.
    ghost function TheNet(): Net
      reads root.tree, root.tree.nodes
    {
      OpenNet(WholeNet(), judge)
    }

    lemma {:induction false} Reads(t: Net, x: Node)
      requires t == TheNet() && x in t.N
      ensures x in root.tree.nodes && LabelOf(t, x) == x.skey && WcOf(t, x) == x.wcNode
      ensures IsRule(t, x) <==> x.valid
    {
      hide IsReached;
      OpenIs(WholeNet(), judge, x);
      SnapshotAt(root.tree.nodes, x);
    }

    lemma {:induction false} NetIs(t: Net)
      requires t == TheNet()
      ensures t.w == root.wildcard && t.root == root.tree.root && t.P == root.tree.paths
    {}

    // `search_branch`, and the question to the judge
    method SearchBranch(x: Node, c: Elem, ghost t: Net) returns (y: Node?)
      requires t == TheNet() && x in t.N
      ensures y == Next(t, judge, x, c)
    {
      hide IsReached;
      OpenIs(WholeNet(), judge, x);
      SnapshotAt(root.tree.nodes, x);
      y := if c in x.branches && judge(x, x.branches[c]) then x.branches[c] else null;
    }

    // `rm_is_wildcard`
    method IsWildcard(x: Node, ghost t: Net) returns (b: bool)
      requires t == TheNet() && IsNet(t) && x in t.N && LabelOf(t, x) != []
      ensures b <==> IsWild(t, x)
    {
      hide IsNet, TheNet;
      Reads(t, x);
      NetIs(t);
      NetNode(t, x);
      b := x.skey[0] == root.wildcard;
    }

    // The tree is prepared, and all states are in it.
    ghost predicate Ready(t: Net)
      reads this, root.tree, root.tree.nodes
    {
      t == TheNet() && IsNet(t) && PoolIn(t, pool)
    }

    // `rm_process_wc_child`
    method ProcessWcChild(p: int, k: nat, add: seq<int>, ghost rem: seq<int>, ghost t: Net) returns (add': seq<int>)
      requires Ready(t) && 0 <= p < |pool| && k < |input|
      modifies `pool
      ensures Ready(t) && Work(pool, add', rem) == AfterChild(t, judge, input[k], k, Work(old(pool), add, rem), p)
    {
      hide IsNet, TheNet, PoolIn;
      IsIn(t, pool, p);
      add' := add;
      var y := SearchBranch(pool[p].stub, input[k], t);
      if y != null {
        NetChild(t, pool[p].stub, input[k]);
        ChangedIn(t, pool, p, pool[p].(nrChildren := pool[p].nrChildren + 1));
        pool := pool[p := pool[p].(nrChildren := pool[p].nrChildren + 1)];
        OneMoreIn(t, pool, State(y, 1, k, p, 0, false));
        add' := [|pool|] + add;
        pool := pool + [State(y, 1, k, p, 0, false)];
      }
    }

    // The first wildcard on the way up.
    method NearestWildcard(from: int, ghost t: Net) returns (p: int)
      requires Ready(t) && -1 <= from < |pool|
      ensures p == Nearest(t, pool, from) && -1 <= p <= from
    {
      hide IsNet, TheNet, PoolIn;
      p := from;
      while p >= 0
        invariant -1 <= p <= from && Nearest(t, pool, from) == Nearest(t, pool, p)
        decreases p
      {
        IsIn(t, pool, p);
        var wild := IsWildcard(pool[p].stub, t);
        if wild {
          return;
        }
        p := pool[p].parent;
      }
    }

    // `rm_remove_state`
    method RemoveState(j: int, ghost add: seq<int>, rem: seq<int>, ghost t: Net) returns (rem': seq<int>)
      requires Ready(t) && 0 <= j < |pool|
      modifies `pool
      ensures Ready(t) && Work(pool, add, rem') == AfterRemoval(t, Work(old(pool), add, rem), j)
    {
      hide IsNet, TheNet, PoolIn;
      IsIn(t, pool, j);
      var p := NearestWildcard(pool[j].parent, t);
      if p >= 0 {
        IsIn(t, pool, p);
        ChangedIn(t, pool, p, pool[p].(nrChildren := pool[p].nrChildren - 1));
        pool := pool[p := pool[p].(nrChildren := pool[p].nrChildren - 1)];
      }
      rem' := rem;
      if !pool[j].listed {
        IsIn(t, pool, j);
        ChangedIn(t, pool, j, pool[j].(listed := true));
        pool := pool[j := pool[j].(listed := true)];
        rem' := [j] + rem;
      }
    }

    // The test whether the wildcard above a finished label has lost its last label.
    method DropAbove(j: int, ghost add: seq<int>, rem: seq<int>, ghost t: Net) returns (rem': seq<int>)
      requires Ready(t) && 0 <= j < |pool|
      modifies `pool
      ensures Ready(t) && |pool| == |old(pool)|
      ensures Work(pool, add, rem') == AfterDrop(t, Work(old(pool), add, rem), j)
    {
      hide IsNet, TheNet, PoolIn;
      IsIn(t, pool, j);
      rem' := rem;
      var p := NearestWildcard(pool[j].parent, t);
      if p >= 0 {
        IsIn(t, pool, p);
        Reads(t, pool[p].stub);
        if pool[p].nrChildren == 0 && !pool[p].stub.valid && !pool[p].listed {
          ChangedIn(t, pool, p, pool[p].(listed := true));
          pool := pool[p := pool[p].(listed := true)];
          rem' := [p] + rem;
        }
      }
    }

    // A wildcard below a finished label becomes a live state, and may be left at once.
    method EnterWild(j: int, wc: Node, k: nat, add: seq<int>, rem: seq<int>, ghost t: Net)
      returns (add': seq<int>, rem': seq<int>)
      requires Ready(t) && 0 <= j < |pool| && k < |input| && wc in t.N && LabelOf(t, wc) != []
      modifies `pool
      ensures Ready(t) && |old(pool)| <= |pool|
      ensures Work(pool, add', rem') == AfterEntering(t, judge, input[k], k, Work(old(pool), add, rem), j, wc)
    {
      hide IsNet, TheNet, PoolIn, AfterDrop, AfterChild;
      var a := |pool|;
      OneMoreIn(t, pool, State(wc, 0, k, j, 0, false));
      pool := pool + [State(wc, 0, k, j, 0, false)];
      rem' := DropAbove(j, [a] + add, rem, t);
      ghost var v := Work(pool, [a] + add, rem');
      add' := ProcessWcChild(a, k, [a] + add, rem', t);
      ChildGrows(t, judge, input[k], k, v, a);
    }

    // The last part of `rm_match_state`.
    method GoOn(j: int, k: nat, ghost add: seq<int>, rem: seq<int>, ghost t: Net) returns (rem': seq<int>)
      requires Ready(t) && 0 <= j < |pool| && k < |input|
      modifies `pool
      ensures Ready(t) && Work(pool, add, rem') == AfterBranch(t, judge, input[k], Work(old(pool), add, rem), j)
    {
      hide IsNet, TheNet, PoolIn, AfterRemoval;
      IsIn(t, pool, j);
      var y := SearchBranch(pool[j].stub, input[k], t);
      if y != null {
        NetChild(t, pool[j].stub, input[k]);
        ChangedIn(t, pool, j, pool[j].(stub := y, pos := 1));
        pool := pool[j := pool[j].(stub := y, pos := 1)];
        rem' := rem;
      } else {
        rem' := RemoveState(j, add, rem, t);
      }
    }

    // `rm_match_state`
    method MatchState(j: int, k: nat, add: seq<int>, rem: seq<int>, ghost t: Net)
      returns (add': seq<int>, rem': seq<int>)
      requires Ready(t) && 0 <= j < |pool| && k < |input|
      modifies `pool
      ensures Ready(t)
      ensures Work(pool, add', rem') == AfterState(t, judge, input[k], k, Work(old(pool), add, rem), j)
    {
      hide IsNet, TheNet, PoolIn, AfterChild, AfterBranch, AfterEntering, AfterRemoval;
      IsIn(t, pool, j);
      var st := pool[j];
      Reads(t, st.stub);
      var wild := IsWildcard(st.stub, t);
      add', rem' := add, rem;
      if wild {
        add' := ProcessWcChild(j, k, add, rem, t);
      } else if st.pos == |st.stub.skey| {
        var wc := st.stub.wcNode;
        if wc != null {
          NetNode(t, st.stub);
          NetChild(t, st.stub, t.w);
          add', rem' := EnterWild(j, wc, k, add, rem, t);
        }
        rem' := GoOn(j, k, add', rem', t);
      } else if st.stub.skey[st.pos] == input[k] {
        ChangedIn(t, pool, j, st.(pos := st.pos + 1));
        pool := pool[j := st.(pos := st.pos + 1)];
      } else {
        rem' := RemoveState(j, add, rem, t);
      }
    }

    // `rm_match_char`
    method MatchChar(k: nat, ghost t: Net)
      requires Ready(t) && AreIn(live, |pool|) && k < |input|
      modifies this
      ensures Ready(t) && AreIn(live, |pool|)
      ensures Config(pool, live) == AfterChar(t, judge, input[k], k, Config(old(pool), old(live)))
    {
      hide IsNet, TheNet, PoolIn, AfterState, AreIn;
      ghost var g := Config(pool, live);
      var add: seq<int>, rem: seq<int>, r := [], [], 0;
      NoneIn(t, |pool|);
      while r < |live|
        invariant 0 <= r <= |live| && live == old(live) && Ready(t) && |g.pool| <= |pool| && AreIn(add, |pool|)
        invariant Work(pool, add, rem) == AfterStates(t, judge, input[k], k, g, r)
      {
        LiveIn(live, |g.pool|, r);
        ghost var v := Work(pool, add, rem);
        add, rem := MatchState(live[r], k, add, rem, t);
        StateGrows(t, judge, input[k], k, v, live[r]);
        r := r + 1;
      }
      BothIn(live, |g.pool|, add, |pool|);
      live := live + add;
      RemoveAll(rem);
    }

    // The end of `rm_match_char`: the states in the list of removed ones are no
    // longer live.
    method RemoveAll(rem: seq<int>)
      requires AreIn(live, |pool|)
      modifies `live
      ensures live == DropAll(old(live), rem) && AreIn(live, |pool|)
    {
      hide AreIn;
      var r := 0;
      while r < |rem|
        invariant 0 <= r <= |rem| && live == DropAll(old(live), rem[..r]) && AreIn(live, |pool|)
      {
        DropFirstIn(live, rem[r], |pool|);
        assert rem[..r + 1][..r] == rem[..r];
        live := DropFirst(live, rem[r]);
        r := r + 1;
      }
      assert rem[..r] == rem;
    }

    // A wildcard with which rules begin, entered before the first element.
    method BeginWild(y: Node, ghost t: Net)
      requires Ready(t) && y in t.N && LabelOf(t, y) != [] && |input| > 0 && pool == [] && live == []
      modifies this
      ensures Ready(t) && pool == WildStates(t, judge, y, input[0]) && live == Indices(|pool|)
    {
      hide IsNet, TheNet, PoolIn;
      var z := SearchBranch(y, input[0], t);
      pool := [State(y, 0, 0, -1, 0, false)];
      OneIn(t, pool[0]);
      live := [0];
      assert Indices(0) == [] && Indices(1) == Indices(0) + [0] && Indices(2) == Indices(1) + [1];
      if z != null {
        NetChild(t, y, input[0]);
        pool := [pool[0].(nrChildren := pool[0].nrChildren + 1)];
        OneIn(t, pool[0]);
        OneMoreIn(t, pool, State(z, 1, 0, 0, 0, false));
        pool := pool + [State(z, 1, 0, 0, 0, false)];
        live := live + [1];
      }
    }

    // The beginning of `rm_match`, which reads the first element.
    method Begin(ghost t: Net)
      requires t == TheNet() && IsNet(t) && |input| > 0 && pool == [] && live == []
      modifies this
      ensures Ready(t) && pool == FirstStates(t, judge, input[0]) && live == Indices(|pool|)
    {
      hide IsNet, TheNet, WildStates, PoolIn;
      NetIs(t);
      RootInNet(t);
      NoneIn(t, |input|);
      var x := root.tree.root;
      Reads(t, x);
      NetNode(t, x);
      if x.skey == [] {
        if x.wcNode != null {
          NetChild(t, x, t.w);
          BeginWild(x.wcNode, t);
        }
        var y := SearchBranch(x, input[0], t);
        if y != null {
          NetChild(t, x, input[0]);
          OneMoreIn(t, pool, State(y, 1, 0, -1, 0, false));
          pool := pool + [State(y, 1, 0, -1, 0, false)];
          live := live + [|pool| - 1];
        }
      } else {
        var wild := IsWildcard(x, t);
        if wild {
          BeginWild(x, t);
        } else if x.skey[0] == input[0] {
          OneMoreIn(t, pool, State(x, 1, 0, -1, 0, false));
          pool := pool + [State(x, 1, 0, -1, 0, false)];
          live := live + [|pool| - 1];
        }
      }
    }

    // The last pass of `rm_match` for one state: a wildcard is kept when a rule ends
    // there, a finished label as well, and a rule that ends with a wildcard below
    // it has been found, too.
    method CloseState(j: int, keep: seq<int>, add: seq<int>, ghost t: Net) returns (keep': seq<int>, add': seq<int>)
      requires Ready(t) && 0 <= j < |pool|
      modifies `pool
      ensures Ready(t) && |old(pool)| <= |pool| <= |old(pool)| + 1
      ensures Ends(pool, keep', add') == AfterEnd(t, |input|, Ends(old(pool), keep, add), j)
    {
      hide IsNet, TheNet, PoolIn;
      IsIn(t, pool, j);
      var st := pool[j];
      Reads(t, st.stub);
      var wild := IsWildcard(st.stub, t);
      var stays := st.stub.valid;
      add' := add;
      if !wild {
        if st.pos != |st.stub.skey| {
          stays := false;
        } else if st.stub.wcNode != null {
          var y := st.stub.wcNode;
          NetNode(t, st.stub);
          NetChild(t, st.stub, t.w);
          Reads(t, y);
          if y.valid {
            OneMoreIn(t, pool, State(y, 0, |input|, j, 0, false));
            add' := [|pool|] + add;
            pool := pool + [State(y, 0, |input|, j, 0, false)];
          }
        }
      }
      keep' := if stays then keep + [j] else keep;
    }

    // The last pass of `rm_match`.
    method Close(ghost t: Net)
      requires Ready(t) && AreIn(live, |pool|)
      modifies this
      ensures Ready(t) && AreIn(live, |pool|)
      ensures Config(pool, live) == Closed(t, |input|, Config(old(pool), old(live)))
    {
      hide IsNet, TheNet, PoolIn;
      ghost var g := Config(pool, live);
      var keep: seq<int>, add: seq<int>, r := [], [], 0;
      while r < |live|
        invariant 0 <= r <= |live| && live == old(live) && Ready(t)
        invariant |g.pool| <= |pool| && AreIn(keep, |pool|) && AreIn(add, |pool|)
        invariant Ends(pool, keep, add) == AfterEnds(t, |input|, g, r)
      {
        keep, add := CloseState(live[r], keep, add, t);
        r := r + 1;
      }
      live := keep + add;
    }

    // `rm_match`, for any input that is not empty.
    method Match()
      requires root.tree.root != null ==> IsNet(TheNet())
      requires input != [] && pool == [] && live == []
      modifies this
      ensures root.tree.root == null ==> live == []
      ensures root.tree.root != null ==> Ready(TheNet()) && AreIn(live, |pool|)
      ensures root.tree.root != null ==>
                Config(pool, live) == Closed(TheNet(), |input|, AfterInput(TheNet(), judge, input, |input|))
    {
      hide IsNet, TheNet, PoolIn, FirstStates, AfterChar, AreIn, Closed;
      if root.tree.root == null {
        return;
      }
      ghost var t := TheNet();
      Begin(t);
      IndicesIn(|pool|);
      var k := 1;
      while k < |input|
        invariant 1 <= k <= |input| && Ready(t) && AreIn(live, |pool|)
        invariant Config(pool, live) == AfterInput(t, judge, input, k)
      {
        MatchChar(k, t);
        k := k + 1;
      }
      Close(t);
    }

    // `rm_parse_result` for one state: back along the chain of parents.
    method ParseState(i: int, ghost t: Net) returns (h: Hit)
      requires Ready(t) && 0 <= i < |pool|
      ensures h == Hit(pool[i].stub, ReadBack(t, pool, i, |input|))
    {
      hide IsNet, PoolIn, TheNet;
      var spans: seq<Span>, enterPos: int, st: int := [], -1, i;
      while st >= 0
        invariant -1 <= st < |pool| && -1 <= enterPos
        invariant ReadBack(t, pool, i, |input|) ==
                  ReadBack(t, pool, st, if enterPos == -1 then |input| else enterPos) + spans
        decreases st
      {
        IsIn(t, pool, st);
        var wild := IsWildcard(pool[st].stub, t);
        var leave: nat := if enterPos == -1 then |input| else enterPos;
        if wild {
          spans := [Span(pool[st].enter, leave)] + spans;
        } else {
          enterPos := pool[st].enter;
        }
        st := pool[st].parent;
      }
      h := Hit(pool[i].stub, spans);
    }

    // `rm_parse_result`
    method ParseResult(ghost t: Net) returns (hits: seq<Hit>)
      requires Ready(t) && AreIn(live, |pool|)
      ensures hits == Results(t, pool, live, |input|)
    {
      hide IsNet, PoolIn, TheNet, ReadBack;
      hits := [];
      var r := 0;
      while r < |live|
        invariant 0 <= r <= |live| && hits == Results(t, pool, live[..r], |input|)
      {
        var h := ParseState(live[r], t);
        assert live[..r + 1][..r] == live[..r];
        hits := [h] + hits;
        r := r + 1;
      }
      assert live[..r] == live;
    }

    lemma {:induction false} NetHolds()
      requires root.Holds(root.tree.nodes)
      ensures IsNet(TheNet()) && Agrees(TheNet(), judge) && root.tree.root != null
      ensures IsNet(WholeNet()) && TheNet() == OpenNet(WholeNet(), judge)
    {
      hide Snapshot, IsMata, Agrees;
      OpenIsNet(WholeNet(), judge);
      OpenAgrees(WholeNet(), judge);
    }

    // A judge that never refuses lets the whole tree be seen.
    lemma {:induction false} NothingRefused()
      requires root.Holds(root.tree.nodes)
      requires forall x, y :: x in root.tree.nodes && y in root.tree.nodes ==> judge(x, y)
      ensures TheNet() == WholeNet()
    {
      AllOpen(WholeNet(), judge);
    }

    // All matches of the input, from a prepared tree.
    method FindAll() returns (hits: seq<Hit>)
      requires root.Holds(root.tree.nodes)
      requires input != [] && pool == [] && live == []
      modifies this
      ensures hits == Answer(TheNet(), judge, input)
      ensures forall i {:trigger hits[i]} :: 0 <= i < |hits| ==> IsRule(TheNet(), hits[i].rule)
      ensures root.wildcard !in input ==> IsAnswer(TheNet(), input, hits) && IsJudged(WholeNet(), judge, input, hits)
    {
      hide IsNet, IsAnswer, Agrees, PoolIn, AfterInput, Closed, Results, TheNet, IsRule, IsJudged, WholeNet;
      NetHolds();
      Match();
      hits := ParseResult(TheNet());
      ResultsNameRules(TheNet(), judge, input);
      NetIs(TheNet());
      if root.wildcard !in input {
        AnswerIsRight(TheNet(), judge, input);
        AnswerIsJudged(WholeNet(), judge, input, hits);
      }
    }
  }

  lemma {:induction false} OpenAgrees(t: Net, judge: Judge)
    requires t.N <= t.m.Keys
    ensures Agrees(OpenNet(t, judge), judge)
  {
    var t' := OpenNet(t, judge);
    forall x, c | x in t'.N && c in BranchesOf(t', x) && c != t'.w ensures judge(x, BranchesOf(t', x)[c]) {
      OpenIs(t, judge, x);
    }
  }

  lemma {:induction false} ChildGrows(t: Net, judge: Judge, c: Elem, k: nat, v: Work, p: int)
    ensures |v.pool| <= |AfterChild(t, judge, c, k, v, p).pool|
    ensures AreIn(v.add, |v.pool|) ==>
              AreIn(AfterChild(t, judge, c, k, v, p).add, |AfterChild(t, judge, c, k, v, p).pool|)
  {}

  lemma {:induction false} StateGrows(t: Net, judge: Judge, c: Elem, k: nat, v: Work, j: int)
    ensures |v.pool| <= |AfterState(t, judge, c, k, v, j).pool|
    ensures AreIn(v.add, |v.pool|) ==>
              AreIn(AfterState(t, judge, c, k, v, j).add, |AfterState(t, judge, c, k, v, j).pool|)
  {
    hide AfterChild;
    ChildGrows(t, judge, c, k, v, j);
    if 0 <= j < |v.pool| && WcOf(t, v.pool[j].stub) != null {
      var y, a := WcOf(t, v.pool[j].stub), |v.pool|;
      var v1 := AfterDrop(t, Work(Entered(v.pool, j, y, k), [a] + v.add, v.rem), j);
      ChildGrows(t, judge, c, k, v1, a);
    }
  }

  lemma {:induction false} LiveIn(ls: seq<int>, n: nat, r: nat)
    requires AreIn(ls, n) && r < |ls|
    ensures 0 <= ls[r] < n
  {}

  lemma {:induction false} BothIn(a: seq<int>, m: nat, b: seq<int>, n: nat)
    requires AreIn(a, m) && AreIn(b, n) && m <= n
    ensures AreIn(a + b, n)
  {}

  lemma {:induction false} IndicesIn(n: nat)
    ensures AreIn(Indices(n), n)
  {
    IndicesFacts(n);
  }

  // On the way to this node the judge has let everything pass. He is asked about a
  // node and its parent, but not when the node begins with the wildcard.
  ghost predicate IsLetThrough(t: Net, judge: Judge, x: Node) {
    forall y {:trigger ParentOf(t, y)} ::
      y in t.N && PathOf(t, y) <= PathOf(t, x) && ParentOf(t, y) != null && LabelOf(t, y) != []
      && LabelOf(t, y)[0] != t.w
      ==> judge(ParentOf(t, y), y)
  }

  lemma {:induction false} OpenRules(t: Net, judge: Judge, x: Node)
    requires IsNet(t)
    ensures IsRule(OpenNet(t, judge), x) <==> IsRule(t, x) && IsLetThrough(t, judge, x)
  {
    hide IsNet;
    if x in t.N {
      NetNode(t, x);
      if IsLetThrough(t, judge, x) {
        forall y | y in t.N && y in t.P && t.P[y] <= t.P[x] ensures Passes(t, judge, y) {
          NetNode(t, y);
          assert ParentOf(t, y) != null && LabelOf(t, y) != [] && LabelOf(t, y)[0] != t.w ==> judge(ParentOf(t, y), y);
        }
      }
      if x in RmJudge.Reached(t, judge) {
        forall y | y in t.N && PathOf(t, y) <= PathOf(t, x) && ParentOf(t, y) != null && LabelOf(t, y) != []
            && LabelOf(t, y)[0] != t.w
          ensures judge(ParentOf(t, y), y)
        {
          NetNode(t, y);
          assert Passes(t, judge, y);
        }
      }
    }
  }

  // Of the whole tree, the hits are all fillings of the rules that are let through.
  ghost predicate IsJudged(t: Net, judge: Judge, s: Str, hits: seq<Hit>) {
    && (forall i {:trigger hits[i]} ::
          0 <= i < |hits| ==> HitOk(t, s, hits[i]) && IsLetThrough(t, judge, hits[i].rule))
    && (forall h {:trigger h in hits} :: HitOk(t, s, h) && IsLetThrough(t, judge, h.rule) ==> h in hits)
    && (forall i, j :: 0 <= i < j < |hits| ==> hits[i] != hits[j])
  }

  lemma {:induction false} AnswerIsJudged(t: Net, judge: Judge, s: Str, hits: seq<Hit>)
    requires IsNet(t) && IsAnswer(OpenNet(t, judge), s, hits)
    ensures IsJudged(t, judge, s, hits)
  {
    hide IsNet, HitOk, IsLetThrough, OpenNet;
    forall i {:trigger hits[i]} | 0 <= i < |hits|
      ensures HitOk(t, s, hits[i]) && IsLetThrough(t, judge, hits[i].rule)
    {
      OpenHit(t, judge, s, hits[i]);
    }
    forall h | HitOk(t, s, h) && IsLetThrough(t, judge, h.rule) ensures h in hits {
      OpenHit(t, judge, s, h);
    }
  }

  lemma {:induction false} OpenHit(t: Net, judge: Judge, s: Str, h: Hit)
    requires IsNet(t)
    ensures HitOk(OpenNet(t, judge), s, h) <==> HitOk(t, s, h) && IsLetThrough(t, judge, h.rule)
  {
    hide IsNet, Fits, IsRule, IsLetThrough;
    OpenRules(t, judge, h.rule);
  }

  predicate SaysSo(s: Str, h: Hit, x: Node, words: seq<Str>) {
    h.rule == x && Words(s, h.spans) == words
  }

  // The answer in terms of substitution: for every rule, and for every way to
  // replace its wildcards that gives the input, there is exactly one hit.
  lemma {:induction false} AnswerIsExact(t: Net, s: Str, hits: seq<Hit>, x: Node, words: seq<Str>)
    requires IsAnswer(t, s, hits) && IsRule(t, x) && |words| == Wildcards(t.w, PathOf(t, x))
        && Expand(t.w, PathOf(t, x), words) == s
    ensures var h := Hit(x, SpansOf(t.w, PathOf(t, x), words));
            && h in hits && Words(s, h.spans) == words
            && forall i, j ::
                  0 <= i < |hits| && 0 <= j < |hits| && SaysSo(s, hits[i], x, words) && SaysSo(s, hits[j], x, words)
                  ==> i == j
  {
    hide Fits, Expand, Words, SpansOf;
    var u := PathOf(t, x);
    assert s[..|s|] == s;
    ExpandFits(t.w, u, s, |s|, words);
    var h := Hit(x, SpansOf(t.w, u, words));
    assert HitOk(t, s, h);
    forall i | 0 <= i < |hits| && SaysSo(s, hits[i], x, words) ensures hits[i] == h {
      assert HitOk(t, s, hits[i]);
      SpansOfWords(t.w, u, s, |s|, hits[i].spans);
    }
  }

  lemma {:induction false} AnswerIsSound(t: Net, s: Str, hits: seq<Hit>, i: nat)
    requires IsAnswer(t, s, hits) && i < |hits|
    ensures var h := hits[i];
            && IsRule(t, h.rule) && |h.spans| == Wildcards(t.w, PathOf(t, h.rule))
            && Expand(t.w, PathOf(t, h.rule), Words(s, h.spans)) == s
  {
    var h := hits[i];
    assert s[..|s|] == s;
    FitsExpands(t.w, PathOf(t, h.rule), s, |s|, h.spans);
  }
}
