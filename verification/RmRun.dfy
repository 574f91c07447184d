// What the matcher does, as functions of the tree and the input. Nothing is
// asked of the input here: the wildcard is an element like any other one.
module RmRun {
  import opened RtLinks
  import opened RmItems
  import opened RmStates
  import opened RmLoop
  import opened RmEnds
  import opened RmJudge

  // The states, and the lists of those to be added and to be removed.
  datatype Work = Work(pool: Pool, add: seq<int>, rem: seq<int>)

  // The states, and the list of live ones.
  datatype Config = Config(pool: Pool, live: seq<int>)

  // `search_branch`, and the question to the judge
  function Next(t: Net, judge: Judge, x: Node, c: Elem): Node? {
    if c in BranchesOf(t, x) && judge(x, BranchesOf(t, x)[c]) then BranchesOf(t, x)[c] else null
  }

  // The first wildcard on the way up.
  function Nearest(t: Net, pool: Pool, p: int): int
    decreases p
  {
    if !(0 <= p < |pool|) then -1
    else if IsWild(t, pool[p].stub) then p
    else if pool[p].parent < p then Nearest(t, pool, pool[p].parent) else -1
  }

  // ------------------------------------------------------------- one element

  // `rm_process_wc_child`
  function AfterChild(t: Net, judge: Judge, c: Elem, k: nat, v: Work, p: int): Work {
    if !(0 <= p < |v.pool|) then v
    else
      var y := Next(t, judge, v.pool[p].stub, c);
      if y == null then v else Work(Spawned(v.pool, p, y, k), [|v.pool|] + v.add, v.rem)
  }

  // `rm_remove_state`
  function AfterRemoval(t: Net, v: Work, j: int): Work {
    if !(0 <= j < |v.pool|) then v
    else
      var p := Nearest(t, v.pool, v.pool[j].parent);
      var pool := if 0 <= p < |v.pool| then v.pool[p := v.pool[p].(nrChildren := v.pool[p].nrChildren - 1)] else v.pool;
      if pool[j].listed then Work(pool, v.add, v.rem)
      else Work(pool[j := pool[j].(listed := true)], v.add, [j] + v.rem)
  }

  // The wildcard above a finished label goes when no label is left below it.
  function AfterDrop(t: Net, v: Work, j: int): Work {
    if !(0 <= j < |v.pool|) then v
    else
      var p := Nearest(t, v.pool, v.pool[j].parent);
      if 0 <= p < |v.pool| && v.pool[p].nrChildren == 0 && !IsRule(t, v.pool[p].stub) && !v.pool[p].listed
      then Work(v.pool[p := v.pool[p].(listed := true)], v.add, [p] + v.rem)
      else v
  }

  // A finished label enters the wildcard y below it.
  function AfterEntering(t: Net, judge: Judge, c: Elem, k: nat, v: Work, j: int, y: Node): Work {
    var a := |v.pool|;
    AfterChild(t, judge, c, k, AfterDrop(t, Work(Entered(v.pool, j, y, k), [a] + v.add, v.rem), j), a)
  }

  // A finished label goes on in a branch.
  function AfterBranch(t: Net, judge: Judge, c: Elem, v: Work, j: int): Work {
    if !(0 <= j < |v.pool|) then v
    else
      var y := Next(t, judge, v.pool[j].stub, c);
      if y == null then AfterRemoval(t, v, j) else v.(pool := Moved(v.pool, j, y, 1))
  }

  // `rm_match_state`
  function AfterState(t: Net, judge: Judge, c: Elem, k: nat, v: Work, j: int): Work {
    if !(0 <= j < |v.pool|) then v
    else
      var st := v.pool[j];
      var text, y := LabelOf(t, st.stub), WcOf(t, st.stub);
      if IsWild(t, st.stub) then AfterChild(t, judge, c, k, v, j)
      else if st.pos == |text| then
        AfterBranch(t, judge, c, if y == null then v else AfterEntering(t, judge, c, k, v, j, y), j)
      else if st.pos < |text| && text[st.pos] == c then v.(pool := Moved(v.pool, j, st.stub, st.pos + 1))
      else AfterRemoval(t, v, j)
  }

  // The first r live states have been dealt with.
  function AfterStates(t: Net, judge: Judge, c: Elem, k: nat, g: Config, r: nat): Work
    requires r <= |g.live|
  {
    if r == 0 then Work(g.pool, [], [])
    else AfterState(t, judge, c, k, AfterStates(t, judge, c, k, g, r - 1), g.live[r - 1])
  }

  function DropFirst(s: seq<int>, x: int): seq<int> {
    if s == [] then [] else if s[0] == x then s[1..] else [s[0]] + DropFirst(s[1..], x)
  }

  function DropAll(s: seq<int>, rem: seq<int>): seq<int>
    decreases |rem|
  {
    if rem == [] then s else DropFirst(DropAll(s, rem[..|rem| - 1]), rem[|rem| - 1])
  }

  // `rm_match_char`
  function AfterChar(t: Net, judge: Judge, c: Elem, k: nat, g: Config): Config {
    var v := AfterStates(t, judge, c, k, g, |g.live|);
    Config(v.pool, DropAll(g.live + v.add, v.rem))
  }

  // ---------------------------------------------------------------- the beginning

  // A wildcard with which rules begin.
  function WildStates(t: Net, judge: Judge, y: Node, c: Elem): Pool {
    var z := Next(t, judge, y, c);
    if z == null then [State(y, 0, 0, -1, 0, false)]
    else [State(y, 0, 0, -1, 1, false), State(z, 1, 0, 0, 0, false)]
  }

  function FirstStates(t: Net, judge: Judge, c: Elem): Pool {
    if t.root == null then []
    else
      var x: Node, text := t.root, LabelOf(t, t.root);
      if text == [] then
        var y, z := WcOf(t, x), Next(t, judge, x, c);
        (if y == null then [] else WildStates(t, judge, y, c))
        + if z == null then [] else [State(z, 1, 0, -1, 0, false)]
      else if IsWild(t, x) then WildStates(t, judge, x, c)
      else if text[0] == c then [State(x, 1, 0, -1, 0, false)]
      else []
  }

  function Indices(n: nat): seq<int> {
    if n == 0 then [] else Indices(n - 1) + [n - 1]
  }

  // The first k elements have been read.
  function AfterInput(t: Net, judge: Judge, s: Str, k: nat): Config
    requires 1 <= k <= |s|
  {
    if k == 1 then
      var pool := FirstStates(t, judge, s[0]);
      Config(pool, Indices(|pool|))
    else AfterChar(t, judge, s[k - 1], k - 1, AfterInput(t, judge, s, k - 1))
  }

  // ---------------------------------------------------------------------- the end

  // The states, the live ones that are kept, and those added at the end.
  datatype Ends = Ends(pool: Pool, keep: seq<int>, add: seq<int>)

  // The last pass of `rm_match`, for one state.
  function AfterEnd(t: Net, n: nat, v: Ends, j: int): Ends {
    if !(0 <= j < |v.pool|) then v
    else
      var st := v.pool[j];
      var text, y := LabelOf(t, st.stub), WcOf(t, st.stub);
      var stays := IsRule(t, st.stub) && (IsWild(t, st.stub) || st.pos == |text|);
      var keep := if stays then v.keep + [j] else v.keep;
      if !IsWild(t, st.stub) && st.pos == |text| && y != null && IsRule(t, y)
      then Ends(Entered(v.pool, j, y, n), keep, [|v.pool|] + v.add)
      else v.(keep := keep)
  }

  function AfterEnds(t: Net, n: nat, g: Config, r: nat): Ends
    requires r <= |g.live|
  {
    if r == 0 then Ends(g.pool, [], []) else AfterEnd(t, n, AfterEnds(t, n, g, r - 1), g.live[r - 1])
  }

  function Closed(t: Net, n: nat, g: Config): Config {
    var v := AfterEnds(t, n, g, |g.live|);
    Config(v.pool, v.keep + v.add)
  }

  // `rm_parse_result` for one state: a wildcard is left where the label after it
  // is entered.
  function ReadBack(t: Net, pool: Pool, i: int, leave: nat): seq<Span>
    decreases i
  {
    if !(0 <= i < |pool|) then []
    else
      var st := pool[i];
      var wild := IsWild(t, st.stub);
      (if st.parent < i then ReadBack(t, pool, st.parent, if wild then leave else st.enter) else [])
      + if wild then [Span(st.enter, leave)] else []
  }

  // One result for each state in the list, the last one first.
  function Results(t: Net, pool: Pool, ls: seq<int>, n: nat): seq<Hit> {
    if ls == [] then []
    else
      var i, rest := ls[|ls| - 1], Results(t, pool, ls[..|ls| - 1], n);
      if 0 <= i < |pool| then [Hit(pool[i].stub, ReadBack(t, pool, i, n))] + rest else rest
  }

  // `rm_match` and `rm_parse_result`
  function Answer(t: Net, judge: Judge, s: Str): seq<Hit>
    requires s != []
  {
    var g := Closed(t, |s|, AfterInput(t, judge, s, |s|));
    Results(t, g.pool, g.live, |s|)
  }

  // Right or not, every result names a rule.
  lemma {:induction false} ResultsNameRules(t: Net, judge: Judge, s: Str)
    requires s != []
    ensures forall i {:trigger Answer(t, judge, s)[i]} :: 0 <= i < |Answer(t, judge, s)| ==>
              IsRule(t, Answer(t, judge, s)[i].rule)
  {
    hide AfterInput, AfterEnds, Results, IsRule;
    var g := AfterInput(t, judge, s, |s|);
    EndsAreRules(t, |s|, g, |g.live|);
    var v := AfterEnds(t, |s|, g, |g.live|);
    forall i | i in v.keep + v.add ensures IsAtRule(t, v.pool, i) {}
    NamesAreRules(t, v.pool, v.keep + v.add, |s|);
  }

  ghost predicate IsAtRule(t: Net, pool: Pool, i: int) {
    i < |pool| && (0 <= i ==> IsRule(t, pool[i].stub))
  }

  ghost predicate AreAtRules(t: Net, pool: Pool, ls: seq<int>) {
    forall i {:trigger IsAtRule(t, pool, i)} :: i in ls ==> IsAtRule(t, pool, i)
  }

  lemma {:induction false} EndsAreRules(t: Net, n: nat, g: Config, r: nat)
    requires r <= |g.live|
    ensures var v := AfterEnds(t, n, g, r); AreAtRules(t, v.pool, v.keep) && AreAtRules(t, v.pool, v.add)
    decreases r
  {
    hide IsRule;
    if r > 0 {
      EndsAreRules(t, n, g, r - 1);
      var v, j := AfterEnds(t, n, g, r - 1), g.live[r - 1];
      var v' := AfterEnd(t, n, v, j);
      forall i | i in v'.keep ensures IsAtRule(t, v'.pool, i) {
        assert i in v.keep ==> IsAtRule(t, v.pool, i);
      }
      forall i | i in v'.add ensures IsAtRule(t, v'.pool, i) {
        assert i in v.add ==> IsAtRule(t, v.pool, i);
      }
    }
  }

  lemma {:induction false} NamesAreRules(t: Net, pool: Pool, ls: seq<int>, n: nat)
    requires AreAtRules(t, pool, ls)
    ensures forall i {:trigger Results(t, pool, ls, n)[i]} :: 0 <= i < |Results(t, pool, ls, n)| ==>
              IsRule(t, Results(t, pool, ls, n)[i].rule)
    decreases |ls|
  {
    hide IsRule;
    if ls != [] {
      var rest := ls[..|ls| - 1];
      forall i | i in rest ensures IsAtRule(t, pool, i) {
        assert i in ls;
      }
      assert IsAtRule(t, pool, ls[|ls| - 1]);
      NamesAreRules(t, pool, rest, n);
    }
  }

  // ------------------------------------------------------------- staying in range

  // Every state is at a node of the tree and inside its label.
  ghost predicate StateIn(t: Net, pool: Pool, i: int) {
    0 <= i < |pool| &&
    var st := pool[i];
    st.stub in t.N && LabelOf(t, st.stub) != [] && -1 <= st.parent < i && st.pos <= |LabelOf(t, st.stub)|
  }

  ghost predicate PoolIn(t: Net, pool: Pool) {
    forall i {:trigger StateIn(t, pool, i)} :: 0 <= i < |pool| ==> StateIn(t, pool, i)
  }

  lemma {:induction false} IsIn(t: Net, pool: Pool, i: int)
    requires PoolIn(t, pool) && 0 <= i < |pool|
    ensures StateIn(t, pool, i)
  {}

  lemma {:induction false} OneMoreIn(t: Net, pool: Pool, st: State)
    requires PoolIn(t, pool) && st.stub in t.N && LabelOf(t, st.stub) != [] && st.pos <= |LabelOf(t, st.stub)|
    requires -1 <= st.parent < |pool|
    ensures PoolIn(t, pool + [st])
  {
    var pool1 := pool + [st];
    forall i | 0 <= i < |pool1| ensures StateIn(t, pool1, i) {
      if i < |pool| {
        IsIn(t, pool, i);
      }
    }
  }

  lemma {:induction false} ChangedIn(t: Net, pool: Pool, j: int, st: State)
    requires PoolIn(t, pool) && 0 <= j < |pool| && st.parent == pool[j].parent
    requires st.stub in t.N && LabelOf(t, st.stub) != [] && st.pos <= |LabelOf(t, st.stub)|
    ensures PoolIn(t, pool[j := st])
  {
    IsIn(t, pool, j);
    var pool1 := pool[j := st];
    forall i | 0 <= i < |pool1| ensures StateIn(t, pool1, i) {
      IsIn(t, pool, i);
    }
  }

  ghost predicate AreIn(ls: seq<int>, n: int) {
    forall i :: 0 <= i < |ls| ==> 0 <= ls[i] < n
  }

  lemma {:induction false} NoneIn(t: Net, n: nat)
    ensures PoolIn(t, []) && AreIn([], n)
  {}

  lemma {:induction false} OneIn(t: Net, st: State)
    requires st.stub in t.N && LabelOf(t, st.stub) != [] && st.pos <= |LabelOf(t, st.stub)| && st.parent == -1
    ensures PoolIn(t, [st])
  {}

  lemma {:induction false} DropFirstIn(s: seq<int>, x: int, n: int)
    requires AreIn(s, n)
    ensures AreIn(DropFirst(s, x), n)
  {
    if s != [] {
      assert forall i :: 0 <= i < |s[1..]| ==> s[1..][i] == s[i + 1];
      if s[0] != x {
        DropFirstIn(s[1..], x, n);
      }
    }
  }
}
