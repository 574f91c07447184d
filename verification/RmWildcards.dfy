// For an input with the wildcard in it, the answer can be wrong: the branch for
// the wildcard is the wildcard node, and a state that takes it stands there
// without having entered it. So the answers are right for all rules exactly when
// the input is free of the wildcard.
module RmWildcards {
  import opened RtLinks
  import opened RtSteps
  import opened RmSplit
  import opened RmItems
  import opened RmStates
  import opened RmLoop
  import opened RmEnds
  import opened RmJudge
  import opened RmRun
  import opened RmExact

  // ------------------------------------------------------------- two small trees

  // The prepared tree of one rule, which is k with a wildcard after it.
  function OneRule(x: Node, y: Node, w: Elem, k: Str): Net {
    Net(map[x := Cell(k, map[w := y], null, false, y), y := Cell([w], map[], x, true, null)],
        {x, y}, map[x := k, y := k + [w]], x, w)
  }

  lemma {:induction false} OneRuleIsNet(x: Node, y: Node, w: Elem, k: Str)
    requires x != y && k != [] && w !in k
    ensures IsNet(OneRule(x, y, w, k)) && IsRule(OneRule(x, y, w, k), y)
  {
    var t := OneRule(x, y, w, k);
    forall n | n in t.N ensures NodeOk(t.m, t.N, t.P, t.root, n) && WcOk(t.m, w, t.N, n) && SegmentOk(t.m, w, n) {
      forall c | c in t.m[n].branches ensures LinkOk(t.m, t.N, t.P, n, c) {}
    }
    forall n | n in t.N ensures NoneAdjacent(w, t.P[n]) {
      forall i | 0 <= i < |t.P[n]| - 1 ensures t.P[n][i] != w {
        assert t.P[n][i] == k[i];
      }
    }
  }

  // The prepared tree of two rules, a wildcard and an element.
  function TwoRules(x: Node, y: Node, z: Node, w: Elem, a: Elem): Net {
    Net(map[x := Cell([], map[w := y, a := z], null, false, y), y := Cell([w], map[], x, true, null),
            z := Cell([a], map[], x, true, null)],
        {x, y, z}, map[x := [], y := [w], z := [a]], x, w)
  }

  lemma {:induction false} TwoRulesIsNet(x: Node, y: Node, z: Node, w: Elem, a: Elem)
    requires x != y && y != z && x != z && a != w
    ensures IsNet(TwoRules(x, y, z, w, a)) && IsRule(TwoRules(x, y, z, w, a), y)
  {
    var t := TwoRules(x, y, z, w, a);
    forall n | n in t.N ensures NodeOk(t.m, t.N, t.P, t.root, n) && WcOk(t.m, w, t.N, n) && SegmentOk(t.m, w, n) {
      forall c | c in t.m[n].branches ensures LinkOk(t.m, t.N, t.P, n, c) {}
    }
  }

  // -------------------------------------------------------- states with nothing to do

  // All live states are at wildcards where rules end and nothing follows.
  ghost predicate AreIdle(t: Net, g: Config) {
    forall i {:trigger g.live[i]} :: 0 <= i < |g.live| ==>
      && 0 <= g.live[i] < |g.pool| && IsWild(t, g.pool[g.live[i]].stub)
      && BranchesOf(t, g.pool[g.live[i]].stub) == map[] && IsRule(t, g.pool[g.live[i]].stub)
  }

  lemma {:induction false} IdleStates(t: Net, judge: Judge, c: Elem, k: nat, g: Config, r: nat)
    requires AreIdle(t, g) && r <= |g.live|
    ensures AfterStates(t, judge, c, k, g, r) == Work(g.pool, [], [])
  {
    if r > 0 {
      IdleStates(t, judge, c, k, g, r - 1);
      assert 0 <= g.live[r - 1] < |g.pool|;
    }
  }

  // They take every element, and are all kept in the end.
  lemma {:induction false} IdleChar(t: Net, judge: Judge, c: Elem, k: nat, g: Config)
    requires AreIdle(t, g)
    ensures AfterChar(t, judge, c, k, g) == g
  {
    IdleStates(t, judge, c, k, g, |g.live|);
    assert g.live + [] == g.live;
  }

  lemma {:induction false} IdleEnds(t: Net, n: nat, g: Config, r: nat)
    requires AreIdle(t, g) && r <= |g.live|
    ensures AfterEnds(t, n, g, r) == Ends(g.pool, g.live[..r], [])
  {
    if r > 0 {
      IdleEnds(t, n, g, r - 1);
      assert 0 <= g.live[r - 1] < |g.pool|;
      assert g.live[..r] == g.live[..r - 1] + [g.live[r - 1]];
    }
  }

  lemma {:induction false} IdleEnd(t: Net, n: nat, g: Config)
    requires AreIdle(t, g)
    ensures Closed(t, n, g) == g
  {
    IdleEnds(t, n, g, |g.live|);
    assert g.live[..|g.live|] + [] == g.live;
  }

  lemma {:induction false} IdleInput(t: Net, judge: Judge, s: Str, from: nat, k: nat)
    requires 1 <= from <= k <= |s| && AreIdle(t, AfterInput(t, judge, s, from))
    ensures AfterInput(t, judge, s, k) == AfterInput(t, judge, s, from)
    decreases k
  {
    hide AfterChar, FirstStates, AreIdle;
    if k > from {
      IdleInput(t, judge, s, from, k - 1);
      IdleChar(t, judge, s[k - 1], k - 1, AfterInput(t, judge, s, from));
    }
  }

  // ---------------------------------------------------------- a wildcard after a label

  // One rule, and an input that begins like it.
  ghost predicate BeginsLike(x: Node, y: Node, w: Elem, k: Str, s: Str, judge: Judge) {
    x != y && k != [] && w !in k && |k| < |s| && s[..|k|] == k && s[|k|] == w && judge(x, y)
  }

  lemma {:induction false} LabelIsRead(x: Node, y: Node, w: Elem, k: Str, s: Str, judge: Judge, n: nat)
    requires BeginsLike(x, y, w, k, s, judge) && 1 <= n <= |k|
    ensures AfterInput(OneRule(x, y, w, k), judge, s, n) == Config([State(x, n, 0, -1, 0, false)], [0])
    decreases n
  {
    hide OneRule, FirstStates, AfterChar, Indices;
    assert s[n - 1] == s[..|k|][n - 1] == k[n - 1];
    if n == 1 {
      LabelStarts(x, y, w, k, judge);
    } else {
      LabelIsRead(x, y, w, k, s, judge, n - 1);
      LabelStep(x, y, w, k, judge, n - 1);
    }
  }

  lemma {:induction false} LabelStarts(x: Node, y: Node, w: Elem, k: Str, judge: Judge)
    requires x != y && k != [] && w !in k
    ensures FirstStates(OneRule(x, y, w, k), judge, k[0]) == [State(x, 1, 0, -1, 0, false)] && Indices(1) == [0]
  {
    assert k != [w] by { assert k[0] in k; }
    assert Indices(1) == Indices(0) + [0];
  }

  lemma {:induction false} LabelStep(x: Node, y: Node, w: Elem, k: Str, judge: Judge, n: nat)
    requires x != y && w !in k && 1 <= n < |k|
    ensures AfterChar(OneRule(x, y, w, k), judge, k[n], n, Config([State(x, n, 0, -1, 0, false)], [0]))
            == Config([State(x, n + 1, 0, -1, 0, false)], [0])
  {
    var t, g := OneRule(x, y, w, k), Config([State(x, n, 0, -1, 0, false)], [0]);
    assert k != [w] by { assert k[n] in k; }
    assert AfterStates(t, judge, k[n], n, g, 0) == Work(g.pool, [], []);
    assert AfterStates(t, judge, k[n], n, g, 1).pool == [State(x, n + 1, 0, -1, 0, false)];
  }

  // The two states from then on: the one that has entered the wildcard has the
  // other one above it, which stands at the wildcard without having entered it.
  function LostStates(y: Node, p: nat): Config {
    Config([State(y, 1, 0, -1, 0, false), State(y, 0, p, 0, 0, false)], [0, 1])
  }

  lemma {:induction false} WildcardIsRead(x: Node, y: Node, w: Elem, k: Str, judge: Judge)
    requires x != y && k != [] && w !in k && judge(x, y)
    ensures AfterChar(OneRule(x, y, w, k), judge, w, |k|, Config([State(x, |k|, 0, -1, 0, false)], [0]))
            == LostStates(y, |k|)
  {
    var t, g, n := OneRule(x, y, w, k), Config([State(x, |k|, 0, -1, 0, false)], [0]), |k|;
    assert k != [w] by { assert k[0] in k; }
    var v0 := Work(g.pool, [], []);
    assert AfterStates(t, judge, w, n, g, 0) == v0;
    var v1 := Work([State(x, n, 0, -1, 0, false), State(y, 0, n, 0, 0, false)], [1], []);
    assert Entered(g.pool, 0, y, n) == v1.pool;
    assert AfterDrop(t, v1, 0) == v1;
    assert AfterChild(t, judge, w, n, v1, 1) == v1;
    assert AfterEntering(t, judge, w, n, v0, 0, y) == v1;
    assert AfterBranch(t, judge, w, v1, 0).pool == LostStates(y, n).pool;
    assert [0] + [1] == [0, 1];
  }

  // The run ends with two results. Neither is a match, and the match there is has
  // not been found.
  lemma {:induction false} LostMatch(x: Node, y: Node, w: Elem, k: Str, s: Str, judge: Judge)
    requires BeginsLike(x, y, w, k, s, judge)
    ensures var t, n := OneRule(x, y, w, k), |s|;
            && Answer(t, judge, s) == [Hit(y, [Span(0, n), Span(|k|, n)]), Hit(y, [Span(0, n)])]
            && !HitOk(t, s, Hit(y, [Span(0, n), Span(|k|, n)])) && !HitOk(t, s, Hit(y, [Span(0, n)]))
            && HitOk(t, s, Hit(y, [Span(|k|, n)])) && !IsAnswer(t, s, Answer(t, judge, s))
  {
    hide AfterChar, FirstStates, Fits, IsNet;
    var t, n, p := OneRule(x, y, w, k), |s|, |k|;
    OneRuleIsNet(x, y, w, k);
    LabelIsRead(x, y, w, k, s, judge, p);
    WildcardIsRead(x, y, w, k, judge);
    var g := LostStates(y, p);
    assert AfterInput(t, judge, s, p + 1) == g;
    IdleInput(t, judge, s, p + 1, n);
    IdleEnd(t, n, g);
    LostResults(t, y, p, n);
    WrongSpans(w, k, s, n);
    assert Answer(t, judge, s)[0] == Hit(y, [Span(0, n), Span(p, n)]);
  }

  lemma {:induction false} LostResults(t: Net, y: Node, p: nat, n: nat)
    requires IsWild(t, y)
    ensures var g := LostStates(y, p);
            Results(t, g.pool, g.live, n) == [Hit(y, [Span(0, n), Span(p, n)]), Hit(y, [Span(0, n)])]
  {
    var g := LostStates(y, p);
    assert ReadBack(t, g.pool, 0, n) == [Span(0, n)];
    assert ReadBack(t, g.pool, 1, n) == [Span(0, n), Span(p, n)];
    assert [0, 1][..1] == [0] && [0][..0] == [];
    assert Results(t, g.pool, [], n) == [];
    assert Results(t, g.pool, [0], n) == [Hit(y, [Span(0, n)])];
  }

  lemma {:induction false} WrongSpans(w: Elem, k: Str, s: Str, n: nat)
    requires k != [] && w !in k && |k| < n == |s| && s[..|k|] == k
    ensures !Fits(w, k + [w], s, n, [Span(0, n), Span(|k|, n)]) && !Fits(w, k + [w], s, n, [Span(0, n)])
    ensures Fits(w, k + [w], s, n, [Span(|k|, n)])
  {
    hide Fits;
    var a, b, c := [Span(0, n), Span(|k|, n)], [Span(0, n)], [Span(|k|, n)];
    assert Init(a) == [Span(0, n)] && Init(b) == [] && Init(c) == [];
    FitsSnoc(w, k, w, s, n, a);
    FitsSnoc(w, k, w, s, n, b);
    FitsSnoc(w, k, w, s, n, c);
    LabelFits(w, k, s, |k|, []);
    LabelFits(w, k, s, |k|, Init(a));
    assert k[..|k|] == k;
    NothingFits(w, k, s);
  }

  // A label without a wildcard accounts for itself, without stretches.
  lemma {:induction false} LabelFits(w: Elem, k: Str, s: Str, n: nat, spans: seq<Span>)
    requires w !in k && n <= |k| <= |s| && s[..|k|] == k
    ensures Fits(w, k[..n], s, n, spans) <==> spans == []
    decreases n
  {
    hide Fits;
    if n > 0 {
      LabelFits(w, k, s, n - 1, spans);
      assert k[..n] == k[..n - 1] + [k[n - 1]] && s[n - 1] == s[..|k|][n - 1];
      FitsSnoc(w, k[..n - 1], k[n - 1], s, n, spans);
    } else {
      FitsSnoc(w, [], w, s, 0, spans);
    }
  }

  lemma {:induction false} NothingFits(w: Elem, k: Str, s: Str)
    requires w !in k && k != []
    ensures !Fits(w, k, s, 0, [])
  {}

  // ---------------------------------------------------------- a wildcard at the front

  // A root without a label lets the wildcard be entered, and be taken as a branch.
  function DoubleStates(y: Node): Config {
    Config([State(y, 0, 0, -1, 0, false), State(y, 1, 0, -1, 0, false)], [0, 1])
  }

  // The one match is reported twice.
  lemma {:induction false} DoubleMatch(x: Node, y: Node, z: Node, w: Elem, a: Elem, s: Str, judge: Judge)
    requires x != y && y != z && x != z && a != w && s != [] && s[0] == w && judge(x, y)
    ensures var t, n := TwoRules(x, y, z, w, a), |s|;
            && Answer(t, judge, s) == [Hit(y, [Span(0, n)]), Hit(y, [Span(0, n)])]
            && HitOk(t, s, Hit(y, [Span(0, n)])) && !IsAnswer(t, s, Answer(t, judge, s))
  {
    hide AfterChar, AfterInput, FirstStates, TwoRules, DoubleStates, AreIdle, Closed, Results, Fits, IsAnswer, IsRule;
    var t, n, g := TwoRules(x, y, z, w, a), |s|, DoubleStates(y);
    DoubleStarts(x, y, z, w, a, s, judge);
    IdleInput(t, judge, s, 1, n);
    IdleEnd(t, n, g);
    DoubleResults(t, y, n);
    WildcardFits(w, s);
    TwiceIsWrong(t, s, Hit(y, [Span(0, n)]));
  }

  lemma {:induction false} DoubleStarts(x: Node, y: Node, z: Node, w: Elem, a: Elem, s: Str, judge: Judge)
    requires x != y && y != z && x != z && a != w && s != [] && s[0] == w && judge(x, y)
    ensures var t, g := TwoRules(x, y, z, w, a), DoubleStates(y);
            && AfterInput(t, judge, s, 1) == g && AreIdle(t, g) && IsWild(t, y) && PathOf(t, y) == [w] && IsRule(t, y)
            && t.w == w
  {
    hide AreIdle, FirstStates, AfterChar;
    var t := TwoRules(x, y, z, w, a);
    DoubleEntry(x, y, z, w, a, judge);
    assert Indices(0) == [] && Indices(1) == [0] && Indices(2) == [0, 1];
    TwoIdle(t, y, DoubleStates(y));
  }

  lemma {:induction false} DoubleEntry(x: Node, y: Node, z: Node, w: Elem, a: Elem, judge: Judge)
    requires x != y && y != z && x != z && a != w && judge(x, y)
    ensures FirstStates(TwoRules(x, y, z, w, a), judge, w) == DoubleStates(y).pool
  {
    var t := TwoRules(x, y, z, w, a);
    assert WildStates(t, judge, y, w) == [State(y, 0, 0, -1, 0, false)];
    assert Next(t, judge, x, w) == y;
  }

  lemma {:induction false} TwoIdle(t: Net, y: Node, g: Config)
    requires IsWild(t, y) && BranchesOf(t, y) == map[] && IsRule(t, y)
    requires g.live == [0, 1] && |g.pool| == 2 && g.pool[0].stub == y && g.pool[1].stub == y
    ensures AreIdle(t, g)
  {}

  lemma {:induction false} WildcardFits(w: Elem, s: Str)
    ensures Fits(w, [w], s, |s|, [Span(0, |s|)])
  {
    assert [] + [w] == [w] && Init([Span(0, |s|)]) == [];
    FitsSnoc(w, [], w, s, |s|, [Span(0, |s|)]);
    FitsSnoc(w, [], w, s, 0, []);
  }

  lemma {:induction false} TwiceIsWrong(t: Net, s: Str, h: Hit)
    ensures !IsAnswer(t, s, [h, h])
  {
    assert [h, h][0] == [h, h][1];
  }

  lemma {:induction false} DoubleResults(t: Net, y: Node, n: nat)
    requires IsWild(t, y)
    ensures var g := DoubleStates(y);
            Results(t, g.pool, g.live, n) == [Hit(y, [Span(0, n)]), Hit(y, [Span(0, n)])]
  {
    var g := DoubleStates(y);
    assert ReadBack(t, g.pool, 0, n) == [Span(0, n)] && ReadBack(t, g.pool, 1, n) == [Span(0, n)];
    assert [0, 1][..1] == [0] && [0][..0] == [];
    assert Results(t, g.pool, [], n) == [];
    assert Results(t, g.pool, [0], n) == [Hit(y, [Span(0, n)])];
  }

  // ------------------------------------------------------------- the exact condition

  // If the tree is prepared for this wildcard, and the judge agrees with it, the
  // answer is right.
  ghost predicate GetsRight(t: Net, judge: Judge, w: Elem, s: Str)
    requires s != []
  {
    IsNet(t) && t.w == w && Agrees(t, judge) ==> IsAnswer(t, s, Answer(t, judge, s))
  }

  // The first place of an element.
  function Place(s: Str, w: Elem): (p: nat)
    requires w in s
    ensures p < |s| && s[p] == w && w !in s[..p]
  {
    if s[0] == w then 0
    else
      var p := 1 + Place(s[1..], w);
      assert s[..p] == [s[0]] + s[1..][..p - 1];
      p
  }

  // Every prepared tree gets the right answer for this input if and only if the
  // wildcard is not in the input.
  lemma {:induction false} RightWithoutWildcard(s: Str, w: Elem, x: Node, y: Node, z: Node)
    requires s != [] && x != y && y != z && x != z
    ensures (forall t: Net, judge: Judge {:trigger GetsRight(t, judge, w, s)} :: GetsRight(t, judge, w, s)) <==> w !in s
  {
    hide IsNet, IsAnswer, Agrees, Answer;
    if w !in s {
      forall t: Net, judge: Judge ensures GetsRight(t, judge, w, s) {
        if IsNet(t) && t.w == w && Agrees(t, judge) {
          AnswerIsRight(t, judge, s);
        }
      }
    } else {
      var t, judge := WrongAnswer(s, w, x, y, z);
      assert !GetsRight(t, judge, w, s);
    }
  }

  lemma {:induction false} WrongAnswer(s: Str, w: Elem, x: Node, y: Node, z: Node) returns (t: Net, judge: Judge)
    requires w in s && x != y && y != z && x != z
    ensures !GetsRight(t, judge, w, s)
  {
    hide IsNet, IsAnswer, Answer;
    judge := (a, b) => true;
    var p := Place(s, w);
    if p == 0 {
      t := TwoRules(x, y, z, w, w + 1);
      TwoRulesIsNet(x, y, z, w, w + 1);
      DoubleMatch(x, y, z, w, w + 1, s, judge);
    } else {
      t := OneRule(x, y, w, s[..p]);
      OneRuleIsNet(x, y, w, s[..p]);
      LostMatch(x, y, w, s[..p], s, judge);
    }
  }
}
