// The mathematics behind the Aho-Corasick engine: sets of keyword prefixes, the
// longest suffix of a text that lies in such a set, and why one automaton state
// per prefix is enough to find every occurrence.
module AcTheory {

  type Byte = b: int | 0 <= b < 256
  type Str = seq<Byte>

  ghost predicate IsSuffix(u: Str, w: Str) {
    |u| <= |w| && w[|w| - |u|..] == u
  }

  function Front(w: Str): Str
    requires w != []
  {
    w[..|w| - 1]
  }

  // The states of the keyword trie, each given by the string that leads to it:
  // state 0 is the empty string, no string has two states, and the set is
  // closed under taking prefixes.
  ghost predicate IsPathSet(P: seq<Str>) {
    && |P| > 0
    && P[0] == []
    && (forall s, t :: 0 <= s < t < |P| ==> P[s] != P[t])
    && (forall s :: 0 < s < |P| ==> HasFront(P, s))
  }

  ghost predicate HasFront(P: seq<Str>, s: nat)
    requires s < |P|
  {
    P[s] != [] && Front(P[s]) in P
  }

  ghost function StateOf(P: seq<Str>, u: Str): (s: nat)
    requires u in P
    ensures s < |P| && P[s] == u
  {
    var s :| 0 <= s < |P| && P[s] == u; s
  }

  // The longest suffix of w that is a trie path.
  ghost function Longest(P: seq<Str>, w: Str): (r: Str)
    requires [] in P
    ensures r in P && IsSuffix(r, w)
    ensures forall u :: u in P && IsSuffix(u, w) ==> |u| <= |r|
    decreases |w|
  {
    if w in P then w
    else
      var r := Longest(P, w[1..]);
      assert forall u :: u in P && IsSuffix(u, w) ==> IsSuffix(u, w[1..]) by {
        forall u | u in P && IsSuffix(u, w) ensures IsSuffix(u, w[1..]) {
          SuffixOfTail(u, w);
        }
      }
      r
  }

  lemma {:induction false} SuffixOfTail(u: Str, w: Str)
    requires w != [] && u != w
    ensures IsSuffix(u, w) <==> IsSuffix(u, w[1..])
  {
    if |u| < |w| {
      assert w[1..][|w| - 1 - |u|..] == w[|w| - |u|..];
    }
  }

  lemma {:induction false} SuffixTransitive(u: Str, v: Str, w: Str)
    requires IsSuffix(u, v) && IsSuffix(v, w)
    ensures IsSuffix(u, w)
  {
    assert w[|w| - |u|..] == w[|w| - |v|..][|v| - |u|..];
  }

  // Of two suffixes of one string, the shorter is a suffix of the longer.
  lemma {:induction false} SuffixesNest(u: Str, v: Str, w: Str)
    requires IsSuffix(u, w) && IsSuffix(v, w) && |u| <= |v|
    ensures IsSuffix(u, v)
  {
    assert w[|w| - |u|..] == w[|w| - |v|..][|v| - |u|..];
  }

  lemma {:induction false} SuffixSnoc(u: Str, w: Str, c: Byte)
    ensures IsSuffix(u + [c], w + [c]) <==> IsSuffix(u, w)
  {
    if |u| <= |w| {
      var k := |w| - |u|;
      assert (w + [c])[k..] == w[k..] + [c];
      if w[k..] + [c] == u + [c] {
        assert w[k..] == (w[k..] + [c])[..|u|] == (u + [c])[..|u|] == u;
      }
    }
  }

  lemma {:induction false} FrontOfPath(P: seq<Str>, u: Str)
    requires IsPathSet(P) && u in P && u != []
    ensures Front(u) in P
  {
    var s :| 0 <= s < |P| && P[s] == u;
    assert HasFront(P, s);
  }

  lemma {:induction false} StateOfPath(P: seq<Str>, s: nat)
    requires IsPathSet(P) && s < |P|
    ensures StateOf(P, P[s]) == s
  {}

  // Feeding one more byte only needs the longest path suffix of what came
  // before: the automaton may forget the rest of the text.
  lemma {:induction false} LongestStep(P: seq<Str>, w: Str, c: Byte)
    requires IsPathSet(P)
    ensures Longest(P, w + [c]) == Longest(P, Longest(P, w) + [c])
  {
    var m := Longest(P, w);
    var v := Longest(P, w + [c]);
    var x := Longest(P, m + [c]);
    SuffixSnoc(m, w, c);
    SuffixTransitive(x, m + [c], w + [c]);
    assert |x| <= |v|;
    if v != [] {
      FrontOfPath(P, v);
      assert v[|v| - 1] == (w + [c])[|w|];
      assert v == Front(v) + [c];
      SuffixSnoc(Front(v), w, c);
      SuffixesNest(Front(v), m, w);
      SuffixSnoc(Front(v), m, c);
      assert |v| <= |x|;
    }
    SuffixesNest(v, x, w + [c]);
  }

  // When w.c is not a path itself, the search continues one failure link down.
  lemma {:induction false} LongestByFailure(P: seq<Str>, u: Str, c: Byte)
    requires IsPathSet(P) && u != [] && u + [c] !in P
    ensures Longest(P, u + [c]) == Longest(P, Longest(P, u[1..]) + [c])
  {
    assert (u + [c])[1..] == u[1..] + [c];
    LongestStep(P, u[1..], c);
  }

  // A keyword ends at the end of w exactly when it ends at the end of the
  // state reached by w: nothing is lost by forgetting the rest of the text.
  lemma {:induction false} KeywordSuffix(P: seq<Str>, w: Str, u: Str)
    requires [] in P && u in P
    ensures IsSuffix(u, w) <==> IsSuffix(u, Longest(P, w))
  {
    var m := Longest(P, w);
    if IsSuffix(u, w) {
      SuffixesNest(u, m, w);
    }
    if IsSuffix(u, m) {
      SuffixTransitive(u, m, w);
    }
  }

  // The state the automaton must move to from s on byte c.
  ghost function Delta(P: seq<Str>, s: nat, c: Byte): (t: nat)
    requires IsPathSet(P) && s < |P|
    ensures t < |P|
  {
    StateOf(P, Longest(P, P[s] + [c]))
  }

  // The state the failure link of s must lead to.
  ghost function FailureOf(P: seq<Str>, s: nat): (t: nat)
    requires IsPathSet(P) && s < |P| && P[s] != []
    ensures t < |P| && |P[t]| < |P[s]|
  {
    StateOf(P, Longest(P, P[s][1..]))
  }

  lemma {:induction false} DeltaAlongPath(P: seq<Str>, s: nat, c: Byte, t: nat)
    requires IsPathSet(P) && s < |P| && t < |P| && P[t] == P[s] + [c]
    ensures Delta(P, s, c) == t
  {
    StateOfPath(P, t);
  }

  lemma {:induction false} DeltaByFailure(P: seq<Str>, s: nat, c: Byte)
    requires IsPathSet(P) && s < |P| && P[s] != [] && P[s] + [c] !in P
    ensures Delta(P, s, c) == Delta(P, FailureOf(P, s), c)
  {
    LongestByFailure(P, P[s], c);
  }

  lemma {:induction false} DeltaAtRoot(P: seq<Str>, c: Byte)
    requires IsPathSet(P) && [c] !in P
    ensures Delta(P, 0, c) == 0
  {
    assert P[0] + [c] == [c];
    assert [c][1..] == [];
    assert Longest(P, [c]) == Longest(P, []) == [];
    StateOfPath(P, 0);
  }

  // The failure link of a child is found from the failure link of its parent.
  lemma {:induction false} FailureOfChild(P: seq<Str>, r: nat, c: Byte, s: nat)
    requires IsPathSet(P) && r < |P| && s < |P| && P[r] != [] && P[s] == P[r] + [c]
    ensures FailureOf(P, s) == Delta(P, FailureOf(P, r), c)
  {
    assert P[s][1..] == P[r][1..] + [c];
    LongestStep(P, P[r][1..], c);
  }

  // A transition function, and the state it reaches from s by reading w.
  type Step = (nat, Byte) -> nat

  ghost function Run(step: Step, s: nat, w: Str): nat {
    if w == [] then s else step(Run(step, s, Front(w)), w[|w| - 1])
  }

  ghost predicate IsStepOf(P: seq<Str>, step: Step) {
    IsPathSet(P) && forall s: nat, c: Byte :: s < |P| ==> StepsRight(P, step, s, c)
  }

  ghost predicate StepsRight(P: seq<Str>, step: Step, s: nat, c: Byte)
    requires IsPathSet(P) && s < |P|
  {
    step(s, c) == Delta(P, s, c)
  }

  ghost function StepOf(P: seq<Str>): (step: Step)
    requires IsPathSet(P)
    ensures IsStepOf(P, step)
  {
    var step: Step := (s: nat, c: Byte) => if s < |P| then Delta(P, s, c) else s;
    assert forall s: nat, c: Byte :: s < |P| ==> StepsRight(P, step, s, c);
    step
  }

  // Started at the root, the automaton is always in the state of the longest
  // path that the text read so far ends with.
  lemma {:induction false} RunIsLongest(P: seq<Str>, step: Step, w: Str)
    requires IsStepOf(P, step)
    ensures Run(step, 0, w) < |P| && P[Run(step, 0, w)] == Longest(P, w)
  {
    if w != [] {
      var v, c := Front(w), w[|w| - 1];
      assert w == v + [c];
      RunIsLongest(P, step, v);
      assert StepsRight(P, step, Run(step, 0, v), c);
      LongestStep(P, v, c);
    }
  }

  lemma {:induction false} RunSnoc(step: Step, s: nat, w: Str, i: nat)
    requires i < |w|
    ensures Run(step, s, w[..i + 1]) == step(Run(step, s, w[..i]), w[i])
  {
    assert w[..i + 1][i] == w[i] && Front(w[..i + 1]) == w[..i];
  }

  lemma {:induction false} RunSplit(step: Step, s: nat, a: Str, b: Str)
    ensures Run(step, s, a + b) == Run(step, Run(step, s, a), b)
    decreases |b|
  {
    if b == [] {
      assert a + b == a;
    } else {
      RunSplit(step, s, a, Front(b));
      assert Front(a + b) == a + Front(b);
    }
  }
}
