// What the searches report, as sequences of callback calls, and its relation
// to a naive scan of the text.
module AcCalls {
  import opened AcTheory
  import opened AcPatterns
  import LsList

  // One call of the `Match` callback: the entry and where it starts.
  datatype Call = Call(entry: Pattern, index: int)

  // The calls for one match list, for matches that end at position e.
  function CallsOn(m: seq<Pattern>, e: int): (cs: seq<Call>)
    ensures |cs| == |m|
    ensures forall k :: 0 <= k < |m| ==> cs[k] == Call(m[k], e - |m[k].patrn|)
  {
    seq(|m|, k requires 0 <= k < |m| => Call(m[k], e - |m[k].patrn|))
  }

  // The match list that an automaton reaches by reading a text.
  type Lists = Str -> seq<Pattern>

  ghost function ListsFrom(step: Step, M: seq<seq<Pattern>>, s: nat): (L: Lists)
    ensures forall w :: Run(step, s, w) < |M| ==> L(w) == M[Run(step, s, w)]
  {
    w => var t := Run(step, s, w); if t < |M| then M[t] else []
  }

  // The calls of positions 0 to k - 1, one position after the other.
  ghost function Collect(at: nat -> seq<Call>, k: nat): seq<Call> {
    if k == 0 then [] else Collect(at, k - 1) + at(k - 1)
  }

  // The full search: before each byte, and at the end, the whole list of the
  // state.
  ghost function FullAt(L: Lists, w: Str): nat -> seq<Call>
  {
    (e: nat) => if e <= |w| then CallsOn(L(w[..e]), e) else []
  }

  function HeadCall(m: seq<Pattern>, e: int): seq<Call> {
    if m == [] then [] else [Call(m[0], e - |m[0].patrn|)]
  }

  // The sparse search: after each byte, the head of the list of the state.
  ghost function SparseAt(L: Lists, w: Str): nat -> seq<Call>
  {
    (e: nat) => if e < |w| then HeadCall(L(w[..e + 1]), e + 1) else []
  }

  // The banded search: heads only, but at the positions of the full search.
  ghost function BandedAt(L: Lists, w: Str): nat -> seq<Call>
  {
    (e: nat) => if e <= |w| then HeadCall(L(w[..e]), e) else []
  }

  ghost function FullCalls(L: Lists, w: Str): seq<Call> {
    Collect(FullAt(L, w), |w| + 1)
  }

  ghost function SparseCalls(L: Lists, w: Str): seq<Call> {
    Collect(SparseAt(L, w), |w|)
  }

  ghost function BandedCalls(L: Lists, w: Str): seq<Call> {
    Collect(BandedAt(L, w), |w| + 1)
  }

  lemma {:induction false} CollectExtends(at: nat -> seq<Call>, j: nat, k: nat)
    requires j <= k
    ensures Collect(at, j) <= Collect(at, k)
    decreases k
  {
    if j < k {
      CollectExtends(at, j, k - 1);
    }
  }

  // The callback sees the calls made so far; a positive answer ends the search.
  type Callback = seq<Call> -> int

  ghost predicate NotStopped(calls: seq<Call>, answer: Callback) {
    forall k :: 0 < k <= |calls| ==> answer(calls[..k]) <= 0
  }

  // The calls are those of `all` up to the first positive answer.
  ghost predicate CutAtFirstStop(calls: seq<Call>, all: seq<Call>, answer: Callback) {
    || (calls == all && NotStopped(calls, answer))
    || (calls != [] && calls <= all && answer(calls) > 0 && NotStopped(calls[..|calls| - 1], answer))
  }

  // There is only one way to cut, so the contract of a search leaves no choice.
  lemma {:induction false} CutIsUnique(c: seq<Call>, d: seq<Call>, all: seq<Call>, answer: Callback)
    requires CutAtFirstStop(c, all, answer) && CutAtFirstStop(d, all, answer)
    ensures c == d
  {
    assert c == all[..|c|] && d == all[..|d|];
    if c != [] && |c| < |d| { NoEarlierStop(c, d, all, answer); }
    if d != [] && |d| < |c| { NoEarlierStop(d, c, all, answer); }
  }

  // Whoever gives the answers knows whether the search has been stopped.
  lemma {:induction false} StoppedByLast(calls: seq<Call>, all: seq<Call>, answer: Callback)
    requires CutAtFirstStop(calls, all, answer)
    ensures !NotStopped(calls, answer) <==> calls != [] && answer(calls) > 0
  {
    assert calls[..|calls|] == calls;
  }

  // The search has made all calls of the first i positions.
  ghost predicate Made(at: nat -> seq<Call>, i: nat, calls: seq<Call>, answer: Callback) {
    calls == Collect(at, i) && NotStopped(calls, answer)
  }

  // The search was stopped by one of the calls of position i.
  ghost predicate StoppedAt(at: nat -> seq<Call>, i: nat, calls: seq<Call>, answer: Callback) {
    && CutAtFirstStop(calls, Collect(at, i + 1), answer) && !NotStopped(calls, answer)
    && |Collect(at, i)| < |calls|
  }

  // How a search over n positions ends: after all of them (e == n), or stopped
  // at position e.
  ghost predicate Outcome(at: nat -> seq<Call>, n: nat, calls: seq<Call>, answer: Callback, e: nat) {
    if e == n then Made(at, n, calls, answer) else e < n && StoppedAt(at, e, calls, answer)
  }

  lemma {:induction false} MadeNothing(at: nat -> seq<Call>, answer: Callback)
    ensures Made(at, 0, [], answer)
  {}

  // Either way, the calls are those of the whole search up to the first stop.
  lemma {:induction false} OutcomeIsCut(at: nat -> seq<Call>, n: nat, calls: seq<Call>, answer: Callback, e: nat)
    requires Outcome(at, n, calls, answer, e)
    ensures CutAtFirstStop(calls, Collect(at, n), answer)
    ensures e == n <==> NotStopped(calls, answer)
  {
    if e < n {
      CollectExtends(at, e + 1, n);
    }
  }

  lemma {:induction false} CompleteIsAll(at: nat -> seq<Call>, n: nat, calls: seq<Call>, answer: Callback)
    requires CutAtFirstStop(calls, Collect(at, n), answer) && NotStopped(calls, answer)
    ensures calls == Collect(at, n)
  {
    assert calls[..|calls|] == calls;
  }

  lemma {:induction false} NoEarlierStop(c: seq<Call>, d: seq<Call>, all: seq<Call>, answer: Callback)
    requires CutAtFirstStop(d, all, answer) && c <= d && 0 < |c| < |d|
    ensures answer(c) <= 0
  {
    assert d[..|d| - 1][..|c|] == c && d[..|c|] == c;
  }

  // ------------------------------------------------------------- naive scan

  ghost predicate OccursAt(p: Pattern, w: Str, e: nat)
    requires e <= |w|
  {
    |p.patrn| <= e && w[e - |p.patrn|..e] == p.patrn
  }

  // The calls a naive scan makes for the occurrences that end at e.
  ghost function OccurrencesAt(pats: seq<Pattern>, w: Str, e: nat): multiset<Call>
    requires e <= |w|
  {
    if pats == [] then multiset{}
    else
      OccurrencesAt(Init(pats), w, e) +
      if OccursAt(Last(pats), w, e) then multiset{Call(Last(pats), e - |Last(pats).patrn|)} else multiset{}
  }

  // ... and for those that end before position k.
  ghost function Occurrences(pats: seq<Pattern>, w: Str, k: nat): multiset<Call>
    requires k <= |w| + 1
  {
    if k == 0 then multiset{} else Occurrences(pats, w, k - 1) + OccurrencesAt(pats, w, k - 1)
  }

  lemma {:induction false} CallsOnSplit(a: seq<Pattern>, b: seq<Pattern>, e: int)
    ensures CallsOn(a + b, e) == CallsOn(a, e) + CallsOn(b, e)
  {}

  // Taking one entry out of a match list takes its call out of the calls.
  lemma {:induction false} CallsOnWithout(m: seq<Pattern>, p: Pattern, e: int) returns (rest: seq<Pattern>)
    requires p in m
    ensures multiset(m) == multiset(rest) + multiset{p}
    ensures multiset(CallsOn(m, e)) == multiset(CallsOn(rest, e)) + multiset{Call(p, e - |p.patrn|)}
  {
    var k :| 0 <= k < |m| && m[k] == p;
    rest := m[..k] + m[k + 1..];
    assert m == m[..k] + [p] + m[k + 1..];
    MoveToEnd(m[..k], p, m[k + 1..], e);
  }

  lemma {:induction false} MoveToEnd(a: seq<Pattern>, p: Pattern, b: seq<Pattern>, e: int)
    ensures multiset(CallsOn(a + [p] + b, e)) == multiset(CallsOn(a + b, e)) + multiset{Call(p, e - |p.patrn|)}
  {
    CallsOnSplit(a, b, e);
    CallsOnSplit(a, [p], e);
    CallsOnSplit(a + [p], b, e);
    assert CallsOn([p], e) == [Call(p, e - |p.patrn|)];
  }

  // A match list with the right entries gives the right calls.
  lemma {:induction false} CallsOnEnding(pats: seq<Pattern>, m: seq<Pattern>, w: Str, e: nat)
    requires e <= |w| && multiset(m) == Ending(pats, w[..e])
    ensures multiset(CallsOn(m, e)) == OccurrencesAt(pats, w, e)
    decreases |pats|
  {
    if pats == [] {
      assert |multiset(m)| == 0;
    } else {
      var p := Last(pats);
      OccursIsSuffix(p, w, e);
      if OccursAt(p, w, e) {
        assert multiset(m) == Ending(Init(pats), w[..e]) + multiset{p};
        assert p in multiset(m);
        var rest := CallsOnWithout(m, p, e);
        CancelOne(multiset(rest), Ending(Init(pats), w[..e]), p);
        CallsOnEnding(Init(pats), rest, w, e);
      } else {
        CallsOnEnding(Init(pats), m, w, e);
      }
    }
  }

  // In terms of the pattern as it was given: the window of the text and the
  // pattern are equal once both are in upper case.
  lemma {:induction false} OccursInUpperCase(xlat: CaseTable, p: Pattern, t: Str, e: nat)
    requires e <= |t| && p.patrn == Upper(xlat, p.casepatrn)
    ensures OccursAt(p, Upper(xlat, t), e) <==>
            |p.casepatrn| <= e && Upper(xlat, t[e - |p.casepatrn|..e]) == Upper(xlat, p.casepatrn)
  {
    if |p.casepatrn| <= e {
      assert Upper(xlat, t)[e - |p.casepatrn|..e] == Upper(xlat, t[e - |p.casepatrn|..e]);
    }
  }

  lemma {:induction false} CancelOne(a: multiset<Pattern>, b: multiset<Pattern>, p: Pattern)
    requires a + multiset{p} == b + multiset{p}
    ensures a == b
  {
    assert a == (a + multiset{p}) - multiset{p};
    assert b == (b + multiset{p}) - multiset{p};
  }

  lemma {:induction false} OccursIsSuffix(p: Pattern, w: Str, e: nat)
    requires e <= |w|
    ensures OccursAt(p, w, e) <==> IsSuffix(p.patrn, w[..e])
  {
    if |p.patrn| <= e {
      assert w[..e][e - |p.patrn|..] == w[e - |p.patrn|..e];
    }
  }

  // The match lists of a compiled automaton.
  ghost predicate ListsEndings(P: seq<Str>, pats: seq<Pattern>, M: seq<seq<Pattern>>) {
    |P| <= |M| && forall s :: 0 <= s < |P| ==> ListsEnding(P, pats, M, s)
  }

  ghost predicate ListsEnding(P: seq<Str>, pats: seq<Pattern>, M: seq<seq<Pattern>>, s: nat)
    requires s < |P| <= |M|
  {
    multiset(M[s]) == Ending(pats, P[s])
  }

  // The lists have an order, too. In front there are copies of the entries of the
  // failure state, the last one first; the entries of the state itself follow.
  ghost predicate InOrder(P: seq<Str>, pats: seq<Pattern>, M: seq<seq<Pattern>>) {
    && IsPathSet(P) && |P| <= |M| && M[0] == []
    && forall s :: 0 < s < |P| ==> ListInOrder(P, pats, M, s)
  }

  ghost predicate ListInOrder(P: seq<Str>, pats: seq<Pattern>, M: seq<seq<Pattern>>, s: nat)
    requires IsPathSet(P) && 0 < s < |P| <= |M|
  {
    assert HasFront(P, s);
    M[s] == LsList.Reversed(M[FailureOf(P, s)]) + Own(pats, P[s])
  }

  ghost predicate CallsRight(at: nat -> seq<Call>, pats: seq<Pattern>, w: Str, e: nat)
    requires e <= |w|
  {
    multiset(at(e)) == OccurrencesAt(pats, w, e)
  }

  lemma {:induction false} ListAtRun(P: seq<Str>, step: Step, pats: seq<Pattern>, M: seq<seq<Pattern>>, u: Str)
    requires IsStepOf(P, step) && AllInTrie(P, pats) && ListsEndings(P, pats, M)
    ensures Run(step, 0, u) < |M| && multiset(M[Run(step, 0, u)]) == Ending(pats, u)
  {
    RunIsLongest(P, step, u);
    assert ListsEnding(P, pats, M, Run(step, 0, u));
    EndingByState(P, pats, u);
  }

  // Started in state 0, the full search makes exactly the calls of the naive
  // scan, each as often as there is an entry for it.
  lemma {:induction false} FullCallsAreOccurrences(P: seq<Str>, step: Step, pats: seq<Pattern>, M: seq<seq<Pattern>>,
        w: Str)
    requires IsStepOf(P, step) && AllInTrie(P, pats) && ListsEndings(P, pats, M)
    ensures multiset(FullCalls(ListsFrom(step, M, 0), w)) == Occurrences(pats, w, |w| + 1)
  {
    var L := ListsFrom(step, M, 0);
    forall e: nat | e <= |w| ensures CallsRight(FullAt(L, w), pats, w, e) {
      ListAtRun(P, step, pats, M, w[..e]);
      CallsOnEnding(pats, L(w[..e]), w, e);
    }
    CallsAreOccurrences(FullAt(L, w), pats, w, |w| + 1);
  }

  lemma {:induction false} CallsAreOccurrences(at: nat -> seq<Call>, pats: seq<Pattern>, w: Str, k: nat)
    requires k <= |w| + 1 && forall e: nat :: e <= |w| ==> CallsRight(at, pats, w, e)
    ensures multiset(Collect(at, k)) == Occurrences(pats, w, k)
  {
    if k > 0 {
      CallsAreOccurrences(at, pats, w, k - 1);
      assert CallsRight(at, pats, w, k - 1);
    }
  }

  // ------------------------------------------------------------- streaming

  function Shift(cs: seq<Call>, d: int): (r: seq<Call>)
    ensures |r| == |cs|
    ensures forall k :: 0 <= k < |cs| ==> r[k] == Call(cs[k].entry, cs[k].index + d)
  {
    seq(|cs|, k requires 0 <= k < |cs| => Call(cs[k].entry, cs[k].index + d))
  }

  lemma {:induction false} CallsOnShift(m: seq<Pattern>, e: int, d: int)
    ensures CallsOn(m, e + d) == Shift(CallsOn(m, e), d)
  {}

  // L' is L after the text `a` has been read.
  ghost predicate Continues(L: Lists, a: Str, L': Lists) {
    forall w :: ContinuesAt(L, a, L', w)
  }

  ghost predicate ContinuesAt(L: Lists, a: Str, L': Lists, w: Str) {
    L'(w) == L(a + w)
  }

  lemma {:induction false} StateCarriesOver(step: Step, M: seq<seq<Pattern>>, s: nat, a: Str)
    ensures Continues(ListsFrom(step, M, s), a, ListsFrom(step, M, Run(step, s, a)))
  {
    forall w ensures ContinuesAt(ListsFrom(step, M, s), a, ListsFrom(step, M, Run(step, s, a)), w) {
      RunSplit(step, s, a, w);
    }
  }

  ghost predicate SameAt(at: nat -> seq<Call>, at': nat -> seq<Call>, e: nat) {
    at(e) == at'(e)
  }

  // What happens at e happens j positions later, too.
  ghost predicate LaterAt(at: nat -> seq<Call>, j: nat, at': nat -> seq<Call>, e: nat) {
    at(j + e) == Shift(at'(e), j)
  }

  lemma {:induction false} CollectFrom(at: nat -> seq<Call>, j: nat, at': nat -> seq<Call>, k: nat)
    requires forall e: nat :: e < k ==> LaterAt(at, j, at', e)
    ensures Collect(at, j + k) == Collect(at, j) + Shift(Collect(at', k), j)
  {
    if k > 0 {
      CollectFrom(at, j, at', k - 1);
      assert LaterAt(at, j, at', k - 1);
    }
  }

  lemma {:induction false} CollectSame(at: nat -> seq<Call>, at': nat -> seq<Call>, k: nat)
    requires forall e: nat :: e < k ==> SameAt(at, at', e)
    ensures Collect(at, k) == Collect(at', k)
  {
    if k > 0 {
      CollectSame(at, at', k - 1);
      assert SameAt(at, at', k - 1);
    }
  }

  lemma {:induction false} SparseAtFrom(L: Lists, a: Str, L': Lists, b: Str, e: nat)
    requires Continues(L, a, L') && e < |b|
    ensures SparseAt(L, a + b)(|a| + e) == Shift(SparseAt(L', b)(e), |a|)
  {
    assert (a + b)[..|a| + e + 1] == a + b[..e + 1];
    assert ContinuesAt(L, a, L', b[..e + 1]);
  }

  lemma {:induction false} SparseAtPrefix(L: Lists, a: Str, b: Str, e: nat)
    requires e < |a|
    ensures SparseAt(L, a + b)(e) == SparseAt(L, a)(e)
  {
    assert (a + b)[..e + 1] == a[..e + 1];
  }

  // Feeding the text in two pieces, with the state carried over, gives the same
  // calls as feeding it at once.
  lemma {:induction false} SparseCallsStream(L: Lists, a: Str, L': Lists, b: Str)
    requires Continues(L, a, L')
    ensures SparseCalls(L, a + b) == SparseCalls(L, a) + Shift(SparseCalls(L', b), |a|)
  {
    var at, at0, at' := SparseAt(L, a + b), SparseAt(L, a), SparseAt(L', b);
    assert Collect(at, |a| + |b|) == Collect(at0, |a|) + Shift(Collect(at', |b|), |a|) by {
      forall e: nat | e < |b| ensures LaterAt(at, |a|, at', e) {
        SparseAtFrom(L, a, L', b, e);
      }
      forall e: nat | e < |a| ensures SameAt(at, at0, e) {
        SparseAtPrefix(L, a, b, e);
      }
      Joined(at, at0, |a|, at', |b|);
    }
  }

  lemma {:induction false} Joined(at: nat -> seq<Call>, at0: nat -> seq<Call>, j: nat, at': nat -> seq<Call>, k: nat)
    requires forall e: nat :: e < j ==> SameAt(at, at0, e)
    requires forall e: nat :: e < k ==> LaterAt(at, j, at', e)
    ensures Collect(at, j + k) == Collect(at0, j) + Shift(Collect(at', k), j)
  {
    CollectFrom(at, j, at', k);
    CollectSame(at, at0, j);
  }

  lemma {:induction false} FullAtFrom(L: Lists, a: Str, L': Lists, b: Str, e: nat)
    requires Continues(L, a, L') && e <= |b|
    ensures FullAt(L, a + b)(|a| + e) == Shift(FullAt(L', b)(e), |a|)
  {
    assert (a + b)[..|a| + e] == a + b[..e];
    assert ContinuesAt(L, a, L', b[..e]);
    CallsOnShift(L'(b[..e]), e, |a|);
  }

  lemma {:induction false} FullAtPrefix(L: Lists, a: Str, b: Str, e: nat)
    requires e < |a|
    ensures FullAt(L, a + b)(e) == FullAt(L, a)(e)
  {
    assert (a + b)[..e] == a[..e];
  }

  lemma {:induction false} FullAtJoined(L: Lists, a: Str, L': Lists, b: Str, k: nat)
    requires Continues(L, a, L') && k <= |b| + 1
    ensures Collect(FullAt(L, a + b), |a| + k) == Collect(FullAt(L, a), |a|) + Shift(Collect(FullAt(L', b), k), |a|)
  {
    var at, at0, at' := FullAt(L, a + b), FullAt(L, a), FullAt(L', b);
    forall e: nat | e < k ensures LaterAt(at, |a|, at', e) {
      FullAtFrom(L, a, L', b, e);
    }
    forall e: nat | e < |a| ensures SameAt(at, at0, e) {
      FullAtPrefix(L, a, b, e);
    }
    Joined(at, at0, |a|, at', k);
  }

  lemma {:induction false} FullCallsJoin(L: Lists, a: Str, L': Lists, b: Str)
    requires Continues(L, a, L')
    ensures FullCalls(L, a + b) == Collect(FullAt(L, a), |a|) + Shift(FullCalls(L', b), |a|)
  {
    FullAtJoined(L, a, L', b, |b| + 1);
    assert |a + b| + 1 == |a| + (|b| + 1);
  }

  // The full search on the second piece begins with the calls that the search
  // on the first piece has ended with; apart from that, nothing is lost or
  // repeated.
  lemma {:induction false} FullCallsStream(L: Lists, a: Str, L': Lists, b: Str)
    returns (before: seq<Call>, after: seq<Call>)
    requires Continues(L, a, L')
    ensures var boundary := CallsOn(L(a), |a|);
            && FullCalls(L, a) == before + boundary
            && Shift(FullCalls(L', b), |a|) == boundary + after
            && FullCalls(L, a + b) == before + boundary + after
  {
    hide CallsOn, FullCalls, Collect, FullAt, Shift, Continues;
    FullCallsJoin(L, a, L', b);
    BoundaryEndsFirst(L, a);
    ContinuesHere(L, a, L');
    BoundaryStartsSecond(L, a, L', b);
    before := Collect(FullAt(L, a), |a|);
    after := Shift(FullCalls(L', b), |a|)[|CallsOn(L(a), |a|)|..];
  }

  lemma {:induction false} ContinuesHere(L: Lists, a: Str, L': Lists)
    requires Continues(L, a, L')
    ensures L'([]) == L(a)
  {
    assert a + [] == a && ContinuesAt(L, a, L', []);
  }

  lemma {:induction false} BoundaryEndsFirst(L: Lists, a: Str)
    ensures FullCalls(L, a) == Collect(FullAt(L, a), |a|) + CallsOn(L(a), |a|)
  {
    assert a[..|a|] == a;
  }

  lemma {:induction false} FullAtStart(L: Lists, w: Str)
    ensures FullAt(L, w)(0) == CallsOn(L([]), 0)
  {
    assert w[..0] == [];
  }

  lemma {:induction false} BoundaryStartsSecond(L: Lists, a: Str, L': Lists, b: Str)
    requires L'([]) == L(a)
    ensures CallsOn(L(a), |a|) <= Shift(FullCalls(L', b), |a|)
  {
    FullAtStart(L', b);
    FirstOfCollect(FullAt(L', b), |b| + 1);
    CallsOnShift(L(a), 0, |a|);
    ShiftPrefix(CallsOn(L(a), 0), FullCalls(L', b), |a|);
  }

  lemma {:induction false} FirstOfCollect(at: nat -> seq<Call>, k: nat)
    requires k > 0
    ensures at(0) <= Collect(at, k)
  {
    assert Collect(at, 1) == Collect(at, 0) + at(0);
    CollectExtends(at, 1, k);
  }

  lemma {:induction false} ShiftPrefix(c: seq<Call>, d: seq<Call>, k: int)
    requires c <= d
    ensures Shift(c, k) <= Shift(d, k)
  {}

  // The carried state is all that the next search needs: the calls on the rest
  // of a stream are those on the whole stream that are still missing.
  lemma {:induction false} SparseSearchInPieces(step: Step, M: seq<seq<Pattern>>, s: nat, a: Str, b: Str)
    ensures SparseCalls(ListsFrom(step, M, s), a + b) ==
            SparseCalls(ListsFrom(step, M, s), a) + Shift(SparseCalls(ListsFrom(step, M, Run(step, s, a)), b), |a|)
  {
    hide SparseCalls, ListsFrom, Run, Continues;
    StateCarriesOver(step, M, s, a);
    SparseCallsStream(ListsFrom(step, M, s), a, ListsFrom(step, M, Run(step, s, a)), b);
  }

  // The full search repeats the matches that end where the first piece ends,
  // and nothing else.
  lemma {:induction false} FullSearchInPieces(step: Step, M: seq<seq<Pattern>>, s: nat, a: Str, b: Str)
    returns (before: seq<Call>, after: seq<Call>)
    requires Run(step, s, a) < |M|
    ensures var t := Run(step, s, a);
            var boundary := CallsOn(M[t], |a|);
            && FullCalls(ListsFrom(step, M, s), a) == before + boundary
            && Shift(FullCalls(ListsFrom(step, M, t), b), |a|) == boundary + after
            && FullCalls(ListsFrom(step, M, s), a + b) == before + boundary + after
  {
    hide FullCalls, Run, Continues, CallsOn;
    StateCarriesOver(step, M, s, a);
    before, after := FullCallsStream(ListsFrom(step, M, s), a, ListsFrom(step, M, Run(step, s, a)), b);
  }

  // The searches that only report heads report, at each position, an entry
  // that occurs there whenever there is one.
  lemma {:induction false} HeadIsOccurrence(P: seq<Str>, step: Step, pats: seq<Pattern>, M: seq<seq<Pattern>>, w: Str,
        e: nat)
    requires IsStepOf(P, step) && AllInTrie(P, pats) && ListsEndings(P, pats, M) && e <= |w|
    ensures var cs := HeadCall(ListsFrom(step, M, 0)(w[..e]), e);
            if OccurrencesAt(pats, w, e) == multiset{} then cs == []
            else |cs| == 1 && cs[0] in OccurrencesAt(pats, w, e)
  {
    hide IsStepOf, AllInTrie, ListsEndings, Ending, OccurrencesAt, Run;
    ListAtRun(P, step, pats, M, w[..e]);
    var m := M[Run(step, 0, w[..e])];
    CallsOnEnding(pats, m, w, e);
    if m != [] {
      assert CallsOn(m, e)[0] in multiset(CallsOn(m, e));
    } else {
      assert multiset(CallsOn(m, e)) == multiset{};
    }
  }

  // One call for each end position from lo on where anything occurs, in order.
  ghost predicate AreHeadsAt(calls: seq<Call>, pats: seq<Pattern>, w: Str, lo: nat, k: nat)
    requires k <= |w| + 1
  {
    if k <= lo then calls == []
    else if OccurrencesAt(pats, w, k - 1) == multiset{} then AreHeadsAt(calls, pats, w, lo, k - 1)
    else
      && calls != [] && calls[|calls| - 1] in OccurrencesAt(pats, w, k - 1)
      && AreHeadsAt(calls[..|calls| - 1], pats, w, lo, k - 1)
  }

  lemma {:induction false} OneMoreHead(calls: seq<Call>, cs: seq<Call>, pats: seq<Pattern>, w: Str, lo: nat, k: nat)
    requires lo <= k <= |w| && AreHeadsAt(calls, pats, w, lo, k)
    requires if OccurrencesAt(pats, w, k) == multiset{} then cs == []
             else |cs| == 1 && cs[0] in OccurrencesAt(pats, w, k)
    ensures AreHeadsAt(calls + cs, pats, w, lo, k + 1)
  {
    if cs == [] {
      assert calls + cs == calls;
    } else {
      assert (calls + cs)[..|calls + cs| - 1] == calls;
    }
  }

  lemma {:induction false} SparseHeads(P: seq<Str>, step: Step, pats: seq<Pattern>, M: seq<seq<Pattern>>, w: Str,
        k: nat)
    requires IsStepOf(P, step) && AllInTrie(P, pats) && ListsEndings(P, pats, M) && k <= |w|
    ensures AreHeadsAt(Collect(SparseAt(ListsFrom(step, M, 0), w), k), pats, w, 1, k + 1)
  {
    hide IsStepOf, AllInTrie, ListsEndings, OccurrencesAt, HeadCall;
    if k > 0 {
      SparseHeads(P, step, pats, M, w, k - 1);
      HeadIsOccurrence(P, step, pats, M, w, k);
      var at := SparseAt(ListsFrom(step, M, 0), w);
      OneMoreHead(Collect(at, k - 1), at(k - 1), pats, w, 1, k);
    }
  }

  lemma {:induction false} BandedHeads(P: seq<Str>, step: Step, pats: seq<Pattern>, M: seq<seq<Pattern>>, w: Str,
        k: nat)
    requires IsStepOf(P, step) && AllInTrie(P, pats) && ListsEndings(P, pats, M) && k <= |w| + 1
    ensures AreHeadsAt(Collect(BandedAt(ListsFrom(step, M, 0), w), k), pats, w, 0, k)
  {
    hide IsStepOf, AllInTrie, ListsEndings, OccurrencesAt, HeadCall;
    if k > 0 {
      BandedHeads(P, step, pats, M, w, k - 1);
      HeadIsOccurrence(P, step, pats, M, w, k - 1);
      var at := BandedAt(ListsFrom(step, M, 0), w);
      OneMoreHead(Collect(at, k - 1), at(k - 1), pats, w, 0, k - 1);
    }
  }

  // ------------------------------------------------------- which entries are named

  // Where the occurrence of a call ends.
  function EndOf(c: Call): int {
    c.index + |c.entry.patrn|
  }

  // The call names the first entry of the list of the state that the text leads
  // to at this position.
  ghost predicate IsHeadAt(step: Step, M: seq<seq<Pattern>>, s: nat, w: Str, e: nat, c: Call)
    requires e <= |w|
  {
    EndOf(c) == e && var t := Run(step, s, w[..e]); t < |M| && M[t] != [] && c.entry == M[t][0]
  }

  ghost predicate HasListAt(step: Step, M: seq<seq<Pattern>>, s: nat, w: Str, e: nat)
    requires e <= |w|
  {
    var t := Run(step, s, w[..e]); t < |M| && M[t] != []
  }

  // From position lo on and before position hi: one call for each position where
  // the state has a list, in the order of the positions.
  ghost predicate NameHeads(step: Step, M: seq<seq<Pattern>>, s: nat, w: Str, lo: nat, hi: nat, calls: seq<Call>)
    requires hi <= |w| + 1
  {
    && (forall i :: 0 <= i < |calls| ==>
          var e := EndOf(calls[i]); lo <= e < hi && IsHeadAt(step, M, s, w, e, calls[i]))
    && (forall i, j :: 0 <= i < j < |calls| ==> EndOf(calls[i]) < EndOf(calls[j]))
    && (forall e: nat :: lo <= e < hi && HasListAt(step, M, s, w, e) ==> IsEndOf(calls, e))
  }

  ghost predicate IsEndOf(calls: seq<Call>, e: nat) {
    exists i :: 0 <= i < |calls| && EndOf(calls[i]) == e
  }

  lemma {:induction false} HeadCallIs(step: Step, M: seq<seq<Pattern>>, s: nat, w: Str, e: nat)
    requires e <= |w|
    ensures var cs := HeadCall(ListsFrom(step, M, s)(w[..e]), e);
            if HasListAt(step, M, s, w, e) then |cs| == 1 && IsHeadAt(step, M, s, w, e, cs[0]) else cs == []
  {}

  lemma {:induction false} NameOneMore(step: Step, M: seq<seq<Pattern>>, s: nat, w: Str, lo: nat, hi: nat,
        calls: seq<Call>)
    requires lo <= hi <= |w| && NameHeads(step, M, s, w, lo, hi, calls)
    ensures NameHeads(step, M, s, w, lo, hi + 1, calls + HeadCall(ListsFrom(step, M, s)(w[..hi]), hi))
  {
    HeadCallIs(step, M, s, w, hi);
    hide Run, HeadCall, ListsFrom, HasListAt;
    var calls' := calls + HeadCall(ListsFrom(step, M, s)(w[..hi]), hi);
    assert forall i :: 0 <= i < |calls| ==> calls'[i] == calls[i];
    forall e: nat | lo <= e < hi + 1 && HasListAt(step, M, s, w, e) ensures IsEndOf(calls', e) {
      if e < hi {
        assert IsEndOf(calls, e);
        var i :| 0 <= i < |calls| && EndOf(calls[i]) == e;
        assert EndOf(calls'[i]) == e;
      } else {
        assert EndOf(calls'[|calls|]) == e;
      }
    }
  }

  lemma {:induction false} SparseNames(step: Step, M: seq<seq<Pattern>>, s: nat, w: Str, k: nat)
    requires k <= |w|
    ensures NameHeads(step, M, s, w, 1, k + 1, Collect(SparseAt(ListsFrom(step, M, s), w), k))
  {
    hide HeadCall;
    if k > 0 {
      SparseNames(step, M, s, w, k - 1);
      NameOneMore(step, M, s, w, 1, k, Collect(SparseAt(ListsFrom(step, M, s), w), k - 1));
    }
  }

  lemma {:induction false} BandedNames(step: Step, M: seq<seq<Pattern>>, s: nat, w: Str, k: nat)
    requires k <= |w| + 1
    ensures NameHeads(step, M, s, w, 0, k, Collect(BandedAt(ListsFrom(step, M, s), w), k))
  {
    hide HeadCall;
    if k > 0 {
      BandedNames(step, M, s, w, k - 1);
      NameOneMore(step, M, s, w, 0, k - 1, Collect(BandedAt(ListsFrom(step, M, s), w), k - 1));
    }
  }

  // The call that stops a search is one of the position where it is stopped.
  lemma {:induction false} StoppingCall(at: nat -> seq<Call>, i: nat, calls: seq<Call>, answer: Callback)
    requires StoppedAt(at, i, calls, answer)
    ensures calls != [] && calls[|calls| - 1] in at(i)
    ensures |at(i)| == 1 ==> calls == Collect(at, i + 1)
  {
    hide NotStopped;
    var before, all := Collect(at, i), Collect(at, i + 1);
    assert all == before + at(i) && calls <= all;
    assert calls[|calls| - 1] == at(i)[|calls| - 1 - |before|];
  }

  lemma {:induction false} HeadEnds(m: seq<Pattern>, e: int, c: Call)
    requires c in HeadCall(m, e)
    ensures EndOf(c) == e && |HeadCall(m, e)| == 1
  {}

  lemma {:induction false} FullEnds(m: seq<Pattern>, e: int, c: Call)
    requires c in CallsOn(m, e)
    ensures EndOf(c) == e
  {
    var k :| 0 <= k < |m| && CallsOn(m, e)[k] == c;
  }

  lemma {:induction false} SparseOutcome(step: Step, M: seq<seq<Pattern>>, s: nat, w: Str, calls: seq<Call>,
        answer: Callback, e: nat)
    requires Outcome(SparseAt(ListsFrom(step, M, s), w), |w|, calls, answer, e)
    ensures e <= |w| && NameHeads(step, M, s, w, 1, if e < |w| then e + 2 else |w| + 1, calls)
    ensures e < |w| ==> calls != [] && EndOf(calls[|calls| - 1]) == e + 1
    ensures calls == Collect(SparseAt(ListsFrom(step, M, s), w), if e < |w| then e + 1 else |w|)
  {
    hide NameHeads, Run, StoppedAt, Collect, HeadCall, ListsFrom, EndOf;
    var at := SparseAt(ListsFrom(step, M, s), w);
    if e < |w| {
      StoppingCall(at, e, calls, answer);
      HeadEnds(ListsFrom(step, M, s)(w[..e + 1]), e + 1, calls[|calls| - 1]);
      SparseNames(step, M, s, w, e + 1);
    } else {
      SparseNames(step, M, s, w, |w|);
    }
  }

  lemma {:induction false} BandedOutcome(step: Step, M: seq<seq<Pattern>>, s: nat, w: Str, calls: seq<Call>,
        answer: Callback, e: nat)
    requires Outcome(BandedAt(ListsFrom(step, M, s), w), |w| + 1, calls, answer, e)
    ensures e <= |w| + 1 && NameHeads(step, M, s, w, 0, if e <= |w| then e + 1 else |w| + 1, calls)
    ensures e <= |w| ==> calls != [] && EndOf(calls[|calls| - 1]) == e
  {
    hide NameHeads, Run, StoppedAt, Collect, HeadCall, ListsFrom, EndOf;
    var at := BandedAt(ListsFrom(step, M, s), w);
    if e <= |w| {
      StoppingCall(at, e, calls, answer);
      HeadEnds(ListsFrom(step, M, s)(w[..e]), e, calls[|calls| - 1]);
      BandedNames(step, M, s, w, e + 1);
    } else {
      BandedNames(step, M, s, w, |w| + 1);
    }
  }

  lemma {:induction false} FullOutcome(L: Lists, w: Str, calls: seq<Call>, answer: Callback, e: nat)
    requires Outcome(FullAt(L, w), |w| + 1, calls, answer, e)
    ensures e <= |w| ==> calls != [] && EndOf(calls[|calls| - 1]) == e
  {
    hide StoppedAt, EndOf;
    if e <= |w| {
      StoppingCall(FullAt(L, w), e, calls, answer);
      FullEnds(L(w[..e]), e, calls[|calls| - 1]);
    }
  }

  // ------------------------------------------------------- going on after a stop

  // However far the first search has got, the next one can take over from its
  // state and the text it has not read yet.
  lemma {:induction false} SparseGoesOn(step: Step, M: seq<seq<Pattern>>, s: nat, a: Str, e: nat, b: Str)
    requires e <= |a|
    ensures SparseCalls(ListsFrom(step, M, s), a + b) ==
            Collect(SparseAt(ListsFrom(step, M, s), a), e)
            + Shift(SparseCalls(ListsFrom(step, M, Run(step, s, a[..e])), a[e..] + b), e)
  {
    hide Run, HeadCall, ListsFrom;
    var L, u, v := ListsFrom(step, M, s), a[..e], a[e..];
    SparseSearchInPieces(step, M, s, u, v + b);
    assert u + (v + b) == a + b && u + v == a;
    forall i: nat | i < e ensures SameAt(SparseAt(L, a), SparseAt(L, u), i) {
      SparseAtPrefix(L, u, v, i);
    }
    CollectSame(SparseAt(L, a), SparseAt(L, u), e);
  }

  lemma {:induction false} FullGoesOn(step: Step, M: seq<seq<Pattern>>, s: nat, a: Str, e: nat, b: Str)
    requires e <= |a| && Run(step, s, a[..e]) < |M|
    ensures var t := Run(step, s, a[..e]);
            var rest := Shift(FullCalls(ListsFrom(step, M, t), a[e..] + b), e);
            && FullCalls(ListsFrom(step, M, s), a + b) == Collect(FullAt(ListsFrom(step, M, s), a), e) + rest
            && CallsOn(M[t], e) <= rest
  {
    hide Run, CallsOn, ListsFrom, Continues;
    var L, u, v, t := ListsFrom(step, M, s), a[..e], a[e..], Run(step, s, a[..e]);
    StateCarriesOver(step, M, s, u);
    FullCallsJoin(L, u, ListsFrom(step, M, t), v + b);
    assert u + (v + b) == a + b && u + v == a;
    forall i: nat | i < e ensures SameAt(FullAt(L, a), FullAt(L, u), i) {
      FullAtPrefix(L, u, v, i);
    }
    CollectSame(FullAt(L, a), FullAt(L, u), e);
    RunNowhere(step, t);
    BoundaryStartsSecond(L, u, ListsFrom(step, M, t), v + b);
  }

  lemma {:induction false} RunNowhere(step: Step, t: nat)
    ensures Run(step, t, []) == t
  {}

  // The banded search reports the head at the start, and what the sparse search
  // does.
  lemma {:induction false} BandedIsSparse(L: Lists, w: Str, e: nat)
    requires e <= |w|
    ensures Collect(BandedAt(L, w), e + 1) == HeadCall(L([]), 0) + Collect(SparseAt(L, w), e)
  {
    hide HeadCall;
    if e == 0 {
      assert w[..0] == [];
      assert Collect(BandedAt(L, w), 1) == Collect(BandedAt(L, w), 0) + BandedAt(L, w)(0);
    } else {
      BandedIsSparse(L, w, e - 1);
    }
  }

  lemma {:induction false} HeadCallShift(m: seq<Pattern>, d: int)
    ensures HeadCall(m, d) == Shift(HeadCall(m, 0), d)
  {}

  lemma {:induction false} ShiftSum(a: seq<Call>, b: seq<Call>, d: int)
    ensures Shift(a + b, d) == Shift(a, d) + Shift(b, d)
  {}

  lemma {:induction false} BandedGoesOn(step: Step, M: seq<seq<Pattern>>, s: nat, a: Str, e: nat, b: Str)
    requires e <= |a| && Run(step, s, a[..e]) < |M|
    ensures var t := Run(step, s, a[..e]);
            var rest := Shift(BandedCalls(ListsFrom(step, M, t), a[e..] + b), e);
            && BandedCalls(ListsFrom(step, M, s), a + b) == Collect(BandedAt(ListsFrom(step, M, s), a), e) + rest
            && HeadCall(M[t], e) <= rest
  {
    hide Run, HeadCall, ListsFrom, BandedAt, SparseAt, Collect, Shift, BandedCalls, SparseCalls;
    var L, v, t := ListsFrom(step, M, s), a[e..] + b, Run(step, s, a[..e]);
    var L' := ListsFrom(step, M, t);
    SparseGoesOn(step, M, s, a, e, b);
    BandedCallsAre(L, a + b);
    BandedCallsAre(L', v);
    BandedIsSparse(L, a, e);
    RunNowhere(step, t);
    BandedStep(step, M, s, a, e);
    HeadCallShift(M[t], e);
    ShiftSum(HeadCall(M[t], 0), SparseCalls(L', v), e);
    SumsAre(HeadCall(L([]), 0), Collect(SparseAt(L, a), e), Shift(SparseCalls(L', v), e), Collect(BandedAt(L, a), e),
      HeadCall(M[t], e));
  }

  lemma {:induction false} SumsAre(h: seq<Call>, a: seq<Call>, b: seq<Call>, c: seq<Call>, d: seq<Call>)
    requires h + a == c + d
    ensures h + (a + b) == c + (d + b) && d <= d + b
  {
    assert h + (a + b) == (h + a) + b;
  }

  lemma {:induction false} BandedCallsAre(L: Lists, w: Str)
    ensures BandedCalls(L, w) == HeadCall(L([]), 0) + SparseCalls(L, w)
  {
    BandedIsSparse(L, w, |w|);
  }

  lemma {:induction false} BandedStep(step: Step, M: seq<seq<Pattern>>, s: nat, w: Str, e: nat)
    requires e <= |w| && Run(step, s, w[..e]) < |M|
    ensures var at := BandedAt(ListsFrom(step, M, s), w);
            Collect(at, e + 1) == Collect(at, e) + HeadCall(M[Run(step, s, w[..e])], e)
  {}

  // A search that ends at position e has made all calls of the positions before it,
  // and those of e itself, all of them or up to the one that has stopped it.
  ghost predicate EndsIn(at: nat -> seq<Call>, e: nat, calls: seq<Call>, stopped: bool) {
    && Collect(at, e) <= calls <= Collect(at, e + 1)
    && if stopped then |Collect(at, e)| < |calls| else calls == Collect(at, e + 1)
  }

  lemma {:induction false} OutcomeEnds(at: nat -> seq<Call>, n: nat, calls: seq<Call>, answer: Callback, e: nat)
    requires Outcome(at, n + 1, calls, answer, e)
    ensures if e <= n then EndsIn(at, e, calls, true) else EndsIn(at, n, calls, false)
  {
    hide NotStopped;
    assert e <= n ==> Collect(at, e) <= Collect(at, e + 1);
  }

  // Two searches report what one would. The second one has begun at position d, where
  // the first one has ended, and repeats the calls of that position; the first one
  // may have been stopped among them.
  ghost predicate AreJoined(whole: seq<Call>, calls: seq<Call>, calls': seq<Call>, d: int, again: seq<Call>,
        stopped: bool)
  {
    |calls'| <= |whole| &&
    var k := |whole| - |calls'|;
    && whole[k..] == Shift(calls', d) && again <= whole[k..]
    && whole[..k] <= calls <= whole[..k] + again
    && if stopped then again != [] ==> |calls| > k else calls == whole[..k] + again
  }

  lemma {:induction false} JoinedIs(whole: seq<Call>, calls: seq<Call>, calls': seq<Call>, d: int, again: seq<Call>,
        stopped: bool, before: seq<Call>)
    requires whole == before + Shift(calls', d) && again <= Shift(calls', d)
    requires before <= calls <= before + again
    requires if stopped then again != [] ==> |calls| > |before| else calls == before + again
    ensures AreJoined(whole, calls, calls', d, again, stopped)
  {
    assert whole[..|before|] == before;
  }

  lemma {:induction false} JoinAt(at: nat -> seq<Call>, e: nat, whole: seq<Call>, calls: seq<Call>, calls': seq<Call>,
        again: seq<Call>, stopped: bool)
    requires EndsIn(at, e, calls, stopped) && Collect(at, e + 1) == Collect(at, e) + again
    requires whole == Collect(at, e) + Shift(calls', e) && again <= Shift(calls', e)
    ensures AreJoined(whole, calls, calls', e, again, stopped)
  {
    hide Collect, AreJoined;
    JoinedIs(whole, calls, calls', e, again, stopped, Collect(at, e));
  }

  lemma {:induction false} FullIsJoined(step: Step, M: seq<seq<Pattern>>, s: nat, a: Str, e: nat, b: Str,
        calls: seq<Call>, calls': seq<Call>, stopped: bool)
    requires e <= |a| && Run(step, s, a[..e]) < |M|
    requires EndsIn(FullAt(ListsFrom(step, M, s), a), e, calls, stopped)
    requires calls' == FullCalls(ListsFrom(step, M, Run(step, s, a[..e])), a[e..] + b)
    ensures AreJoined(FullCalls(ListsFrom(step, M, s), a + b), calls, calls', e, CallsOn(M[Run(step, s, a[..e])], e),
                      stopped)
  {
    hide Run, FullCalls, EndsIn, CallsOn, ListsFrom;
    FullGoesOn(step, M, s, a, e, b);
    JoinAt(FullAt(ListsFrom(step, M, s), a), e, FullCalls(ListsFrom(step, M, s), a + b), calls, calls',
      CallsOn(M[Run(step, s, a[..e])], e), stopped);
  }

  lemma {:induction false} BandedIsJoined(step: Step, M: seq<seq<Pattern>>, s: nat, a: Str, e: nat, b: Str,
        calls: seq<Call>, calls': seq<Call>, stopped: bool)
    requires e <= |a| && Run(step, s, a[..e]) < |M|
    requires EndsIn(BandedAt(ListsFrom(step, M, s), a), e, calls, stopped)
    requires calls' == BandedCalls(ListsFrom(step, M, Run(step, s, a[..e])), a[e..] + b)
    ensures AreJoined(BandedCalls(ListsFrom(step, M, s), a + b), calls, calls', e,
                      HeadCall(M[Run(step, s, a[..e])], e), stopped)
  {
    hide Run, BandedCalls, EndsIn, HeadCall, ListsFrom;
    BandedGoesOn(step, M, s, a, e, b);
    BandedStep(step, M, s, a, e);
    JoinAt(BandedAt(ListsFrom(step, M, s), a), e, BandedCalls(ListsFrom(step, M, s), a + b), calls, calls',
      HeadCall(M[Run(step, s, a[..e])], e), stopped);
  }

  lemma {:induction false} StoppingHead(step: Step, M: seq<seq<Pattern>>, s: nat, w: Str, e: nat, calls: seq<Call>)
    requires e <= |w| && Run(step, s, w[..e]) < |M| && EndsIn(BandedAt(ListsFrom(step, M, s), w), e, calls, true)
    ensures calls != [] && [calls[|calls| - 1]] == HeadCall(M[Run(step, s, w[..e])], e)
  {
    hide Run, ListsFrom, BandedAt, Collect;
    BandedStep(step, M, s, w, e);
  }

  lemma {:induction false} SparseIsJoined(step: Step, M: seq<seq<Pattern>>, s: nat, a: Str, e: nat, b: Str,
        calls: seq<Call>, calls': seq<Call>, stopped: bool)
    requires e <= |a| && calls == Collect(SparseAt(ListsFrom(step, M, s), a), e)
    requires calls' == SparseCalls(ListsFrom(step, M, Run(step, s, a[..e])), a[e..] + b)
    ensures AreJoined(SparseCalls(ListsFrom(step, M, s), a + b), calls, calls', e, [], stopped)
  {
    hide Run, SparseCalls, ListsFrom, Collect;
    SparseGoesOn(step, M, s, a, e, b);
    JoinedIs(SparseCalls(ListsFrom(step, M, s), a + b), calls, calls', e, [], stopped, calls);
  }
}
