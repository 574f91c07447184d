// The engine as its users see it: add patterns, compile, search.
module AcEngine {
  import opened AcTheory
  import opened AcTable
  import opened AcPatterns
  import opened AcRows
  import opened AcBuild
  import opened AcCalls
  import opened AcMatchQueue

  // One row of the compiled automaton: it reads as the transition function.
  ghost predicate IsRowOf(step: Step, N: seq<seq<Word>>, s: nat)
    requires s < |N|
  {
    && RowShape(N[s])
    && (forall c: Byte :: ReadRow(N[s], c) == step(s, c) < |N|)
  }

  // The flag of a row says whether the state has a match list.
  ghost predicate IsFlagged(N: seq<seq<Word>>, M: seq<seq<Pattern>>, s: nat)
    requires s < |N| <= |M|
  {
    |N[s]| >= 2 && (N[s][1] != 0 <==> M[s] != [])
  }

  // Rows of the full and of the banded format all have that format; the searches
  // for these two read them without looking at the tag. A sparse table may have
  // full rows.
  predicate HasFormat(row: seq<Word>, format: Word) {
    && |row| > 0
    && (format in {ACF_FULL, ACF_FULLQ} ==> row[0] == ACF_FULL)
    && (format == ACF_BANDED ==> row[0] == ACF_BANDED)
    && (format == ACF_SPARSEBANDS ==> row[0] == ACF_SPARSEBANDS)
    && (format == ACF_SPARSE ==> row[0] == ACF_SPARSE || row[0] == ACF_FULL)
  }

  ghost predicate IsAutomaton(step: Step, N: seq<seq<Word>>, M: seq<seq<Pattern>>, format: Word) {
    && |N| <= |M|
    && (forall s :: 0 <= s < |N| ==> IsState(step, N, M, format, s))
  }

  ghost predicate IsState(step: Step, N: seq<seq<Word>>, M: seq<seq<Pattern>>, format: Word, s: nat)
    requires s < |N| <= |M|
  {
    IsRowOf(step, N, s) && IsFlagged(N, M, s) && HasFormat(N[s], format)
  }

  class Acsm {
    const xlatcase: CaseTable
    var patterns: seq<Pattern>
    var numPatterns: nat
    var format: Word
    var compressStates: bool
    var sparseMaxRowNodes: int
    var sparseMaxZcnt: int
    var sizeofstate: nat
    var numStates: nat
    var matchList: array<seq<Pattern>>
    var nextState: array<seq<Word>>
    ghost var paths: seq<Str>   // the string of each state
    ghost var step: Step        // the transition function of the automaton

    // `acsmNew2`
    constructor (xlat: CaseTable)
      ensures xlatcase == xlat && patterns == [] && PatternsOk()
      ensures format == ACF_FULL && !compressStates
      ensures fresh(matchList) && fresh(nextState)
    {
      xlatcase := xlat;
      patterns, numPatterns := [], 0;
      format, compressStates, sparseMaxRowNodes, sparseMaxZcnt := ACF_FULL, false, 256, 10;
      sizeofstate, numStates, paths, step := 0, 0, [], (s, c) => 0;
      matchList := new seq<Pattern>[0];
      nextState := new seq<Word>[0];
    }

    // Every entry matches its pattern in upper case.
    ghost predicate PatternsOk()
      reads this
    {
      forall k :: 0 <= k < |patterns| ==> patterns[k].patrn == Upper(xlatcase, patterns[k].casepatrn)
    }

    // `acsmSelectFormat2`: returns -1 and changes nothing for an unknown format.
    method SelectFormat(m: int) returns (r: int)
      modifies `format
      ensures r == if 0 <= m <= 4 then 0 else -1
      ensures format == if 0 <= m <= 4 then m else old(format)
    {
      if 0 <= m <= 4 {
        format := m;
        return 0;
      }
      return -1;
    }

    // `acsmAddPattern2`: the newest pattern becomes the head of the list.
    method AddPattern(pat: Str, nocase: int, offset: int, depth: int, negative: int, udata: int, iid: int)
      requires PatternsOk()
      modifies `patterns, `numPatterns
      ensures PatternsOk() && numPatterns == old(numPatterns) + 1
      ensures patterns == [Pattern(Upper(xlatcase, pat), pat, nocase, offset, depth, negative, udata, iid)]
          + old(patterns)
    {
      var patrn := ConvertCase(xlatcase, pat);
      patterns := [Pattern(patrn, pat, nocase, offset, depth, negative, udata, iid)] + patterns;
      numPatterns := numPatterns + 1;
    }

    // The tables hold an automaton with the given transition function.
    ghost predicate IsLoaded()
      reads this, nextState, matchList
    {
      numStates == nextState.Length && IsAutomaton(step, nextState[..], matchList[..], format)
    }

    // The transition function and the match lists are those of the patterns.
    ghost predicate IsCompiled()
      reads this, matchList
    {
      && |paths| == numStates && IsStepOf(paths, step)
      && AllInTrie(paths, patterns) && OnlyPrefixes(paths, patterns)
      && ListsEndings(paths, patterns, matchList[..]) && InOrder(paths, patterns, matchList[..])
    }

    // `acsmCompile2`
    method Compile()
      requires NonEmpty(patterns) && TotalLength(patterns) < INT_MAX
      requires compressStates ==> format == ACF_FULL || format == ACF_FULLQ
      requires format <= 4
      modifies `sizeofstate, `numStates, `matchList, `nextState, `paths, `step
      ensures IsLoaded() && IsCompiled() && fresh(matchList) && fresh(nextState)
      ensures sizeofstate == if compressStates && numStates < 0xFF then 1
                             else if compressStates && numStates < 0xFFFF then 2
                             else 4
    {
      hide IsStepOf, AllInTrie, OnlyPrefixes, ListsEndings, InOrder, IsAutomaton, RowIsStep, NonEmpty;
      var transTable;
      numStates, transTable, matchList, paths, step := BuildTables(patterns);
      LoadRows(transTable);
    }

    // The second half of `acsmCompile2`: selects the width of an entry and the
    // storage format, and sets the match flags.
    method LoadRows(transTable: array<Row>)
      requires numStates <= transTable.Length && numStates <= matchList.Length && numStates <= INT_MAX
      requires forall s :: 0 <= s < numStates ==> RowIsStep(transTable[..], step, numStates, s)
      requires compressStates ==> format == ACF_FULL || format == ACF_FULLQ
      requires format <= 4
      modifies `sizeofstate, `nextState
      ensures IsLoaded() && fresh(nextState)
      ensures sizeofstate == if compressStates && numStates < 0xFF then 1
                             else if compressStates && numStates < 0xFFFF then 2
                             else 4
    {
      sizeofstate := StateSize(compressStates, numStates);
      nextState := ConvertRows(transTable, step, format, numStates, sizeofstate, sparseMaxRowNodes, sparseMaxZcnt);
      UpdateMatchStates(numStates, nextState, matchList, step, format);
    }

    // ------------------------------------------------------------ searching

    // `acsmSearch2` for an automaton of the DFA kind. In every format the calls are
    // fixed, up to the first positive answer, and so is the state to carry over.
    method Search(T: Str, current: nat, answer: Callback) returns (nfound: nat, next: nat, calls: seq<Call>)
      requires IsLoaded() && current < numStates
      ensures CutAtFirstStop(calls, AllCalls(Upper(xlatcase, T), current), answer)
      ensures nfound == if format != ACF_FULLQ then |calls|
                        else if IsStoppedEarly(step, matchList[..], current, Upper(xlatcase, T), calls, answer) then 1
                        else 0
      ensures NotStopped(calls, answer) ==>
                next == if format == ACF_BANDED then current else Run(step, current, Upper(xlatcase, T))
      ensures !NotStopped(calls, answer) ==> IsAtStop(Upper(xlatcase, T), current, nfound, calls, next)
      ensures EndsAt(Upper(xlatcase, T), current, calls, !NotStopped(calls, answer))
      ensures format != ACF_FULL ==> IsNamed(Upper(xlatcase, T), current, calls, !NotStopped(calls, answer))
      ensures IsCompiled() && current == 0 && NotStopped(calls, answer) ==> ReportsAll(Upper(xlatcase, T), calls)
      ensures next < numStates
    {
      hide Outcome, CutAtFirstStop, NotStopped, Collect, IsStepOf, AllInTrie, OnlyPrefixes, ListsEndings, Occurrences,
        Run, InOrder, NameHeads, NameHeadsOf, Order, EndOf, IsDuring, EndsIn;
      hide QueueCalls;
      ghost var w, L, e: nat := Upper(xlatcase, T), ListsFrom(step, matchList[..], current), 0;
      if format == ACF_FULL {
        nfound, next, calls, e := SearchFull(T, current, answer);
        OutcomeIsCut(FullAt(L, w), |w| + 1, calls, answer, e);
        OutcomeEnds(FullAt(L, w), |w|, calls, answer, e);
      } else if format == ACF_FULLQ {
        nfound, next, calls, e := SearchFullQ(T, current, answer);
        StoppedByLast(calls, QueueCalls(step, matchList[..], current, w), answer);
        assert w[..|w|] == w;
      } else if format == ACF_BANDED {
        nfound, next, calls, e := SearchBanded(T, current, answer);
        OutcomeIsCut(BandedAt(L, w), |w| + 1, calls, answer, e);
        OutcomeEnds(BandedAt(L, w), |w|, calls, answer, e);
      } else {
        nfound, next, calls, e := SearchSparse(T, current, answer);
        OutcomeIsCut(SparseAt(L, w), |w|, calls, answer, e);
        SparseOutcome(step, matchList[..], current, w, calls, answer, e);
      }
      if IsCompiled() && current == 0 && NotStopped(calls, answer) {
        CutFacts(calls, AllCalls(w, current), answer);
        AllIsReported(w, calls);
      }
    }

    // What a stopped search hands back: the state of the position where its last
    // call has been made. In the queued format this is the position where a batch
    // is complete, or the end of the text.
    ghost predicate IsAtStop(w: Str, current: nat, nfound: nat, calls: seq<Call>, next: nat)
      reads this, matchList
    {
      && calls != []
      && if format == ACF_FULLQ then
           exists e: nat ::
             && e <= |w| && next == Run(step, current, w[..e])
             && if nfound == 1 then IsDuring(step, matchList[..], current, w, e, |calls|) else e == |w|
         else
           var e := EndOf(calls[|calls| - 1]);
           0 <= e <= |w| && next == Run(step, current, w[..e])
    }

    // The position where a search has ended.
    function EndPosition(n: nat, calls: seq<Call>, stopped: bool): int {
      if stopped && calls != [] then EndOf(calls[|calls| - 1]) else n
    }

    // The calls are those of the positions up to this one.
    ghost predicate EndsAt(w: Str, current: nat, calls: seq<Call>, stopped: bool)
      reads this, matchList
    {
      format != ACF_FULLQ ==>
        var L, e := ListsFrom(step, matchList[..], current), EndPosition(|w|, calls, stopped);
        && 0 <= e <= |w|
        && if format == ACF_FULL then EndsIn(FullAt(L, w), e, calls, stopped)
           else if format == ACF_BANDED then EndsIn(BandedAt(L, w), e, calls, stopped)
           else calls == Collect(SparseAt(L, w), e)
    }

    // Which entries are named in the formats that report heads.
    ghost predicate IsNamed(w: Str, current: nat, calls: seq<Call>, stopped: bool)
      reads this, matchList
    {
      if format == ACF_FULLQ then
        NameHeadsOf(matchList[..], Order(step, matchList[..], current, w, |w| + 1), calls)
      else
        var e := EndPosition(|w|, calls, stopped);
        && 0 <= e <= |w|
        && NameHeads(step, matchList[..], current, w, if format == ACF_BANDED then 0 else 1, e + 1, calls)
    }

    // A stream in two pieces. When the first search has been stopped, the second one
    // goes on from the position and the state where that was. The queued format does
    // not tell its caller the position.
    method SearchInPieces(A: Str, B: Str, current: nat, first: Callback, second: Callback)
      returns (next: nat, calls: seq<Call>, calls': seq<Call>)
      requires IsLoaded() && current < numStates
      ensures var stopped := !NotStopped(calls, first);
              var e := EndPosition(|A|, calls, stopped);
              && (format != ACF_FULLQ && (format == ACF_BANDED ==> stopped) && NotStopped(calls', second) ==>
                    IsOneSearch(Upper(xlatcase, A + B), current, e, calls, calls', stopped))
              && (format != ACF_BANDED && (format == ACF_FULLQ ==> !stopped) && NotStopped(calls', second) ==>
                    next == Run(step, current, Upper(xlatcase, A + B)))
      ensures format == ACF_FULLQ && NotStopped(calls, first) && NotStopped(calls', second) ==>
                forall c :: c in AllCalls(Upper(xlatcase, A + B), current) <==> c in calls || c in calls'
    {
      hide CutAtFirstStop, NotStopped, Run, FullCalls, SparseCalls, BandedCalls, Shift, QueueCalls, ReportsAll,
        AreJoined, IsNamed, EndsIn, EndOf, IsDuring, Collect, CallsOn, HeadCall, ListsFrom;
      ghost var M, a, b := matchList[..], Upper(xlatcase, A), Upper(xlatcase, B);
      var n: nat;
      n, next, calls := Search(A, current, first);
      StoppedByLast(calls, AllCalls(a, current), first);
      var e := |A|;
      if format != ACF_FULLQ {
        e := EndPosition(|A|, calls, calls != [] && first(calls) > 0);
      }
      ghost var t, stopped := next, !NotStopped(calls, first);
      n, next, calls' := Search(A[e..] + B, next, second);
      if NotStopped(calls', second) && (format == ACF_BANDED ==> stopped) && (format == ACF_FULLQ ==> !stopped) {
        UpperInPieces(xlatcase, A, B, e);
        CutFacts(calls', AllCalls(a[e..] + b, t), second);
        RunSplit(step, current, a[..e], a[e..] + b);
        if format == ACF_FULLQ {
          CutFacts(calls, AllCalls(a, current), first);
          forall c ensures c in AllCalls(a + b, current) <==> c in calls || c in calls' {
            QueueSearchInPieces(step, M, current, a, b, c);
          }
        } else {
          TwoAreOne(a, b, current, e, t, calls, calls', stopped);
        }
      }
    }

    lemma {:induction false} TwoAreOne(a: Str, b: Str, current: nat, e: nat, t: nat, calls: seq<Call>,
          calls': seq<Call>, stopped: bool)
      requires EndsAt(a, current, calls, stopped) && (stopped ==> calls != []) && e <= |a|
      requires e == EndPosition(|a|, calls, stopped) && t == Run(step, current, a[..e]) < matchList.Length
      requires calls' == AllCalls(a[e..] + b, t) && format != ACF_FULLQ && (format == ACF_BANDED ==> stopped)
      ensures IsOneSearch(a + b, current, e, calls, calls', stopped)
    {
      hide Run, FullCalls, SparseCalls, BandedCalls, AreJoined, EndsIn, Collect, CallsOn, HeadCall, ListsFrom, FullAt,
        BandedAt, SparseAt, EndOf;
      ghost var M := matchList[..];
      assert (a + b)[..e] == a[..e];
      if format == ACF_FULL {
        FullIsJoined(step, M, current, a, e, b, calls, calls', stopped);
      } else if format == ACF_BANDED {
        BandedIsJoined(step, M, current, a, e, b, calls, calls', stopped);
        StoppingHead(step, M, current, a, e, calls);
      } else {
        SparseIsJoined(step, M, current, a, e, b, calls, calls', stopped);
      }
    }

    // The calls of two searches are those of one.
    ghost predicate IsOneSearch(w: Str, current: nat, e: int, calls: seq<Call>, calls': seq<Call>, stopped: bool)
      reads this, matchList
    {
      0 <= e <= |w| &&
      var t := Run(step, current, w[..e]);
      && t < matchList.Length && (stopped ==> calls != [])
      && AreJoined(AllCalls(w, current), calls, calls', e,
                   if format == ACF_FULL then CallsOn(matchList[t], e)
                   else if format == ACF_BANDED && stopped then [calls[|calls| - 1]]
                   else [], stopped)
    }

    // The calls of a search that is not stopped, format by format.
    ghost function AllCalls(w: Str, current: nat): seq<Call>
      reads this, matchList
    {
      var L := ListsFrom(step, matchList[..], current);
      if format == ACF_FULL then FullCalls(L, w)
      else if format == ACF_FULLQ then QueueCalls(step, matchList[..], current, w)
      else if format == ACF_BANDED then BandedCalls(L, w)
      else SparseCalls(L, w)
    }

    // What these calls say about the text: in the full format, every occurrence of
    // every pattern, as often as there is an entry for it; in the formats that
    // report heads, one entry for each end position where anything occurs; in the
    // queued format, entries that occur, among them one for each such position.
    ghost predicate ReportsAll(w: Str, calls: seq<Call>)
      reads this
    {
      if format == ACF_FULL then multiset(calls) == Occurrences(patterns, w, |w| + 1)
      else if format == ACF_FULLQ then AreSomewhere(calls, patterns, w)
      else AreHeadsAt(calls, patterns, w, if format == ACF_BANDED then 0 else 1, |w| + 1)
    }

    lemma {:induction false} AllIsReported(w: Str, calls: seq<Call>)
      requires IsCompiled() && calls == AllCalls(w, 0)
      ensures ReportsAll(w, calls)
    {
      hide IsStepOf, AllInTrie, OnlyPrefixes, ListsEndings, Occurrences, Run, Collect, AreSomewhere, AreHeadsAt,
        QueueCalls;
      ghost var M := matchList[..];
      if format == ACF_FULL {
        FullCallsAreOccurrences(paths, step, patterns, M, w);
      } else if format == ACF_FULLQ {
        QueueCallsOccur(paths, step, patterns, M, w);
      } else if format == ACF_BANDED {
        BandedHeads(paths, step, patterns, M, w, |w| + 1);
      } else {
        SparseHeads(paths, step, patterns, M, w, |w|);
      }
    }

    // The transition of the full search, which reads the vector directly.
    method StepFull(state: nat, sindex: Byte) returns (next: nat)
      requires IsLoaded() && (format == ACF_FULL || format == ACF_FULLQ) && state < numStates
      ensures next == step(state, sindex) && next < numStates
    {
      assert IsState(step, nextState[..], matchList[..], format, state);
      assert ReadRow(nextState[..][state], sindex) == step(state, sindex);
      var ps := nextState[state];
      return ps[2 + sindex];
    }

    // The test of the match flag: a state without one has an empty list.
    method HasMatches(state: nat) returns (b: bool)
      requires IsLoaded() && state < numStates
      ensures b <==> matchList[state] != []
    {
      assert IsState(step, nextState[..], matchList[..], format, state);
      return nextState[state][1] != 0;
    }

    // `acsmSearchSparseDFA_Full`. Returns the number of calls, the state to
    // carry over and the calls; e is the position where the search ended, one
    // beyond the end of the text when it was not stopped.
    method SearchFull(T: Str, current: nat, answer: Callback)
      returns (nfound: nat, next: nat, calls: seq<Call>, ghost e: nat)
      requires IsLoaded() && format == ACF_FULL && current < numStates
      ensures nfound == |calls| && e <= |T| + 1 && next < numStates
      ensures var w := Upper(xlatcase, T);
              && Outcome(FullAt(ListsFrom(step, matchList[..], current), w), |w| + 1, calls, answer, e)
              && next == Run(step, current, if e <= |w| then w[..e] else w)
              && (e <= |w| ==> calls != [] && EndOf(calls[|calls| - 1]) == e)
    {
      hide CallsOn, Made, StoppedAt, ListsFrom, EndOf;
      ghost var w: Str := Upper(xlatcase, T);
      ghost var at := FullAt(ListsFrom(step, matchList[..], current), w);
      var stop := false;
      next, calls := current, [];
      MadeNothing(at, answer);
      for i := 0 to |T|
        invariant next < numStates && next == Run(step, current, w[..i])
        invariant Made(at, i, calls, answer)
      {
        calls, stop := ReportState(next, i, calls, answer, at);
        if stop {
          FullOutcome(ListsFrom(step, matchList[..], current), w, calls, answer, i);
          return |calls|, next, calls, i;
        }
        RunSnoc(step, current, w, i);
        next := StepFull(next, xlatcase[T[i]]);
      }
      assert w[..|T|] == w;
      calls, stop := ReportList(matchList[next], |T|, calls, answer, at);
      e := if stop then |T| else |T| + 1;
      FullOutcome(ListsFrom(step, matchList[..], current), w, calls, answer, e);
      return |calls|, next, calls, e;
    }

    // `acsmSearchSparseDFA`, for the sparse and the sparse-band format: reports
    // the head of the list of each state that it enters.
    method SearchSparse(T: Str, current: nat, answer: Callback)
      returns (nfound: nat, next: nat, calls: seq<Call>, ghost e: nat)
      requires IsLoaded() && current < numStates
      ensures nfound == |calls| && e <= |T| && next < numStates
      ensures var w := Upper(xlatcase, T);
              && Outcome(SparseAt(ListsFrom(step, matchList[..], current), w), |w|, calls, answer, e)
              && next == Run(step, current, if e < |w| then w[..e + 1] else w)
              && NameHeads(step, matchList[..], current, w, 1, if e < |w| then e + 2 else |w| + 1, calls)
              && (e < |w| ==> calls != [] && EndOf(calls[|calls| - 1]) == e + 1)
    {
      hide HeadCall, Made, StoppedAt, ListsFrom, NameHeads, EndOf, Run, Collect;
      ghost var w: Str := Upper(xlatcase, T);
      ghost var at := SparseAt(ListsFrom(step, matchList[..], current), w);
      var stop := false;
      next, calls := current, [];
      MadeNothing(at, answer);
      RunNothing(step, current, w);
      for i := 0 to |T|
        invariant next < numStates && next == Run(step, current, w[..i])
        invariant Made(at, i, calls, answer)
      {
        RunSnoc(step, current, w, i);
        next := StepRow(next, xlatcase[T[i]]);
        assert at(i) == HeadCall(matchList[next], i + 1);
        calls, stop := ReportHeadOf(next, i, i + 1, calls, answer, at);
        if stop {
          SparseOutcome(step, matchList[..], current, w, calls, answer, i);
          return |calls|, next, calls, i;
        }
      }
      assert w[..|T|] == w;
      SparseOutcome(step, matchList[..], current, w, calls, answer, |T|);
      return |calls|, next, calls, |T|;
    }

    // `acsmSearchSparseDFA_Banded`. After a complete scan it leaves the state
    // of its caller alone.
    method SearchBanded(T: Str, current: nat, answer: Callback)
      returns (nfound: nat, next: nat, calls: seq<Call>, ghost e: nat)
      requires IsLoaded() && format == ACF_BANDED && current < numStates
      ensures nfound == |calls| && e <= |T| + 1 && next < numStates
      ensures var w := Upper(xlatcase, T);
              && Outcome(BandedAt(ListsFrom(step, matchList[..], current), w), |w| + 1, calls, answer, e)
              && next == (if e <= |w| then Run(step, current, w[..e]) else current)
              && NameHeads(step, matchList[..], current, w, 0, if e <= |w| then e + 1 else |w| + 1, calls)
              && (e <= |w| ==> calls != [] && EndOf(calls[|calls| - 1]) == e)
    {
      hide HeadCall, Made, StoppedAt, ListsFrom, NameHeads, EndOf;
      ghost var w: Str := Upper(xlatcase, T);
      ghost var at := BandedAt(ListsFrom(step, matchList[..], current), w);
      var state, stop := current, false;
      calls := [];
      MadeNothing(at, answer);
      for i := 0 to |T|
        invariant state < numStates && state == Run(step, current, w[..i])
        invariant Made(at, i, calls, answer)
      {
        assert at(i) == HeadCall(matchList[state], i);
        calls, stop := ReportHeadOf(state, i, i, calls, answer, at);
        if stop {
          BandedOutcome(step, matchList[..], current, w, calls, answer, i);
          return |calls|, state, calls, i;
        }
        RunSnoc(step, current, w, i);
        state := StepBanded(state, xlatcase[T[i]]);
      }
      assert w[..|T|] == w;
      assert at(|T|) == HeadCall(matchList[state], |T|);
      calls, stop := ReportHead(matchList[state], |T|, |T|, calls, answer, at);
      e := if stop then |T| else |T| + 1;
      BandedOutcome(step, matchList[..], current, w, calls, answer, e);
      return |calls|, if stop then state else current, calls, e;
    }

    // `acsmSearchSparseDFA_Full_q`: the states are queued and reported in
    // batches of distinct states. Returns 1 when it is stopped at a position e
    // before the end, and 0 otherwise, even when its last batch is stopped.
    method SearchFullQ(T: Str, current: nat, answer: Callback) returns (r: nat, next: nat, calls: seq<Call>,
          ghost e: nat)
      requires IsLoaded() && format == ACF_FULLQ && current < numStates
      ensures CutAtFirstStop(calls, QueueCalls(step, matchList[..], current, Upper(xlatcase, T)), answer)
      ensures r == if IsStoppedEarly(step, matchList[..], current, Upper(xlatcase, T), calls, answer) then 1 else 0
      ensures e <= |T| && next < numStates && next == Run(step, current, Upper(xlatcase, T)[..e])
      ensures if r == 0 then e == |T| else IsDuring(step, matchList[..], current, Upper(xlatcase, T), e, |calls|)
      ensures NameHeadsOf(matchList[..], Order(step, matchList[..], current, Upper(xlatcase, T), |T| + 1), calls)
    {
      hide NameHeadsOf, Order;
      hide Run, Progress, QueueCalls, HeadsOf, CutAtFirstStop, IsStoppedEarly, IsDuring;
      ghost var w: Str := Upper(xlatcase, T);
      var queue := new MatchQueue();
      var stop := false;
      next, calls, e := current, [], |T|;
      RunNothing(step, current, w);
      NothingQueued(step, matchList[..], current, w);
      for i := 0 to |T|
        invariant queue.Valid() && fresh(queue) && fresh(queue.q)
        invariant next < numStates && next == Run(step, current, w[..i])
        invariant Progress(step, matchList[..], current, w, i, queue.Items(), calls)
        invariant NotStopped(calls, answer)
      {
        calls, stop := QueueState(queue, next, current, i, w, calls, answer);
        if stop {
          DuringIsEarly(step, matchList[..], current, w, i, calls, answer);
          CallsAreNamed(step, matchList[..], current, w, calls, answer);
          return 1, next, calls, i;
        }
        RunSnoc(step, current, w, i);
        next := StepFull(next, xlatcase[T[i]]);
      }
      calls := LastQueue(queue, next, current, w, calls, answer);
      CallsAreNamed(step, matchList[..], current, w, calls, answer);
      return 0, next, calls, |T|;
    }

    // One round of `AC_SEARCH_Q` before the transition.
    method QueueState(queue: MatchQueue, state: nat, ghost s: nat, ghost i: nat, ghost w: Str, before: seq<Call>,
          answer: Callback)
      returns (calls: seq<Call>, stop: bool)
      requires IsLoaded() && state < numStates && i < |w| && state == Run(step, s, w[..i])
      requires queue.Valid() && NotStopped(before, answer) && queue.q as object != matchList
          && queue.q as object != nextState
      requires Progress(step, matchList[..], s, w, i, queue.Items(), before)
      modifies queue, queue.q
      ensures queue.Valid() && queue.q == old(queue.q)
      ensures stop <==> !NotStopped(calls, answer)
      ensures !stop ==> Progress(step, matchList[..], s, w, i + 1, queue.Items(), calls)
      ensures stop ==> CutAtFirstStop(calls, QueueCalls(step, matchList[..], s, w), answer)
      ensures stop ==> IsDuring(step, matchList[..], s, w, i, |calls|)
    {
      hide Run, Progress, HeadsOf, CutAtFirstStop, QueueCalls, Distinct;
      ghost var M, pending := matchList[..], queue.Items();
      calls, stop := before, false;
      PendingHasLists(step, M, s, w, i, pending, before);
      var flagged := HasMatches(state);
      if !flagged {
        ProgressPending(step, M, s, w, i, pending, before, state, pending);
        return;
      }
      var full := queue.Add(state);
      if !full {
        ProgressPending(step, M, s, w, i, pending, before, state, queue.Items());
        return;
      }
      calls, stop := queue.Process(matchList, before, answer);
      ProgressFlush(step, M, s, w, i, pending, before, state, calls, answer);
      if stop {
        StopIsDuring(step, M, s, w, i, pending, before, state, calls, answer);
      }
    }

    // The end of `acsmSearchSparseDFA_Full_q`.
    method LastQueue(queue: MatchQueue, state: nat, ghost s: nat, ghost w: Str, before: seq<Call>, answer: Callback)
      returns (calls: seq<Call>)
      requires IsLoaded() && state < numStates && state == Run(step, s, w[..|w|])
      requires queue.Valid() && NotStopped(before, answer) && queue.q as object != matchList
          && queue.q as object != nextState
      requires Progress(step, matchList[..], s, w, |w|, queue.Items(), before)
      modifies queue, queue.q
      ensures CutAtFirstStop(calls, QueueCalls(step, matchList[..], s, w), answer)
      ensures !IsStoppedEarly(step, matchList[..], s, w, calls, answer)
    {
      hide Run, Progress, HeadsOf, CutAtFirstStop, QueueCalls, Distinct, IsStoppedEarly;
      ghost var M, pending := matchList[..], queue.Items();
      PendingHasLists(step, M, s, w, |w|, pending, before);
      if matchList[state] != [] {
        var full := queue.Add(state);
      }
      ghost var items := queue.Items();
      var stop;
      calls, stop := queue.Process(matchList, before, answer);
      ProgressEnd(step, M, s, w, pending, before, state, items, calls, answer);
      StopIsLate(step, M, s, w, pending, before, items, calls, answer);
    }

    // The transition of `acsmSearchSparseDFA`.
    method StepRow(state: nat, sindex: Byte) returns (next: nat)
      requires IsLoaded() && state < numStates
      ensures next == step(state, sindex) && next < numStates
    {
      assert IsState(step, nextState[..], matchList[..], format, state);
      assert ReadRow(nextState[..][state], sindex) == step(state, sindex);
      next := GetNextStateDFA(nextState[state], sindex);
    }

    // The transition of the banded search; the bound is computed in 32 bits.
    method StepBanded(state: nat, sindex: Byte) returns (next: nat)
      requires IsLoaded() && format == ACF_BANDED && state < numStates
      ensures next == step(state, sindex) && next < numStates
    {
      assert IsState(step, nextState[..], matchList[..], format, state);
      assert ReadRow(nextState[..][state], sindex) == step(state, sindex);
      var ps := nextState[state];
      if sindex < ps[3] {
        next := 0;
      } else if sindex >= (Val(ps, 3) + Val(ps, 2)) % 0x1_0000_0000 {
        next := 0;
      } else {
        next := ps[4 + sindex - ps[3]];
      }
    }

    method ReportHeadOf(state: nat, i: nat, e: nat, before: seq<Call>, answer: Callback, ghost at: nat -> seq<Call>)
      returns (calls: seq<Call>, stop: bool)
      requires IsLoaded() && state < numStates && at(i) == HeadCall(matchList[state], e)
      requires Made(at, i, before, answer)
      ensures if stop then StoppedAt(at, i, calls, answer) else Made(at, i + 1, calls, answer)
    {
      var flagged := HasMatches(state);
      if flagged {
        calls, stop := ReportHead(matchList[state], i, e, before, answer, at);
      } else {
        calls, stop := before, false;
      }
    }

    // The list of a state is only looked at when its row has the match flag.
    method ReportState(state: nat, i: nat, before: seq<Call>, answer: Callback, ghost at: nat -> seq<Call>)
      returns (calls: seq<Call>, stop: bool)
      requires IsLoaded() && state < numStates && at(i) == CallsOn(matchList[state], i)
      requires Made(at, i, before, answer)
      ensures if stop then StoppedAt(at, i, calls, answer) else Made(at, i + 1, calls, answer)
    {
      var flagged := HasMatches(state);
      if flagged {
        calls, stop := ReportList(matchList[state], i, before, answer, at);
      } else {
        calls, stop := before, false;
      }
    }
  }

  // Patterns in, calls out: what the entries of a fresh engine are, and what a
  // search that is not stopped reports about the text.
  method Scan(xlat: CaseTable, pats: seq<Str>, format: int, text: Str, answer: Callback)
    returns (a: Acsm, nfound: nat, calls: seq<Call>)
    requires (forall p :: p in pats ==> p != []) && Letters(pats) < INT_MAX && 0 <= format <= 4
    ensures AreEntries(xlat, pats, a.patterns) && a.format == format
    ensures NotStopped(calls, answer) ==> a.ReportsAll(Upper(xlat, text), calls)
  {
    hide NotStopped, IsStepOf, AllInTrie, OnlyPrefixes, ListsEndings;
    a := new Acsm(xlat);
    var r := a.SelectFormat(format);
    for i := 0 to |pats|
      invariant fresh(a) && a.PatternsOk() && AreEntries(xlat, pats[..i], a.patterns) && a.xlatcase == xlat
      invariant a.format == format && !a.compressStates
    {
      EntriesGrow(xlat, pats, i, a.patterns, Pattern(Upper(xlat, pats[i]), pats[i], 0, 0, 0, 0, 0, 0));
      a.AddPattern(pats[i], 0, 0, 0, 0, 0, 0);
    }
    assert pats[..|pats|] == pats;
    EntriesFit(xlat, pats, a.patterns);
    a.Compile();
    RootIsState(a.paths, a.step);
    var next;
    nfound, next, calls := a.Search(text, 0, answer);
  }

  lemma {:induction false} UpperOfSum(xlat: CaseTable, A: Str, B: Str)
    ensures Upper(xlat, A + B) == Upper(xlat, A) + Upper(xlat, B)
  {}

  lemma {:induction false} UpperOfRest(xlat: CaseTable, A: Str, e: nat)
    requires e <= |A|
    ensures Upper(xlat, A[e..]) == Upper(xlat, A)[e..]
  {}

  lemma {:induction false} CutAndJoined(a: Str, b: Str, e: nat)
    requires e <= |a|
    ensures a[..e] + (a[e..] + b) == a + b && a[..|a|] == a && a[|a|..] + b == b
  {}

  lemma {:induction false} UpperInPieces(xlat: CaseTable, A: Str, B: Str, e: nat)
    requires e <= |A|
    ensures var a, b := Upper(xlat, A), Upper(xlat, B);
            && Upper(xlat, A + B) == a + b && Upper(xlat, A[e..] + B) == a[e..] + b
            && a[..e] + (a[e..] + b) == a + b && a[..|a|] == a && a[|a|..] + b == b
  {
    hide Upper;
    UpperOfSum(xlat, A, B);
    UpperOfSum(xlat, A[e..], B);
    UpperOfRest(xlat, A, e);
    CutAndJoined(Upper(xlat, A), Upper(xlat, B), e);
  }

  // `ConvertCaseEx`
  method ConvertCase(xlat: CaseTable, s: Str) returns (d: Str)
    ensures d == Upper(xlat, s)
  {
    d := [];
    for i := 0 to |s|
      invariant |d| == i && forall k :: 0 <= k < i ==> d[k] == xlat[s[k]]
    {
      d := d + [xlat[s[i]]];
    }
  }

  // The first loop of `acsmCompile2`.
  method CountCharacters(pats: seq<Pattern>) returns (n: nat)
    ensures n == TotalLength(pats)
  {
    n := 0;
    var plist := pats;
    while plist != []
      invariant n + TotalLength(plist) == TotalLength(pats)
    {
      n := n + |plist[0].patrn|;
      plist := plist[1..];
    }
  }

  // The first half of `acsmCompile2`.
  method BuildTables(pats: seq<Pattern>)
    returns (numStates: nat, transTable: array<Row>, matchList: array<seq<Pattern>>,
             ghost P: seq<Str>, ghost step: Step)
    requires NonEmpty(pats) && TotalLength(pats) < INT_MAX
    ensures fresh(transTable) && fresh(matchList)
    ensures IsStepOf(P, step) && |P| == numStates <= transTable.Length == matchList.Length <= INT_MAX
    ensures forall s :: 0 <= s < numStates ==> RowIsStep(transTable[..], step, numStates, s)
    ensures AllInTrie(P, pats) && OnlyPrefixes(P, pats)
    ensures ListsEndings(P, pats, matchList[..]) && InOrder(P, pats, matchList[..])
  {
    hide InOrder;
    var n := CountCharacters(pats);
    var b := new Builder(n + 1);
    b.BuildAutomaton(pats);
    P := b.paths;
    DfaIsStep(b.transTable[..], P);
    return b.numStates + 1, b.transTable, b.matchList, P, StepOf(P);
  }

  // The width of a table entry that `acsmCompile2` selects: wide enough for
  // every state.
  method StateSize(compress: bool, numStates: nat) returns (size: nat)
    requires numStates <= INT_MAX
    ensures numStates <= Capacity(size)
    ensures size == if compress && numStates < 0xFF then 1 else if compress && numStates < 0xFFFF then 2 else 4
  {
    if compress {
      if numStates < 0xFF { return 1; }
      else if numStates < 0xFFFF { return 2; }
    }
    return 4;
  }

  // The finished lists are the transition function.
  ghost predicate RowIsStep(T: seq<Row>, step: Step, n: nat, s: nat)
    requires s < |T|
  {
    UniqueKeys(T[s]) && forall c: Byte :: Next(T[s], c) == step(s, c) < n
  }

  lemma {:induction false} DfaIsStep(T: seq<Row>, P: seq<Str>)
    requires IsDfa(T, P)
    ensures forall s :: 0 <= s < |P| ==> RowIsStep(T, StepOf(P), |P|, s)
  {
    forall s | 0 <= s < |P| ensures RowIsStep(T, StepOf(P), |P|, s) {
      DfaRowIsStep(T, P, StepOf(P), s);
    }
  }

  lemma {:induction false} DfaRowIsStep(T: seq<Row>, P: seq<Str>, step: Step, s: nat)
    requires IsDfa(T, P) && IsStepOf(P, step) && s < |P|
    ensures RowIsStep(T, step, |P|, s)
  {
    assert IsDfaState(T, P, s);
    forall c: Byte ensures Next(T[s], c) == step(s, c) < |P| {
      assert StepsRight(P, step, s, c);
    }
  }

  // The conversion of one transition list to the selected format.
  method ConvertRow(row: Row, k: nat, format: Word, size: nat, maxRowNodes: int, zmax: int, ghost n: nat)
    returns (p: seq<Word>)
    requires UniqueKeys(row) && (forall c: Byte :: Next(row, c) < n) && n <= Capacity(size) && n <= INT_MAX
    requires format <= 4 && size in {1, 2, 4} && (size != 4 ==> format == ACF_FULL || format == ACF_FULLQ)
    ensures RowShape(p) && p[1] == 0 && HasFormat(p, format)
    ensures forall c: Byte :: ReadRow(p, c) == Next(row, c)
  {
    var full := new Word[256];
    var tcnt := ConvToFull(row, size, full);
    assert forall c: Byte :: full[..][c] == Next(row, c);
    if format == ACF_SPARSE {
      p := EncodeSparse(full, k, maxRowNodes);
    } else if format == ACF_BANDED {
      p := EncodeBanded(full);
    } else if format == ACF_SPARSEBANDS {
      p := EncodeSparseBands(full, zmax);
    } else {
      p := EncodeFull(full);
    }
  }

  // A row as the encoders leave it, with the match flag not yet set.
  ghost predicate IsPlainState(step: Step, N: seq<seq<Word>>, format: Word, s: nat)
    requires s < |N|
  {
    IsRowOf(step, N, s) && N[s][1] == 0 && HasFormat(N[s], format)
  }

  // `Conv_List_To_Full` and the three `Conv_Full_DFA_To_...` loops over states.
  method ConvertRows(T: array<Row>, ghost step: Step, format: Word, numStates: nat, size: nat, maxRowNodes: int,
        zmax: int)
    returns (N: array<seq<Word>>)
    requires numStates <= Capacity(size) && numStates <= INT_MAX && numStates <= T.Length
    requires forall s :: 0 <= s < numStates ==> RowIsStep(T[..], step, numStates, s)
    requires format <= 4 && size in {1, 2, 4} && (size != 4 ==> format == ACF_FULL || format == ACF_FULLQ)
    ensures fresh(N) && N.Length == numStates
    ensures forall s :: 0 <= s < numStates ==> IsPlainState(step, N[..], format, s)
  {
    N := new seq<Word>[numStates];
    for k := 0 to numStates
      invariant forall s :: 0 <= s < k ==> IsPlainState(step, N[..], format, s)
    {
      assert RowIsStep(T[..], step, numStates, k);
      ghost var N0 := N[..];
      N[k] := ConvertRow(T[k], k, format, size, maxRowNodes, zmax, numStates);
      forall s | 0 <= s < k + 1 ensures IsPlainState(step, N[..], format, s) {
        assert s < k ==> IsPlainState(step, N0, format, s);
      }
    }
  }

  // `acsmUpdateMatchStates`
  method UpdateMatchStates(numStates: nat, N: array<seq<Word>>, M: array<seq<Pattern>>, ghost step: Step,
        ghost format: Word)
    requires numStates == N.Length <= M.Length
    requires forall s :: 0 <= s < numStates ==> IsPlainState(step, N[..], format, s)
    modifies N
    ensures IsAutomaton(step, N[..], M[..], format)
  {
    for state := 0 to numStates
      invariant forall s :: 0 <= s < state ==> IsState(step, N[..], M[..], format, s)
      invariant forall s :: state <= s < numStates ==> IsPlainState(step, N[..], format, s)
    {
      ghost var N0 := N[..];
      assert IsPlainState(step, N0, format, state);
      if M[state] != [] {
        FlagKeepsRow(N[state]);
        N[state] := N[state][1 := 1];
      }
      FlagStep(step, N0, N[..], M[..], format, state);
    }
  }

  lemma {:induction false} FlagStep(step: Step, N0: seq<seq<Word>>, N: seq<seq<Word>>, M: seq<seq<Pattern>>,
        format: Word, k: nat)
    requires k < |N| == |N0| <= |M| && IsPlainState(step, N0, format, k)
    requires forall s :: 0 <= s < |N| && s != k ==> N[s] == N0[s]
    requires N[k] == if M[k] == [] then N0[k] else N0[k][1 := 1]
    requires RowShape(N[k]) && forall c: Byte :: ReadRow(N[k], c) == ReadRow(N0[k], c)
    requires forall s :: 0 <= s < k ==> IsState(step, N0, M, format, s)
    requires forall s :: k <= s < |N| ==> IsPlainState(step, N0, format, s)
    ensures forall s :: 0 <= s < k + 1 ==> IsState(step, N, M, format, s)
    ensures forall s :: k + 1 <= s < |N| ==> IsPlainState(step, N, format, s)
  {
    forall s | 0 <= s < k + 1 ensures IsState(step, N, M, format, s) {
      assert s < k ==> IsState(step, N0, M, format, s);
    }
    forall s | k + 1 <= s < |N| ensures IsPlainState(step, N, format, s) {
      assert IsPlainState(step, N0, format, s);
    }
  }

  lemma {:induction false} FlagKeepsRow(ps: seq<Word>)
    requires RowShape(ps)
    ensures RowShape(ps[1 := 1]) && forall c: Byte :: ReadRow(ps[1 := 1], c) == ReadRow(ps, c)
  {
    forall c: Byte ensures RowShape(ps[1 := 1]) && ReadRow(ps[1 := 1], c) == ReadRow(ps, c) {
      FlagKeepsReading(ps, 1, c);
    }
    FlagKeepsReading(ps, 1, 0);
  }

  // The loop over one match list: calls `Match` for each entry until it asks
  // to stop.
  method ReportList(m: seq<Pattern>, i: nat, before: seq<Call>, answer: Callback, ghost at: nat -> seq<Call>)
    returns (calls: seq<Call>, stop: bool)
    requires Made(at, i, before, answer) && at(i) == CallsOn(m, i)
    ensures if stop then StoppedAt(at, i, calls, answer) else Made(at, i + 1, calls, answer)
  {
    ghost var all := CallsOn(m, i);
    var k := 0;
    calls := before;
    while k < |m|
      invariant k <= |m| && calls == before + all[..k]
      invariant NotStopped(calls, answer)
    {
      ghost var done := calls;
      calls := calls + [Call(m[k], i - |m[k].patrn|)];
      assert calls == before + all[..k + 1];
      assert calls[..|calls| - 1] == done && calls[..|calls|] == calls;
      assert forall j :: 0 < j < |calls| ==> calls[..j] == done[..j];
      if answer(calls) > 0 {
        assert before + all == calls + all[k + 1..];
        return calls, true;
      }
      k := k + 1;
    }
    return calls, false;
  }

  // The non-full searches call `Match` for the head of the list only.
  method ReportHead(m: seq<Pattern>, i: nat, e: nat, before: seq<Call>, answer: Callback, ghost at: nat -> seq<Call>)
    returns (calls: seq<Call>, stop: bool)
    requires Made(at, i, before, answer) && at(i) == HeadCall(m, e)
    ensures if stop then StoppedAt(at, i, calls, answer) else Made(at, i + 1, calls, answer)
  {
    calls, stop := before, false;
    if m != [] {
      calls := calls + [Call(m[0], e - |m[0].patrn|)];
      assert calls[..|calls| - 1] == before && calls[..|calls|] == calls;
      assert forall j :: 0 < j < |calls| ==> calls[..j] == before[..j];
      stop := answer(calls) > 0;
    }
  }

  function Letters(pats: seq<Str>): nat {
    if pats == [] then 0 else Letters(pats[..|pats| - 1]) + |pats[|pats| - 1]|
  }

  // One entry for each pattern, the last one first.
  ghost predicate AreEntries(xlat: CaseTable, pats: seq<Str>, entries: seq<Pattern>) {
    && |entries| == |pats|
    && forall i {:trigger pats[i]} :: 0 <= i < |pats| ==> IsEntry(xlat, pats[i], entries[|pats| - 1 - i])
  }

  ghost predicate IsEntry(xlat: CaseTable, pat: Str, p: Pattern) {
    p.casepatrn == pat && p.patrn == Upper(xlat, pat)
  }

  lemma {:induction false} EntriesGrow(xlat: CaseTable, pats: seq<Str>, i: nat, entries: seq<Pattern>, p: Pattern)
    requires i < |pats| && AreEntries(xlat, pats[..i], entries) && IsEntry(xlat, pats[i], p)
    ensures AreEntries(xlat, pats[..i + 1], [p] + entries)
  {
    var more := pats[..i + 1];
    forall j | 0 <= j < |more| ensures IsEntry(xlat, more[j], ([p] + entries)[|more| - 1 - j]) {
      assert j < i ==> pats[..i][j] == more[j];
    }
  }

  lemma {:induction false} EntriesFit(xlat: CaseTable, pats: seq<Str>, entries: seq<Pattern>)
    requires AreEntries(xlat, pats, entries) && forall p :: p in pats ==> p != []
    ensures NonEmpty(entries) && TotalLength(entries) == Letters(pats)
  {
    if pats == [] {
      assert entries == [];
    } else {
      var less, p, rest := pats[..|pats| - 1], entries[0], entries[1..];
      assert pats[|pats| - 1] in pats && IsEntry(xlat, pats[|pats| - 1], p);
      assert entries == [p] + rest;
      forall j | 0 <= j < |less| ensures IsEntry(xlat, less[j], rest[|less| - 1 - j]) {
        assert pats[j] == less[j];
      }
      assert forall q :: q in less ==> q in pats;
      EntriesFit(xlat, less, rest);
    }
  }

  lemma {:induction false} RootIsState(P: seq<Str>, step: Step)
    requires IsStepOf(P, step)
    ensures |P| > 0
  {}
}
