// Building the automaton: the keyword trie, the failure links with merged
// match lists, and the in-place completion of the transition table.
module AcBuild {
  import opened AcTheory
  import opened AcTable
  import opened AcPatterns
  import opened AcBreadthFirst
  import opened AcCalls
  import LsList

  // First-in first-out queue of states that ignores states it already holds.
  class Queue {
    var items: seq<nat>

    constructor ()
      ensures items == []
    {
      items := [];
    }

    method Find(state: nat) returns (found: bool)
      ensures found <==> state in items
    {
      var k := 0;
      while k < |items|
        invariant k <= |items|
        invariant state !in items[..k]
      {
        if items[k] == state { return true; }
        k := k + 1;
      }
      return false;
    }

    method Add(state: nat)
      modifies this
      ensures items == if state in old(items) then old(items) else old(items) + [state]
    {
      var found := Find(state);
      if found { return; }
      items := items + [state];
    }

    method Remove() returns (state: nat)
      modifies this
      ensures if old(items) == [] then state == 0 && items == []
              else state == old(items)[0] && items == old(items)[1..]
    {
      state := 0;
      if items != [] {
        state := items[0];
        items := items[1..];
      }
    }
  }

  // The part of the engine that exists while it is compiled.
  class Builder {
    var numStates: nat                    // index of the last state
    var numTrans: nat
    var transTable: array<Row>
    var failState: array<nat>
    var matchList: array<seq<Pattern>>
    ghost var paths: seq<Str>             // the string each state stands for

    constructor (maxStates: nat)
      requires 0 < maxStates <= INT_MAX
      ensures fresh(transTable) && fresh(matchList) && fresh(failState)
      ensures TrieProgress([]) && paths == [[]]
      ensures transTable.Length == maxStates
    {
      numStates, numTrans := 0, 0;
      transTable := new Row[maxStates](_ => []);
      matchList := new seq<Pattern>[maxStates](_ => []);
      failState := new nat[0];
      paths := [[]];
      new;
      assert forall c: Byte :: [] + [c] !in paths;
      assert OwnMatch(paths, [], matchList[..], 0);
    }

    ghost predicate IsBuilt()
      reads this, transTable
    {
      && IsTrie(transTable[..], paths)
      && |paths| == numStates + 1
      && matchList.Length == transTable.Length <= INT_MAX
    }

    // `List_GetNextState`
    method GetNextState(state: nat, input: Byte) returns (next: nat)
      requires state < transTable.Length
      ensures next == if Defined(transTable[state], input) then Next(transTable[state], input)
                      else if state == 0 then 0 else FAIL_STATE
    {
      var t := transTable[state];
      while t != []
        invariant Defined(t, input) <==> Defined(transTable[state], input)
        invariant Next(t, input) == Next(transTable[state], input)
      {
        if t[0].key == input {
          return t[0].next;
        }
        assert forall k :: 0 <= k < |t| && t[k].key == input ==> t[1..][k - 1].key == input;
        t := t[1..];
      }
      return if state == 0 then 0 else FAIL_STATE;
    }

    // `List_GetNextState2`
    method GetNextStateOrRoot(state: nat, input: Byte) returns (next: nat)
      requires state < transTable.Length
      ensures next == Next(transTable[state], input)
    {
      var t := transTable[state];
      while t != []
        invariant Next(t, input) == Next(transTable[state], input)
      {
        if t[0].key == input {
          return t[0].next;
        }
        t := t[1..];
      }
      return 0;
    }

    // `List_PutNextState`
    method PutNextState(state: nat, input: Byte, next: nat)
      requires state < transTable.Length && UniqueKeys(transTable[state])
      modifies transTable, `numTrans
      ensures IsPut(old(transTable[state]), input, next, transTable[state])
      ensures forall s :: 0 <= s < transTable.Length && s != state ==> transTable[s] == old(transTable[s])
      ensures numTrans == old(numTrans) + |transTable[state]| - |old(transTable[state])|
    {
      var row := transTable[state];
      var k := 0;
      while k < |row|
        invariant k <= |row|
        invariant forall j :: 0 <= j < k ==> row[j].key != input
      {
        if row[k].key == input {
          PutUpdates(row, k, next);
          transTable[state] := row[k := Trans(input, next)];
          return;
        }
        k := k + 1;
      }
      PutPrepends(row, input, next);
      transTable[state] := [Trans(input, next)] + row;
      numTrans := numTrans + 1;
    }

    // ------------------------------------------------------------------ trie

    // `AddPatternStates`, first loop: walk along existing states.
    method MatchExisting(w: Str) returns (state: nat, n: nat)
      requires IsBuilt()
      ensures state < |paths| && n <= |w| && paths[state] == w[..n]
      ensures n < |w| ==> w[..n + 1] !in paths
    {
      state, n := 0, 0;
      while n < |w|
        invariant n <= |w| && state < |paths| && paths[state] == w[..n]
      {
        assert w[..n + 1] == w[..n] + [w[n]];
        assert IsTrieRow(paths, state, transTable[..][state]);
        var next := GetNextState(state, w[n]);
        if next == FAIL_STATE || next == 0 {
          break;
        }
        state, n := next, n + 1;
      }
    }

    // `AddPatternStates`: adds the missing states of the pattern, one per
    // byte, and its entry to the last one.
    method AddPatternStates(p: Pattern)
      requires IsBuilt()
      requires |paths| + |p.patrn| <= transTable.Length
      modifies transTable, matchList, `numStates, `numTrans, `paths
      ensures IsBuilt() && old(paths) <= paths
      ensures |paths| <= |old(paths)| + |p.patrn|
      ensures p.patrn in paths
      ensures forall u :: u in paths ==> u in old(paths) || u <= p.patrn
      ensures forall s :: 0 <= s < |paths| ==>
                matchList[s] == (if paths[s] == p.patrn then [p] else []) + old(matchList[s])
      ensures forall s :: |paths| <= s < matchList.Length ==> matchList[s] == old(matchList[s])
    {
      var w := p.patrn;
      var state: nat, n: nat := MatchExisting(w);
      ghost var start := n;
      while n < |w|
        invariant start <= n <= |w| && state < |paths| && paths[state] == w[..n]
        invariant n < |w| ==> w[..n + 1] !in paths
        invariant IsBuilt() && old(paths) <= paths && |paths| == |old(paths)| + n - start
        invariant forall u :: u in paths ==> u in old(paths) || u <= w
        invariant forall s :: 0 <= s < matchList.Length ==> matchList[s] == old(matchList[s])
      {
        assert w[..n + 1] == w[..n] + [w[n]];
        state := AddState(state, w[n], w[..n + 1]);
        n := n + 1;
        if n < |w| {
          assert w[..n + 1] == w[..n] + [w[n]];
        }
      }
      assert w[..n] == w;
      matchList[state] := [p] + matchList[state];
    }

    // One round of the second loop of `AddPatternStates`.
    method AddState(state: nat, c: Byte, ghost u: Str) returns (next: nat)
      requires IsBuilt() && state < |paths| < transTable.Length
      requires u == paths[state] + [c] && u !in paths
      modifies transTable, `numStates, `numTrans, `paths
      ensures IsBuilt() && paths == old(paths) + [u] && next == |old(paths)|
      ensures forall d: Byte :: u + [d] !in paths
    {
      assert IsTrieRow(paths, state, transTable[..][state]);
      ghost var T := transTable[..];
      numStates := numStates + 1;
      PutNextState(state, c, numStates);
      TrieGrows(T, paths, state, c, transTable[..]);
      NothingBelow(paths, u);
      paths := paths + [u];
      next := numStates;
    }

    // The trie holds exactly the given patterns and their prefixes.
    ghost predicate TrieProgress(pats: seq<Pattern>)
      reads this, transTable, matchList
    {
      && IsBuilt() && |paths| <= 1 + TotalLength(pats)
      && AllInTrie(paths, pats) && OnlyPrefixes(paths, pats)
      && HasOwnMatches(pats)
      && forall s :: |paths| <= s < matchList.Length ==> matchList[s] == []
    }

    // The loop of `acsmCompile2` over the pattern list.
    method AddAllPatterns(pats: seq<Pattern>)
      requires TrieProgress([]) && TotalLength(pats) + 1 == transTable.Length
      modifies transTable, matchList, `numStates, `numTrans, `paths
      ensures TrieProgress(pats)
    {
      var k := 0;
      while k < |pats|
        invariant k <= |pats| && TrieProgress(pats[..k])
      {
        assert pats[..k + 1] == pats[..k] + [pats[k]];
        TotalLengthPrefix(pats, k + 1);
        AddNextPattern(pats[..k], pats[k]);
        k := k + 1;
      }
      assert pats[..k] == pats;
    }

    method AddNextPattern(ghost some: seq<Pattern>, p: Pattern)
      requires TrieProgress(some) && TotalLength(some + [p]) + 1 <= transTable.Length
      modifies transTable, matchList, `numStates, `numTrans, `paths
      ensures TrieProgress(some + [p])
    {
      ghost var P, M := paths, matchList[..];
      TotalLengthSnoc(some, p);
      AddPatternStates(p);
      OnlyPrefixesGrow(P, some, paths, p);
      OwnMatchesGrow(P, some, M, paths, p, matchList[..]);
    }

    ghost predicate HasOwnMatches(pats: seq<Pattern>)
      reads this, matchList
    {
      OwnMatches(paths, pats, matchList[..])
    }

    // ------------------------------------------------------------------- NFA

    // The inner walk of `Build_NFA` down the failure links of r.
    method FollowFailures(r: nat, i: Byte, ghost pats: seq<Pattern>, ghost done: set<nat>, ghost queue: seq<nat>)
      returns (next: nat)
      requires IsBuilt() && 0 < r < |paths|
      requires Bfs(paths, done, queue, r, i) && NfaProgress(paths, pats, failState[..], matchList[..], done, queue)
      ensures HasFront(paths, r) && next == Delta(paths, FailureOf(paths, r), i)
    {
      assert HasFront(paths, r);
      assert StateProgress(paths, pats, failState[..], matchList[..], done, queue, r);
      var fs := failState[r];
      next := GetNextState(fs, i);
      assert IsTrieRow(paths, fs, transTable[..][fs]);
      while next == FAIL_STATE
        invariant fs < |paths| && |paths[fs]| < |paths[r]|
        invariant Delta(paths, fs, i) == Delta(paths, FailureOf(paths, r), i)
        invariant IsTrieRow(paths, fs, transTable[fs])
        invariant next == if Defined(transTable[fs], i) then Next(transTable[fs], i)
                          else if fs == 0 then 0 else FAIL_STATE
        decreases |paths[fs]|
      {
        ShallowSeen(paths, done, queue, r, i, fs);
        assert HasFront(paths, fs);
        assert fs != 0 ==> StateProgress(paths, pats, failState[..], matchList[..], done, queue, fs);
        DeltaByFailure(paths, fs, i);
        fs := failState[fs];
        next := GetNextState(fs, i);
        assert IsTrieRow(paths, fs, transTable[..][fs]);
      }
      if Defined(transTable[fs], i) {
        DeltaAlongPath(paths, fs, i, next);
      } else {
        assert [] + [i] == [i];
        DeltaAtRoot(paths, i);
      }
    }

    // The copying loop of `Build_NFA`.
    method CopyMatches(next: nat, s: nat)
      requires next < matchList.Length && s < matchList.Length && next != s
      modifies matchList
      ensures matchList[s] == LsList.Reversed(matchList[next]) + old(matchList[s])
      ensures forall k :: 0 <= k < matchList.Length && k != s ==> matchList[k] == old(matchList[k])
    {
      var mlist := matchList[next];
      while mlist != []
        invariant LsList.Reversed(mlist) + matchList[s] == LsList.Reversed(matchList[next]) + old(matchList[s])
        invariant forall k :: 0 <= k < matchList.Length && k != s ==> matchList[k] == old(matchList[k])
      {
        var px := mlist[0];
        matchList[s] := [px] + matchList[s];
        mlist := mlist[1..];
      }
    }

    // One byte of one dequeued state of `Build_NFA`.
    method NfaByte(queue: Queue, r: nat, i: Byte, ghost pats: seq<Pattern>, ghost done: set<nat>)
      requires IsBuilt() && 0 < r < |paths| && AllInTrie(paths, pats)
      requires Bfs(paths, done, queue.items, r, i)
          && NfaProgress(paths, pats, failState[..], matchList[..], done, queue.items)
      modifies queue, failState, matchList
      ensures Bfs(paths, done, queue.items, r, i + 1)
          && NfaProgress(paths, pats, failState[..], matchList[..], done, queue.items)
    {
      assert IsTrieRow(paths, r, transTable[..][r]);
      var s := GetNextState(r, i);
      if s == FAIL_STATE {
        BfsNoChild(paths, done, queue.items, r, i);
      } else {
        BfsChild(paths, done, queue.items, r, i, s);
        ghost var queue0 := queue.items;
        queue.Add(s);
        LinkChild(r, i, s, pats, done, queue0);
      }
    }

    // Sets the failure link and the match list of a newly enqueued child.
    method LinkChild(r: nat, i: Byte, s: nat, ghost pats: seq<Pattern>, ghost done: set<nat>, ghost queue: seq<nat>)
      requires IsBuilt() && 0 < r < |paths| && 0 < s < |paths| && AllInTrie(paths, pats)
      requires Bfs(paths, done, queue, r, i) && NfaProgress(paths, pats, failState[..], matchList[..], done, queue)
      requires paths[s] == paths[r] + [i] && s !in queue && s !in done
      modifies failState, matchList
      ensures NfaProgress(paths, pats, failState[..], matchList[..], done, queue + [s])
    {
      var next := FollowFailures(r, i, pats, done, queue);
      assert HasFront(paths, s);
      FailureOfChild(paths, r, i, s);
      ShallowIsFinished(paths, r, i, next, pats, failState[..], matchList[..], done, queue);
      SetFailure(s, next, pats, done, queue);
    }

    method SetFailure(s: nat, next: nat, ghost pats: seq<Pattern>, ghost done: set<nat>, ghost queue: seq<nat>)
      requires NfaProgress(paths, pats, failState[..], matchList[..], done, queue)
      requires 0 < s < |paths| && AllInTrie(paths, pats) && s !in queue && s !in done
      requires HasFront(paths, s) && next == FailureOf(paths, s) && next != s
      requires matchList[..][next] == MatchesOf(paths, pats, paths[next])
      modifies failState, matchList
      ensures NfaProgress(paths, pats, failState[..], matchList[..], done, queue + [s])
    {
      hide IsPathSet, Longest, MatchesOf, Own, IsLinked, AllInTrie, NonEmpty, StateProgress;
      ghost var F, M := failState[..], matchList[..];
      failState[s] := next;
      CopyMatches(next, s);
      NfaGrows(paths, pats, F, M, done, queue, s, next, failState[..], matchList[..]);
    }

    // One byte of the first loop of `Build_NFA`: states at depth 1 fail to the root.
    method NfaRootByte(queue: Queue, i: Byte, ghost pats: seq<Pattern>)
      requires IsBuilt() && AllInTrie(paths, pats)
      requires Bfs(paths, {0}, queue.items, 0, i)
      requires NfaProgress(paths, pats, failState[..], matchList[..], {0}, queue.items)
      modifies queue, failState
      ensures Bfs(paths, {0}, queue.items, 0, i + 1)
      ensures NfaProgress(paths, pats, failState[..], matchList[..], {0}, queue.items)
    {
      assert IsTrieRow(paths, 0, transTable[..][0]);
      var s := GetNextStateOrRoot(0, i);
      if s == 0 {
        BfsNoChild(paths, {0}, queue.items, 0, i);
      } else {
        BfsChild(paths, {0}, queue.items, 0, i, s);
        ghost var queue0, F := queue.items, failState[..];
        queue.Add(s);
        failState[s] := 0;
        RootChild(paths, pats, s);
        NfaGrows(paths, pats, F, matchList[..], {0}, queue0, s, 0, failState[..], matchList[..]);
      }
    }

    // Dequeues one state and visits its children.
    method NfaDequeue(queue: Queue, ghost r0: nat, ghost pats: seq<Pattern>, ghost done0: set<nat>)
      returns (r: nat, ghost done: set<nat>)
      requires IsBuilt() && AllInTrie(paths, pats) && queue.items != []
      requires Bfs(paths, done0, queue.items, r0, 256)
      requires NfaProgress(paths, pats, failState[..], matchList[..], done0, queue.items)
      modifies queue, failState, matchList
      ensures Bfs(paths, done, queue.items, r, 256)
      ensures NfaProgress(paths, pats, failState[..], matchList[..], done, queue.items)
      ensures done == done0 + {r} && r !in done0 && r in States(paths)
    {
      BfsDequeue(paths, done0, queue.items, r0);
      NfaSameSeen(paths, pats, failState[..], matchList[..], done0, queue.items);
      r := queue.Remove();
      done := done0 + {r};
      for i := 0 to ALPHABET_SIZE
        invariant Bfs(paths, done, queue.items, r, i)
        invariant NfaProgress(paths, pats, failState[..], matchList[..], done, queue.items)
      {
        NfaByte(queue, r, i, pats, done);
      }
    }

    // `Build_NFA`
    method BuildNfa(ghost pats: seq<Pattern>)
      requires TrieProgress(pats) && NonEmpty(pats) && failState.Length == |paths|
      modifies failState, matchList
      ensures IsNfa(paths, pats, failState[..], matchList[..])
      ensures AreCopied(paths, pats, failState[..], matchList[..])
    {
      hide AreCopied;
      var queue := new Queue();
      ghost var done: set<nat>, r: nat := {0}, 0;
      NfaStart(paths, pats, failState[..], matchList[..]);
      BfsStart(paths);
      for i := 0 to ALPHABET_SIZE
        invariant Bfs(paths, done, queue.items, 0, i)
        invariant NfaProgress(paths, pats, failState[..], matchList[..], done, queue.items)
      {
        NfaRootByte(queue, i, pats);
      }
      while queue.items != []
        invariant Bfs(paths, done, queue.items, r, 256)
        invariant NfaProgress(paths, pats, failState[..], matchList[..], done, queue.items)
        decreases States(paths) - done
      {
        r, done := NfaDequeue(queue, r, pats, done);
      }
      NfaEnd(paths, pats, failState[..], matchList[..], done, r);
      NfaCopies(paths, pats, failState[..], matchList[..]);
    }

    // ------------------------------------------------------------------- DFA

    // One byte of the first loop of `Convert_NFA_To_DFA`.
    method DfaRootByte(queue: Queue, i: Byte)
      requires IsBuilt() && Bfs(paths, {0}, queue.items, 0, i)
      modifies queue
      ensures Bfs(paths, {0}, queue.items, 0, i + 1)
    {
      assert IsTrieRow(paths, 0, transTable[..][0]);
      var s := GetNextState(0, i);
      if s == 0 {
        BfsNoChild(paths, {0}, queue.items, 0, i);
      } else {
        BfsChild(paths, {0}, queue.items, 0, i, s);
        queue.Add(s);
      }
    }

    // The first loop of `Convert_NFA_To_DFA`.
    method DfaSeed(queue: Queue)
      requires IsBuilt() && Bfs(paths, {0}, queue.items, 0, 0)
      modifies queue
      ensures Bfs(paths, {0}, queue.items, 0, 256)
    {
      for i := 0 to ALPHABET_SIZE
        invariant Bfs(paths, {0}, queue.items, 0, i)
      {
        DfaRootByte(queue, i);
      }
    }

    ghost predicate HasFailures()
      reads this, failState
    {
      && IsPathSet(paths) && failState.Length == |paths|
      && forall s :: 0 < s < |paths| ==> HasFailure(paths, failState[..], s)
    }

    // One byte of one dequeued state of `Convert_NFA_To_DFA`. Row r is changed
    // while it is traversed; the row of its failure state is already finished.
    method DfaByte(queue: Queue, r: nat, i: Byte, ghost done: set<nat>)
      requires HasFailures() && 0 < r < |paths| <= FAIL_STATE
      requires Bfs(paths, done, queue.items, r, i) && DfaProgress(transTable[..], paths, done, r, i)
      modifies queue, transTable, `numTrans
      ensures Bfs(paths, done, queue.items, r, i + 1) && DfaProgress(transTable[..], paths, done, r, i + 1)
    {
      ghost var T := transTable[..];
      FailureRowIsFinished(queue.items, r, i, done);
      var s := GetNextState(r, i);
      if s != FAIL_STATE && s != 0 {
        BfsChild(paths, done, queue.items, r, i, s);
        queue.Add(s);
      } else {
        BfsNoChild(paths, done, queue.items, r, i);
        CompleteByte(r, i, Delta(paths, r, i));
      }
      assert RowProgress(T, paths, done, r, i, r);
      MixedRowGrows(paths, r, T[r], i, transTable[r]);
      DfaByteDone(T, transTable[..], paths, done, r, i);
    }

    lemma {:induction false} FailureRowIsFinished(queue: seq<nat>, r: nat, i: Byte, done: set<nat>)
      requires HasFailures() && 0 < r < |paths|
      requires Bfs(paths, done, queue, r, i) && DfaProgress(transTable[..], paths, done, r, i)
      ensures UniqueKeys(transTable[r]) && (Defined(transTable[r], i) <==> paths[r] + [i] in paths)
      ensures paths[r] + [i] in paths ==>
                var s := Next(transTable[r], i);
                0 < s < |paths| && paths[s] == paths[r] + [i] && s == Delta(paths, r, i)
      ensures failState[r] < |paths| && failState[r] != r
      ensures paths[r] + [i] !in paths ==> Next(transTable[failState[r]], i) == Delta(paths, r, i)
      ensures Defined(transTable[failState[r]], i) ==> Next(transTable[failState[r]], i) > 0
    {
      assert RowProgress(transTable[..], paths, done, r, i, r);
      assert HasFailure(paths, failState[..], r) && HasFront(paths, r);
      var f := failState[r];
      ShallowSeen(paths, done, queue, r, i, f);
      assert RowProgress(transTable[..], paths, done, r, i, f);
      if paths[r] + [i] !in paths {
        DeltaByFailure(paths, r, i);
      } else {
        DeltaAlongPath(paths, r, i, Next(transTable[r], i));
      }
    }

    // The else branch of `Convert_NFA_To_DFA`.
    method CompleteByte(r: nat, i: Byte, ghost d: nat)
      requires r < failState.Length && r < transTable.Length && failState[r] < transTable.Length
      requires failState[r] != r && UniqueKeys(transTable[r]) && !Defined(transTable[r], i)
      requires d == Next(transTable[failState[r]], i) < FAIL_STATE
      requires Defined(transTable[failState[r]], i) ==> d > 0
      modifies transTable, `numTrans
      ensures forall s :: 0 <= s < transTable.Length && s != r ==> transTable[s] == old(transTable[s])
      ensures transTable[r] == old(transTable[r]) || (d > 0 && IsPut(old(transTable[r]), i, d, transTable[r]))
      ensures Next(transTable[r], i) == d
    {
      var cFailState := GetNextState(failState[r], i);
      if cFailState != 0 && cFailState != FAIL_STATE {
        PutNextState(r, i, cFailState);
      }
    }

    method DfaDequeueState(queue: Queue, ghost r0: nat, ghost done0: set<nat>)
      returns (r: nat, ghost done: set<nat>)
      requires HasFailures() && |paths| <= FAIL_STATE && queue.items != []
      requires Bfs(paths, done0, queue.items, r0, 256) && DfaProgress(transTable[..], paths, done0, r0, 256)
      modifies queue, transTable, `numTrans
      ensures Bfs(paths, done, queue.items, r, 256) && DfaProgress(transTable[..], paths, done, r, 256)
      ensures done == done0 + {r} && r !in done0 && r in States(paths)
    {
      BfsDequeue(paths, done0, queue.items, r0);
      DfaDequeue(transTable[..], paths, done0, r0, queue.items[0]);
      r := queue.Remove();
      done := done0 + {r};
      for i := 0 to ALPHABET_SIZE
        invariant Bfs(paths, done, queue.items, r, i) && DfaProgress(transTable[..], paths, done, r, i)
      {
        DfaByte(queue, r, i, done);
      }
    }

    // `Convert_NFA_To_DFA`
    method ConvertNfaToDfa()
      requires IsBuilt() && HasFailures()
      modifies transTable, `numTrans
      ensures IsDfa(transTable[..], paths)
    {
      var queue := new Queue();
      ghost var done: set<nat>, r: nat := {0}, 0;
      BfsStart(paths);
      DfaStart(transTable[..], paths);
      DfaSeed(queue);
      while queue.items != []
        invariant Bfs(paths, done, queue.items, r, 256) && DfaProgress(transTable[..], paths, done, r, 256)
        decreases States(paths) - done
      {
        r, done := DfaDequeueState(queue, r, done);
      }
      forall s | 0 <= s < |paths| ensures s in done {
        BfsComplete(paths, done, r, s);
      }
      DfaEnd(transTable[..], paths, done, r);
    }

    // The stages of `acsmCompile2` that work on transition lists.
    method BuildAutomaton(pats: seq<Pattern>)
      requires TrieProgress([]) && paths == [[]] && NonEmpty(pats)
      requires TotalLength(pats) + 1 == transTable.Length
      modifies this, transTable, matchList
      ensures transTable == old(transTable) && matchList == old(matchList)
      ensures |paths| == numStates + 1 <= transTable.Length == matchList.Length <= INT_MAX
      ensures IsDfa(transTable[..], paths)
      ensures AllInTrie(paths, pats) && OnlyPrefixes(paths, pats)
      ensures MatchListsEnd(pats) && InOrder(paths, pats, matchList[..])
    {
      hide IsNfa, IsDfa, InOrder, ListsEndings, AreCopied, AllInTrie, OnlyPrefixes, OwnMatches;
      AddAllPatterns(pats);
      failState := new nat[numStates + 1](_ => 0);
      BuildNfa(pats);
      NfaHasFailures(paths, pats, failState[..], matchList[..]);
      NfaListsEnd(paths, pats, failState[..], matchList[..]);
      ConvertNfaToDfa();
    }

    ghost predicate MatchListsEnd(pats: seq<Pattern>)
      reads this, matchList
    {
      ListsEndings(paths, pats, matchList[..])
    }
  }

  lemma {:induction false} NfaHasFailures(P: seq<Str>, pats: seq<Pattern>, F: seq<nat>, M: seq<seq<Pattern>>)
    requires IsNfa(P, pats, F, M)
    ensures forall s :: 0 < s < |P| ==> HasFailure(P, F, s)
  {
    forall s | 0 < s < |P| ensures HasFailure(P, F, s) {
      assert IsNfaState(P, pats, F, M, s);
    }
  }

  lemma {:induction false} NfaListsEnd(P: seq<Str>, pats: seq<Pattern>, F: seq<nat>, M: seq<seq<Pattern>>)
    requires IsNfa(P, pats, F, M) && NonEmpty(pats) && AllInTrie(P, pats)
    ensures ListsEndings(P, pats, M) && InOrder(P, pats, M)
  {
    hide IsNfa, LsList.Reversed, Own, Ending;
    NfaShape(P, pats, F, M);
    forall s | 0 <= s < |P| ensures ListsEnding(P, pats, M, s) && (s > 0 ==> ListInOrder(P, pats, M, s)) {
      NfaList(P, pats, F, M, s);
      MatchesEnd(P, pats, P[s]);
      if s > 0 {
        NfaList(P, pats, F, M, F[s]);
        MatchesStep(P, pats, s);
      }
    }
  }

  // On the finished tables: every list begins with the entries of the failure
  // state, turned round, and ends with those of the state itself.
  ghost predicate AreCopied(P: seq<Str>, pats: seq<Pattern>, F: seq<nat>, M: seq<seq<Pattern>>) {
    && 0 < |P| == |F| <= |M| && M[0] == []
    && forall s :: 0 < s < |P| ==> F[s] < |P| && M[s] == LsList.Reversed(M[F[s]]) + Own(pats, P[s])
  }

  lemma {:induction false} NfaCopies(P: seq<Str>, pats: seq<Pattern>, F: seq<nat>, M: seq<seq<Pattern>>)
    requires IsNfa(P, pats, F, M)
    ensures AreCopied(P, pats, F, M)
  {
    hide IsNfa, LsList.Reversed, Own;
    NfaShape(P, pats, F, M);
    forall s | 0 < s < |P| ensures F[s] < |P| && M[s] == LsList.Reversed(M[F[s]]) + Own(pats, P[s]) {
      NfaList(P, pats, F, M, s);
      NfaList(P, pats, F, M, F[s]);
      MatchesStep(P, pats, s);
    }
  }

  lemma {:induction false} MatchesStep(P: seq<Str>, pats: seq<Pattern>, s: nat)
    requires IsPathSet(P) && s < |P| && P[s] != []
    ensures MatchesOf(P, pats, P[s]) == LsList.Reversed(MatchesOf(P, pats, P[FailureOf(P, s)])) + Own(pats, P[s])
  {}

  lemma {:induction false} NfaShape(P: seq<Str>, pats: seq<Pattern>, F: seq<nat>, M: seq<seq<Pattern>>)
    requires IsNfa(P, pats, F, M)
    ensures IsPathSet(P) && |P| == |F| <= |M| && M[0] == []
  {}

  lemma {:induction false} NfaList(P: seq<Str>, pats: seq<Pattern>, F: seq<nat>, M: seq<seq<Pattern>>, s: nat)
    requires IsNfa(P, pats, F, M) && s < |P|
    ensures IsPathSet(P) && |P| == |F| <= |M| && M[s] == MatchesOf(P, pats, P[s])
    ensures s > 0 ==> P[s] != [] && F[s] == FailureOf(P, s)
  {
    if s > 0 {
      assert HasFront(P, s) && IsNfaState(P, pats, F, M, s);
    }
  }

  ghost predicate HasFailure(P: seq<Str>, F: seq<nat>, s: nat)
    requires IsPathSet(P) && |P| == |F| && 0 < s < |P|
  {
    assert HasFront(P, s);
    F[s] == FailureOf(P, s)
  }

  // State s is finished: its failure link leads to the longest proper suffix in
  // the trie and its match list is complete.
  ghost predicate IsLinked(P: seq<Str>, pats: seq<Pattern>, s: nat, f: nat, m: seq<Pattern>)
    requires IsPathSet(P) && 0 < s < |P|
  {
    assert HasFront(P, s);
    f == FailureOf(P, s) && m == MatchesOf(P, pats, P[s])
  }

  // Enqueued states are finished, the others only have their own entries.
  ghost predicate NfaProgress(P: seq<Str>, pats: seq<Pattern>, F: seq<nat>, M: seq<seq<Pattern>>, done: set<nat>,
        queue: seq<nat>)
  {
    && IsPathSet(P) && |P| == |F| <= |M|
    && M[0] == [] && NonEmpty(pats)
    && (forall s :: 0 < s < |P| ==> StateProgress(P, pats, F, M, done, queue, s))
  }

  ghost predicate StateProgress(P: seq<Str>, pats: seq<Pattern>, F: seq<nat>, M: seq<seq<Pattern>>, done: set<nat>,
        queue: seq<nat>, s: nat)
    requires IsPathSet(P) && |P| == |F| <= |M| && 0 < s < |P|
  {
    if s in done || s in queue then IsLinked(P, pats, s, F[s], M[s])
    else M[s] == Own(pats, P[s])
  }

  // What `Build_NFA` promises.
  ghost predicate IsNfa(P: seq<Str>, pats: seq<Pattern>, F: seq<nat>, M: seq<seq<Pattern>>) {
    && IsPathSet(P) && |P| == |F| <= |M|
    && M[0] == []
    && (forall s :: 0 < s < |P| ==> IsNfaState(P, pats, F, M, s))
  }

  ghost predicate IsNfaState(P: seq<Str>, pats: seq<Pattern>, F: seq<nat>, M: seq<seq<Pattern>>, s: nat)
    requires IsPathSet(P) && |P| == |F| <= |M| && 0 < s < |P|
  {
    IsLinked(P, pats, s, F[s], M[s])
  }

  // All rows are finished.
  ghost predicate IsDfa(T: seq<Row>, P: seq<Str>) {
    && IsPathSet(P) && |P| <= |T|
    && (forall s :: 0 <= s < |P| ==> IsDfaState(T, P, s))
  }

  ghost predicate IsDfaState(T: seq<Row>, P: seq<Str>, s: nat)
    requires IsPathSet(P) && s < |P| <= |T|
  {
    IsDfaRow(P, s, T[s])
  }

  // Rows of dequeued states are finished, the row of r is finished below i, and
  // the other rows still are trie rows.
  ghost predicate DfaProgress(T: seq<Row>, P: seq<Str>, done: set<nat>, r: nat, i: nat) {
    && IsPathSet(P) && |P| <= |T|
    && (forall s :: 0 <= s < |P| ==> RowProgress(T, P, done, r, i, s))
  }

  ghost predicate RowProgress(T: seq<Row>, P: seq<Str>, done: set<nat>, r: nat, i: nat, s: nat)
    requires IsPathSet(P) && s < |P| <= |T|
  {
    if s == r && r != 0 then IsMixedRow(P, s, T[s], i)
    else
      && (s in done ==> IsDfaRow(P, s, T[s]))
      && (s !in done || s == 0 ==> IsTrieRow(P, s, T[s]))
  }

  lemma {:induction false} DfaStart(T: seq<Row>, P: seq<Str>)
    requires IsTrie(T, P)
    ensures DfaProgress(T, P, {0}, 0, 256)
  {
    RootRowIsFinished(P, T[0]);
  }

  lemma {:induction false} DfaDequeue(T: seq<Row>, P: seq<Str>, done: set<nat>, r: nat, r': nat)
    requires DfaProgress(T, P, done, r, 256) && r in done && r' !in done && 0 < r' < |P| && 0 in done
    ensures DfaProgress(T, P, done + {r'}, r', 0)
  {
    forall s | 0 <= s < |P| ensures RowProgress(T, P, done + {r'}, r', 0, s) {
      assert RowProgress(T, P, done, r, 256, s);
      if s == r' {
        TrieRowPositive(P, s, T[s]);
      }
    }
  }

  lemma {:induction false} DfaEnd(T: seq<Row>, P: seq<Str>, done: set<nat>, r: nat)
    requires DfaProgress(T, P, done, r, 256) && forall s :: 0 <= s < |P| ==> s in done
    ensures IsDfa(T, P)
  {
    forall s | 0 <= s < |P| ensures IsDfaState(T, P, s) {
      assert RowProgress(T, P, done, r, 256, s);
    }
  }

  lemma {:induction false} MixedRowGrows(P: seq<Str>, r: nat, row: Row, i: Byte, row': Row)
    requires IsPathSet(P) && r < |P| && IsMixedRow(P, r, row, i)
    requires row' == row || (Delta(P, r, i) > 0 && IsPut(row, i, Delta(P, r, i), row'))
    requires Next(row', i) == Delta(P, r, i)
    ensures IsMixedRow(P, r, row', i + 1)
  {
    forall c: Byte
      ensures c <= i ==> Next(row', c) == Delta(P, r, c)
      ensures i < c ==> Next(row', c) == Next(row, c) && (Defined(row', c) <==> Defined(row, c))
    {}
  }

  // The value for byte i of row r is now right; nothing else has changed.
  lemma {:induction false} DfaByteDone(T: seq<Row>, T': seq<Row>, P: seq<Str>, done: set<nat>, r: nat, i: Byte)
    requires DfaProgress(T, P, done, r, i) && 0 < r < |P| && |T'| == |T| && IsMixedRow(P, r, T'[r], i + 1)
    requires forall s :: 0 <= s < |T| && s != r ==> T'[s] == T[s]
    ensures DfaProgress(T', P, done, r, i + 1)
  {
    var j: nat := i + 1;
    forall s | 0 <= s < |P| ensures RowProgress(T', P, done, r, j, s) {
      assert RowProgress(T, P, done, r, i, s);
    }
  }

  // Breadth-first order: a state no deeper than the one just dequeued is finished,
  // so the list that is copied from a failure state is already final.
  lemma {:induction false} ShallowIsFinished(P: seq<Str>, r: nat, i: nat, t: nat, pats: seq<Pattern>, F: seq<nat>,
        M: seq<seq<Pattern>>, done: set<nat>, queue: seq<nat>)
    requires Bfs(P, done, queue, r, i) && NfaProgress(P, pats, F, M, done, queue)
    requires t < |P| && |P[t]| <= |P[r]|
    ensures M[t] == MatchesOf(P, pats, P[t])
  {
    ShallowSeen(P, done, queue, r, i, t);
    if t != 0 {
      assert StateProgress(P, pats, F, M, done, queue, t);
    }
  }

  lemma {:induction false} NfaStart(P: seq<Str>, pats: seq<Pattern>, F: seq<nat>, M: seq<seq<Pattern>>)
    requires IsPathSet(P) && |P| == |F| && OwnMatches(P, pats, M) && NonEmpty(pats)
    ensures NfaProgress(P, pats, F, M, {0}, [])
  {
    OwnNothing(pats);
    assert OwnMatch(P, pats, M, 0);
    forall s | 0 < s < |P| ensures StateProgress(P, pats, F, M, {0}, [], s) {
      assert OwnMatch(P, pats, M, s);
    }
  }

  lemma {:induction false} RootChild(P: seq<Str>, pats: seq<Pattern>, s: nat)
    requires IsPathSet(P) && NonEmpty(pats) && 0 < s < |P| && |P[s]| == 1
    ensures HasFront(P, s) && FailureOf(P, s) == 0 && MatchesOf(P, pats, P[0]) == []
  {
    assert HasFront(P, s) && P[s][1..] == [];
    assert Longest(P, []) == [];
    StateOfPath(P, 0);
  }

  lemma {:induction false} NfaSameSeen(P: seq<Str>, pats: seq<Pattern>, F: seq<nat>, M: seq<seq<Pattern>>,
        done: set<nat>, queue: seq<nat>)
    requires NfaProgress(P, pats, F, M, done, queue) && queue != []
    ensures NfaProgress(P, pats, F, M, done + {queue[0]}, queue[1..])
  {
    forall s | 0 < s < |P| ensures StateProgress(P, pats, F, M, done + {queue[0]}, queue[1..], s) {
      assert queue == [queue[0]] + queue[1..];
      assert StateProgress(P, pats, F, M, done, queue, s);
    }
  }

  lemma {:induction false} NfaEnd(P: seq<Str>, pats: seq<Pattern>, F: seq<nat>, M: seq<seq<Pattern>>, done: set<nat>,
        r: nat)
    requires Bfs(P, done, [], r, 256) && NfaProgress(P, pats, F, M, done, [])
    ensures IsNfa(P, pats, F, M)
  {
    forall s | 0 < s < |P| ensures IsNfaState(P, pats, F, M, s) {
      BfsComplete(P, done, r, s);
      assert StateProgress(P, pats, F, M, done, [], s);
    }
  }

  // Copying the failure state's entries in front of its own makes a state
  // finished: it has all entries that its string ends with.
  lemma {:induction false} LinkedByCopy(P: seq<Str>, pats: seq<Pattern>, s: nat, next: nat, m0: seq<Pattern>,
        mlist: seq<Pattern>, m: seq<Pattern>)
    requires IsPathSet(P) && AllInTrie(P, pats) && NonEmpty(pats) && 0 < s < |P| && HasFront(P, s)
    requires next == FailureOf(P, s) && mlist == MatchesOf(P, pats, P[next])
    requires m0 == Own(pats, P[s]) && m == LsList.Reversed(mlist) + m0
    ensures IsLinked(P, pats, s, next, m) && multiset(m) == Ending(pats, P[s])
  {
    hide Own, Ending;
    MatchesEnd(P, pats, P[s]);
  }

  lemma {:induction false} NfaGrows(P: seq<Str>, pats: seq<Pattern>, F: seq<nat>, M: seq<seq<Pattern>>, done: set<nat>,
        queue: seq<nat>, s: nat, next: nat, F': seq<nat>, M': seq<seq<Pattern>>)
    requires NfaProgress(P, pats, F, M, done, queue) && AllInTrie(P, pats)
    requires 0 < s < |P| && s !in queue && s !in done && HasFront(P, s)
    requires next == FailureOf(P, s) && M[next] == MatchesOf(P, pats, P[next])
    requires |F'| == |F| && F'[s] == next
    requires |M'| == |M| && M'[s] == LsList.Reversed(M[next]) + M[s]
    requires forall k :: 0 <= k < |F| && k != s ==> F'[k] == F[k]
    requires forall k :: 0 <= k < |M| && k != s ==> M'[k] == M[k]
    ensures NfaProgress(P, pats, F', M', done, queue + [s])
  {
    hide IsPathSet, IsLinked, Own, MatchesOf, FailureOf, AllInTrie, NonEmpty, LsList.Reversed, HasFront;
    var queue' := queue + [s];
    assert StateProgress(P, pats, F, M, done, queue, s);
    LinkedByCopy(P, pats, s, next, M[s], M[next], M'[s]);
    forall t | 0 < t < |P| ensures StateProgress(P, pats, F', M', done, queue', t) {
      assert t in queue' <==> t in queue || t == s;
      assert StateProgress(P, pats, F, M, done, queue, t);
    }
  }

  ghost predicate OwnMatches(P: seq<Str>, pats: seq<Pattern>, M: seq<seq<Pattern>>) {
    |P| <= |M| && forall s :: 0 <= s < |P| ==> OwnMatch(P, pats, M, s)
  }

  ghost predicate OwnMatch(P: seq<Str>, pats: seq<Pattern>, M: seq<seq<Pattern>>, s: nat)
    requires s < |P| <= |M|
  {
    M[s] == Own(pats, P[s])
  }

  ghost predicate OnlyPrefixes(P: seq<Str>, pats: seq<Pattern>) {
    forall s :: 0 <= s < |P| ==> StartsSome(pats, P[s])
  }

  ghost predicate StartsSome(pats: seq<Pattern>, u: Str) {
    u == [] || exists k :: 0 <= k < |pats| && u <= pats[k].patrn
  }

  lemma {:induction false} OnlyPrefixesGrow(P: seq<Str>, pats: seq<Pattern>, P': seq<Str>, p: Pattern)
    requires OnlyPrefixes(P, pats)
    requires forall u :: u in P' ==> u in P || u <= p.patrn
    ensures OnlyPrefixes(P', pats + [p])
  {
    var more := pats + [p];
    forall s | 0 <= s < |P'| ensures StartsSome(more, P'[s]) {
      var u := P'[s];
      if u in P {
        var t :| 0 <= t < |P| && P[t] == u;
        assert StartsSome(pats, P[t]);
        if u != [] {
          var k :| 0 <= k < |pats| && u <= pats[k].patrn;
          assert more[k] == pats[k];
        }
      } else {
        assert more[|pats|] == p;
      }
    }
  }

  lemma {:induction false} OwnMatchesGrow(P: seq<Str>, pats: seq<Pattern>, M: seq<seq<Pattern>>, P': seq<Str>,
        p: Pattern, M': seq<seq<Pattern>>)
    requires OwnMatches(P, pats, M) && P <= P' && |P'| <= |M| == |M'| && IsPathSet(P')
    requires AllInTrie(P, pats)
    requires forall s :: |P| <= s < |M| ==> M[s] == []
    requires forall s :: 0 <= s < |P'| ==> M'[s] == (if P'[s] == p.patrn then [p] else []) + M[s]
    ensures OwnMatches(P', pats + [p], M')
  {
    forall s | 0 <= s < |P'| ensures OwnMatch(P', pats + [p], M', s) {
      OwnSnoc(pats, p, P'[s]);
      if s < |P| {
        assert OwnMatch(P, pats, M, s);
      } else {
        assert P'[s] !in P;
        OwnNone(P, pats, P'[s]);
      }
    }
  }

  lemma {:induction false} OwnNone(P: seq<Str>, pats: seq<Pattern>, u: Str)
    requires AllInTrie(P, pats) && u !in P
    ensures Own(pats, u) == []
  {
    if pats != [] {
      OwnNone(P, Init(pats), u);
    }
  }

  lemma {:induction false} OwnNothing(pats: seq<Pattern>)
    requires NonEmpty(pats)
    ensures Own(pats, []) == []
  {
    if pats != [] {
      OwnNothing(Init(pats));
    }
  }
}
