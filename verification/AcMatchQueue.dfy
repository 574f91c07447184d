// The two-phase search: match states are queued during the scan and reported
// when the queue is full or the scan is over.
module AcMatchQueue {
  import opened AcTheory
  import opened AcPatterns
  import opened AcCalls

  const MAX_INQ := 32

  ghost predicate Distinct(s: seq<nat>) {
    forall j, k :: 0 <= j < k < |s| ==> s[j] != s[k]
  }

  ghost function Elements(s: seq<nat>): set<nat> {
    set x | x in s
  }

  // The match states passed at the first k positions of a text.
  ghost function MatchStates(step: Step, M: seq<seq<Pattern>>, s: nat, w: Str, k: nat): set<nat>
    requires k <= |w| + 1
  {
    if k == 0 then {}
    else
      var t := Run(step, s, w[..k - 1]);
      MatchStates(step, M, s, w, k - 1) + if t < |M| && M[t] != [] then {t} else {}
  }

  ghost predicate HasList(M: seq<seq<Pattern>>, s: nat) {
    s < |M| && M[s] != []
  }

  // A queued state is reported through the head of its list, at index 0.
  ghost function HeadOf(M: seq<seq<Pattern>>, s: nat): seq<Call> {
    if HasList(M, s) then [Call(M[s][0], 0)] else []
  }

  ghost function HeadsOf(M: seq<seq<Pattern>>, states: seq<nat>): seq<Call> {
    if states == [] then [] else HeadsOf(M, states[..|states| - 1]) + HeadOf(M, states[|states| - 1])
  }

  lemma {:induction false} HeadsConcat(M: seq<seq<Pattern>>, a: seq<nat>, b: seq<nat>)
    ensures HeadsOf(M, a + b) == HeadsOf(M, a) + HeadsOf(M, b)
  {
    if b == [] {
      assert a + b == a;
    } else {
      var b', t := b[..|b| - 1], b[|b| - 1];
      HeadsConcat(M, a, b');
      assert (a + b)[..|a + b| - 1] == a + b' && (a + b)[|a + b| - 1] == t;
    }
  }

  // The pending matches, each state at most once.
  class MatchQueue {
    var inq: nat
    var q: array<nat>

    // `_init_queue`
    constructor ()
      ensures Valid() && Items() == [] && fresh(q)
    {
      inq := 0;
      q := new nat[MAX_INQ];
    }

    ghost predicate Valid()
      reads this, q
    {
      q.Length == MAX_INQ && inq <= MAX_INQ && Distinct(q[..inq])
    }

    ghost function Items(): seq<nat>
      reads this, q
      requires Valid()
    {
      q[..inq]
    }

    // `_add_queue`: adds a state that is not queued yet, unless the queue is
    // full, and tells whether it is full now. A queued state changes nothing.
    method Add(p: nat) returns (full: bool)
      requires Valid()
      modifies this, q
      ensures Valid() && q == old(q)
      ensures Items() == if p in old(Items()) || |old(Items())| == MAX_INQ then old(Items()) else old(Items()) + [p]
      ensures full <==> p !in old(Items()) && |Items()| == MAX_INQ
    {
      var i := inq - 1;
      while i >= 0
        invariant -1 <= i < inq
        invariant forall k :: i < k < inq ==> q[k] != p
      {
        if q[i] == p { return false; }
        i := i - 1;
      }
      if inq < MAX_INQ {
        q[inq] := p;
        inq := inq + 1;
      }
      return inq == MAX_INQ;
    }

    // `_process_queue`: reports the queued states in order and empties the
    // queue; stops at the first positive answer.
    method Process(matchList: array<seq<Pattern>>, before: seq<Call>, answer: Callback)
      returns (calls: seq<Call>, stop: bool)
      requires Valid() && NotStopped(before, answer)
      requires forall k :: 0 <= k < |Items()| ==> HasList(matchList[..], Items()[k])
      modifies `inq
      ensures Valid() && Items() == []
      ensures CutAtFirstStop(calls, before + HeadsOf(matchList[..], old(Items())), answer)
      ensures stop <==> !NotStopped(calls, answer)
    {
      hide HeadsOf, NotStopped, CutAtFirstStop;
      ghost var items, M := Items(), matchList[..];
      calls := before;
      assert items[..0] == [];
      NoHeads(M, before);
      var i := 0;
      while i < inq
        invariant i <= inq == |items| && items == q[..inq] && q.Length == MAX_INQ
        invariant calls == before + HeadsOf(M, items[..i]) && NotStopped(calls, answer)
      {
        ghost var done := calls;
        assert HasList(M, items[i]);
        calls := calls + [Call(matchList[q[i]][0], 0)];
        OneMoreCall(M, items, i, before, done, calls, answer);
        i := i + 1;
        if answer(calls) > 0 {
          inq := 0;
          StopsHere(M, items, i, before, calls, answer);
          return calls, true;
        }
      }
      assert items[..i] == items;
      WholeIsCut(calls, answer);
      inq := 0;
      return calls, false;
    }
  }

  lemma {:induction false} NoHeads(M: seq<seq<Pattern>>, before: seq<Call>)
    ensures before + HeadsOf(M, []) == before
  {}

  lemma {:induction false} WholeIsCut(calls: seq<Call>, answer: Callback)
    ensures NotStopped(calls, answer) ==> CutAtFirstStop(calls, calls, answer)
  {}

  // One more queued state is reported.
  lemma {:induction false} OneMoreCall(M: seq<seq<Pattern>>, items: seq<nat>, i: nat, before: seq<Call>,
        done: seq<Call>, calls: seq<Call>, answer: Callback)
    requires i < |items| && HasList(M, items[i]) && calls == done + [Call(M[items[i]][0], 0)]
    requires done == before + HeadsOf(M, items[..i]) && NotStopped(done, answer)
    ensures calls == before + HeadsOf(M, items[..i + 1])
    ensures NotStopped(calls[..|calls| - 1], answer) && (NotStopped(calls, answer) <==> answer(calls) <= 0)
  {
    hide HeadsOf, NotStopped;
    assert items[..i + 1] == items[..i] + [items[i]];
    HeadsConcat(M, items[..i], [items[i]]);
    HeadsOfOne(M, items[i]);
    OneMoreAnswer(done, Call(M[items[i]][0], 0), answer);
  }

  lemma {:induction false} OneMoreAnswer(done: seq<Call>, c: Call, answer: Callback)
    requires NotStopped(done, answer)
    ensures (done + [c])[..|done|] == done
    ensures NotStopped(done + [c], answer) <==> answer(done + [c]) <= 0
  {
    var calls := done + [c];
    assert calls[..|calls|] == calls;
    assert forall j :: 0 < j < |calls| ==> calls[..j] == done[..j];
  }

  lemma {:induction false} StopsHere(M: seq<seq<Pattern>>, items: seq<nat>, i: nat, before: seq<Call>, calls: seq<Call>,
        answer: Callback)
    requires i <= |items| && calls == before + HeadsOf(M, items[..i]) && calls != []
    requires answer(calls) > 0 && NotStopped(calls[..|calls| - 1], answer)
    ensures CutAtFirstStop(calls, before + HeadsOf(M, items), answer)
  {
    assert items == items[..i] + items[i..];
    HeadsConcat(M, items[..i], items[i..]);
  }

  lemma {:induction false} HeadsOfOne(M: seq<seq<Pattern>>, s: nat)
    ensures HeadsOf(M, [s]) == HeadOf(M, s)
  {
    assert [s][..0] == [];
  }

  // --------------------------------------------------- what is reported, and when

  // The states that have been reported after k positions, in order, and those
  // that are queued. A state with a list is queued unless it is in the queue
  // already; a full queue is reported.
  datatype Trace = Trace(reported: seq<nat>, pending: seq<nat>)

  ghost function Queued(step: Step, M: seq<seq<Pattern>>, s: nat, w: Str, k: nat): Trace
    requires k <= |w| + 1
  {
    if k == 0 then Trace([], [])
    else
      var q, t := Queued(step, M, s, w, k - 1), Run(step, s, w[..k - 1]);
      if !HasList(M, t) || t in q.pending then q
      else if |q.pending| + 1 == MAX_INQ then Trace(q.reported + (q.pending + [t]), [])
      else Trace(q.reported, q.pending + [t])
  }

  // All states to be reported, in order.
  ghost function Order(step: Step, M: seq<seq<Pattern>>, s: nat, w: Str, k: nat): seq<nat>
    requires k <= |w| + 1
  {
    Queued(step, M, s, w, k).reported + Queued(step, M, s, w, k).pending
  }

  // All calls of the search.
  ghost function QueueCalls(step: Step, M: seq<seq<Pattern>>, s: nat, w: Str): seq<Call> {
    HeadsOf(M, Order(step, M, s, w, |w| + 1))
  }

  lemma {:induction false} OrderGrows(step: Step, M: seq<seq<Pattern>>, s: nat, w: Str, j: nat, k: nat)
    requires j <= k <= |w| + 1
    ensures Order(step, M, s, w, j) <= Order(step, M, s, w, k)
  {
    if j < k {
      OrderGrows(step, M, s, w, j, k - 1);
      var q, t := Queued(step, M, s, w, k - 1), Run(step, s, w[..k - 1]);
      assert q.reported + (q.pending + [t]) == q.reported + q.pending + [t];
      assert q.reported + (q.pending + [t]) + [] == q.reported + q.pending + [t];
    }
  }

  // The queue is never full between two positions, has each state at most once,
  // and with what has been reported it has every match state there was.
  lemma {:induction false} QueuedFacts(step: Step, M: seq<seq<Pattern>>, s: nat, w: Str, k: nat)
    requires k <= |w| + 1
    ensures var q := Queued(step, M, s, w, k); |q.pending| < MAX_INQ && Distinct(q.pending)
    ensures forall t :: t in Order(step, M, s, w, k) ==> HasList(M, t)
    ensures Elements(Order(step, M, s, w, k)) == MatchStates(step, M, s, w, k)
  {
    if k > 0 {
      QueuedFacts(step, M, s, w, k - 1);
      var q, t := Queued(step, M, s, w, k - 1), Run(step, s, w[..k - 1]);
      var o, o' := Order(step, M, s, w, k - 1), Order(step, M, s, w, k);
      if HasList(M, t) && t !in q.pending {
        assert o' == o + [t];
      } else {
        assert o' == o;
        assert HasList(M, t) ==> t in o;
      }
    }
  }

  // States are reported 32 at a time.
  lemma {:induction false} Batches(step: Step, M: seq<seq<Pattern>>, s: nat, w: Str, k: nat)
    requires k <= |w| + 1
    ensures |Queued(step, M, s, w, k).reported| % 32 == 0 && |Queued(step, M, s, w, k).pending| < 32
  {
    hide Run;
    if k > 0 {
      Batches(step, M, s, w, k - 1);
    }
  }

  lemma {:induction false} InBatches(step: Step, M: seq<seq<Pattern>>, s: nat, w: Str, k: nat)
    requires k <= |w| + 1
    ensures var q, o := Queued(step, M, s, w, k), Order(step, M, s, w, k);
            q.reported == o[..|o| / 32 * 32] && q.pending == o[|o| / 32 * 32..]
  {
    hide Queued;
    Batches(step, M, s, w, k);
  }

  // A state is queued unless it has been since the last batch was reported.
  lemma {:induction false} OrderStep(step: Step, M: seq<seq<Pattern>>, s: nat, w: Str, k: nat)
    requires k <= |w|
    ensures var o, t := Order(step, M, s, w, k), Run(step, s, w[..k]);
            Order(step, M, s, w, k + 1) == if HasList(M, t) && t !in o[|o| / 32 * 32..] then o + [t] else o
  {
    hide Run;
    InBatches(step, M, s, w, k);
    var q, t := Queued(step, M, s, w, k), Run(step, s, w[..k]);
    assert q.reported + (q.pending + [t]) == q.reported + q.pending + [t];
    assert q.reported + (q.pending + [t]) + [] == q.reported + (q.pending + [t]);
  }

  // The states of one batch are different from each other.
  lemma {:induction false} BatchesAreDistinct(step: Step, M: seq<seq<Pattern>>, s: nat, w: Str, k: nat)
    requires k <= |w| + 1
    ensures var o := Order(step, M, s, w, k);
            forall i, j :: 0 <= i < j < |o| && i / 32 == j / 32 ==> o[i] != o[j]
  {
    hide Run, Order;
    if k > 0 {
      BatchesAreDistinct(step, M, s, w, k - 1);
      OrderStep(step, M, s, w, k - 1);
      var o, o' := Order(step, M, s, w, k - 1), Order(step, M, s, w, k);
      forall i, j | 0 <= i < j < |o'| && i / 32 == j / 32 ensures o'[i] != o'[j] {
        if j == |o| {
          assert o[i] in o[|o| / 32 * 32..];
        }
      }
    } else {
      NothingInOrder(step, M, s, w);
    }
  }

  lemma {:induction false} NothingInOrder(step: Step, M: seq<seq<Pattern>>, s: nat, w: Str)
    ensures Order(step, M, s, w, 0) == []
  {}

  // A search that was stopped early was stopped for every continuation.
  lemma {:induction false} CutLonger(calls: seq<Call>, all: seq<Call>, more: seq<Call>, answer: Callback)
    requires CutAtFirstStop(calls, all, answer) && !NotStopped(calls, answer) && all <= more
    ensures CutAtFirstStop(calls, more, answer)
  {}

  // What is known after k positions.
  ghost predicate Progress(step: Step, M: seq<seq<Pattern>>, s: nat, w: Str, k: nat, pending: seq<nat>,
        calls: seq<Call>)
    requires k <= |w| + 1
  {
    pending == Queued(step, M, s, w, k).pending && calls == HeadsOf(M, Queued(step, M, s, w, k).reported)
  }

  lemma {:induction false} RunNothing(step: Step, s: nat, w: Str)
    ensures Run(step, s, w[..0]) == s
  {}

  lemma {:induction false} PendingHasLists(step: Step, M: seq<seq<Pattern>>, s: nat, w: Str, k: nat, pending: seq<nat>,
        calls: seq<Call>)
    requires k <= |w| + 1 && Progress(step, M, s, w, k, pending, calls)
    ensures |pending| < MAX_INQ && forall j :: 0 <= j < |pending| ==> HasList(M, pending[j])
  {
    QueuedFacts(step, M, s, w, k);
    forall j | 0 <= j < |pending| ensures HasList(M, pending[j]) {
      assert pending[j] in Order(step, M, s, w, k);
    }
  }

  // Queueing the state of position k, when the queue does not become full.
  lemma {:induction false} ProgressPending(step: Step, M: seq<seq<Pattern>>, s: nat, w: Str, k: nat, pending: seq<nat>,
        calls: seq<Call>, t: nat, pending': seq<nat>)
    requires k <= |w| && Progress(step, M, s, w, k, pending, calls) && t == Run(step, s, w[..k])
    requires pending' == (if HasList(M, t) && t !in pending then pending + [t] else pending) && |pending'| < MAX_INQ
    ensures Progress(step, M, s, w, k + 1, pending', calls)
  {
    hide Run, HeadsOf;
  }

  // Reporting a full queue, to the end or up to a stop.
  lemma {:induction false} ProgressFlush(step: Step, M: seq<seq<Pattern>>, s: nat, w: Str, k: nat, pending: seq<nat>,
        before: seq<Call>, t: nat, calls: seq<Call>, answer: Callback)
    requires k <= |w| && Progress(step, M, s, w, k, pending, before) && t == Run(step, s, w[..k])
    requires HasList(M, t) && t !in pending && |pending| + 1 == MAX_INQ
    requires CutAtFirstStop(calls, before + HeadsOf(M, pending + [t]), answer)
    ensures NotStopped(calls, answer) ==> Progress(step, M, s, w, k + 1, [], calls)
    ensures !NotStopped(calls, answer) ==> CutAtFirstStop(calls, QueueCalls(step, M, s, w), answer)
    ensures |calls| <= |HeadsOf(M, Queued(step, M, s, w, k + 1).reported)|
  {
    hide Run, HeadsOf, CutAtFirstStop, NotStopped;
    var items, q := pending + [t], Queued(step, M, s, w, k);
    HeadsConcat(M, q.reported, items);
    assert Queued(step, M, s, w, k + 1) == Trace(q.reported + items, []);
    CutFacts(calls, before + HeadsOf(M, items), answer);
    if !NotStopped(calls, answer) {
      OrderGrows(step, M, s, w, k + 1, |w| + 1);
      assert Order(step, M, s, w, k + 1) == q.reported + items;
      HeadsGrow(M, q.reported + items, Order(step, M, s, w, |w| + 1));
      CutLonger(calls, before + HeadsOf(M, items), QueueCalls(step, M, s, w), answer);
    }
  }

  lemma {:induction false} CutFacts(calls: seq<Call>, all: seq<Call>, answer: Callback)
    requires CutAtFirstStop(calls, all, answer)
    ensures calls <= all && (NotStopped(calls, answer) ==> calls == all)
  {
    assert calls[..|calls|] == calls;
  }

  lemma {:induction false} HeadsGrow(M: seq<seq<Pattern>>, a: seq<nat>, b: seq<nat>)
    requires a <= b
    ensures HeadsOf(M, a) <= HeadsOf(M, b)
  {
    assert b == a + b[|a|..];
    HeadsConcat(M, a, b[|a|..]);
  }

  // Reporting what is left at the end.
  lemma {:induction false} ProgressEnd(step: Step, M: seq<seq<Pattern>>, s: nat, w: Str, pending: seq<nat>,
        before: seq<Call>, t: nat, items: seq<nat>, calls: seq<Call>, answer: Callback)
    requires Progress(step, M, s, w, |w|, pending, before) && t == Run(step, s, w[..|w|])
    requires items == if HasList(M, t) && t !in pending then pending + [t] else pending
    requires CutAtFirstStop(calls, before + HeadsOf(M, items), answer)
    ensures CutAtFirstStop(calls, QueueCalls(step, M, s, w), answer)
  {
    hide Run, HeadsOf, CutAtFirstStop;
    var q := Queued(step, M, s, w, |w|);
    HeadsConcat(M, q.reported, items);
    assert q.reported + (pending + [t]) + [] == q.reported + (pending + [t]);
    assert Order(step, M, s, w, |w| + 1) == q.reported + items;
  }

  // So many calls have been made when the search is stopped at position e: the
  // state there completes a batch of 32, and the calls end in that batch.
  ghost predicate IsDuring(step: Step, M: seq<seq<Pattern>>, s: nat, w: Str, e: nat, n: nat) {
    e < |w| &&
    var o, o' := Order(step, M, s, w, e), Order(step, M, s, w, e + 1);
    |o'| == |o| + 1 && |o'| % 32 == 0 && |o'| - 32 < n <= |o'|
  }

  // The calls name the heads of the lists of these states, in this order.
  ghost predicate NameHeadsOf(M: seq<seq<Pattern>>, states: seq<nat>, calls: seq<Call>) {
    && |calls| <= |states|
    && forall i :: 0 <= i < |calls| ==> HasList(M, states[i]) && calls[i] == Call(M[states[i]][0], 0)
  }

  lemma {:induction false} HeadsAreNamed(M: seq<seq<Pattern>>, states: seq<nat>)
    requires forall t :: t in states ==> HasList(M, t)
    ensures |HeadsOf(M, states)| == |states| && NameHeadsOf(M, states, HeadsOf(M, states))
  {
    if states != [] {
      var a, t := states[..|states| - 1], states[|states| - 1];
      assert states == a + [t] && HasList(M, t);
      HeadsAreNamed(M, a);
    }
  }

  lemma {:induction false} CallsAreNamed(step: Step, M: seq<seq<Pattern>>, s: nat, w: Str, calls: seq<Call>,
        answer: Callback)
    requires CutAtFirstStop(calls, QueueCalls(step, M, s, w), answer)
    ensures NameHeadsOf(M, Order(step, M, s, w, |w| + 1), calls)
  {
    hide Order, HeadsOf;
    QueuedFacts(step, M, s, w, |w| + 1);
    HeadsAreNamed(M, Order(step, M, s, w, |w| + 1));
  }

  lemma {:induction false} ReportedCalls(step: Step, M: seq<seq<Pattern>>, s: nat, w: Str, k: nat)
    requires k <= |w| + 1
    ensures |HeadsOf(M, Queued(step, M, s, w, k).reported)| == |Order(step, M, s, w, k)| / 32 * 32
  {
    hide HeadsOf, Queued;
    InBatches(step, M, s, w, k);
    QueuedFacts(step, M, s, w, k);
    HeadsAreNamed(M, Queued(step, M, s, w, k).reported);
  }

  lemma {:induction false} StopIsNew(calls: seq<Call>, before: seq<Call>, more: seq<Call>, answer: Callback)
    requires calls <= before + more && NotStopped(before, answer)
    ensures !NotStopped(calls, answer) ==> |calls| > |before|
  {
    if k :| 0 < k <= |calls| && answer(calls[..k]) > 0 {
      assert k <= |before| ==> calls[..k] == before[..k];
    }
  }

  lemma {:induction false} StopIsDuring(step: Step, M: seq<seq<Pattern>>, s: nat, w: Str, k: nat, pending: seq<nat>,
        before: seq<Call>, t: nat, calls: seq<Call>, answer: Callback)
    requires k < |w| && Progress(step, M, s, w, k, pending, before) && NotStopped(before, answer)
        && !NotStopped(calls, answer)
    requires CutAtFirstStop(calls, before + HeadsOf(M, pending + [t]), answer)
    requires |calls| <= |HeadsOf(M, Queued(step, M, s, w, k + 1).reported)|
    ensures IsDuring(step, M, s, w, k, |calls|)
  {
    hide Run, HeadsOf;
    CutFacts(calls, before + HeadsOf(M, pending + [t]), answer);
    StopIsNew(calls, before, HeadsOf(M, pending + [t]), answer);
    ReportedCalls(step, M, s, w, k);
    ReportedCalls(step, M, s, w, k + 1);
    OrderStep(step, M, s, w, k);
  }

  lemma {:induction false} NothingQueued(step: Step, M: seq<seq<Pattern>>, s: nat, w: Str)
    ensures Progress(step, M, s, w, 0, [], [])
  {}

  // Stopped before the end of the text, and not by the last report.
  ghost predicate IsStoppedEarly(step: Step, M: seq<seq<Pattern>>, s: nat, w: Str, calls: seq<Call>, answer: Callback) {
    !NotStopped(calls, answer) && |calls| <= |Order(step, M, s, w, |w|)| / 32 * 32
  }

  lemma {:induction false} DuringIsEarly(step: Step, M: seq<seq<Pattern>>, s: nat, w: Str, e: nat, calls: seq<Call>,
        answer: Callback)
    requires IsDuring(step, M, s, w, e, |calls|) && !NotStopped(calls, answer)
    ensures IsStoppedEarly(step, M, s, w, calls, answer)
  {
    hide Order;
    OrderGrows(step, M, s, w, e + 1, |w|);
  }

  lemma {:induction false} StopIsLate(step: Step, M: seq<seq<Pattern>>, s: nat, w: Str, pending: seq<nat>,
        before: seq<Call>, items: seq<nat>, calls: seq<Call>, answer: Callback)
    requires Progress(step, M, s, w, |w|, pending, before) && NotStopped(before, answer)
    requires CutAtFirstStop(calls, before + HeadsOf(M, items), answer)
    ensures !IsStoppedEarly(step, M, s, w, calls, answer)
  {
    hide Run, HeadsOf;
    CutFacts(calls, before + HeadsOf(M, items), answer);
    StopIsNew(calls, before, HeadsOf(M, items), answer);
    ReportedCalls(step, M, s, w, |w|);
  }

  // ----------------------------------------------- what the calls say about a text

  // Each call is for an entry that occurs, and there is one for each position
  // where anything occurs. The index in the call is 0 throughout.
  ghost predicate AreSomewhere(calls: seq<Call>, pats: seq<Pattern>, w: Str) {
    && (forall c :: c in calls ==> c.index == 0 && OccursSomewhere(pats, w, c.entry))
    && (forall e: nat {:trigger IsReported(calls, pats, w, e)} ::
          e <= |w| && OccurrencesAt(pats, w, e) != multiset{} ==> IsReported(calls, pats, w, e))
  }

  ghost predicate OccursSomewhere(pats: seq<Pattern>, w: Str, p: Pattern) {
    exists e: nat :: e <= |w| && Call(p, e - |p.patrn|) in OccurrencesAt(pats, w, e)
  }

  ghost predicate IsReported(calls: seq<Call>, pats: seq<Pattern>, w: Str, e: nat)
    requires e <= |w|
  {
    exists c :: c in calls && Call(c.entry, e - |c.entry.patrn|) in OccurrencesAt(pats, w, e)
  }

  lemma {:induction false} StateIsPassed(step: Step, M: seq<seq<Pattern>>, s: nat, w: Str, k: nat, t: nat)
    returns (e: nat)
    requires k <= |w| + 1 && t in MatchStates(step, M, s, w, k)
    ensures e < k && t == Run(step, s, w[..e]) && HasList(M, t)
  {
    var u := Run(step, s, w[..k - 1]);
    if HasList(M, u) && t == u {
      e := k - 1;
    } else {
      e := StateIsPassed(step, M, s, w, k - 1, t);
    }
  }

  lemma {:induction false} PassedIsState(step: Step, M: seq<seq<Pattern>>, s: nat, w: Str, k: nat, e: nat)
    requires e < k <= |w| + 1 && HasList(M, Run(step, s, w[..e]))
    ensures Run(step, s, w[..e]) in MatchStates(step, M, s, w, k)
  {
    if e < k - 1 {
      PassedIsState(step, M, s, w, k - 1, e);
    }
  }

  lemma {:induction false} HeadsAre(M: seq<seq<Pattern>>, states: seq<nat>, c: Call)
    ensures c in HeadsOf(M, states) <==> exists t :: t in states && HasList(M, t) && c == Call(M[t][0], 0)
  {
    if states != [] {
      var a, t := states[..|states| - 1], states[|states| - 1];
      assert states == a + [t];
      HeadsAre(M, a, c);
    }
  }

  // The head of the list of the state reached is an entry that occurs there.
  lemma {:induction false} HeadOccurs(P: seq<Str>, step: Step, pats: seq<Pattern>, M: seq<seq<Pattern>>, w: Str, e: nat)
    requires IsStepOf(P, step) && AllInTrie(P, pats) && ListsEndings(P, pats, M) && e <= |w|
    ensures var t := Run(step, 0, w[..e]);
            && (HasList(M, t) <==> OccurrencesAt(pats, w, e) != multiset{})
            && (HasList(M, t) ==> Call(M[t][0], e - |M[t][0].patrn|) in OccurrencesAt(pats, w, e))
  {
    hide IsStepOf, AllInTrie, ListsEndings, Ending, OccurrencesAt, Run;
    ListAtRun(P, step, pats, M, w[..e]);
    HeadIsOccurrence(P, step, pats, M, w, e);
  }

  lemma {:induction false} QueueCallsOccur(P: seq<Str>, step: Step, pats: seq<Pattern>, M: seq<seq<Pattern>>, w: Str)
    requires IsStepOf(P, step) && AllInTrie(P, pats) && ListsEndings(P, pats, M)
    ensures AreSomewhere(QueueCalls(step, M, 0, w), pats, w)
  {
    hide IsStepOf, AllInTrie, ListsEndings, OccurrencesAt, Run, HeadsOf, Order, MatchStates;
    var calls, o := QueueCalls(step, M, 0, w), Order(step, M, 0, w, |w| + 1);
    QueuedFacts(step, M, 0, w, |w| + 1);
    forall c | c in calls ensures c.index == 0 && OccursSomewhere(pats, w, c.entry) {
      HeadsAre(M, o, c);
      var t :| t in o && HasList(M, t) && c == Call(M[t][0], 0);
      assert t in Elements(o);
      var e := StateIsPassed(step, M, 0, w, |w| + 1, t);
      HeadOccurs(P, step, pats, M, w, e);
    }
    forall e: nat | e <= |w| && OccurrencesAt(pats, w, e) != multiset{} ensures IsReported(calls, pats, w, e) {
      HeadOccurs(P, step, pats, M, w, e);
      var t := Run(step, 0, w[..e]);
      PassedIsState(step, M, 0, w, |w| + 1, e);
      assert t in Elements(o);
      HeadsAre(M, o, Call(M[t][0], 0));
    }
  }

  // A call is made exactly for the head of each list that the text comes past.
  lemma {:induction false} QueueCallIs(step: Step, M: seq<seq<Pattern>>, s: nat, w: Str, c: Call)
    ensures c in QueueCalls(step, M, s, w) <==> exists e: nat :: e <= |w| && NamesHeadAt(step, M, s, w, e, c)
  {
    hide Order, Run, MatchStates, HeadsOf;
    var o := Order(step, M, s, w, |w| + 1);
    QueuedFacts(step, M, s, w, |w| + 1);
    HeadsAre(M, o, c);
    if t :| t in o && HasList(M, t) && c == Call(M[t][0], 0) {
      assert t in Elements(o);
      var e := StateIsPassed(step, M, s, w, |w| + 1, t);
      assert NamesHeadAt(step, M, s, w, e, c);
    }
    if e: nat :| e <= |w| && NamesHeadAt(step, M, s, w, e, c) {
      PassedIsState(step, M, s, w, |w| + 1, e);
      assert Run(step, s, w[..e]) in Elements(o);
    }
  }

  ghost predicate NamesHeadAt(step: Step, M: seq<seq<Pattern>>, s: nat, w: Str, e: nat, c: Call)
    requires e <= |w|
  {
    var t := Run(step, s, w[..e]);
    HasList(M, t) && c == Call(M[t][0], 0)
  }

  // A stream in two pieces: what is called for on the whole is called for on one
  // of the pieces, and the other way round.
  lemma {:induction false} QueueSearchInPieces(step: Step, M: seq<seq<Pattern>>, s: nat, a: Str, b: Str, c: Call)
    ensures c in QueueCalls(step, M, s, a + b) <==>
            c in QueueCalls(step, M, s, a) || c in QueueCalls(step, M, Run(step, s, a), b)
  {
    hide Run, QueueCalls;
    var t := Run(step, s, a);
    QueueCallIs(step, M, s, a + b, c);
    QueueCallIs(step, M, s, a, c);
    QueueCallIs(step, M, t, b, c);
    forall e: nat | e <= |a| ensures NamesHeadAt(step, M, s, a + b, e, c) <==> NamesHeadAt(step, M, s, a, e, c) {
      assert (a + b)[..e] == a[..e];
    }
    forall e: nat | e <= |b|
      ensures NamesHeadAt(step, M, s, a + b, |a| + e, c) <==> NamesHeadAt(step, M, t, b, e, c)
    {
      assert (a + b)[..|a| + e] == a + b[..e];
      RunSplit(step, s, a, b[..e]);
    }
    if e: nat :| e <= |a + b| && NamesHeadAt(step, M, s, a + b, e, c) {
      if e <= |a| {
        assert NamesHeadAt(step, M, s, a, e, c);
      } else {
        assert NamesHeadAt(step, M, s, a + b, |a| + (e - |a|), c);
        assert NamesHeadAt(step, M, t, b, e - |a|, c);
      }
    }
    if e: nat :| e <= |a| && NamesHeadAt(step, M, s, a, e, c) {
      assert NamesHeadAt(step, M, s, a + b, e, c);
    }
    if e: nat :| e <= |b| && NamesHeadAt(step, M, t, b, e, c) {
      assert NamesHeadAt(step, M, s, a + b, |a| + e, c);
    }
  }
}
