// The reader-writer lock and the semaphore that are made of one shared word,
// read and then compared and exchanged. Any number of threads, and every order
// of their steps.
module CcLocks {

  type Thread = int

  // Where a thread is: the value it has read last, if any, and what it holds.
  datatype Place =
    | Outside
    | WantsRead(seen: int)
    | TriesRead(seen: int)
    | WantsWrite(seen: int)
    | Reads
    | Writes
    | EndsRead(seen: int)
    | EndsWrite(seen: int)

  datatype Lock = Lock(word: int, at: map<Thread, Place>)

  predicate HoldsRead(p: Place) {
    p.Reads? || p.EndsRead?
  }

  predicate HoldsWrite(p: Place) {
    p.Writes? || p.EndsWrite?
  }

  ghost function Readers(l: Lock): set<Thread> {
    set t | t in l.at && HoldsRead(l.at[t])
  }

  ghost function Writers(l: Lock): set<Thread> {
    set t | t in l.at && HoldsWrite(l.at[t])
  }

  // One step of one thread. A failed comparison reads the word again.
  datatype Step =
    | StartRead | RetryRead | TakeRead
    | StartTryRead | GiveUpRead | TakeTryRead
    | StartWrite | RetryWrite | TakeWrite
    | StartEnd | RetryEnd | TakeEnd

  predicate Enabled(l: Lock, t: Thread, s: Step) {
    t in l.at &&
    var p := l.at[t];
    match s
    case StartRead => p.Outside?
    case RetryRead => p.WantsRead? && (p.seen < 0 || l.word != p.seen)
    case TakeRead => p.WantsRead? && p.seen >= 0 && l.word == p.seen
    case StartTryRead => p.Outside?
    case GiveUpRead => p.TriesRead? && (p.seen < 0 || l.word != p.seen)
    case TakeTryRead => p.TriesRead? && p.seen >= 0 && l.word == p.seen
    case StartWrite => p.Outside?
    case RetryWrite => p.WantsWrite? && (p.seen != 0 || l.word != p.seen)
    case TakeWrite => p.WantsWrite? && p.seen == 0 && l.word == p.seen
    case StartEnd => p.Reads? || p.Writes?
    case RetryEnd => (p.EndsRead? || p.EndsWrite?) && l.word != p.seen
    case TakeEnd => (p.EndsRead? || p.EndsWrite?) && l.word == p.seen
  }

  function Moved(l: Lock, t: Thread, p: Place): Lock {
    l.(at := l.at[t := p])
  }

  function After(l: Lock, t: Thread, s: Step): Lock
    requires Enabled(l, t, s)
  {
    var p, w := l.at[t], l.word;
    match s
    case StartRead => Moved(l, t, WantsRead(w))
    case RetryRead => Moved(l, t, WantsRead(w))
    case TakeRead => Moved(l.(word := p.seen + 1), t, Reads)
    case StartTryRead => Moved(l, t, TriesRead(w))
    case GiveUpRead => Moved(l, t, Outside)
    case TakeTryRead => Moved(l.(word := p.seen + 1), t, Reads)
    case StartWrite => Moved(l, t, WantsWrite(w))
    case RetryWrite => Moved(l, t, WantsWrite(w))
    case TakeWrite => Moved(l.(word := -1), t, Writes)
    case StartEnd => Moved(l, t, if p.Reads? then EndsRead(w) else EndsWrite(w))
    case RetryEnd => Moved(l, t, if p.EndsRead? then EndsRead(w) else EndsWrite(w))
    case TakeEnd => Moved(l.(word := if p.seen < 0 then 0 else p.seen - 1), t, Outside)
  }

  // A writer is alone, and otherwise the word counts the readers.
  ghost predicate IsSafe(l: Lock) {
    && (l.word == -1 ==> |Writers(l)| == 1 && |Readers(l)| == 0)
    && (l.word != -1 ==> |Writers(l)| == 0 && l.word == |Readers(l)|)
  }

  // How the two sets change when one thread moves.
  lemma {:induction false} OneMoves(l: Lock, l': Lock, t: Thread, p: Place)
    requires t in l.at && l'.at == l.at[t := p]
    ensures |Readers(l')| == |Readers(l)| - (if HoldsRead(l.at[t]) then 1 else 0) + (if HoldsRead(p) then 1 else 0)
    ensures |Writers(l')| == |Writers(l)| - (if HoldsWrite(l.at[t]) then 1 else 0) + (if HoldsWrite(p) then 1 else 0)
  {
    Swap(Readers(l), Readers(l'), t);
    Swap(Writers(l), Writers(l'), t);
  }

  lemma {:induction false} Swap(a: set<Thread>, b: set<Thread>, t: Thread)
    requires forall x :: x != t ==> (x in a <==> x in b)
    ensures |b| == |a| - (if t in a then 1 else 0) + (if t in b then 1 else 0)
  {
    Without(a, t);
    Without(b, t);
    forall x ensures x in a - {t} <==> x in b - {t} {
      assert x in a - {t} <==> x in a && x != t;
    }
    Same(a - {t}, b - {t});
  }

  lemma {:induction false} NobodyIn(a: set<Thread>)
    requires forall x :: x !in a
    ensures |a| == 0
  {
    var none: set<Thread> := {};
    forall x ensures x in a <==> x in none {
      assert x !in a;
    }
    Same(a, none);
  }

  lemma {:induction false} Without<X>(a: set<X>, t: X)
    ensures |a| == |a - {t}| + if t in a then 1 else 0
  {
    if t in a {
      assert a == (a - {t}) + {t};
    } else {
      assert a == a - {t};
    }
  }

  lemma {:induction false} Same<X>(a: set<X>, b: set<X>)
    requires forall x :: x in a <==> x in b
    ensures a == b
  {}

  // Every step keeps the lock safe.
  lemma {:induction false} StepIsSafe(l: Lock, t: Thread, s: Step)
    requires IsSafe(l) && Enabled(l, t, s)
    ensures IsSafe(After(l, t, s))
  {
    hide Readers, Writers;
    var l' := After(l, t, s);
    OneMoves(l, l', t, l'.at[t]);
    HolderCounts(l, t);
    HolderCounts(l', t);
  }

  // A thread that holds the lock is counted.
  lemma {:induction false} HolderCounts(l: Lock, t: Thread)
    requires t in l.at
    ensures HoldsRead(l.at[t]) ==> |Readers(l)| > 0
    ensures HoldsWrite(l.at[t]) ==> |Writers(l)| > 0
  {
    Without(Readers(l), t);
    Without(Writers(l), t);
  }

  // The original asserts that an unlocking thread never reads zero.
  lemma {:induction false} UnlockSeesHolder(l: Lock, t: Thread)
    requires IsSafe(l) && t in l.at && (HoldsRead(l.at[t]) || HoldsWrite(l.at[t]))
    ensures l.word != 0 && (HoldsWrite(l.at[t]) <==> l.word == -1)
  {
    hide Readers, Writers;
    HolderCounts(l, t);
  }

  ghost predicate Follows(run: seq<Lock>, i: nat)
    requires i + 1 < |run|
  {
    exists t, s :: Enabled(run[i], t, s) && run[i + 1] == After(run[i], t, s)
  }

  ghost predicate IsRun(run: seq<Lock>) {
    forall i {:trigger Follows(run, i)} :: 0 <= i < |run| - 1 ==> Follows(run, i)
  }

  ghost predicate IsFree(l: Lock) {
    l.word == 0 && forall t :: t in l.at ==> l.at[t].Outside?
  }

  // In every run from a free lock, at every moment: the word is -1 exactly when
  // one thread writes and none reads, and counts the readers otherwise.
  lemma {:induction false} RunIsSafe(run: seq<Lock>, n: nat)
    requires n < |run| && IsRun(run) && IsFree(run[0])
    ensures IsSafe(run[n])
    ensures run[n].word == -1 <==> |Writers(run[n])| == 1 && |Readers(run[n])| == 0
    ensures run[n].word != -1 <==> run[n].word == |Readers(run[n])| && |Writers(run[n])| == 0
  {
    if n == 0 {
      NobodyIn(Readers(run[0]));
      NobodyIn(Writers(run[0]));
    } else {
      RunIsSafe(run, n - 1);
      assert Follows(run, n - 1);
      var t, s :| Enabled(run[n - 1], t, s) && run[n - 1 + 1] == After(run[n - 1], t, s);
      StepIsSafe(run[n - 1], t, s);
    }
  }

  // No two threads write at once, and none reads while one writes.
  lemma {:induction false} RunExcludes(run: seq<Lock>, n: nat, t: Thread, u: Thread)
    requires n < |run| && IsRun(run) && IsFree(run[0])
    requires t in run[n].at && u in run[n].at && t != u && HoldsWrite(run[n].at[t])
    ensures !HoldsWrite(run[n].at[u]) && !HoldsRead(run[n].at[u])
  {
    RunIsSafe(run, n);
    HolderCounts(run[n], t);
    HolderCounts(run[n], u);
    Without(Writers(run[n]), t);
    Without(Writers(run[n]) - {t}, u);
  }

  // --------------------------------------------------- what an operation comes to

  // In the middle of an operation a thread has exactly one step to take.
  lemma {:induction false} OneWayOn(l: Lock, t: Thread)
    requires t in l.at
    ensures l.at[t].WantsRead? ==> (Enabled(l, t, RetryRead) <==> !Enabled(l, t, TakeRead))
    ensures l.at[t].TriesRead? ==> (Enabled(l, t, GiveUpRead) <==> !Enabled(l, t, TakeTryRead))
    ensures l.at[t].WantsWrite? ==> (Enabled(l, t, RetryWrite) <==> !Enabled(l, t, TakeWrite))
    ensures l.at[t].EndsRead? || l.at[t].EndsWrite? ==> (Enabled(l, t, RetryEnd) <==> !Enabled(l, t, TakeEnd))
  {}

  // A thread that has read the word as it is now gets in exactly when it may: to
  // read, when nobody writes, and to write, when nobody reads or writes.
  lemma {:induction false} GetsInWhenFree(l: Lock, t: Thread)
    requires IsSafe(l) && t in l.at
    ensures l.at[t] == WantsRead(l.word) ==> (Enabled(l, t, TakeRead) <==> Writers(l) == {})
    ensures l.at[t] == TriesRead(l.word) ==> (Enabled(l, t, TakeTryRead) <==> Writers(l) == {})
    ensures l.at[t] == TriesRead(l.word) ==> (Enabled(l, t, GiveUpRead) <==> Writers(l) != {})
    ensures l.at[t] == WantsWrite(l.word) ==> (Enabled(l, t, TakeWrite) <==> Readers(l) == {} && Writers(l) == {})
  {
    hide Readers, Writers;
    Emptiness(Readers(l));
    Emptiness(Writers(l));
  }

  lemma {:induction false} Emptiness<X>(a: set<X>)
    ensures |a| == 0 <==> a == {}
  {}

  // The two sets after a thread has moved.
  lemma {:induction false} SetsMove(l: Lock, l': Lock, t: Thread, p: Place)
    requires t in l.at && l'.at == l.at[t := p]
    ensures Readers(l') == Readers(l) - {t} + if HoldsRead(p) then {t} else {}
    ensures Writers(l') == Writers(l) - {t} + if HoldsWrite(p) then {t} else {}
  {
    var r := Readers(l) - {t} + if HoldsRead(p) then {t} else {};
    var w := Writers(l) - {t} + if HoldsWrite(p) then {t} else {};
    forall x ensures (x in Readers(l') <==> x in r) && (x in Writers(l') <==> x in w) {
      if x != t && x in l.at {
        assert l'.at[x] == l.at[x];
      }
    }
    Same(Readers(l'), r);
    Same(Writers(l'), w);
  }

  // `atomic_tryrdlock`, while nobody else moves: the thread reads, or nothing has
  // changed; it is told so by the step that ends the call.
  lemma {:induction false} TryReadAlone(l: Lock, t: Thread)
    requires IsSafe(l) && t in l.at && l.at[t].Outside?
    ensures Enabled(l, t, StartTryRead)
    ensures var l1 := After(l, t, StartTryRead);
            if Writers(l) == {} then
              && Enabled(l1, t, TakeTryRead) && !Enabled(l1, t, GiveUpRead)
              && Readers(After(l1, t, TakeTryRead)) == Readers(l) + {t} && Writers(After(l1, t, TakeTryRead)) == {}
              && After(l1, t, TakeTryRead).word == l.word + 1
            else Enabled(l1, t, GiveUpRead) && !Enabled(l1, t, TakeTryRead) && After(l1, t, GiveUpRead) == l
  {
    hide Readers, Writers, IsSafe;
    var l1 := After(l, t, StartTryRead);
    StepIsSafe(l, t, StartTryRead);
    SetsMove(l, l1, t, l1.at[t]);
    NotHeld(l, t);
    GetsInWhenFree(l1, t);
    if Writers(l) == {} {
      var l2 := After(l1, t, TakeTryRead);
      SetsMove(l1, l2, t, Reads);
    } else {
      assert After(l1, t, GiveUpRead).at == l.at;
    }
  }

  lemma {:induction false} NotHeld(l: Lock, t: Thread)
    requires t in l.at && !HoldsRead(l.at[t]) && !HoldsWrite(l.at[t])
    ensures t !in Readers(l) && t !in Writers(l)
  {}

  // `atomic_rdlock`, from wherever it is, while nobody else moves: if nobody writes,
  // the thread reads, after one more look at the word if the one it knows is old;
  // if somebody writes, it goes on looking.
  lemma {:induction false} ReadAlone(l: Lock, t: Thread)
    requires IsSafe(l) && t in l.at && (l.at[t].Outside? || l.at[t].WantsRead?)
    ensures var l1 := if l.at[t].Outside? then After(l, t, StartRead)
                      else if Enabled(l, t, RetryRead) then After(l, t, RetryRead) else l;
            if Writers(l) == {} then
              && Enabled(l1, t, TakeRead)
              && Readers(After(l1, t, TakeRead)) == Readers(l) + {t} && Writers(After(l1, t, TakeRead)) == {}
            else !Enabled(l1, t, TakeRead) && Enabled(l1, t, RetryRead) && After(l1, t, RetryRead) == l1
  {
    hide Readers, Writers, IsSafe;
    var s := if l.at[t].Outside? then StartRead else RetryRead;
    NotHeld(l, t);
    var l1 := l;
    if Enabled(l, t, s) {
      l1 := After(l, t, s);
      StepIsSafe(l, t, s);
      SetsMove(l, l1, t, l1.at[t]);
    }
    OneWayOn(l, t);
    GetsInWhenFree(l1, t);
    if Writers(l) == {} {
      SetsMove(l1, After(l1, t, TakeRead), t, Reads);
    } else {
      assert After(l1, t, RetryRead).at == l1.at;
    }
  }

  // `atomic_wrlock`, in the same way.
  lemma {:induction false} WriteAlone(l: Lock, t: Thread)
    requires IsSafe(l) && t in l.at && (l.at[t].Outside? || l.at[t].WantsWrite?)
    ensures var l1 := if l.at[t].Outside? then After(l, t, StartWrite)
                      else if Enabled(l, t, RetryWrite) then After(l, t, RetryWrite) else l;
            if Readers(l) == {} && Writers(l) == {} then
              && Enabled(l1, t, TakeWrite)
              && Readers(After(l1, t, TakeWrite)) == {} && Writers(After(l1, t, TakeWrite)) == {t}
            else !Enabled(l1, t, TakeWrite) && Enabled(l1, t, RetryWrite) && After(l1, t, RetryWrite) == l1
  {
    hide Readers, Writers, IsSafe;
    var s := if l.at[t].Outside? then StartWrite else RetryWrite;
    NotHeld(l, t);
    var l1 := l;
    if Enabled(l, t, s) {
      l1 := After(l, t, s);
      StepIsSafe(l, t, s);
      SetsMove(l, l1, t, l1.at[t]);
    }
    OneWayOn(l, t);
    GetsInWhenFree(l1, t);
    if Readers(l) == {} && Writers(l) == {} {
      SetsMove(l1, After(l1, t, TakeWrite), t, Writes);
    } else {
      assert After(l1, t, RetryWrite).at == l1.at;
    }
  }

  // `atomic_rwunlock`, from wherever it is, while nobody else moves: the thread
  // holds nothing any more, and the others hold what they held.
  lemma {:induction false} UnlockAlone(l: Lock, t: Thread)
    requires IsSafe(l) && t in l.at && (HoldsRead(l.at[t]) || HoldsWrite(l.at[t]))
    ensures var l1 := if l.at[t].Reads? || l.at[t].Writes? then After(l, t, StartEnd)
                      else if Enabled(l, t, RetryEnd) then After(l, t, RetryEnd) else l;
            && Enabled(l1, t, TakeEnd)
            && var l2 := After(l1, t, TakeEnd);
               && l2.at[t].Outside? && Readers(l2) == Readers(l) - {t} && Writers(l2) == Writers(l) - {t}
  {
    hide Readers, Writers, IsSafe;
    var s := if l.at[t].Reads? || l.at[t].Writes? then StartEnd else RetryEnd;
    var l1 := l;
    if Enabled(l, t, s) {
      l1 := After(l, t, s);
      StepIsSafe(l, t, s);
      SetsMove(l, l1, t, l1.at[t]);
    }
    SetsMove(l1, After(l1, t, TakeEnd), t, Outside);
    Minus(Readers(l), Readers(l1), t, HoldsRead(l1.at[t]));
    Minus(Writers(l), Writers(l1), t, HoldsWrite(l1.at[t]));
  }

  lemma {:induction false} Minus(a: set<Thread>, b: set<Thread>, t: Thread, holds: bool)
    requires b == a || b == a - {t} + if holds then {t} else {}
    ensures b - {t} == a - {t}
  {}

  // Any number of threads may read at once: whoever comes to a lock without a
  // writer gets in, beside those who are there.
  lemma {:induction false} AllReadAtOnce(l: Lock, ts: seq<Thread>) returns (run: seq<Lock>)
    requires IsFree(l) && (forall t :: t in ts ==> t in l.at)
    requires forall i, j :: 0 <= i < j < |ts| ==> ts[i] != ts[j]
    ensures run != [] && run[0] == l && IsRun(run)
    ensures var l' := run[|run| - 1];
            && l'.at.Keys == l.at.Keys && l'.word == |ts|
            && forall t :: t in l.at ==> l'.at[t] == if t in ts then Reads else Outside
    decreases |ts|
  {
    if ts == [] {
      run := [l];
    } else {
      var rest, t := ts[..|ts| - 1], ts[|ts| - 1];
      assert ts == rest + [t];
      run := AllReadAtOnce(l, rest);
      var l0 := run[|run| - 1];
      var l1 := After(l0, t, StartTryRead);
      var l2 := After(l1, t, TakeTryRead);
      Extended(run, l0, t, StartTryRead);
      Extended(run + [l1], l1, t, TakeTryRead);
      run := run + [l1] + [l2];
    }
  }

  lemma {:induction false} Extended(run: seq<Lock>, l: Lock, t: Thread, s: Step)
    requires IsRun(run) && run != [] && run[|run| - 1] == l && Enabled(l, t, s)
    ensures IsRun(run + [After(l, t, s)])
  {
    var r := run + [After(l, t, s)];
    forall i | 0 <= i < |r| - 1 ensures Follows(r, i) {
      if i < |run| - 1 {
        assert Follows(run, i) && r[i] == run[i] && r[i + 1] == run[i + 1];
      } else {
        assert r[i] == l && Enabled(r[i], t, s) && r[i + 1] == After(r[i], t, s);
      }
    }
  }

  // ----------------------------------------------------------------- semaphore

  datatype Spot = Idle | Waits(seen: int) | Posts(seen: int)

  // Who has come back from how many waits without a post of its own, and how many
  // posts had no such wait before them, is kept for the proofs only.
  datatype Sem = Sem(word: int, at: map<Thread, Spot>, inside: multiset<Thread>, extra: nat)

  datatype SemStep = StartWait | RetryWait | TakeWait | StartPost | RetryPost | TakePost

  predicate SemEnabled(m: Sem, t: Thread, s: SemStep) {
    t in m.at &&
    var p := m.at[t];
    match s
    case StartWait => p.Idle?
    case RetryWait => p.Waits? && (p.seen == 0 || m.word != p.seen)
    case TakeWait => p.Waits? && p.seen != 0 && m.word == p.seen
    case StartPost => p.Idle?
    case RetryPost => p.Posts? && m.word != p.seen
    case TakePost => p.Posts? && m.word == p.seen
  }

  function SemAfter(m: Sem, t: Thread, s: SemStep): Sem
    requires SemEnabled(m, t, s)
  {
    var p, w := m.at[t], m.word;
    match s
    case StartWait => m.(at := m.at[t := Waits(w)])
    case RetryWait => m.(at := m.at[t := Waits(w)])
    case TakeWait => m.(word := p.seen - 1, at := m.at[t := Idle], inside := m.inside + multiset{t})
    case StartPost => m.(at := m.at[t := Posts(w)])
    case RetryPost => m.(at := m.at[t := Posts(w)])
    case TakePost =>
      var m' := m.(word := p.seen + 1, at := m.at[t := Idle]);
      if t in m.inside then m'.(inside := m.inside - multiset{t}) else m'.(extra := m.extra + 1)
  }

  // What is left and what is held add up to the initial count and the extra
  // posts, and the word is never negative, as the original asserts.
  ghost predicate SemSafe(m: Sem, count: nat) {
    m.word >= 0 && m.word + |m.inside| == count + m.extra
  }

  lemma {:induction false} SemStepIsSafe(m: Sem, t: Thread, s: SemStep, count: nat)
    requires SemSafe(m, count) && SemEnabled(m, t, s)
    ensures SemSafe(SemAfter(m, t, s), count)
  {
    if t in m.inside {
      assert m.inside == (m.inside - multiset{t}) + multiset{t};
    }
  }

  // A thread in the middle has exactly one step to take; one that has read the word
  // as it is now comes back from its wait exactly when the word is not zero.
  lemma {:induction false} SemGoesOn(m: Sem, t: Thread, count: nat)
    requires SemSafe(m, count) && t in m.at
    ensures m.at[t].Waits? ==> (SemEnabled(m, t, RetryWait) <==> !SemEnabled(m, t, TakeWait))
    ensures m.at[t].Posts? ==> (SemEnabled(m, t, RetryPost) <==> !SemEnabled(m, t, TakePost))
    ensures m.at[t] == Waits(m.word) ==> (SemEnabled(m, t, TakeWait) <==> m.word != 0)
    ensures m.at[t] == Waits(m.word) ==> (SemEnabled(m, t, TakeWait) <==> |m.inside| < count + m.extra)
    ensures m.at[t] == Posts(m.word) ==> SemEnabled(m, t, TakePost)
  {}

  // `atomic_sem_wait`, from wherever it is, while nobody else moves.
  lemma {:induction false} WaitAlone(m: Sem, t: Thread)
    requires t in m.at && !m.at[t].Posts?
    ensures var m1 := if m.at[t].Idle? then SemAfter(m, t, StartWait)
                      else if SemEnabled(m, t, RetryWait) then SemAfter(m, t, RetryWait) else m;
            if m.word != 0 then
              && SemEnabled(m1, t, TakeWait)
              && SemAfter(m1, t, TakeWait)
                 == m.(word := m.word - 1, at := m.at[t := Idle], inside := m.inside + multiset{t})
            else !SemEnabled(m1, t, TakeWait) && SemEnabled(m1, t, RetryWait) && SemAfter(m1, t, RetryWait) == m1
  {
    var m1 := if m.at[t].Idle? then SemAfter(m, t, StartWait)
              else if SemEnabled(m, t, RetryWait) then SemAfter(m, t, RetryWait) else m;
    assert m1.at[t := Idle] == m.at[t := Idle] && m1.at[t := Waits(m.word)] == m1.at;
  }

  // `atomic_sem_post`, in the same way: it always succeeds.
  lemma {:induction false} PostAlone(m: Sem, t: Thread)
    requires t in m.at && !m.at[t].Waits?
    ensures var m1 := if m.at[t].Idle? then SemAfter(m, t, StartPost)
                      else if SemEnabled(m, t, RetryPost) then SemAfter(m, t, RetryPost) else m;
            && SemEnabled(m1, t, TakePost)
            && var m2 := SemAfter(m1, t, TakePost);
               && m2.word == m.word + 1 && m2.at == m.at[t := Idle] && m2.inside == m.inside - multiset{t}
               && m2.extra == if t in m.inside then m.extra else m.extra + 1
  {
    var m1 := if m.at[t].Idle? then SemAfter(m, t, StartPost)
              else if SemEnabled(m, t, RetryPost) then SemAfter(m, t, RetryPost) else m;
    assert m1.at[t := Idle] == m.at[t := Idle];
  }

  ghost predicate SemFollows(run: seq<Sem>, i: nat)
    requires i + 1 < |run|
  {
    exists t, s :: SemEnabled(run[i], t, s) && run[i + 1] == SemAfter(run[i], t, s)
  }

  ghost predicate IsSemRun(run: seq<Sem>) {
    forall i {:trigger SemFollows(run, i)} :: 0 <= i < |run| - 1 ==> SemFollows(run, i)
  }

  ghost predicate IsNewSem(m: Sem, count: nat) {
    m.word == count && m.inside == multiset{} && m.extra == 0 && forall t :: t in m.at ==> m.at[t].Idle?
  }

  // In every run, no more are inside than the semaphore was made for, as long as
  // everybody posts only what it has waited for; and the word says how many more
  // may come in.
  lemma {:induction false} SemRunIsSafe(run: seq<Sem>, n: nat, count: nat)
    requires n < |run| && IsSemRun(run) && IsNewSem(run[0], count)
    ensures SemSafe(run[n], count) && (run[n].extra == 0 ==> |run[n].inside| <= count)
    ensures run[n].word == 0 <==> |run[n].inside| == count + run[n].extra
  {
    if n > 0 {
      SemRunIsSafe(run, n - 1, count);
      assert SemFollows(run, n - 1);
      var t, s :| SemEnabled(run[n - 1], t, s) && run[n - 1 + 1] == SemAfter(run[n - 1], t, s);
      SemStepIsSafe(run[n - 1], t, s, count);
    }
  }
}
