// Breadth-first order over the trie: what is known when a state leaves the
// queue, whatever the traversal does with it.
module AcBreadthFirst {
  import opened AcTheory

  ghost function ParentOf(P: seq<Str>, s: nat): (t: nat)
    requires IsPathSet(P) && 0 < s < |P|
    ensures t < |P| && P[t] == Front(P[s]) && |P[t]| == |P[s]| - 1
  {
    assert HasFront(P, s);
    StateOf(P, Front(P[s]))
  }

  ghost function LastByte(P: seq<Str>, s: nat): Byte
    requires IsPathSet(P) && 0 < s < |P|
  {
    assert HasFront(P, s);
    P[s][|P[s]| - 1]
  }

  predicate IsState(P: seq<Str>, s: nat) {
    s < |P|
  }

  ghost function States(P: seq<Str>): set<nat> {
    set s: nat | s < |P| && IsState(P, s)
  }

  // `done` are the states that left the queue (the root counts as one), r is
  // the one that left last, and its children by bytes below i have been seen.
  ghost predicate Bfs(P: seq<Str>, done: set<nat>, queue: seq<nat>, r: nat, i: nat) {
    && IsPathSet(P)
    && InQueueOnce(P, done, queue)
    && InDepthOrder(P, done, queue, r)
    && (forall s :: 0 < s < |P| ==> (s in done || s in queue <==> Seen(P, done, r, i, s)))
  }

  // A state is enqueued at most once and never after it was dequeued.
  ghost predicate InQueueOnce(P: seq<Str>, done: set<nat>, queue: seq<nat>) {
    && (forall s :: s in done ==> s < |P|)
    && 0 in done
    && (forall k :: 0 <= k < |queue| ==> 0 < queue[k] < |P| && queue[k] !in done)
    && (forall j, k :: 0 <= j < k < |queue| ==> queue[j] != queue[k])
  }

  ghost predicate InDepthOrder(P: seq<Str>, done: set<nat>, queue: seq<nat>, r: nat)
    requires InQueueOnce(P, done, queue)
  {
    && r in done
    && (forall s :: s in done ==> |P[s]| <= |P[r]|)
    && (forall k :: 0 <= k < |queue| ==> |P[r]| <= |P[queue[k]]| <= |P[r]| + 1)
    && (forall j, k :: 0 <= j < k < |queue| ==> |P[queue[j]]| <= |P[queue[k]]|)
  }

  ghost predicate Seen(P: seq<Str>, done: set<nat>, r: nat, i: nat, s: nat)
    requires IsPathSet(P) && 0 < s < |P|
  {
    var u := ParentOf(P, s);
    u in done && (u == r ==> LastByte(P, s) < i)
  }

  lemma {:induction false} BfsStart(P: seq<Str>)
    requires IsPathSet(P)
    ensures Bfs(P, {0}, [], 0, 0)
  {}

  lemma {:induction false} BfsDequeue(P: seq<Str>, done: set<nat>, queue: seq<nat>, r: nat)
    requires Bfs(P, done, queue, r, 256) && queue != []
    ensures Bfs(P, done + {queue[0]}, queue[1..], queue[0], 0)
  {
    var r', done', queue' := queue[0], done + {queue[0]}, queue[1..];
    assert forall k :: 0 <= k < |queue'| ==> queue'[k] == queue[k + 1];
    forall s | 0 < s < |P| ensures s in done' || s in queue' <==> Seen(P, done', r', 0, s) {
      assert queue == [r'] + queue';
      assert s in queue <==> s == r' || s in queue';
      assert Seen(P, done, r, 256, s) <==> ParentOf(P, s) in done;
    }
  }

  lemma {:induction false} BfsChild(P: seq<Str>, done: set<nat>, queue: seq<nat>, r: nat, i: Byte, s: nat)
    requires Bfs(P, done, queue, r, i) && s < |P| && P[s] == P[r] + [i]
    ensures s > 0 && s !in queue && s !in done
    ensures Bfs(P, done, queue + [s], r, i + 1)
  {
    ChildIsNew(P, done, queue, r, i, s);
    var queue' := queue + [s];
    assert InQueueOnce(P, done, queue') && InDepthOrder(P, done, queue', r);
    forall t | 0 < t < |P| ensures t in done || t in queue' <==> Seen(P, done, r, i + 1, t) {
      SeenNext(P, done, r, i, s, t);
      assert t in queue' <==> t in queue || t == s;
    }
  }

  lemma {:induction false} PathParts(P: seq<Str>, t: nat)
    requires IsPathSet(P) && 0 < t < |P|
    ensures P[t] == P[ParentOf(P, t)] + [LastByte(P, t)]
  {
    assert P[t] == Front(P[t]) + [LastByte(P, t)];
  }

  lemma {:induction false} SeenNext(P: seq<Str>, done: set<nat>, r: nat, i: Byte, s: nat, t: nat)
    requires IsPathSet(P) && r in done && r < |P| && 0 < s < |P| && 0 < t < |P|
    requires ParentOf(P, s) == r && LastByte(P, s) == i
    ensures Seen(P, done, r, i + 1, t) <==> t == s || Seen(P, done, r, i, t)
  {
    if ParentOf(P, t) == r && LastByte(P, t) == i {
      PathParts(P, s);
      PathParts(P, t);
    }
  }

  lemma {:induction false} ChildIsNew(P: seq<Str>, done: set<nat>, queue: seq<nat>, r: nat, i: Byte, s: nat)
    requires Bfs(P, done, queue, r, i) && s < |P| && P[s] == P[r] + [i]
    ensures s > 0 && s !in queue && s !in done && ParentOf(P, s) == r && LastByte(P, s) == i
  {
    assert Front(P[s]) == P[r];
    assert !Seen(P, done, r, i, s);
  }

  lemma {:induction false} BfsNoChild(P: seq<Str>, done: set<nat>, queue: seq<nat>, r: nat, i: Byte)
    requires Bfs(P, done, queue, r, i) && P[r] + [i] !in P
    ensures Bfs(P, done, queue, r, i + 1)
  {
    forall t | 0 < t < |P| ensures Seen(P, done, r, i, t) <==> Seen(P, done, r, i + 1, t) {
      assert P[t] == Front(P[t]) + [LastByte(P, t)];
    }
  }

  // Every state no deeper than the one just dequeued has been enqueued; every
  // strictly shallower one has been dequeued.
  lemma {:induction false} ShallowSeen(P: seq<Str>, done: set<nat>, queue: seq<nat>, r: nat, i: nat, s: nat)
    requires Bfs(P, done, queue, r, i) && s < |P| && |P[s]| <= |P[r]|
    ensures s in done || s in queue
    ensures |P[s]| < |P[r]| ==> s in done
    decreases |P[s]|
  {
    if s != 0 {
      var u := ParentOf(P, s);
      ShallowSeen(P, done, queue, r, i, u);
      assert Seen(P, done, r, i, s);
    }
  }

  // Once the queue is empty nothing was missed.
  lemma {:induction false} BfsComplete(P: seq<Str>, done: set<nat>, r: nat, s: nat)
    requires Bfs(P, done, [], r, 256) && s < |P|
    ensures s in done
    decreases |P[s]|
  {
    if s != 0 {
      BfsComplete(P, done, r, ParentOf(P, s));
      assert Seen(P, done, r, 256, s);
    }
  }
}
