// The lock-free queue, with any number of producers and one consumer. A producer
// pushes a node at the head and then counts it. The consumer has two ways to
// remove. One by one: it counts one off, takes over everything at the head when it
// has run out, turns it round, and gives away the first node. By count: it takes
// over in the same way, gives away as many nodes as it was asked for, and counts
// them off afterwards.
module CcQueue {
  import opened CcExchange
  import CcLocks
  import LsList

  // A producer, by what it has done: nothing; read the head, before and after
  // writing it into its node; pushed the node without having counted it yet.
  datatype Producer = Resting | Saw(node: Node, seen: Link) | Linked(node: Node, seen: Link) | Pushed

  // The consumer: nothing; seen a count that is not zero; counted one off; taken
  // over a list that is the wrong way round; ready to give away a node. By count:
  // asked for so many nodes, with the same stages; given some that are still to be
  // counted off.
  datatype Consumer =
    | Waiting | Counted | Charged | Reversing | Ready
    | Asked(want: int) | Turning(want: int) | Giving(want: int) | Owing(given: nat)

  // The lists at the head and at the tail, the nodes outside of the queue, and
  // the orders of insertion and removal are kept for the proofs only.
  datatype Queue = Queue(
    head: Link, tail: Link, count: int, next: map<Node, Link>, producers: map<Thread, Producer>, consumer: Consumer,
    front: seq<Node>, back: seq<Node>, free: set<Node>, entered: seq<Node>, left: seq<Node>)

  // What the queue stands for, oldest first.
  ghost function Content(q: Queue): seq<Node> {
    (if IsTurning(q) then LsList.Reversed(q.front) else q.front) + LsList.Reversed(q.back)
  }

  // The list at the tail is still the wrong way round.
  predicate IsTurning(q: Queue) {
    q.consumer.Reversing? || q.consumer.Turning?
  }

  // The node that a producer works on.
  function NodeOf(p: Producer): Link {
    match p
    case Saw(x, _) => To(x)
    case Linked(x, _) => To(x)
    case _ => Null
  }

  ghost function Uncounted(q: Queue): set<Thread> {
    set t | t in q.producers && q.producers[t].Pushed?
  }

  ghost predicate ProducerOk(q: Queue, t: Thread) {
    t in q.producers &&
    var p := q.producers[t];
    && (NodeOf(p) != Null ==>
          && NodeOf(p).node in q.next && NodeOf(p).node !in q.front && NodeOf(p).node !in q.back
          && NodeOf(p).node !in q.free)
    && (p.Linked? ==> q.next[p.node] == p.seen)
  }

  ghost predicate NotBoth(q: Queue, t: Thread, u: Thread) {
    t in q.producers && u in q.producers
        && (NodeOf(q.producers[t]) != Null ==> NodeOf(q.producers[t]) != NodeOf(q.producers[u]))
  }

  // Both lists are proper, and no node is in two places.
  ghost predicate ListsOk(q: Queue) {
    && IsChain(q.next, q.head, q.back) && IsChain(q.next, q.tail, q.front) && AreDistinct(q.front + q.back)
    && (forall x :: x in q.free ==> x in q.next && x !in q.front && x !in q.back)
  }

  ghost predicate ThreadsOk(q: Queue) {
    && (forall t {:trigger ProducerOk(q, t)} :: t in q.producers ==> ProducerOk(q, t))
    && (forall t, u {:trigger NotBoth(q, t, u)} :: t in q.producers && u in q.producers && t != u ==> NotBoth(q, t, u))
  }

  // The count, with the nodes pushed but not counted yet and the one counted off
  // but not given away yet, is the number of nodes, with those given away but not
  // counted off yet.
  ghost predicate IsBalanced(q: Queue) {
    q.count + |Uncounted(q)| + (if q.consumer in {Charged, Reversing, Ready} then 1 else 0)
    == |q.front| + |q.back| + if q.consumer.Owing? then q.consumer.given else 0
  }

  // What holds whichever way the consumer removes.
  ghost predicate IsProper(q: Queue) {
    ListsOk(q) && ThreadsOk(q) && IsBalanced(q) && q.entered == q.left + Content(q)
  }

  // What holds as well if it always removes one by one: there is a node for each
  // one that has been counted off.
  ghost predicate IsOneByOne(q: Queue) {
    && q.consumer in {Waiting, Counted, Charged, Reversing, Ready}
    && q.count >= (if q.consumer == Counted then 1 else 0)
    && ((q.consumer == Reversing || q.consumer == Ready) ==> q.front != [])
  }

  ghost predicate IsSound(q: Queue) {
    IsProper(q) && IsOneByOne(q)
  }

  // ----------------------------------------------------------------------- steps

  datatype Step =
    | Take(x: Node) | LinkNode | PushNode | RetryNode | CountUp
    | CheckCount | CountDown | LookTail | TurnRound | GiveAway
    | Ask(want: int) | GetTail | TurnTail | GiveSome | CountOff

  ghost predicate Enabled(q: Queue, t: Thread, s: Step) {
    match s
    case Take(x) => t in q.producers && q.producers[t].Resting? && x in q.free
    case LinkNode => t in q.producers && q.producers[t].Saw?
    case PushNode => t in q.producers && q.producers[t].Linked? && q.head == q.producers[t].seen
    case RetryNode => t in q.producers && q.producers[t].Linked? && q.head != q.producers[t].seen
    case CountUp => t in q.producers && q.producers[t].Pushed?
    case CheckCount => q.consumer.Waiting?
    case CountDown => q.consumer.Counted?
    case LookTail => q.consumer.Charged?
    case TurnRound => q.consumer.Reversing?
    case GiveAway => q.consumer.Ready? && q.front != [] && q.front[0] in q.next
    case Ask(_) => q.consumer.Waiting?
    case GetTail => q.consumer.Asked?
    case TurnTail => q.consumer.Turning?
    case GiveSome => q.consumer.Giving? && forall x :: x in q.front ==> x in q.next
    case CountOff => q.consumer.Owing?
  }

  // How many nodes are given away by count: at least one, if there is one.
  function Share(want: int, n: nat): (k: nat)
    ensures k <= n
  {
    if n == 0 then 0 else if want <= 1 then 1 else if want < n then want else n
  }

  function Doing(q: Queue, t: Thread, p: Producer): Queue {
    q.(producers := q.producers[t := p])
  }

  // The links of a list that has been turned round in place.
  function TurnedLinks(next: map<Node, Link>, s: seq<Node>, before: Link): map<Node, Link>
    decreases |s|
  {
    if s == [] then next else TurnedLinks(next[s[0] := before], s[1..], To(s[0]))
  }

  // What is at the head goes to the tail, in one exchange.
  function TakenOver(q: Queue, c: Consumer): Queue {
    q.(head := Null, tail := q.head, front := q.back, back := [], consumer := c)
  }

  ghost function Turned(q: Queue, c: Consumer): Queue {
    q.(next := TurnedLinks(q.next, q.front, Null),
       tail := (if q.front == [] then Null else To(q.front[|q.front| - 1])),
       front := LsList.Reversed(q.front), consumer := c)
  }

  ghost function After(q: Queue, t: Thread, s: Step): Queue
    requires Enabled(q, t, s)
  {
    match s
    case Take(x) => Doing(q, t, Saw(x, q.head)).(free := q.free - {x})
    case LinkNode =>
      var p := q.producers[t];
      Doing(q, t, Linked(p.node, p.seen)).(next := q.next[p.node := p.seen])
    case PushNode =>
      var x := q.producers[t].node;
      Doing(q, t, Pushed).(head := To(x), back := [x] + q.back, entered := q.entered + [x])
    case RetryNode => Doing(q, t, Saw(q.producers[t].node, q.head))
    case CountUp => Doing(q, t, Resting).(count := q.count + 1)
    case CheckCount => if q.count == 0 then q else q.(consumer := Counted)
    case CountDown => q.(count := q.count - 1, consumer := Charged)
    case LookTail =>
      if q.tail == Null then TakenOver(q, Reversing) else q.(consumer := Ready)
    case TurnRound => Turned(q, Ready)
    case GiveAway =>
      var x := q.front[0];
      q.(tail := q.next[x], next := q.next[x := Null], front := q.front[1..], free := q.free + {x},
          left := q.left + [x], consumer := Waiting)
    case Ask(want) => if q.count == 0 then q else q.(consumer := Asked(want))
    case GetTail =>
      var n := q.consumer.want;
      if q.tail == Null then TakenOver(q, Turning(n)) else q.(consumer := Giving(n))
    case TurnTail => Turned(q, Giving(q.consumer.want))
    case GiveSome =>
      var k := Share(q.consumer.want, |q.front|);
      if k == 0 then q.(consumer := Owing(0))
      else
        var last := q.front[k - 1];
        q.(tail := q.next[last], next := q.next[last := Null], front := q.front[k..],
            free := q.free + (set x | x in q.front[..k]), left := q.left + q.front[..k], consumer := Owing(k))
    case CountOff => q.(count := q.count - q.consumer.given, consumer := Waiting)
  }

  // ------------------------------------------------------------- turning a list round

  lemma {:induction false} ReversedSnoc(s: seq<Node>, x: Node)
    ensures LsList.Reversed([x] + s) == LsList.Reversed(s) + [x]
  {
    assert ([x] + s)[1..] == s;
  }

  lemma {:induction false} ReversedFacts(s: seq<Node>)
    ensures |LsList.Reversed(s)| == |s| && forall x :: x in LsList.Reversed(s) <==> x in s
    ensures AreDistinct(s) ==> AreDistinct(LsList.Reversed(s))
    ensures s != [] ==> LsList.Reversed(s)[0] == s[|s| - 1]
  {
    if s != [] {
      ReversedFacts(s[1..]);
      assert s == [s[0]] + s[1..];
      if AreDistinct(s) {
        assert AreDistinct(s[1..]) && s[0] !in s[1..];
        var r := LsList.Reversed(s[1..]);
        forall i | 0 <= i < |r| ensures r[i] != s[0] { assert r[i] in r; }
      }
    }
  }

  lemma {:induction false} TurnedFrame(next: map<Node, Link>, s: seq<Node>, before: Link, x: Node)
    requires x !in s
    ensures x in TurnedLinks(next, s, before) <==> x in next
    ensures x in next ==> TurnedLinks(next, s, before)[x] == next[x]
    decreases |s|
  {
    if s != [] {
      assert s[0] in s;
      assert forall y :: y in s[1..] ==> y in s;
      TurnedFrame(next[s[0] := before], s[1..], To(s[0]), x);
    }
  }

  lemma {:induction false} DistinctRest(s: seq<Node>)
    requires AreDistinct(s) && s != []
    ensures s == [s[0]] + s[1..] && s[0] !in s[1..] && AreDistinct(s[1..])
  {}

  // What has been turned so far comes after what is still to be turned.
  lemma {:induction false} TurnedIsChain(next: map<Node, Link>, s: seq<Node>, before: Link, done: seq<Node>)
    requires AreDistinct(s) && (forall x :: x in s ==> x !in done) && IsChain(next, before, done)
    ensures IsChain(TurnedLinks(next, s, before), if s == [] then before else To(s[|s| - 1]), LsList.Reversed(s) + done)
    decreases |s|
  {
    hide AreDistinct;
    if s == [] {
      assert LsList.Reversed(s) + done == done;
    } else {
      var x, r, next1 := s[0], s[1..], next[s[0] := before];
      DistinctRest(s);
      ChainFrame(next, next1, before, done);
      assert ([x] + done)[1..] == done;
      TurnedIsChain(next1, r, To(x), [x] + done);
      assert LsList.Reversed(s) + done == LsList.Reversed(r) + ([x] + done);
    }
  }

  lemma {:induction false} SameLinks(next: map<Node, Link>, from: Link, next': map<Node, Link>, from': Link,
        s: seq<Node>, x: Node)
    requires IsChain(next, from, s) && IsChain(next', from', s) && x in s
    ensures x in next && x in next' && next'[x] == next[x]
    decreases |s|
  {
    var r := s[1..];
    assert r != [] ==> next[s[0]] == To(r[0]) && next'[s[0]] == To(r[0]);
    if x != s[0] {
      assert x in r;
      SameLinks(next, next[s[0]], next', next'[s[0]], r, x);
    }
  }

  // A list that is turned round in place twice has all its links back.
  lemma {:induction false} TurnedTwice(next: map<Node, Link>, from: Link, s: seq<Node>, x: Node)
    requires IsChain(next, from, s) && AreDistinct(s) && x in next
    ensures var next2 := TurnedLinks(TurnedLinks(next, s, Null), LsList.Reversed(s), Null);
            x in next2 && next2[x] == next[x]
  {
    hide AreDistinct;
    var r := LsList.Reversed(s);
    var next1 := TurnedLinks(next, s, Null);
    ReversedFacts(s);
    if x in s {
      TurnedIsChain(next1, r, Null, []);
      LsList.ReversedTwice(s);
      assert LsList.Reversed(r) + [] == s;
      SameLinks(next, from, TurnedLinks(next1, r, Null), if r == [] then Null else To(r[|r| - 1]), s, x);
    } else {
      TurnedFrame(next, s, Null, x);
      TurnedFrame(next1, r, Null, x);
    }
  }

  // ------------------------------------------------------- every step keeps it sound

  lemma {:induction false} ProducerIs(q: Queue, t: Thread)
    requires IsProper(q) && t in q.producers
    ensures ProducerOk(q, t)
  {}

  lemma {:induction false} NotBothIs(q: Queue, t: Thread, u: Thread)
    requires IsProper(q) && t in q.producers && u in q.producers && t != u
    ensures NotBoth(q, t, u)
  {
    assert NotBoth(q, t, u);
  }

  lemma {:induction false} UncountedMoves(q: Queue, q': Queue, t: Thread)
    requires t in q.producers && t in q'.producers && (forall u :: u != t ==> (u in q'.producers <==> u in q.producers))
    requires forall u :: u != t && u in q.producers && u in q'.producers ==> q'.producers[u] == q.producers[u]
    ensures |Uncounted(q')| == |Uncounted(q)| - (if q.producers[t].Pushed? then 1 else 0)
        + (if q'.producers[t].Pushed? then 1 else 0)
  {
    CcLocks.Swap(Uncounted(q), Uncounted(q'), t);
  }

  // A producer's own step changes at most the link of its node, and takes nodes
  // out of nowhere but the free ones.
  lemma {:induction false} TakeIsProper(q: Queue, t: Thread, x: Node)
    requires IsProper(q) && Enabled(q, t, Take(x))
    ensures IsProper(After(q, t, Take(x)))
  {
    hide IsChain, AreDistinct;
    var q' := After(q, t, Take(x));
    UncountedMoves(q, q', t);
    forall u | u in q'.producers ensures ProducerOk(q', u) { ProducerIs(q, u); }
    forall u, v | u in q'.producers && v in q'.producers && u != v ensures NotBoth(q', u, v) {
      NotBothIs(q, u, v);
      ProducerIs(q, u);
      ProducerIs(q, v);
    }
  }

  lemma {:induction false} LinkNodeIsProper(q: Queue, t: Thread)
    requires IsProper(q) && Enabled(q, t, LinkNode)
    ensures IsProper(After(q, t, LinkNode))
  {
    hide AreDistinct;
    var q' := After(q, t, LinkNode);
    ProducerIs(q, t);
    ChainFrame(q.next, q'.next, q.head, q.back);
    ChainFrame(q.next, q'.next, q.tail, q.front);
    UncountedMoves(q, q', t);
    forall u | u in q'.producers ensures ProducerOk(q', u) {
      ProducerIs(q, u);
      if u != t { NotBothIs(q, t, u); }
    }
    forall u, v | u in q'.producers && v in q'.producers && u != v ensures NotBoth(q', u, v) { NotBothIs(q, u, v); }
  }

  lemma {:induction false} PushNodeIsProper(q: Queue, t: Thread)
    requires IsProper(q) && Enabled(q, t, PushNode)
    ensures IsProper(After(q, t, PushNode))
  {
    var q', x := After(q, t, PushNode), q.producers[t].node;
    ProducerIs(q, t);
    assert q'.back[1..] == q.back;
    UncountedMoves(q, q', t);
    forall u | u in q'.producers ensures ProducerOk(q', u) {
      ProducerIs(q, u);
      if u != t { NotBothIs(q, t, u); }
    }
    forall u, v | u in q'.producers && v in q'.producers && u != v ensures NotBoth(q', u, v) { NotBothIs(q, u, v); }
    OneMoreDistinct(q.front, q.back, x);
    ReversedSnoc(q.back, x);
    var f := if IsTurning(q) then LsList.Reversed(q.front) else q.front;
    assert Content(q') == f + (LsList.Reversed(q.back) + [x]) == Content(q) + [x];
  }

  lemma {:induction false} OneMoreDistinct(f: seq<Node>, b: seq<Node>, x: Node)
    requires AreDistinct(f + b) && x !in f && x !in b
    ensures AreDistinct(f + ([x] + b))
  {
    var s, r := f + b, f + ([x] + b);
    forall i, j | 0 <= i < j < |r| ensures r[i] != r[j] {
      var i', j' := if i <= |f| then i else i - 1, if j <= |f| then j else j - 1;
      assert i < |f| ==> r[i] == s[i] && r[i] in f;
      assert i > |f| ==> r[i] == s[i - 1] && r[i] in b;
      assert j < |f| ==> r[j] == s[j] && r[j] in f;
      assert j > |f| ==> r[j] == s[j - 1] && r[j] in b;
    }
  }

  lemma {:induction false} RetryIsProper(q: Queue, t: Thread, s: Step)
    requires IsProper(q) && Enabled(q, t, s) && (s.RetryNode? || s.CountUp?)
    ensures IsProper(After(q, t, s))
  {
    hide IsChain, AreDistinct;
    var q' := After(q, t, s);
    UncountedMoves(q, q', t);
    forall u | u in q'.producers ensures ProducerOk(q', u) { ProducerIs(q, u); }
    forall u, v | u in q'.producers && v in q'.producers && u != v ensures NotBoth(q', u, v) { NotBothIs(q, u, v); }
  }

  // The consumer's steps leave the producers alone.
  lemma {:induction false} CountingIsProper(q: Queue, t: Thread, s: Step)
    requires IsProper(q) && Enabled(q, t, s) && (s.LookTail? || s.GetTail? ==> q.tail != Null)
    requires s.CheckCount? || s.CountDown? || s.LookTail? || s.Ask? || s.GetTail? || s.CountOff?
    ensures IsProper(After(q, t, s))
  {
    hide AreDistinct;
    var q' := After(q, t, s);
    SameUncounted(q, q');
    forall u | u in q'.producers ensures ProducerOk(q', u) { ProducerIs(q, u); }
    forall u, v | u in q'.producers && v in q'.producers && u != v ensures NotBoth(q', u, v) { NotBothIs(q, u, v); }
  }

  lemma {:induction false} EmptyFront(q: Queue)
    requires IsChain(q.next, q.tail, q.front) && q.tail == Null
    ensures q.front == [] && q.front + q.back == q.back == q.back + []
    ensures !IsTurning(q) ==> Content(q) == LsList.Reversed(q.back)
  {}

  lemma {:induction false} TakenOverIsProper(q: Queue, c: Consumer)
    requires IsProper(q) && q.tail == Null
    requires if c.Turning? then q.consumer.Asked? else c == Reversing && q.consumer == Charged
    ensures IsProper(TakenOver(q, c)) && Content(TakenOver(q, c)) == Content(q)
  {
    hide AreDistinct, ProducerOk, NotBoth, Uncounted;
    EmptyFront(q);
    var q' := TakenOver(q, c);
    SameUncounted(q, q');
    TakenOverThreads(q, c);
    assert Content(q') == LsList.Reversed(q.back) + [] == Content(q);
  }

  lemma {:induction false} TakenOverThreads(q: Queue, c: Consumer)
    requires IsProper(q) && q.tail == Null
    ensures ThreadsOk(TakenOver(q, c))
  {
    hide IsChain, AreDistinct;
    EmptyFront(q);
    var q' := TakenOver(q, c);
    forall u | u in q'.producers ensures ProducerOk(q', u) { ProducerIs(q, u); }
    forall u, v | u in q'.producers && v in q'.producers && u != v ensures NotBoth(q', u, v) { NotBothIs(q, u, v); }
  }

  lemma {:induction false} SameUncounted(q: Queue, q': Queue)
    requires q'.producers == q.producers
    ensures |Uncounted(q')| == |Uncounted(q)|
  {
    forall x ensures x in Uncounted(q') <==> x in Uncounted(q) {}
    CcLocks.Same(Uncounted(q'), Uncounted(q));
  }

  lemma {:induction false} TurnedLists(q: Queue, c: Consumer)
    requires ListsOk(q)
    ensures ListsOk(Turned(q, c))
    ensures forall x :: x !in q.front ==> (x in Turned(q, c).next <==> x in q.next)
    ensures forall x :: x !in q.front && x in q.next ==> Turned(q, c).next[x] == q.next[x]
  {
    var q' := Turned(q, c);
    ReversedFacts(q.front);
    FrontDistinct(q.front, q.back);
    TurnedIsChain(q.next, q.front, Null, []);
    assert LsList.Reversed(q.front) + [] == LsList.Reversed(q.front);
    forall x | x !in q.front ensures (x in q'.next <==> x in q.next) && (x in q.next ==> q'.next[x] == q.next[x]) {
      TurnedFrame(q.next, q.front, Null, x);
    }
    ChainFrame(q.next, q'.next, q.head, q.back);
    BothDistinct(LsList.Reversed(q.front), q.back);
  }

  lemma {:induction false} TurnedIsProper(q: Queue, c: Consumer)
    requires IsProper(q)
    requires if c.Giving? then q.consumer.Turning? else c == Ready && q.consumer == Reversing
    ensures IsProper(Turned(q, c))
  {
    hide IsChain, AreDistinct;
    var q' := Turned(q, c);
    SameUncounted(q, q');
    ReversedFacts(q.front);
    TurnedLists(q, c);
    forall u | u in q'.producers ensures ProducerOk(q', u) { ProducerIs(q, u); }
    forall u, v | u in q'.producers && v in q'.producers && u != v ensures NotBoth(q', u, v) { NotBothIs(q, u, v); }
  }

  lemma {:induction false} FrontDistinct(f: seq<Node>, b: seq<Node>)
    requires AreDistinct(f + b)
    ensures AreDistinct(f) && AreDistinct(b) && forall x :: x in f ==> x !in b
  {
    var s := f + b;
    assert forall i :: 0 <= i < |f| ==> s[i] == f[i];
    assert forall i :: 0 <= i < |b| ==> s[|f| + i] == b[i];
    forall i, j | 0 <= i < |f| && 0 <= j < |b| ensures f[i] != b[j] {
      assert s[i] == f[i] && s[|f| + j] == b[j];
    }
    forall i, j | 0 <= i < j < |b| ensures b[i] != b[j] {
      assert s[|f| + i] == b[i] && s[|f| + j] == b[j];
    }
  }

  lemma {:induction false} BothDistinct(f: seq<Node>, b: seq<Node>)
    requires AreDistinct(f) && AreDistinct(b) && forall x :: x in f ==> x !in b
    ensures AreDistinct(f + b)
  {
    var s := f + b;
    forall i, j | 0 <= i < j < |s| ensures s[i] != s[j] {
      if i < |f| <= j {
        assert f[i] in f && b[j - |f|] in b;
      }
    }
  }

  lemma {:induction false} GivenLists(q: Queue, t: Thread)
    requires IsProper(q) && Enabled(q, t, GiveAway)
    ensures ListsOk(After(q, t, GiveAway))
  {
    hide ProducerOk, NotBoth, Uncounted, Content;
    var q', x, r := After(q, t, GiveAway), q.front[0], q.front[1..];
    assert q.front == [x] + r;
    FrontDistinct(q.front, q.back);
    assert x !in r && x in q.front;
    assert forall y :: y in r ==> y in q.front;
    ChainFrame(q.next, q'.next, q.head, q.back);
    ChainFrame(q.next, q'.next, q.next[x], r);
    BothDistinct(r, q.back);
  }

  lemma {:induction false} GiveIsProper(q: Queue, t: Thread)
    requires IsProper(q) && Enabled(q, t, GiveAway)
    ensures IsProper(After(q, t, GiveAway))
  {
    hide IsChain, AreDistinct, LsList.Reversed;
    var q', x, r := After(q, t, GiveAway), q.front[0], q.front[1..];
    GivenLists(q, t);
    SameUncounted(q, q');
    assert q.front == [x] + r;
    assert Content(q) == [x] + Content(q');
    assert q.left + ([x] + Content(q')) == q.left + [x] + Content(q');
    forall u | u in q'.producers ensures ProducerOk(q', u) { ProducerIs(q, u); }
    forall u, v | u in q'.producers && v in q'.producers && u != v ensures NotBoth(q', u, v) { NotBothIs(q, u, v); }
  }

  // The first k nodes are cut off.
  lemma {:induction false} ChainCut(next: map<Node, Link>, from: Link, s: seq<Node>, k: nat)
    requires IsChain(next, from, s) && 1 <= k <= |s| && AreDistinct(s)
    ensures var last := s[k - 1];
            && last in next && IsChain(next, next[last], s[k..]) && IsChain(next[last := Null], from, s[..k])
    decreases k
  {
    DistinctRest(s);
    if k == 1 {
      assert s[..1][1..] == [];
    } else {
      ChainCut(next, next[s[0]], s[1..], k - 1);
      assert s[1..][k - 1..] == s[k..] && s[..k][1..] == s[1..][..k - 1] && s[1..][k - 2] == s[k - 1];
      assert s[k - 1] in s[1..];
    }
  }

  lemma {:induction false} SomeGivenLists(q: Queue, t: Thread)
    requires IsProper(q) && Enabled(q, t, GiveSome) && q.front != []
    ensures ListsOk(After(q, t, GiveSome))
    ensures IsChain(After(q, t, GiveSome).next, q.tail, q.front[..Share(q.consumer.want, |q.front|)])
  {
    hide ProducerOk, NotBoth, Uncounted, Content, IsChain, AreDistinct;
    var q', k := After(q, t, GiveSome), Share(q.consumer.want, |q.front|);
    FrontDistinct(q.front, q.back);
    ChainCut(q.next, q.tail, q.front, k);
    CutOff(q.front, q.back, k);
    ChainFrame(q.next, q'.next, q.head, q.back);
    ChainFrame(q.next, q'.next, q.next[q.front[k - 1]], q.front[k..]);
  }

  // The two parts, and the other list, have no node in common.
  lemma {:induction false} CutOff(f: seq<Node>, b: seq<Node>, k: nat)
    requires AreDistinct(f) && AreDistinct(b) && (forall x :: x in f ==> x !in b) && 1 <= k <= |f|
    ensures f[k - 1] !in b && f[k - 1] !in f[k..] && AreDistinct(f[k..] + b)
    ensures forall x :: x in f[..k] ==> x !in f[k..] && x !in b
  {
    var some, rest := f[..k], f[k..];
    assert f == some + rest && f[k - 1] == some[k - 1];
    FrontDistinct(some, rest);
    assert forall y :: y in rest ==> y in f;
    BothDistinct(rest, b);
  }

  lemma {:induction false} SomeGivenIsProper(q: Queue, t: Thread)
    requires IsProper(q) && Enabled(q, t, GiveSome)
    ensures IsProper(After(q, t, GiveSome))
  {
    hide IsChain, AreDistinct, LsList.Reversed;
    var q', k := After(q, t, GiveSome), Share(q.consumer.want, |q.front|);
    SameUncounted(q, q');
    if q.front != [] {
      SomeGivenLists(q, t);
      var some, rest := q.front[..k], q.front[k..];
      assert q.front == some + rest;
      assert Content(q) == some + Content(q');
      assert q.left + (some + Content(q')) == q.left + some + Content(q');
    }
    forall u | u in q'.producers ensures ProducerOk(q', u) { ProducerIs(q, u); }
    forall u, v | u in q'.producers && v in q'.producers && u != v ensures NotBoth(q', u, v) { NotBothIs(q, u, v); }
  }

  lemma {:induction false} TailIsProper(q: Queue, t: Thread, s: Step)
    requires IsProper(q) && Enabled(q, t, s) && (s.LookTail? || s.GetTail?)
    ensures IsProper(After(q, t, s)) && Content(After(q, t, s)) == Content(q)
  {
    hide IsProper, TakenOver, LsList.Reversed;
    if q.tail == Null {
      TakenOverIsProper(q, if s.GetTail? then Turning(q.consumer.want) else Reversing);
    } else {
      CountingIsProper(q, t, s);
    }
  }

  lemma {:induction false} TurnIsProper(q: Queue, t: Thread, s: Step)
    requires IsProper(q) && Enabled(q, t, s) && (s.TurnRound? || s.TurnTail?)
    ensures IsProper(After(q, t, s)) && Content(After(q, t, s)) == Content(q)
  {
    hide IsProper, LsList.Reversed;
    TurnedIsProper(q, if s.TurnTail? then Giving(q.consumer.want) else Ready);
  }

  // Every step of any producer and of the consumer, in whichever way it removes.
  lemma {:induction false} StepIsProper(q: Queue, t: Thread, s: Step)
    requires IsProper(q) && Enabled(q, t, s)
    ensures IsProper(After(q, t, s))
  {
    hide IsProper, Enabled, After;
    match s
    case Take(x) => TakeIsProper(q, t, x);
    case LinkNode => LinkNodeIsProper(q, t);
    case PushNode => PushNodeIsProper(q, t);
    case RetryNode => RetryIsProper(q, t, s);
    case CountUp => RetryIsProper(q, t, s);
    case LookTail => TailIsProper(q, t, s);
    case GetTail => TailIsProper(q, t, s);
    case TurnRound => TurnIsProper(q, t, s);
    case TurnTail => TurnIsProper(q, t, s);
    case GiveAway => GiveIsProper(q, t);
    case GiveSome => SomeGivenIsProper(q, t);
    case _ => CountingIsProper(q, t, s);
  }

  // The steps of a removal by count.
  predicate IsByCount(s: Step) {
    s.Ask? || s.GetTail? || s.TurnTail? || s.GiveSome? || s.CountOff?
  }

  // Removing one by one, the consumer never runs out of nodes on the way.
  lemma {:induction false} StepIsSound(q: Queue, t: Thread, s: Step)
    requires IsSound(q) && Enabled(q, t, s) && !IsByCount(s)
    ensures IsSound(After(q, t, s))
  {
    hide IsProper, Uncounted, Content;
    StepIsProper(q, t, s);
    if s.LookTail? {
      NodesLeft(q);
    }
    if s.TurnRound? {
      ReversedFacts(q.front);
    }
  }

  lemma {:induction false} NodesLeft(q: Queue)
    requires IsSound(q) && q.consumer == Charged
    ensures q.tail == Null ==> q.front == [] && q.back != []
    ensures q.tail != Null ==> q.front != []
  {
    hide ListsOk, ThreadsOk, Uncounted, Content;
    assert ListsOk(q);
    LinksTell(q);
  }

  lemma {:induction false} LinksTell(q: Queue)
    requires ListsOk(q)
    ensures q.tail == Null <==> q.front == []
  {}

  // ------------------------------------------------------------ first in, first out

  lemma {:induction false} PushAppends(q: Queue, t: Thread)
    requires Enabled(q, t, PushNode)
    ensures Content(After(q, t, PushNode)) == Content(q) + [q.producers[t].node]
  {
    var x := q.producers[t].node;
    ReversedSnoc(q.back, x);
    var f := if IsTurning(q) then LsList.Reversed(q.front) else q.front;
    assert f + (LsList.Reversed(q.back) + [x]) == f + LsList.Reversed(q.back) + [x];
  }

  // A successful push appends, a removal takes the oldest node away, and no other
  // step changes what is in the queue.
  lemma {:induction false} StepInOrder(q: Queue, t: Thread, s: Step)
    requires IsProper(q) && Enabled(q, t, s)
    ensures s.PushNode? ==> Content(After(q, t, s)) == Content(q) + [q.producers[t].node]
    ensures s.GiveAway? ==> Content(q) == [q.front[0]] + Content(After(q, t, s))
    ensures s.GiveSome? ==> Content(q) == q.front[..Share(q.consumer.want, |q.front|)] + Content(After(q, t, s))
    ensures !s.PushNode? && !s.GiveAway? && !s.GiveSome? ==> Content(After(q, t, s)) == Content(q)
  {
    hide IsProper, IsChain, AreDistinct, LsList.Reversed, TakenOver, Turned;
    match s
    case PushNode => PushAppends(q, t);
    case LookTail => TailIsProper(q, t, s);
    case GetTail => TailIsProper(q, t, s);
    case TurnRound => TurnIsProper(q, t, s);
    case TurnTail => TurnIsProper(q, t, s);
    case GiveAway => assert q.front == [q.front[0]] + q.front[1..];
    case GiveSome => SomeInOrder(q, t);
    case _ =>
  }

  lemma {:induction false} SomeGivenFields(q: Queue, t: Thread)
    requires Enabled(q, t, GiveSome)
    ensures var q', k := After(q, t, GiveSome), Share(q.consumer.want, |q.front|);
            && q'.front == q.front[k..] && q'.back == q.back && q'.consumer == Owing(k) && q'.count == q.count
            && q'.head == q.head && q'.left == q.left + q.front[..k] && q'.producers == q.producers
  {}

  lemma {:induction false} SomeInOrder(q: Queue, t: Thread)
    requires Enabled(q, t, GiveSome)
    ensures Content(q) == q.front[..Share(q.consumer.want, |q.front|)] + Content(After(q, t, GiveSome))
  {
    SomeGivenFields(q, t);
    hide After, LsList.Reversed, Enabled;
    var k, b := Share(q.consumer.want, |q.front|), LsList.Reversed(q.back);
    assert q.front == q.front[..k] + q.front[k..];
    assert q.front[..k] + q.front[k..] + b == q.front[..k] + (q.front[k..] + b);
  }

  // A consumer that has seen a count other than zero finds a node.
  lemma {:induction false} CountMeansNode(q: Queue)
    requires IsSound(q)
    ensures q.consumer == Waiting && q.count != 0 ==> Content(q) != []
    ensures q.consumer == Ready ==> Enabled(q, 0, GiveAway)
    ensures q.consumer == Waiting ==> q.count + |Uncounted(q)| == |q.front| + |q.back|
  {
    ReversedFacts(q.back);
  }

  lemma {:induction false} ChainIn(next: map<Node, Link>, from: Link, s: seq<Node>)
    requires IsChain(next, from, s)
    ensures forall x :: x in s ==> x in next
    decreases |s|
  {
    if s != [] {
      ChainIn(next, next[s[0]], s[1..]);
      assert s == [s[0]] + s[1..];
    }
  }

  // A removal can always go on, except that one by one it needs a node to give.
  lemma {:induction false} ConsumerGoesOn(q: Queue)
    requires IsProper(q)
    ensures match q.consumer
            case Waiting => Enabled(q, 0, CheckCount) && forall n :: Enabled(q, 0, Ask(n))
            case Counted => Enabled(q, 0, CountDown)
            case Charged => Enabled(q, 0, LookTail)
            case Reversing => Enabled(q, 0, TurnRound)
            case Ready => Enabled(q, 0, GiveAway) <==> q.front != []
            case Asked(_) => Enabled(q, 0, GetTail)
            case Turning(_) => Enabled(q, 0, TurnTail)
            case Giving(_) => Enabled(q, 0, GiveSome)
            case Owing(_) => Enabled(q, 0, CountOff)
  {
    ChainIn(q.next, q.tail, q.front);
  }

  // ---------------------------------------------------- what an operation comes to

  // The thread takes these steps, one after the other, and nobody else moves.
  ghost predicate Runs(q: Queue, t: Thread, steps: seq<Step>, q': Queue)
    decreases |steps|
  {
    if steps == [] then q' == q
    else Enabled(q, t, steps[0]) && Runs(After(q, t, steps[0]), t, steps[1..], q')
  }

  lemma {:induction false} RunsOn(q: Queue, t: Thread, s: Step, steps: seq<Step>, q': Queue)
    requires Enabled(q, t, s) && Runs(After(q, t, s), t, steps, q')
    ensures Runs(q, t, [s] + steps, q')
  {
    assert ([s] + steps)[1..] == steps;
  }

  lemma {:induction false} RunsNowhere(q: Queue, t: Thread)
    ensures Runs(q, t, [], q)
  {}

  // A removal of either kind ends at once, with nothing, exactly when the count is
  // zero; otherwise it goes on.
  lemma {:induction false} EndsAtOnce(q: Queue, want: int)
    requires q.consumer == Waiting
    ensures After(q, 0, CheckCount).consumer == Waiting <==> q.count == 0
    ensures After(q, 0, Ask(want)).consumer == Waiting <==> q.count == 0
    ensures q.count == 0 ==> After(q, 0, CheckCount) == q && After(q, 0, Ask(want)) == q
    ensures q.count != 0 ==> After(q, 0, CheckCount) == q.(consumer := Counted)
    ensures q.count != 0 ==> After(q, 0, Ask(want)) == q.(consumer := Asked(want))
  {}

  // The same content, the same producers, the same orders of entering and leaving.
  ghost predicate SameElsewhere(q: Queue, q': Queue) {
    && Content(q') == Content(q) && q'.producers == q.producers && q'.entered == q.entered && q'.left == q.left
  }

  lemma {:induction false} QuietStep(q: Queue, s: Step)
    requires IsProper(q) && Enabled(q, 0, s)
    requires s.CheckCount? || s.CountDown? || s.LookTail? || s.TurnRound? || s.Ask? || s.GetTail? || s.TurnTail?
    ensures SameElsewhere(q, After(q, 0, s)) && IsProper(After(q, 0, s))
    ensures After(q, 0, s).count == if s.CountDown? then q.count - 1 else q.count
  {
    hide IsProper, Content, Enabled, LsList.Reversed;
    StepInOrder(q, 0, s);
    StepIsProper(q, 0, s);
  }

  // One by one, up to the node that is given.
  lemma {:induction false} GetReady(q: Queue) returns (steps: seq<Step>, q': Queue)
    requires IsSound(q) && q.consumer == Charged
    ensures steps == [LookTail] + if q.tail == Null then [TurnRound] else []
    ensures Runs(q, 0, steps, q') && IsSound(q') && q'.consumer == Ready && SameElsewhere(q, q') && q'.count == q.count
  {
    hide IsProper, Content, Runs, LsList.Reversed, Turned;
    var q1 := After(q, 0, LookTail);
    QuietStep(q, LookTail);
    StepIsSound(q, 0, LookTail);
    if q.tail == Null {
      q' := After(q1, 0, TurnRound);
      TurnedReady(q1);
      QuietStep(q1, TurnRound);
      StepIsSound(q1, 0, TurnRound);
      RunsNowhere(q', 0);
      RunsOn(q1, 0, TurnRound, [], q');
      steps := [LookTail] + [TurnRound];
      assert [TurnRound] + [] == [TurnRound];
      RunsOn(q, 0, LookTail, [TurnRound], q');
    } else {
      q' := q1;
      steps := [LookTail] + [];
      RunsNowhere(q', 0);
      RunsOn(q, 0, LookTail, [], q');
    }
  }

  lemma {:induction false} TurnedReady(q: Queue)
    requires q.consumer == Reversing
    ensures After(q, 0, TurnRound).consumer == Ready
  {}

  // With another count, a removal one by one gives the oldest node, detached, and
  // the count is one less; whether or not the older list has to be filled up first.
  lemma {:induction false} RemoveAlone(q: Queue) returns (q': Queue)
    requires IsSound(q) && q.consumer == Waiting && q.count != 0
    ensures var turning := if q.tail == Null then [TurnRound] else [];
            Runs(q, 0, [CheckCount, CountDown, LookTail] + turning + [GiveAway], q')
    ensures IsSound(q') && q'.consumer == Waiting && q'.count == q.count - 1 && q'.producers == q.producers
    ensures Content(q) != [] && Content(q) == [Content(q)[0]] + Content(q') && q'.entered == q.entered
    ensures q'.left == q.left + [Content(q)[0]] && Content(q)[0] in q'.free
    ensures Content(q)[0] in q'.next && q'.next[Content(q)[0]] == Null
  {
    hide IsProper, Content, Runs, LsList.Reversed;
    var q1 := After(q, 0, CheckCount);
    QuietStep(q, CheckCount);
    StepIsSound(q, 0, CheckCount);
    var q2 := After(q1, 0, CountDown);
    QuietStep(q1, CountDown);
    StepIsSound(q1, 0, CountDown);
    var steps, q3 := GetReady(q2);
    ConsumerGoesOn(q3);
    q' := After(q3, 0, GiveAway);
    StepIsSound(q3, 0, GiveAway);
    StepInOrder(q3, 0, GiveAway);
    RemovalRuns(q, steps, q3);
    assert [CheckCount, CountDown] + steps + [GiveAway]
        == [CheckCount, CountDown, LookTail] + (if q.tail == Null then [TurnRound] else []) + [GiveAway];
  }

  lemma {:induction false} RemovalRuns(q: Queue, steps: seq<Step>, q3: Queue)
    requires Enabled(q, 0, CheckCount) && Enabled(After(q, 0, CheckCount), 0, CountDown)
    requires Runs(After(After(q, 0, CheckCount), 0, CountDown), 0, steps, q3) && Enabled(q3, 0, GiveAway)
    ensures Runs(q, 0, [CheckCount, CountDown] + steps + [GiveAway], After(q3, 0, GiveAway))
  {
    hide Enabled, After, Runs;
    var q1, q' := After(q, 0, CheckCount), After(q3, 0, GiveAway);
    RunsNowhere(q', 0);
    RunsOn(q3, 0, GiveAway, [], q');
    assert [GiveAway] + [] == [GiveAway];
    RunsJoined(After(q1, 0, CountDown), 0, steps, q3, [GiveAway], q');
    RunsOn(q1, 0, CountDown, steps + [GiveAway], q');
    RunsOn(q, 0, CheckCount, [CountDown] + (steps + [GiveAway]), q');
    assert [CheckCount, CountDown] + steps + [GiveAway] == [CheckCount] + ([CountDown] + (steps + [GiveAway]));
  }

  lemma {:induction false} RunsJoined(q: Queue, t: Thread, a: seq<Step>, q1: Queue, b: seq<Step>, q2: Queue)
    requires Runs(q, t, a, q1) && Runs(q1, t, b, q2)
    ensures Runs(q, t, a + b, q2)
    decreases |a|
  {
    if a == [] {
      assert a + b == b;
    } else {
      RunsJoined(After(q, t, a[0]), t, a[1..], q1, b, q2);
      assert (a + b)[1..] == a[1..] + b;
    }
  }

  // How many nodes the older list has, once it has been filled up.
  function OlderCount(q: Queue): nat {
    if q.tail == Null then |q.back| else |q.front|
  }

  // By count, up to what is given: the older list, filled up if it was empty.
  lemma {:induction false} GetGiving(q: Queue) returns (steps: seq<Step>, q': Queue)
    requires IsProper(q) && q.consumer.Asked?
    ensures steps == [GetTail] + if q.tail == Null then [TurnTail] else []
    ensures Runs(q, 0, steps, q') && IsProper(q') && q'.consumer == Giving(q.consumer.want) && SameElsewhere(q, q')
    ensures q'.count == q.count && |q'.front| == OlderCount(q)
  {
    hide IsProper, Content, Runs, LsList.Reversed, Turned;
    var q1 := After(q, 0, GetTail);
    QuietStep(q, GetTail);
    if q.tail == Null {
      q' := After(q1, 0, TurnTail);
      TurnedGiving(q1);
      QuietStep(q1, TurnTail);
      RunsNowhere(q', 0);
      RunsOn(q1, 0, TurnTail, [], q');
      steps := [GetTail] + [TurnTail];
      assert [TurnTail] + [] == [TurnTail];
      RunsOn(q, 0, GetTail, [TurnTail], q');
    } else {
      q' := q1;
      steps := [GetTail] + [];
      RunsNowhere(q', 0);
      RunsOn(q, 0, GetTail, [], q');
    }
  }

  lemma {:induction false} TurnedGiving(q: Queue)
    requires q.consumer.Turning?
    ensures var q' := After(q, 0, TurnTail); q'.consumer == Giving(q.consumer.want) && |q'.front| == |q.front|
  {
    ReversedFacts(q.front);
  }

  // With another count, a removal by count gives its share of the oldest nodes, and
  // the count is as much less. The nodes are a list that ends.
  lemma {:induction false} RemoveSomeAlone(q: Queue, want: int) returns (q': Queue)
    requires IsProper(q) && q.consumer == Waiting && q.count != 0
    ensures Runs(q, 0, [Ask(want), GetTail] + (if q.tail == Null then [TurnTail] else []) + [GiveSome, CountOff], q')
    ensures var k := Share(want, OlderCount(q));
            && k <= |Content(q)| && IsProper(q') && q'.consumer == Waiting && q'.count == q.count - k
            && q'.left == q.left + Content(q)[..k] && Content(q') == Content(q)[k..] && q'.producers == q.producers
            && q'.entered == q.entered && (forall x :: x in Content(q)[..k] ==> x in q'.free)
            && (k > 0 ==> IsChain(q'.next, To(Content(q)[0]), Content(q)[..k]))
    ensures var n := if q.tail == Null then |q.back| else |q.front|;
            |q'.left| == |q.left| + if n == 0 then 0 else if want <= 1 then 1 else if want < n then want else n
  {
    hide IsProper, Content, Runs, LsList.Reversed, IsChain;
    var q1 := After(q, 0, Ask(want));
    QuietStep(q, Ask(want));
    var steps, q3 := GetGiving(q1);
    q' := GiveAndCount(q3);
    RunsJoined(q1, 0, steps, q3, [GiveSome, CountOff], q');
    RunsOn(q, 0, Ask(want), steps + [GiveSome, CountOff], q');
    assert [Ask(want), GetTail] + (if q.tail == Null then [TurnTail] else []) + [GiveSome, CountOff]
        == [Ask(want)] + (steps + [GiveSome, CountOff]);
  }

  lemma {:induction false} GiveAndCount(q: Queue) returns (q': Queue)
    requires IsProper(q) && q.consumer.Giving?
    ensures Runs(q, 0, [GiveSome, CountOff], q')
    ensures var k := Share(q.consumer.want, |q.front|);
            && k <= |Content(q)| && IsProper(q') && q'.consumer == Waiting && q'.count == q.count - k
            && q'.left == q.left + Content(q)[..k] && Content(q') == Content(q)[k..] && q'.producers == q.producers
            && q'.entered == q.entered && (forall x :: x in Content(q)[..k] ==> x in q'.free)
            && (k > 0 ==> IsChain(q'.next, To(Content(q)[0]), Content(q)[..k]))
  {
    hide IsProper, Content, Runs, LsList.Reversed, IsChain;
    ConsumerGoesOn(q);
    var q1, k := After(q, 0, GiveSome), Share(q.consumer.want, |q.front|);
    StepIsProper(q, 0, GiveSome);
    StepInOrder(q, 0, GiveSome);
    SomeGivenFields(q, 0);
    GivenShare(q, q1, k);
    q' := After(q1, 0, CountOff);
    StepIsProper(q1, 0, CountOff);
    StepInOrder(q1, 0, CountOff);
    Prefix(q.front[..k], Content(q'), Content(q), k);
    RunsNowhere(q', 0);
    RunsOn(q1, 0, CountOff, [], q');
    assert [CountOff] + [] == [CountOff] && [GiveSome] + [CountOff] == [GiveSome, CountOff];
    RunsOn(q, 0, GiveSome, [CountOff], q');
  }

  lemma {:induction false} Prefix(a: seq<Node>, b: seq<Node>, c: seq<Node>, k: nat)
    requires c == a + b && |a| == k
    ensures c[..k] == a && c[k..] == b && (k > 0 ==> c[0] == a[0])
  {}

  // What is given by count is at the front, leads to an end, and is free.
  lemma {:induction false} GivenShare(q: Queue, q': Queue, k: nat)
    requires IsProper(q) && Enabled(q, 0, GiveSome) && q' == After(q, 0, GiveSome)
    requires k == Share(q.consumer.want, |q.front|)
    ensures forall x :: x in q.front[..k] ==> x in q'.free
    ensures k > 0 ==> IsChain(q'.next, To(q.front[0]), q.front[..k])
  {
    if k > 0 {
      SomeGivenLists(q, 0);
    }
  }

  // In the middle of an insertion a producer has exactly one step to take, and after
  // a failed exchange it knows the head as it is.
  lemma {:induction false} ProducerGoesOn(q: Queue, t: Thread)
    requires t in q.producers
    ensures match q.producers[t]
            case Resting => forall x :: Enabled(q, t, Take(x)) <==> x in q.free
            case Saw(x, _) => Enabled(q, t, LinkNode)
            case Linked(x, seen) =>
              (Enabled(q, t, PushNode) <==> q.head == seen) && (Enabled(q, t, RetryNode) <==> q.head != seen)
            case Pushed => Enabled(q, t, CountUp)
    ensures Enabled(q, t, RetryNode) ==> After(q, t, RetryNode).producers[t] == Saw(q.producers[t].node, q.head)
  {}

  // An insertion, from wherever it is before its exchange: the node becomes the
  // youngest, and is counted.
  lemma {:induction false} InsertAlone(q: Queue, t: Thread, x: Node) returns (steps: seq<Step>, q': Queue)
    requires IsProper(q) && t in q.producers
    requires if q.producers[t].Resting? then x in q.free else NodeOf(q.producers[t]) == To(x)
    ensures Runs(q, t, steps, q') && IsProper(q') && q'.producers == q.producers[t := Resting]
    ensures Content(q') == Content(q) + [x] && q'.entered == q.entered + [x] && q'.left == q.left
    ensures q'.count == q.count + 1 && q'.consumer == q.consumer
    ensures steps == match q.producers[t]
                     case Resting => [Take(x), LinkNode, PushNode, CountUp]
                     case Saw(_, seen) =>
                       if seen == q.head then [LinkNode, PushNode, CountUp]
                       else [LinkNode, RetryNode, LinkNode, PushNode, CountUp]
                     case _ =>
                       if q.producers[t].seen == q.head then [PushNode, CountUp]
                       else [RetryNode, LinkNode, PushNode, CountUp]
    decreases match q.producers[t] case Resting => 1 case Saw(_, seen) => if seen == q.head then 0 else 3
              case _ => 2
  {
    hide IsProper, Content, Runs, LsList.Reversed;
    match q.producers[t]
    case Resting =>
      var q1 := After(q, t, Take(x));
      StepIsProper(q, t, Take(x));
      StepInOrder(q, t, Take(x));
      steps, q' := InsertAlone(q1, t, x);
      RunsOn(q, t, Take(x), steps, q');
      steps := [Take(x)] + steps;
    case Saw(_, seen) =>
      var q1 := After(q, t, LinkNode);
      StepIsProper(q, t, LinkNode);
      StepInOrder(q, t, LinkNode);
      if seen == q.head {
        steps, q' := PushAndCount(q1, t, x);
      } else {
        steps, q' := InsertAlone(q1, t, x);
      }
      RunsOn(q, t, LinkNode, steps, q');
      steps := [LinkNode] + steps;
    case Linked(_, seen) =>
      if seen == q.head {
        steps, q' := PushAndCount(q, t, x);
      } else {
        var q1 := After(q, t, RetryNode);
        StepIsProper(q, t, RetryNode);
        StepInOrder(q, t, RetryNode);
        steps, q' := InsertAlone(q1, t, x);
        RunsOn(q, t, RetryNode, steps, q');
        steps := [RetryNode] + steps;
      }
    case Pushed =>
  }

  lemma {:induction false} PushAndCount(q: Queue, t: Thread, x: Node) returns (steps: seq<Step>, q': Queue)
    requires IsProper(q) && t in q.producers && q.producers[t] == Linked(x, q.head)
    ensures Runs(q, t, [PushNode, CountUp], q') && IsProper(q') && q'.producers == q.producers[t := Resting]
    ensures steps == [PushNode, CountUp]
    ensures Content(q') == Content(q) + [x] && q'.entered == q.entered + [x] && q'.left == q.left
    ensures q'.count == q.count + 1 && q'.consumer == q.consumer
  {
    hide IsProper, Content, Runs, LsList.Reversed;
    var q1 := After(q, t, PushNode);
    StepIsProper(q, t, PushNode);
    StepInOrder(q, t, PushNode);
    q' := After(q1, t, CountUp);
    StepIsProper(q1, t, CountUp);
    StepInOrder(q1, t, CountUp);
    assert q'.producers == q.producers[t := Resting];
    RunsNowhere(q', t);
    RunsOn(q1, t, CountUp, [], q');
    assert [CountUp] + [] == [CountUp] && [PushNode] + [CountUp] == [PushNode, CountUp];
    RunsOn(q, t, PushNode, [CountUp], q');
    steps := [PushNode, CountUp];
  }

  // If it has removed by count before, the count may be negative, and then it may
  // find nothing: exactly when the count owes all that has been pushed and not
  // counted.
  lemma {:induction false} CountMayMislead(q: Queue)
    requires IsProper(q) && q.consumer == Waiting && q.count != 0
    ensures Content(q) == [] <==> q.count == -|Uncounted(q)|
    ensures q.count > 0 ==> Content(q) != []
  {
    ReversedFacts(q.back);
  }

  // A consumer that looks now answers that there is nothing.
  predicate AnswersNull(q: Queue) {
    q.consumer == Waiting && q.count == 0
  }

  // There may be something all the same: exactly what has been pushed by those who
  // have not counted it yet. The answer is right if and only if there is nobody
  // between pushing and counting.
  lemma {:induction false} NullIsRight(q: Queue)
    requires IsProper(q) && AnswersNull(q)
    ensures |Content(q)| == |Uncounted(q)|
    ensures Content(q) == [] <==> forall t :: t in q.producers ==> !q.producers[t].Pushed?
  {
    ReversedFacts(q.back);
    if t :| t in q.producers && q.producers[t].Pushed? {
      CcLocks.Without(Uncounted(q), t);
    } else {
      CcLocks.NobodyIn(Uncounted(q));
    }
  }

  ghost predicate LeadsTo(q: Queue, q': Queue) {
    exists t, s :: Enabled(q, t, s) && q' == After(q, t, s)
  }

  ghost predicate Follows(run: seq<Queue>, i: nat)
    requires i + 1 < |run|
  {
    LeadsTo(run[i], run[i + 1])
  }

  ghost predicate IsRun(run: seq<Queue>) {
    forall i {:trigger Follows(run, i)} :: 0 <= i < |run| - 1 ==> Follows(run, i)
  }

  ghost predicate IsNew(q: Queue) {
    && q.head == Null && q.tail == Null && q.count == 0 && q.front == [] && q.back == [] && q.entered == []
    && q.left == []
    && q.consumer == Waiting && (forall t :: t in q.producers ==> q.producers[t].Resting?)
    && (forall x :: x in q.free ==> x in q.next)
  }

  // In every run, what has left is a beginning of what has entered, in the same
  // order, and the rest is in the queue.
  lemma {:induction false} RunIsFifo(run: seq<Queue>, n: nat)
    requires n < |run| && IsRun(run) && IsNew(run[0])
    ensures IsProper(run[n]) && run[n].entered == run[n].left + Content(run[n]) && run[n].left <= run[n].entered
    ensures AnswersNull(run[n]) ==> |run[n].entered| == |run[n].left| + |Uncounted(run[n])|
  {
    hide Enabled, After;
    if n == 0 {
      CcLocks.NobodyIn(Uncounted(run[0]));
    } else {
      RunIsFifo(run, n - 1);
      assert Follows(run, n - 1);
      var t, s :| Enabled(run[n - 1], t, s) && run[n - 1 + 1] == After(run[n - 1], t, s);
      StepIsProper(run[n - 1], t, s);
    }
    if AnswersNull(run[n]) {
      NullIsRight(run[n]);
    }
  }

  lemma {:induction false} RunsJoin(a: seq<Queue>, b: seq<Queue>)
    requires IsRun(a) && IsRun(b) && a != [] && b != [] && a[|a| - 1] == b[0]
    ensures IsRun(a + b[1..])
  {
    hide LeadsTo;
    var r := a + b[1..];
    forall i | 0 <= i < |r| - 1 ensures Follows(r, i) {
      if i < |a| - 1 {
        assert Follows(a, i) && r[i] == a[i] && r[i + 1] == a[i + 1];
      } else {
        var j := i - (|a| - 1);
        assert r[i] == b[j] && r[i + 1] == b[j + 1] && Follows(b, j);
      }
    }
  }

  // The steps up to a successful push, with nobody else at work.
  lemma {:induction false} PushAlone(q: Queue, t: Thread, x: Node) returns (run: seq<Queue>, q': Queue)
    requires t in q.producers && q.producers[t].Resting? && x in q.free
    ensures IsRun(run) && |run| == 4 && run[0] == q && run[3] == q'
    ensures q' == Doing(q, t, Pushed).(next := q.next[x := q.head], head := To(x), back := [x] + q.back,
                                       entered := q.entered + [x], free := q.free - {x})
  {
    var q1 := After(q, t, Take(x));
    var q2 := After(q1, t, LinkNode);
    q' := After(q2, t, PushNode);
    assert q'.producers == q.producers[t := Pushed];
    run := [q, q1, q2, q'];
    assert Follows(run, 0) && Follows(run, 1) && Follows(run, 2);
  }

  // The steps of a removal that takes over two nodes, with nobody else at work.
  lemma {:induction false} GiveAlone(q: Queue, x: Node, y: Node) returns (run: seq<Queue>, q': Queue)
    requires q.consumer == Waiting && q.count != 0 && q.tail == Null && q.front == [] && q.back == [y, x] && x != y
    ensures IsRun(run) && run != [] && run[0] == q && run[|run| - 1] == q'
    ensures q'.consumer == Waiting && q'.count == q.count - 1 && q'.front == [y] && q'.back == []
    ensures q'.left == q.left + [x] && q'.producers == q.producers
  {
    var r1, q1 := ChargeAlone(q);
    assert LsList.Reversed([y, x]) == [x, y] by { assert [y, x][1..] == [x] && [x][1..] == []; }
    TurnedKeys(q1.next, [y, x], Null);
    var q2 := After(q1, 0, TurnRound);
    OneStep(q1, 0, TurnRound);
    RunsJoin(r1, [q1, q2]);
    run := r1 + [q1, q2][1..];
    q' := After(q2, 0, GiveAway);
    OneStep(q2, 0, GiveAway);
    RunsJoin(run, [q2, q']);
    run := run + [q2, q'][1..];
  }

  // Removing one by one, up to taking over.
  lemma {:induction false} ChargeAlone(q: Queue) returns (run: seq<Queue>, q': Queue)
    requires q.consumer == Waiting && q.count != 0 && q.tail == Null
    ensures IsRun(run) && run != [] && run[0] == q && run[|run| - 1] == q'
    ensures q' == TakenOver(q, Reversing).(count := q.count - 1)
  {
    var q1 := After(q, 0, CheckCount);
    var q2 := After(q1, 0, CountDown);
    q' := After(q2, 0, LookTail);
    run := [q, q1, q2, q'];
    assert Follows(run, 0) && Follows(run, 1) && Follows(run, 2);
  }

  // Removing by count, up to giving, when there are two nodes.
  lemma {:induction false} AskAlone(q: Queue, x: Node, y: Node) returns (run: seq<Queue>, q': Queue)
    requires q.consumer == Waiting && q.count != 0 && q.tail == Null && q.front == [] && q.back == [y, x] && x != y
    ensures IsRun(run) && run != [] && run[0] == q && run[|run| - 1] == q'
    ensures q'.consumer == Giving(2) && q'.count == q.count && q'.front == [x, y] && q'.back == [] && q'.head == Null
    ensures q'.left == q.left && q'.producers == q.producers && x in q'.next && y in q'.next
  {
    var q1 := After(q, 0, Ask(2));
    var q2 := After(q1, 0, GetTail);
    assert LsList.Reversed([y, x]) == [x, y] by { assert [y, x][1..] == [x] && [x][1..] == []; }
    TurnedKeys(q2.next, [y, x], Null);
    q' := After(q2, 0, TurnTail);
    run := [q, q1, q2, q'];
    assert Follows(run, 0) && Follows(run, 1) && Follows(run, 2);
  }

  // Removing two nodes by count, with nobody else at work.
  lemma {:induction false} GiveTwo(q: Queue, x: Node, y: Node) returns (run: seq<Queue>, q': Queue)
    requires q.consumer == Waiting && q.count != 0 && q.tail == Null && q.front == [] && q.back == [y, x] && x != y
    ensures IsRun(run) && run != [] && run[0] == q && run[|run| - 1] == q'
    ensures q'.consumer == Waiting && q'.count == q.count - 2 && q'.front == [] && q'.back == []
    ensures q'.head == Null && q'.left == q.left + [x, y] && q'.producers == q.producers
  {
    hide IsRun;
    var q1, q2;
    run, q1 := AskAlone(q, x, y);
    OneStep(q1, 0, GiveSome);
    SomeGivenFields(q1, 0);
    q2 := After(q1, 0, GiveSome);
    RunsJoin(run, [q1, q2]);
    run := run + [q1, q2][1..];
    assert [x, y][..2] == [x, y] && [x, y][2..] == [];
    OneStep(q2, 0, CountOff);
    q' := After(q2, 0, CountOff);
    RunsJoin(run, [q2, q']);
    run := run + [q2, q'][1..];
  }

  lemma {:induction false} TurnedKeys(next: map<Node, Link>, s: seq<Node>, before: Link)
    ensures forall x :: x in TurnedLinks(next, s, before) <==> x in next || x in s
    decreases |s|
  {
    if s != [] {
      TurnedKeys(next[s[0] := before], s[1..], To(s[0]));
    }
  }

  // A history after which the answer is wrong. The first producer has pushed node
  // 1 and not counted it; the second has pushed and counted node 2. The consumer
  // has given away node 1, on the count for node 2.
  lemma {:induction false} NullWhileWaiting() returns (run: seq<Queue>, q: Queue)
    ensures run != [] && IsRun(run) && IsNew(run[0]) && run[|run| - 1] == q
    ensures AnswersNull(q) && q.left == [1] && Content(q) == [2]
    ensures 2 in q.producers && q.producers[2].Resting?
  {
    hide IsRun;
    var q1;
    run, q1 := TwoPushed();
    var c;
    c, q := GiveAlone(q1, 1, 2);
    RunsJoin(run, c);
    run := run + c[1..];
    assert LsList.Reversed<Node>([]) == [];
  }

  // The beginning of both of these histories.
  lemma {:induction false} TwoPushed() returns (run: seq<Queue>, q: Queue)
    ensures run != [] && IsRun(run) && IsNew(run[0]) && run[|run| - 1] == q
    ensures q.consumer == Waiting && q.count == 1 && q.tail == Null && q.front == [] && q.back == [2, 1] && q.left == []
    ensures 1 in q.producers && q.producers[1].Pushed? && 2 in q.producers && q.producers[2].Resting?
  {
    hide IsRun;
    var q0 := Queue(Null, Null, 0, map[1 := Null, 2 := Null], map[1 := Resting, 2 := Resting], Waiting, [], [],
        {1, 2}, [], []);
    var a, q1 := PushAlone(q0, 1, 1);
    var b, q2 := PushAlone(q1, 2, 2);
    RunsJoin(a, b);
    run := a + b[1..];
    q := After(q2, 2, CountUp);
    OneStep(q2, 2, CountUp);
    RunsJoin(run, [q2, q]);
    run := run + [q2, q][1..];
  }

  // The two ways to remove must not be mixed. Here the consumer first removes both
  // nodes by count, which leaves the count at -1, for the first producer has not
  // counted its node yet. A removal one by one then takes this for a node, and ends
  // up ready to give away the first node of a list that is empty.
  lemma {:induction false} MixedIsStuck() returns (run: seq<Queue>, q: Queue)
    ensures run != [] && IsRun(run) && IsNew(run[0]) && run[|run| - 1] == q
    ensures IsProper(q) && q.consumer == Ready && q.front == [] && q.tail == Null
    ensures !Enabled(q, 0, GiveAway)
  {
    hide IsRun, IsProper;
    var q1, q2, q3, c, d;
    run, q1 := TwoPushed();
    c, q2 := GiveTwo(q1, 1, 2);
    RunsJoin(run, c);
    run := run + c[1..];
    RunIsFifo(run, |run| - 1);
    EmptyTail(q2);
    d, q3 := ChargeAlone(q2);
    RunsJoin(run, d);
    run := run + d[1..];
    q := After(q3, 0, TurnRound);
    OneStep(q3, 0, TurnRound);
    RunsJoin(run, [q3, q]);
    run := run + [q3, q][1..];
    RunIsFifo(run, |run| - 1);
    EmptyTail(q);
  }

  lemma {:induction false} EmptyTail(q: Queue)
    requires IsProper(q) && q.front == []
    ensures q.tail == Null
  {}

  lemma {:induction false} OneStep(q: Queue, t: Thread, s: Step)
    requires Enabled(q, t, s)
    ensures IsRun([q, After(q, t, s)])
  {
    assert LeadsTo(q, After(q, t, s));
    assert Follows([q, After(q, t, s)], 0);
  }
}
