// The lock-free exchanger: threads push lists of nodes with compare and
// exchange, and take everything there is with one exchange. Nodes go round and
// round, so the same pointer may be at the head again in a different list.
module CcExchange {

  type Thread = int
  type Node = int

  datatype Link = Null | To(node: Node)

  // What a thread is doing: nothing; an insertion of a list, with the head it
  // has read last, before and after writing it into the last node of the list;
  // a removal that has seen a head.
  datatype Work =
    | Idle
    | HasRead(list: seq<Node>, seen: Link)
    | HasLinked(list: seq<Node>, seen: Link)
    | HasSeen

  // The content, and what has been inserted and removed so far, are kept for the
  // proofs only.
  datatype Exchanger = Exchanger(
    head: Link, next: map<Node, Link>, work: map<Thread, Work>, owned: map<Thread, set<Node>>,
    content: seq<Node>, inserted: multiset<Node>, removed: multiset<Node>)

  // The nodes from this link on are these, and then there is no more.
  ghost predicate IsChain(next: map<Node, Link>, from: Link, s: seq<Node>)
    decreases |s|
  {
    if s == [] then from == Null else from == To(s[0]) && s[0] in next && IsChain(next, next[s[0]], s[1..])
  }

  // The nodes of a list lead from each to the next; where the last one leads
  // is left open.
  ghost predicate IsList(next: map<Node, Link>, s: seq<Node>) {
    && s != [] && (forall i :: 0 <= i < |s| ==> s[i] in next)
    && (forall i :: 0 <= i < |s| - 1 ==> next[s[i]] == To(s[i + 1]))
  }

  predicate AreDistinct(s: seq<Node>) {
    forall i, j :: 0 <= i < j < |s| ==> s[i] != s[j]
  }

  function Owned(e: Exchanger, t: Thread): set<Node> {
    if t in e.owned then e.owned[t] else {}
  }

  // The list that a thread is about to insert.
  function ListOf(w: Work): seq<Node> {
    match w
    case HasRead(l, _) => l
    case HasLinked(l, _) => l
    case _ => []
  }

  ghost predicate ThreadOk(e: Exchanger, t: Thread) {
    && t in e.work && t in e.owned && (forall x :: x in e.owned[t] ==> x in e.next && x !in e.content)
    && (ListOf(e.work[t]) != [] ==>
          IsList(e.next, ListOf(e.work[t])) && AreDistinct(ListOf(e.work[t]))
              && forall x :: x in ListOf(e.work[t]) ==> x in e.owned[t])
    && ((e.work[t].HasRead? || e.work[t].HasLinked?) ==> ListOf(e.work[t]) != [])
    && (e.work[t].HasLinked? ==> var l := e.work[t].list; l[|l| - 1] in e.next && e.next[l[|l| - 1]] == e.work[t].seen)
  }

  ghost predicate Apart(e: Exchanger, t: Thread, u: Thread) {
    Owned(e, t) !! Owned(e, u)
  }

  // Every node is in the exchanger or with one thread; the exchanger holds a
  // proper list; what was put in has been taken out or is there.
  ghost predicate IsSound(e: Exchanger) {
    && IsChain(e.next, e.head, e.content) && AreDistinct(e.content)
    && (forall t {:trigger ThreadOk(e, t)} :: t in e.work ==> ThreadOk(e, t))
    && (forall t, u {:trigger Apart(e, t, u)} :: t in e.work && u in e.work && t != u ==> Apart(e, t, u))
    && e.inserted == e.removed + multiset(e.content)
  }

  // ----------------------------------------------------------------------- steps

  datatype Step =
    | Write(x: Node, to: Link)
    | Start(list: seq<Node>)
    | LinkLast
    | Push
    | Retry
    | Look
    | TakeAll

  ghost predicate Enabled(e: Exchanger, t: Thread, s: Step) {
    t in e.work && t in e.owned &&
    var w := e.work[t];
    match s
    case Write(x, _) => w.Idle? && x in e.owned[t] && x in e.next
    case Start(l) => w.Idle? && IsList(e.next, l) && AreDistinct(l) && forall x :: x in l ==> x in e.owned[t]
    case LinkLast => w.HasRead? && w.list != []
    case Push => w.HasLinked? && w.list != [] && e.head == w.seen
    case Retry => w.HasLinked? && w.list != [] && e.head != w.seen
    case Look => w.Idle?
    case TakeAll => w.HasSeen?
  }

  ghost function After(e: Exchanger, t: Thread, s: Step): Exchanger
    requires Enabled(e, t, s)
  {
    var w := e.work[t];
    match s
    case Write(x, to) => e.(next := e.next[x := to])
    case Start(l) => e.(work := e.work[t := HasRead(l, e.head)])
    case LinkLast => e.(next := e.next[w.list[|w.list| - 1] := w.seen], work := e.work[t := HasLinked(w.list, w.seen)])
    case Push =>
      e.(head := To(w.list[0]), work := e.work[t := Idle], owned := e.owned[t := e.owned[t] - SetOf(w.list)],
         content := w.list + e.content, inserted := e.inserted + multiset(w.list))
    case Retry => e.(work := e.work[t := HasRead(w.list, e.head)])
    case Look => if e.head == Null then e else e.(work := e.work[t := HasSeen])
    case TakeAll =>
      e.(head := Null, work := e.work[t := Idle], owned := e.owned[t := e.owned[t] + SetOf(e.content)],
         content := [], removed := e.removed + multiset(e.content))
  }

  ghost function SetOf(s: seq<Node>): set<Node> {
    set x | x in s
  }

  lemma {:induction false} ChainFrame(next: map<Node, Link>, next': map<Node, Link>, from: Link, s: seq<Node>)
    requires IsChain(next, from, s) && forall x :: x in s && x in next ==> x in next' && next'[x] == next[x]
    ensures IsChain(next', from, s)
    decreases |s|
  {
    if s != [] {
      assert s[0] in s && forall x :: x in s[1..] ==> x in s;
      ChainFrame(next, next', next[s[0]], s[1..]);
    }
  }

  // A list before a chain is a chain, wherever the chain came from: it is the
  // pointer alone that counts, which is why reuse of nodes does no harm.
  lemma {:induction false} ListBeforeChain(next: map<Node, Link>, l: seq<Node>, from: Link, s: seq<Node>)
    requires IsList(next, l) && IsChain(next, from, s) && next[l[|l| - 1]] == from
    ensures IsChain(next, To(l[0]), l + s)
    decreases |l|
  {
    assert (l + s)[0] == l[0] && (l + s)[1..] == l[1..] + s;
    if |l| == 1 {
      assert l[1..] + s == s;
    } else {
      var r := l[1..];
      assert r[|r| - 1] == l[|l| - 1];
      ListBeforeChain(next, r, from, s);
    }
  }

  // ------------------------------------------------------- every step keeps it sound

  lemma {:induction false} ThreadIs(e: Exchanger, t: Thread)
    requires IsSound(e) && t in e.work
    ensures ThreadOk(e, t)
  {}

  lemma {:induction false} ApartIs(e: Exchanger, t: Thread, u: Thread)
    requires IsSound(e) && t in e.work && u in e.work && t != u
    ensures Apart(e, t, u)
  {
    assert Apart(e, t, u);
  }

  ghost predicate SameThread(e: Exchanger, e': Exchanger, u: Thread) {
    u in e.work && u in e'.work && e'.work[u] == e.work[u]
        && (u in e.owned ==> u in e'.owned && e'.owned[u] == e.owned[u])
  }

  // Writes to nodes that a thread owns do not concern the other threads.
  lemma {:induction false} OthersKept(e: Exchanger, e': Exchanger, t: Thread, u: Thread, x: Node)
    requires IsSound(e) && t in e.work && u in e.work && u != t && x in Owned(e, t)
    requires SameThread(e, e', u)
    requires (forall y :: y in e.next ==> y in e'.next && (y != x ==> e'.next[y] == e.next[y]))
    requires forall y :: y in e'.content ==> y in e.content || y in Owned(e, t)
    ensures ThreadOk(e', u)
  {
    ThreadIs(e, u);
    ApartIs(e, t, u);
    var l := ListOf(e.work[u]);
    assert forall i :: 0 <= i < |l| ==> l[i] in l;
  }

  // The other threads, after a step of thread t that owns x and changes at most
  // its link, and that moves nodes only between itself and the exchanger.
  ghost predicate OnlyTouches(e: Exchanger, e': Exchanger, t: Thread, x: Node) {
    && x in Owned(e, t) && (forall u :: u in e'.work ==> u in e.work) && t in e'.owned
    && (forall u {:trigger SameThread(e, e', u)} :: u in e.work && u != t ==> SameThread(e, e', u))
    && (forall y :: y in e.next ==> y in e'.next && (y != x ==> e'.next[y] == e.next[y]))
    && (forall y :: y in e'.content ==> y in e.content || y in Owned(e, t))
    && (forall y :: y in e'.owned[t] ==> y in e.content || y in Owned(e, t))
  }

  lemma {:induction false} StaysApart(e: Exchanger, e': Exchanger, t: Thread, x: Node, u: Thread)
    requires IsSound(e) && t in e.work && OnlyTouches(e, e', t, x) && u in e.work && u != t
    ensures Owned(e', t) !! Owned(e', u)
  {
    assert SameThread(e, e', u);
    ApartIs(e, t, u);
    ThreadIs(e, u);
    forall y | y in Owned(e', u) ensures y !in Owned(e', t) {
      assert y in Owned(e, u) && y !in e.content && y !in Owned(e, t);
    }
  }

  lemma {:induction false} SoundAgain(e: Exchanger, e': Exchanger, t: Thread, x: Node)
    requires IsSound(e) && t in e.work && OnlyTouches(e, e', t, x) && ThreadOk(e', t)
    requires IsChain(e'.next, e'.head, e'.content) && AreDistinct(e'.content)
        && e'.inserted == e'.removed + multiset(e'.content)
    ensures IsSound(e')
  {
    hide IsChain, IsList, AreDistinct;
    forall u | u in e'.work ensures ThreadOk(e', u) {
      if u != t {
        assert SameThread(e, e', u);
        OthersKept(e, e', t, u, x);
      }
    }
    forall u, v | u in e'.work && v in e'.work && u != v ensures Apart(e', u, v) {
      if v == t {
        StaysApart(e, e', t, x, u);
      } else if u == t {
        StaysApart(e, e', t, x, v);
      } else {
        ApartIs(e, u, v);
        ThreadIs(e, u);
        ThreadIs(e, v);
        assert SameThread(e, e', u) && SameThread(e, e', v);
      }
    }
  }

  lemma {:induction false} WriteIsSound(e: Exchanger, t: Thread, x: Node, to: Link)
    requires IsSound(e) && Enabled(e, t, Write(x, to))
    ensures IsSound(After(e, t, Write(x, to)))
  {
    var e' := After(e, t, Write(x, to));
    ThreadIs(e, t);
    ChainFrame(e.next, e'.next, e.head, e.content);
    SoundAgain(e, e', t, x);
  }

  lemma {:induction false} StartIsSound(e: Exchanger, t: Thread, l: seq<Node>)
    requires IsSound(e) && Enabled(e, t, Start(l))
    ensures IsSound(After(e, t, Start(l)))
  {
    ThreadIs(e, t);
    assert l[0] in l;
    SoundAgain(e, After(e, t, Start(l)), t, l[0]);
  }

  lemma {:induction false} LinkIsSound(e: Exchanger, t: Thread)
    requires IsSound(e) && Enabled(e, t, LinkLast)
    ensures IsSound(After(e, t, LinkLast))
  {
    var e', l := After(e, t, LinkLast), e.work[t].list;
    ThreadIs(e, t);
    assert l[|l| - 1] in l;
    ChainFrame(e.next, e'.next, e.head, e.content);
    assert IsList(e'.next, l);
    SoundAgain(e, e', t, l[|l| - 1]);
  }

  lemma {:induction false} PushIsSound(e: Exchanger, t: Thread)
    requires IsSound(e) && Enabled(e, t, Push)
    ensures IsSound(After(e, t, Push))
  {
    var e', l := After(e, t, Push), e.work[t].list;
    ThreadIs(e, t);
    ListBeforeChain(e.next, l, e.head, e.content);
    forall i, j | 0 <= i < j < |l + e.content| ensures (l + e.content)[i] != (l + e.content)[j] {
      if i < |l| <= j {
        assert l[i] in l && e.content[j - |l|] in e.content;
      }
    }
    assert l[0] in l;
    SoundAgain(e, e', t, l[0]);
  }

  lemma {:induction false} ChainNodes(next: map<Node, Link>, from: Link, s: seq<Node>, x: Node)
    requires IsChain(next, from, s) && x in s
    ensures x in next
    decreases |s|
  {
    if x != s[0] {
      assert x in s[1..];
      ChainNodes(next, next[s[0]], s[1..], x);
    }
  }

  lemma {:induction false} TakeIsSound(e: Exchanger, t: Thread)
    requires IsSound(e) && Enabled(e, t, TakeAll)
    ensures IsSound(After(e, t, TakeAll))
  {
    var e' := After(e, t, TakeAll);
    ThreadIs(e, t);
    forall u | u in e'.work ensures ThreadOk(e', u) {
      ThreadIs(e, u);
      if u == t {
        forall x | x in e.content ensures x in e.next { ChainNodes(e.next, e.head, e.content, x); }
      }
    }
    forall u, v | u in e'.work && v in e'.work && u != v ensures Apart(e', u, v) {
      ApartIs(e, u, v);
      ThreadIs(e, u);
      ThreadIs(e, v);
    }
  }

  lemma {:induction false} QuietIsSound(e: Exchanger, t: Thread, s: Step)
    requires IsSound(e) && Enabled(e, t, s) && (s.Retry? || s.Look?)
    ensures IsSound(After(e, t, s))
  {
    var e' := After(e, t, s);
    forall u | u in e'.work ensures ThreadOk(e', u) { ThreadIs(e, u); }
    forall u, v | u in e'.work && v in e'.work && u != v ensures Apart(e', u, v) { ApartIs(e, u, v); }
  }

  lemma {:induction false} StepIsSound(e: Exchanger, t: Thread, s: Step)
    requires IsSound(e) && Enabled(e, t, s)
    ensures IsSound(After(e, t, s))
  {
    hide IsSound, Enabled, After;
    match s
    case Write(x, to) => WriteIsSound(e, t, x, to);
    case Start(l) => StartIsSound(e, t, l);
    case LinkLast => LinkIsSound(e, t);
    case Push => PushIsSound(e, t);
    case Retry => QuietIsSound(e, t, s);
    case Look => QuietIsSound(e, t, s);
    case TakeAll => TakeIsSound(e, t);
  }

  // No node is lost: it is in the exchanger or with a thread.
  ghost predicate HasPlace(e: Exchanger, x: Node) {
    x in e.content || exists t :: t in e.owned && x in e.owned[t]
  }

  lemma {:induction false} StepLosesNone(e: Exchanger, t: Thread, s: Step, x: Node)
    requires Enabled(e, t, s) && HasPlace(e, x)
    ensures HasPlace(After(e, t, s), x)
  {
    var e' := After(e, t, s);
    if x !in e'.content {
      if x in e.content {
        assert x in e'.owned[t];
      } else {
        var u :| u in e.owned && x in e.owned[u];
        assert u in e'.owned && x in e'.owned[u];
      }
    }
  }

  ghost predicate Follows(run: seq<Exchanger>, i: nat)
    requires i + 1 < |run|
  {
    exists t, s :: Enabled(run[i], t, s) && run[i + 1] == After(run[i], t, s)
  }

  ghost predicate IsRun(run: seq<Exchanger>) {
    forall i {:trigger Follows(run, i)} :: 0 <= i < |run| - 1 ==> Follows(run, i)
  }

  ghost predicate IsEmpty(e: Exchanger) {
    && e.head == Null && e.content == [] && e.inserted == multiset{} && e.removed == multiset{}
    && (forall t {:trigger ThreadOk(e, t)} :: t in e.work ==> ThreadOk(e, t) && e.work[t].Idle?)
    && (forall t, u {:trigger Apart(e, t, u)} :: t in e.work && u in e.work && t != u ==> Apart(e, t, u))
  }

  // In every interleaving of insertions and removals, with any reuse of nodes:
  // from the head a list without repetition leads to its end, each node is in
  // one place, and each insertion of a node has been handed out once or is still
  // waiting.
  lemma {:induction false} RunIsSound(run: seq<Exchanger>, n: nat, x: Node)
    requires n < |run| && IsRun(run) && IsEmpty(run[0])
    ensures IsSound(run[n]) && run[n].inserted[x] == run[n].removed[x] + if x in run[n].content then 1 else 0
    ensures HasPlace(run[0], x) ==> HasPlace(run[n], x)
  {
    hide Enabled, After;
    if n > 0 {
      RunIsSound(run, n - 1, x);
      assert Follows(run, n - 1);
      var t, s :| Enabled(run[n - 1], t, s) && run[n - 1 + 1] == After(run[n - 1], t, s);
      StepIsSound(run[n - 1], t, s);
      if HasPlace(run[0], x) {
        StepLosesNone(run[n - 1], t, s, x);
      }
    }
    OnceEach(run[n].content, x);
  }

  lemma {:induction false} OnceEach(s: seq<Node>, x: Node)
    requires AreDistinct(s)
    ensures multiset(s)[x] == if x in s then 1 else 0
  {
    if s != [] {
      var r := s[1..];
      assert s == [s[0]] + r && AreDistinct(r);
      OnceEach(r, x);
      assert x == s[0] ==> x !in r;
    }
  }

  // ---------------------------------------------------- what an operation comes to

  // In the middle of an operation a thread has exactly one step to take, and after a
  // failed exchange it knows the head as it is.
  lemma {:induction false} GoesOn(e: Exchanger, t: Thread)
    requires IsSound(e) && t in e.work
    ensures match e.work[t]
            case Idle => Enabled(e, t, Look) && forall x, to :: x in e.owned[t] ==> Enabled(e, t, Write(x, to))
            case HasRead(_, _) => Enabled(e, t, LinkLast)
            case HasLinked(_, seen) =>
              (Enabled(e, t, Push) <==> e.head == seen) && (Enabled(e, t, Retry) <==> e.head != seen)
            case HasSeen => Enabled(e, t, TakeAll)
    ensures Enabled(e, t, Retry) ==> After(e, t, Retry).work[t] == HasRead(e.work[t].list, e.head)
  {
    hide IsChain, AreDistinct;
    ThreadIs(e, t);
  }

  // The same exchanger, as far as the other threads are concerned.
  ghost predicate SameOthers(e: Exchanger, e': Exchanger, t: Thread) {
    && e'.work.Keys == e.work.Keys && e'.owned.Keys == e.owned.Keys
    && forall u ::
          u in e.work && u in e.owned && u != t ==>
            u in e'.owned && e'.work[u] == e.work[u] && e'.owned[u] == e.owned[u]
  }

  // A removal ends at once, with nothing, exactly when there is nothing.
  lemma {:induction false} LooksEmpty(e: Exchanger, t: Thread)
    requires IsSound(e) && t in e.work && e.work[t] == Idle
    ensures Enabled(e, t, Look)
    ensures if e.content == [] then After(e, t, Look) == e else After(e, t, Look).work[t] == HasSeen
    ensures e.content != [] ==> After(e, t, Look) == e.(work := e.work[t := HasSeen])
  {
    hide AreDistinct;
    ThreadIs(e, t);
  }

  // Otherwise it takes everything, while nobody else moves: the old head leads the
  // thread through all that was there, and nothing is left.
  lemma {:induction false} TakeAlone(e: Exchanger, t: Thread)
    requires IsSound(e) && t in e.work && e.work[t] == Idle && e.content != []
    ensures Enabled(e, t, Look) && Enabled(After(e, t, Look), t, TakeAll)
    ensures var e' := After(After(e, t, Look), t, TakeAll);
            && IsSound(e') && e'.work[t] == Idle && e'.content == [] && e'.head == Null && e'.next == e.next
            && e'.owned[t] == e.owned[t] + SetOf(e.content) && IsChain(e'.next, e.head, e.content)
            && e'.removed == e.removed + multiset(e.content) && e'.inserted == e.inserted && SameOthers(e, e', t)
  {
    hide IsChain, AreDistinct;
    LooksEmpty(e, t);
    StepIsSound(e, t, Look);
    var e1 := After(e, t, Look);
    StepIsSound(e1, t, TakeAll);
  }

  // An insertion, while nobody else moves: the list comes before what was there,
  // whether there was anything or not.
  lemma {:induction false} InsertAlone(e: Exchanger, t: Thread, l: seq<Node>) returns (e': Exchanger)
    requires IsSound(e) && t in e.work && e.work[t] == Idle && t in e.owned
    requires IsList(e.next, l) && AreDistinct(l) && forall x :: x in l ==> x in e.owned[t]
    ensures Enabled(e, t, Start(l))
    ensures var e1 := After(e, t, Start(l));
            && Enabled(e1, t, LinkLast) && Enabled(After(e1, t, LinkLast), t, Push)
            && e' == After(After(e1, t, LinkLast), t, Push)
    ensures IsInserted(e, e', t, l)
  {
    hide IsChain, AreDistinct, IsList;
    StepIsSound(e, t, Start(l));
    ThreadIs(After(e, t, Start(l)), t);
    e' := LinkAndPush(After(e, t, Start(l)), t, l);
  }

  // An insertion that has read the head before it changed needs one more round.
  lemma {:induction false} InsertAgain(e: Exchanger, t: Thread, l: seq<Node>) returns (e': Exchanger)
    requires IsSound(e) && t in e.work && e.work[t].HasLinked? && e.work[t].list == l && e.work[t].seen != e.head
    ensures Enabled(e, t, Retry)
    ensures var e1 := After(e, t, Retry);
            && Enabled(e1, t, LinkLast) && Enabled(After(e1, t, LinkLast), t, Push)
            && e' == After(After(e1, t, LinkLast), t, Push)
    ensures IsInserted(e, e', t, l)
  {
    hide IsChain, AreDistinct, IsList;
    GoesOn(e, t);
    StepIsSound(e, t, Retry);
    e' := LinkAndPush(After(e, t, Retry), t, l);
  }

  ghost predicate IsInserted(e: Exchanger, e': Exchanger, t: Thread, l: seq<Node>) {
    && IsSound(e') && t in e'.work && e'.work[t] == Idle && e'.content == l + e.content
    && t in e.owned && t in e'.owned && e'.owned[t] == e.owned[t] - SetOf(l) && e'.inserted == e.inserted + multiset(l)
    && e'.removed == e.removed && SameOthers(e, e', t)
  }

  lemma {:induction false} LinkAndPush(e: Exchanger, t: Thread, l: seq<Node>) returns (e': Exchanger)
    requires IsSound(e) && t in e.work && e.work[t] == HasRead(l, e.head)
    ensures Enabled(e, t, LinkLast) && Enabled(After(e, t, LinkLast), t, Push)
    ensures e' == After(After(e, t, LinkLast), t, Push) && IsInserted(e, e', t, l)
  {
    hide IsChain, AreDistinct, IsList;
    ThreadIs(e, t);
    StepIsSound(e, t, LinkLast);
    var e1 := After(e, t, LinkLast);
    StepIsSound(e1, t, Push);
    e' := After(e1, t, Push);
  }

  // The word that a thread has read may have been away and come back in between:
  // the insertion succeeds all the same, in front of what is there now.
  lemma {:induction false} PushMeetsPresent(e: Exchanger, t: Thread)
    requires IsSound(e) && Enabled(e, t, Push)
    ensures After(e, t, Push).content == e.work[t].list + e.content
    ensures IsChain(After(e, t, Push).next, After(e, t, Push).head, e.work[t].list + e.content)
  {
    PushIsSound(e, t);
  }
}
