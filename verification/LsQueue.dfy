// The lock-free queue as one thread sees it when nobody else is at work: a list
// of new nodes, youngest first, and a list of old ones, oldest first, that is
// filled up from the other when it has run out.
module LsQueue {
  import opened LsList

  // What the two lists hold, oldest first.
  function Joined(front: seq<Node>, back: seq<Node>): (r: seq<Node>) {
    front + Reversed(back)
  }

  lemma {:induction false} JoinedSnoc(front: seq<Node>, back: seq<Node>, x: Node)
    ensures Joined(front, [x] + back) == Joined(front, back) + [x]
    ensures x !in Joined(front, back) <==> x !in front && x !in back
  {
    assert ([x] + back)[1..] == back;
    ReversedHolds(back, x);
  }

  lemma {:induction false} JoinedFirst(front: seq<Node>, back: seq<Node>)
    requires front != []
    ensures Joined(front, back) != [] && Joined(front, back)[0] == front[0]
    ensures Joined(front[1..], back) == Joined(front, back)[1..]
  {}

  lemma {:induction false} JoinedEmpty(front: seq<Node>, back: seq<Node>)
    ensures Joined(front, back) == [] <==> front == [] && back == []
  {}

  lemma {:induction false} JoinedMoved(back: seq<Node>)
    ensures Joined([], back) == Reversed(back) == Joined(Reversed(back), [])
  {
    assert Reversed(back) + [] == Reversed(back);
  }

  lemma {:induction false} JoinedCut(front: seq<Node>, back: seq<Node>, k: nat)
    requires k <= |front|
    ensures front[..k] + Joined(front[k..], back) == Joined(front, back)
    ensures (forall x :: x in front[k..] ==> x in front)
  {
    assert front == front[..k] + front[k..];
  }

  lemma {:induction false} NoNodes()
    ensures IsChain(null, [], null)
  {}

  lemma {:induction false} Prepended(x: Node, from: Node?, s: seq<Node>)
    requires IsChain(from, s, null) && x.next == from
    ensures IsChain(x, [x] + s, null)
  {
    var r := [x] + s;
    forall i | 0 <= i < |r| ensures r[i].next == At(r, i + 1, null) {
      if i > 0 { assert r[i] == s[i - 1] && s[i - 1].next == At(s, i, null); }
    }
  }

  lemma {:induction false} Rest(from: Node, s: seq<Node>)
    requires IsChain(from, s, null)
    ensures s != [] && s[0] == from && from !in s[1..] && IsChain(from.next, s[1..], null)
  {
    var r := s[1..];
    ChainIsDistinct(from, s, null);
    assert s == [from] + r;
    forall i | 0 <= i < |r| ensures r[i].next == At(r, i + 1, null) && r[i] != from {
      assert r[i] == s[i + 1] && s[i + 1].next == At(s, i + 2, null);
    }
    assert s[0].next == At(s, 1, null);
  }

  // Once the link of the node at k - 1 is cut, there are two lists.
  lemma {:induction false} CutInTwo(from: Node?, rest: Node?, s: seq<Node>, links: seq<Node?>, k: nat)
    requires 0 < k <= |s| == |links| && from == s[0] && rest == At(s, k, null)
    requires forall i {:trigger s[i]} :: 0 <= i < |s| ==> s[i].next == if i == k - 1 then null else links[i]
    requires forall i {:trigger links[i]} :: 0 <= i < |s| ==> links[i] == At(s, i + 1, null)
    ensures IsChain(from, s[..k], null) && IsChain(rest, s[k..], null)
  {
    var a, b := s[..k], s[k..];
    forall i | 0 <= i < |a| ensures a[i].next == At(a, i + 1, null) {
      assert a[i] == s[i];
    }
    forall i | 0 <= i < |b| ensures b[i].next == At(b, i + 1, null) {
      var j := k + i;
      assert b[i] == s[j] && s[j].next == links[j];
    }
  }

  class Queue {
    var head: Node?
    var tail: Node?
    var count: int
    ghost var front: seq<Node>
    ghost var back: seq<Node>

    ghost predicate Valid()
      reads this, front, back
    {
      IsChain(head, back, null) && IsChain(tail, front, null) && forall x :: x in front ==> x !in back
    }

    ghost function Content(): seq<Node>
      reads this
    {
      Joined(front, back)
    }

    ghost predicate IsCounted()
      reads this
    {
      count == |Content()|
    }

    constructor ()
      ensures Valid() && IsCounted() && Content() == []
    {
      head, tail, count := null, null, 0;
      front, back := [], [];
    }

    method Insert(node: Node)
      requires Valid() && node !in Content()
      modifies this, node
      ensures Valid() && Content() == old(Content()) + [node]
      ensures front == old(front) && back == [node] + old(back) && count == old(count) + 1
      ensures old(IsCounted()) ==> IsCounted()
    {
      JoinedSnoc(front, back, node);
      node.next := head;
      Prepended(node, head, back);
      head := node;
      back := [node] + back;
      count := count + 1;
    }

    // The list of old nodes has run out: the new ones take its place, turned round.
    method TakeOver()
      requires Valid()
      modifies this, back
      ensures Valid() && Content() == old(Content()) && count == old(count)
      ensures front == if old(front) == [] then old(Content()) else old(front)
      ensures old(front) == [] ==> back == []
      ensures old(front) != [] ==> back == old(back)
      ensures forall x :: x in front ==> x in old(front) || x in old(back)
    {
      hide Reversed, AreDistinct;
      if tail == null {
        assert front == [];
        JoinedMoved(back);
        head, tail := null, head;
        ghost var s := back;
        front, back := s, [];
        tail := ReverseNull(tail, s);
        front := Reversed(s);
      } else {
        assert front != [];
      }
    }

    // The oldest node, or null when there is none.
    method Remove() returns (r: Node?)
      requires Valid() && IsCounted()
      modifies this, back, front
      ensures Valid() && IsCounted()
      ensures old(Content()) == [] ==> r == null && Content() == []
      ensures old(Content()) != [] ==> r == old(Content())[0] && r.next == null && Content() == old(Content())[1..]
      ensures old(Content()) != [] ==> front == (if old(front) == [] then old(Content()) else old(front))[1..]
    {
      hide Reversed, AreDistinct, Joined;
      if count == 0 {
        return null;
      }
      count := count - 1;
      TakeOver();
      assert front != [] by { JoinedEmpty(front, back); }
      JoinedFirst(front, back);
      assert front[0] in front;
      r := GiveFirst();
    }

    method GiveFirst() returns (r: Node)
      requires Valid() && front != []
      modifies this, front[0]
      ensures Valid() && r == old(front[0]) && r.next == null && front == old(front[1..]) && back == old(back)
          && count == old(count)
    {
      hide Reversed, AreDistinct, Joined;
      r := tail;
      Rest(r, front);
      assert r in front;
      tail := r.next;
      r.next := null;
      front := front[1..];
    }

    // Everything that the old list holds, or all there is when it is empty. The
    // count follows only the nodes that change over.
    method RemoveList() returns (r: Node?, ghost out: seq<Node>)
      requires Valid()
      modifies this, back
      ensures Valid() && out + Content() == old(Content()) && IsChain(r, out, null)
      ensures out == if old(front) == [] then old(Content()) else old(front)
      ensures front == [] && count == old(count) - if old(front) == [] then |out| else 0
      ensures old(IsCounted()) ==> (IsCounted() <==> old(front) == [])
    {
      hide Reversed, AreDistinct;
      if tail == null {
        assert front == [];
        JoinedMoved(back);
        ghost var s := back;
        tail := head;
        head := null;
        var n: int;
        tail, n := ReverseCount(tail, s);
        count := count - n;
        front, back := Reversed(s), [];
      } else {
        assert front != [];
      }
      r := tail;
      out := front;
      tail := null;
      front := [];
      JoinedMoved(back);
    }

    // A number of nodes, the oldest ones: at least one, and no more than there
    // are in the old list once it has been filled up.
    method RemoveListByCount(want: int) returns (r: Node?, got: int, ghost out: seq<Node>)
      requires Valid() && IsCounted()
      modifies this, back, front
      ensures Valid() && IsCounted() && out + Content() == old(Content()) && IsChain(r, out, null)
      ensures old(Content()) == [] ==> out == [] && got == want
      ensures old(Content()) != [] ==>
        var n := if old(front) == [] then |old(Content())| else |old(front)|;
        && got == |out| == (if want <= 1 then 1 else if want < n then want else n)
        && front == (if old(front) == [] then old(Content()) else old(front))[got..]
    {
      hide Reversed, AreDistinct, Joined, IsChain;
      NoNodes();
      if count == 0 {
        return null, want, [];
      }
      TakeOver();
      assert front != [] by { JoinedEmpty(front, back); }
      ghost var s := front;
      r, got := TakeUpTo(want);
      out := s[..got];
      JoinedCut(s, back, got);
      count := count - got;
    }

    // The first nodes of the old list, at most this many but at least one.
    method TakeUpTo(want: int) returns (r: Node?, got: int)
      requires Valid() && front != []
      modifies this, set x | x in front
      ensures got == if want <= 1 then 1 else if want < |old(front)| then want else |old(front)|
      ensures Valid() && IsChain(r, old(front)[..got], null) && front == old(front)[got..] && back == old(back)
          && count == old(count)
    {
      hide Reversed, AreDistinct, Joined;
      ghost var s := front;
      r := tail;
      var tmp := tail;
      var i := 1;
      while i < want && tmp != null
        invariant 1 <= i <= |front| + 1 && (i > 1 ==> i <= want) && tmp == At(front, i - 1, null)
        decreases want - i
      {
        i := i + 1;
        tmp := tmp.next;
      }
      JoinedCut(s, back, if tmp == null then i - 1 else i);
      if tmp != null {
        assert tmp == s[i - 1] && tmp in front;
        tail := CutAfter(tmp, front, i);
        got := i;
      } else {
        tail := null;
        got := i - 1;
        assert front[..got] == front && front[got..] == [];
      }
      front := front[got..];
    }
  }

  // The list ends at this node, and another one begins after it.
  method CutAfter(last: Node, ghost s: seq<Node>, ghost k: nat) returns (rest: Node?)
    requires 0 < k <= |s| && last == s[k - 1] && IsChain(s[0], s, null)
    modifies last
    ensures rest == At(s, k, null) && IsChain(s[0], s[..k], null) && IsChain(rest, s[k..], null)
  {
    ghost var links := Links(s);
    ChainIsDistinct(s[0], s, null);
    rest := last.next;
    last.next := null;
    forall j | 0 <= j < |s| ensures s[j].next == if j == k - 1 then null else links[j] {
      assert j != k - 1 ==> s[j] != s[k - 1];
    }
    CutInTwo(s[0], rest, s, links, k);
  }
}
