// Singly linked lists on the heap, and turning them round in place.
module LsList {

  class Node {
    var next: Node?

    constructor ()
      ensures next == null
    {
      next := null;
    }
  }

  function Reversed<T>(s: seq<T>): (r: seq<T>)
    ensures |r| == |s|
  {
    if s == [] then [] else Reversed(s[1..]) + [s[0]]
  }

  lemma {:induction false} ReversedAt<T>(s: seq<T>, i: nat)
    requires i < |s|
    ensures Reversed(s)[i] == s[|s| - 1 - i]
  {
    if i < |s| - 1 {
      ReversedAt(s[1..], i);
    }
  }

  lemma {:induction false} ReversedHolds<T>(s: seq<T>, x: T)
    ensures x in Reversed(s) <==> x in s
  {
    if s != [] {
      ReversedHolds(s[1..], x);
      assert s == [s[0]] + s[1..];
    }
  }

  // Turning round twice changes nothing.
  lemma {:induction false} ReversedTwice<T>(s: seq<T>)
    ensures Reversed(Reversed(s)) == s
  {
    var r := Reversed(s);
    forall i | 0 <= i < |s| ensures Reversed(r)[i] == s[i] {
      ReversedAt(r, i);
      ReversedAt(s, |s| - 1 - i);
    }
  }

  // The node at this place of a list, or what comes after the list.
  function At(s: seq<Node>, i: nat, end: Node?): Node? {
    if i < |s| then s[i] else end
  }

  // From this node on, the list goes through these nodes to its end: null, or
  // the head for a list that goes round.
  ghost predicate IsChain(from: Node?, s: seq<Node>, end: Node?)
    reads s
  {
    from == At(s, 0, end) && forall i {:trigger s[i]} :: 0 <= i < |s| ==> s[i].next == At(s, i + 1, end)
  }

  predicate AreDistinct(s: seq<Node>) {
    forall i, j {:trigger s[i], s[j]} :: 0 <= i < j < |s| ==> s[i] != s[j]
  }

  lemma {:induction false} EndIsAtEnd(s: seq<Node>, n: nat, end: Node?)
    requires end !in s
    ensures n < |s| <==> At(s, n, end) != end
  {
    assert n < |s| ==> s[n] in s;
  }

  // A list that comes to its end meets no node twice.
  lemma {:induction false} ChainIsDistinct(from: Node?, s: seq<Node>, end: Node?)
    requires IsChain(from, s, end) && end !in s
    ensures AreDistinct(s)
  {
    forall i, j | 0 <= i < j < |s| ensures s[i] != s[j] { NeverAgain(from, s, end, i, j); }
  }

  lemma {:induction false} NeverAgain(from: Node?, s: seq<Node>, end: Node?, i: nat, j: nat)
    requires IsChain(from, s, end) && end !in s && i < j < |s|
    ensures s[i] != s[j]
    decreases |s| - j
  {
    if j + 1 < |s| {
      NeverAgain(from, s, end, i + 1, j + 1);
      assert s[j].next == s[j + 1] && s[i].next == s[i + 1];
    } else {
      assert s[j].next == end && s[i].next == s[i + 1] && s[i + 1] in s;
    }
  }

  // A list without a node twice is read off the links.
  lemma {:induction false} ChainIsUnique(from: Node?, s: seq<Node>, r: seq<Node>)
    requires IsChain(from, s, null) && IsChain(from, r, null)
    ensures s == r
    decreases |s|
  {
    if s != [] && r != [] {
      assert s[0].next == r[0].next;
      assert IsChain(s[0].next, s[1..], null) by {
        forall i | 0 <= i < |s[1..]| ensures s[1..][i].next == At(s[1..], i + 1, null) { assert s[1..][i] == s[i + 1]; }
      }
      assert IsChain(s[0].next, r[1..], null) by {
        forall i | 0 <= i < |r[1..]| ensures r[1..][i].next == At(r[1..], i + 1, null) { assert r[1..][i] == r[i + 1]; }
      }
      ChainIsUnique(s[0].next, s[1..], r[1..]);
      assert s == [s[0]] + s[1..] && r == [r[0]] + r[1..];
    }
  }

  ghost function Links(s: seq<Node>): (r: seq<Node?>)
    reads s
    ensures |r| == |s| && forall i {:trigger r[i]} :: 0 <= i < |s| ==> r[i] == s[i].next
  {
    seq(|s|, i requires 0 <= i < |s| reads s => s[i].next)
  }

  ghost predicate LeadsOn(s: seq<Node>, links: seq<Node?>, i: nat, end: Node?)
    requires i < |s| == |links|
  {
    links[i] == At(s, i + 1, end)
  }

  ghost predicate LeadsBack(s: seq<Node>, links: seq<Node?>, i: nat, first: Node?)
    requires i < |s| == |links|
  {
    links[i] == if i == 0 then first else s[i - 1]
  }

  // While a list is turned round: the first n nodes lead backwards to the end,
  // the others still lead forwards.
  ghost predicate IsTurned(s: seq<Node>, links: seq<Node?>, n: nat, first: Node?, end: Node?) {
    && n <= |s| == |links|
    && (forall i {:trigger LeadsBack(s, links, i, first)} :: 0 <= i < n ==> LeadsBack(s, links, i, first))
    && (forall i {:trigger LeadsOn(s, links, i, end)} :: n <= i < |s| ==> LeadsOn(s, links, i, end))
  }

  lemma {:induction false} NoneTurned(from: Node?, s: seq<Node>, first: Node?, end: Node?)
    requires IsChain(from, s, end)
    ensures IsTurned(s, Links(s), 0, first, end)
  {
    forall i | 0 <= i < |s| ensures LeadsOn(s, Links(s), i, end) { assert s[i].next == At(s, i + 1, end); }
  }

  // One more node turned: its link now leads back.
  lemma {:induction false} TurnOne(s: seq<Node>, links: seq<Node?>, n: nat, first: Node?, end: Node?)
    requires n < |s| && IsTurned(s, links, n, first, end) && AreDistinct(s)
    requires LeadsBack(s, Links(s), n, first)
    requires forall i {:trigger links[i]} :: 0 <= i < |s| && i != n ==> s[i].next == links[i]
    ensures IsTurned(s, Links(s), n + 1, first, end)
  {
    forall i | 0 <= i < n ensures LeadsBack(s, Links(s), i, first) { assert LeadsBack(s, links, i, first); }
    forall i | n < i < |s| ensures LeadsOn(s, Links(s), i, end) { assert LeadsOn(s, links, i, end); }
  }

  lemma {:induction false} AllTurned(s: seq<Node>, end: Node?)
    requires IsTurned(s, Links(s), |s|, end, end)
    ensures (forall x :: x in Reversed(s) <==> x in s)
    ensures IsChain(if s == [] then end else s[|s| - 1], Reversed(s), end)
  {
    var r := Reversed(s);
    forall x ensures x in r <==> x in s { ReversedHolds(s, x); }
    if s != [] { ReversedAt(s, 0); }
    forall i | 0 <= i < |r| ensures r[i].next == At(r, i + 1, end) {
      ReversedAt(s, i);
      assert LeadsBack(s, Links(s), |s| - 1 - i, end);
      if i + 1 < |r| { ReversedAt(s, i + 1); }
    }
  }

  lemma {:induction false} ShortIsTurned(head: Node?, s: seq<Node>)
    requires IsChain(head, s, null) && (head == null || head.next == null)
    ensures IsChain(head, Reversed(s), null) && forall x :: x in Reversed(s) <==> x in s
  {
    assert s == [] || s == [head];
    assert Reversed(s) == s;
  }

  // The step of all three loops below: the node under the cursor is made to lead
  // back, and the cursor goes on.
  method TurnNode(cursor: Node, to: Node?, ghost s: seq<Node>, ghost n: nat, ghost first: Node?, ghost end: Node?)
    returns (rest: Node?)
    requires AreDistinct(s) && n < |s| && cursor == s[n] && to == (if n == 0 then first else s[n - 1])
    requires IsTurned(s, Links(s), n, first, end)
    modifies cursor
    ensures rest == At(s, n + 1, end) && IsTurned(s, Links(s), n + 1, first, end)
  {
    assert LeadsOn(s, Links(s), n, end);
    rest := cursor.next;
    ghost var links := Links(s);
    cursor.next := to;
    forall i | 0 <= i < |s| && i != n ensures s[i].next == links[i] { assert s[i] != s[n]; }
    TurnOne(s, links, n, first, end);
  }

  method ReverseNull(head: Node?, ghost s: seq<Node>) returns (r: Node?)
    requires IsChain(head, s, null)
    modifies s
    ensures IsChain(r, Reversed(s), null)
    ensures forall x :: x in Reversed(s) <==> x in s
  {
    hide AreDistinct, Reversed, IsTurned;
    if head == null || head.next == null {
      ShortIsTurned(head, s);
      return head;
    }
    ChainIsDistinct(head, s, null);
    NoneTurned(head, s, null, null);
    r := head;
    var cursor := TurnNode(head, null, s, 0, null, null);
    ghost var n := 1;
    while cursor != null
      invariant 1 <= n <= |s| && r == s[n - 1] && cursor == At(s, n, null)
      invariant IsTurned(s, Links(s), n, null, null)
      decreases |s| - n
    {
      var rest := TurnNode(cursor, r, s, n, null, null);
      r := cursor;
      cursor := rest;
      n := n + 1;
    }
    AllTurned(s, null);
  }

  method ReverseCount(head: Node?, ghost s: seq<Node>) returns (r: Node?, count: int)
    requires IsChain(head, s, null)
    modifies s
    ensures IsChain(r, Reversed(s), null) && count == |s|
    ensures forall x :: x in Reversed(s) <==> x in s
  {
    hide AreDistinct, Reversed, IsTurned;
    r, count := head, 0;
    if head == null {
      ShortIsTurned(head, s);
      return;
    }
    ChainIsDistinct(head, s, null);
    NoneTurned(head, s, null, null);
    count := 1;
    var cursor := TurnNode(head, null, s, 0, null, null);
    while cursor != null
      invariant 1 <= count <= |s| && r == s[count - 1] && cursor == At(s, count, null)
      invariant IsTurned(s, Links(s), count, null, null)
      decreases |s| - count
    {
      var rest := TurnNode(cursor, r, s, count, null, null);
      r := cursor;
      cursor := rest;
      count := count + 1;
    }
    AllTurned(s, null);
  }

  // The list that goes round: from its head through all nodes back to it.
  method Reverse(head: Node, ghost s: seq<Node>)
    requires IsChain(head.next, s, head) && head !in s
    modifies head, s
    ensures IsChain(head.next, Reversed(s), head)
    ensures forall x :: x in Reversed(s) <==> x in s
  {
    hide AreDistinct, Reversed, IsTurned;
    ChainIsDistinct(head.next, s, head);
    NoneTurned(head.next, s, head, head);
    var cursor, last := head.next, head;
    ghost var n := 0;
    while cursor != head
      invariant 0 <= n <= |s| && last == (if n == 0 then head else s[n - 1]) && cursor == At(s, n, head)
      invariant IsTurned(s, Links(s), n, head, head)
      decreases |s| - n
    {
      var rest := TurnNode(cursor, last, s, n, head, head);
      last := cursor;
      cursor := rest;
      n := n + 1;
    }
    EndIsAtEnd(s, n, head);
    ghost var links := Links(s);
    cursor.next := last;
    assert Links(s) == links;
    AllTurned(s, head);
  }
}
