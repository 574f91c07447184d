// What a matcher is to find: the rules, with the stretches of the input that
// their wildcards stand for. Partial matches are described by items, and each
// item at one place of the input has one origin at the place before.
module RmItems {
  import opened RtLinks
  import opened RtSteps
  import opened RmSplit

  datatype Span = Span(enter: nat, leave: nat)

  // A string with wildcards accounts for the first n elements of the input, the
  // wildcards for the given stretches of it.
  ghost predicate Fits(w: Elem, u: Str, s: Str, n: nat, spans: seq<Span>)
    decreases |u|
  {
    if u == [] then n == 0 && spans == []
    else if u[|u| - 1] == w then
      spans != [] && spans[|spans| - 1].leave == n && spans[|spans| - 1].enter <= n
      && Fits(w, u[..|u| - 1], s, spans[|spans| - 1].enter, spans[..|spans| - 1])
    else 0 < n <= |s| && s[n - 1] == u[|u| - 1] && Fits(w, u[..|u| - 1], s, n - 1, spans)
  }

  // The same, said by substitution: the input is what comes out when each
  // wildcard is replaced by a string.
  function Expand(w: Elem, u: Str, words: seq<Str>): Str
    decreases |u|
  {
    if u == [] then []
    else if u[|u| - 1] == w then
      if words == [] then [] else Expand(w, u[..|u| - 1], words[..|words| - 1]) + words[|words| - 1]
    else Expand(w, u[..|u| - 1], words) + [u[|u| - 1]]
  }

  function Wildcards(w: Elem, u: Str): nat {
    if u == [] then 0 else Wildcards(w, u[..|u| - 1]) + if u[|u| - 1] == w then 1 else 0
  }

  function Words(s: Str, spans: seq<Span>): seq<Str> {
    seq(|spans|, i requires 0 <= i < |spans| =>
      if spans[i].enter <= spans[i].leave <= |s| then s[spans[i].enter..spans[i].leave] else [])
  }

  function SpansOf(w: Elem, u: Str, words: seq<Str>): seq<Span>
    decreases |u|
  {
    if u == [] || words == [] then []
    else if u[|u| - 1] == w then
      var v, rest := u[..|u| - 1], words[..|words| - 1];
      SpansOf(w, v, rest) + [Span(|Expand(w, v, rest)|, |Expand(w, u, words)|)]
    else SpansOf(w, u[..|u| - 1], words)
  }

  // Both, for one element more.
  lemma {:induction false} ExpandSnoc(w: Elem, v: Str, c: Elem, words: seq<Str>, last: Str)
    ensures c != w ==> Expand(w, v + [c], words) == Expand(w, v, words) + [c]
    ensures Expand(w, v + [w], words + [last]) == Expand(w, v, words) + last
    ensures Wildcards(w, v + [c]) == Wildcards(w, v) + if c == w then 1 else 0
  {
    assert (v + [c])[..|v + [c]| - 1] == v && (v + [w])[..|v + [w]| - 1] == v;
    assert (words + [last])[..|words + [last]| - 1] == words;
  }

  lemma {:induction false} SpansOfSnoc(w: Elem, v: Str, c: Elem, words: seq<Str>, last: Str)
    ensures c != w ==> SpansOf(w, v + [c], words) == SpansOf(w, v, words)
    ensures SpansOf(w, v + [w], words + [last]) ==
              SpansOf(w, v, words) + [Span(|Expand(w, v, words)|, |Expand(w, v, words)| + |last|)]
  {
    ExpandSnoc(w, v, c, words, last);
    assert (v + [c])[..|v + [c]| - 1] == v && (v + [w])[..|v + [w]| - 1] == v;
    assert (words + [last])[..|words + [last]| - 1] == words;
    if words == [] {
      NoSpans(w, v, words);
    }
  }

  lemma {:induction false} FitsExpands(w: Elem, u: Str, s: Str, n: nat, spans: seq<Span>)
    requires Fits(w, u, s, n, spans) && n <= |s|
    ensures |spans| == Wildcards(w, u) && Expand(w, u, Words(s, spans)) == s[..n]
    decreases |u|
  {
    hide Fits, Expand, Words, Wildcards;
    if u == [] {
      Nothing(w, s, n, spans);
    } else {
      var v, c := u[..|u| - 1], u[|u| - 1];
      assert u == v + [c];
      FitsSnoc(w, v, c, s, n, spans);
      if c == w {
        var e, rest := Last(spans).enter, Init(spans);
        FitsExpands(w, v, s, e, rest);
        assert spans == rest + [Span(e, n)];
        SameWords(s, rest, Span(e, n));
        ExpandSnoc(w, v, w, Words(s, rest), s[e..n]);
        assert s[..n] == s[..e] + s[e..n];
      } else {
        FitsExpands(w, v, s, n - 1, spans);
        ExpandSnoc(w, v, c, Words(s, spans), []);
        assert s[..n] == s[..n - 1] + [s[n - 1]];
      }
    }
  }

  lemma {:induction false} Nothing(w: Elem, s: Str, n: nat, spans: seq<Span>)
    ensures Fits(w, [], s, n, spans) <==> n == 0 && spans == []
    ensures Wildcards(w, []) == 0 && Expand(w, [], []) == [] && Words(s, []) == [] && SpansOf(w, [], []) == []
  {}

  // Conversely, each way to fill in the wildcards is found by its stretches.
  lemma {:induction false} ExpandFits(w: Elem, u: Str, s: Str, n: nat, words: seq<Str>)
    requires |words| == Wildcards(w, u) && n <= |s| && Expand(w, u, words) == s[..n]
    ensures Fits(w, u, s, n, SpansOf(w, u, words)) && Words(s, SpansOf(w, u, words)) == words
    decreases |u|
  {
    hide Fits, Expand, Words, Wildcards, SpansOf;
    if u == [] {
      Nothing(w, s, n, []);
    } else {
      var v, c := u[..|u| - 1], u[|u| - 1];
      assert u == v + [c];
      ExpandSnoc(w, v, c, words, []);
      if c == w {
        var rest, last := words[..|words| - 1], words[|words| - 1];
        assert words == rest + [last];
        ExpandSnoc(w, v, w, rest, last);
        var e := |Expand(w, v, rest)|;
        Cut(s, n, Expand(w, v, rest), last);
        ExpandFits(w, v, s, e, rest);
        SpansOfSnoc(w, v, w, rest, last);
        SameWords(s, SpansOf(w, v, rest), Span(e, n));
        FitsSnoc(w, v, w, s, n, SpansOf(w, u, words));
        assert Init(SpansOf(w, u, words)) == SpansOf(w, v, rest);
      } else {
        Cut(s, n, Expand(w, v, words), [c]);
        ExpandFits(w, v, s, n - 1, words);
        SpansOfSnoc(w, v, c, words, []);
        FitsSnoc(w, v, c, s, n, SpansOf(w, u, words));
      }
    }
  }

  lemma {:induction false} Cut(s: Str, n: nat, a: Str, b: Str)
    requires n <= |s| && s[..n] == a + b
    ensures |a| + |b| == n && a == s[..|a|] && b == s[|a|..n] && (|b| == 1 ==> s[n - 1] == b[0])
  {
    assert a == s[..n][..|a|] && b == s[..n][|a|..];
  }

  lemma {:induction false} NoSpans(w: Elem, u: Str, words: seq<Str>)
    requires words == []
    ensures SpansOf(w, u, words) == []
  {}

  lemma {:induction false} SameWords(s: Str, spans: seq<Span>, last: Span)
    requires last.enter <= last.leave <= |s|
    ensures Words(s, spans + [last]) == Words(s, spans) + [s[last.enter..last.leave]]
  {}

  lemma {:induction false} SpansOfWords(w: Elem, u: Str, s: Str, n: nat, spans: seq<Span>)
    requires Fits(w, u, s, n, spans) && n <= |s|
    ensures SpansOf(w, u, Words(s, spans)) == spans
    decreases |u|
  {
    hide Fits, Expand, Words, Wildcards, SpansOf;
    if u == [] {
      Nothing(w, s, n, spans);
    } else {
      var v, c := u[..|u| - 1], u[|u| - 1];
      assert u == v + [c];
      FitsSnoc(w, v, c, s, n, spans);
      if c == w {
        var e, rest := Last(spans).enter, Init(spans);
        FitsExpands(w, v, s, e, rest);
        SpansOfWords(w, v, s, e, rest);
        assert spans == rest + [Span(e, n)];
        SameWords(s, rest, Span(e, n));
        SpansOfSnoc(w, v, w, Words(s, rest), s[e..n]);
      } else {
        SpansOfWords(w, v, s, n - 1, spans);
        SpansOfSnoc(w, v, c, Words(s, spans), []);
      }
    }
  }

  // ------------------------------------------------------------ the prepared tree

  datatype Net = Net(m: Memory, N: set<Node>, P: Paths, root: Node?, w: Elem)

  ghost predicate IsNet(t: Net) {
    IsMata(t.m, t.N, t.P, t.root, t.w, t.N) && t.root != null
  }

  function LabelOf(t: Net, x: Node): Str {
    if x in t.m then t.m[x].skey else []
  }

  function BranchesOf(t: Net, x: Node): map<Elem, Node> {
    if x in t.m then t.m[x].branches else map[]
  }

  function ParentOf(t: Net, x: Node): Node? {
    if x in t.m then t.m[x].parent else null
  }

  function WcOf(t: Net, x: Node): Node? {
    if x in t.m then t.m[x].wcNode else null
  }

  function PathOf(t: Net, x: Node): Str {
    if x in t.P then t.P[x] else []
  }

  predicate IsWild(t: Net, x: Node) {
    LabelOf(t, x) == [t.w]
  }

  // What is known about one node.
  ghost predicate NodeInNet(t: Net, x: Node) {
    var k, p, u := LabelOf(t, x), ParentOf(t, x), PathOf(t, x);
    && x in t.m && x in t.P && |k| <= |u| && (IsWild(t, x) || t.w !in k)
    && (p == null ==> x == t.root && u == k)
    && (p != null ==> p in t.N && x != t.root && k != [] && u == PathOf(t, p) + k
                      && k[0] in BranchesOf(t, p) && BranchesOf(t, p)[k[0]] == x)
    && (WcOf(t, x) == if t.w in BranchesOf(t, x) then BranchesOf(t, x)[t.w] else null)
    && (IsWild(t, x) && p != null ==> !IsWild(t, p) && (PathOf(t, p) == [] || PathOf(t, p)[|PathOf(t, p)| - 1] != t.w))
  }

  // And about one of its children.
  ghost predicate ChildInNet(t: Net, x: Node, c: Elem) {
    c in BranchesOf(t, x) &&
    var y := BranchesOf(t, x)[c];
    y in t.N && y in t.m && LabelOf(t, y) != [] && LabelOf(t, y)[0] == c && ParentOf(t, y) == x
        && (IsWild(t, y) <==> c == t.w)
  }

  lemma {:induction false} NetNode(t: Net, x: Node)
    requires IsNet(t) && x in t.N
    ensures NodeInNet(t, x)
  {
    hide IsRadix, WcsOk, SegmentsOk, AllApart;
    PathEnds(t.m, t.N, t.P, t.root, x);
    ParentIs(t.m, t.N, t.P, t.root, x);
    NodeIs(t.m, t.N, t.P, t.root, x);
    SegmentIs(t.m, t.w, t.N, x);
    WcIs(t.m, t.N, t.w, t.N, x);
    if t.w in t.m[x].branches {
      LinkIs(t.m, t.N, t.P, t.root, x, t.w);
    }
    var p := t.m[x].parent;
    if p == null {
      ApartIs(t.N, t.P, t.w, x);
    } else {
      PathEnds(t.m, t.N, t.P, t.root, p);
      NodeIs(t.m, t.N, t.P, t.root, p);
      if IsWild(t, x) {
        var u := t.P[p];
        assert t.P[x] == u + [t.w];
        assert IsWild(t, p) ==> u != [] && u[|u| - 1] == t.w;
        ApartIs(t.N, t.P, t.w, x);
        if u != [] {
          assert t.P[x][|u| - 1] == u[|u| - 1] && t.P[x][|u| - 1 + 1] == t.w;
        }
      }
    }
  }

  lemma {:induction false} ApartIs(N: set<Node>, P: Paths, w: Elem, x: Node)
    requires AllApart(N, P, w) && x in N
    ensures x in P && NoneAdjacent(w, P[x])
  {}

  lemma {:induction false} NetChild(t: Net, x: Node, c: Elem)
    requires IsNet(t) && x in t.N && c in BranchesOf(t, x)
    ensures ChildInNet(t, x, c)
  {
    hide IsRadix, WcsOk, SegmentsOk, AllApart;
    NodeIs(t.m, t.N, t.P, t.root, x);
    LinkIs(t.m, t.N, t.P, t.root, x, c);
    SegmentIs(t.m, t.w, t.N, t.m[x].branches[c]);
  }

  // ------------------------------------------------------------------------ items

  // A partial match: the node reached, how much of its label is matched, and the
  // stretches of the wildcards passed. For a wildcard node the last stretch is
  // still open and ends at the current place.
  datatype Item = Item(node: Node, pos: nat, spans: seq<Span>)

  function Upto(t: Net, x: Node, pos: nat): Str {
    var k, u := LabelOf(t, x), PathOf(t, x);
    if pos <= |k| <= |u| then u[..|u| - |k| + pos] else []
  }

  function Last(spans: seq<Span>): Span {
    if spans == [] then Span(0, 0) else spans[|spans| - 1]
  }

  function Init(spans: seq<Span>): seq<Span> {
    if spans == [] then [] else spans[..|spans| - 1]
  }

  ghost predicate ItemOk(t: Net, s: Str, k: nat, older it: Item) {
    it.node in t.N &&
    if IsWild(t, it.node) then
      it.pos == 0 && it.spans != [] && Last(it.spans).enter < k && Fits(t.w, PathOf(t, it.node), s, k, it.spans)
    else
      1 <= it.pos <= |LabelOf(t, it.node)| && Fits(t.w, Upto(t, it.node, it.pos), s, k, it.spans)
  }

  // How an item came about when element k was read: a wildcard took the element;
  // a wildcard was entered; a label matched it; a label was left for the next
  // one; a wildcard was left for a label; or an empty wildcard was passed.
  datatype Kind = Stay | Enter | Advance | Branch | Leave | Pass

  function KindOf(t: Net, k: nat, it: Item): Kind {
    if IsWild(t, it.node) then (if Last(it.spans).enter < k then Stay else Enter)
    else if it.pos > 1 then Advance
    else
      var q := ParentOf(t, it.node);
      if q == null || !IsWild(t, q) then Branch else if Last(it.spans).enter < k then Leave else Pass
  }

  function Grand(t: Net, x: Node): Node? {
    var q := ParentOf(t, x);
    if q == null then null else ParentOf(t, q)
  }

  // The item it came from.
  function Origin(t: Net, k: nat, it: Item): Item {
    var q, r := ParentOf(t, it.node), Grand(t, it.node);
    match KindOf(t, k, it)
    case Stay => Item(it.node, 0, Init(it.spans) + [Span(Last(it.spans).enter, k)])
    case Enter => if q == null then it else Item(q, |LabelOf(t, q)|, Init(it.spans))
    case Advance => Item(it.node, it.pos - 1, it.spans)
    case Branch => if q == null then it else Item(q, |LabelOf(t, q)|, it.spans)
    case Leave => Item(q, 0, it.spans)
    case Pass => if r == null then it else Item(r, |LabelOf(t, r)|, Init(it.spans))
  }

  // The step that leads from the origin to the item is one that the tree allows.
  ghost predicate Allowed(t: Net, s: Str, k: nat, it: Item) {
    k < |s| &&
    var q, r, c := ParentOf(t, it.node), Grand(t, it.node), s[k];
    match KindOf(t, k, it)
    case Stay => Last(it.spans).leave == k + 1
    case Enter => q != null && !IsWild(t, q) && WcOf(t, q) == it.node && Last(it.spans) == Span(k, k + 1)
    case Advance => it.pos <= |LabelOf(t, it.node)| && LabelOf(t, it.node)[it.pos - 1] == c
    case Branch => q != null && it.pos == 1 && c in BranchesOf(t, q) && BranchesOf(t, q)[c] == it.node
    case Leave => it.pos == 1 && c in BranchesOf(t, q) && BranchesOf(t, q)[c] == it.node && Last(it.spans).leave == k
    case Pass =>
      && r != null && !IsWild(t, r) && WcOf(t, r) == q && it.pos == 1
      && c in BranchesOf(t, q) && BranchesOf(t, q)[c] == it.node && Last(it.spans) == Span(k, k)
  }

  lemma {:induction false} UptoFacts(t: Net, x: Node, pos: nat)
    requires NodeInNet(t, x) && 1 <= pos <= |LabelOf(t, x)|
    ensures Upto(t, x, |LabelOf(t, x)|) == PathOf(t, x)
    ensures Upto(t, x, pos) == Upto(t, x, pos - 1) + [LabelOf(t, x)[pos - 1]]
    ensures ParentOf(t, x) != null ==> Upto(t, x, 0) == PathOf(t, ParentOf(t, x))
    ensures ParentOf(t, x) == null ==> Upto(t, x, 0) == []
  {}

  lemma {:induction false} FitsSnoc(w: Elem, u: Str, c: Elem, s: Str, n: nat, spans: seq<Span>)
    ensures c != w ==> (Fits(w, u + [c], s, n, spans) <==> 0 < n <= |s| && s[n - 1] == c && Fits(w, u, s, n - 1, spans))
    ensures Fits(w, u + [w], s, n, spans) <==>
              spans != [] && Last(spans).leave == n && Last(spans).enter <= n
                  && Fits(w, u, s, Last(spans).enter, Init(spans))
    ensures Fits(w, [], s, n, spans) <==> n == 0 && spans == []
  {
    assert (u + [c])[..|u + [c]| - 1] == u && (u + [w])[..|u + [w]| - 1] == u;
  }

  // Backwards: each item has its origin, and the step is allowed.
  lemma {:induction false} OriginOk(t: Net, s: Str, k: nat, it: Item)
    requires IsNet(t) && 1 <= k < |s| && t.w !in s && ItemOk(t, s, k + 1, it)
    ensures Allowed(t, s, k, it) && ItemOk(t, s, k, Origin(t, k, it))
  {
    hide IsNet, Fits;
    NetNode(t, it.node);
    if IsWild(t, it.node) {
      WildOrigin(t, s, k, it);
    } else {
      LiteralOrigin(t, s, k, it);
    }
  }

  lemma {:induction false} WildOrigin(t: Net, s: Str, k: nat, it: Item)
    requires IsNet(t) && 1 <= k < |s| && ItemOk(t, s, k + 1, it) && IsWild(t, it.node) && NodeInNet(t, it.node)
    ensures Allowed(t, s, k, it) && ItemOk(t, s, k, Origin(t, k, it))
  {
    hide IsNet, Fits;
    var x, q := it.node, ParentOf(t, it.node);
    UptoFacts(t, x, 1);
    FitsSnoc(t.w, Upto(t, x, 0), t.w, s, k + 1, it.spans);
    if Last(it.spans).enter < k {
      var o := Origin(t, k, it);
      FitsSnoc(t.w, Upto(t, x, 0), t.w, s, k, o.spans);
      assert Init(o.spans) == Init(it.spans);
    } else {
      FitsSnoc(t.w, Upto(t, x, 0), t.w, s, k, Init(it.spans));
      if q != null {
        NetNode(t, q);
        FitsSnoc(t.w, [], t.w, s, k, Init(it.spans));
        FullLabel(t, q, s, k, Init(it.spans));
      }
    }
  }

  // Where something has been matched and no wildcard ends, a label does.
  lemma {:induction false} FullLabel(t: Net, q: Node, s: Str, k: nat, spans: seq<Span>)
    requires NodeInNet(t, q) && q in t.N && !IsWild(t, q) && k > 0 && Fits(t.w, PathOf(t, q), s, k, spans)
    requires ParentOf(t, q) == null ==> PathOf(t, q) == LabelOf(t, q)
    ensures ItemOk(t, s, k, Item(q, |LabelOf(t, q)|, spans))
  {
    hide Fits;
    FitsSnoc(t.w, [], t.w, s, k, spans);
    UptoFacts(t, q, |LabelOf(t, q)|);
  }

  lemma {:induction false} LiteralOrigin(t: Net, s: Str, k: nat, it: Item)
    requires IsNet(t) && 1 <= k < |s| && t.w !in s && ItemOk(t, s, k + 1, it) && !IsWild(t, it.node)
        && NodeInNet(t, it.node)
    ensures Allowed(t, s, k, it) && ItemOk(t, s, k, Origin(t, k, it))
  {
    hide IsNet, Fits;
    var x, q, c := it.node, ParentOf(t, it.node), LabelOf(t, it.node)[it.pos - 1];
    UptoFacts(t, x, it.pos);
    FitsSnoc(t.w, Upto(t, x, it.pos - 1), c, s, k + 1, it.spans);
    if it.pos == 1 {
      FitsSnoc(t.w, [], t.w, s, k, it.spans);
      if q != null {
        NetNode(t, q);
        if !IsWild(t, q) {
          FullLabel(t, q, s, k, it.spans);
        } else {
          WildParent(t, s, k, it, q);
        }
      }
    }
  }

  lemma {:induction false} WildParent(t: Net, s: Str, k: nat, it: Item, q: Node)
    requires IsNet(t) && 1 <= k < |s| && !IsWild(t, it.node) && NodeInNet(t, it.node) && it.pos == 1
    requires q == ParentOf(t, it.node) && q in t.N && IsWild(t, q) && NodeInNet(t, q)
        && Fits(t.w, PathOf(t, q), s, k, it.spans)
    requires s[k] in BranchesOf(t, q) && BranchesOf(t, q)[s[k]] == it.node
    ensures Allowed(t, s, k, it) && ItemOk(t, s, k, Origin(t, k, it))
  {
    hide IsNet, Fits;
    var r := ParentOf(t, q);
    UptoFacts(t, q, 1);
    FitsSnoc(t.w, Upto(t, q, 0), t.w, s, k, it.spans);
    if Last(it.spans).enter == k {
      FitsSnoc(t.w, [], t.w, s, k, Init(it.spans));
      if r != null {
        NetNode(t, r);
        FullLabel(t, r, s, k, Init(it.spans));
      }
    }
  }

  // Forwards: an allowed step from an item in order leads to one.
  lemma {:induction false} StepOk(t: Net, s: Str, k: nat, it: Item)
    requires IsNet(t) && 1 <= k < |s| && t.w !in s && it.node in t.N
    requires Allowed(t, s, k, it) && ItemOk(t, s, k, Origin(t, k, it))
    requires IsWild(t, it.node) ==> it.pos == 0 && it.spans != []
    requires !IsWild(t, it.node) ==> it.pos >= 1 && (KindOf(t, k, it) == Pass ==> it.spans != [])
    ensures ItemOk(t, s, k + 1, it)
  {
    hide IsNet, Fits, ItemOk, Allowed;
    NetNode(t, it.node);
    match KindOf(t, k, it)
    case Stay => WildStep(t, s, k, it);
    case Enter => WildStep(t, s, k, it);
    case Advance => AdvanceStep(t, s, k, it);
    case Branch => BranchStep(t, s, k, it);
    case Leave => LeaveStep(t, s, k, it);
    case Pass => PassStep(t, s, k, it);
  }

  lemma {:induction false} WildStep(t: Net, s: Str, k: nat, it: Item)
    requires IsNet(t) && 1 <= k < |s| && it.node in t.N && NodeInNet(t, it.node)
    requires Allowed(t, s, k, it) && ItemOk(t, s, k, Origin(t, k, it))
    requires IsWild(t, it.node) && it.pos == 0 && it.spans != []
    ensures ItemOk(t, s, k + 1, it)
  {
    hide IsNet, Fits;
    var x, q := it.node, ParentOf(t, it.node);
    UptoFacts(t, x, 1);
    FitsSnoc(t.w, Upto(t, x, 0), t.w, s, k + 1, it.spans);
    if Last(it.spans).enter < k {
      var o := Origin(t, k, it);
      FitsSnoc(t.w, Upto(t, x, 0), t.w, s, k, o.spans);
      assert Init(o.spans) == Init(it.spans);
    } else {
      NetNode(t, q);
      UptoFacts(t, q, |LabelOf(t, q)|);
    }
  }

  lemma {:induction false} AdvanceStep(t: Net, s: Str, k: nat, it: Item)
    requires 1 <= k < |s| && t.w !in s && it.node in t.N && NodeInNet(t, it.node)
    requires Allowed(t, s, k, it) && ItemOk(t, s, k, Origin(t, k, it)) && KindOf(t, k, it) == Advance
    ensures ItemOk(t, s, k + 1, it)
  {
    hide Fits, NodeInNet, Upto;
    UptoFacts(t, it.node, it.pos);
    FitsSnoc(t.w, Upto(t, it.node, it.pos - 1), s[k], s, k + 1, it.spans);
  }

  lemma {:induction false} BranchStep(t: Net, s: Str, k: nat, it: Item)
    requires IsNet(t) && 1 <= k < |s| && t.w !in s && it.node in t.N && NodeInNet(t, it.node)
    requires Allowed(t, s, k, it) && ItemOk(t, s, k, Origin(t, k, it)) && KindOf(t, k, it) == Branch
    ensures ItemOk(t, s, k + 1, it)
  {
    hide IsNet, Fits, NodeInNet, Upto;
    var q := ParentOf(t, it.node);
    NetNode(t, q);
    UptoFacts(t, q, |LabelOf(t, q)|);
    PassedOn(t, s, k, it, q);
  }

  lemma {:induction false} LeaveStep(t: Net, s: Str, k: nat, it: Item)
    requires IsNet(t) && 1 <= k < |s| && t.w !in s && it.node in t.N && NodeInNet(t, it.node)
    requires Allowed(t, s, k, it) && ItemOk(t, s, k, Origin(t, k, it)) && KindOf(t, k, it) == Leave
    ensures ItemOk(t, s, k + 1, it)
  {
    hide IsNet, Fits, NodeInNet, Upto;
    PassedOn(t, s, k, it, ParentOf(t, it.node));
  }

  lemma {:induction false} PassStep(t: Net, s: Str, k: nat, it: Item)
    requires IsNet(t) && 1 <= k < |s| && t.w !in s && it.node in t.N && NodeInNet(t, it.node)
    requires KindOf(t, k, it) == Pass && Allowed(t, s, k, it) && ItemOk(t, s, k, Origin(t, k, it)) && it.spans != []
    ensures ItemOk(t, s, k + 1, it)
  {
    hide IsNet, Fits, NodeInNet, ItemOk;
    var q := ParentOf(t, it.node);
    PassedFits(t, s, k, it, q, Grand(t, it.node));
    PassedOn(t, s, k, it, q);
  }

  lemma {:induction false} PassedFits(t: Net, s: Str, k: nat, it: Item, q: Node, r: Node)
    requires IsNet(t) && 1 <= k < |s| && it.node in t.N && NodeInNet(t, it.node) && it.spans != []
    requires q == ParentOf(t, it.node) && r == ParentOf(t, q) && IsWild(t, q) && Last(it.spans) == Span(k, k)
    requires ItemOk(t, s, k, Item(r, |LabelOf(t, r)|, Init(it.spans))) && !IsWild(t, r)
    ensures q in t.N && Fits(t.w, PathOf(t, q), s, k, it.spans)
  {
    hide IsNet, Fits;
    NetNode(t, q);
    NetNode(t, r);
    UptoFacts(t, q, 1);
    UptoFacts(t, r, |LabelOf(t, r)|);
    FitsSnoc(t.w, Upto(t, q, 0), t.w, s, k, it.spans);
  }

  lemma {:induction false} PassedOn(t: Net, s: Str, k: nat, it: Item, q: Node)
    requires IsNet(t) && 1 <= k < |s| && t.w !in s && it.node in t.N && NodeInNet(t, it.node) && q in t.N
    requires q == ParentOf(t, it.node) && it.pos == 1 && s[k] in BranchesOf(t, q) && BranchesOf(t, q)[s[k]] == it.node
    requires Fits(t.w, PathOf(t, q), s, k, it.spans)
    ensures ItemOk(t, s, k + 1, it)
  {
    hide IsNet, Fits, NodeInNet, Upto;
    NetChild(t, q, s[k]);
    UptoFacts(t, it.node, 1);
    FitsSnoc(t.w, PathOf(t, q), s[k], s, k + 1, it.spans);
  }
}
