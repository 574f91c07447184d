// From rules to results: rules are put into a radix tree, the tree is prepared,
// and an input is matched against all of them.
module RmRules {
  import opened RtLinks
  import opened RtSteps
  import opened RtTree
  import opened RmSplit
  import opened RmTree
  import opened RmItems
  import opened RmEnds
  import opened RmMatch
  import opened RmExact

  // A match of one rule, with the stretches that its wildcards stand for.
  datatype Match = Match(rule: int, spans: seq<Span>)

  // The stretches fill in the wildcards of u so that the input comes out.
  ghost predicate Fills(w: Elem, u: Str, s: Str, spans: seq<Span>) {
    && |spans| == Wildcards(w, u) && Expand(w, u, Words(s, spans)) == s
    && SpansOf(w, u, Words(s, spans)) == spans
  }

  ghost predicate IsFilling(w: Elem, u: Str, s: Str, words: seq<Str>) {
    |words| == Wildcards(w, u) && Expand(w, u, words) == s
  }

  // The match is of one of the rules.
  ghost predicate NamesRule(book: map<Str, int>, f: Match) {
    exists u :: u in book && book[u] == f.rule
  }

  // What the results are to be, for rules given by their strings: each one is a
  // way to fill in a rule, each such way is there, and none is there twice.
  ghost predicate HasAll(book: map<Str, int>, w: Elem, s: Str, found: seq<Match>) {
    exists names :: AreAll(book, w, s, found, names)
  }

  // Names are the strings of the rules that the results are about.
  ghost predicate AreAll(book: map<Str, int>, w: Elem, s: Str, found: seq<Match>, names: seq<Str>) {
    && |names| == |found|
    && (forall k :: 0 <= k < |found| ==> NameOk(book, w, s, found[k], names[k]))
    && (forall u, words :: u in book && IsFilling(w, u, s, words) ==> IsIn(s, found, names, u, words))
    && (forall j, k :: 0 <= j < k < |found| ==> names[j] != names[k] || found[j].spans != found[k].spans)
  }

  ghost predicate NameOk(book: map<Str, int>, w: Elem, s: Str, f: Match, u: Str) {
    u in book && f.rule == book[u] && Fills(w, u, s, f.spans)
  }

  ghost predicate IsIn(s: Str, found: seq<Match>, names: seq<Str>, u: Str, words: seq<Str>) {
    exists k :: 0 <= k < |found| && k < |names| && names[k] == u && Words(s, found[k].spans) == words
  }

  // The nodes in E, where strings end, have the rules of their strings.
  ghost predicate AreListed(E: set<Node>, P: Paths, R: map<Node, int>, book: map<Str, int>) {
    forall x {:trigger IsListed(P, R, book, x)} :: x in E ==> IsListed(P, R, book, x)
  }

  ghost predicate IsListed(P: Paths, R: map<Node, int>, book: map<Str, int>, x: Node) {
    x in P && x in R && P[x] in book && book[P[x]] == R[x]
  }

  lemma {:induction false} OneMoreListed(E: set<Node>, P: Paths, R: map<Node, int>, book: map<Str, int>, E': set<Node>,
        P': Paths, x: Node, s: Str, rule: int)
    requires AreListed(E, P, R, book) && PathsKept(E, P, P') && E' <= E + {x} && x in P' && P'[x] == s && s !in book
    ensures AreListed(E', P', R[x := rule], book[s := rule])
  {
    forall y | y in E' ensures IsListed(P', R[x := rule], book[s := rule], y) {
      if y != x {
        assert IsListed(P, R, book, y);
      }
    }
  }

  class RuleSet {
    const root: Root
    // the rule of each node, as given when it was inserted
    var ruleOf: map<Node, int>
    // the strings that have been inserted, with their rules
    ghost var book: map<Str, int>

    constructor (w: Elem)
      ensures Valid() && book == map[] && root.wildcard == w
      ensures fresh(root) && fresh(root.tree) && root.tree.nodes == {} && root.tree.root == null
    {
      var t := new Tree();
      root := new Root(t, w);
      ruleOf, book := map[], map[];
    }

    ghost predicate HasBook()
      reads this, root.tree, root.tree.nodes
    {
      book.Keys == root.tree.Strings() && AreListed(EndsOf(root.tree), root.tree.paths, ruleOf, book)
    }

    ghost predicate Valid()
      reads this, root.tree, root.tree.nodes
    {
      root.tree.Valid() && NoWcs(root.tree.nodes) && HasBook()
    }

    // `rm_insert_rule`: a rule whose string is there already is refused.
    method InsertRule(s: Str, rule: int) returns (r: int)
      requires Valid() && s != []
      modifies this, root.tree, root.tree.nodes
      ensures Valid() && r == (if s in old(book) then -1 else 0)
      ensures book == if s in old(book) then old(book) else old(book)[s := rule]
      ensures root.tree.root != null && fresh(root.tree.nodes - old(root.tree.nodes))
    {
      hide Tree.Valid, Tree.Strings, NoWcs, AreListed, PathsKept;
      ghost var E, P := EndsOf(root.tree), root.tree.paths;
      var x, isNew := InsertString(root.tree, s);
      if isNew {
        OneMoreListed(E, P, ruleOf, book, EndsOf(root.tree), root.tree.paths, x, s, rule);
        ruleOf := ruleOf[x := rule];
        book := book[s := rule];
        r := 0;
      } else {
        r := -1;
      }
    }

    // The tree has been prepared, and has the rules that were put in.
    ghost predicate IsPrepared()
      reads this, root.tree, root.tree.nodes
    {
      root.Holds(root.tree.nodes) && HasBook()
    }

    // `rm_matafy`, after the last rule
    method Prepare()
      requires Valid() && root.tree.root != null && forall s :: s in book ==> NoneAdjacent(root.wildcard, s)
      modifies root.tree, root.tree.nodes
      ensures IsPrepared()
    {
      hide Tree.Valid, Snapshot, Keys, NoWcs, AreListed, PathsKept, NoneAdjacent, Evolves, IsMata;
      ghost var m, N, P, E := Snapshot(root.tree.nodes), root.tree.nodes, root.tree.paths, EndsOf(root.tree);
      EndsAre(root.tree, m);
      root.Matafy();
      EndsAre(root.tree, Snapshot(root.tree.nodes));
      EndsStay(m, N, P, Snapshot(root.tree.nodes), root.tree.nodes, root.tree.paths, E, EndsOf(root.tree));
      ListedOn(E, P, root.tree.paths, ruleOf, book);
    }

    // `rm_match` and `rm_parse_result`: what is found, with the rule of each match
    method FindRules(input: Str) returns (found: seq<Match>)
      requires IsPrepared() && input != []
      ensures forall k :: 0 <= k < |found| ==> NamesRule(book, found[k])
      ensures root.wildcard !in input ==> HasAll(book, root.wildcard, input, found)
    {
      hide Snapshot, Keys, AreListed, IsAnswer, AreAll, IsMata;
      var h := new Handle(root, input, (x, y) => true);
      h.NothingRefused();
      var hits := h.FindAll();
      ghost var t := h.TheNet();
      ghost var E, P := EndsOf(root.tree), root.tree.paths;
      EndsAre(root.tree, t.m);
      HitsAreListed(t, E, ruleOf, book, hits);
      var rules := ruleOf;
      found := seq(|hits|, k requires 0 <= k < |hits|
          && hits[k].rule in rules => Match(rules[hits[k].rule], hits[k].spans));
      ghost var names := seq(|hits|, k requires 0 <= k < |hits| && hits[k].rule in P => P[hits[k].rule]);
      forall k | 0 <= k < |found| ensures NamesRule(book, found[k]) {
        assert IsListed(P, ruleOf, book, hits[k].rule);
        assert book[P[hits[k].rule]] == found[k].rule;
      }
      if root.wildcard !in input {
        AnswerIsAll(t, E, ruleOf, book, input, hits, found, names);
      }
    }
  }

  // The nodes where strings end.
  ghost function EndsOf(t: Tree): set<Node>
    reads t, t.nodes`valid
  {
    set x | x in t.nodes && x.valid
  }

  // A new node for the string, with a node at hand in case one has to be split.
  method InsertString(t: Tree, s: Str) returns (x: Node, isNew: bool)
    requires t.Valid() && NoWcs(t.nodes) && s != []
    modifies t, t.nodes
    ensures t.Valid() && NoWcs(t.nodes) && t.root != null && fresh(t.nodes - old(t.nodes))
    ensures isNew <==> s !in old(t.Strings())
    ensures t.Strings() == old(t.Strings()) + {s}
    ensures isNew ==> EndsOf(t) == old(EndsOf(t)) + {x} && x in t.paths && t.paths[x] == s
    ensures !isNew ==> EndsOf(t) == old(EndsOf(t)) && t.paths == old(t.paths)
    ensures PathsKept(old(EndsOf(t)), old(t.paths), t.paths)
  {
    hide Tree.Valid, Tree.Strings, Snapshot, NoWcs, PathsKept;
    x := new Node(s);
    var d := new Node(s);
    var arg := new Arg(d);
    ghost var E, P, N := EndsOf(t), t.paths, t.nodes;
    var y := t.InsertNode(x, arg);
    KeptIn(N, E, P, t.paths);
    RootIsThere(t, if y == null then x else y);
    isNew := y == null;
    forall z ensures z in EndsOf(t) <==> z in E || (isNew && z == x) {}
  }

  lemma {:induction false} RootIsThere(t: Tree, x: Node)
    requires t.Valid() && x in t.nodes
    ensures t.root != null
  {}

  lemma {:induction false} KeptIn(N: set<Node>, E: set<Node>, P: Paths, P': Paths)
    requires PathsKept(N, P, P') && E <= N
    ensures PathsKept(E, P, P')
  {}

  lemma {:induction false} EndsAre(t: Tree, m: Memory)
    requires m == Snapshot(t.nodes)
    ensures forall x {:trigger x in EndsOf(t)} {:trigger m[x]} ::
              x in EndsOf(t) <==> x in t.nodes && x in m && m[x].valid
  {
    forall x | x in t.nodes ensures x in m && (m[x].valid <==> x.valid) { SnapshotAt(t.nodes, x); }
  }

  lemma {:induction false} EndsStay(m: Memory, N: set<Node>, P: Paths, m': Memory, N': set<Node>, P': Paths,
        E: set<Node>, E': set<Node>)
    requires Evolves(m, N, P, m', N', P', N)
    requires forall x :: x in E <==> x in N && x in m && m[x].valid
    requires forall x :: x in E' <==> x in N' && x in m' && m'[x].valid
    ensures E' == E && PathsKept(E, P, P')
  {
    forall x ensures x in E' <==> x in E {
      if x in N {
        assert OldKept(m, m', P, P', N, x);
      }
    }
    forall x | x in E ensures x in P' && (x in P ==> P'[x] == P[x]) {
      assert OldKept(m, m', P, P', N, x);
    }
  }

  lemma {:induction false} ListedOn(E: set<Node>, P: Paths, P': Paths, R: map<Node, int>, book: map<Str, int>)
    requires AreListed(E, P, R, book) && PathsKept(E, P, P')
    ensures AreListed(E, P', R, book)
  {
    forall x | x in E ensures IsListed(P', R, book, x) { assert IsListed(P, R, book, x); }
  }

  // In a prepared tree E has the nodes where rules end.
  ghost predicate AreRules(t: Net, E: set<Node>) {
    E == set x | x in t.N && x in t.m && t.m[x].valid
  }

  lemma {:induction false} HitsAreListed(t: Net, E: set<Node>, R: map<Node, int>, book: map<Str, int>, hits: seq<Hit>)
    requires AreRules(t, E) && AreListed(E, t.P, R, book)
    requires forall k {:trigger hits[k]} :: 0 <= k < |hits| ==> IsRule(t, hits[k].rule)
    ensures forall k {:trigger hits[k]} :: 0 <= k < |hits| ==> hits[k].rule in E && IsListed(t.P, R, book, hits[k].rule)
  {
    forall k | 0 <= k < |hits| ensures hits[k].rule in E && IsListed(t.P, R, book, hits[k].rule) {
      assert IsRule(t, hits[k].rule);
      assert IsListed(t.P, R, book, hits[k].rule);
    }
  }

  lemma {:induction false} HitFills(t: Net, s: Str, hits: seq<Hit>, k: nat)
    requires IsAnswer(t, s, hits) && k < |hits|
    ensures Fills(t.w, PathOf(t, hits[k].rule), s, hits[k].spans)
  {
    hide Fits, Expand, Words, SpansOf;
    AnswerIsSound(t, s, hits, k);
    assert HitOk(t, s, hits[k]);
    SpansOfWords(t.w, PathOf(t, hits[k].rule), s, |s|, hits[k].spans);
  }

  // Each string of the book has its node.
  lemma {:induction false} NodeOf(t: Net, E: set<Node>, R: map<Node, int>, book: map<Str, int>,
        u: Str) returns (x: Node)
    requires AreRules(t, E) && book.Keys == Keys(t.m, t.N, t.P) && u in book
    ensures x in E && IsRule(t, x) && x in t.P && t.P[x] == u
  {
    assert u in Keys(t.m, t.N, t.P);
    x :| x in t.N && x in t.m && x in t.P && t.m[x].valid && t.P[x] == u;
  }

  // The answer, with nodes replaced by rules.
  lemma {:induction false} AnswerIsAll(t: Net, E: set<Node>, R: map<Node, int>, book: map<Str, int>, s: Str,
        hits: seq<Hit>, found: seq<Match>, names: seq<Str>)
    requires IsNet(t) && AreRules(t, E) && AreListed(E, t.P, R, book) && book.Keys == Keys(t.m, t.N, t.P)
        && IsAnswer(t, s, hits)
    requires |found| == |hits| == |names|
    requires forall k {:trigger hits[k]} :: 0 <= k < |hits| ==>
               && hits[k].rule in E && hits[k].rule in R && hits[k].rule in t.P
               && found[k] == Match(R[hits[k].rule], hits[k].spans) && names[k] == t.P[hits[k].rule]
    ensures AreAll(book, t.w, s, found, names)
  {
    hide IsNet, Fills, IsAnswer, Expand, Words, SpansOf, Wildcards, Keys;
    forall k | 0 <= k < |found| ensures NameOk(book, t.w, s, found[k], names[k]) {
      HitFills(t, s, hits, k);
      assert IsListed(t.P, R, book, hits[k].rule);
    }
    forall u, words | u in book && IsFilling(t.w, u, s, words) ensures IsIn(s, found, names, u, words) {
      var x := NodeOf(t, E, R, book, u);
      AnswerIsExact(t, s, hits, x, words);
      var h := Hit(x, SpansOf(t.w, u, words));
      var k :| 0 <= k < |hits| && hits[k] == h;
      assert names[k] == u && Words(s, found[k].spans) == words;
    }
    forall j, k | 0 <= j < k < |found| ensures names[j] != names[k] || found[j].spans != found[k].spans {
      HitsDiffer(t, E, s, hits, j, k);
    }
  }

  lemma {:induction false} HitsDiffer(t: Net, E: set<Node>, s: Str, hits: seq<Hit>, j: nat, k: nat)
    requires IsNet(t) && AreRules(t, E) && IsAnswer(t, s, hits) && j < k < |hits| && hits[j].rule in E
        && hits[k].rule in E
    requires hits[j].rule in t.P && hits[k].rule in t.P
    ensures t.P[hits[j].rule] != t.P[hits[k].rule] || hits[j].spans != hits[k].spans
  {
    hide IsRadix;
    var x, y := hits[j].rule, hits[k].rule;
    assert hits[j] != hits[k];
    Divide(t.m, t.N, t.P, t.root, x, y);
  }

  // ------------------------------------------------------------------ everything

  // Of rules with the same string, the first one counts.
  predicate IsFirst(texts: seq<Str>, i: int) {
    0 <= i < |texts| && texts[i] !in texts[..i]
  }

  // All ways, and no others, to fill in the wildcards of a rule such that the
  // input comes out, each once.
  ghost predicate AreMatches(texts: seq<Str>, w: Elem, s: Str, found: seq<Match>) {
    && (forall k :: 0 <= k < |found| ==> MatchOk(texts, w, s, found[k]))
    && (forall i, words :: IsFirst(texts, i) && IsFilling(w, texts[i], s, words) ==> IsFound(s, found, i, words))
    && (forall j, k :: 0 <= j < k < |found| ==> found[j] != found[k])
  }

  ghost predicate MatchOk(texts: seq<Str>, w: Elem, s: Str, f: Match) {
    IsFirst(texts, f.rule) && Fills(w, texts[f.rule], s, f.spans)
  }

  ghost predicate IsFound(s: Str, found: seq<Match>, i: int, words: seq<Str>) {
    exists k :: 0 <= k < |found| && found[k].rule == i && Words(s, found[k].spans) == words
  }

  // The book of the first i rules, numbered in order.
  ghost predicate IsBook(texts: seq<Str>, i: nat, book: map<Str, int>) {
    && i <= |texts|
    && (forall u {:trigger book[u]} :: u in book ==> 0 <= book[u] < i && IsFirst(texts, book[u]) && texts[book[u]] == u)
    && (forall j {:trigger texts[j]} :: 0 <= j < i ==> texts[j] in book)
  }

  lemma {:induction false} BookGrows(texts: seq<Str>, i: nat, book: map<Str, int>)
    requires IsBook(texts, i, book) && i < |texts|
    ensures IsBook(texts, i + 1, if texts[i] in book then book else book[texts[i] := i])
  {
    if texts[i] !in book {
      assert forall j :: 0 <= j < i ==> texts[..i][j] == texts[j];
      assert IsFirst(texts, i);
    }
  }

  lemma {:induction false} AllAreMatches(texts: seq<Str>, w: Elem, s: Str, book: map<Str, int>, found: seq<Match>,
        names: seq<Str>)
    requires IsBook(texts, |texts|, book) && AreAll(book, w, s, found, names)
    ensures AreMatches(texts, w, s, found)
  {
    hide Fills, IsFilling, Words;
    forall k | 0 <= k < |found| ensures MatchOk(texts, w, s, found[k]) {
      assert NameOk(book, w, s, found[k], names[k]);
    }
    forall i, words | IsFirst(texts, i) && IsFilling(w, texts[i], s, words) ensures IsFound(s, found, i, words) {
      var u := texts[i];
      FirstIsRule(texts, book, i);
      assert IsIn(s, found, names, u, words);
      var k :| 0 <= k < |found| && k < |names| && names[k] == u && Words(s, found[k].spans) == words;
      assert NameOk(book, w, s, found[k], names[k]);
    }
    forall j, k | 0 <= j < k < |found| ensures found[j] != found[k] {
      assert NameOk(book, w, s, found[j], names[j]) && NameOk(book, w, s, found[k], names[k]);
    }
  }

  lemma {:induction false} FirstIsRule(texts: seq<Str>, book: map<Str, int>, i: nat)
    requires IsBook(texts, |texts|, book) && IsFirst(texts, i)
    ensures texts[i] in book && book[texts[i]] == i
  {
    FirstsDiffer(texts, i, book[texts[i]]);
    FirstsDiffer(texts, book[texts[i]], i);
  }

  lemma {:induction false} FirstsDiffer(texts: seq<Str>, i: int, j: int)
    requires 0 <= i < |texts| && IsFirst(texts, j)
    ensures i < j ==> texts[i] != texts[j]
  {
    assert forall k :: 0 <= k < j ==> texts[..j][k] == texts[k];
  }

  // Rules in, results out.
  method MatchAll(texts: seq<Str>, w: Elem, input: Str) returns (found: seq<Match>)
    requires (forall t :: t in texts ==> t != [] && NoneAdjacent(w, t)) && input != []
    ensures forall k :: 0 <= k < |found| ==> IsFirst(texts, found[k].rule)
    ensures w !in input ==> AreMatches(texts, w, input, found)
  {
    hide AreAll, AreMatches, NoneAdjacent, IsFirst;
    if texts == [] {
      NothingToFind(w, input);
      return [];
    }
    var rules := new RuleSet(w);
    for i := 0 to |texts|
      invariant fresh(rules) && fresh(rules.root) && fresh(rules.root.tree) && fresh(rules.root.tree.nodes)
          && rules.root.wildcard == w
      invariant rules.Valid() && IsBook(texts, i, rules.book) && (i > 0 ==> rules.root.tree.root != null)
    {
      assert texts[i] in texts;
      BookGrows(texts, i, rules.book);
      var r := rules.InsertRule(texts[i], i);
    }
    rules.Prepare();
    found := rules.FindRules(input);
    forall k | 0 <= k < |found| ensures IsFirst(texts, found[k].rule) {
      assert NamesRule(rules.book, found[k]);
    }
    if w !in input {
      ghost var names :| AreAll(rules.book, w, input, found, names);
      AllAreMatches(texts, w, input, rules.book, found, names);
    }
  }

  lemma {:induction false} NothingToFind(w: Elem, s: Str)
    ensures AreMatches([], w, s, [])
  {}
}
