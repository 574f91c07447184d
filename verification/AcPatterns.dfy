// The patterns given to the engine and the occurrences it has to report.
module AcPatterns {
  import opened AcTheory
  import LsList

  // One entry of the pattern list. Every copy of it on a match list keeps all
  // fields, so an entry stands for itself and its copies.
  datatype Pattern = Pattern(
    patrn: Str,      // what the automaton matches: the pattern in upper case
    casepatrn: Str,  // the pattern as it was given
    nocase: int,
    offset: int,
    depth: int,
    negative: int,
    udata: int,      // the caller's handle, given back to the callback
    iid: int)

  // The case translation table, any map from bytes to bytes.
  type CaseTable = t: seq<Byte> | |t| == 256 witness seq(256, _ => 0)

  function Upper(xlat: CaseTable, w: Str): (u: Str)
    ensures |u| == |w|
    ensures forall k :: 0 <= k < |w| ==> u[k] == xlat[w[k]]
  {
    seq(|w|, k requires 0 <= k < |w| => xlat[w[k]])
  }

  ghost predicate NonEmpty(pats: seq<Pattern>) {
    forall k :: 0 <= k < |pats| ==> pats[k].patrn != []
  }

  ghost predicate AllInTrie(P: seq<Str>, pats: seq<Pattern>) {
    forall k :: 0 <= k < |pats| ==> pats[k].patrn in P
  }

  function TotalLength(pats: seq<Pattern>): nat {
    if pats == [] then 0 else |pats[0].patrn| + TotalLength(pats[1..])
  }

  lemma {:induction false} TotalLengthSnoc(pats: seq<Pattern>, p: Pattern)
    ensures TotalLength(pats + [p]) == TotalLength(pats) + |p.patrn|
  {
    if pats == [] {
      assert [p][1..] == [];
    } else {
      TotalLengthSnoc(pats[1..], p);
      assert (pats + [p])[1..] == pats[1..] + [p];
    }
  }

  lemma {:induction false} TotalLengthPrefix(pats: seq<Pattern>, k: nat)
    requires k <= |pats|
    ensures TotalLength(pats[..k]) <= TotalLength(pats)
  {
    if k != 0 {
      TotalLengthPrefix(pats[1..], k - 1);
      assert pats[..k][1..] == pats[1..][..k - 1];
    }
  }

  // The entries whose pattern is exactly u, the other way round: as a new entry
  // becomes the head of the pattern list, the one given first comes first here.
  function Own(pats: seq<Pattern>, u: Str): seq<Pattern> {
    if pats == [] then [] else (if Last(pats).patrn == u then [Last(pats)] else []) + Own(Init(pats), u)
  }

  // The match list of the state that stands for u: its own entries, after those
  // of its failure state in the opposite order.
  ghost function MatchesOf(P: seq<Str>, pats: seq<Pattern>, u: Str): seq<Pattern>
    requires [] in P
    decreases |u|
  {
    if u == [] then [] else LsList.Reversed(MatchesOf(P, pats, Longest(P, u[1..]))) + Own(pats, u)
  }

  // The entries whose pattern w ends with, with their multiplicity.
  ghost function Ending(pats: seq<Pattern>, w: Str): multiset<Pattern> {
    if pats == [] then multiset{}
    else Ending(Init(pats), w) + if IsSuffix(Last(pats).patrn, w) then multiset{Last(pats)} else multiset{}
  }

  function Init(pats: seq<Pattern>): seq<Pattern>
    requires pats != []
  {
    pats[..|pats| - 1]
  }

  function Last(pats: seq<Pattern>): Pattern
    requires pats != []
  {
    pats[|pats| - 1]
  }

  lemma {:induction false} OwnSnoc(pats: seq<Pattern>, p: Pattern, u: Str)
    ensures Own(pats + [p], u) == (if p.patrn == u then [p] else []) + Own(pats, u)
  {
    assert Init(pats + [p]) == pats && Last(pats + [p]) == p;
  }

  // What a state must report: its own entries and all that its failure state
  // reports. This is why copying one match list per state is enough.
  lemma {:induction false} EndingByFailure(P: seq<Str>, pats: seq<Pattern>, u: Str)
    requires [] in P && AllInTrie(P, pats) && u != []
    ensures Ending(pats, u) == multiset(Own(pats, u)) + Ending(pats, Longest(P, u[1..]))
  {
    if pats != [] {
      EndingByFailure(P, Init(pats), u);
      var v := Last(pats).patrn;
      KeywordSuffix(P, u[1..], v);
      MultisetOfSum(if v == u then [Last(pats)] else [], Own(Init(pats), u));
      if v == u {
        assert u[0..] == u;
        assert |Longest(P, u[1..])| < |u|;
      } else {
        SuffixOfTail(v, u);
      }
    }
  }

  // The entries that end at the end of a text are those that end at the end of
  // its automaton state.
  lemma {:induction false} EndingByState(P: seq<Str>, pats: seq<Pattern>, w: Str)
    requires [] in P && AllInTrie(P, pats)
    ensures Ending(pats, w) == Ending(pats, Longest(P, w))
  {
    if pats != [] {
      EndingByState(P, Init(pats), w);
      KeywordSuffix(P, w, Last(pats).patrn);
    }
  }

  lemma {:induction false} EndingNothing(pats: seq<Pattern>)
    requires NonEmpty(pats)
    ensures Ending(pats, []) == multiset{}
  {
    if pats != [] {
      EndingNothing(Init(pats));
    }
  }

  lemma {:induction false} MultisetOfSum(a: seq<Pattern>, b: seq<Pattern>)
    ensures multiset(a + b) == multiset(a) + multiset(b)
  {}

  lemma {:induction false} ReversedHasSame(m: seq<Pattern>)
    ensures multiset(LsList.Reversed(m)) == multiset(m)
  {
    if m != [] {
      ReversedHasSame(m[1..]);
      assert m == [m[0]] + m[1..];
    }
  }

  // These are all entries to report there, each as often as it was given.
  lemma {:induction false} MatchesEnd(P: seq<Str>, pats: seq<Pattern>, u: Str)
    requires [] in P && AllInTrie(P, pats) && NonEmpty(pats)
    ensures multiset(MatchesOf(P, pats, u)) == Ending(pats, u)
    decreases |u|
  {
    if u == [] {
      EndingNothing(pats);
    } else {
      var v := Longest(P, u[1..]);
      MatchesEnd(P, pats, v);
      EndingByFailure(P, pats, u);
      ReversedHasSame(MatchesOf(P, pats, v));
      MultisetOfSum(LsList.Reversed(MatchesOf(P, pats, v)), Own(pats, u));
    }
  }
}
