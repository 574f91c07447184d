// Transition lists of one state, and what they mean while the table is a
// keyword trie, while it is being completed, and once it is a full automaton.
module AcTable {
  import opened AcTheory

  const ALPHABET_SIZE := 256
  const INT_MAX := 0x7FFF_FFFF
  // "No transition here, follow the failure link."
  const FAIL_STATE := 0xFFFF_FFFF

  datatype Trans = Trans(key: Byte, next: nat)

  // The transition list of one state, newest first.
  type Row = seq<Trans>

  ghost predicate Defined(row: Row, c: Byte) {
    exists k :: 0 <= k < |row| && row[k].key == c
  }

  // The first transition on c, or state 0 when there is none.
  function Next(row: Row, c: Byte): (t: nat)
    ensures !Defined(row, c) ==> t == 0
    ensures Defined(row, c) ==> exists k :: 0 <= k < |row| && row[k] == Trans(c, t)
  {
    if row == [] then 0
    else if row[0].key == c then
      assert row[0] == Trans(c, row[0].next);
      row[0].next
    else
      var t := Next(row[1..], c);
      assert forall k :: 0 <= k < |row| && row[k].key == c ==> row[1..][k - 1].key == c;
      assert forall k :: 0 <= k < |row| - 1 ==> row[1..][k] == row[k + 1];
      t
  }

  ghost predicate UniqueKeys(row: Row) {
    forall j, k :: 0 <= j < k < |row| ==> row[j].key != row[k].key
  }

  lemma {:induction false} NextAt(row: Row, k: nat)
    requires UniqueKeys(row) && k < |row|
    ensures Defined(row, row[k].key) && Next(row, row[k].key) == row[k].next
  {
    var c := row[k].key;
    var j :| 0 <= j < |row| && row[j] == Trans(c, Next(row, c));
    assert j == k;
  }

  lemma {:induction false} NextUndefined(row: Row, c: Byte)
    requires forall k :: 0 <= k < |row| ==> row[k].key != c
    ensures !Defined(row, c) && Next(row, c) == 0
  {}

  // What setting the transition on c to t means, and nothing else.
  ghost predicate IsPut(before: Row, c: Byte, t: nat, after: Row) {
    && (forall d: Byte :: Next(after, d) == if d == c then t else Next(before, d))
    && (forall d: Byte :: Defined(after, d) <==> d == c || Defined(before, d))
    && (UniqueKeys(before) ==> UniqueKeys(after))
    && |after| == |before| + (if Defined(before, c) then 0 else 1)
    && (forall e :: e in after ==> e in before || e == Trans(c, t))
  }

  lemma {:induction false} PutUpdates(row: Row, k: nat, t: nat)
    requires UniqueKeys(row) && k < |row|
    ensures IsPut(row, row[k].key, t, row[k := Trans(row[k].key, t)])
  {
    var c := row[k].key;
    var after := row[k := Trans(c, t)];
    assert UniqueKeys(after);
    assert row[k].key == c;
    forall d: Byte
      ensures Next(after, d) == if d == c then t else Next(row, d)
      ensures Defined(after, d) <==> d == c || Defined(row, d)
    {
      if d == c {
        NextAt(after, k);
      } else if Defined(row, d) {
        var j :| 0 <= j < |row| && row[j].key == d;
        assert after[j] == row[j];
        NextAt(row, j);
        NextAt(after, j);
      } else {
        NextUndefined(after, d);
      }
    }
  }

  lemma {:induction false} PutPrepends(row: Row, c: Byte, t: nat)
    requires !Defined(row, c)
    ensures IsPut(row, c, t, [Trans(c, t)] + row)
  {
    var after := [Trans(c, t)] + row;
    assert after[1..] == row;
    forall d: Byte ensures Defined(after, d) <==> d == c || Defined(row, d) {
      if Defined(row, d) {
        var j :| 0 <= j < |row| && row[j].key == d;
        assert after[j + 1].key == d;
      }
      if d == c {
        assert after[0].key == d;
      }
    }
  }

  // Only the edges of the keyword trie.
  ghost predicate IsTrieRow(P: seq<Str>, s: nat, row: Row)
    requires s < |P|
  {
    && UniqueKeys(row)
    && (forall c: Byte :: Defined(row, c) <==> P[s] + [c] in P)
    && (forall c: Byte :: Defined(row, c) ==> 0 < Next(row, c) < |P| && P[Next(row, c)] == P[s] + [c])
  }

  // The finished row: a missing transition stands for state 0.
  ghost predicate IsDfaRow(P: seq<Str>, s: nat, row: Row)
    requires IsPathSet(P) && s < |P|
  {
    && UniqueKeys(row)
    && (forall c: Byte :: Next(row, c) == Delta(P, s, c))
    && (forall e :: e in row ==> e.next > 0)
  }

  // A row whose bytes below i are finished and whose other bytes are not.
  ghost predicate IsMixedRow(P: seq<Str>, s: nat, row: Row, i: nat)
    requires IsPathSet(P) && s < |P|
  {
    && UniqueKeys(row)
    && (forall c: Byte :: c < i ==> Next(row, c) == Delta(P, s, c))
    && (forall c: Byte :: i <= c ==> (Defined(row, c) <==> P[s] + [c] in P))
    && (forall c: Byte :: i <= c && Defined(row, c) ==>
          0 < Next(row, c) < |P| && P[Next(row, c)] == P[s] + [c])
    && (forall e :: e in row ==> e.next > 0)
  }

  lemma {:induction false} TrieRowPositive(P: seq<Str>, s: nat, row: Row)
    requires s < |P| && IsTrieRow(P, s, row)
    ensures forall e :: e in row ==> e.next > 0
  {
    forall e | e in row ensures e.next > 0 {
      var k :| 0 <= k < |row| && row[k] == e;
      NextAt(row, k);
    }
  }

  lemma {:induction false} RootRowIsFinished(P: seq<Str>, row: Row)
    requires IsPathSet(P) && IsTrieRow(P, 0, row)
    ensures IsDfaRow(P, 0, row)
  {
    TrieRowPositive(P, 0, row);
    forall c: Byte ensures Next(row, c) == Delta(P, 0, c) {
      assert P[0] + [c] == [c];
      if Defined(row, c) {
        DeltaAlongPath(P, 0, c, Next(row, c));
      } else {
        DeltaAtRoot(P, c);
      }
    }
  }

  ghost predicate IsTrie(T: seq<Row>, P: seq<Str>) {
    && IsPathSet(P)
    && |P| <= |T|
    && (forall s :: 0 <= s < |P| ==> IsTrieRow(P, s, T[s]))
    && (forall s :: |P| <= s < |T| ==> T[s] == [])
  }

  lemma {:induction false} PathSetGrows(P: seq<Str>, s: nat, c: Byte)
    requires IsPathSet(P) && s < |P| && P[s] + [c] !in P
    ensures IsPathSet(P + [P[s] + [c]])
  {
    var u := P[s] + [c];
    var P' := P + [u];
    assert Front(u) == P[s];
    forall t | 0 < t < |P'| ensures HasFront(P', t) {
      if t < |P| {
        assert HasFront(P, t);
        assert P'[t] == P[t];
        var k :| 0 <= k < |P| && P[k] == Front(P[t]);
        assert P'[k] == Front(P[t]);
      } else {
        assert P'[s] == Front(u);
      }
    }
  }

  // Hanging a new state below s keeps the table a trie.
  lemma {:induction false} TrieGrows(T: seq<Row>, P: seq<Str>, s: nat, c: Byte, T': seq<Row>)
    requires IsTrie(T, P) && s < |P| && P[s] + [c] !in P && |P| < |T|
    requires |T'| == |T| && IsPut(T[s], c, |P|, T'[s])
    requires forall k :: 0 <= k < |T| && k != s ==> T'[k] == T[k]
    ensures IsTrie(T', P + [P[s] + [c]])
  {
    var u := P[s] + [c];
    var P' := P + [u];
    PathSetGrows(P, s, c);
    forall t | 0 <= t < |P'| ensures IsTrieRow(P', t, T'[t]) {
      forall d: Byte ensures P'[t] + [d] in P' <==> (P'[t] + [d] in P || (t == s && d == c)) {
        SnocInjective(P'[t], d, P[s], c);
        if t == s && d == c {
          assert P'[|P|] == u;
        }
      }
      if t == |P| {
        NothingBelow(P, u);
      }
    }
  }

  lemma {:induction false} SnocInjective(u: Str, c: Byte, v: Str, d: Byte)
    ensures u + [c] == v + [d] <==> u == v && c == d
  {
    if u + [c] == v + [d] {
      assert u == (u + [c])[..|u|] == (v + [d])[..|v|] == v;
      assert c == (u + [c])[|u|];
    }
  }

  lemma {:induction false} NothingBelow(P: seq<Str>, u: Str)
    requires IsPathSet(P) && u !in P
    ensures forall d: Byte :: u + [d] !in P
    ensures forall d: Byte :: u + [d] != u
  {
    forall d: Byte ensures u + [d] !in P {
      assert Front(u + [d]) == u;
      if u + [d] in P {
        FrontOfPath(P, u + [d]);
      }
    }
  }
}
