// The four storage formats of one row of the automaton, and the reader that
// the searches use on all of them.
module AcRows {
  import opened AcTheory
  import opened AcTable

  type Word = w: int | 0 <= w <= 0xFFFF_FFFF

  const ACF_FULL: Word := 0
  const ACF_SPARSE: Word := 1
  const ACF_BANDED: Word := 2
  const ACF_SPARSEBANDS: Word := 3
  const ACF_FULLQ: Word := 4

  // A full vector: the next state of every byte, 0 for "no transition".
  type Full = f: seq<Word> | |f| == 256 witness seq(256, _ => 0)

  function Val(ps: seq<Word>, k: nat): nat
    requires k < |ps|
  {
    ps[k]
  }

  // ---------------------------------------------------------------- reading

  function ReadSparse(ps: seq<Word>, at: nat, n: nat, input: Byte): Word
    requires at + 2 * n <= |ps|
    decreases n
  {
    if n == 0 || input < ps[at] then 0
    else if ps[at] == input then ps[at + 1]
    else ReadSparse(ps, at + 2, n - 1, input)
  }

  predicate BandsFit(ps: seq<Word>, at: nat, nb: nat)
    decreases nb
  {
    nb > 0 ==>
      && at + 2 <= |ps|
      && at + 2 + Val(ps, at) <= |ps|
      && Val(ps, at + 1) + Val(ps, at) <= 256
      && BandsFit(ps, at + 2 + Val(ps, at), nb - 1)
  }

  function ReadBands(ps: seq<Word>, at: nat, nb: nat, input: Byte): Word
    requires BandsFit(ps, at, nb)
    decreases nb
  {
    if nb == 0 || input < ps[at + 1] then 0
    else if input < Val(ps, at + 1) + Val(ps, at) then ps[at + 2 + input - ps[at + 1]]
    else ReadBands(ps, at + 2 + ps[at], nb - 1, input)
  }

  // The reader stays inside the row.
  predicate RowShape(ps: seq<Word>) {
    && |ps| >= 2
    && ps[0] in {ACF_FULL, ACF_SPARSE, ACF_BANDED, ACF_SPARSEBANDS}
    && (ps[0] == ACF_FULL ==> |ps| == 258)
    && (ps[0] == ACF_SPARSE ==> |ps| >= 3 && |ps| == 3 + 2 * Val(ps, 2))
    && (ps[0] == ACF_BANDED ==> |ps| >= 4 && |ps| == 4 + Val(ps, 2) && (ps[2] > 0 ==> Val(ps, 3) + Val(ps, 2) <= 256))
    && (ps[0] == ACF_SPARSEBANDS ==> |ps| >= 3 && BandsFit(ps, 3, ps[2]))
  }

  function ReadRow(ps: seq<Word>, input: Byte): Word
    requires RowShape(ps)
  {
    if ps[0] == ACF_FULL then ps[2 + input]
    else if ps[0] == ACF_SPARSE then ReadSparse(ps, 3, ps[2], input)
    else if ps[0] == ACF_BANDED then
      if ps[3] <= input < Val(ps, 3) + Val(ps, 2) then ps[4 + input - ps[3]] else 0
    else ReadBands(ps, 3, ps[2], input)
  }

  // `SparseGetNextStateDFA`; the banded bound is computed in 32 bits.
  method GetNextStateDFA(ps: seq<Word>, input: Byte) returns (r: Word)
    requires RowShape(ps)
    ensures r == ReadRow(ps, input)
  {
    if ps[0] == ACF_BANDED {
      if input < ps[3] { return 0; }
      if input >= (Val(ps, 3) + Val(ps, 2)) % 0x1_0000_0000 { return 0; }
      return ps[4 + input - ps[3]];
    }
    if ps[0] == ACF_FULL {
      return ps[2 + input];
    }
    var at: nat := 3;
    if ps[0] == ACF_SPARSE {
      var n: nat := ps[2];
      while n > 0
        invariant at + 2 * n <= |ps|
        invariant ReadRow(ps, input) == ReadSparse(ps, at, n, input)
      {
        if input < ps[at] {
          return 0;
        } else if ps[at] == input {
          return ps[at + 1];
        }
        at, n := at + 2, n - 1;
      }
      return 0;
    }
    var nb: nat := ps[2];
    while nb > 0
      invariant BandsFit(ps, at, nb)
      invariant ReadRow(ps, input) == ReadBands(ps, at, nb, input)
    {
      var n: nat, index: nat := ps[at], ps[at + 1];
      if input < index {
        return 0;
      }
      if input < index + n {
        return ps[at + 2 + input - index];
      }
      at, nb := at + 2 + n, nb - 1;
    }
    return 0;
  }

  // What every encoder has to achieve.
  predicate StandsFor(ps: seq<Word>, full: Full) {
    RowShape(ps) && ps[1] == 0 && forall c: Byte :: ReadRow(ps, c) == full[c]
  }

  // The match flag does not disturb the transitions.
  lemma {:induction false} FlagKeepsReading(ps: seq<Word>, flag: Word, c: Byte)
    requires RowShape(ps)
    ensures RowShape(ps[1 := flag]) && ReadRow(ps[1 := flag], c) == ReadRow(ps, c)
  {
    var qs := ps[1 := flag];
    if ps[0] == ACF_SPARSE {
      FlagKeepsSparse(ps, flag, 3, ps[2], c);
    } else if ps[0] == ACF_SPARSEBANDS {
      FlagKeepsBands(ps, flag, 3, ps[2], c);
    }
  }

  lemma {:induction false} FlagKeepsSparse(ps: seq<Word>, flag: Word, at: nat, n: nat, c: Byte)
    requires 3 <= at && at + 2 * n <= |ps|
    ensures ReadSparse(ps[1 := flag], at, n, c) == ReadSparse(ps, at, n, c)
    decreases n
  {
    if n > 0 {
      FlagKeepsSparse(ps, flag, at + 2, n - 1, c);
    }
  }

  lemma {:induction false} FlagKeepsBands(ps: seq<Word>, flag: Word, at: nat, nb: nat, c: Byte)
    requires 3 <= at && |ps| >= 3 && BandsFit(ps, at, nb)
    ensures BandsFit(ps[1 := flag], at, nb) && ReadBands(ps[1 := flag], at, nb, c) == ReadBands(ps, at, nb, c)
    decreases nb
  {
    if nb > 0 {
      FlagKeepsBands(ps, flag, at + 2 + ps[at], nb - 1, c);
    }
  }

  // ------------------------------------------------------------- full vector

  // The number of values a state of that many bytes can hold.
  function Capacity(sizeofstate: nat): (k: nat)
    ensures k >= 256
  {
    if sizeofstate == 1 then 0x100 else if sizeofstate == 2 then 0x1_0000 else 0x1_0000_0000
  }

  // `List_ConvToFull`: spreads a transition list over a cleared vector, each
  // state cut down to the width of a table entry.
  method ConvToFull(row: Row, sizeofstate: nat, full: array<Word>) returns (tcnt: nat)
    requires full.Length == 256 && UniqueKeys(row)
    modifies full
    ensures tcnt == |row|
    ensures forall c: Byte :: full[c] == Next(row, c) % Capacity(sizeofstate)
  {
    for i := 0 to 256
      invariant forall c: Byte :: c < i ==> full[c] == 0
    {
      full[i] := 0;
    }
    tcnt := 0;
    while tcnt < |row|
      invariant tcnt <= |row|
      invariant forall k :: 0 <= k < tcnt ==> full[row[k].key] == row[k].next % Capacity(sizeofstate)
      invariant forall c: Byte :: (forall k :: 0 <= k < tcnt ==> row[k].key != c) ==> full[c] == 0
    {
      full[row[tcnt].key] := row[tcnt].next % Capacity(sizeofstate);
      tcnt := tcnt + 1;
    }
    forall c: Byte ensures full[c] == Next(row, c) % Capacity(sizeofstate) {
      if Defined(row, c) {
        var k :| 0 <= k < |row| && row[k].key == c;
        NextAt(row, k);
      }
    }
  }

  predicate AreStates(full: Full) {
    forall i :: 0 <= i < 256 ==> full[i] != FAIL_STATE
  }

  // ------------------------------------------------------------ full and sparse

  method EncodeFull(full: array<Word>) returns (p: seq<Word>)
    requires full.Length == 256
    ensures StandsFor(p, full[..]) && p[0] == ACF_FULL
  {
    p := [ACF_FULL, 0] + full[..];
  }

  // How many of the first i bytes have a transition.
  function Transitions(full: Full, i: nat): nat
    requires i <= 256
  {
    if i == 0 then 0 else Transitions(full, i - 1) + if full[i - 1] != 0 then 1 else 0
  }

  lemma {:induction false} TransitionsBound(full: Full, i: nat)
    requires i <= 256
    ensures Transitions(full, i) <= i
  {
    if i > 0 {
      TransitionsBound(full, i - 1);
    }
  }

  // The pairs of a sparse row list exactly the transitions below `limit`, in
  // ascending order of the byte.
  ghost predicate SparsePairs(pairs: seq<Word>, full: Full, n: nat, limit: nat)
    requires |pairs| == 2 * n && limit <= 256
  {
    && (forall j :: 0 <= j < n ==> pairs[2 * j] < limit && pairs[2 * j + 1] == full[pairs[2 * j]])
    && (forall j, k :: 0 <= j < k < n ==> pairs[2 * j] < pairs[2 * k])
    && (forall c {:trigger Listed(pairs, n, c)} :: 0 <= c < limit && full[c] != 0 ==> Listed(pairs, n, c))
  }

  ghost predicate Listed(pairs: seq<Word>, n: nat, c: int)
    requires |pairs| == 2 * n
  {
    exists j :: 0 <= j < n && pairs[2 * j] == c
  }

  // The early exit of the reader is sound because the bytes ascend.
  lemma {:induction false} SparseReads(ps: seq<Word>, full: Full, n: nat, j: nat, c: Byte)
    requires |ps| == 3 + 2 * n && j <= n && SparsePairs(ps[3..], full, n, 256)
    requires forall k :: 0 <= k < j ==> ps[3..][2 * k] < c
    ensures ReadSparse(ps, 3 + 2 * j, n - j, c) == full[c]
    decreases n - j
  {
    var pairs := ps[3..];
    if j < n {
      assert ps[3 + 2 * j] == pairs[2 * j] && ps[3 + 2 * j + 1] == pairs[2 * j + 1];
      if pairs[2 * j] < c {
        SparseReads(ps, full, n, j + 1, c);
      } else if c < pairs[2 * j] {
        assert !Listed(pairs, n, c);
      }
    } else {
      assert !Listed(pairs, n, c);
    }
  }

  // `Conv_Full_DFA_To_Sparse`, one row: rows with too many transitions, and the
  // row of state 0, stay full.
  method EncodeSparse(full: array<Word>, k: nat, maxRowNodes: int) returns (p: seq<Word>)
    requires full.Length == 256 && AreStates(full[..])
    ensures StandsFor(p, full[..])
    ensures p[0] == if k == 0 || Transitions(full[..], 256) > maxRowNodes then ACF_FULL else ACF_SPARSE
  {
    ghost var f: Full := full[..];
    var cnt := 0;
    for i := 0 to 256
      invariant cnt == Transitions(f, i)
    {
      var state := full[i];
      if state != 0 && state != FAIL_STATE { cnt := cnt + 1; }
    }
    if k == 0 || cnt > maxRowNodes {
      p := EncodeFull(full);
      return;
    }
    hide SparsePairs;
    TransitionsBound(f, 256);
    p := [ACF_SPARSE, 0, cnt];
    NoPairs(f);
    assert p[3..] == [];
    for i := 0 to 256
      invariant |p| == 3 + 2 * Transitions(f, i)
      invariant p[..3] == [ACF_SPARSE, 0, cnt]
      invariant SparsePairs(p[3..], f, Transitions(f, i), i)
    {
      var state := full[i];
      ghost var pairs, n := p[3..], Transitions(f, i);
      if state != 0 && state != FAIL_STATE {
        p := p + [i, state];
        assert p[3..] == pairs + [i, state];
        SparsePairsGrow(pairs, f, n, i);
      } else {
        SparsePairsStay(pairs, f, n, i);
      }
    }
    assert p[0] == p[..3][0] && p[1] == p[..3][1] && p[2] == p[..3][2];
    forall c: Byte ensures ReadRow(p, c) == f[c] {
      SparseReads(p, f, cnt, 0, c);
    }
  }

  lemma {:induction false} NoPairs(full: Full)
    ensures SparsePairs([], full, 0, 0)
  {}

  lemma {:induction false} SparsePairsStay(pairs: seq<Word>, full: Full, n: nat, i: Byte)
    requires |pairs| == 2 * n && SparsePairs(pairs, full, n, i) && full[i] == 0
    ensures SparsePairs(pairs, full, n, i + 1)
  {}

  lemma {:induction false} SparsePairsGrow(pairs: seq<Word>, full: Full, n: nat, i: Byte)
    requires |pairs| == 2 * n && SparsePairs(pairs, full, n, i) && full[i] != 0
    ensures SparsePairs(pairs + [i, full[i]], full, n + 1, i + 1)
  {
    var more := pairs + [i, full[i]];
    assert forall j :: 0 <= j < n ==> more[2 * j] == pairs[2 * j] && more[2 * j + 1] == pairs[2 * j + 1];
    assert more[2 * n] == i && more[2 * n + 1] == full[i];
    forall c | 0 <= c < i + 1 && full[c] != 0 ensures Listed(more, n + 1, c) {
      if c < i {
        assert Listed(pairs, n, c);
        var j :| 0 <= j < n && pairs[2 * j] == c;
        assert more[2 * j] == c;
      }
    }
  }

  // ------------------------------------------------------------------- banded

  // `Conv_Full_DFA_To_Banded`, one row: everything from the first to the last
  // transition. An empty row gets count 0 and first index -1, as a word.
  method EncodeBanded(full: array<Word>) returns (p: seq<Word>)
    requires full.Length == 256 && AreStates(full[..])
    ensures StandsFor(p, full[..]) && p[0] == ACF_BANDED
    ensures p[2] == 0 <==> forall i :: 0 <= i < 256 ==> full[i] == 0
    ensures p[2] > 0 ==> p[4] != 0 && p[4 + p[2] - 1] != 0
  {
    var first, last := -1, -2;
    for i := 0 to 256
      invariant first == -1 ==> last == -2 && forall j :: 0 <= j < i ==> full[j] == 0
      invariant first != -1 ==> 0 <= first <= last < i && full[first] != 0 && full[last] != 0
      invariant first != -1 ==> forall j :: 0 <= j < first || last < j < i ==> full[j] == 0
    {
      var state := full[i];
      if state != 0 && state != FAIL_STATE {
        if first < 0 { first := i; }
        last := i;
      }
    }
    var cnt := last - first + 1;
    p := [ACF_BANDED, 0, cnt, first % 0x1_0000_0000];
    var i := first;
    while i <= last
      invariant first <= i && (first == -1 ==> i == -1)
      invariant first != -1 ==> i <= last + 1 && |p| == 4 + i - first
      invariant first == -1 ==> |p| == 4
      invariant p[..4] == [ACF_BANDED, 0, cnt, first % 0x1_0000_0000]
      invariant forall j :: first <= j < i ==> p[4 + j - first] == full[j]
    {
      p := p + [full[i]];
      i := i + 1;
    }
    assert p[0] == p[..4][0] && p[1] == p[..4][1] && p[2] == p[..4][2] && p[3] == p[..4][3];
    if first != -1 {
      assert p[4 + first - first] == full[first] && p[4 + last - first] == full[last];
    }
  }

  // ------------------------------------------------------------- sparse bands

  // Bands [begin, end] in ascending order, none touching the next, that start
  // and end at a transition and leave no transition below `limit` out.
  ghost predicate AreBands(full: Full, begin: seq<int>, end: seq<int>, nb: nat, limit: nat)
    requires nb <= |begin| && nb <= |end| && limit <= 256
  {
    && (forall k :: 0 <= k < nb ==> IsBand(full, begin, end, k, limit))
    && (forall j, k :: 0 <= j < k < nb ==> IsBefore(begin, end, j, k))
    && (forall i {:trigger InBand(begin, end, nb, i)} :: 0 <= i < limit && full[i] != 0 ==> InBand(begin, end, nb, i))
  }

  ghost predicate IsBand(full: Full, begin: seq<int>, end: seq<int>, k: nat, limit: nat)
    requires k < |begin| && k < |end| && limit <= 256
  {
    0 <= begin[k] <= end[k] < limit && full[begin[k]] != 0 && full[end[k]] != 0
  }

  ghost predicate IsBefore(begin: seq<int>, end: seq<int>, j: nat, k: nat)
    requires k < |begin| && j < |end|
  {
    end[j] < begin[k]
  }

  // More than zmax missing transitions lie between two consecutive bands.
  ghost predicate IsApart(begin: seq<int>, end: seq<int>, k: nat, zmax: int)
    requires 0 < k < |begin| && k <= |end|
  {
    begin[k] - end[k - 1] - 1 > zmax
  }

  ghost predicate IsDenseBand(full: Full, begin: seq<int>, end: seq<int>, k: nat, zmax: int)
    requires k < |begin| && k < |end|
  {
    0 <= begin[k] && end[k] < 256 && IsDense(full, begin[k], end[k], zmax)
  }

  ghost predicate InBand(begin: seq<int>, end: seq<int>, nb: nat, i: int)
    requires nb <= |begin| && nb <= |end|
  {
    exists k :: 0 <= k < nb && begin[k] <= i <= end[k]
  }

  // Nowhere from first to last do more than zmax missing transitions follow each
  // other.
  ghost predicate IsDense(full: Full, first: int, last: int, zmax: int)
    requires 0 <= first && last < 256
  {
    forall i :: first <= i && i + Zeros(zmax) <= last ==> HasTransition(full, i, Zeros(zmax))
  }

  // Among this byte and the n that follow it.
  ghost predicate HasTransition(full: Full, i: int, n: nat)
    requires 0 <= i && i + n < 256
  {
    exists j :: i <= j <= i + n && full[j] != 0
  }

  function Zeros(zmax: int): nat {
    if zmax < 0 then 0 else zmax
  }

  // One more transition, after so many missing ones.
  lemma {:induction false} DenseGrows(full: Full, first: int, last: int, next: int, zmax: int)
    requires 0 <= first <= last < next < 256 && IsDense(full, first, last, zmax)
    requires full[last] != 0 && full[next] != 0 && next - last - 1 <= Zeros(zmax)
    ensures IsDense(full, first, next, zmax)
  {
    forall i | first <= i && i + Zeros(zmax) <= next ensures HasTransition(full, i, Zeros(zmax)) {
      if i + Zeros(zmax) == next {
        assert full[next] != 0;
      } else if i + Zeros(zmax) > last {
        assert full[last] != 0 && i <= last;
      } else {
        assert HasTransition(full, i, Zeros(zmax));
      }
    }
  }

  lemma {:induction false} DenseAlone(full: Full, i: Byte, zmax: int)
    requires full[i] != 0
    ensures IsDense(full, i, i, zmax)
  {
    assert forall j :: i <= j && j + Zeros(zmax) <= i ==> full[i] != 0 && HasTransition(full, j, Zeros(zmax));
  }

  // The inner loop of `calcSparseBands`: a band that starts at `start` goes on
  // until more than zmax missing transitions follow each other. Returns its
  // last transition and where the scan stopped.
  method BandEnd(next: array<Word>, start: nat, zmax: int) returns (last: nat, i: nat)
    requires next.Length == 256 && AreStates(next[..])
    requires start < 256 && next[start] != 0
    ensures start <= last < i <= 256 && next[last] != 0
    ensures forall j :: last < j < Min(i + 1, 256) ==> next[j] == 0
    ensures i < 256 ==> i - last > zmax
    ensures IsDense(next[..], start, last, zmax)
  {
    hide IsDense;
    ghost var full: Full := next[..];
    var zcnt := 0;
    i, last := start, start;
    DenseAlone(full, start, zmax);
    while i < 256
      invariant start <= i <= 256 && start <= last < 256 && last <= i
      invariant next[last] != 0
      invariant if i == start then zcnt == 0 && last == start else last < i && zcnt == i - last - 1
      invariant forall j :: last < j < i ==> next[j] == 0
      invariant zcnt <= Zeros(zmax) && IsDense(full, start, last, zmax)
    {
      var state := next[i];
      if state == 0 || state == FAIL_STATE {
        zcnt := zcnt + 1;
        if zcnt > zmax { break; }
      } else {
        if i > last {
          DenseGrows(full, start, last, i, zmax);
        }
        zcnt := 0;
        last := i;
      }
      i := i + 1;
    }
  }

  // The bands found when the scan has come to byte i: consecutive bands are
  // more than zmax bytes apart, and inside a band no two transitions are.
  ghost predicate BandsUpTo(full: Full, begin: seq<int>, end: seq<int>, nb: nat, zmax: int, i: nat)
    requires nb <= |begin| && nb <= |end|
  {
    && AreBands(full, begin, end, nb, Min(i, 256))
    && (forall k :: 0 < k < nb ==> IsApart(begin, end, k, zmax))
    && (forall k :: 0 <= k < nb ==> IsDenseBand(full, begin, end, k, zmax))
    && (nb > 0 && i < 256 ==> i - end[nb - 1] - 1 > zmax)
  }

  // `calcSparseBands`
  method CalcSparseBands(next: array<Word>, begin: array<int>, end: array<int>, zmax: int)
    returns (nbands: nat)
    requires next.Length == 256 && AreStates(next[..])
    requires begin.Length == 256 && end.Length == 256 && begin != end
    modifies begin, end
    ensures nbands <= 256
    ensures BandsUpTo(next[..], begin[..], end[..], nbands, zmax, 256)
  {
    nbands := 0;
    var i := 0;
    while i < 256
      invariant 0 <= i <= 257 && nbands <= i && nbands <= 256
      invariant BandsUpTo(next[..], begin[..], end[..], nbands, zmax, i)
    {
      var state := next[i];
      if state != 0 && state != FAIL_STATE {
        ghost var begin0, end0, start := begin[..], end[..], i;
        begin[nbands] := i;
        var last, stop := BandEnd(next, i, zmax);
        i := stop;
        end[nbands] := last;
        BandsGrow(next[..], begin0, end0, nbands, zmax, start, last, i);
        nbands := nbands + 1;
      } else {
        BandsSkip(next[..], begin[..], end[..], nbands, zmax, i);
      }
      i := i + 1;
    }
  }

  function Min(a: int, b: int): int {
    if a < b then a else b
  }

  lemma {:induction false} BandsSkip(full: Full, begin: seq<int>, end: seq<int>, nb: nat, zmax: int, i: Byte)
    requires nb <= |begin| && nb <= |end| && BandsUpTo(full, begin, end, nb, zmax, i) && full[i] == 0
    ensures BandsUpTo(full, begin, end, nb, zmax, i + 1)
  {
    hide IsDense;
    var limit: nat := i + 1;
    forall k | 0 <= k < nb ensures IsBand(full, begin, end, k, limit) {
      assert IsBand(full, begin, end, k, i);
    }
    forall j | 0 <= j < i + 1 && full[j] != 0 ensures InBand(begin, end, nb, j) {
      assert j != i;
    }
  }

  lemma {:induction false} BandsGrow(full: Full, begin: seq<int>, end: seq<int>, nb: nat, zmax: int, start: Byte,
        last: Byte, i: nat)
    requires |begin| == |end| && nb < |begin| && BandsUpTo(full, begin, end, nb, zmax, start)
    requires start <= last && full[start] != 0 && full[last] != 0 && last < i <= 256
    requires i < 256 ==> i - last > zmax
    requires forall j :: last < j < Min(i + 1, 256) ==> full[j] == 0
    requires IsDense(full, start, last, zmax)
    ensures BandsUpTo(full, begin[nb := start], end[nb := last], nb + 1, zmax, i + 1)
  {
    hide IsDense;
    var begin', end', limit := begin[nb := start], end[nb := last], Min(i + 1, 256);
    forall k | 0 <= k < nb + 1 ensures IsBand(full, begin', end', k, limit) {
      assert k < nb ==> IsBand(full, begin, end, k, start);
    }
    forall j, k | 0 <= j < k < nb + 1 ensures IsBefore(begin', end', j, k) {
      assert k < nb ==> IsBefore(begin, end, j, k);
      assert IsBand(full, begin, end, j, start);
    }
    forall k | 0 < k < nb + 1 ensures IsApart(begin', end', k, zmax) {
      assert k < nb ==> IsApart(begin, end, k, zmax);
    }
    forall k | 0 <= k < nb + 1 ensures IsDenseBand(full, begin', end', k, zmax) {
      assert k < nb ==> IsDenseBand(full, begin, end, k, zmax);
    }
    forall j | 0 <= j < limit && full[j] != 0 ensures InBand(begin', end', nb + 1, j) {
      if j < start {
        assert InBand(begin, end, nb, j);
        var k :| 0 <= k < nb && begin[k] <= j <= end[k];
        assert begin'[k] <= j <= end'[k];
      } else {
        assert begin'[nb] <= j <= end'[nb];
      }
    }
  }

  // Where the words of band k start, behind the three words of the header.
  ghost function BandOffset(begin: seq<int>, end: seq<int>, k: nat): (o: int)
    requires k <= |begin| && k <= |end|
  {
    if k == 0 then 3 else BandOffset(begin, end, k - 1) + 2 + (end[k - 1] - begin[k - 1] + 1)
  }

  ghost predicate BandWritten(ps: seq<Word>, full: Full, begin: seq<int>, end: seq<int>, k: nat)
    requires k < |begin| && k < |end|
  {
    var o, n := BandOffset(begin, end, k), end[k] - begin[k] + 1;
    && 0 <= begin[k] <= end[k] < 256
    && 3 <= o && o + 2 + n <= |ps|
    && ps[o] == n && ps[o + 1] == begin[k]
    && ps[o + 2..o + 2 + n] == full[begin[k]..end[k] + 1]
  }

  // Skipping a whole band at a time is sound because the bands ascend.
  lemma {:induction false} BandsRead(ps: seq<Word>, full: Full, begin: seq<int>, end: seq<int>, nb: nat, k: nat,
        c: Byte)
    requires nb <= |begin| && nb <= |end| && k <= nb
    requires AreBands(full, begin, end, nb, 256)
    requires forall j :: 0 <= j < nb ==> BandWritten(ps, full, begin, end, j)
    ensures var o := BandOffset(begin, end, k); 0 <= o && BandsFit(ps, o, nb - k)
    ensures (forall j :: 0 <= j < k ==> end[j] < c) ==>
              ReadBands(ps, BandOffset(begin, end, k), nb - k, c) == full[c]
    decreases nb - k
  {
    if k < nb {
      BandsRead(ps, full, begin, end, nb, k + 1, c);
      assert BandWritten(ps, full, begin, end, k);
      if begin[k] <= c <= end[k] {
        var o, n := BandOffset(begin, end, k), end[k] - begin[k] + 1;
        assert ps[o + 2 + c - begin[k]] == ps[o + 2..o + 2 + n][c - begin[k]]
            == full[begin[k]..end[k] + 1][c - begin[k]];
      } else if c < begin[k] && (forall j :: 0 <= j < k ==> end[j] < c) {
        BetweenBands(full, begin, end, nb, k, c);
      }
    } else {
      if k > 0 {
        assert BandWritten(ps, full, begin, end, k - 1);
      }
      if forall j :: 0 <= j < k ==> end[j] < c {
        BetweenBands(full, begin, end, nb, k, c);
      }
    }
  }

  // A byte between two bands has no transition.
  lemma {:induction false} BetweenBands(full: Full, begin: seq<int>, end: seq<int>, nb: nat, k: nat, c: Byte)
    requires nb <= |begin| && nb <= |end| && k <= nb && AreBands(full, begin, end, nb, 256)
    requires forall j :: 0 <= j < k ==> end[j] < c
    requires k < nb ==> c < begin[k]
    ensures full[c] == 0
  {
    forall j | k <= j < nb ensures c < begin[j] {
      assert IsBand(full, begin, end, k, 256);
      assert k < j ==> IsBefore(begin, end, k, j);
    }
    assert !InBand(begin, end, nb, c);
  }

  // `Conv_Full_DFA_To_SparseBands`, one row.
  method EncodeSparseBands(full: array<Word>, zmax: int) returns (p: seq<Word>)
    requires full.Length == 256 && AreStates(full[..])
    ensures StandsFor(p, full[..]) && HasBands(p, full[..], zmax)
  {
    hide IsDense;
    ghost var f: Full := full[..];
    var bandBegin, bandEnd := new int[256], new int[256];
    var nbands := CalcSparseBands(full, bandBegin, bandEnd, zmax);
    ghost var begin, end := bandBegin[..], bandEnd[..];
    p := [ACF_SPARSEBANDS, 0, nbands];
    for i := 0 to nbands
      invariant |p| == BandOffset(begin, end, i) && |p| >= 3
      invariant p[0] == ACF_SPARSEBANDS && p[1] == 0 && p[2] == nbands
      invariant forall k :: 0 <= k < i ==> BandWritten(p, f, begin, end, k)
    {
      ghost var q := p;
      assert IsBand(f, begin, end, i, 256);
      p := p + [bandEnd[i] - bandBegin[i] + 1, bandBegin[i]];
      var j := bandBegin[i];
      while j <= bandEnd[i]
        invariant bandBegin[i] <= j <= bandEnd[i] + 1
        invariant p == q + [end[i] - begin[i] + 1, begin[i]] + f[begin[i]..j]
      {
        p := p + [full[j]];
        j := j + 1;
      }
      forall k | 0 <= k < i + 1 ensures BandWritten(p, f, begin, end, k) {
        if k < i {
          BandStaysWritten(q, p, f, begin, end, k);
        }
      }
    }
    BandsRead(p, f, begin, end, nbands, 0, 0);
    forall c: Byte ensures ReadBands(p, 3, nbands, c) == f[c] {
      BandsRead(p, f, begin, end, nbands, 0, c);
    }
    assert AreWritten(p, f, begin, end, nbands, zmax);
  }

  // The row is made of the bands that are found, one after the other.
  ghost predicate AreWritten(ps: seq<Word>, full: Full, begin: seq<int>, end: seq<int>, nb: nat, zmax: int)
    requires nb <= |begin| && nb <= |end|
  {
    && |ps| == BandOffset(begin, end, nb) && |ps| >= 3 && ps[0] == ACF_SPARSEBANDS && ps[2] == nb
    && BandsUpTo(full, begin, end, nb, zmax, 256)
    && forall k :: 0 <= k < nb ==> BandWritten(ps, full, begin, end, k)
  }

  ghost predicate HasBands(ps: seq<Word>, full: Full, zmax: int) {
    exists begin: seq<int>, end: seq<int>, nb: nat ::
      nb <= |begin| && nb <= |end| && AreWritten(ps, full, begin, end, nb, zmax)
  }

  lemma {:induction false} BandStaysWritten(q: seq<Word>, p: seq<Word>, full: Full, begin: seq<int>, end: seq<int>,
        k: nat)
    requires k < |begin| && k < |end| && q <= p && BandWritten(q, full, begin, end, k)
    ensures BandWritten(p, full, begin, end, k)
  {
    var o, n := BandOffset(begin, end, k), end[k] - begin[k] + 1;
    assert p[o + 2..o + 2 + n] == q[o + 2..o + 2 + n];
  }
}
