/** `consensus_sequence`: the sequences, as bytes, are stacked into a matrix
    and each column is replaced by its median, truncated to a byte. */
module Consensus {
  import opened Wrappers
  import opened Ranking

  type Byte = b: int | 0 <= b < 256

  datatype ConsensusError =
    | NoSequences     // the median of no values is not a byte
    | UnequalLengths  // sequences of different lengths do not stack into a matrix

  /** The byte value as the sort key. */
  function Value(b: Byte): int
  {
    b
  }

  /** The middle value of values sorted in descending order, or for an even
      number of values the mean of the two middle ones rounded down. */
  function Middle(s: seq<Byte>): Byte
    requires |s| > 0
  {
    var n := |s|;
    if n % 2 == 1 then s[n / 2] else (s[n / 2 - 1] as int + s[n / 2] as int) / 2
  }

  /** The median of a column, as numpy computes it and the cast to `uint8`
      truncates it; it lies between the column's smallest and largest
      value. */
  function Median(col: seq<Byte>): (m: Byte)
    requires |col| > 0
    ensures exists i :: 0 <= i < |col| && col[i] <= m
    ensures exists j :: 0 <= j < |col| && m <= col[j]
  {
    var s := SortDesc(col, Value);
    MiddleFacts(s);
    assert s[|s| / 2] in multiset(col);
    assert s[if |s| % 2 == 1 then |s| / 2 else |s| / 2 - 1] in multiset(col);
    Middle(s)
  }

  /** The number of values satisfying `p`. */
  function CountWhere(xs: seq<Byte>, p: Byte -> bool): nat
  {
    if |xs| == 0 then 0
    else CountWhere(xs[..|xs| - 1], p) + (if p(xs[|xs| - 1]) then 1 else 0)
  }

  function AtLeast(v: int): Byte -> bool
  {
    (b: Byte) => b >= v
  }

  function AtMost(v: int): Byte -> bool
  {
    (b: Byte) => b <= v
  }

  lemma {:induction false} CountConcat(a: seq<Byte>, b: seq<Byte>, p: Byte -> bool)
    ensures CountWhere(a + b, p) == CountWhere(a, p) + CountWhere(b, p)
  {
    if |b| > 0 {
      var n := |b| - 1;
      CountConcat(a, b[..n], p);
      assert (a + b)[..|a + b| - 1] == a + b[..n];
      assert (a + b)[|a + b| - 1] == b[n];
      assert CountWhere(a + b, p) == CountWhere(a + b[..n], p) + (if p(b[n]) then 1 else 0);
      assert CountWhere(b, p) == CountWhere(b[..n], p) + (if p(b[n]) then 1 else 0);
    } else {
      assert a + b == a;
    }
  }

  /** Counting does not depend on the order of the values. */
  lemma {:induction false} CountPermutation(xs: seq<Byte>, ys: seq<Byte>, p: Byte -> bool)
    requires multiset(xs) == multiset(ys)
    ensures CountWhere(xs, p) == CountWhere(ys, p)
    decreases |xs|
  {
    if |xs| > 0 {
      var n := |xs| - 1;
      var x := xs[n];
      assert xs == xs[..n] + [x];
      assert x in multiset(ys);
      var k :| 0 <= k < |ys| && ys[k] == x;
      var rest := ys[..k] + ys[k + 1..];
      assert ys == ys[..k] + [x] + ys[k + 1..];
      assert multiset(ys) == multiset(ys[..k]) + multiset{x} + multiset(ys[k + 1..]);
      assert multiset(xs) == multiset(xs[..n]) + multiset{x};
      assert multiset(rest) == multiset(ys[..k]) + multiset(ys[k + 1..]);
      assert multiset(rest) == multiset(ys) - multiset{x};
      assert multiset(xs[..n]) == multiset(xs) - multiset{x};
      CountPermutation(xs[..n], rest, p);
      CountConcat(ys[..k] + [x], ys[k + 1..], p);
      CountConcat(ys[..k], [x], p);
      CountConcat(ys[..k], ys[k + 1..], p);
      assert CountWhere([x], p) == (if p(x) then 1 else 0) by {
        assert [x][..0] == [];
      }
    }
  }

  /** When every value satisfies `p`, all of them are counted. */
  lemma {:induction false} CountAll(xs: seq<Byte>, p: Byte -> bool)
    requires forall i :: 0 <= i < |xs| ==> p(xs[i])
    ensures CountWhere(xs, p) == |xs|
  {
    if |xs| > 0 {
      CountAll(xs[..|xs| - 1], p);
    }
  }

  /** A sorted prefix of values at least `m` is counted. */
  lemma PrefixAtLeast(s: seq<Byte>, m: int, q: nat)
    requires q <= |s| && forall i :: 0 <= i < q ==> s[i] >= m
    ensures CountWhere(s, AtLeast(m)) >= q
  {
    var t := s[..q];
    assert s == t + s[q..];
    forall i | 0 <= i < q ensures AtLeast(m)(t[i]) {
      assert t[i] == s[i];
    }
    CountAll(t, AtLeast(m));
    CountConcat(t, s[q..], AtLeast(m));
  }

  /** A sorted suffix of values at most `m` is counted. */
  lemma SuffixAtMost(s: seq<Byte>, m: int, q: nat)
    requires q <= |s| && forall i :: q <= i < |s| ==> s[i] <= m
    ensures CountWhere(s, AtMost(m)) >= |s| - q
  {
    var t := s[q..];
    assert s == s[..q] + t;
    forall i | 0 <= i < |t| ensures AtMost(m)(t[i]) {
      assert t[i] == s[q + i];
    }
    CountAll(t, AtMost(m));
    CountConcat(s[..q], t, AtMost(m));
  }

  /** In a descending sequence, the values up to the middle are no smaller
      than `Middle` and those from the middle on are no larger. */
  lemma MiddleFacts(s: seq<Byte>)
    requires |s| > 0 && SortedDesc(s, Value)
    ensures var h := |s| / 2;
            var hi := if |s| % 2 == 1 then h else h - 1;
            && 0 <= hi <= h < |s|
            && s[hi] >= Middle(s) >= s[h]
            && (forall i :: 0 <= i <= hi ==> s[i] >= Middle(s))
            && (forall i :: h <= i < |s| ==> s[i] <= Middle(s))
  {
    var h := |s| / 2;
    var hi := if |s| % 2 == 1 then h else h - 1;
    assert Value(s[hi]) >= Value(s[h]);
    forall i | 0 <= i <= hi ensures s[i] >= Middle(s) {
      assert Value(s[i]) >= Value(s[hi]);
    }
    forall i | h <= i < |s| ensures s[i] <= Middle(s) {
      assert Value(s[h]) >= Value(s[i]);
    }
  }

  /** The median is at most the largest and at least the smallest value of
      the column, and for a column of one repeated value it is that value. */
  lemma MedianBounds(col: seq<Byte>)
    requires |col| > 0
    ensures var m := Median(col);
            && (exists i :: 0 <= i < |col| && col[i] <= m)
            && (exists j :: 0 <= j < |col| && m <= col[j])
            && ((forall i :: 0 <= i < |col| ==> col[i] == col[0]) ==> m == col[0])
  {
    var s := SortDesc(col, Value);
    var h := |s| / 2;
    var hi := if |s| % 2 == 1 then h else h - 1;
    MiddleFacts(s);
    assert s[h] in multiset(col) && s[hi] in multiset(col);
    assert s[h] in col && s[hi] in col;
  }

  /** In a descending sequence at least half of the values are no smaller
      than `Middle` and at least half are no larger. */
  lemma MiddleHalves(s: seq<Byte>)
    requires |s| > 0 && SortedDesc(s, Value)
    ensures 2 * CountWhere(s, AtLeast(Middle(s))) >= |s|
    ensures 2 * CountWhere(s, AtMost(Middle(s))) >= |s|
  {
    var h := |s| / 2;
    MiddleFacts(s);
    PrefixAtLeast(s, Middle(s), if |s| % 2 == 1 then h + 1 else h);
    SuffixAtMost(s, Middle(s), h);
  }

  /** At least half of the values of the column are no smaller than the
      median, and at least half are no larger. */
  lemma MedianHalves(col: seq<Byte>)
    requires |col| > 0
    ensures 2 * CountWhere(col, AtLeast(Median(col))) >= |col|
    ensures 2 * CountWhere(col, AtMost(Median(col))) >= |col|
  {
    var s := SortDesc(col, Value);
    MiddleHalves(s);
    CountPermutation(s, col, AtLeast(Middle(s)));
    CountPermutation(s, col, AtMost(Middle(s)));
  }

  /** Column `k` of the stacked sequences. */
  function Column(xs: seq<seq<Byte>>, k: nat): (col: seq<Byte>)
    requires forall i :: 0 <= i < |xs| ==> k < |xs[i]|
    ensures |col| == |xs| && forall i :: 0 <= i < |xs| ==> col[i] == xs[i][k]
  {
    seq(|xs|, i requires 0 <= i < |xs| => xs[i][k])
  }

  /** The sequences all have the length of the first one. */
  predicate SameLength(xs: seq<seq<Byte>>)
  {
    forall i :: 0 <= i < |xs| ==> |xs[i]| == |xs[0]|
  }

  /** `consensus_sequence`, on the byte strings of the sequences. */
  function ConsensusSequence(xs: seq<seq<Byte>>): (r: Result<seq<Byte>, ConsensusError>)
    ensures r.Success? <==> |xs| > 0 && SameLength(xs)
    ensures r.Success? ==> |r.value| == |xs[0]|
  {
    if |xs| == 0 then Failure(NoSequences)
    else if !SameLength(xs) then Failure(UnequalLengths)
    else Success(seq(|xs[0]|, k requires 0 <= k < |xs[0]| => Median(Column(xs, k))))
  }

  /** The consensus exists exactly for a non-empty list of sequences of one
      length; it has that length, and each byte is the median of its column,
      so it lies between the column's smallest and largest byte; a column on
      which all sequences agree keeps that byte, so a single sequence, or a
      list of copies of one, is its own consensus. */
  lemma ConsensusFacts(xs: seq<seq<Byte>>)
    ensures ConsensusSequence(xs).Success? <==> |xs| > 0 && SameLength(xs)
    ensures |xs| == 0 ==> ConsensusSequence(xs) == Failure(NoSequences)
    ensures |xs| > 0 && !SameLength(xs) ==> ConsensusSequence(xs) == Failure(UnequalLengths)
    ensures ConsensusSequence(xs).Success? ==>
              var c := ConsensusSequence(xs).value;
              && |c| == |xs[0]|
              && forall k :: 0 <= k < |c| ==>
                   && (exists i :: 0 <= i < |xs| && xs[i][k] <= c[k])
                   && (exists j :: 0 <= j < |xs| && c[k] <= xs[j][k])
                   && ((forall i :: 0 <= i < |xs| ==> xs[i][k] == xs[0][k]) ==> c[k] == xs[0][k])
    ensures (|xs| > 0 && forall i :: 0 <= i < |xs| ==> xs[i] == xs[0]) ==> ConsensusSequence(xs) == Success(xs[0])
  {
    if |xs| > 0 && SameLength(xs) {
      var c := ConsensusSequence(xs).value;
      forall k | 0 <= k < |c|
        ensures && (exists i :: 0 <= i < |xs| && xs[i][k] <= c[k])
                && (exists j :: 0 <= j < |xs| && c[k] <= xs[j][k])
                && ((forall i :: 0 <= i < |xs| ==> xs[i][k] == xs[0][k]) ==> c[k] == xs[0][k])
      {
        MedianBounds(Column(xs, k));
      }
      if forall i :: 0 <= i < |xs| ==> xs[i] == xs[0] {
        assert c == xs[0];
      }
    }
  }
}
