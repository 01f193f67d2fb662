/** The sequence distance module: position-wise mismatch counts, the k-mer
    partition of a sequence, and the pairwise chunk-distance matrix. */
module Distance {
  import opened Wrappers
  import opened Collections

  /** Number of positions at which two equal-length sequences differ. */
  function Mismatches<T(==)>(a: seq<T>, b: seq<T>): nat
    requires |a| == |b|
  {
    if |a| == 0 then 0
    else Mismatches(a[..|a| - 1], b[..|b| - 1]) + (if a[|a| - 1] != b[|b| - 1] then 1 else 0)
  }

  /** A mismatch count is zero exactly when the sequences are equal, is
      symmetric, and never exceeds the length. */
  lemma {:induction false} MismatchesProperties<T>(a: seq<T>, b: seq<T>)
    requires |a| == |b|
    ensures Mismatches(a, b) == Mismatches(b, a)
    ensures Mismatches(a, b) <= |a|
    ensures Mismatches(a, b) == 0 <==> a == b
  {
    if |a| > 0 {
      var a', b' := a[..|a| - 1], b[..|b| - 1];
      MismatchesProperties(a', b');
      assert a == a' + [a[|a| - 1]] && b == b' + [b[|b| - 1]];
      assert a == b ==> a' == b';
    }
  }

  lemma MismatchesSelf<T>(a: seq<T>)
    ensures Mismatches(a, a) == 0
  {
    MismatchesProperties(a, a);
  }

  /** Hamming distance of two equal-length barcodes. */
  function Hamming(a: string, b: string): (d: nat)
    requires |a| == |b|
  {
    Mismatches(a, b)
  }

  /** numpy's broadcasting rule for comparing rows of widths `m` and `n`:
      the widths agree, or one of them is 1. */
  predicate Broadcastable(m: nat, n: nat)
  {
    m == n || m == 1 || n == 1
  }

  /** The width of a broadcast comparison: the common width, or the width
      that is not 1. */
  function BroadcastWidth(m: nat, n: nat): (w: nat)
    requires Broadcastable(m, n)
    ensures w == m || w == n
    ensures m != 1 ==> w == m
    ensures n != 1 ==> w == n
  {
    if m == n then m else if m == 1 then n else m
  }

  /** A row stretched to width `w`: unchanged when it has that width, its one
      element repeated `w` times when it has width 1. */
  function Stretch<T>(a: seq<T>, w: nat): (r: seq<T>)
    requires |a| == w || |a| == 1
    ensures |r| == w
    ensures forall k :: 0 <= k < w ==> r[k] == (if |a| == w then a[k] else a[0])
  {
    if |a| == w then a else seq(w, _ => a[0])
  }

  /** The mismatch count numpy computes for two rows by `sum(a != b)`: the
      position-wise count for rows of one width, and otherwise the number of
      elements of the wider row that differ from the one element of the row
      of width 1. `BroadcastFacts` proves it is the position-wise count of
      both rows stretched to the broadcast width. */
  function BroadcastMismatches<T(==)>(a: seq<T>, b: seq<T>): nat
    requires Broadcastable(|a|, |b|)
  {
    if |a| == |b| then Mismatches(a, b)
    else if |a| == 1 then CountOther(b, a[0])
    else CountOther(a, b[0])
  }

  /** Number of elements of `s` other than `x`. */
  function CountOther<T(==)>(s: seq<T>, x: T): (c: nat)
    ensures c <= |s|
  {
    if |s| == 0 then 0 else CountOther(s[..|s| - 1], x) + (if s[|s| - 1] != x then 1 else 0)
  }

  /** The broadcast count is the position-wise count of both rows stretched
      to the broadcast width. It is symmetric, never exceeds the broadcast
      width, and is zero exactly when the stretched rows are equal. */
  lemma BroadcastFacts<T>(a: seq<T>, b: seq<T>)
    requires Broadcastable(|a|, |b|)
    ensures var w := BroadcastWidth(|a|, |b|);
            BroadcastMismatches(a, b) == Mismatches(Stretch(a, w), Stretch(b, w))
    ensures BroadcastMismatches(a, b) == BroadcastMismatches(b, a)
    ensures BroadcastMismatches(a, b) <= BroadcastWidth(|a|, |b|)
    ensures var w := BroadcastWidth(|a|, |b|);
            BroadcastMismatches(a, b) == 0 <==> Stretch(a, w) == Stretch(b, w)
  {
    var w := BroadcastWidth(|a|, |b|);
    var sa, sb := Stretch(a, w), Stretch(b, w);
    MismatchesProperties(sa, sb);
    if |a| == |b| {
      MismatchesProperties(a, b);
    } else {
      if |a| == 1 {
        assert sb == b;
        MismatchesConstant(a[0], b);
      } else {
        assert sa == a;
        MismatchesConstant(b[0], a);
        MismatchesProperties(seq(|a|, _ => b[0]), a);
      }
    }
  }

  /** Comparing a row with a constant row counts the elements other than the
      constant. */
  lemma {:induction false} MismatchesConstant<T>(x: T, b: seq<T>)
    ensures Mismatches(seq(|b|, _ => x), b) == CountOther(b, x)
  {
    if |b| > 0 {
      var b' := b[..|b| - 1];
      MismatchesConstant(x, b');
      assert seq(|b|, _ => x)[..|b| - 1] == seq(|b'|, _ => x);
    }
  }

  /** The k-mer partition of a sequence: consecutive chunks of `n`
      characters; a trailing piece shorter than `n` is dropped, and a
      width below 1 gives no chunks. Width 1 gives the characters. */
  function SeqPartition(n: int, s: string): (r: seq<string>)
    ensures n >= 1 ==> |r| == |s| / n
    ensures n >= 1 ==> forall i :: 0 <= i < |r| ==> |r[i]| == n
    ensures n <= 0 ==> r == []
  {
    if n == 1 then seq(|s|, i requires 0 <= i < |s| => [s[i]])
    else if n <= 0 then []
    else seq(|s| / n, i requires 0 <= i < |s| / n => Chunk(n, s, i))
  }

  /** Chunk `i` of the partition at width `n`. */
  function Chunk(n: int, s: string, i: nat): (c: string)
    requires n >= 1 && i < |s| / n
    ensures |c| == n
  {
    ChunkEnd(|s|, n, i);
    s[i * n .. i * n + n]
  }

  lemma ChunkEnd(len: nat, n: int, i: nat)
    requires n >= 1 && i < len / n
    ensures i * n + n <= len
  {
    assert (i + 1) * n <= (len / n) * n;
  }

  /** Concatenation of a sequence of strings. */
  function Join(parts: seq<string>): string
  {
    if |parts| == 0 then [] else Join(parts[..|parts| - 1]) + parts[|parts| - 1]
  }

  /** The chunks of a partition are consecutive slices of the sequence. */
  lemma PartitionAt(n: int, s: string, i: nat)
    requires n >= 1 && i < |SeqPartition(n, s)|
    ensures i * n + n <= |s| && SeqPartition(n, s)[i] == s[i * n .. i * n + n]
  {
    ChunkEnd(|s|, n, i);
  }

  /** Joining the chunks gives back the sequence up to the dropped tail. */
  lemma {:induction false} PartitionJoin(n: int, s: string, m: nat)
    requires n >= 1 && m <= |SeqPartition(n, s)|
    ensures m * n <= |s| && Join(SeqPartition(n, s)[..m]) == s[..m * n]
  {
    var r := SeqPartition(n, s);
    if m == 0 {
      assert r[..0] == [];
    } else {
      PartitionJoin(n, s, m - 1);
      PartitionAt(n, s, m - 1);
      var p := (m - 1) * n;
      assert m * n == p + n by { MulSucc(m - 1, n); }
      assert r[..m] == r[..m - 1] + [r[m - 1]];
      assert Join(r[..m]) == s[..p] + s[p .. p + n];
      assert s[..p + n] == s[..p] + s[p .. p + n];
    }
  }

  lemma MulSucc(a: nat, n: int)
    ensures (a + 1) * n == a * n + n
  {
  }

  /** Width 1 partitions a sequence into its characters, and joining them
      gives the sequence back. */
  lemma PartitionOne(s: string)
    ensures |SeqPartition(1, s)| == |s|
    ensures forall i :: 0 <= i < |s| ==> SeqPartition(1, s)[i] == [s[i]]
    ensures Join(SeqPartition(1, s)) == s
  {
    PartitionJoin(1, s, |s|);
    assert SeqPartition(1, s)[..|s|] == SeqPartition(1, s);
  }

  /** Number of chunks at width `k`. */
  function ChunkCount(k: int, s: string): nat
  {
    |SeqPartition(k, s)|
  }

  /** The chunk lists of all sources agree in length, so do those of all
      targets, and every source's broadcasts against every target's: the
      condition under which the chunk lists form rectangular arrays that can
      be compared. With no sources or no targets nothing is compared. */
  predicate ChunksAgree(k: int, src: seq<string>, tgt: seq<string>)
  {
    && (forall i, j :: 0 <= i < |src| && 0 <= j < |src| ==> ChunkCount(k, src[i]) == ChunkCount(k, src[j]))
    && (forall i, j :: 0 <= i < |tgt| && 0 <= j < |tgt| ==> ChunkCount(k, tgt[i]) == ChunkCount(k, tgt[j]))
    && (forall i, j :: 0 <= i < |src| && 0 <= j < |tgt| ==> Broadcastable(ChunkCount(k, src[i]), ChunkCount(k, tgt[j])))
  }

  /** Number of chunk positions at which two sequences differ, a single
      chunk being compared with every chunk of the other sequence. */
  function ChunkDistance(k: int, a: string, b: string): nat
    requires Broadcastable(ChunkCount(k, a), ChunkCount(k, b))
  {
    BroadcastMismatches(SeqPartition(k, a), SeqPartition(k, b))
  }

  /** At width 1 the chunk distance is the broadcast character count, which
      for equal lengths is the Hamming distance. */
  lemma {:induction false} ChunkDistanceOne(a: string, b: string)
    requires Broadcastable(|a|, |b|)
    ensures Broadcastable(ChunkCount(1, a), ChunkCount(1, b))
    ensures ChunkDistance(1, a, b) == BroadcastMismatches(a, b)
    ensures |a| == |b| ==> ChunkDistance(1, a, b) == Hamming(a, b)
  {
    PartitionOne(a);
    PartitionOne(b);
    var w := BroadcastWidth(|a|, |b|);
    StretchPartition(a, w);
    StretchPartition(b, w);
    MismatchesOfSingletons(Stretch(a, w), Stretch(b, w));
    BroadcastFacts(a, b);
    BroadcastFacts(SeqPartition(1, a), SeqPartition(1, b));
  }

  /** Stretching commutes with the width-1 partition. */
  lemma StretchPartition(a: string, w: nat)
    requires |a| == w || |a| == 1
    ensures Stretch(SeqPartition(1, a), w) == SeqPartition(1, Stretch(a, w))
  {
    PartitionOne(a);
    PartitionOne(Stretch(a, w));
  }

  lemma {:induction false} MismatchesOfSingletons(a: string, b: string)
    requires |a| == |b|
    ensures Mismatches(SeqPartition(1, a), SeqPartition(1, b)) == Mismatches(a, b)
  {
    if |a| > 0 {
      var a', b' := a[..|a| - 1], b[..|b| - 1];
      MismatchesOfSingletons(a', b');
      assert SeqPartition(1, a)[..|a| - 1] == SeqPartition(1, a');
      assert SeqPartition(1, b)[..|b| - 1] == SeqPartition(1, b');
    }
  }

  /** Fills the matrix of mismatch counts between chunk arrays whose rows
      broadcast against each other: column by column when there are more
      sources than targets, row by row otherwise (each column or row at once,
      as one vectorised comparison). */
  method FillDistances(sp: seq<seq<string>>, tp: seq<seq<string>>) returns (d: array2<int>)
    requires forall i, j :: 0 <= i < |sp| && 0 <= j < |tp| ==> Broadcastable(|sp[i]|, |tp[j]|)
    ensures fresh(d) && d.Length0 == |sp| && d.Length1 == |tp|
    ensures forall i, j :: 0 <= i < |sp| && 0 <= j < |tp| ==> d[i, j] == BroadcastMismatches(sp[i], tp[j])
  {
    d := new int[|sp|, |tp|]((i, j) => 0);
    if |sp| > |tp| {
      for j := 0 to |tp|
        invariant forall i', j' :: 0 <= i' < |sp| && 0 <= j' < j ==> d[i', j'] == BroadcastMismatches(sp[i'], tp[j'])
      {
        forall i | 0 <= i < |sp| {
          d[i, j] := BroadcastMismatches(sp[i], tp[j]);
        }
      }
    } else {
      for i := 0 to |sp|
        invariant forall i', j' :: 0 <= i' < i && 0 <= j' < |tp| ==> d[i', j'] == BroadcastMismatches(sp[i'], tp[j'])
      {
        forall j | 0 <= j < |tp| {
          d[i, j] := BroadcastMismatches(tp[j], sp[i]);
        }
        forall j | 0 <= j < |tp| ensures d[i, j] == BroadcastMismatches(sp[i], tp[j]) {
          BroadcastFacts(tp[j], sp[i]);
        }
      }
    }
  }

  /** The sources after the optional de-duplication. */
  function Sources(source: seq<string>, deduplicate: bool): seq<string>
  {
    if deduplicate then Uniques(source) else source
  }

  /** The targets: the (de-duplicated) sources when no target list is given. */
  function Targets(source: seq<string>, target: Option<seq<string>>, deduplicate: bool): seq<string>
  {
    if target.None? then Sources(source, deduplicate)
    else if deduplicate then Uniques(target.value) else target.value
  }

  /** The pairwise chunk-distance matrix between source and target barcodes
      (the sources against themselves when no targets are given), after an
      optional de-duplication. Returns None when the chunk lists do not form
      rectangular arrays whose rows broadcast against each other. */
  method SequenceDistance(source: seq<string>, target: Option<seq<string>>, k: int, deduplicate: bool)
    returns (r: Option<array2<int>>)
    ensures r.Some? <==> ChunksAgree(k, Sources(source, deduplicate), Targets(source, target, deduplicate))
    ensures r.Some? ==> fresh(r.value)
    ensures r.Some? ==> r.value.Length0 == |Sources(source, deduplicate)|
    ensures r.Some? ==> r.value.Length1 == |Targets(source, target, deduplicate)|
    ensures r.Some? ==> forall i, j :: 0 <= i < r.value.Length0 && 0 <= j < r.value.Length1 ==>
              r.value[i, j] == ChunkDistance(k, Sources(source, deduplicate)[i], Targets(source, target, deduplicate)[j])
    ensures r.Some? && target.None? ==> forall i, j :: 0 <= i < r.value.Length0 && 0 <= j < r.value.Length0 ==>
              r.value[i, j] == r.value[j, i]
    ensures r.Some? && target.None? ==> forall i :: 0 <= i < r.value.Length0 ==> r.value[i, i] == 0
  {
    var src := Sources(source, deduplicate);
    var tgt := Targets(source, target, deduplicate);
    if !ChunksAgree(k, src, tgt) {
      return None;
    }
    var sp := seq(|src|, i requires 0 <= i < |src| => SeqPartition(k, src[i]));
    var tp := seq(|tgt|, j requires 0 <= j < |tgt| => SeqPartition(k, tgt[j]));
    var d := FillDistances(sp, tp);
    if target.None? {
      assert sp == tp;
      forall i, j | 0 <= i < |src| && 0 <= j < |src| ensures d[i, j] == d[j, i] {
        BroadcastFacts(sp[i], sp[j]);
      }
      forall i | 0 <= i < |src| ensures d[i, i] == 0 {
        BroadcastFacts(sp[i], sp[i]);
        MismatchesSelf(sp[i]);
      }
    }
    r := Some(d);
  }

  /** Width-1 chunk lists broadcast against longer ones: with sources "A"
      and "C" and targets "AAA" and "CCC" at width 1 the chunk lists agree,
      and the distances are 0 and 3 from "A", 3 and 0 from "C". */
  lemma SequenceDistanceBroadcastExample(src: seq<string>, tgt: seq<string>)
    requires src == ["A", "C"] && tgt == ["AAA", "CCC"]
    ensures ChunksAgree(1, src, tgt)
    ensures ChunkDistance(1, src[0], tgt[0]) == 0 && ChunkDistance(1, src[0], tgt[1]) == 3
    ensures ChunkDistance(1, src[1], tgt[0]) == 3 && ChunkDistance(1, src[1], tgt[1]) == 0
  {
    forall i, j | 0 <= i < 2 && 0 <= j < 2
      ensures Broadcastable(ChunkCount(1, src[i]), ChunkCount(1, tgt[j]))
      ensures ChunkDistance(1, src[i], tgt[j]) == BroadcastMismatches(src[i], tgt[j])
    {
      ChunkDistanceOne(src[i], tgt[j]);
    }
    forall i | 0 <= i < 2 ensures ChunkCount(1, src[i]) == 1 && ChunkCount(1, tgt[i]) == 3 {
      PartitionOne(src[i]);
      PartitionOne(tgt[i]);
    }
    assert "AAA"[..2] == "AA" && "AA"[..1] == "A" && "A"[..0] == "";
    assert "CCC"[..2] == "CC" && "CC"[..1] == "C" && "C"[..0] == "";
    assert CountOther("AAA", 'C') == 3 && CountOther("CCC", 'A') == 3;
  }
}
