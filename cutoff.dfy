/** `estimate_read_cutoff`: the table of unique-cell counts per read cutoff
    is sorted by cutoff, largest first, and scanned for the first position
    where the count jumps (the sum of the two neighbours exceeds two and a
    half times the count between them) after two steps of slow growth
    (each count below 1.2 times the one before); the cutoff just past the
    jump is the estimate, and 3 when there is none. The float factors are
    compared cross-multiplied: `a + c > 2.5 * b` as `2 * (a + c) > 5 * b`
    and `a < 1.2 * b` as `5 * a < 6 * b`. */
module ReadCutoff {
  import opened Ranking

  /** One row of the table: a read cutoff and the number of unique cells
      with at least that many reads. */
  datatype CutoffCount = CutoffCount(readCutoff: int, cellCount: nat)

  /** The estimate when no jump is found. */
  const DefaultCutoff: int := 3

  /** The sort key. */
  function CutoffKey(c: CutoffCount): int
  {
    c.readCutoff
  }

  /** The cell counts in table order. */
  function Counts(s: seq<CutoffCount>): (r: seq<nat>)
    ensures |r| == |s| && forall i :: 0 <= i < |s| ==> r[i] == s[i].cellCount
  {
    seq(|s|, i requires 0 <= i < |s| => s[i].cellCount)
  }

  /** Position `j` is a jump after two steps of slow growth; the scan only
      looks at positions with two values after them and tests the growth
      only from position 2 on. */
  predicate Knee(data: seq<nat>, j: int)
  {
    && 2 <= j && j + 2 < |data|
    && 2 * (data[j] + data[j + 2]) > 5 * data[j + 1]
    && 5 * data[j] < 6 * data[j - 1]
    && 5 * data[j - 1] < 6 * data[j - 2]
  }

  /** `j` is the first such position. */
  ghost predicate FirstKnee(data: seq<nat>, j: int)
  {
    Knee(data, j) && forall i :: 0 <= i < j ==> !Knee(data, i)
  }

  /** No position is a jump. */
  ghost predicate NoKnee(data: seq<nat>)
  {
    forall j :: !Knee(data, j)
  }

  /** The scan with its flag and early exit. The estimate is the cutoff just
      after the first jump of the sorted table, or 3 when there is no jump;
      either way it is a cutoff of the table or the default. */
  method EstimateReadCutoff(table: seq<CutoffCount>) returns (cutoff: int)
    ensures var s := SortDesc(table, CutoffKey);
            var data := Counts(s);
            && (forall j :: FirstKnee(data, j) ==> cutoff == s[j + 1].readCutoff)
            && (NoKnee(data) ==> cutoff == DefaultCutoff)
    ensures cutoff == DefaultCutoff || exists i :: 0 <= i < |table| && table[i].readCutoff == cutoff
  {
    var s := SortDesc(table, CutoffKey);
    var data := Counts(s);
    var flag := false;
    cutoff := DefaultCutoff;
    var j := 0;
    while j < |data| - 2
      invariant 0 <= j
      invariant forall i :: 0 <= i < j ==> !Knee(data, i)
      decreases |data| - j
    {
      if 2 * (data[j] + data[j + 2]) > 5 * data[j + 1] {
        if j - 2 >= 0 {
          if 5 * data[j] < 6 * data[j - 1] && 5 * data[j - 1] < 6 * data[j - 2] {
            assert FirstKnee(data, j);
            assert !NoKnee(data);
            KneeUnique(data, j);
            cutoff := s[j + 1].readCutoff;
            SortedCutoffIn(table, j + 1);
            flag := true;
            break;
          }
        }
      }
      j := j + 1;
    }
    if !flag {
      cutoff := DefaultCutoff;
      assert forall i :: FirstKnee(data, i) ==> false;
    }
  }

  /** Every cutoff of the sorted table is a cutoff of the table. */
  lemma SortedCutoffIn(table: seq<CutoffCount>, k: nat)
    requires k < |SortDesc(table, CutoffKey)|
    ensures exists i :: 0 <= i < |table| && table[i].readCutoff == SortDesc(table, CutoffKey)[k].readCutoff
  {
    var s := SortDesc(table, CutoffKey);
    assert s[k] in multiset(table);
    var i :| 0 <= i < |table| && table[i] == s[k];
  }

  /** There is at most one first jump. */
  lemma KneeUnique(data: seq<nat>, j: int)
    requires FirstKnee(data, j)
    ensures forall i :: FirstKnee(data, i) ==> i == j
  {
  }
}
