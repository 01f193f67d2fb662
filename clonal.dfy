/** `denoise_clonal_data`: the target column of the rows at or above the read
    cutoff is denoised, weighted by their reads; rows below the cutoff and
    rows whose corrected target is the string "nan" (the whitelist mode's
    marker from width 3 on) are dropped; optionally this is done
    separately for each value of a partition column, and a partition with no
    row at the cutoff is kept as it is. The surviving rows are aggregated by
    `group_cells` over the requested key columns that exist. */
module Clonal {
  import opened Wrappers
  import opened Collections
  import opened Tables
  import opened Denoise

  /** The settings handed on to `denoise_sequence`. */
  datatype Settings = Settings(threshold: int, methodName: string, whitelist: Option<seq<string>>,
                               align: (string, string) -> int,
                               cluster: (seq<(string, nat)>, int) -> seq<seq<string>>)

  datatype ClonalError =
    | MissingTarget                   // the target column does not exist
    | DenoiseFailed(cause: DenoiseError)
    | NoGroupKeys                     // none of the requested key columns exists
    | NothingToConcatenate            // per-sample mode on a table with no rows: no partition to concatenate

  /** Whether a row is at or above the read cutoff. */
  function AtCutoff(cutoff: int): Row -> bool
  {
    (row: Row) => row.read >= cutoff
  }

  /** Whether a row has value `v` in column `key`. */
  function InPartition(key: string, v: string): Row -> bool
  {
    (row: Row) => key in row.cells && row.cells[key] == v
  }

  /** The rows at or above the read cutoff. */
  function HighQuality(rows: seq<Row>, cutoff: int): seq<Row>
  {
    Filter(rows, AtCutoff(cutoff))
  }

  /** Whether some row is at or above the read cutoff. */
  predicate AnyAtCutoff(rows: seq<Row>, cutoff: int)
  {
    exists i :: 0 <= i < |rows| && rows[i].read >= cutoff
  }

  /** The rows of one partition. */
  function Partition(rows: seq<Row>, key: string, v: string): seq<Row>
  {
    Filter(rows, InPartition(key, v))
  }

  /** A row with its target replaced by `v`. */
  function Retarget(row: Row, target: string, v: string): Row
  {
    row.(cells := row.cells[target := v])
  }

  /** The rows whose correction is present, their target replaced by it, in
      their order; the others are dropped. */
  function Relabel(rows: seq<Row>, corrected: seq<Option<string>>, target: string): (out: seq<Row>)
    requires |rows| == |corrected|
    ensures |out| <= |rows|
  {
    if |rows| == 0 then []
    else
      var n := |rows| - 1;
      var init := Relabel(rows[..n], corrected[..n], target);
      if corrected[n].Some? then init + [Retarget(rows[n], target, corrected[n].value)] else init
  }

  /** The corrected list as the table sees it: the string "nan" is turned
      into a missing value, whose row `dropna` removes; every other string
      is kept. */
  function Unmarked(c: seq<string>): (r: seq<Option<string>>)
    ensures |r| == |c|
    ensures forall i :: 0 <= i < |c| ==> (r[i].None? <==> c[i] == "nan")
    ensures forall i :: 0 <= i < |c| && r[i].Some? ==> r[i].value == c[i]
  {
    seq(|c|, i requires 0 <= i < |c| => if c[i] == "nan" then None else Some(c[i]))
  }

  /** Every relabelled row comes from a row whose correction is present. */
  lemma {:induction false} RelabelFrom(rows: seq<Row>, corrected: seq<Option<string>>, target: string, j: nat)
    requires |rows| == |corrected| && j < |Relabel(rows, corrected, target)|
    ensures exists i :: 0 <= i < |rows| && corrected[i].Some? &&
              Relabel(rows, corrected, target)[j] == Retarget(rows[i], target, corrected[i].value)
  {
    var n := |rows| - 1;
    var init := Relabel(rows[..n], corrected[..n], target);
    if j < |init| {
      RelabelFrom(rows[..n], corrected[..n], target, j);
      var i :| 0 <= i < n && corrected[..n][i].Some? && init[j] == Retarget(rows[..n][i], target, corrected[..n][i].value);
      assert rows[..n][i] == rows[i] && corrected[..n][i] == corrected[i];
    } else {
      assert corrected[n].Some?;
    }
  }

  /** Every row whose correction is present is relabelled. */
  lemma {:induction false} RelabelKeeps(rows: seq<Row>, corrected: seq<Option<string>>, target: string, i: nat)
    requires |rows| == |corrected| && i < |rows| && corrected[i].Some?
    ensures Retarget(rows[i], target, corrected[i].value) in Relabel(rows, corrected, target)
  {
    var n := |rows| - 1;
    if i < n {
      RelabelKeeps(rows[..n], corrected[..n], target, i);
      assert rows[..n][i] == rows[i] && corrected[..n][i] == corrected[i];
    }
  }

  /** With every correction present, each row is relabelled in place. */
  lemma {:induction false} RelabelAll(rows: seq<Row>, corrected: seq<Option<string>>, target: string)
    requires |rows| == |corrected| && forall i :: 0 <= i < |rows| ==> corrected[i].Some?
    ensures |Relabel(rows, corrected, target)| == |rows|
    ensures forall i :: 0 <= i < |rows| ==> Relabel(rows, corrected, target)[i] == Retarget(rows[i], target, corrected[i].value)
  {
    if |rows| > 0 {
      var n := |rows| - 1;
      RelabelAll(rows[..n], corrected[..n], target);
      assert forall i :: 0 <= i < n ==> rows[..n][i] == rows[i] && corrected[..n][i] == corrected[i];
    }
  }

  /** Relabelling keeps the read counts of the relabelled rows. */
  lemma {:induction false} RelabelReads(rows: seq<Row>, corrected: seq<Option<string>>, target: string)
    requires |rows| == |corrected| && forall i :: 0 <= i < |rows| ==> corrected[i].Some?
    ensures Reads(Relabel(rows, corrected, target)) == Reads(rows)
  {
    RelabelAll(rows, corrected, target);
  }

  /** What `denoise_sequence` returns for the target values and reads of the
      rows at or above the cutoff. */
  ghost function CleanMapping(rows: seq<Row>, target: string, cutoff: int, s: Settings): Result<Denoised, DenoiseError>
  {
    var hq := HighQuality(rows, cutoff);
    DenoiseSpec(Column(hq, target), Some(Reads(hq)), s.threshold, s.methodName, s.whitelist, s.align, s.cluster)
  }

  /** A successful `denoise_sequence` gives one entry per input. Without a
      whitelist every input is a key and its entry is its mapped sequence;
      with a whitelist the entry is the mapped sequence cut to the inputs'
      width, or the marker "nan" cut to that width for an input that is no
      key. */
  lemma DenoiseSpecCorrected(input: seq<string>, readCount: Option<seq<nat>>, s: Settings)
    requires DenoiseSpec(input, readCount, s.threshold, s.methodName, s.whitelist, s.align, s.cluster).Success?
    ensures var d := DenoiseSpec(input, readCount, s.threshold, s.methodName, s.whitelist, s.align, s.cluster).value;
            |d.corrected| == |input|
    ensures s.whitelist.None? ==>
              var d := DenoiseSpec(input, readCount, s.threshold, s.methodName, s.whitelist, s.align, s.cluster).value;
              forall i :: 0 <= i < |input| ==> input[i] in d.mapping && d.corrected[i] == d.mapping[input[i]]
    ensures s.whitelist.Some? ==>
              var d := DenoiseSpec(input, readCount, s.threshold, s.methodName, s.whitelist, s.align, s.cluster).value;
              forall i :: 0 <= i < |input| ==> d.corrected[i] == WhitelistEntry(input[i], d.mapping, Width(input))
  {
  }

  /** The rows at or above the cutoff, each with its target replaced by its
      entry of the corrected list `c`, except those whose entry is "nan". */
  function Cleaned(rows: seq<Row>, target: string, cutoff: int, c: seq<string>): seq<Row>
    requires |c| == |HighQuality(rows, cutoff)|
  {
    Relabel(HighQuality(rows, cutoff), Unmarked(c), target)
  }

  /** The non-partitioned cleaning of `rows`. */
  ghost function CleanedRows(rows: seq<Row>, target: string, cutoff: int, s: Settings): Result<seq<Row>, DenoiseError>
  {
    var d := CleanMapping(rows, target, cutoff, s);
    if d.Failure? then Failure(d.error) else Success(Cleaned(rows, target, cutoff, d.value.corrected))
  }

  /** The cleaning of one partition, as a function. */
  ghost function Cleaner(target: string, cutoff: int, s: Settings): seq<Row> -> Result<seq<Row>, DenoiseError>
  {
    (part: seq<Row>) => CleanedRows(part, target, cutoff, s)
  }

  /** The cleaning of `rows` one partition value at a time, in the order of
      `parts`, each partition with a row at the cutoff cleaned by `clean` and
      each other one kept; the first failing partition's error is the
      result. */
  ghost function CleanedPartitions(rows: seq<Row>, key: string, parts: seq<string>, cutoff: int,
                                   clean: seq<Row> -> Result<seq<Row>, DenoiseError>): (r: Result<seq<Row>, DenoiseError>)
    ensures |parts| == 0 ==> r == Success([])
    ensures r.Failure? ==>
              exists j :: 0 <= j < |parts| && AnyAtCutoff(Partition(rows, key, parts[j]), cutoff) &&
                          clean(Partition(rows, key, parts[j])) == r
    decreases |parts|
  {
    if |parts| == 0 then Success([])
    else
      var prev := CleanedPartitions(rows, key, parts[..|parts| - 1], cutoff, clean);
      var part := Partition(rows, key, parts[|parts| - 1]);
      if prev.Failure? then prev
      else if !AnyAtCutoff(part, cutoff) then Success(prev.value + part)
      else
        var c := clean(part);
        if c.Failure? then c else Success(prev.value + c.value)
  }

  /** Whether the table is split by `perSample`. */
  predicate PerSample(t: Table, perSample: Option<string>)
  {
    perSample.Some? && perSample.value in t.columns
  }

  /** The partition values, each once. */
  function PartValues(t: Table, key: string): seq<string>
  {
    Uniques(Column(t.rows, key))
  }

  /** A denoising result with its error wrapped as a `ClonalError`. */
  function Lifted(r: Result<seq<Row>, DenoiseError>): (l: Result<seq<Row>, ClonalError>)
    ensures l.Success? <==> r.Success?
    ensures r.Success? ==> l.value == r.value
    ensures r.Failure? ==> l.error == DenoiseFailed(r.error)
  {
    if r.Failure? then Failure(DenoiseFailed(r.error)) else Success(r.value)
  }

  /** The per-partition cleaning followed by the concatenation of the
      partitions, which fails when there are none. */
  ghost function ConcatenatedPartitions(rows: seq<Row>, key: string, parts: seq<string>, target: string,
                                        cutoff: int, s: Settings): Result<seq<Row>, ClonalError>
  {
    if |parts| == 0 then Failure(NothingToConcatenate)
    else Lifted(CleanedPartitions(rows, key, parts, cutoff, Cleaner(target, cutoff, s)))
  }

  /** The rows that survive the cleaning, partitioned or not. */
  ghost function Survivors(t: Table, target: string, cutoff: int, perSample: Option<string>, s: Settings): Result<seq<Row>, ClonalError>
  {
    if PerSample(t, perSample) then
      ConcatenatedPartitions(t.rows, perSample.value, PartValues(t, perSample.value), target, cutoff, s)
    else Lifted(CleanedRows(t.rows, target, cutoff, s))
  }

  /** The requested key columns that exist, each once. */
  function KeyColumns(columns: seq<string>, groupKeys: seq<string>): (r: seq<string>)
    ensures Distinct(r)
    ensures forall k :: k in r <==> k in groupKeys && k in columns
  {
    Uniques(Present(columns, groupKeys))
  }

  /** The entries of `ks` that are in `columns`. */
  function Present(columns: seq<string>, ks: seq<string>): (r: seq<string>)
    ensures forall k :: k in r <==> k in ks && k in columns
  {
    if |ks| == 0 then []
    else
      var init := Present(columns, ks[..|ks| - 1]);
      assert ks == ks[..|ks| - 1] + [ks[|ks| - 1]];
      if ks[|ks| - 1] in columns then init + [ks[|ks| - 1]] else init
  }

  /** Relabelling the target keeps the columns of the rows. */
  lemma RelabelOver(rows: seq<Row>, corrected: seq<Option<string>>, target: string, columns: seq<string>)
    requires |rows| == |corrected| && RowsOver(rows, columns) && target in columns
    ensures RowsOver(Relabel(rows, corrected, target), columns)
  {
    var out := Relabel(rows, corrected, target);
    forall j | 0 <= j < |out| ensures out[j].cells.Keys == set k | k in columns {
      RelabelFrom(rows, corrected, target, j);
      var i :| 0 <= i < |rows| && corrected[i].Some? && out[j] == Retarget(rows[i], target, corrected[i].value);
    }
  }

  /** Cleaning keeps the columns of the rows. */
  lemma CleanedOver(rows: seq<Row>, columns: seq<string>, target: string, cutoff: int, c: seq<string>)
    requires RowsOver(rows, columns) && target in columns
    requires |c| == |HighQuality(rows, cutoff)|
    ensures RowsOver(Cleaned(rows, target, cutoff, c), columns)
  {
    var hq := HighQuality(rows, cutoff);
    FilterRowsOver(rows, AtCutoff(cutoff), columns);
    RelabelOver(hq, Unmarked(c), target, columns);
  }

  lemma {:induction false} CleanedPartitionsOver(rows: seq<Row>, columns: seq<string>, key: string, parts: seq<string>,
                                                 target: string, cutoff: int, s: Settings)
    requires RowsOver(rows, columns) && target in columns
    ensures var c := CleanedPartitions(rows, key, parts, cutoff, Cleaner(target, cutoff, s));
            c.Success? ==> RowsOver(c.value, columns)
    decreases |parts|
  {
    if |parts| > 0 {
      var clean := Cleaner(target, cutoff, s);
      var prev := CleanedPartitions(rows, key, parts[..|parts| - 1], cutoff, clean);
      CleanedPartitionsOver(rows, columns, key, parts[..|parts| - 1], target, cutoff, s);
      var part := Partition(rows, key, parts[|parts| - 1]);
      FilterRowsOver(rows, InPartition(key, parts[|parts| - 1]), columns);
      if prev.Success? {
        var d := CleanMapping(part, target, cutoff, s);
        if !AnyAtCutoff(part, cutoff) {
          RowsOverConcat(prev.value, part, columns);
        } else if d.Success? {
          CleanedOver(part, columns, target, cutoff, d.value.corrected);
          RowsOverConcat(prev.value, Cleaned(part, target, cutoff, d.value.corrected), columns);
        }
      }
    }
  }

  /** The survivors have the table's columns. */
  lemma SurvivorsOver(t: Table, target: string, cutoff: int, perSample: Option<string>, s: Settings)
    requires WellFormed(t) && target in t.columns
    ensures var sv := Survivors(t, target, cutoff, perSample, s);
            sv.Success? ==> RowsOver(sv.value, t.columns)
  {
    if PerSample(t, perSample) {
      CleanedPartitionsOver(t.rows, t.columns, perSample.value, PartValues(t, perSample.value), target, cutoff, s);
    } else {
      var d := CleanMapping(t.rows, target, cutoff, s);
      if d.Success? {
        CleanedOver(t.rows, t.columns, target, cutoff, d.value.corrected);
      }
    }
  }

  /** What `denoise_clonal_data` returns or raises. */
  ghost function ClonalSpec(t: Table, target: string, cutoff: int, perSample: Option<string>, s: Settings,
                            groupKeys: seq<string>): (r: Result<seq<GroupRow>, ClonalError>)
    requires WellFormed(t)
    ensures r == Failure(MissingTarget) <==> target !in t.columns
    ensures r.Success? ==>
              && target in t.columns && |KeyColumns(t.columns, groupKeys)| > 0
              && Survivors(t, target, cutoff, perSample, s).Success?
              && |r.value| <= |Survivors(t, target, cutoff, perSample, s).value|
  {
    if target !in t.columns then Failure(MissingTarget)
    else
      var sv := Survivors(t, target, cutoff, perSample, s);
      var keys := KeyColumns(t.columns, groupKeys);
      if sv.Failure? then Failure(sv.error)
      else if |keys| == 0 then Failure(NoGroupKeys)
      else
        SurvivorsOver(t, target, cutoff, perSample, s);
        RowsOverHasColumns(sv.value, t.columns, keys);
        Success(GroupCells(sv.value, t.columns, keys, true))
  }

  /** One call of `denoise_sequence` on the rows at or above the cutoff, and
      the relabelling of its corrected list. */
  method CleanRows(rows: seq<Row>, target: string, cutoff: int, s: Settings) returns (r: Result<seq<Row>, DenoiseError>)
    ensures r == CleanedRows(rows, target, cutoff, s)
  {
    var hq := HighQuality(rows, cutoff);
    var d := DenoiseSequence(Column(hq, target), Some(Reads(hq)), s.threshold, s.methodName, s.whitelist, s.align, s.cluster);
    if d.Failure? {
      return Failure(d.error);
    }
    return Success(Relabel(hq, Unmarked(d.value.corrected), target));
  }

  /** Once a prefix of the partitions fails, the whole cleaning fails with
      its error. */
  lemma {:induction false} CleanedPartitionsFailure(rows: seq<Row>, key: string, parts: seq<string>, k: nat, cutoff: int,
                                                    clean: seq<Row> -> Result<seq<Row>, DenoiseError>)
    requires k <= |parts|
    requires CleanedPartitions(rows, key, parts[..k], cutoff, clean).Failure?
    ensures CleanedPartitions(rows, key, parts, cutoff, clean) == CleanedPartitions(rows, key, parts[..k], cutoff, clean)
    decreases |parts|
  {
    if k < |parts| {
      assert parts[..|parts| - 1][..k] == parts[..k];
      CleanedPartitionsFailure(rows, key, parts[..|parts| - 1], k, cutoff, clean);
    } else {
      assert parts[..k] == parts;
    }
  }

  /** The loop over the partition values and the concatenation of the
      partitions: a failing partition's error, the failure of concatenating
      nothing when there are no partition values, and otherwise the cleaned
      partitions one after the other. */
  method CleanPartitions(rows: seq<Row>, key: string, parts: seq<string>, target: string, cutoff: int, s: Settings)
    returns (r: Result<seq<Row>, ClonalError>)
    ensures |parts| == 0 ==> r == Failure(NothingToConcatenate)
    ensures r == ConcatenatedPartitions(rows, key, parts, target, cutoff, s)
  {
    ghost var clean := Cleaner(target, cutoff, s);
    var acc: seq<Row> := [];
    for j := 0 to |parts|
      invariant CleanedPartitions(rows, key, parts[..j], cutoff, clean) == Success(acc)
    {
      assert parts[..j + 1][..j] == parts[..j];
      var part := Partition(rows, key, parts[j]);
      if AnyAtCutoff(part, cutoff) {
        var c := CleanRows(part, target, cutoff, s);
        assert c == clean(part);
        if c.Failure? {
          CleanedPartitionsFailure(rows, key, parts, j + 1, cutoff, clean);
          return Failure(DenoiseFailed(c.error));
        }
        acc := acc + c.value;
      } else {
        acc := acc + part;
      }
    }
    assert parts[..|parts|] == parts;
    if |parts| == 0 {
      return Failure(NothingToConcatenate);
    }
    return Success(acc);
  }

  /** `denoise_clonal_data`. */
  method DenoiseClonalData(t: Table, target: string, cutoff: int, perSample: Option<string>, s: Settings,
                           groupKeys: seq<string>) returns (r: Result<seq<GroupRow>, ClonalError>)
    requires WellFormed(t)
    ensures r == ClonalSpec(t, target, cutoff, perSample, s, groupKeys)
  {
    if target !in t.columns {
      return Failure(MissingTarget);
    }
    var sv: Result<seq<Row>, ClonalError>;
    if PerSample(t, perSample) {
      sv := CleanPartitions(t.rows, perSample.value, PartValues(t, perSample.value), target, cutoff, s);
    } else {
      var c := CleanRows(t.rows, target, cutoff, s);
      sv := Lifted(c);
    }
    if sv.Failure? {
      return Failure(sv.error);
    }
    var keys := KeyColumns(t.columns, groupKeys);
    if |keys| == 0 {
      return Failure(NoGroupKeys);
    }
    SurvivorsOver(t, target, cutoff, perSample, s);
    RowsOverHasColumns(sv.value, t.columns, keys);
    return Success(GroupCells(sv.value, t.columns, keys, true));
  }
}
