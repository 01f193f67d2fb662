/** What `denoise_clonal_data` promises about the rows it keeps and the
    table it returns. */
module ClonalProperties {
  import opened Wrappers
  import opened Collections
  import opened Tables
  import opened Denoise
  import opened Clonal

  /** `c` holds, for each row at or above the cutoff, the entry `f` gives
      for its target. */
  ghost predicate WritesThrough(rows: seq<Row>, target: string, cutoff: int, c: seq<string>, f: map<string, string>)
  {
    var hq := HighQuality(rows, cutoff);
    |c| == |hq| && forall h :: 0 <= h < |c| ==> Column(hq, target)[h] in f && c[h] == f[Column(hq, target)[h]]
  }

  /** `r` is a row of `rows` at or above the cutoff with its target replaced
      by the entry `f` gives for it, which is not "nan". */
  ghost predicate WrittenFrom(rows: seq<Row>, r: Row, target: string, cutoff: int, f: map<string, string>)
  {
    exists i :: 0 <= i < |rows| && rows[i].read >= cutoff && target in rows[i].cells && rows[i].cells[target] in f &&
      f[rows[i].cells[target]] != "nan" && r == Retarget(rows[i], target, f[rows[i].cells[target]])
  }

  /** Cleaning with a list written through `f`: every survivor is a row at
      the cutoff with its target replaced by its entry, which is not "nan";
      and every row at the cutoff whose entry is not "nan" survives so. */
  lemma CleanedFacts(rows: seq<Row>, target: string, cutoff: int, c: seq<string>, f: map<string, string>)
    requires forall i :: 0 <= i < |rows| ==> target in rows[i].cells
    requires WritesThrough(rows, target, cutoff, c, f)
    ensures var out := Cleaned(rows, target, cutoff, c);
            forall j :: 0 <= j < |out| ==>
              && out[j].read >= cutoff
              && target in out[j].cells
              && out[j].cells[target] in f.Values && out[j].cells[target] != "nan"
              && WrittenFrom(rows, out[j], target, cutoff, f)
    ensures var out := Cleaned(rows, target, cutoff, c);
            forall i :: 0 <= i < |rows| && rows[i].read >= cutoff && rows[i].cells[target] in f &&
                        f[rows[i].cells[target]] != "nan" ==>
              Retarget(rows[i], target, f[rows[i].cells[target]]) in out
  {
    CleanedSound(rows, target, cutoff, c, f);
    CleanedComplete(rows, target, cutoff, c, f);
  }

  /** Every survivor of the cleaning is a row at the cutoff with its target
      replaced by its entry, which is not "nan". */
  lemma CleanedSound(rows: seq<Row>, target: string, cutoff: int, c: seq<string>, f: map<string, string>)
    requires forall i :: 0 <= i < |rows| ==> target in rows[i].cells
    requires WritesThrough(rows, target, cutoff, c, f)
    ensures var out := Cleaned(rows, target, cutoff, c);
            forall j :: 0 <= j < |out| ==>
              && out[j].read >= cutoff
              && target in out[j].cells
              && out[j].cells[target] in f.Values && out[j].cells[target] != "nan"
              && WrittenFrom(rows, out[j], target, cutoff, f)
  {
    var hq := HighQuality(rows, cutoff);
    FilterHasColumns(rows, AtCutoff(cutoff), [target]);
    var input := Column(hq, target);
    var u := Unmarked(c);
    var out := Relabel(hq, u, target);
    forall j | 0 <= j < |out|
      ensures && out[j].read >= cutoff
              && target in out[j].cells
              && out[j].cells[target] in f.Values && out[j].cells[target] != "nan"
              && WrittenFrom(rows, out[j], target, cutoff, f)
    {
      RelabelFrom(hq, u, target, j);
      var h :| 0 <= h < |hq| && u[h].Some? && out[j] == Retarget(hq[h], target, u[h].value);
      assert target in hq[h].cells;
      assert input[h] == hq[h].cells[target] && input[h] in f && c[h] == f[input[h]];
      assert hq[h] in rows && AtCutoff(cutoff)(hq[h]);
      var i :| 0 <= i < |rows| && rows[i] == hq[h];
      assert out[j].cells[target] == f[input[h]];
    }
  }

  /** Every row at the cutoff whose entry is not "nan" survives the
      cleaning, retargeted to it. */
  lemma CleanedComplete(rows: seq<Row>, target: string, cutoff: int, c: seq<string>, f: map<string, string>)
    requires forall i :: 0 <= i < |rows| ==> target in rows[i].cells
    requires WritesThrough(rows, target, cutoff, c, f)
    ensures var out := Cleaned(rows, target, cutoff, c);
            forall i :: 0 <= i < |rows| && rows[i].read >= cutoff && rows[i].cells[target] in f &&
                        f[rows[i].cells[target]] != "nan" ==>
              Retarget(rows[i], target, f[rows[i].cells[target]]) in out
  {
    var hq := HighQuality(rows, cutoff);
    FilterHasColumns(rows, AtCutoff(cutoff), [target]);
    var input := Column(hq, target);
    var u := Unmarked(c);
    var out := Relabel(hq, u, target);
    forall i | 0 <= i < |rows| && rows[i].read >= cutoff && rows[i].cells[target] in f && f[rows[i].cells[target]] != "nan"
      ensures Retarget(rows[i], target, f[rows[i].cells[target]]) in out
    {
      assert AtCutoff(cutoff)(rows[i]);
      var h :| 0 <= h < |hq| && hq[h] == rows[i];
      assert input[h] == rows[i].cells[target];
      RelabelKeeps(hq, u, target, h);
    }
  }

  /** The non-partitioned cleaning fails exactly when `denoise_sequence`
      does, with its error. Without a whitelist every row at the cutoff has a
      key as target, and the survivors are exactly those rows whose mapped
      sequence is not "nan", retargeted to it. */
  lemma CleanedRowsFacts(rows: seq<Row>, target: string, cutoff: int, s: Settings)
    requires forall i :: 0 <= i < |rows| ==> target in rows[i].cells
    ensures CleanedRows(rows, target, cutoff, s).Success? <==> CleanMapping(rows, target, cutoff, s).Success?
    ensures CleanedRows(rows, target, cutoff, s).Failure? ==>
              CleanedRows(rows, target, cutoff, s).error == CleanMapping(rows, target, cutoff, s).error
    ensures CleanedRows(rows, target, cutoff, s).Success? && s.whitelist.None? ==>
              var out := CleanedRows(rows, target, cutoff, s).value;
              var m := CleanMapping(rows, target, cutoff, s).value.mapping;
              && (forall i :: 0 <= i < |rows| && rows[i].read >= cutoff ==> rows[i].cells[target] in m)
              && (forall j :: 0 <= j < |out| ==>
                    && out[j].read >= cutoff && target in out[j].cells
                    && out[j].cells[target] in m.Values && out[j].cells[target] != "nan")
              && (forall i :: 0 <= i < |rows| && rows[i].read >= cutoff && rows[i].cells[target] in m &&
                              m[rows[i].cells[target]] != "nan" ==>
                    Retarget(rows[i], target, m[rows[i].cells[target]]) in out)
  {
    var d := CleanMapping(rows, target, cutoff, s);
    if d.Success? && s.whitelist.None? {
      var hq := HighQuality(rows, cutoff);
      DenoiseSpecCorrected(Column(hq, target), Some(Reads(hq)), s);
      AtCutoffKeys(rows, target, cutoff, d.value.mapping);
      CleanedFacts(rows, target, cutoff, d.value.corrected, d.value.mapping);
    }
  }

  /** When every target at the cutoff is a key, so is the target of every
      row at the cutoff. */
  lemma AtCutoffKeys(rows: seq<Row>, target: string, cutoff: int, m: map<string, string>)
    requires forall i :: 0 <= i < |rows| ==> target in rows[i].cells
    requires forall h :: 0 <= h < |HighQuality(rows, cutoff)| ==> Column(HighQuality(rows, cutoff), target)[h] in m
    ensures forall i :: 0 <= i < |rows| && rows[i].read >= cutoff ==> rows[i].cells[target] in m
  {
    var hq := HighQuality(rows, cutoff);
    forall i | 0 <= i < |rows| && rows[i].read >= cutoff ensures rows[i].cells[target] in m {
      assert AtCutoff(cutoff)(rows[i]);
      var h :| 0 <= h < |hq| && hq[h] == rows[i];
      assert Column(hq, target)[h] == rows[i].cells[target];
    }
  }

  /** What whitelist mode writes for each target of `input`. */
  function WhitelistWrites(input: seq<string>, m: map<string, string>): (f: map<string, string>)
    ensures forall x :: x in f <==> x in input
  {
    map x | x in input :: WhitelistEntry(x, m, Width(input))
  }

  /** With a whitelist, the non-partitioned cleaning is the cleaning of the
      whitelist-mode list, which is written through `WhitelistWrites`. */
  lemma WhitelistCleaning(rows: seq<Row>, target: string, cutoff: int, s: Settings)
    requires forall i :: 0 <= i < |rows| ==> target in rows[i].cells
    requires s.whitelist.Some? && CleanMapping(rows, target, cutoff, s).Success?
    ensures var d := CleanMapping(rows, target, cutoff, s).value;
            var input := Column(HighQuality(rows, cutoff), target);
            && |d.corrected| == |HighQuality(rows, cutoff)|
            && CleanedRows(rows, target, cutoff, s) == Success(Cleaned(rows, target, cutoff, d.corrected))
            && WritesThrough(rows, target, cutoff, d.corrected, WhitelistWrites(input, d.mapping))
            && (forall h :: 0 <= h < |d.corrected| ==> d.corrected[h] == WhitelistEntry(input[h], d.mapping, Width(input)))
  {
    var hq := HighQuality(rows, cutoff);
    var input := Column(hq, target);
    var d := CleanMapping(rows, target, cutoff, s).value;
    var f := WhitelistWrites(input, d.mapping);
    DenoiseSpecCorrected(input, Some(Reads(hq)), s);
    forall h | 0 <= h < |d.corrected| ensures input[h] in f && d.corrected[h] == f[input[h]] {
      assert input[h] in input;
    }
  }

  /** The entry `WhitelistWrites` gives for the target of a row at the
      cutoff. */
  lemma WhitelistWritesAt(rows: seq<Row>, target: string, cutoff: int, m: map<string, string>)
    requires forall i :: 0 <= i < |rows| ==> target in rows[i].cells
    ensures var input := Column(HighQuality(rows, cutoff), target);
            forall i :: 0 <= i < |rows| && rows[i].read >= cutoff ==>
              rows[i].cells[target] in WhitelistWrites(input, m) &&
              WhitelistWrites(input, m)[rows[i].cells[target]] == WhitelistEntry(rows[i].cells[target], m, Width(input))
  {
    var hq := HighQuality(rows, cutoff);
    var input := Column(hq, target);
    forall i | 0 <= i < |rows| && rows[i].read >= cutoff ensures rows[i].cells[target] in input {
      assert AtCutoff(cutoff)(rows[i]);
      var h :| 0 <= h < |hq| && hq[h] == rows[i];
      assert input[h] == rows[i].cells[target];
    }
  }

  /** With a whitelist the non-partitioned cleaning keeps exactly the rows at
      the cutoff whose written entry is not "nan", retargeted to it; the
      entry is the mapped whitelist entry cut to the width of the targets at
      the cutoff, or the marker "nan" cut to that width. */
  lemma CleanedWhitelistFacts(rows: seq<Row>, target: string, cutoff: int, s: Settings)
    requires forall i :: 0 <= i < |rows| ==> target in rows[i].cells
    requires s.whitelist.Some? && CleanMapping(rows, target, cutoff, s).Success?
    ensures CleanedRows(rows, target, cutoff, s).Success?
    ensures var out := CleanedRows(rows, target, cutoff, s).value;
            var input := Column(HighQuality(rows, cutoff), target);
            var m := CleanMapping(rows, target, cutoff, s).value.mapping;
            && (forall j :: 0 <= j < |out| ==> WrittenFrom(rows, out[j], target, cutoff, WhitelistWrites(input, m)))
            && (forall i :: 0 <= i < |rows| && rows[i].read >= cutoff &&
                            WhitelistEntry(rows[i].cells[target], m, Width(input)) != "nan" ==>
                  Retarget(rows[i], target, WhitelistEntry(rows[i].cells[target], m, Width(input))) in out)
  {
    var d := CleanMapping(rows, target, cutoff, s).value;
    var input := Column(HighQuality(rows, cutoff), target);
    WhitelistCleaning(rows, target, cutoff, s);
    WhitelistWritesAt(rows, target, cutoff, d.mapping);
    CleanedFacts(rows, target, cutoff, d.corrected, WhitelistWrites(input, d.mapping));
  }

  /** With a whitelist and targets of width 3 or more at the cutoff, the
      marker is "nan" itself: a row whose target is no key is dropped, and
      every survivor carries a prefix of its target's mapped entry. */
  lemma CleanedWhitelistWide(rows: seq<Row>, target: string, cutoff: int, s: Settings)
    requires forall i :: 0 <= i < |rows| ==> target in rows[i].cells
    requires s.whitelist.Some? && CleanMapping(rows, target, cutoff, s).Success?
    requires Width(Column(HighQuality(rows, cutoff), target)) >= 3
    ensures CleanedRows(rows, target, cutoff, s).Success?
    ensures var out := CleanedRows(rows, target, cutoff, s).value;
            var m := CleanMapping(rows, target, cutoff, s).value.mapping;
            forall j :: 0 <= j < |out| ==> KeyedPrefixOf(rows, out[j], target, cutoff, m)
  {
    var d := CleanMapping(rows, target, cutoff, s).value;
    WhitelistCleaning(rows, target, cutoff, s);
    WideSurvivors(rows, target, cutoff, d.corrected, d.mapping);
  }

  /** `r` is a row of `rows` at or above the cutoff whose target is a key of
      `m`, with its target replaced by a prefix of the key's value. */
  ghost predicate KeyedPrefixOf(rows: seq<Row>, r: Row, target: string, cutoff: int, m: map<string, string>)
  {
    target in r.cells &&
    exists i :: 0 <= i < |rows| && rows[i].read >= cutoff && target in rows[i].cells && rows[i].cells[target] in m &&
      r.cells[target] <= m[rows[i].cells[target]] && r == Retarget(rows[i], target, r.cells[target])
  }

  /** The survivors of a whitelist-mode list of width 3 or more come from
      rows whose target is a key, with a prefix of its mapped entry. */
  lemma WideSurvivors(rows: seq<Row>, target: string, cutoff: int, c: seq<string>, m: map<string, string>)
    requires forall i :: 0 <= i < |rows| ==> target in rows[i].cells
    requires WritesThrough(rows, target, cutoff, c, WhitelistWrites(Column(HighQuality(rows, cutoff), target), m))
    requires Width(Column(HighQuality(rows, cutoff), target)) >= 3
    ensures var out := Cleaned(rows, target, cutoff, c);
            forall j :: 0 <= j < |out| ==> KeyedPrefixOf(rows, out[j], target, cutoff, m)
  {
    var input := Column(HighQuality(rows, cutoff), target);
    var f := WhitelistWrites(input, m);
    var out := Cleaned(rows, target, cutoff, c);
    CleanedSound(rows, target, cutoff, c, f);
    forall j | 0 <= j < |out| ensures KeyedPrefixOf(rows, out[j], target, cutoff, m) {
      WideOne(rows, out[j], target, cutoff, input, m);
    }
  }

  /** One survivor of a whitelist-mode list of width 3 or more. */
  lemma WideOne(rows: seq<Row>, r: Row, target: string, cutoff: int, input: seq<string>, m: map<string, string>)
    requires Width(input) >= 3
    requires WrittenFrom(rows, r, target, cutoff, WhitelistWrites(input, m))
    ensures KeyedPrefixOf(rows, r, target, cutoff, m)
  {
    var f := WhitelistWrites(input, m);
    var i :| 0 <= i < |rows| && rows[i].read >= cutoff && target in rows[i].cells && rows[i].cells[target] in f &&
             f[rows[i].cells[target]] != "nan" && r == Retarget(rows[i], target, f[rows[i].cells[target]]);
    var x := rows[i].cells[target];
    assert f[x] == WhitelistEntry(x, m, Width(input));
    assert x in m;
    assert r.cells[target] == f[x];
  }

  /** With a whitelist and targets narrower than 3 at the cutoff, the marker
      is "n" or "na" and escapes the "nan" test: no row at or above the
      cutoff is dropped, in order and with its reads. */
  lemma CleanedWhitelistShort(rows: seq<Row>, target: string, cutoff: int, s: Settings)
    requires forall i :: 0 <= i < |rows| ==> target in rows[i].cells
    requires s.whitelist.Some? && CleanMapping(rows, target, cutoff, s).Success?
    requires Width(Column(HighQuality(rows, cutoff), target)) < 3
    ensures CleanedRows(rows, target, cutoff, s).Success?
    ensures var out := CleanedRows(rows, target, cutoff, s).value;
            |out| == |HighQuality(rows, cutoff)| && Reads(out) == Reads(HighQuality(rows, cutoff))
  {
    var d := CleanMapping(rows, target, cutoff, s).value;
    var input := Column(HighQuality(rows, cutoff), target);
    WhitelistCleaning(rows, target, cutoff, s);
    ShortEntries(d.corrected, input, d.mapping);
    CleanedKeepsAll(rows, target, cutoff, d.corrected);
  }

  /** Below width 3 no whitelist-mode entry is "nan". */
  lemma ShortEntries(c: seq<string>, input: seq<string>, m: map<string, string>)
    requires |c| == |input| && Width(input) < 3
    requires forall h :: 0 <= h < |c| ==> c[h] == WhitelistEntry(input[h], m, Width(input))
    ensures forall h :: 0 <= h < |c| ==> c[h] != "nan"
  {
  }

  /** When no entry of the corrected list is "nan", every row at or above
      the cutoff survives, in order and with its reads. */
  lemma CleanedKeepsAll(rows: seq<Row>, target: string, cutoff: int, c: seq<string>)
    requires |c| == |HighQuality(rows, cutoff)|
    requires forall h :: 0 <= h < |c| ==> c[h] != "nan"
    ensures |Cleaned(rows, target, cutoff, c)| == |HighQuality(rows, cutoff)|
    ensures Reads(Cleaned(rows, target, cutoff, c)) == Reads(HighQuality(rows, cutoff))
  {
    var hq := HighQuality(rows, cutoff);
    var u := Unmarked(c);
    RelabelAll(hq, u, target);
    RelabelReads(hq, u, target);
  }

  /** Without a whitelist, and with no mapped sequence the string "nan",
      every row at or above the cutoff survives the non-partitioned
      cleaning, in order and with its reads, so no read at the cutoff is
      lost. */
  lemma CleanedRowsKeepsAll(rows: seq<Row>, target: string, cutoff: int, s: Settings)
    requires forall i :: 0 <= i < |rows| ==> target in rows[i].cells
    requires s.whitelist.None? && CleanedRows(rows, target, cutoff, s).Success?
    requires forall v :: v in CleanMapping(rows, target, cutoff, s).value.mapping.Values ==> v != "nan"
    ensures var out := CleanedRows(rows, target, cutoff, s).value;
            && |out| == |HighQuality(rows, cutoff)|
            && Reads(out) == Reads(HighQuality(rows, cutoff))
  {
    var hq := HighQuality(rows, cutoff);
    var input := Column(hq, target);
    var d := CleanMapping(rows, target, cutoff, s).value;
    DenoiseSpecCorrected(input, Some(Reads(hq)), s);
    forall h | 0 <= h < |d.corrected| ensures d.corrected[h] != "nan" {
      assert d.corrected[h] in d.mapping.Values;
    }
    CleanedKeepsAll(rows, target, cutoff, d.corrected);
  }

  /** In the per-partition cleaning, a partition value with no row at the
      cutoff keeps all its rows unchanged, those below the cutoff included. */
  lemma {:induction false} PartitionPassThrough(rows: seq<Row>, key: string, parts: seq<string>, cutoff: int,
                                                clean: seq<Row> -> Result<seq<Row>, DenoiseError>, p: string)
    requires CleanedPartitions(rows, key, parts, cutoff, clean).Success?
    requires p in parts && !AnyAtCutoff(Partition(rows, key, p), cutoff)
    ensures forall i :: 0 <= i < |rows| && key in rows[i].cells && rows[i].cells[key] == p ==>
              rows[i] in CleanedPartitions(rows, key, parts, cutoff, clean).value
    decreases |parts|
  {
    var n := |parts| - 1;
    var prev := CleanedPartitions(rows, key, parts[..n], cutoff, clean);
    var out := CleanedPartitions(rows, key, parts, cutoff, clean).value;
    assert prev.Success?;
    if parts[n] == p {
      var part := Partition(rows, key, p);
      assert out == prev.value + part;
      forall i | 0 <= i < |rows| && key in rows[i].cells && rows[i].cells[key] == p
        ensures rows[i] in out
      {
        assert InPartition(key, p)(rows[i]);
        assert rows[i] in part;
      }
    } else {
      var k :| 0 <= k < |parts| && parts[k] == p;
      assert parts[..n][k] == p;
      PartitionPassThrough(rows, key, parts[..n], cutoff, clean, p);
      assert exists c :: out == prev.value + c;
    }
  }

  /** Every row of `out` is a row of `rows` at or above the cutoff with its
      target replaced. */
  ghost predicate RetargetsAtCutoff(rows: seq<Row>, out: seq<Row>, target: string, cutoff: int)
  {
    forall j :: 0 <= j < |out| ==>
      exists i :: 0 <= i < |rows| && rows[i].read >= cutoff && target in out[j].cells &&
        out[j] == Retarget(rows[i], target, out[j].cells[target])
  }

  /** Every row of `out` is a row of `rows`, or one at or above the cutoff
      with its target replaced. */
  ghost predicate KeptOrRetargeted(rows: seq<Row>, out: seq<Row>, target: string, cutoff: int)
  {
    forall j :: 0 <= j < |out| ==> KeptOrRetargetedRow(rows, out[j], target, cutoff)
  }

  /** `r` is a row of `rows`, or one at or above the cutoff with its target
      replaced. */
  ghost predicate KeptOrRetargetedRow(rows: seq<Row>, r: Row, target: string, cutoff: int)
  {
    exists i :: 0 <= i < |rows| &&
      (r == rows[i] || (rows[i].read >= cutoff && target in r.cells && r == Retarget(rows[i], target, r.cells[target])))
  }

  /** The cleaning only keeps rows at or above the cutoff, with their
      target replaced. */
  lemma CleanedRetargets(part: seq<Row>, target: string, cutoff: int, c: seq<string>)
    requires |c| == |HighQuality(part, cutoff)|
    ensures RetargetsAtCutoff(part, Cleaned(part, target, cutoff, c), target, cutoff)
  {
    var hq := HighQuality(part, cutoff);
    var u := Unmarked(c);
    var out := Cleaned(part, target, cutoff, c);
    forall j | 0 <= j < |out|
      ensures exists i :: 0 <= i < |part| && part[i].read >= cutoff && target in out[j].cells &&
                out[j] == Retarget(part[i], target, out[j].cells[target])
    {
      RelabelFrom(hq, u, target, j);
      var h :| 0 <= h < |hq| && u[h].Some? && out[j] == Retarget(hq[h], target, u[h].value);
      assert hq[h] in part && AtCutoff(cutoff)(hq[h]);
      var i :| 0 <= i < |part| && part[i] == hq[h];
    }
  }

  /** Appending rows of the partition of `v`, kept or retargeted, keeps the
      survivors kept or retargeted rows of `rows`. */
  lemma KeptOrRetargetedAppend(rows: seq<Row>, prev: seq<Row>, part: seq<Row>, c: seq<Row>, target: string, cutoff: int,
                               retargeted: bool)
    requires KeptOrRetargeted(rows, prev, target, cutoff)
    requires forall h :: 0 <= h < |part| ==> part[h] in rows
    requires retargeted ==> RetargetsAtCutoff(part, c, target, cutoff)
    requires !retargeted ==> c == part
    ensures KeptOrRetargeted(rows, prev + c, target, cutoff)
  {
    var out := prev + c;
    forall j | 0 <= j < |out| ensures KeptOrRetargetedRow(rows, out[j], target, cutoff) {
      if j < |prev| {
        assert out[j] == prev[j];
      } else {
        var k := j - |prev|;
        assert out[j] == c[k];
        if retargeted {
          var h :| 0 <= h < |part| && part[h].read >= cutoff && target in c[k].cells &&
                   c[k] == Retarget(part[h], target, c[k].cells[target]);
          var i :| 0 <= i < |rows| && rows[i] == part[h];
        } else {
          var i :| 0 <= i < |rows| && rows[i] == part[k];
        }
      }
    }
  }

  /** In the per-partition cleaning, every survivor is either a row of a
      partition with no row at the cutoff, kept unchanged, or a row at the
      cutoff with its target replaced. */
  lemma {:induction false} PartitionSurvivors(rows: seq<Row>, key: string, parts: seq<string>, target: string,
                                              cutoff: int, s: Settings)
    requires forall i :: 0 <= i < |rows| ==> target in rows[i].cells
    requires CleanedPartitions(rows, key, parts, cutoff, Cleaner(target, cutoff, s)).Success?
    ensures KeptOrRetargeted(rows, CleanedPartitions(rows, key, parts, cutoff, Cleaner(target, cutoff, s)).value, target, cutoff)
    decreases |parts|
  {
    var clean := Cleaner(target, cutoff, s);
    if |parts| > 0 {
      var n := |parts| - 1;
      var prev := CleanedPartitions(rows, key, parts[..n], cutoff, clean);
      var part := Partition(rows, key, parts[n]);
      assert prev.Success? by {
        assert parts[..n] == parts[..|parts| - 1];
      }
      PartitionSurvivors(rows, key, parts[..n], target, cutoff, s);
      FilterHasColumns(rows, InPartition(key, parts[n]), [target]);
      if !AnyAtCutoff(part, cutoff) {
        KeptOrRetargetedAppend(rows, prev.value, part, part, target, cutoff, false);
      } else {
        var c := CleanMapping(part, target, cutoff, s).value.corrected;
        assert clean(part).value == Cleaned(part, target, cutoff, c);
        CleanedRetargets(part, target, cutoff, c);
        KeptOrRetargetedAppend(rows, prev.value, part, clean(part).value, target, cutoff, true);
      }
    }
  }

  /** A successful `denoise_clonal_data` groups the survivors over the
      requested key columns that exist: one row per distinct key, the total
      read count of the survivors conserved, and `umi_count` present exactly
      when "umi" is a column and not a key. */
  lemma ClonalOutput(t: Table, target: string, cutoff: int, perSample: Option<string>, s: Settings, groupKeys: seq<string>)
    requires WellFormed(t)
    requires ClonalSpec(t, target, cutoff, perSample, s, groupKeys).Success?
    ensures target in t.columns && Survivors(t, target, cutoff, perSample, s).Success?
    ensures var g := ClonalSpec(t, target, cutoff, perSample, s, groupKeys).value;
            var sv := Survivors(t, target, cutoff, perSample, s).value;
            && Distinct(GroupKeys(g))
            && Sum(GroupReads(g)) == Sum(Reads(sv))
            && forall i :: 0 <= i < |g| ==>
                 (g[i].umiCount.Some? <==> "umi" in t.columns && "umi" !in groupKeys)
  {
    var sv := Survivors(t, target, cutoff, perSample, s).value;
    var keys := KeyColumns(t.columns, groupKeys);
    SurvivorsOver(t, target, cutoff, perSample, s);
    RowsOverHasColumns(sv, t.columns, keys);
    GroupCellsFacts(sv, t.columns, keys, true);
  }

  /** Without a whitelist or a partition, and with no mapped sequence the
      string "nan", the table keeps every read of the rows at or above the
      cutoff. */
  lemma ClonalKeepsReads(t: Table, target: string, cutoff: int, perSample: Option<string>, s: Settings, groupKeys: seq<string>)
    requires WellFormed(t) && !PerSample(t, perSample) && s.whitelist.None?
    requires ClonalSpec(t, target, cutoff, perSample, s, groupKeys).Success?
    requires CleanMapping(t.rows, target, cutoff, s).Success?
    requires forall v :: v in CleanMapping(t.rows, target, cutoff, s).value.mapping.Values ==> v != "nan"
    ensures Sum(GroupReads(ClonalSpec(t, target, cutoff, perSample, s, groupKeys).value)) ==
            Sum(Reads(HighQuality(t.rows, cutoff)))
  {
    ClonalOutput(t, target, cutoff, perSample, s, groupKeys);
    CleanedRowsKeepsAll(t.rows, target, cutoff, s);
  }

  /** The errors: a missing target column; a failed denoising of the whole
      table or of a partition; per-sample mode on a table with no rows, which
      leaves nothing to concatenate; and no requested key column in the
      table. */
  lemma ClonalErrors(t: Table, target: string, cutoff: int, perSample: Option<string>, s: Settings, groupKeys: seq<string>)
    requires WellFormed(t)
    ensures target !in t.columns ==> ClonalSpec(t, target, cutoff, perSample, s, groupKeys) == Failure(MissingTarget)
    ensures target in t.columns && !PerSample(t, perSample) && CleanedRows(t.rows, target, cutoff, s).Failure? ==>
              ClonalSpec(t, target, cutoff, perSample, s, groupKeys) ==
              Failure(DenoiseFailed(CleanedRows(t.rows, target, cutoff, s).error))
    ensures target in t.columns && PerSample(t, perSample) && |t.rows| == 0 ==>
              ClonalSpec(t, target, cutoff, perSample, s, groupKeys) == Failure(NothingToConcatenate)
    ensures target in t.columns && PerSample(t, perSample) && |t.rows| > 0 ==>
              var c := CleanedPartitions(t.rows, perSample.value, PartValues(t, perSample.value), cutoff, Cleaner(target, cutoff, s));
              c.Failure? ==> ClonalSpec(t, target, cutoff, perSample, s, groupKeys) == Failure(DenoiseFailed(c.error))
    ensures target in t.columns && Survivors(t, target, cutoff, perSample, s).Success? &&
            (forall k :: k in groupKeys ==> k !in t.columns) ==>
              ClonalSpec(t, target, cutoff, perSample, s, groupKeys) == Failure(NoGroupKeys)
    ensures ClonalSpec(t, target, cutoff, perSample, s, groupKeys).Success? ==>
              target in t.columns && Survivors(t, target, cutoff, perSample, s).Success?
  {
    if target in t.columns && (forall k :: k in groupKeys ==> k !in t.columns) {
      var keys := KeyColumns(t.columns, groupKeys);
      assert |keys| > 0 ==> keys[0] in keys;
    }
    if PerSample(t, perSample) && |t.rows| > 0 {
      var col := Column(t.rows, perSample.value);
      assert col[0] in PartValues(t, perSample.value);
    }
  }
}
