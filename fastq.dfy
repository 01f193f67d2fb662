/** The read counting of `generate_LARRY_read_count_table`: the lines of a
    library's read file are scanned once; a header line `>sample,cell,umi`
    followed directly by a sequence line is one read of the molecule
    (sample, cell, umi, sequence), an empty line resets the scan, and each
    molecule's reads are counted in a dictionary that remembers the order in
    which molecules were first seen. The counts then become the library's
    read table. */
module ReadCounts {
  import opened Wrappers
  import opened Collections
  import opened Tables
  import opened Text

  /** A molecule: the header's fields followed by the sequence. */
  type Tag = seq<string>

  /** A line starting with '>'. */
  predicate IsHeader(l: string)
  {
    |l| > 0 && l[0] == '>'
  }

  /** The comma-separated fields of a header line. */
  function HeaderFields(l: string): seq<string>
    requires IsHeader(l)
  {
    SplitOn(l[1..], ',')
  }

  /** The scan state: the current tag, the counts, and the molecules in
      order of first sight (the dictionary's insertion order). */
  datatype Scan = Scan(tag: seq<string>, counts: map<Tag, nat>, order: seq<Tag>)

  /** The counts after one more read of molecule `k`. */
  function Bump(counts: map<Tag, nat>, k: Tag): map<Tag, nat>
  {
    counts[k := (if k in counts then counts[k] else 0) + 1]
  }

  /** The insertion order after a read of molecule `k`. */
  function Noted(order: seq<Tag>, counts: map<Tag, nat>, k: Tag): seq<Tag>
  {
    if k in counts then order else order + [k]
  }

  /** One line of the scan. A sequence line counts only while the tag holds
      exactly the three header fields; counting it makes the tag four long,
      so a second sequence line under the same header is ignored. */
  function Step(st: Scan, l: string): Scan
  {
    if l == "" then st.(tag := [])
    else if l[0] == '>' then st.(tag := SplitOn(l[1..], ','))
    else if |st.tag| == 3 then
      var k := st.tag + [l];
      Scan(k, Bump(st.counts, k), Noted(st.order, st.counts, k))
    else st
  }

  /** A step never loses a molecule or a read; a molecule it sees for the
      first time has four parts, one read, and goes to the end of the
      insertion order; a step that adds no molecule keeps the order. */
  lemma StepGrows(st: Scan, l: string)
    ensures var r := Step(st, l);
            && st.counts.Keys <= r.counts.Keys
            && (forall k :: k in st.counts ==> r.counts[k] >= st.counts[k])
            && (forall k :: k in r.counts && k !in st.counts ==>
                  |k| == 4 && r.counts[k] == 1 && r.order == st.order + [k])
            && (r.counts.Keys == st.counts.Keys ==> r.order == st.order)
  {
  }

  /** The scan over all the lines. */
  function Run(lines: seq<string>): Scan
  {
    if |lines| == 0 then Scan([], map[], [])
    else Step(Run(lines[..|lines| - 1]), lines[|lines| - 1])
  }

  /** Every counted molecule has four parts and at least one read, and the
      insertion order lists the counted molecules, each once. */
  lemma {:induction false} RunFacts(lines: seq<string>)
    ensures var r := Run(lines);
            && (forall k :: k in r.counts ==> |k| == 4 && r.counts[k] >= 1)
            && (forall k :: k in r.counts <==> k in r.order)
            && Distinct(r.order)
  {
    if |lines| > 0 {
      var st := Run(lines[..|lines| - 1]);
      RunFacts(lines[..|lines| - 1]);
      StepGrows(st, lines[|lines| - 1]);
      var r := Step(st, lines[|lines| - 1]);
      assert forall k :: k in r.counts && k !in st.counts ==> r.order == st.order + [k];
    }
  }

  /** The counting loop of `generate_LARRY_read_count_table`, on the decoded
      lines without their line breaks. */
  method CountReads(lines: seq<string>) returns (counts: map<Tag, nat>, order: seq<Tag>)
    ensures counts == Run(lines).counts && order == Run(lines).order
  {
    var tag: seq<string> := [];
    counts := map[];
    order := [];
    for j := 0 to |lines|
      invariant Run(lines[..j]) == Scan(tag, counts, order)
    {
      assert lines[..j + 1][..j] == lines[..j];
      var l := lines[j];
      if l == "" {
        tag := [];
      } else if l[0] == '>' {
        tag := SplitOn(l[1..], ',');
      } else if |tag| == 3 {
        tag := tag + [l];
        if tag !in counts {
          counts := counts[tag := 0];
          order := order + [tag];
        }
        counts := counts[tag := counts[tag] + 1];
      }
    }
    assert lines[..|lines|] == lines;
  }

  /** Line `i` is a read: a sequence line right after a header with three
      fields. */
  predicate IsRecord(lines: seq<string>, i: int)
  {
    && 1 <= i < |lines| && lines[i] != "" && lines[i][0] != '>'
    && IsHeader(lines[i - 1]) && |HeaderFields(lines[i - 1])| == 3
  }

  /** The molecule of the read at line `i`. */
  function RecordKey(lines: seq<string>, i: int): Tag
    requires IsRecord(lines, i)
  {
    HeaderFields(lines[i - 1]) + [lines[i]]
  }

  /** The lines holding reads of molecule `k`. */
  ghost function Records(lines: seq<string>, k: Tag): set<int>
  {
    set i | 0 <= i < |lines| && IsRecord(lines, i) && RecordKey(lines, i) == k
  }

  /** The tag holds three fields exactly when the last line was a header
      with three fields, and then it holds those fields. */
  lemma {:induction false} TagFacts(lines: seq<string>)
    ensures var t := Run(lines).tag;
            |t| == 3 <==> |lines| > 0 && IsHeader(lines[|lines| - 1]) && |HeaderFields(lines[|lines| - 1])| == 3
    ensures |Run(lines).tag| == 3 ==> Run(lines).tag == HeaderFields(lines[|lines| - 1])
  {
    if |lines| > 0 {
      TagFacts(lines[..|lines| - 1]);
    }
  }

  /** Reads are recognised from two adjacent lines, so a prefix has the same
      reads. */
  lemma RecordsOfPrefix(lines: seq<string>, n: nat, i: int)
    requires n <= |lines| && i < n
    ensures IsRecord(lines[..n], i) <==> IsRecord(lines, i)
    ensures IsRecord(lines, i) ==> RecordKey(lines[..n], i) == RecordKey(lines, i)
  {
  }

  /** Molecule `k` has a read. */
  predicate HasRecord(lines: seq<string>, k: Tag)
  {
    exists i :: 0 <= i < |lines| && IsRecord(lines, i) && RecordKey(lines, i) == k
  }

  /** One step counts a sequence line under a three-field tag and leaves
      counts and order alone otherwise. */
  lemma StepCases(st: Scan, l: string)
    ensures if l != "" && l[0] != '>' && |st.tag| == 3 then
              var key := st.tag + [l];
              Step(st, l).counts == Bump(st.counts, key) && Step(st, l).order == Noted(st.order, st.counts, key)
            else Step(st, l).counts == st.counts && Step(st, l).order == st.order
  {
  }

  /** The last line is a read exactly when the scan before it holds a
      three-field tag and the line is a sequence line; its molecule is that
      tag and the line. */
  lemma LastRecord(lines: seq<string>)
    requires |lines| > 0
    ensures var n := |lines| - 1;
            var prev := Run(lines[..n]);
            && (IsRecord(lines, n) <==> lines[n] != "" && lines[n][0] != '>' && |prev.tag| == 3)
            && (IsRecord(lines, n) ==> prev.tag + [lines[n]] == RecordKey(lines, n))
  {
    var n := |lines| - 1;
    TagFacts(lines[..n]);
    if n > 0 {
      assert lines[..n][n - 1] == lines[n - 1];
    }
  }

  /** The scan takes the last line into the counts exactly when it is a
      read, under that read's molecule; otherwise counts and order stay. */
  lemma StepFacts(lines: seq<string>)
    requires |lines| > 0
    ensures var n := |lines| - 1;
            var prev := Run(lines[..n]);
            var st := Run(lines);
            if IsRecord(lines, n) then
              var key := RecordKey(lines, n);
              st.counts == Bump(prev.counts, key) && st.order == Noted(prev.order, prev.counts, key)
            else st.counts == prev.counts && st.order == prev.order
  {
    var n := |lines| - 1;
    var prev := Run(lines[..n]);
    var l := lines[n];
    var st := Run(lines);
    assert st == Step(prev, l);
    StepCases(prev, l);
    LastRecord(lines);
  }

  /** The reads of a molecule gain the last line exactly when it is one of
      them. */
  lemma RecordsSnoc(lines: seq<string>, k: Tag)
    requires |lines| > 0
    ensures var n := |lines| - 1;
            Records(lines, k) == Records(lines[..n], k) + (if IsRecord(lines, n) && RecordKey(lines, n) == k then {n} else {})
  {
    var n := |lines| - 1;
    forall i | 0 <= i < n ensures (IsRecord(lines[..n], i) <==> IsRecord(lines, i)) && (IsRecord(lines, i) ==> RecordKey(lines[..n], i) == RecordKey(lines, i)) {
      RecordsOfPrefix(lines, n, i);
    }
  }

  /** A molecule has a read in the lines exactly when it has one before the
      last line or the last line is one of its reads. */
  lemma HasRecordSnoc(lines: seq<string>, k: Tag)
    requires |lines| > 0
    ensures var n := |lines| - 1;
            HasRecord(lines, k) <==> HasRecord(lines[..n], k) || (IsRecord(lines, n) && RecordKey(lines, n) == k)
  {
    var n := |lines| - 1;
    var prev := lines[..n];
    if HasRecord(prev, k) {
      var i :| 0 <= i < n && IsRecord(prev, i) && RecordKey(prev, i) == k;
      RecordsOfPrefix(lines, n, i);
    }
    if HasRecord(lines, k) {
      var i :| 0 <= i < |lines| && IsRecord(lines, i) && RecordKey(lines, i) == k;
      if i < n {
        RecordsOfPrefix(lines, n, i);
      }
    }
  }

  /** The keys of the dictionary are the molecules with a read; each has
      four fields. */
  lemma {:induction false} KeysFacts(lines: seq<string>)
    ensures forall k :: k in Run(lines).counts <==> HasRecord(lines, k)
    ensures forall k :: k in Run(lines).counts ==> |k| == 4
  {
    if |lines| > 0 {
      var n := |lines| - 1;
      KeysFacts(lines[..n]);
      StepFacts(lines);
      forall k ensures k in Run(lines).counts <==> HasRecord(lines, k) {
        HasRecordSnoc(lines, k);
      }
    }
  }

  /** The count of a molecule is its number of reads. */
  lemma {:induction false} CountFacts(lines: seq<string>)
    ensures forall k :: k in Run(lines).counts ==> Run(lines).counts[k] == |Records(lines, k)|
    ensures forall k :: k !in Run(lines).counts ==> Records(lines, k) == {}
  {
    if |lines| > 0 {
      var n := |lines| - 1;
      var prev := lines[..n];
      CountFacts(prev);
      forall k ensures (k in Run(lines).counts ==> Run(lines).counts[k] == |Records(lines, k)|)
                    && (k !in Run(lines).counts ==> Records(lines, k) == {}) {
        CountOne(lines, k);
      }
    }
  }

  /** The last line keeps the count of one molecule equal to its number of
      reads. */
  lemma CountOne(lines: seq<string>, k: Tag)
    requires |lines| > 0
    requires var prev := lines[..|lines| - 1];
             && (k in Run(prev).counts ==> Run(prev).counts[k] == |Records(prev, k)|)
             && (k !in Run(prev).counts ==> Records(prev, k) == {})
    ensures k in Run(lines).counts ==> Run(lines).counts[k] == |Records(lines, k)|
    ensures k !in Run(lines).counts ==> Records(lines, k) == {}
  {
    var n := |lines| - 1;
    StepFacts(lines);
    RecordsSnoc(lines, k);
    assert n !in Records(lines[..n], k);
  }

  /** The insertion order lists every key once and nothing else. */
  lemma {:induction false} OrderFacts(lines: seq<string>)
    ensures Distinct(Run(lines).order)
    ensures forall k :: k in Run(lines).order <==> k in Run(lines).counts
  {
    if |lines| > 0 {
      OrderFacts(lines[..|lines| - 1]);
      StepFacts(lines);
    }
  }

  /** The dictionary counts, for every molecule, exactly the reads of that
      molecule: a molecule is a key exactly when it has a read, and then its
      count is its number of reads; every key is four fields long; the
      insertion order lists every key once. */
  lemma CountsFacts(lines: seq<string>)
    ensures var st := Run(lines);
            && (forall k :: k in st.counts <==> HasRecord(lines, k))
            && (forall k :: k in st.counts ==> st.counts[k] == |Records(lines, k)| && |k| == 4)
            && Distinct(st.order)
            && (forall k :: k in st.order <==> k in st.counts)
  {
    KeysFacts(lines);
    CountFacts(lines);
    OrderFacts(lines);
  }

  /** The library's table: one row per molecule in order of first sight,
      with the library, the molecule identifier, the cell barcode, their
      combinations and the sequence as clone, and the read count. The cell
      identifier is built from the library name; the sample field of the
      header is not kept. */
  function LibraryTable(lib: string, order: seq<Tag>, counts: map<Tag, nat>): seq<Row>
    requires forall k :: k in order ==> k in counts && |k| == 4
  {
    seq(|order|, i requires 0 <= i < |order| => MoleculeRow(lib, order[i], counts[order[i]]))
  }

  /** The row of molecule `k` of library `lib` with `n` reads. */
  function MoleculeRow(lib: string, k: Tag, n: nat): Row
    requires |k| == 4
  {
    Row(map["library" := lib, "umi" := k[2], "cell_bc" := k[1], "umi_id" := k[1] + "_" + k[2],
            "cell_id" := lib + "_" + k[1], "clone_id" := k[3]], n)
  }

  /** `generate_LARRY_read_count_table` on the libraries' names and decoded
      lines: the library tables one after the other, or None when there are
      no libraries, as concatenating no tables raises. */
  method ReadCountTable(libs: seq<(string, seq<string>)>) returns (r: Option<seq<Row>>)
    ensures |libs| == 0 <==> r.None?
    ensures |libs| > 0 ==> r == Some(AllTables(libs))
  {
    var table := [];
    for j := 0 to |libs|
      invariant table == AllTables(libs[..j])
    {
      assert libs[..j + 1][..j] == libs[..j];
      var counts, order := CountReads(libs[j].1);
      CountsFacts(libs[j].1);
      table := table + LibraryTable(libs[j].0, order, counts);
    }
    assert libs[..|libs|] == libs;
    if |libs| == 0 {
      return None;
    }
    return Some(table);
  }

  /** The table of library `lib` read from `lines`. */
  function LibraryRows(lib: string, lines: seq<string>): seq<Row>
  {
    var st := Run(lines);
    CountsFacts(lines);
    LibraryTable(lib, st.order, st.counts)
  }

  /** The library tables of the libraries, concatenated. Every row comes
      from one of the libraries and says so in its "library" cell. */
  function AllTables(libs: seq<(string, seq<string>)>): (t: seq<Row>)
    ensures forall i :: 0 <= i < |t| ==>
              "library" in t[i].cells && exists j :: 0 <= j < |libs| && t[i].cells["library"] == libs[j].0
  {
    if |libs| == 0 then []
    else AllTables(libs[..|libs| - 1]) + LibraryRows(libs[|libs| - 1].0, libs[|libs| - 1].1)
  }

  /** Each row of a library's table is one molecule with at least one read,
      the row built from that molecule's fields and its number of reads; no
      molecule has two rows, and every read's molecule has a row. */
  lemma LibraryTableFacts(lib: string, lines: seq<string>)
    ensures var st := Run(lines);
            var t := LibraryRows(lib, lines);
            && |t| == |st.order|
            && (forall i :: 0 <= i < |t| ==>
                  && HasRecord(lines, st.order[i])
                  && |st.order[i]| == 4
                  && |Records(lines, st.order[i])| >= 1
                  && t[i] == MoleculeRow(lib, st.order[i], |Records(lines, st.order[i])|))
            && Distinct(st.order)
            && (forall j :: 0 <= j < |lines| && IsRecord(lines, j) ==> RecordKey(lines, j) in st.order)
  {
    var st := Run(lines);
    CountsFacts(lines);
    var t := LibraryRows(lib, lines);
    forall i | 0 <= i < |t|
      ensures && HasRecord(lines, st.order[i])
              && |st.order[i]| == 4
              && |Records(lines, st.order[i])| >= 1
              && t[i] == MoleculeRow(lib, st.order[i], |Records(lines, st.order[i])|)
    {
      LibraryRowAt(lib, lines, i);
    }
    forall j | 0 <= j < |lines| && IsRecord(lines, j) ensures RecordKey(lines, j) in st.order {
      assert HasRecord(lines, RecordKey(lines, j));
    }
  }

  /** Row `i` of a library's table. */
  lemma LibraryRowAt(lib: string, lines: seq<string>, i: nat)
    requires i < |Run(lines).order|
    ensures var k := Run(lines).order[i];
            && HasRecord(lines, k)
            && |k| == 4
            && |Records(lines, k)| >= 1
            && i < |LibraryRows(lib, lines)|
            && LibraryRows(lib, lines)[i] == MoleculeRow(lib, k, |Records(lines, k)|)
  {
    var st := Run(lines);
    CountsFacts(lines);
    var k := st.order[i];
    var j :| 0 <= j < |lines| && IsRecord(lines, j) && RecordKey(lines, j) == k;
    assert j in Records(lines, k);
  }

  /** The cells of a molecule's row: the library, the cell barcode and
      molecule identifier from the header, the identifiers prefixed by the
      library and the cell barcode, and the sequence as the clone. */
  lemma MoleculeRowFacts(lib: string, k: Tag, n: nat)
    requires |k| == 4
    ensures var r := MoleculeRow(lib, k, n);
            && r.read == n
            && r.cells.Keys == {"library", "umi", "cell_bc", "umi_id", "cell_id", "clone_id"}
            && r.cells["library"] == lib && r.cells["cell_bc"] == k[1] && r.cells["umi"] == k[2]
            && r.cells["umi_id"] == k[1] + "_" + k[2] && r.cells["cell_id"] == lib + "_" + k[1]
            && r.cells["clone_id"] == k[3]
  {
  }
}
