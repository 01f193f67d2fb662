/** The read tables the pipeline passes around, as sequences of records, and
    `group_cells`: a group-by over key columns summing the reads and, when the
    molecule column is not a key and exists, counting the rows per group in
    `umi_count`. */
module Tables {
  import opened Wrappers
  import opened Collections

  /** One table row: the text columns by name, and the read count. */
  datatype Row = Row(cells: map<string, string>, read: nat)

  /** A table: the names of its text columns and its rows. */
  datatype Table = Table(columns: seq<string>, rows: seq<Row>)

  /** Every row has exactly the text columns `columns`. */
  predicate RowsOver(rows: seq<Row>, columns: seq<string>)
  {
    forall i :: 0 <= i < |rows| ==> rows[i].cells.Keys == set c | c in columns
  }

  /** Every row has exactly the table's text columns. */
  predicate WellFormed(t: Table)
  {
    RowsOver(t.rows, t.columns)
  }

  /** A sub-list of rows over some columns is over the same columns. */
  lemma FilterRowsOver(rows: seq<Row>, keep: Row -> bool, columns: seq<string>)
    requires RowsOver(rows, columns)
    ensures RowsOver(Filter(rows, keep), columns)
  {
    var r := Filter(rows, keep);
    forall j | 0 <= j < |r| ensures r[j].cells.Keys == set c | c in columns {
      var i :| 0 <= i < |rows| && rows[i] == r[j];
    }
  }

  /** Every row has all the columns `keys`. */
  predicate HasColumns(rows: seq<Row>, keys: seq<string>)
  {
    forall i, k :: 0 <= i < |rows| && k in keys ==> k in rows[i].cells
  }

  lemma RowsOverHasColumns(rows: seq<Row>, columns: seq<string>, keys: seq<string>)
    requires RowsOver(rows, columns) && forall k :: k in keys ==> k in columns
    ensures HasColumns(rows, keys)
  {
  }

  /** A sub-list of rows that have some columns has them too. */
  lemma FilterHasColumns(rows: seq<Row>, keep: Row -> bool, keys: seq<string>)
    requires HasColumns(rows, keys)
    ensures HasColumns(Filter(rows, keep), keys)
  {
    var r := Filter(rows, keep);
    forall j, k | 0 <= j < |r| && k in keys ensures k in r[j].cells {
      var i :| 0 <= i < |rows| && rows[i] == r[j];
    }
  }

  lemma RowsOverConcat(a: seq<Row>, b: seq<Row>, columns: seq<string>)
    requires RowsOver(a, columns) && RowsOver(b, columns)
    ensures RowsOver(a + b, columns)
  {
    forall i | 0 <= i < |a + b| ensures (a + b)[i].cells.Keys == set c | c in columns {
      if i < |a| {
        assert (a + b)[i] == a[i];
      } else {
        assert (a + b)[i] == b[i - |a|];
      }
    }
  }

  /** The values of one column; a row without the column would read as the
      empty text, which does not arise for rows over the table's columns. */
  function Column(rows: seq<Row>, key: string): (r: seq<string>)
    ensures |r| == |rows| && forall i :: 0 <= i < |rows| && key in rows[i].cells ==> r[i] == rows[i].cells[key]
  {
    seq(|rows|, i requires 0 <= i < |rows| => if key in rows[i].cells then rows[i].cells[key] else "")
  }

  /** The read counts of the rows. */
  function Reads(rows: seq<Row>): (r: seq<nat>)
    ensures |r| == |rows| && forall i :: 0 <= i < |rows| ==> r[i] == rows[i].read
  {
    seq(|rows|, i requires 0 <= i < |rows| => rows[i].read)
  }

  /** The values of the key columns of a row. */
  function KeyOf(row: Row, keys: seq<string>): (v: seq<string>)
    requires forall k :: k in keys ==> k in row.cells
    ensures |v| == |keys| && forall j :: 0 <= j < |keys| ==> v[j] == row.cells[keys[j]]
  {
    seq(|keys|, j requires 0 <= j < |keys| => row.cells[keys[j]])
  }

  /** The key of every row. */
  function Keys(rows: seq<Row>, keys: seq<string>): (r: seq<seq<string>>)
    requires HasColumns(rows, keys)
    ensures |r| == |rows| && forall i :: 0 <= i < |rows| ==> r[i] == KeyOf(rows[i], keys)
  {
    seq(|rows|, i requires 0 <= i < |rows| => KeyOf(rows[i], keys))
  }

  /** One output row of `group_cells`: the key values, the summed reads and,
      when counted, the number of rows of the group. */
  datatype GroupRow = GroupRow(key: seq<string>, read: nat, umiCount: Option<nat>)

  /** Whether `group_cells` adds the `umi_count` column. */
  predicate CountsUmi(columns: seq<string>, keys: seq<string>, countUmi: bool)
  {
    "umi" !in keys && countUmi && "umi" in columns
  }

  /** `group_cells`: one row per distinct key, in order of first occurrence. */
  function GroupCells(rows: seq<Row>, columns: seq<string>, keys: seq<string>, countUmi: bool): (g: seq<GroupRow>)
    requires HasColumns(rows, keys)
    ensures |g| <= |rows|
    ensures forall i, j :: 0 <= i < j < |g| ==> g[i].key != g[j].key
    ensures forall j :: 0 <= j < |g| ==> g[j].key in Keys(rows, keys)
    ensures forall j :: 0 <= j < |g| ==> (g[j].umiCount.Some? <==> CountsUmi(columns, keys, countUmi))
  {
    var ks := Keys(rows, keys);
    var sums := GroupSum(ks, Reads(rows));
    seq(|sums|, i requires 0 <= i < |sums| =>
      GroupRow(sums[i].0, sums[i].1,
               if CountsUmi(columns, keys, countUmi) then Some(SumWhere(ks, Ones(|rows|), sums[i].0)) else None))
  }

  /** The summed reads of the output rows. */
  function GroupReads(g: seq<GroupRow>): (r: seq<nat>)
    ensures |r| == |g| && forall i :: 0 <= i < |g| ==> r[i] == g[i].read
  {
    seq(|g|, i requires 0 <= i < |g| => g[i].read)
  }

  /** The output keys of `group_cells`. */
  function GroupKeys(g: seq<GroupRow>): (r: seq<seq<string>>)
    ensures |r| == |g| && forall i :: 0 <= i < |g| ==> r[i] == g[i].key
  {
    seq(|g|, i requires 0 <= i < |g| => g[i].key)
  }

  /** `group_cells` has one row per distinct key (each input row's key among
      them), each with the summed reads of the rows of that key; it conserves
      the total read count; `umi_count` is present exactly when the molecule
      column is not a key and exists, and then it counts the rows of each
      group and these counts add up to the number of rows. */
  lemma GroupCellsFacts(rows: seq<Row>, columns: seq<string>, keys: seq<string>, countUmi: bool)
    requires HasColumns(rows, keys)
    ensures var g := GroupCells(rows, columns, keys, countUmi);
            var ks := Keys(rows, keys);
            && Distinct(GroupKeys(g))
            && (forall i :: 0 <= i < |rows| ==> KeyOf(rows[i], keys) in GroupKeys(g))
            && (forall i :: 0 <= i < |g| ==> g[i].key in ks && g[i].read == SumWhere(ks, Reads(rows), g[i].key))
            && Sum(GroupReads(g)) == Sum(Reads(rows))
            && (forall i :: 0 <= i < |g| ==> (g[i].umiCount.Some? <==> CountsUmi(columns, keys, countUmi)))
            && (forall i :: 0 <= i < |g| && g[i].umiCount.Some? ==> g[i].umiCount.value == SumWhere(ks, Ones(|rows|), g[i].key))
            && (CountsUmi(columns, keys, countUmi) ==>
                  Sum(seq(|g|, i requires 0 <= i < |g| => g[i].umiCount.value)) == |rows|)
  {
    var g := GroupCells(rows, columns, keys, countUmi);
    var ks := Keys(rows, keys);
    var u := Uniques(ks);
    assert GroupKeys(g) == u;
    GroupReadsTotal(rows, columns, keys, countUmi);
    if CountsUmi(columns, keys, countUmi) {
      GroupUmiTotal(rows, columns, keys, countUmi);
    }
  }

  /** The read sums of the groups add up to the reads of all rows. */
  lemma GroupReadsTotal(rows: seq<Row>, columns: seq<string>, keys: seq<string>, countUmi: bool)
    requires HasColumns(rows, keys)
    ensures Sum(GroupReads(GroupCells(rows, columns, keys, countUmi))) == Sum(Reads(rows))
  {
    var g := GroupCells(rows, columns, keys, countUmi);
    var ks := Keys(rows, keys);
    var u := Uniques(ks);
    assert GroupReads(g) == GroupSums(u, ks, Reads(rows));
    GroupSumsTotal(u, ks, Reads(rows));
    GroupSumConserves(ks, Reads(rows));
  }

  /** The row counts of the groups add up to the number of rows. */
  lemma GroupUmiTotal(rows: seq<Row>, columns: seq<string>, keys: seq<string>, countUmi: bool)
    requires HasColumns(rows, keys) && CountsUmi(columns, keys, countUmi)
    ensures var g := GroupCells(rows, columns, keys, countUmi);
            Sum(seq(|g|, i requires 0 <= i < |g| => g[i].umiCount.value)) == |rows|
  {
    var g := GroupCells(rows, columns, keys, countUmi);
    var ks := Keys(rows, keys);
    var u := Uniques(ks);
    var ones := Ones(|rows|);
    assert seq(|g|, i requires 0 <= i < |g| => g[i].umiCount.value) == GroupSums(u, ks, ones);
    GroupSumsTotal(u, ks, ones);
    GroupSumConserves(ks, ones);
    OnesSum(|rows|);
  }

  lemma {:induction false} OnesSum(n: nat)
    ensures Sum(Ones(n)) == n
  {
    if n > 0 {
      OnesSum(n - 1);
      assert Ones(n)[..n - 1] == Ones(n - 1);
    }
  }
}
