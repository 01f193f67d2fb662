/** `obtain_read_dominant_sequences`: the reads are summed per (cell, clone)
    group; within each cell the groups whose sum is the cell's maximum are
    the dominant ones, all of them when several tie; every input row of a
    dominant group is returned with the group's read sum, the maximum and the
    cell's total (the ratio `max_read_ratio` as a pair of integers) and,
    when asked, the clone's length. */
module Dominant {
  import opened Wrappers
  import opened Collections
  import opened Tables

  /** The cell, clone and read count of one row. */
  datatype Entry = Entry(cell: string, clone: string, read: nat)

  /** One output row: the input row's text columns, the group's summed reads,
      the clone length when the length is considered, and the cell's maximum
      group sum and total, whose quotient is `max_read_ratio`. */
  datatype DominantRow = DominantRow(cells: map<string, string>, read: nat, length: Option<nat>,
                                     maxRead: nat, cellTotal: nat)

  /** The largest entry, or 0 for none. */
  function MaxOf(xs: seq<nat>): (r: nat)
    ensures forall i :: 0 <= i < |xs| ==> xs[i] <= r
    ensures |xs| > 0 ==> exists i :: 0 <= i < |xs| && xs[i] == r
    ensures |xs| == 0 ==> r == 0
  {
    if |xs| == 0 then 0
    else
      var m := MaxOf(xs[..|xs| - 1]);
      assert forall i :: 0 <= i < |xs| - 1 ==> xs[..|xs| - 1][i] == xs[i];
      if xs[|xs| - 1] > m then xs[|xs| - 1] else m
  }

  /** The maximum of natural numbers is at most their sum, and the sum is at
      most the maximum times their number. */
  lemma {:induction false} MaxSumBounds(xs: seq<nat>)
    ensures MaxOf(xs) <= Sum(xs)
    ensures Sum(xs) <= MaxOf(xs) * |xs|
  {
    if |xs| > 0 {
      var n := |xs| - 1;
      MaxSumBounds(xs[..n]);
      assert Sum(xs) == Sum(xs[..n]) + xs[n];
    }
    SumAtMost(xs, MaxOf(xs));
  }

  /** Numbers that are each at most `b` add up to at most `b` times their
      number. */
  lemma {:induction false} SumAtMost(xs: seq<nat>, b: nat)
    requires forall i :: 0 <= i < |xs| ==> xs[i] <= b
    ensures Sum(xs) <= b * |xs|
  {
    if |xs| > 0 {
      var n := |xs| - 1;
      SumAtMost(xs[..n], b);
      assert b * |xs| == b * n + b;
    }
  }

  /** The cell, clone and read of every row. */
  function Entries(rows: seq<Row>, cellKey: string, cloneKey: string): (es: seq<Entry>)
    requires forall i :: 0 <= i < |rows| ==> cellKey in rows[i].cells && cloneKey in rows[i].cells
    ensures |es| == |rows|
    ensures forall i :: 0 <= i < |rows| ==>
              es[i] == Entry(rows[i].cells[cellKey], rows[i].cells[cloneKey], rows[i].read)
  {
    seq(|rows|, i requires 0 <= i < |rows| => Entry(rows[i].cells[cellKey], rows[i].cells[cloneKey], rows[i].read))
  }

  /** The summed reads of the (cell, clone) group. */
  function GroupTotal(es: seq<Entry>, c: string, k: string): nat
  {
    if |es| == 0 then 0
    else
      var e := es[|es| - 1];
      GroupTotal(es[..|es| - 1], c, k) + (if e.cell == c && e.clone == k then e.read else 0)
  }

  /** The clones seen in cell `c`, in order of first occurrence. */
  function Clones(es: seq<Entry>, c: string): (r: seq<string>)
    ensures forall k :: k in r <==> exists i :: 0 <= i < |es| && es[i].cell == c && es[i].clone == k
  {
    if |es| == 0 then []
    else
      var n := |es| - 1;
      var init := Clones(es[..n], c);
      assert forall i :: 0 <= i < n ==> es[..n][i] == es[i];
      if es[n].cell == c then init + [es[n].clone] else init
  }

  /** The group sums of the cell, one per clone. */
  function CellReads(es: seq<Entry>, c: string): (r: seq<nat>)
  {
    var ks := Uniques(Clones(es, c));
    seq(|ks|, k requires 0 <= k < |ks| => GroupTotal(es, c, ks[k]))
  }

  /** The maximum group sum of the cell. */
  function CellMax(es: seq<Entry>, c: string): nat
  {
    MaxOf(CellReads(es, c))
  }

  /** Row `i` with its group's reads and its cell's maximum and total: the
      group sum is at most the maximum, which is at most the total, so the
      ratio `max_read_ratio` is at most 1. */
  function Annotate(rows: seq<Row>, es: seq<Entry>, withLength: bool, i: nat): (d: DominantRow)
    requires |es| == |rows| && i < |rows|
    ensures d.cells == rows[i].cells
    ensures d.read <= d.maxRead <= d.cellTotal
    ensures d.length.Some? <==> withLength
  {
    var e := es[i];
    CellMaxFacts(es, e.cell);
    MaxSumBounds(CellReads(es, e.cell));
    DominantRow(rows[i].cells, GroupTotal(es, e.cell, e.clone),
                if withLength then Some(|e.clone|) else None,
                CellMax(es, e.cell), Sum(CellReads(es, e.cell)))
  }

  /** Every row annotated, in input order. */
  function Annotated(rows: seq<Row>, es: seq<Entry>, withLength: bool): (ds: seq<DominantRow>)
    requires |es| == |rows|
    ensures |ds| == |rows| && forall i :: 0 <= i < |rows| ==> ds[i] == Annotate(rows, es, withLength, i)
  {
    seq(|rows|, i requires 0 <= i < |rows| => Annotate(rows, es, withLength, i))
  }

  /** The annotated row's group sum is its cell's maximum. */
  predicate AtMax(d: DominantRow)
  {
    d.read == d.maxRead
  }

  /** `obtain_read_dominant_sequences`: the annotated rows whose group sum is
      their cell's maximum, in input order; the CARLIN variant always
      considers the length. */
  function DominantSequences(rows: seq<Row>, cellKey: string, cloneKey: string, withLength: bool): (r: seq<DominantRow>)
    requires forall i :: 0 <= i < |rows| ==> cellKey in rows[i].cells && cloneKey in rows[i].cells
    ensures |r| <= |rows|
    ensures forall j :: 0 <= j < |r| ==>
              && AtMax(r[j]) && r[j].maxRead <= r[j].cellTotal
              && (exists i :: 0 <= i < |rows| && r[j].cells == rows[i].cells)
  {
    Filter(Annotated(rows, Entries(rows, cellKey, cloneKey), withLength), AtMax)
  }

  /** Entry `i`'s group has no fewer reads than any group of the same cell. */
  ghost predicate IsDominant(es: seq<Entry>, i: nat)
    requires i < |es|
  {
    forall j :: 0 <= j < |es| && es[j].cell == es[i].cell ==>
      GroupTotal(es, es[j].cell, es[j].clone) <= GroupTotal(es, es[i].cell, es[i].clone)
  }

  /** The cell maximum bounds every group of the cell and is attained by one
      of them. */
  lemma CellMaxFacts(es: seq<Entry>, c: string)
    ensures forall j :: 0 <= j < |es| && es[j].cell == c ==> GroupTotal(es, c, es[j].clone) <= CellMax(es, c)
    ensures (exists j :: 0 <= j < |es| && es[j].cell == c) ==>
              exists j :: 0 <= j < |es| && es[j].cell == c && GroupTotal(es, c, es[j].clone) == CellMax(es, c)
  {
    var ks := Uniques(Clones(es, c));
    var r := CellReads(es, c);
    var cl := Clones(es, c);
    forall j | 0 <= j < |es| && es[j].cell == c ensures GroupTotal(es, c, es[j].clone) <= CellMax(es, c) {
      assert es[j].clone in cl;
      var q := IndexOf(cl, es[j].clone);
      assert cl[q] in ks;
      var k :| 0 <= k < |ks| && ks[k] == es[j].clone;
      assert r[k] == GroupTotal(es, c, es[j].clone);
    }
    if j0 :| 0 <= j0 < |es| && es[j0].cell == c {
      assert es[j0].clone in cl;
      var q := IndexOf(cl, es[j0].clone);
      assert cl[q] in ks;
      var k :| 0 <= k < |r| && r[k] == CellMax(es, c);
      assert ks[k] in Clones(es, c);
      var j :| 0 <= j < |es| && es[j].cell == c && es[j].clone == ks[k];
      assert GroupTotal(es, c, es[j].clone) == CellMax(es, c);
    }
  }

  /** A row's group sum is its cell's maximum exactly when no group of the
      cell has more reads. */
  lemma DominantIff(rows: seq<Row>, es: seq<Entry>, withLength: bool, i: nat)
    requires |es| == |rows| && i < |rows|
    ensures var d := Annotate(rows, es, withLength, i);
            d.read == d.maxRead <==> IsDominant(es, i)
  {
    CellMaxFacts(es, es[i].cell);
  }

  /** `d` is the annotated row of a dominant group. */
  ghost predicate PickedFrom(rows: seq<Row>, es: seq<Entry>, withLength: bool, d: DominantRow)
    requires |es| == |rows|
  {
    exists i :: 0 <= i < |rows| && IsDominant(es, i) && d == Annotate(rows, es, withLength, i)
  }

  /** Every kept row is the annotated row of a dominant group. */
  lemma PickSound(rows: seq<Row>, es: seq<Entry>, withLength: bool)
    requires |es| == |rows|
    ensures var out := Filter(Annotated(rows, es, withLength), AtMax);
            forall k :: 0 <= k < |out| ==> PickedFrom(rows, es, withLength, out[k])
  {
    var ds := Annotated(rows, es, withLength);
    var out := Filter(ds, AtMax);
    forall k | 0 <= k < |out| ensures PickedFrom(rows, es, withLength, out[k]) {
      assert out[k] in ds && AtMax(out[k]);
      var i :| 0 <= i < |ds| && ds[i] == out[k];
      DominantIff(rows, es, withLength, i);
    }
  }

  /** Every row of a dominant group is kept, so tied groups are all kept. */
  lemma PickComplete(rows: seq<Row>, es: seq<Entry>, withLength: bool)
    requires |es| == |rows|
    ensures var out := Filter(Annotated(rows, es, withLength), AtMax);
            forall i :: 0 <= i < |rows| && IsDominant(es, i) ==> Annotate(rows, es, withLength, i) in out
  {
    var ds := Annotated(rows, es, withLength);
    forall i | 0 <= i < |rows| && IsDominant(es, i) ensures Annotate(rows, es, withLength, i) in Filter(ds, AtMax) {
      DominantIff(rows, es, withLength, i);
      assert AtMax(ds[i]);
    }
  }

  /** What a dominant row carries: the group's summed read, which is the
      cell's maximum, so no group of the cell has more reads; the ratio's
      numerator is at most its denominator, which is at most the numerator
      times the number of groups of the cell; the length is the clone's
      length when asked for. */
  lemma AnnotateFacts(rows: seq<Row>, cellKey: string, cloneKey: string, withLength: bool, i: nat)
    requires forall i :: 0 <= i < |rows| ==> cellKey in rows[i].cells && cloneKey in rows[i].cells
    requires i < |rows| && IsDominant(Entries(rows, cellKey, cloneKey), i)
    ensures var es := Entries(rows, cellKey, cloneKey);
            var d := Annotate(rows, es, withLength, i);
            && d.cells == rows[i].cells
            && d.read == d.maxRead
            && (forall j :: 0 <= j < |rows| && rows[j].cells[cellKey] == rows[i].cells[cellKey] ==>
                  GroupTotal(es, rows[j].cells[cellKey], rows[j].cells[cloneKey]) <= d.read)
            && d.maxRead <= d.cellTotal <= d.maxRead * |CellReads(es, rows[i].cells[cellKey])|
            && d.length == (if withLength then Some(|rows[i].cells[cloneKey]|) else None)
  {
    var es := Entries(rows, cellKey, cloneKey);
    DominantIff(rows, es, withLength, i);
    MaxSumBounds(CellReads(es, es[i].cell));
  }

  /** `obtain_read_dominant_sequences` returns exactly the rows of the groups
      with their cell's largest summed read, annotated, in input order: every
      output row is such a row, and every such row is returned, so groups
      tied at the maximum are all kept. */
  lemma DominantSequencesFacts(rows: seq<Row>, cellKey: string, cloneKey: string, withLength: bool)
    requires forall i :: 0 <= i < |rows| ==> cellKey in rows[i].cells && cloneKey in rows[i].cells
    ensures var out := DominantSequences(rows, cellKey, cloneKey, withLength);
            var es := Entries(rows, cellKey, cloneKey);
            forall k :: 0 <= k < |out| ==> PickedFrom(rows, es, withLength, out[k])
    ensures var out := DominantSequences(rows, cellKey, cloneKey, withLength);
            var es := Entries(rows, cellKey, cloneKey);
            forall i :: 0 <= i < |rows| && IsDominant(es, i) ==> Annotate(rows, es, withLength, i) in out
  {
    var es := Entries(rows, cellKey, cloneKey);
    assert DominantSequences(rows, cellKey, cloneKey, withLength) == Filter(Annotated(rows, es, withLength), AtMax);
    PickSound(rows, es, withLength);
    PickComplete(rows, es, withLength);
  }
}
