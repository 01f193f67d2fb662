/** The clone-level quality filters: `QC_clonal_bc_per_cell` (the number
    of distinct clones of each cell), `QC_clone_size` (the number of distinct
    cells of each clone), both among the rows with at least a read cutoff,
    and `remove_cells`, which applies a read cutoff, a UMI-count cutoff, a
    cap on clones per cell and a cap on cells per clone, in that order. */
module CellFilters {
  import opened Wrappers
  import opened Collections

  /** A row of a clonal table: its cell, its clone, its reads and its UMI
      count. */
  datatype CloneRow = CloneRow(cell: string, clone: string, read: nat, umiCount: nat)

  /** A clonal table; `hasUmiCount` says whether the `umi_count` column
      exists, otherwise the rows' UMI counts mean nothing. */
  datatype CloneTable = CloneTable(rows: seq<CloneRow>, hasUmiCount: bool)

  datatype FilterError =
    | MissingUmiCount  // a UMI cutoff on a table without `umi_count` (`KeyError`)
    | EmptyGrouping    // a per-group count over no rows, whose `to_frame` raises (`AttributeError`)

  function CellOf(r: CloneRow): string
  {
    r.cell
  }

  function CloneOf(r: CloneRow): string
  {
    r.clone
  }

  /** One column of the rows. */
  function Project(rows: seq<CloneRow>, f: CloneRow -> string): (r: seq<string>)
    ensures |r| == |rows| && forall i :: 0 <= i < |rows| ==> r[i] == f(rows[i])
  {
    seq(|rows|, i requires 0 <= i < |rows| => f(rows[i]))
  }

  /** `df[df["read"] >= cutoff]`. */
  function AtLeastReads(rows: seq<CloneRow>, cutoff: int): seq<CloneRow>
  {
    Filter(rows, (r: CloneRow) => r.read >= cutoff)
  }

  /** `len(set(x[member]))` for the group `x` of the rows whose `group` column is
      `k`. */
  function DistinctIn(rows: seq<CloneRow>, group: CloneRow -> string, member: CloneRow -> string, k: string): nat
  {
    |Uniques(Project(Filter(rows, (r: CloneRow) => group(r) == k), member))|
  }

  /** `groupby(group).apply(lambda x: len(set(x[member])))`: each `group` value once,
      with its number of distinct `member` values. */
  function DistinctPerGroup(rows: seq<CloneRow>, group: CloneRow -> string, member: CloneRow -> string): seq<(string, nat)>
  {
    var ks := Uniques(Project(rows, group));
    seq(|ks|, i requires 0 <= i < |ks| => (ks[i], DistinctIn(rows, group, member, ks[i])))
  }

  /** The group-by count of `rows`, which fails when there are no rows: the
      group-by of an empty frame applies to nothing and gives back a frame,
      which has no `to_frame`. */
  function CountPerGroup(rows: seq<CloneRow>, group: CloneRow -> string, member: CloneRow -> string): (r: Result<seq<(string, nat)>, FilterError>)
    ensures r.Failure? <==> |rows| == 0
    ensures r.Failure? ==> r.error == EmptyGrouping
    ensures r.Success? ==> r.value == DistinctPerGroup(rows, group, member)
  {
    if |rows| == 0 then Failure(EmptyGrouping) else Success(DistinctPerGroup(rows, group, member))
  }

  /** No row reaches the read cutoff exactly when none survives it. */
  lemma NoneAtLeast(rows: seq<CloneRow>, cutoff: int)
    ensures |AtLeastReads(rows, cutoff)| == 0 <==> forall i :: 0 <= i < |rows| ==> rows[i].read < cutoff
  {
    if |AtLeastReads(rows, cutoff)| > 0 {
      assert AtLeastReads(rows, cutoff)[0] in rows;
    }
  }

  /** `QC_clonal_bc_per_cell` without the plot: per cell, its number of
      distinct clones; it fails when no row reaches the cutoff. */
  function ClonalBcPerCell(rows: seq<CloneRow>, cutoff: int): (r: Result<seq<(string, nat)>, FilterError>)
    ensures r.Failure? <==> forall i :: 0 <= i < |rows| ==> rows[i].read < cutoff
    ensures r.Failure? ==> r.error == EmptyGrouping
  {
    NoneAtLeast(rows, cutoff);
    CountPerGroup(AtLeastReads(rows, cutoff), CellOf, CloneOf)
  }

  /** `QC_clone_size` without the plot: per clone, its number of distinct
      cells; it fails when no row reaches the cutoff. */
  function CloneSize(rows: seq<CloneRow>, cutoff: int): (r: Result<seq<(string, nat)>, FilterError>)
    ensures r.Failure? <==> forall i :: 0 <= i < |rows| ==> rows[i].read < cutoff
    ensures r.Failure? ==> r.error == EmptyGrouping
  {
    NoneAtLeast(rows, cutoff);
    CountPerGroup(AtLeastReads(rows, cutoff), CloneOf, CellOf)
  }

  /** The `member` values of the rows whose `group` value is `k`. */
  ghost function Partners(rows: seq<CloneRow>, group: CloneRow -> string, member: CloneRow -> string, k: string): set<string>
  {
    set i | 0 <= i < |rows| && group(rows[i]) == k :: member(rows[i])
  }

  /** The group's count is the number of its distinct partners. */
  lemma DistinctInCard(rows: seq<CloneRow>, group: CloneRow -> string, member: CloneRow -> string, k: string)
    ensures DistinctIn(rows, group, member, k) == |Partners(rows, group, member, k)|
  {
    var u := Uniques(Project(Filter(rows, (r: CloneRow) => group(r) == k), member));
    DistinctCard(u);
    UniquesArePartners(rows, group, member, k);
    assert (set x | x in u) == Partners(rows, group, member, k);
  }

  /** The distinct `member` values of the group's rows are its partners. */
  lemma UniquesArePartners(rows: seq<CloneRow>, group: CloneRow -> string, member: CloneRow -> string, k: string)
    ensures forall x :: x in Uniques(Project(Filter(rows, (r: CloneRow) => group(r) == k), member)) <==>
                        x in Partners(rows, group, member, k)
  {
    var g := Filter(rows, (r: CloneRow) => group(r) == k);
    var col := Project(g, member);
    forall x | x in col ensures x in Partners(rows, group, member, k) {
      var j :| 0 <= j < |col| && col[j] == x;
      var i :| 0 <= i < |rows| && rows[i] == g[j];
    }
    forall x | x in Partners(rows, group, member, k) ensures x in col {
      var i :| 0 <= i < |rows| && group(rows[i]) == k && member(rows[i]) == x;
      var j :| 0 <= j < |g| && g[j] == rows[i];
      assert col[j] == x;
    }
  }

  /** A row with group `k` gives that group at least one partner. */
  lemma PartnersNonEmpty(rows: seq<CloneRow>, group: CloneRow -> string, member: CloneRow -> string, i: nat)
    requires i < |rows|
    ensures member(rows[i]) in Partners(rows, group, member, group(rows[i]))
  {
  }

  /** Each group is listed once; the groups listed are exactly the values of
      the `group` column; each count is the number of distinct partners of the
      group and at least one. */
  lemma DistinctPerGroupFacts(rows: seq<CloneRow>, group: CloneRow -> string, member: CloneRow -> string)
    ensures var g := DistinctPerGroup(rows, group, member);
            && Distinct(Firsts(g))
            && (forall k :: k in Firsts(g) <==> exists i :: 0 <= i < |rows| && group(rows[i]) == k)
            && (forall q :: 0 <= q < |g| ==> g[q].1 == |Partners(rows, group, member, g[q].0)| >= 1)
  {
    var g := DistinctPerGroup(rows, group, member);
    var ks := Uniques(Project(rows, group));
    assert Firsts(g) == ks;
    forall k | k in ks ensures exists i :: 0 <= i < |rows| && group(rows[i]) == k {
      var j :| 0 <= j < |Project(rows, group)| && Project(rows, group)[j] == k;
    }
    forall q | 0 <= q < |g| ensures g[q].1 == |Partners(rows, group, member, g[q].0)| >= 1 {
      GroupCount(rows, group, member, ks[q]);
    }
  }

  /** A group value of the rows has as count its number of distinct
      partners, at least one. */
  lemma GroupCount(rows: seq<CloneRow>, group: CloneRow -> string, member: CloneRow -> string, k: string)
    requires k in Project(rows, group)
    ensures DistinctIn(rows, group, member, k) == |Partners(rows, group, member, k)| >= 1
  {
    DistinctInCard(rows, group, member, k);
    var j :| 0 <= j < |Project(rows, group)| && Project(rows, group)[j] == k;
    PartnersNonEmpty(rows, group, member, j);
  }

  /** Filtering rows by a condition that every row meets keeps them all. */
  lemma {:induction false} FilterAll(rows: seq<CloneRow>, keep: CloneRow -> bool)
    requires forall i :: 0 <= i < |rows| ==> keep(rows[i])
    ensures Filter(rows, keep) == rows
  {
    if |rows| > 0 {
      FilterAll(rows[..|rows| - 1], keep);
    }
  }

  /** Some row at or above the cutoff has group `k`. */
  ghost predicate InGroupAbove(rows: seq<CloneRow>, group: CloneRow -> string, cutoff: int, k: string)
  {
    exists i :: 0 <= i < |rows| && rows[i].read >= cutoff && group(rows[i]) == k
  }

  /** The `member` values of the rows at or above the cutoff whose `group`
      value is `k`. */
  ghost function PartnersAbove(rows: seq<CloneRow>, group: CloneRow -> string, member: CloneRow -> string, cutoff: int, k: string): set<string>
  {
    set i | 0 <= i < |rows| && rows[i].read >= cutoff && group(rows[i]) == k :: member(rows[i])
  }

  /** Partners among the rows meeting a read cutoff are the partners of
      those rows; such a group exists exactly when one of those rows has it. */
  lemma PartnersAtLeast(rows: seq<CloneRow>, group: CloneRow -> string, member: CloneRow -> string, cutoff: int, k: string)
    ensures Partners(AtLeastReads(rows, cutoff), group, member, k) == PartnersAbove(rows, group, member, cutoff, k)
    ensures (exists j :: 0 <= j < |AtLeastReads(rows, cutoff)| && group(AtLeastReads(rows, cutoff)[j]) == k) <==> InGroupAbove(rows, group, cutoff, k)
  {
    var f := AtLeastReads(rows, cutoff);
    var s := PartnersAbove(rows, group, member, cutoff, k);
    forall x | x in Partners(f, group, member, k) ensures x in s {
      var j :| 0 <= j < |f| && group(f[j]) == k && member(f[j]) == x;
      var i :| 0 <= i < |rows| && rows[i] == f[j];
    }
    forall x | x in s ensures x in Partners(f, group, member, k) {
      var i :| 0 <= i < |rows| && rows[i].read >= cutoff && group(rows[i]) == k && member(rows[i]) == x;
      var j :| 0 <= j < |f| && f[j] == rows[i];
    }
    if exists j :: 0 <= j < |f| && group(f[j]) == k {
      var j :| 0 <= j < |f| && group(f[j]) == k;
      var i :| 0 <= i < |rows| && rows[i] == f[j];
    }
    if InGroupAbove(rows, group, cutoff, k) {
      var i :| 0 <= i < |rows| && rows[i].read >= cutoff && group(rows[i]) == k;
      var j :| 0 <= j < |f| && f[j] == rows[i];
    }
  }

  /** The per-group counts over the rows at or above a cutoff, stated on the
      rows themselves. */
  lemma GroupFactsAtLeast(rows: seq<CloneRow>, group: CloneRow -> string, member: CloneRow -> string, cutoff: int)
    ensures var g := DistinctPerGroup(AtLeastReads(rows, cutoff), group, member);
            && Distinct(Firsts(g))
            && (forall k :: k in Firsts(g) <==> InGroupAbove(rows, group, cutoff, k))
            && (forall q :: 0 <= q < |g| ==> g[q].1 == |PartnersAbove(rows, group, member, cutoff, g[q].0)| >= 1)
  {
    var f := AtLeastReads(rows, cutoff);
    var g := DistinctPerGroup(f, group, member);
    DistinctPerGroupFacts(f, group, member);
    forall k ensures k in Firsts(g) <==> InGroupAbove(rows, group, cutoff, k) {
      PartnersAtLeast(rows, group, member, cutoff, k);
    }
    forall q | 0 <= q < |g| ensures g[q].1 == |PartnersAbove(rows, group, member, cutoff, g[q].0)| {
      PartnersAtLeast(rows, group, member, cutoff, g[q].0);
    }
  }

  /** The distinct clones of a cell's rows at or above the cutoff. */
  ghost function CellClones(rows: seq<CloneRow>, cutoff: int, cell: string): set<string>
  {
    set i | 0 <= i < |rows| && rows[i].read >= cutoff && rows[i].cell == cell :: rows[i].clone
  }

  /** The distinct cells of a clone's rows at or above the cutoff. */
  ghost function CloneCells(rows: seq<CloneRow>, cutoff: int, clone: string): set<string>
  {
    set i | 0 <= i < |rows| && rows[i].read >= cutoff && rows[i].clone == clone :: rows[i].cell
  }

  /** Some row of the cell is at or above the cutoff. */
  ghost predicate CellSeen(rows: seq<CloneRow>, cutoff: int, cell: string)
  {
    exists i :: 0 <= i < |rows| && rows[i].read >= cutoff && rows[i].cell == cell
  }

  /** Some row of the clone is at or above the cutoff. */
  ghost predicate CloneSeen(rows: seq<CloneRow>, cutoff: int, clone: string)
  {
    exists i :: 0 <= i < |rows| && rows[i].read >= cutoff && rows[i].clone == clone
  }

  /** The cell-and-clone sets are the generic partner sets. */
  lemma CellTerms(rows: seq<CloneRow>, cutoff: int, cell: string)
    ensures CellClones(rows, cutoff, cell) == PartnersAbove(rows, CellOf, CloneOf, cutoff, cell)
    ensures CellSeen(rows, cutoff, cell) <==> InGroupAbove(rows, CellOf, cutoff, cell)
  {
    assert forall i :: 0 <= i < |rows| ==> CellOf(rows[i]) == rows[i].cell && CloneOf(rows[i]) == rows[i].clone;
  }

  /** The clone-and-cell sets are the generic partner sets. */
  lemma CloneTerms(rows: seq<CloneRow>, cutoff: int, clone: string)
    ensures CloneCells(rows, cutoff, clone) == PartnersAbove(rows, CloneOf, CellOf, cutoff, clone)
    ensures CloneSeen(rows, cutoff, clone) <==> InGroupAbove(rows, CloneOf, cutoff, clone)
  {
    assert forall i :: 0 <= i < |rows| ==> CellOf(rows[i]) == rows[i].cell && CloneOf(rows[i]) == rows[i].clone;
  }

  /** `QC_clonal_bc_per_cell` lists, once each, exactly the cells with a row
      at or above the cutoff, and counts for each the distinct clones among
      its rows at or above the cutoff, at least one; with no such row it
      fails. */
  lemma ClonalBcPerCellFacts(rows: seq<CloneRow>, cutoff: int)
    ensures ClonalBcPerCell(rows, cutoff).Failure? <==> forall c :: !CellSeen(rows, cutoff, c)
    ensures ClonalBcPerCell(rows, cutoff).Success? ==>
            var g := ClonalBcPerCell(rows, cutoff).value;
            && Distinct(Firsts(g))
            && (forall c :: c in Firsts(g) <==> CellSeen(rows, cutoff, c))
            && (forall q :: 0 <= q < |g| ==> g[q].1 == |CellClones(rows, cutoff, g[q].0)| >= 1)
  {
    CellSeenNone(rows, cutoff);
    CellSeenCounts(rows, cutoff);
  }

  /** No row is at the cutoff exactly when no cell is seen there. */
  lemma CellSeenNone(rows: seq<CloneRow>, cutoff: int)
    ensures (forall i :: 0 <= i < |rows| ==> rows[i].read < cutoff) <==> forall c :: !CellSeen(rows, cutoff, c)
  {
    if !forall i :: 0 <= i < |rows| ==> rows[i].read < cutoff {
      var i :| 0 <= i < |rows| && rows[i].read >= cutoff;
      assert CellSeen(rows, cutoff, rows[i].cell);
    }
  }

  /** The per-cell counts over the rows at the cutoff, in the terms of cells. */
  lemma CellSeenCounts(rows: seq<CloneRow>, cutoff: int)
    ensures var g := DistinctPerGroup(AtLeastReads(rows, cutoff), CellOf, CloneOf);
            && Distinct(Firsts(g))
            && (forall c :: c in Firsts(g) <==> CellSeen(rows, cutoff, c))
            && (forall q :: 0 <= q < |g| ==> g[q].1 == |CellClones(rows, cutoff, g[q].0)| >= 1)
  {
    GroupFactsAtLeast(rows, CellOf, CloneOf, cutoff);
    forall c ensures CellSeen(rows, cutoff, c) <==> InGroupAbove(rows, CellOf, cutoff, c) {
      CellTerms(rows, cutoff, c);
    }
    forall c ensures CellClones(rows, cutoff, c) == PartnersAbove(rows, CellOf, CloneOf, cutoff, c) {
      CellTerms(rows, cutoff, c);
    }
  }

  /** `QC_clone_size` lists, once each, exactly the clones with a row at or
      above the cutoff, and counts for each the distinct cells among its
      rows at or above the cutoff, at least one; with no such row it
      fails. */
  lemma CloneSizeFacts(rows: seq<CloneRow>, cutoff: int)
    ensures CloneSize(rows, cutoff).Failure? <==> forall c :: !CloneSeen(rows, cutoff, c)
    ensures CloneSize(rows, cutoff).Success? ==>
            var g := CloneSize(rows, cutoff).value;
            && Distinct(Firsts(g))
            && (forall c :: c in Firsts(g) <==> CloneSeen(rows, cutoff, c))
            && (forall q :: 0 <= q < |g| ==> g[q].1 == |CloneCells(rows, cutoff, g[q].0)| >= 1)
  {
    CloneSeenNone(rows, cutoff);
    CloneSeenCounts(rows, cutoff);
  }

  /** No row is at the cutoff exactly when no clone is seen there. */
  lemma CloneSeenNone(rows: seq<CloneRow>, cutoff: int)
    ensures (forall i :: 0 <= i < |rows| ==> rows[i].read < cutoff) <==> forall c :: !CloneSeen(rows, cutoff, c)
  {
    if !forall i :: 0 <= i < |rows| ==> rows[i].read < cutoff {
      var i :| 0 <= i < |rows| && rows[i].read >= cutoff;
      assert CloneSeen(rows, cutoff, rows[i].clone);
    }
  }

  /** The per-clone counts over the rows at the cutoff, in the terms of clones. */
  lemma CloneSeenCounts(rows: seq<CloneRow>, cutoff: int)
    ensures var g := DistinctPerGroup(AtLeastReads(rows, cutoff), CloneOf, CellOf);
            && Distinct(Firsts(g))
            && (forall c :: c in Firsts(g) <==> CloneSeen(rows, cutoff, c))
            && (forall q :: 0 <= q < |g| ==> g[q].1 == |CloneCells(rows, cutoff, g[q].0)| >= 1)
  {
    GroupFactsAtLeast(rows, CloneOf, CellOf, cutoff);
    forall c ensures CloneSeen(rows, cutoff, c) <==> InGroupAbove(rows, CloneOf, cutoff, c) {
      CloneTerms(rows, cutoff, c);
    }
    forall c ensures CloneCells(rows, cutoff, c) == PartnersAbove(rows, CloneOf, CellOf, cutoff, c) {
      CloneTerms(rows, cutoff, c);
    }
  }

  /** The rows whose `group` value has at most `c` distinct `member` values, as
      `remove_cells` selects them: the groups are counted over all rows
      (read cutoff 0), the groups within the cap are listed, and the rows of
      listed groups are kept. */
  function KeepGroups(rows: seq<CloneRow>, group: CloneRow -> string, member: CloneRow -> string, c: int): (r: Result<seq<CloneRow>, FilterError>)
    ensures r.Failure? <==> |rows| == 0
    ensures r.Failure? ==> r.error == EmptyGrouping
    ensures r.Success? ==> forall x :: x in r.value ==> x in rows
  {
    NoneAtLeast(rows, 0);
    var counts := CountPerGroup(AtLeastReads(rows, 0), group, member);
    if counts.Failure? then Failure(counts.error)
    else
      var ok := Firsts(Filter(counts.value, (p: (string, nat)) => p.1 <= c));
      Success(Filter(rows, (r: CloneRow) => group(r) in ok))
  }

  /** A group of the counts is listed as within the cap exactly when its
      count is at most `c`. */
  lemma WithinCap(counts: seq<(string, nat)>, c: int, k: string, q: nat)
    requires Distinct(Firsts(counts)) && q < |counts| && counts[q].0 == k
    ensures k in Firsts(Filter(counts, (p: (string, nat)) => p.1 <= c)) <==> counts[q].1 <= c
  {
    if k in Firsts(Filter(counts, (p: (string, nat)) => p.1 <= c)) {
      ListedWithinCap(counts, c, k, q);
    }
    if counts[q].1 <= c {
      WithinCapListed(counts, c, q);
    }
  }

  /** A listed group has a count within the cap. */
  lemma ListedWithinCap(counts: seq<(string, nat)>, c: int, k: string, q: nat)
    requires Distinct(Firsts(counts)) && q < |counts| && counts[q].0 == k
    requires k in Firsts(Filter(counts, (p: (string, nat)) => p.1 <= c))
    ensures counts[q].1 <= c
  {
    var within := Filter(counts, (p: (string, nat)) => p.1 <= c);
    var ok := Firsts(within);
    var w :| 0 <= w < |within| && ok[w] == k;
    var q' :| 0 <= q' < |counts| && counts[q'] == within[w];
    assert Firsts(counts)[q'] == k == Firsts(counts)[q];
  }

  /** A group whose count is within the cap is listed. */
  lemma WithinCapListed(counts: seq<(string, nat)>, c: int, q: nat)
    requires q < |counts| && counts[q].1 <= c
    ensures counts[q].0 in Firsts(Filter(counts, (p: (string, nat)) => p.1 <= c))
  {
    var within := Filter(counts, (p: (string, nat)) => p.1 <= c);
    var w :| 0 <= w < |within| && within[w] == counts[q];
    assert Firsts(within)[w] == counts[q].0;
  }

  /** A row survives the cap exactly when it is a row of the input whose
      group has at most `c` distinct partners there; with no input rows the
      cap fails. */
  lemma KeepGroupsFacts(rows: seq<CloneRow>, group: CloneRow -> string, member: CloneRow -> string, c: int)
    ensures KeepGroups(rows, group, member, c).Failure? <==> |rows| == 0
    ensures KeepGroups(rows, group, member, c).Success? ==>
              forall r :: r in KeepGroups(rows, group, member, c).value <==> r in rows && |Partners(rows, group, member, group(r))| <= c
  {
    FilterAll(rows, (r: CloneRow) => r.read >= 0);
    var counts := DistinctPerGroup(rows, group, member);
    DistinctPerGroupFacts(rows, group, member);
    var ok := Firsts(Filter(counts, (p: (string, nat)) => p.1 <= c));
    forall r | r in rows ensures group(r) in ok <==> |Partners(rows, group, member, group(r))| <= c {
      KeepOne(rows, group, member, c, r);
    }
    if |rows| > 0 {
      assert KeepGroups(rows, group, member, c).value == Filter(rows, (r: CloneRow) => group(r) in ok);
    }
  }

  /** A row's group is listed as within the cap exactly when it has at most
      `c` distinct partners. */
  lemma KeepOne(rows: seq<CloneRow>, group: CloneRow -> string, member: CloneRow -> string, c: int, r: CloneRow)
    requires r in rows
    ensures group(r) in Firsts(Filter(DistinctPerGroup(rows, group, member), (p: (string, nat)) => p.1 <= c))
            <==> |Partners(rows, group, member, group(r))| <= c
  {
    var counts := DistinctPerGroup(rows, group, member);
    DistinctPerGroupFacts(rows, group, member);
    var i :| 0 <= i < |rows| && rows[i] == r;
    assert group(r) in Firsts(counts);
    var q :| 0 <= q < |counts| && Firsts(counts)[q] == group(r);
    WithinCap(counts, c, group(r), q);
  }

  /** Dropping rows can only shrink a group's partners. */
  lemma PartnersSubset(small: seq<CloneRow>, big: seq<CloneRow>, group: CloneRow -> string, member: CloneRow -> string, k: string)
    requires forall r :: r in small ==> r in big
    ensures |Partners(small, group, member, k)| <= |Partners(big, group, member, k)|
  {
    forall x | x in Partners(small, group, member, k) ensures x in Partners(big, group, member, k) {
      var i :| 0 <= i < |small| && group(small[i]) == k && member(small[i]) == x;
      assert small[i] in big;
      var j :| 0 <= j < |big| && big[j] == small[i];
    }
    SubsetCard(Partners(small, group, member, k), Partners(big, group, member, k));
  }

  /** The read and UMI-count stages of `remove_cells`. */
  function ReadAndUmiStage(t: CloneTable, readCutoff: Option<int>, umiCutoff: Option<int>): (r: Result<seq<CloneRow>, FilterError>)
    ensures r.Success? <==> umiCutoff.None? || t.hasUmiCount
    ensures r.Failure? ==> r.error == MissingUmiCount
    ensures r.Success? ==> forall x :: x in r.value ==> x in t.rows
  {
    var afterRead := if readCutoff.Some? then AtLeastReads(t.rows, readCutoff.value) else t.rows;
    if umiCutoff.None? then Success(afterRead)
    else if !t.hasUmiCount then Failure(MissingUmiCount)
    else Success(Filter(afterRead, (r: CloneRow) => r.umiCount >= umiCutoff.value))
  }

  /** `remove_cells`, each cutoff optional. */
  function RemoveCells(t: CloneTable, readCutoff: Option<int>, umiCutoff: Option<int>,
                       cloneBcNumberCutoff: Option<int>, cloneSizeCutoff: Option<int>): (res: Result<seq<CloneRow>, FilterError>)
    ensures res.Success? ==> forall x :: x in res.value ==> x in t.rows
  {
    match ReadAndUmiStage(t, readCutoff, umiCutoff)
    case Failure(e) => Failure(e)
    case Success(rows) => Caps(rows, cloneBcNumberCutoff, cloneSizeCutoff)
  }

  /** The two caps of `remove_cells`, the cell cap first. */
  function Caps(rows: seq<CloneRow>, cloneBcNumberCutoff: Option<int>, cloneSizeCutoff: Option<int>): (res: Result<seq<CloneRow>, FilterError>)
    ensures res.Success? ==> forall x :: x in res.value ==> x in rows
  {
    var afterCells := if cloneBcNumberCutoff.Some? then KeepGroups(rows, CellOf, CloneOf, cloneBcNumberCutoff.value) else Success(rows);
    if afterCells.Failure? || cloneSizeCutoff.None? then afterCells
    else KeepGroups(afterCells.value, CloneOf, CellOf, cloneSizeCutoff.value)
  }

  /** The caps raise exactly when a cap meets no rows: the rows are empty, or
      the cell cap has removed every row before the clone cap. */
  lemma CapsFailure(rows: seq<CloneRow>, cloneBcNumberCutoff: Option<int>, cloneSizeCutoff: Option<int>)
    ensures Caps(rows, cloneBcNumberCutoff, cloneSizeCutoff) == Failure(EmptyGrouping) <==>
              && (cloneBcNumberCutoff.Some? || cloneSizeCutoff.Some?)
              && (|rows| == 0
                  || (&& cloneBcNumberCutoff.Some? && cloneSizeCutoff.Some?
                      && forall r :: r in rows ==> |Partners(rows, CellOf, CloneOf, r.cell)| > cloneBcNumberCutoff.value))
  {
    if cloneBcNumberCutoff.Some? {
      KeepGroupsFacts(rows, CellOf, CloneOf, cloneBcNumberCutoff.value);
      if |rows| > 0 {
        CellCapEmpties(rows, cloneBcNumberCutoff.value);
      }
    }
  }

  /** The cell cap leaves no rows exactly when every cell has more clones
      than the cap. */
  lemma CellCapEmpties(rows: seq<CloneRow>, c: int)
    requires |rows| > 0
    ensures KeepGroups(rows, CellOf, CloneOf, c).Success?
    ensures (forall r :: r in rows ==> |Partners(rows, CellOf, CloneOf, r.cell)| > c) <==>
            |KeepGroups(rows, CellOf, CloneOf, c).value| == 0
  {
    var afterCells := KeepGroups(rows, CellOf, CloneOf, c);
    KeepGroupsFacts(rows, CellOf, CloneOf, c);
    if |afterCells.value| > 0 {
      assert afterCells.value[0] in afterCells.value;
    }
    forall r | r in rows ensures CellOf(r) == r.cell {
    }
  }

  /** A row meets the read and UMI cutoffs that are given. */
  predicate Meets(r: CloneRow, readCutoff: Option<int>, umiCutoff: Option<int>)
  {
    && (readCutoff.Some? ==> r.read >= readCutoff.value)
    && (umiCutoff.Some? ==> r.umiCount >= umiCutoff.value)
  }

  /** The read and UMI stages keep exactly the input rows meeting both
      cutoffs, and fail only for a UMI cutoff without the column. */
  lemma ReadAndUmiFacts(t: CloneTable, readCutoff: Option<int>, umiCutoff: Option<int>)
    ensures ReadAndUmiStage(t, readCutoff, umiCutoff).Success? <==> umiCutoff.None? || t.hasUmiCount
    ensures ReadAndUmiStage(t, readCutoff, umiCutoff).Success? ==>
              forall r :: r in ReadAndUmiStage(t, readCutoff, umiCutoff).value <==>
                && r in t.rows
                && (readCutoff.Some? ==> r.read >= readCutoff.value)
                && (umiCutoff.Some? ==> r.umiCount >= umiCutoff.value)
  {
    var afterRead := if readCutoff.Some? then AtLeastReads(t.rows, readCutoff.value) else t.rows;
    forall r ensures r in afterRead <==> r in t.rows && (readCutoff.Some? ==> r.read >= readCutoff.value) {
      if r in t.rows {
        var i :| 0 <= i < |t.rows| && t.rows[i] == r;
      }
      if r in afterRead && readCutoff.Some? {
        var j :| 0 <= j < |afterRead| && afterRead[j] == r;
      }
    }
    if umiCutoff.Some? && t.hasUmiCount {
      var out := Filter(afterRead, (r: CloneRow) => r.umiCount >= umiCutoff.value);
      forall r ensures r in out <==> r in afterRead && r.umiCount >= umiCutoff.value {
        if r in afterRead {
          var i :| 0 <= i < |afterRead| && afterRead[i] == r;
        }
        if r in out {
          var j :| 0 <= j < |out| && out[j] == r;
        }
      }
    }
  }

  /** `remove_cells` fails for a UMI cutoff on a table without the
      `umi_count` column, and for a cap that meets no rows: either cap when
      no row meets the read and UMI cutoffs, or the clone cap when the cell
      cap has left no row. Every row it returns is an input row meeting the
      read and UMI cutoffs; in the result every cell has at most the capped
      number of distinct clones and every clone at most the capped number of
      distinct cells; with no cutoff the table is returned unchanged. */
  lemma RemoveCellsFacts(t: CloneTable, readCutoff: Option<int>, umiCutoff: Option<int>,
                         cloneBcNumberCutoff: Option<int>, cloneSizeCutoff: Option<int>)
    ensures var res := RemoveCells(t, readCutoff, umiCutoff, cloneBcNumberCutoff, cloneSizeCutoff);
            && (res == Failure(MissingUmiCount) <==> umiCutoff.Some? && !t.hasUmiCount)
            && (res == Failure(EmptyGrouping) <==>
                  && (umiCutoff.None? || t.hasUmiCount)
                  && (cloneBcNumberCutoff.Some? || cloneSizeCutoff.Some?)
                  && ((forall r :: r in t.rows ==> !Meets(r, readCutoff, umiCutoff))
                      || (&& cloneBcNumberCutoff.Some? && cloneSizeCutoff.Some?
                          && var rows := ReadAndUmiStage(t, readCutoff, umiCutoff).value;
                             forall r :: r in rows ==> |Partners(rows, CellOf, CloneOf, r.cell)| > cloneBcNumberCutoff.value)))
            && (res.Success? ==> forall r :: r in res.value ==>
                  && r in t.rows
                  && Meets(r, readCutoff, umiCutoff)
                  && (cloneBcNumberCutoff.Some? ==> |Partners(res.value, CellOf, CloneOf, r.cell)| <= cloneBcNumberCutoff.value)
                  && (cloneSizeCutoff.Some? ==> |Partners(res.value, CloneOf, CellOf, r.clone)| <= cloneSizeCutoff.value))
            && (readCutoff.None? && umiCutoff.None? && cloneBcNumberCutoff.None? && cloneSizeCutoff.None? ==> res == Success(t.rows))
  {
    ReadAndUmiFacts(t, readCutoff, umiCutoff);
    RemoveCellsFailures(t, readCutoff, umiCutoff, cloneBcNumberCutoff, cloneSizeCutoff);
    RemoveCellsCaps(t, readCutoff, umiCutoff, cloneBcNumberCutoff, cloneSizeCutoff);
  }

  /** When the caps of `remove_cells` raise: a cap on no rows, or the clone
      cap after the cell cap has left no rows. */
  lemma RemoveCellsFailures(t: CloneTable, readCutoff: Option<int>, umiCutoff: Option<int>,
                            cloneBcNumberCutoff: Option<int>, cloneSizeCutoff: Option<int>)
    ensures var res := RemoveCells(t, readCutoff, umiCutoff, cloneBcNumberCutoff, cloneSizeCutoff);
            (res == Failure(EmptyGrouping) <==>
               && (umiCutoff.None? || t.hasUmiCount)
               && (cloneBcNumberCutoff.Some? || cloneSizeCutoff.Some?)
               && ((forall r :: r in t.rows ==> !Meets(r, readCutoff, umiCutoff))
                   || (&& cloneBcNumberCutoff.Some? && cloneSizeCutoff.Some?
                       && var rows := ReadAndUmiStage(t, readCutoff, umiCutoff).value;
                          forall r :: r in rows ==> |Partners(rows, CellOf, CloneOf, r.cell)| > cloneBcNumberCutoff.value)))
  {
    ReadAndUmiFacts(t, readCutoff, umiCutoff);
    var stage := ReadAndUmiStage(t, readCutoff, umiCutoff);
    if stage.Success? {
      var rows := stage.value;
      assert (forall r :: r in t.rows ==> !Meets(r, readCutoff, umiCutoff)) <==> |rows| == 0 by {
        if |rows| > 0 {
          assert rows[0] in rows;
        }
      }
      CapsFailure(rows, cloneBcNumberCutoff, cloneSizeCutoff);
    }
  }

  /** The rows `remove_cells` keeps meet the cutoffs and respect the caps in
      the result. */
  lemma RemoveCellsCaps(t: CloneTable, readCutoff: Option<int>, umiCutoff: Option<int>,
                        cloneBcNumberCutoff: Option<int>, cloneSizeCutoff: Option<int>)
    ensures var res := RemoveCells(t, readCutoff, umiCutoff, cloneBcNumberCutoff, cloneSizeCutoff);
            res.Success? ==> forall r :: r in res.value ==>
              && r in t.rows
              && Meets(r, readCutoff, umiCutoff)
              && (cloneBcNumberCutoff.Some? ==> |Partners(res.value, CellOf, CloneOf, r.cell)| <= cloneBcNumberCutoff.value)
              && (cloneSizeCutoff.Some? ==> |Partners(res.value, CloneOf, CellOf, r.clone)| <= cloneSizeCutoff.value)
  {
    ReadAndUmiFacts(t, readCutoff, umiCutoff);
    var res := RemoveCells(t, readCutoff, umiCutoff, cloneBcNumberCutoff, cloneSizeCutoff);
    var stage := ReadAndUmiStage(t, readCutoff, umiCutoff);
    if stage.Success? && res.Success? {
      var rows := stage.value;
      var afterCells := if cloneBcNumberCutoff.Some? then KeepGroups(rows, CellOf, CloneOf, cloneBcNumberCutoff.value) else Success(rows);
      if cloneBcNumberCutoff.Some? {
        KeepGroupsFacts(rows, CellOf, CloneOf, cloneBcNumberCutoff.value);
      }
      if afterCells.Success? && cloneSizeCutoff.Some? {
        KeepGroupsFacts(afterCells.value, CloneOf, CellOf, cloneSizeCutoff.value);
      }
      var out := res.value;
      assert forall r :: r in afterCells.value ==> r in rows;
      assert forall r :: r in out ==> r in afterCells.value;
      forall r | r in out
        ensures cloneBcNumberCutoff.Some? ==> |Partners(out, CellOf, CloneOf, r.cell)| <= cloneBcNumberCutoff.value
        ensures cloneSizeCutoff.Some? ==> |Partners(out, CloneOf, CellOf, r.clone)| <= cloneSizeCutoff.value
      {
        if cloneBcNumberCutoff.Some? {
          PartnersSubset(out, rows, CellOf, CloneOf, r.cell);
          assert CellOf(r) == r.cell;
        }
        if cloneSizeCutoff.Some? {
          PartnersSubset(out, afterCells.value, CloneOf, CellOf, r.clone);
          assert CloneOf(r) == r.clone;
        }
      }
    }
  }
}
