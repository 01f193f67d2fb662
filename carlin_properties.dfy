/** What CARLIN read processing promises: the clone is the text between the
    primers, pinned down exactly; which inputs fail and how; what each output
    row is and how its read count is made; and what the tag split produces. */
module CarlinProperties {
  import opened Wrappers
  import opened Collections
  import opened Tables
  import opened Text
  import opened Carlin

  /** Cutting a text at the first 5' primer and then at the first 3' primer
      leaves a prefix with neither primer in it, which ends where the text
      ends or where one of the primers starts. */
  lemma TwoCuts(rest: string, p5: string, p3: string)
    requires p5 != "" && p3 != ""
    ensures var c := SplitFirst(SplitFirst(rest, p5), p3);
            && c <= rest && !Contains(c, p5) && !Contains(c, p3)
            && (|c| == |rest| || OccursAt(rest, p5, |c|) || OccursAt(rest, p3, |c|))
  {
    var y := SplitFirst(rest, p5);
    var c := SplitFirst(y, p3);
    SplitFirstIff(rest, p5, y);
    SplitFirstIff(y, p3, c);
    assert y == rest[..|y|] && c == y[..|c|] && c == rest[..|c|];
    forall k | 0 <= k < |c| ensures !OccursAt(c, p5, k) && !OccursAt(c, p3, k) {
      OccursInPrefix(rest, p5, |c|, k);
      OccursInPrefix(y, p3, |c|, k);
    }
    NotContains(c, p5);
    NotContains(c, p3);
    if |c| < |y| {
      OccursInPrefix(rest, p3, |y|, |c|);
    }
  }

  /** The clone is a prefix of the text after the first 5' primer of the
      read (so it directly follows that primer), contains neither primer,
      and ends where the read ends or where a 5' or 3' primer starts. */
  lemma CloneFacts(x: string, p5: string, p3: string)
    requires p5 != "" && p3 != "" && Contains(x, p5)
    ensures var i := Find(x, p5).value;
            OccursAt(x, p5, i) && forall j :: 0 <= j < i ==> !OccursAt(x, p5, j)
    ensures Find(x, p5).value + |p5| <= |x|
    ensures var rest := x[Find(x, p5).value + |p5|..];
            var c := CloneOf(x, p5, p3);
            && c <= rest && !Contains(c, p5) && !Contains(c, p3)
            && (|c| == |rest| || OccursAt(rest, p5, |c|) || OccursAt(rest, p3, |c|))
  {
    CloneIsTwoCuts(x, p5, p3);
    TwoCuts(x[Find(x, p5).value + |p5|..], p5, p3);
  }

  /** The clone is the two cuts of the text after the first 5' primer. */
  lemma CloneIsTwoCuts(x: string, p5: string, p3: string)
    requires p5 != "" && p3 != "" && Contains(x, p5)
    ensures Find(x, p5).value + |p5| <= |x|
    ensures CloneOf(x, p5, p3) == SplitFirst(SplitFirst(x[Find(x, p5).value + |p5|..], p5), p3)
  {
  }

  /** A read laid out as anything, the 5' primer, a clone, the 3' primer and
      anything, with no earlier 5' primer and no stray primer starting before
      the clone's 3' primer ends, yields exactly that clone. */
  lemma CloneRoundTrip(u: string, c: string, w: string, p5: string, p3: string)
    requires p5 != "" && p3 != ""
    requires var x := u + p5 + c + p3 + w;
             forall k :: 0 <= k < |u| ==> !OccursAt(x, p5, k)
    requires var x := u + p5 + c + p3 + w;
             forall k :: |u| + |p5| <= k < |u| + |p5| + |c| + |p3| ==> !OccursAt(x, p5, k)
    requires var x := u + p5 + c + p3 + w;
             forall k :: |u| + |p5| <= k < |u| + |p5| + |c| ==> !OccursAt(x, p3, k)
    ensures Contains(u + p5 + c + p3 + w, p5) && CloneOf(u + p5 + c + p3 + w, p5, p3) == c
  {
    var x := u + p5 + c + p3 + w;
    var a := u + p5;
    var r := c + p3 + w;
    assert x == a + r && x[|a|..] == r;
    assert x[|u|..|a|] == p5;
    FindFirst(x, p5, |u|);
    forall k | 0 <= k < |c| + |p3| ensures !OccursAt(r, p5, k) {
      OccursInSuffix(x, p5, |a|, k);
    }
    forall k | 0 <= k < |c| ensures !OccursAt(r, p3, k) {
      OccursInSuffix(x, p3, |a|, k);
    }
    SecondAfter(a, r, p5);
    CloneInRest(c, p3, w, p5);
  }

  /** The clone part of a read: the text after the 5' primer, when no 5'
      primer starts before the 3' primer ends and no 3' primer starts inside
      the clone, cuts to the clone. */
  lemma CloneInRest(c: string, p3: string, w: string, p5: string)
    requires p5 != "" && p3 != ""
    requires forall k :: 0 <= k < |c| + |p3| ==> !OccursAt(c + p3 + w, p5, k)
    requires forall k :: 0 <= k < |c| ==> !OccursAt(c + p3 + w, p3, k)
    ensures SplitFirst(SplitFirst(c + p3 + w, p5), p3) == c
  {
    var r := c + p3 + w;
    SplitFirstKeeps(r, p5, |c| + |p3|);
    var y := SplitFirst(r, p5);
    assert y == r[..|y|];
    assert y[..|c|] == c && y[|c|..|c| + |p3|] == p3;
    forall k | 0 <= k < |c| ensures !OccursAt(y, p3, k) {
      OccursInPrefix(r, p3, |y|, k);
    }
    SplitFirstIff(y, p3, c);
  }

  /** How `CARLIN_preprocessing` fails: an unknown template first, then an
      empty input (the pass-rate report divides by its size), then an empty
      (trimmed) primer as soon as one read passes and its clone is cut out;
      otherwise it succeeds. */
  lemma PreprocessErrors(input: seq<Record>, template: string, refs: Option<seq<string>>,
                         n5: Option<int>, n3: Option<int>)
    requires forall i :: 0 <= i < |input| ==> IsRead(input[i])
    ensures var r := Preprocess(input, template, refs, n5, n3);
            && (template !in ["cCARLIN", "Tigre", "Rosa"] ==> r == Failure(InvalidTemplate))
            && (template in ["cCARLIN", "Tigre", "Rosa"] && |input| == 0 ==> r == Failure(NoReads))
            && (template in ["cCARLIN", "Tigre", "Rosa"] && |input| > 0 ==>
                  var pr := TemplatePrimers(ParseTemplate(template).value);
                  var p5 := TrimFivePrime(pr.fivePrime, n5);
                  var p3 := TrimThreePrime(pr.threePrime, n3);
                  (r.Failure? <==> (exists i :: 0 <= i < |input| && Passes(input[i], p5, p3, refs)) && (p5 == "" || p3 == "")) &&
                  (r.Failure? ==> r.error == EmptyPrimer))
  {
    if template in ["cCARLIN", "Tigre", "Rosa"] && |input| > 0 {
      var pr := TemplatePrimers(ParseTemplate(template).value);
      var p5 := TrimFivePrime(pr.fivePrime, n5);
      var p3 := TrimThreePrime(pr.threePrime, n3);
      PassingNonEmpty(input, p5, p3, refs);
    }
  }

  /** Some read passes exactly when one of the input reads passes. */
  lemma PassingNonEmpty(input: seq<Record>, p5: string, p3: string, refs: Option<seq<string>>)
    ensures |Passing(input, p5, p3, refs)| > 0 <==> exists i :: 0 <= i < |input| && Passes(input[i], p5, p3, refs)
  {
    var kept := Passing(input, p5, p3, refs);
    if |kept| > 0 {
      assert kept[0] in input;
      var j :| 0 <= j < |input| && input[j] == kept[0];
      assert Passes(input[j], p5, p3, refs);
    }
    if i :| 0 <= i < |input| && Passes(input[i], p5, p3, refs) {
      assert input[i] in kept;
    }
  }

  /** With the primers untrimmed, or trimmed by positive bounds, no read
      makes `CARLIN_preprocessing` fail on an empty primer. */
  lemma PositiveTrimNeverEmpty(input: seq<Record>, template: string, refs: Option<seq<string>>,
                               n5: Option<int>, n3: Option<int>)
    requires forall i :: 0 <= i < |input| ==> IsRead(input[i])
    requires n5.None? || n5.value >= 0
    requires n3.None? || n3.value > 0
    ensures Preprocess(input, template, refs, n5, n3) != Failure(EmptyPrimer)
  {
  }

  /** One output row per distinct (columns, count) pair of the passing reads:
      every output row is the row of a passing read, with the sequence and
      helper columns dropped, the clone cut out of the sequence and every
      other column kept; every passing read's row is output; no row is output
      twice; and the read count is the number of passing reads with the same
      cell, molecule and clone key, so at least 1, and these counts over the
      distinct keys add up to the number of passing reads. */
  lemma PreprocessFacts(input: seq<Record>, template: string, refs: Option<seq<string>>,
                        n5: Option<int>, n3: Option<int>)
    requires forall i :: 0 <= i < |input| ==> IsRead(input[i])
    requires Preprocess(input, template, refs, n5, n3).Success?
    ensures var out := Preprocess(input, template, refs, n5, n3).value;
            var pr := TemplatePrimers(ParseTemplate(template).value);
            var p5 := TrimFivePrime(pr.fivePrime, n5);
            var p3 := TrimThreePrime(pr.threePrime, n3);
            var kept := Passing(input, p5, p3, refs);
            var rows := CountedRows(kept, p5, p3);
            && Distinct(out)
            && (forall k :: 0 <= k < |out| ==> out[k] in rows)
            && (forall i :: 0 <= i < |kept| ==> rows[i] in out)
            && (forall i :: 0 <= i < |kept| ==> KeptRow(kept, p5, p3, i, rows[i]))
            && (|kept| > 0 ==> Sum(GroupSums(Uniques(Ids(kept, Clones(kept, p5, p3))), Ids(kept, Clones(kept, p5, p3)), Ones(|kept|))) == |kept|)
  {
    var pr := TemplatePrimers(ParseTemplate(template).value);
    var p5 := TrimFivePrime(pr.fivePrime, n5);
    var p3 := TrimThreePrime(pr.threePrime, n3);
    var kept := Passing(input, p5, p3, refs);
    var rows := CountedRows(kept, p5, p3);
    forall i | 0 <= i < |kept| ensures KeptRow(kept, p5, p3, i, rows[i]) {
      CountedRowFacts(kept, p5, p3, i);
    }
    if |kept| > 0 {
      var ids := Ids(kept, Clones(kept, p5, p3));
      GroupSumsTotal(Uniques(ids), ids, Ones(|kept|));
      GroupSumConserves(ids, Ones(|kept|));
      OnesSum(|kept|);
    }
  }

  /** Row `d` is what passing read `i` becomes: its columns without the
      sequence and the helper columns, its clone in `clone_id`, and as read
      count the number of passing reads with its cell, molecule and clone
      key, which is at least 1. */
  ghost predicate KeptRow(kept: seq<Record>, p5: string, p3: string, i: nat, d: Row)
    requires forall i :: 0 <= i < |kept| ==> IsRead(kept[i]) && Contains(SeqOf(kept[i]), p5)
    requires |kept| > 0 ==> p5 != "" && p3 != ""
    requires i < |kept|
  {
    var ids := Ids(kept, Clones(kept, p5, p3));
    && d.cells.Keys == (kept[i].Keys - {"Seq", "Valid", "unique_id"}) + {"clone_id"}
    && d.cells["clone_id"] == CloneOf(SeqOf(kept[i]), p5, p3)
    && (forall col :: col in kept[i] && col !in {"Seq", "Valid", "unique_id", "clone_id"} ==> d.cells[col] == kept[i][col])
    && d.read == |set j | 0 <= j < |kept| && ids[j] == ids[i]|
    && d.read >= 1
  }

  /** The count as a sum of ones over the matching keys is the number of
      matching positions. */
  lemma {:induction false} CountMatching(ids: seq<string>, key: string)
    ensures SumWhere(ids, Ones(|ids|), key) == |set j | 0 <= j < |ids| && ids[j] == key|
  {
    if |ids| > 0 {
      var n := |ids| - 1;
      var init := ids[..n];
      CountMatching(init, key);
      assert Ones(|ids|)[..n] == Ones(n);
      SumWhereAppend(init, Ones(n), ids[n], 1, key);
      assert init + [ids[n]] == ids;
      assert Ones(n) + [1] == Ones(|ids|);
      var before := set j | 0 <= j < n && init[j] == key;
      var all := set j | 0 <= j < |ids| && ids[j] == key;
      if ids[n] == key {
        assert all == before + {n};
      } else {
        assert all == before;
      }
    }
  }

  /** The output columns of a read: its own without the sequence and the
      helper columns, with the clone in `clone_id`. */
  lemma ProjectFacts(rec: Record, clone: string)
    ensures var m := Project(rec, clone);
            && m.Keys == (rec.Keys - {"Seq", "Valid", "unique_id"}) + {"clone_id"}
            && m["clone_id"] == clone
            && forall col :: col in rec && col !in {"Seq", "Valid", "unique_id", "clone_id"} ==> m[col] == rec[col]
  {
  }

  /** Passing read `i`'s counted row is what `KeptRow` describes. */
  lemma CountedRowFacts(kept: seq<Record>, p5: string, p3: string, i: nat)
    requires forall i :: 0 <= i < |kept| ==> IsRead(kept[i]) && Contains(SeqOf(kept[i]), p5)
    requires |kept| > 0 ==> p5 != "" && p3 != ""
    requires i < |kept|
    ensures KeptRow(kept, p5, p3, i, CountedRows(kept, p5, p3)[i])
  {
    var clones := Clones(kept, p5, p3);
    var ids := Ids(kept, clones);
    var d := CountedRows(kept, p5, p3)[i];
    assert d == Row(Project(kept[i], clones[i]), SumWhere(ids, Ones(|kept|), ids[i]));
    ProjectFacts(kept[i], clones[i]);
    MatchingCount(ids, i);
  }

  /** Each key is counted once per position that carries it, its own
      position included. */
  lemma MatchingCount(ids: seq<string>, i: nat)
    requires i < |ids|
    ensures SumWhere(ids, Ones(|ids|), ids[i]) == |set j | 0 <= j < |ids| && ids[j] == ids[i]| >= 1
  {
    CountMatching(ids, ids[i]);
    var matching := set j | 0 <= j < |ids| && ids[j] == ids[i];
    assert i in matching;
  }

  /** The tag split: one record per read with exactly the seven columns, in
      particular those the preprocessing looks up; the cell barcode followed
      by the molecule identifier is the tag's first 16 characters (all of a
      shorter tag), the barcode being 8 of them when the tag has 8; the cell
      and molecule identifiers are prefixed by the library and the barcode;
      the clone starts out as the whole sequence. An unsupported protocol or
      files of different lengths fail. */
  lemma RawReadsFacts(tags: seq<string>, seqs: seq<string>, sample: string, protocol: string)
    ensures var r := RawReads(tags, seqs, sample, protocol);
            && (protocol != "scLimeCat" ==> r == Failure(UnsupportedProtocol))
            && (protocol == "scLimeCat" && |tags| != |seqs| ==> r == Failure(LengthMismatch))
            && (protocol == "scLimeCat" && |tags| == |seqs| ==> r.Success? && |r.value| == |tags|)
    ensures var r := RawReads(tags, seqs, sample, protocol);
            r.Success? ==>
              forall i :: 0 <= i < |r.value| ==>
                var rec := r.value[i];
                var tag := tags[i];
                && IsRead(rec)
                && rec.Keys == {"Seq", "cell_bc", "library", "cell_id", "umi", "umi_id", "clone_id"}
                && rec["cell_bc"] + rec["umi"] == tag[..if |tag| < 16 then |tag| else 16]
                && (|tag| >= 8 ==> |rec["cell_bc"]| == 8)
                && rec["cell_id"] == sample + "_" + rec["cell_bc"]
                && rec["umi_id"] == rec["cell_bc"] + "_" + rec["umi"]
                && rec["Seq"] == seqs[i] && rec["clone_id"] == seqs[i] && rec["library"] == sample
  {
    var r := RawReads(tags, seqs, sample, protocol);
    if r.Success? {
      forall i | 0 <= i < |r.value|
        ensures var tag := tags[i];
                r.value[i]["cell_bc"] + r.value[i]["umi"] == tag[..if |tag| < 16 then |tag| else 16]
      {
        var tag := tags[i];
        var m := if |tag| < 16 then |tag| else 16;
        var b := if |tag| < 8 then |tag| else 8;
        assert r.value[i]["cell_bc"] == tag[..b];
        assert r.value[i]["umi"] == tag[b..m];
        assert tag[..b] + tag[b..m] == tag[..m];
      }
    }
  }
}
