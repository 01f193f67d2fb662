/** `CARLIN_preprocessing` and the tag split of `CARLIN_raw_reads`: raw
    reads become records with the cell barcode, molecule identifier and
    sequence; reads that contain the template's two primers (possibly
    trimmed) and, when a reference list is given, come from a listed cell
    barcode are kept; the clone is the text between the primers; and each
    distinct record is reported once with the number of kept reads sharing
    its cell, molecule and clone. */
module Carlin {
  import opened Wrappers
  import opened Collections
  import opened Tables
  import opened Text

  /** The three CARLIN templates. */
  datatype Template = CCarlin | Tigre | Rosa

  /** A template's 5' primer and 3' primer. */
  datatype Primers = Primers(fivePrime: string, threePrime: string)

  datatype CarlinError =
    | InvalidTemplate      // a template name other than the three supported
    | NoReads              // the pass-rate report divides by the number of input reads
    | EmptyPrimer          // `str.split` with an empty separator
    | UnsupportedProtocol  // a library protocol other than scLimeCat
    | LengthMismatch       // the sequence and tag files hold different numbers of reads

  const CcFivePrime: string := "AGCTGTACAAGTAAGCGGC"
  const CcThreePrime: string := "AGAATTCTAACTAGAGCTCGCTGATCAGCCTCGACTGTGCCTTCT"

  const TcFivePrime: string := "TCGGTACCTCGCGAATCGCCG"
  const TcThreePrime: string := "TTGTCGGTGCCTTCTAGTT"

  const RcFivePrime: string := "GTACAAGTAAAGCGGCCGCGCCG"
  const RcThreePrime: string := "TGGAGTCTGCTGTGTGCCTTCTAGTT"

  /** The template named `name`: exactly the three names "cCARLIN", "Tigre"
      and "Rosa" are accepted. */
  function ParseTemplate(name: string): (r: Option<Template>)
    ensures r.Some? <==> name in ["cCARLIN", "Tigre", "Rosa"]
    ensures r == Some(CCarlin) <==> name == "cCARLIN"
    ensures r == Some(Tigre) <==> name == "Tigre"
    ensures r == Some(Rosa) <==> name == "Rosa"
  {
    if name == "cCARLIN" then Some(CCarlin)
    else if name == "Tigre" then Some(Tigre)
    else if name == "Rosa" then Some(Rosa)
    else None
  }

  /** Each template's own primers; neither is empty. */
  function TemplatePrimers(t: Template): (p: Primers)
    ensures p.fivePrime != "" && p.threePrime != ""
  {
    match t
    case CCarlin => Primers(CcFivePrime, CcThreePrime)
    case Tigre => Primers(TcFivePrime, TcThreePrime)
    case Rosa => Primers(RcFivePrime, RcThreePrime)
  }

  /** `seq_5prime[-n:]` when a bound is given: a suffix of the primer, its
      last `n` characters for `0 < n`, the whole primer for `n == 0`, and
      empty exactly when `n` is at most minus the primer's length. */
  function TrimFivePrime(p: string, n: Option<int>): (r: string)
    ensures |r| <= |p| && r == p[|p| - |r|..]
    ensures n.None? ==> r == p
    ensures n.Some? && 0 <= n.value ==> |r| == (if n.value == 0 || n.value >= |p| then |p| else n.value)
    ensures n.Some? && n.value < 0 ==> |r| == (if -n.value >= |p| then 0 else |p| + n.value)
    ensures r == "" <==> p == "" || (n.Some? && n.value <= -|p|)
  {
    if n.Some? then Slice(p, -n.value, |p|) else p
  }

  /** `seq_3prime[:n]` when a bound is given: a prefix of the primer, its
      first `n` characters for `0 <= n`, and empty exactly when `n` is 0 or
      at most minus the primer's length. */
  function TrimThreePrime(p: string, n: Option<int>): (r: string)
    ensures r <= p
    ensures n.None? ==> r == p
    ensures n.Some? && 0 <= n.value ==> |r| == (if n.value >= |p| then |p| else n.value)
    ensures n.Some? && n.value < 0 ==> |r| == (if -n.value >= |p| then 0 else |p| + n.value)
    ensures r == "" <==> p == "" || (n.Some? && (n.value == 0 || n.value <= -|p|))
  {
    if n.Some? then Slice(p, 0, n.value) else p
  }

  /** One read as a table record: column name to text. */
  type Record = map<string, string>

  /** The columns the read processing looks up. */
  predicate IsRead(rec: Record)
  {
    "Seq" in rec && "cell_bc" in rec && "cell_id" in rec && "umi_id" in rec
  }

  /** The read's sequence. */
  function SeqOf(rec: Record): string
    requires IsRead(rec)
  {
    rec["Seq"]
  }

  /** A read passes when its sequence contains both primers and, with a
      reference list, its cell barcode is listed. */
  predicate Passes(rec: Record, p5: string, p3: string, refs: Option<seq<string>>)
  {
    && "Seq" in rec && Contains(rec["Seq"], p5) && Contains(rec["Seq"], p3)
    && (refs.Some? ==> "cell_bc" in rec && rec["cell_bc"] in refs.value)
  }

  /** The passing reads, in order. */
  function Passing(input: seq<Record>, p5: string, p3: string, refs: Option<seq<string>>): (r: seq<Record>)
    ensures forall j :: 0 <= j < |r| ==> r[j] in input && Passes(r[j], p5, p3, refs)
    ensures forall i :: 0 <= i < |input| && Passes(input[i], p5, p3, refs) ==> input[i] in r
  {
    Filter(input, (rec: Record) => Passes(rec, p5, p3, refs))
  }

  /** `x.split(p5)[1].split(p3)[0]`: after the first 5' primer, up to the
      next 5' primer, then up to the first 3' primer. */
  function CloneOf(x: string, p5: string, p3: string): (c: string)
    requires p5 != "" && p3 != "" && Contains(x, p5)
    ensures |c| + |p5| <= |x|
  {
    SplitFirst(SplitSecond(x, p5).value, p3)
  }

  /** The key the reads are counted by: cell, molecule and clone joined by "_". */
  function UniqueId(rec: Record, clone: string): string
    requires IsRead(rec)
  {
    rec["cell_id"] + "_" + rec["umi_id"] + "_" + clone
  }

  /** The output columns of a read: without the sequence and the helper
      columns, with the extracted clone. */
  function Project(rec: Record, clone: string): Record
  {
    (rec - {"Seq", "Valid", "unique_id"})["clone_id" := clone]
  }

  /** The clones of the passing reads. */
  function Clones(kept: seq<Record>, p5: string, p3: string): (r: seq<string>)
    requires forall i :: 0 <= i < |kept| ==> IsRead(kept[i]) && Contains(SeqOf(kept[i]), p5)
    requires |kept| > 0 ==> p5 != "" && p3 != ""
    ensures |r| == |kept| && forall i :: 0 <= i < |kept| ==> r[i] == CloneOf(SeqOf(kept[i]), p5, p3)
  {
    seq(|kept|, i requires 0 <= i < |kept| => CloneOf(SeqOf(kept[i]), p5, p3))
  }

  /** The counting key of every passing read. */
  function Ids(kept: seq<Record>, clones: seq<string>): (r: seq<string>)
    requires |clones| == |kept| && forall i :: 0 <= i < |kept| ==> IsRead(kept[i])
    ensures |r| == |kept| && forall i :: 0 <= i < |kept| ==> r[i] == UniqueId(kept[i], clones[i])
  {
    seq(|kept|, i requires 0 <= i < |kept| => UniqueId(kept[i], clones[i]))
  }

  /** Every passing read with its output columns and, as its read count, the
      number of passing reads with the same key. */
  function CountedRows(kept: seq<Record>, p5: string, p3: string): (r: seq<Row>)
    requires forall i :: 0 <= i < |kept| ==> IsRead(kept[i]) && Contains(SeqOf(kept[i]), p5)
    requires |kept| > 0 ==> p5 != "" && p3 != ""
    ensures |r| == |kept|
    ensures forall i :: 0 <= i < |kept| ==>
              && "clone_id" in r[i].cells && r[i].cells["clone_id"] == CloneOf(SeqOf(kept[i]), p5, p3)
              && "Seq" !in r[i].cells
  {
    var clones := Clones(kept, p5, p3);
    var ids := Ids(kept, clones);
    seq(|kept|, i requires 0 <= i < |kept| => Row(Project(kept[i], clones[i]), SumWhere(ids, Ones(|kept|), ids[i])))
  }

  /** `CARLIN_preprocessing`. */
  function Preprocess(input: seq<Record>, template: string, refs: Option<seq<string>>,
                      n5: Option<int>, n3: Option<int>): (r: Result<seq<Row>, CarlinError>)
    requires forall i :: 0 <= i < |input| ==> IsRead(input[i])
    ensures ParseTemplate(template).None? ==> r == Failure(InvalidTemplate)
    ensures |input| == 0 ==> r.Failure?
    ensures r.Success? ==> Distinct(r.value)
  {
    match ParseTemplate(template)
    case None => Failure(InvalidTemplate)
    case Some(t) =>
      var pr := TemplatePrimers(t);
      var p5 := TrimFivePrime(pr.fivePrime, n5);
      var p3 := TrimThreePrime(pr.threePrime, n3);
      if |input| == 0 then Failure(NoReads)
      else
        var kept := Passing(input, p5, p3, refs);
        if |kept| > 0 && (p5 == "" || p3 == "") then Failure(EmptyPrimer)
        else Success(Uniques(CountedRows(kept, p5, p3)))
  }

  /** The record `CARLIN_raw_reads` builds from one read: the cell barcode is
      the tag's first 8 characters, the molecule identifier the next 8. */
  function ReadRecord(tag: string, s: string, sample: string): Record
  {
    var bc := Slice(tag, 0, 8);
    var umi := Slice(tag, 8, 16);
    map["Seq" := s, "cell_bc" := bc, "library" := sample, "cell_id" := sample + "_" + bc,
        "umi" := umi, "umi_id" := bc + "_" + umi, "clone_id" := s]
  }

  /** The tag split of `CARLIN_raw_reads`, given the sequences and tags read
      from the two files. */
  function RawReads(tags: seq<string>, seqs: seq<string>, sample: string, protocol: string): (r: Result<seq<Record>, CarlinError>)
    ensures r.Success? <==> protocol == "scLimeCat" && |tags| == |seqs|
    ensures r.Success? ==> |r.value| == |tags| && forall i :: 0 <= i < |tags| ==>
              && IsRead(r.value[i]) && "library" in r.value[i] && "clone_id" in r.value[i]
              && r.value[i]["Seq"] == seqs[i] && r.value[i]["library"] == sample && r.value[i]["clone_id"] == seqs[i]
  {
    if protocol != "scLimeCat" then Failure(UnsupportedProtocol)
    else if |tags| != |seqs| then Failure(LengthMismatch)
    else Success(seq(|tags|, i requires 0 <= i < |tags| => ReadRecord(tags[i], seqs[i], sample)))
  }
}
