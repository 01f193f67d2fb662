/** The read-count-seeded sequence denoiser (`denoise_sequence`). Reads are
    summed per distinct sequence, the distinct sequences are ranked by
    descending read count, and one of three strategies maps each of them
    to a corrected sequence:
      - Hamming: greedy seed-and-absorb within a Hamming threshold, or, with
        a whitelist, the whitelist entries as seeds;
      - alignment: greedy seed-and-absorb where a member needs an alignment
        distance within the threshold and at most a tenth of the seed's reads;
      - UMI_tools: an external directional clusterer, here a parameter.
    The corrected list has one entry per input. Without a whitelist it holds
    each input's mapped sequence. In whitelist mode it is written into the
    fixed-width byte array of the inputs: a mapped entry is cut to that width,
    and an input that is not a key gets the string "nan" cut to that width. */
module Denoise {
  import opened Wrappers
  import opened Collections
  import opened Distance
  import opened Ranking
  import opened Greedy
  import opened Whitelist

  datatype Strategy = HammingStrategy | UmiToolsStrategy | AlignmentStrategy

  datatype DenoiseError =
    | InvalidMethod          // method not among the three names
    | ReadCountMismatch      // read counts and sequences differ in length
    | IncompatibleWhitelist  // a whitelist given with UMI_tools
    | UnequalLengths         // a character matrix of the Hamming strategy is ragged, or the pool's rows do not broadcast against the whitelist's
    | Unmapped               // an input is not a key of the mapping (no whitelist)

  datatype Denoised = Denoised(mapping: map<string, string>, corrected: seq<string>)

  /** The strategy a method name selects. */
  function ParseMethod(name: string): (r: Option<Strategy>)
    ensures r == Some(HammingStrategy) <==> name == "Hamming"
    ensures r == Some(UmiToolsStrategy) <==> name == "UMI_tools"
    ensures r == Some(AlignmentStrategy) <==> name == "alignment"
    ensures r.None? <==> name != "Hamming" && name != "UMI_tools" && name != "alignment"
  {
    if name == "Hamming" then Some(HammingStrategy)
    else if name == "UMI_tools" then Some(UmiToolsStrategy)
    else if name == "alignment" then Some(AlignmentStrategy)
    else None
  }

  /** The read counts: one read per sequence when none are given. */
  function ReadCounts(input: seq<string>, readCount: Option<seq<nat>>): (r: seq<nat>)
    ensures readCount.None? ==> |r| == |input| && forall i :: 0 <= i < |r| ==> r[i] == 1
    ensures readCount.Some? ==> r == readCount.value
  {
    if readCount.None? then Ones(|input|) else readCount.value
  }

  /** The distinct sequences with their summed reads, best first. */
  function Ranked(input: seq<string>, readList: seq<nat>): seq<(string, nat)>
    requires |input| == |readList|
  {
    SortDesc(GroupSum(input, readList), (p: (string, nat)) => p.1 as int)
  }

  /** The ranking holds every distinct input sequence once, each with its
      summed reads, in descending read order. */
  lemma RankedFacts(input: seq<string>, readList: seq<nat>)
    requires |input| == |readList|
    ensures Distinct(Firsts(Ranked(input, readList)))
    ensures forall i :: 0 <= i < |Ranked(input, readList)| ==>
              Ranked(input, readList)[i].1 == SumWhere(input, readList, Ranked(input, readList)[i].0)
    ensures forall i :: 0 <= i < |Ranked(input, readList)| ==> Ranked(input, readList)[i].0 in input
    ensures forall s :: s in input ==> s in Firsts(Ranked(input, readList))
    ensures forall i, j :: 0 <= i < j < |Ranked(input, readList)| ==> Ranked(input, readList)[i].1 >= Ranked(input, readList)[j].1
  {
    var g := GroupSum(input, readList);
    var r := Ranked(input, readList);
    assert multiset(r) == multiset(g);
    PermutedSums(input, readList, r);
    PermutedDistinct(input, readList, r);
    PermutedCovers(input, readList, r);
    forall i, j | 0 <= i < j < |r| ensures r[i].1 >= r[j].1 {
      var key := (p: (string, nat)) => p.1 as int;
      assert key(r[i]) >= key(r[j]);
    }
  }

  /** Every entry of a reordering of the group sums is an input with its
      summed reads. */
  lemma PermutedSums(input: seq<string>, readList: seq<nat>, r: seq<(string, nat)>)
    requires |input| == |readList| && multiset(r) == multiset(GroupSum(input, readList))
    ensures forall i :: 0 <= i < |r| ==> r[i].1 == SumWhere(input, readList, r[i].0) && r[i].0 in input
  {
    var g := GroupSum(input, readList);
    forall i | 0 <= i < |r|
      ensures r[i].1 == SumWhere(input, readList, r[i].0) && r[i].0 in input
    {
      assert r[i] in multiset(g);
      var k :| 0 <= k < |g| && g[k] == r[i];
    }
  }

  /** A reordering of the group sums names each sequence once: entries with
      the same sequence carry the same sum, so they would be equal. */
  lemma PermutedDistinct(input: seq<string>, readList: seq<nat>, r: seq<(string, nat)>)
    requires |input| == |readList| && multiset(r) == multiset(GroupSum(input, readList))
    ensures Distinct(Firsts(r))
  {
    var g := GroupSum(input, readList);
    var u := Uniques(input);
    assert Distinct(g) by {
      forall a, b | 0 <= a < b < |g| ensures g[a] != g[b] {
        assert u[a] != u[b];
      }
    }
    DistinctPermutation(g, r);
    PermutedSums(input, readList, r);
    forall a, b | 0 <= a < b < |r| ensures Firsts(r)[a] != Firsts(r)[b] {
      assert r[a] != r[b];
    }
  }

  /** A reordering of the group sums names every input. */
  lemma PermutedCovers(input: seq<string>, readList: seq<nat>, r: seq<(string, nat)>)
    requires |input| == |readList| && multiset(r) == multiset(GroupSum(input, readList))
    ensures forall s :: s in input ==> s in Firsts(r)
  {
    var g := GroupSum(input, readList);
    var u := Uniques(input);
    forall s | s in input ensures s in Firsts(r) {
      var k := IndexOf(u, s);
      assert g[k] in multiset(r);
      var i :| 0 <= i < |r| && r[i] == g[k];
      assert Firsts(r)[i] == s;
    }
  }

  /** The common length of a list of barcodes, zero when there are none. */
  function CommonLength(xs: seq<string>): nat
  {
    if |xs| == 0 then 0 else |xs[0]|
  }

  /** All barcodes of `xs` have the same length, so that they form a
      character matrix. */
  predicate Rectangular(xs: seq<string>)
  {
    AllOfLength(xs, CommonLength(xs))
  }

  /** The Hamming rule: the seed at rank `j` absorbs the barcode at rank `i`
      when they differ in at most `t` positions. */
  function HammingRule(pool: seq<string>, t: int): (nat, nat) -> bool
  {
    (j: nat, i: nat) => j < |pool| && i < |pool| && |pool[j]| == |pool[i]| && Hamming(pool[j], pool[i]) <= t
  }

  /** With a threshold of zero or more every barcode absorbs itself. */
  lemma HammingRuleReflexive(pool: seq<string>, t: int)
    requires t >= 0
    ensures Reflexive(HammingRule(pool, t), |pool|)
  {
    forall i: nat | i < |pool| ensures HammingRule(pool, t)(i, i) {
      MismatchesSelf(pool[i]);
    }
  }

  /** With a negative threshold nothing is absorbed, not even the seed. */
  lemma HammingRuleNever(pool: seq<string>, t: int)
    requires t < 0
    ensures Never(HammingRule(pool, t), |pool|)
  {
  }

  /** The distance the alignment strategy uses: the length difference when it
      alone exceeds the threshold, otherwise the alignment distance `align`,
      which stands for the global alignment the source computes. */
  function AlignDistance(x: string, y: string, t: int, align: (string, string) -> int): int
  {
    if LengthGap(x, y) > t then LengthGap(x, y) else align(x, y)
  }

  /** The difference of the lengths of two sequences. */
  function LengthGap(x: string, y: string): nat
  {
    if |x| >= |y| then |x| - |y| else |y| - |x|
  }

  /** The alignment rule: the seed absorbs itself, and another barcode when
      it has at most a tenth of the seed's reads and is within `t`. */
  function AlignRule(pool: seq<string>, counts: seq<nat>, t: int, align: (string, string) -> int): (nat, nat) -> bool
  {
    (j: nat, i: nat) =>
      j < |pool| && i < |pool| && |counts| == |pool| &&
      (i == j || (10 * counts[i] <= counts[j] && AlignDistance(pool[j], pool[i], t, align) <= t))
  }

  lemma AlignRuleReflexive(pool: seq<string>, counts: seq<nat>, t: int, align: (string, string) -> int)
    requires |counts| == |pool|
    ensures Reflexive(AlignRule(pool, counts, t, align), |pool|)
  {
  }

  /** The mapping built from clusters: each member of a cluster goes to the
      cluster's first member, and a later cluster overrides an earlier one. */
  function ClusterMap(cs: seq<seq<string>>): map<string, string>
  {
    if |cs| == 0 then map[] else ClusterMap(cs[..|cs| - 1]) + ClusterEntries(cs[|cs| - 1])
  }

  /** Every member of one cluster goes to its first member. */
  function ClusterEntries(c: seq<string>): (m: map<string, string>)
    ensures forall s :: s in m <==> s in c
    ensures forall s :: s in m ==> m[s] == c[0]
  {
    map s | s in c :: c[0]
  }

  /** `s` is a member of one of the clusters. */
  ghost predicate InCluster(cs: seq<seq<string>>, s: string)
  {
    exists k :: 0 <= k < |cs| && s in cs[k]
  }

  /** The keys of the cluster mapping are the members of the clusters, and
      each goes to the first member of the last cluster that holds it. */
  lemma ClusterMapProperties(cs: seq<seq<string>>, s: string)
    ensures s in ClusterMap(cs) <==> InCluster(cs, s)
    ensures s in ClusterMap(cs) ==>
              exists k :: 0 <= k < |cs| && s in cs[k] && ClusterMap(cs)[s] == cs[k][0] &&
                forall k' :: k < k' < |cs| ==> s !in cs[k']
  {
    ClusterMapKeys(cs, s);
    if s in ClusterMap(cs) {
      var k := LastCluster(cs, s);
    }
  }

  lemma {:induction false} ClusterMapKeys(cs: seq<seq<string>>, s: string)
    ensures s in ClusterMap(cs) <==> InCluster(cs, s)
  {
    if |cs| > 0 {
      var init := cs[..|cs| - 1];
      var last := cs[|cs| - 1];
      ClusterMapKeys(init, s);
      assert ClusterMap(cs) == ClusterMap(init) + ClusterEntries(last);
      assert forall k :: 0 <= k < |init| ==> init[k] == cs[k];
    }
  }

  /** The last cluster that holds a key, whose first member it maps to. */
  lemma {:induction false} LastCluster(cs: seq<seq<string>>, s: string) returns (k: nat)
    requires s in ClusterMap(cs)
    ensures k < |cs| && s in cs[k] && ClusterMap(cs)[s] == cs[k][0]
    ensures forall k' :: k < k' < |cs| ==> s !in cs[k']
  {
    var init := cs[..|cs| - 1];
    var last := cs[|cs| - 1];
    assert ClusterMap(cs) == ClusterMap(init) + ClusterEntries(last);
    if s in last {
      k := |cs| - 1;
    } else {
      k := LastCluster(init, s);
      assert init[k] == cs[k];
    }
  }

  /** The loop over the clusters and their members. */
  method ClusterMapping(cs: seq<seq<string>>) returns (mapping: map<string, string>)
    ensures mapping == ClusterMap(cs)
  {
    mapping := map[];
    for k := 0 to |cs|
      invariant mapping == ClusterMap(cs[..k])
    {
      var c := cs[k];
      ghost var before := mapping;
      for m := 0 to |c|
        invariant mapping == before + ClusterEntries(c[..m])
      {
        assert c[..m + 1] == c[..m] + [c[m]];
        mapping := mapping[c[m] := c[0]];
      }
      assert c[..|c|] == c;
      assert cs[..k + 1][..k] == cs[..k] && cs[..k + 1][k] == c;
      assert ClusterMap(cs[..k + 1]) == ClusterMap(cs[..k]) + ClusterEntries(c);
    }
    assert cs[..|cs|] == cs;
  }

  /** Two character matrices whose first rows broadcast can be compared row
      by row. */
  lemma RectangularComparable(pool: seq<string>, wl: seq<string>)
    requires Rectangular(pool) && Rectangular(wl)
    requires |wl| > 0 ==> |pool| > 0 && Broadcastable(|pool[0]|, |wl[0]|)
    ensures Comparable(pool, wl)
  {
  }

  /** The mapping of the Hamming strategy, or the error the character
      matrices raise. */
  ghost function HammingMapping(pool: seq<string>, t: int, whitelist: Option<seq<string>>): (r: Result<map<string, string>, DenoiseError>)
    requires Distinct(pool)
    ensures r.Failure? ==> r.error == UnequalLengths
    ensures r.Failure? <==>
              || !Rectangular(pool)
              || (whitelist.Some? && !Rectangular(whitelist.value))
              || (whitelist.Some? && t > 0 && |whitelist.value| > 0 &&
                  (|pool| == 0 || !Broadcastable(|pool[0]|, |whitelist.value[0]|)))
    ensures r.Success? && whitelist.None? && t >= 0 ==> forall s :: s in r.value <==> s in pool
    ensures r.Success? && whitelist.None? && t < 0 ==> r.value == map[]
    ensures r.Success? && whitelist.Some? && t > 0 ==> forall s :: s in r.value ==> s in pool && r.value[s] in whitelist.value
    ensures r.Success? && whitelist.Some? && t <= 0 ==> r.value == IdentityMap(whitelist.value)
  {
    if !Rectangular(pool) then Failure(UnequalLengths)
    else match whitelist
      case None => Success(if t >= 0 then CanonMap(pool, HammingRule(pool, t)) else map[])
      case Some(wl) =>
        if !Rectangular(wl) then Failure(UnequalLengths)
        else if t <= 0 then Success(IdentityMap(wl))
        else if |wl| > 0 && (|pool| == 0 || !Broadcastable(|pool[0]|, |wl[0]|)) then Failure(UnequalLengths)
        else
          RectangularComparable(pool, wl);
          Success(WhitelistMap(pool, wl, t))
  }

  /** The Hamming strategy: the character-matrix checks, then the greedy loop
      or the whitelist loop. */
  method HammingStrategyMapping(pool: seq<string>, t: int, whitelist: Option<seq<string>>)
    returns (r: Result<map<string, string>, DenoiseError>)
    requires Distinct(pool)
    ensures r == HammingMapping(pool, t, whitelist)
  {
    if !Rectangular(pool) {
      return Failure(UnequalLengths);
    }
    if whitelist.None? {
      if t >= 0 {
        HammingRuleReflexive(pool, t);
      } else {
        HammingRuleNever(pool, t);
      }
      var mapping := SeedAndAbsorb(pool, HammingRule(pool, t));
      return Success(mapping);
    }
    var wl := whitelist.value;
    if !Rectangular(wl) {
      return Failure(UnequalLengths);
    }
    if t > 0 && |wl| > 0 && (|pool| == 0 || !Broadcastable(|pool[0]|, |wl[0]|)) {
      return Failure(UnequalLengths);
    }
    if t > 0 {
      RectangularComparable(pool, wl);
    }
    var mapping := WhitelistAssign(pool, wl, t);
    return Success(mapping);
  }

  /** The mapping the chosen strategy computes from the ranking. */
  ghost function StrategyMapping(ranked: seq<(string, nat)>, t: int, strategy: Strategy,
                                 whitelist: Option<seq<string>>, align: (string, string) -> int,
                                 cluster: (seq<(string, nat)>, int) -> seq<seq<string>>): (r: Result<map<string, string>, DenoiseError>)
    requires Distinct(Firsts(ranked))
    ensures r == Failure(IncompatibleWhitelist) <==> strategy == UmiToolsStrategy && whitelist.Some?
    ensures r.Failure? ==> r.error == IncompatibleWhitelist || r.error == UnequalLengths
    ensures strategy == AlignmentStrategy ==> r.Success? && forall s :: s in r.value <==> s in Firsts(ranked)
    ensures strategy == UmiToolsStrategy && whitelist.None? && |ranked| == 0 ==> r == Success(map[])
  {
    var pool := Firsts(ranked);
    match strategy
    case UmiToolsStrategy =>
      if whitelist.Some? then Failure(IncompatibleWhitelist)
      else if |ranked| == 0 then Success(map[])
      else Success(ClusterMap(cluster(ranked, t)))
    case HammingStrategy => HammingMapping(pool, t, whitelist)
    case AlignmentStrategy => Success(CanonMap(pool, AlignRule(pool, Seconds(ranked), t, align)))
  }

  method ComputeMapping(ranked: seq<(string, nat)>, t: int, strategy: Strategy,
                        whitelist: Option<seq<string>>, align: (string, string) -> int,
                        cluster: (seq<(string, nat)>, int) -> seq<seq<string>>)
    returns (r: Result<map<string, string>, DenoiseError>)
    requires Distinct(Firsts(ranked))
    ensures r == StrategyMapping(ranked, t, strategy, whitelist, align, cluster)
  {
    var pool := Firsts(ranked);
    match strategy {
      case UmiToolsStrategy =>
        if whitelist.Some? {
          return Failure(IncompatibleWhitelist);
        }
        if |ranked| == 0 {
          return Success(map[]);
        }
        var mapping := ClusterMapping(cluster(ranked, t));
        return Success(mapping);
      case HammingStrategy =>
        r := HammingStrategyMapping(pool, t, whitelist);
      case AlignmentStrategy =>
        AlignRuleReflexive(pool, Seconds(ranked), t, align);
        var mapping := SeedAndAbsorb(pool, AlignRule(pool, Seconds(ranked), t, align));
        return Success(mapping);
    }
  }

  /** The corrected list without a whitelist: each input replaced by its
      mapped sequence (a missing key raises, see `Unmapped`). */
  function Corrected(input: seq<string>, mapping: map<string, string>): (r: seq<string>)
    requires AllMapped(input, mapping)
    ensures |r| == |input|
    ensures forall i :: 0 <= i < |input| ==> r[i] in mapping.Values && r[i] == mapping[input[i]]
  {
    seq(|input|, i requires 0 <= i < |input| => mapping[input[i]])
  }

  /** Every input is a key of the mapping. */
  predicate AllMapped(input: seq<string>, mapping: map<string, string>)
  {
    forall i :: 0 <= i < |input| ==> input[i] in mapping
  }

  /** The width of the byte array the inputs are stored in: the longest
      input, and at least 1, as numpy never makes a string array of width 0. */
  function Width(input: seq<string>): (w: nat)
    ensures w >= 1
    ensures forall i :: 0 <= i < |input| ==> |input[i]| <= w
    ensures w > 1 ==> exists i :: 0 <= i < |input| && |input[i]| == w
  {
    if |input| == 0 then 1
    else
      var n := |input| - 1;
      var w0 := Width(input[..n]);
      assert forall i :: 0 <= i < n ==> input[..n][i] == input[i];
      if |input[n]| > w0 then |input[n]| else w0
  }

  /** A string stored into a byte array of width `w`: its first `w`
      characters. */
  function Fit(s: string, w: nat): (r: string)
    ensures r <= s
    ensures |r| == if |s| <= w then |s| else w
    ensures |s| <= w ==> r == s
  {
    if |s| <= w then s else s[..w]
  }

  /** What `np.nan` becomes in a string array of width `w`: "nan" cut to the
      width, which is the string "nan" itself only from width 3 on. */
  function NanMarker(w: nat): (r: string)
    ensures r <= "nan" && |r| == if w < 3 then w else 3
    ensures r == "nan" <==> w >= 3
  {
    Fit("nan", w)
  }

  /** The entry whitelist mode writes for an input `x` in an array of width
      `w`: its whitelist entry cut to the width when it is a key, the marker
      otherwise. It is never "nan" below width 3. */
  function WhitelistEntry(x: string, m: map<string, string>, w: nat): (r: string)
    ensures |r| <= w
    ensures x in m ==> r <= m[x] && (|m[x]| <= w ==> r == m[x])
    ensures x !in m ==> r == NanMarker(w)
    ensures w < 3 ==> r != "nan"
    ensures w >= 3 && x !in m ==> r == "nan"
  {
    if x in m then Fit(m[x], w) else NanMarker(w)
  }

  /** The corrected list in whitelist mode: each input's entry in the array
      of the inputs' width. */
  function WhitelistCorrected(input: seq<string>, m: map<string, string>): (r: seq<string>)
    ensures |r| == |input|
    ensures forall i :: 0 <= i < |input| ==> |r[i]| <= Width(input)
    ensures forall i :: 0 <= i < |input| && input[i] in m ==>
              r[i] <= m[input[i]] && (|m[input[i]]| <= Width(input) ==> r[i] == m[input[i]])
    ensures forall i :: 0 <= i < |input| && input[i] !in m ==> r[i] == NanMarker(Width(input))
  {
    seq(|input|, i requires 0 <= i < |input| => WhitelistEntry(input[i], m, Width(input)))
  }

  /** What `denoise_sequence` returns or raises, stated declaratively: the
      greedy clustering by its canonical-seed characterisation, the whitelist
      mode by first matches. */
  ghost function DenoiseSpec(input: seq<string>, readCount: Option<seq<nat>>, t: int, name: string,
                             whitelist: Option<seq<string>>, align: (string, string) -> int,
                             cluster: (seq<(string, nat)>, int) -> seq<seq<string>>): (r: Result<Denoised, DenoiseError>)
    ensures r == Failure(InvalidMethod) <==> ParseMethod(name).None?
    ensures ParseMethod(name).Some? && readCount.Some? && |readCount.value| != |input| ==> r == Failure(ReadCountMismatch)
    ensures r == Failure(Unmapped) ==> whitelist.None?
    ensures r.Success? ==> |r.value.corrected| == |input|
    ensures r.Success? && whitelist.None? ==>
              AllMapped(input, r.value.mapping) && r.value.corrected == Corrected(input, r.value.mapping)
    ensures r.Success? && whitelist.Some? ==> r.value.corrected == WhitelistCorrected(input, r.value.mapping)
  {
    var strategy := ParseMethod(name);
    var readList := ReadCounts(input, readCount);
    if strategy.None? then Failure(InvalidMethod)
    else if |readList| != |input| then Failure(ReadCountMismatch)
    else
      var ranked := Ranked(input, readList);
      RankedFacts(input, readList);
      var mapping := StrategyMapping(ranked, t, strategy.value, whitelist, align, cluster);
      if mapping.Failure? then Failure(mapping.error)
      else if whitelist.Some? then Success(Denoised(mapping.value, WhitelistCorrected(input, mapping.value)))
      else if !AllMapped(input, mapping.value) then Failure(Unmapped)
      else Success(Denoised(mapping.value, Corrected(input, mapping.value)))
  }

  /** `denoise_sequence`: the checks, the aggregation and ranking, the chosen
      strategy's loop, and the corrected list. */
  method DenoiseSequence(input: seq<string>, readCount: Option<seq<nat>>, t: int, name: string,
                         whitelist: Option<seq<string>>, align: (string, string) -> int,
                         cluster: (seq<(string, nat)>, int) -> seq<seq<string>>)
    returns (r: Result<Denoised, DenoiseError>)
    ensures r == DenoiseSpec(input, readCount, t, name, whitelist, align, cluster)
  {
    var strategy := ParseMethod(name);
    if strategy.None? {
      return Failure(InvalidMethod);
    }
    var readList := ReadCounts(input, readCount);
    if |readList| != |input| {
      return Failure(ReadCountMismatch);
    }
    var ranked := Ranked(input, readList);
    RankedFacts(input, readList);
    var mapping := ComputeMapping(ranked, t, strategy.value, whitelist, align, cluster);
    if mapping.Failure? {
      return Failure(mapping.error);
    }
    if whitelist.Some? {
      return Success(Denoised(mapping.value, WhitelistCorrected(input, mapping.value)));
    }
    if !AllMapped(input, mapping.value) {
      return Failure(Unmapped);
    }
    return Success(Denoised(mapping.value, Corrected(input, mapping.value)));
  }
}
