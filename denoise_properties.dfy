/** What `denoise_sequence` promises, proved about its declarative
    specification `DenoiseSpec` (which `DenoiseSequence` computes). */
module DenoiseProperties {
  import opened Wrappers
  import opened Collections
  import opened Distance
  import opened Greedy
  import opened Whitelist
  import opened Denoise

  /** The read counts, when given, have one entry per input. */
  predicate ReadCountsFit(input: seq<string>, readCount: Option<seq<nat>>)
  {
    readCount.None? || |readCount.value| == |input|
  }

  /** The method name is checked first and the read-count length second,
      before any clustering. */
  lemma ChecksComeFirst(input: seq<string>, readCount: Option<seq<nat>>, t: int, name: string,
                        whitelist: Option<seq<string>>, align: (string, string) -> int,
                        cluster: (seq<(string, nat)>, int) -> seq<seq<string>>)
    ensures ParseMethod(name).None? ==>
              DenoiseSpec(input, readCount, t, name, whitelist, align, cluster) == Failure(InvalidMethod)
    ensures ParseMethod(name).Some? && !ReadCountsFit(input, readCount) ==>
              DenoiseSpec(input, readCount, t, name, whitelist, align, cluster) == Failure(ReadCountMismatch)
    ensures ReadCountsFit(input, readCount) ==> |ReadCounts(input, readCount)| == |input|
  {
  }

  /** Inputs of a common length give a pool of that length. */
  lemma PoolOfLength(input: seq<string>, readList: seq<nat>, len: nat)
    requires |input| == |readList| && AllOfLength(input, len)
    ensures AllOfLength(Firsts(Ranked(input, readList)), len)
    ensures Rectangular(Firsts(Ranked(input, readList)))
    ensures |input| > 0 ==> |Ranked(input, readList)| > 0
  {
    RankedFacts(input, readList);
    var pool := Firsts(Ranked(input, readList));
    forall i | 0 <= i < |pool| ensures |pool[i]| == len {
      assert pool[i] in input;
    }
    if |input| > 0 {
      assert input[0] in pool;
    }
  }

  /** `pool` and `counts` are a ranking of the inputs: each distinct input
      once, with its summed reads, in descending read order. */
  ghost predicate IsRanking(input: seq<string>, rc: seq<nat>, pool: seq<string>, counts: seq<nat>)
    requires |input| == |rc|
  {
    && Distinct(pool) && |counts| == |pool|
    && (forall i :: 0 <= i < |pool| ==> pool[i] in input && counts[i] == SumWhere(input, rc, pool[i]))
    && (forall s :: s in input ==> s in pool)
    && (forall i, j :: 0 <= i < j < |pool| ==> counts[i] >= counts[j])
  }

  lemma RankingOfRanked(input: seq<string>, rc: seq<nat>)
    requires |input| == |rc|
    ensures IsRanking(input, rc, Firsts(Ranked(input, rc)), Seconds(Ranked(input, rc)))
  {
    RankedFacts(input, rc);
  }

  /** The greedy Hamming mapping of a ranked pool: its keys are the inputs,
      it is idempotent, and each input goes to a sequence within the
      threshold with at least as many summed reads. */
  lemma HammingCanonFacts(input: seq<string>, rc: seq<nat>, pool: seq<string>, counts: seq<nat>, t: int, len: nat)
    requires |input| == |rc| && IsRanking(input, rc, pool, counts)
    requires AllOfLength(pool, len) && t >= 0
    ensures var m := CanonMap(pool, HammingRule(pool, t));
            && (forall s :: s in m <==> s in input)
            && (forall s :: s in m ==> m[s] in m && m[m[s]] == m[s])
            && (forall s :: s in m ==> |m[s]| == |s| && Hamming(s, m[s]) <= t)
            && (forall s :: s in m ==> SumWhere(input, rc, m[s]) >= SumWhere(input, rc, s))
  {
    var rule := HammingRule(pool, t);
    HammingRuleReflexive(pool, t);
    var m := CanonMap(pool, rule);
    forall s | s in input ensures s in m {
      CanonMapKeys(pool, rule, s);
    }
    forall s | s in m
      ensures s in input
      ensures m[s] in m && m[m[s]] == m[s]
      ensures |m[s]| == |s| && Hamming(s, m[s]) <= t
      ensures SumWhere(input, rc, m[s]) >= SumWhere(input, rc, s)
    {
      CanonMapKeys(pool, rule, s);
      HammingCanonAt(input, rc, pool, counts, t, len, IndexOf(pool, s));
    }
  }

  /** The greedy Hamming mapping at the barcode of rank `i`. */
  lemma HammingCanonAt(input: seq<string>, rc: seq<nat>, pool: seq<string>, counts: seq<nat>, t: int, len: nat, i: nat)
    requires |input| == |rc| && IsRanking(input, rc, pool, counts)
    requires AllOfLength(pool, len) && t >= 0 && i < |pool|
    ensures var m := CanonMap(pool, HammingRule(pool, t));
            && pool[i] in m && m[pool[i]] in m && m[m[pool[i]]] == m[pool[i]]
            && |m[pool[i]]| == |pool[i]| && Hamming(pool[i], m[pool[i]]) <= t
            && SumWhere(input, rc, m[pool[i]]) >= SumWhere(input, rc, pool[i])
  {
    var rule := HammingRule(pool, t);
    HammingRuleReflexive(pool, t);
    CanonMapFacts(pool, rule, i);
    var c := Canon(rule, i);
    MismatchesProperties(pool[c], pool[i]);
    assert counts[c] >= counts[i];
  }

  /** The result corrects every input: the mapping's keys are exactly the
      inputs, the corrected list holds each input's mapped sequence, and the
      mapping is idempotent (a corrected sequence corrects to itself). */
  ghost predicate CorrectsEvery(input: seq<string>, d: Denoised)
  {
    && (forall s :: s in d.mapping <==> s in input)
    && |d.corrected| == |input|
    && (forall i :: 0 <= i < |input| ==> d.corrected[i] == d.mapping[input[i]])
    && (forall s :: s in d.mapping ==> d.mapping[s] in d.mapping && d.mapping[d.mapping[s]] == d.mapping[s])
  }

  /** An idempotent mapping keyed by exactly the inputs corrects every one. */
  lemma CorrectedThrough(input: seq<string>, m: map<string, string>)
    requires forall s :: s in m <==> s in input
    requires forall s :: s in m ==> m[s] in m && m[m[s]] == m[s]
    ensures AllMapped(input, m) && CorrectsEvery(input, Denoised(m, Corrected(input, m)))
  {
  }

  /** Hamming strategy without whitelist, threshold zero or more, inputs of
      one length: every distinct input is a key and nothing else is; the
      corrected list maps each input; the mapping is idempotent; each input is
      within the threshold of its corrected sequence, which has at least as
      many summed reads. */
  lemma HammingDenoise(input: seq<string>, readCount: Option<seq<nat>>, t: int, len: nat,
                       align: (string, string) -> int, cluster: (seq<(string, nat)>, int) -> seq<seq<string>>)
    requires ReadCountsFit(input, readCount) && AllOfLength(input, len) && t >= 0
    ensures var r := DenoiseSpec(input, readCount, t, "Hamming", None, align, cluster);
            var rc := ReadCounts(input, readCount);
            && r.Success?
            && CorrectsEvery(input, r.value)
            && (forall s :: s in r.value.mapping ==>
                  |r.value.mapping[s]| == |s| && Hamming(s, r.value.mapping[s]) <= t)
            && (forall s :: s in r.value.mapping ==>
                  SumWhere(input, rc, r.value.mapping[s]) >= SumWhere(input, rc, s))
  {
    var rc := ReadCounts(input, readCount);
    var ranked := Ranked(input, rc);
    var pool := Firsts(ranked);
    HammingResult(input, readCount, t, len, align, cluster);
    RankingOfRanked(input, rc);
    PoolOfLength(input, rc, len);
    HammingCanonFacts(input, rc, pool, Seconds(ranked), t, len);
    CorrectedThrough(input, CanonMap(pool, HammingRule(pool, t)));
  }

  /** Under the same conditions the specification returns the greedy
      Hamming mapping of the ranked inputs and the inputs looked up in it. */
  lemma HammingResult(input: seq<string>, readCount: Option<seq<nat>>, t: int, len: nat,
                      align: (string, string) -> int, cluster: (seq<(string, nat)>, int) -> seq<seq<string>>)
    requires ReadCountsFit(input, readCount) && AllOfLength(input, len) && t >= 0
    ensures var rc := ReadCounts(input, readCount);
            && |rc| == |input|
            && Distinct(Firsts(Ranked(input, rc)))
            && var pool := Firsts(Ranked(input, rc));
               var m := CanonMap(pool, HammingRule(pool, t));
               && AllMapped(input, m)
               && DenoiseSpec(input, readCount, t, "Hamming", None, align, cluster) == Success(Denoised(m, Corrected(input, m)))
  {
    var rc := ReadCounts(input, readCount);
    var ranked := Ranked(input, rc);
    var pool := Firsts(ranked);
    RankingOfRanked(input, rc);
    assert ParseMethod("Hamming") == Some(HammingStrategy);
    PoolOfLength(input, rc, len);
    HammingCanonFacts(input, rc, pool, Seconds(ranked), t, len);
    var m := CanonMap(pool, HammingRule(pool, t));
    assert HammingMapping(pool, t, None) == Success(m);
    assert StrategyMapping(ranked, t, HammingStrategy, None, align, cluster) == Success(m);
    assert AllMapped(input, m);
  }

  /** Hamming strategy without whitelist and a negative threshold: nothing is
      absorbed, the mapping stays empty, and correcting any input fails. */
  lemma HammingNegativeThreshold(input: seq<string>, readCount: Option<seq<nat>>, t: int, len: nat,
                                 align: (string, string) -> int, cluster: (seq<(string, nat)>, int) -> seq<seq<string>>)
    requires ReadCountsFit(input, readCount) && AllOfLength(input, len) && t < 0 && |input| > 0
    ensures DenoiseSpec(input, readCount, t, "Hamming", None, align, cluster) == Failure(Unmapped)
  {
    var rc := ReadCounts(input, readCount);
    PoolOfLength(input, rc, len);
  }

  /** Whitelist mode with a positive threshold, the inputs of one width and
      the entries of a width that broadcasts against it: the keys are the
      inputs some entry matches; each goes to the first entry that matches it, so an
      earlier entry's claim is never overridden. The corrected list holds
      that entry cut to the inputs' width (the whole entry when it is no
      wider), or for an input no entry matches the marker "nan" cut to that
      width. */
  lemma WhitelistDenoise(input: seq<string>, readCount: Option<seq<nat>>, t: int, wl: seq<string>,
                         li: nat, lw: nat,
                         align: (string, string) -> int, cluster: (seq<(string, nat)>, int) -> seq<seq<string>>)
    requires ReadCountsFit(input, readCount) && AllOfLength(input, li) && AllOfLength(wl, lw) && Broadcastable(li, lw)
    requires t > 0 && |input| > 0
    ensures var r := DenoiseSpec(input, readCount, t, "Hamming", Some(wl), align, cluster);
            && r.Success?
            && (forall s :: s in r.value.mapping <==> s in input && Matches(wl, s, t))
            && (forall s :: s in r.value.mapping ==>
                  r.value.mapping[s] in wl && r.value.mapping[s] == wl[FirstMatch(wl, s, t)])
            && |r.value.corrected| == |input|
            && Width(input) == (if li == 0 then 1 else li)
            && (forall i :: 0 <= i < |input| ==>
                  r.value.corrected[i] == if Matches(wl, input[i], t) then Fit(wl[FirstMatch(wl, input[i], t)], Width(input))
                                          else NanMarker(Width(input)))
  {
    var pool := Firsts(Ranked(input, ReadCounts(input, readCount)));
    WhitelistResult(input, readCount, t, wl, li, lw, align, cluster);
    var m := WhitelistMap(pool, wl, t);
    forall s ensures s in m <==> s in input && Matches(wl, s, t) {
      if s in input {
        assert s in pool;
      }
    }
    WidthOfLength(input, li);
    WhitelistCorrectedAt(input, wl, t, m);
  }

  /** Under the conditions of `WhitelistDenoise`, the specification returns
      the first-match mapping of the ranked pool and the whitelist-mode list. */
  lemma WhitelistResult(input: seq<string>, readCount: Option<seq<nat>>, t: int, wl: seq<string>,
                        li: nat, lw: nat,
                        align: (string, string) -> int, cluster: (seq<(string, nat)>, int) -> seq<seq<string>>)
    requires ReadCountsFit(input, readCount) && AllOfLength(input, li) && AllOfLength(wl, lw) && Broadcastable(li, lw)
    requires t > 0 && |input| > 0
    ensures var pool := Firsts(Ranked(input, ReadCounts(input, readCount)));
            && (forall s :: s in input <==> s in pool)
            && Comparable(pool, wl)
            && (forall i :: 0 <= i < |input| ==> Fits(wl, |input[i]|))
            && var m := WhitelistMap(pool, wl, t);
               DenoiseSpec(input, readCount, t, "Hamming", Some(wl), align, cluster) == Success(Denoised(m, WhitelistCorrected(input, m)))
  {
    var rc := ReadCounts(input, readCount);
    var ranked := Ranked(input, rc);
    var pool := Firsts(ranked);
    RankedFacts(input, rc);
    PoolOfLength(input, rc, li);
    assert CommonLength(pool) == li by {
      assert pool[0] in input;
    }
    assert Rectangular(wl) by {
      if |wl| > 0 {
        assert CommonLength(wl) == lw;
      }
    }
    RectangularComparable(pool, wl);
    assert forall i :: 0 <= i < |input| ==> |input[i]| == li;
    var m := WhitelistMap(pool, wl, t);
    assert DenoiseSpec(input, readCount, t, "Hamming", Some(wl), align, cluster) == Success(Denoised(m, WhitelistCorrected(input, m)));
  }

  /** Inputs of one length are stored at that width, or at width 1 when they
      are empty. */
  lemma WidthOfLength(input: seq<string>, len: nat)
    requires AllOfLength(input, len) && |input| > 0
    ensures Width(input) == if len == 0 then 1 else len
  {
    assert |input[0]| == len;
  }

  /** With the first-match mapping, the whitelist-mode list holds each
      input's first matching entry cut to the width, or the marker. */
  lemma WhitelistCorrectedAt(input: seq<string>, wl: seq<string>, t: int, m: map<string, string>)
    requires forall i :: 0 <= i < |input| ==> Fits(wl, |input[i]|)
    requires forall s :: s in m <==> s in input && Matches(wl, s, t)
    requires forall s :: s in m ==> m[s] == wl[FirstMatch(wl, s, t)]
    ensures forall i :: 0 <= i < |input| ==>
              WhitelistCorrected(input, m)[i] == if Matches(wl, input[i], t) then Fit(wl[FirstMatch(wl, input[i], t)], Width(input))
                                                 else NanMarker(Width(input))
  {
    var c := WhitelistCorrected(input, m);
    forall i | 0 <= i < |input|
      ensures c[i] == if Matches(wl, input[i], t) then Fit(wl[FirstMatch(wl, input[i], t)], Width(input))
                      else NanMarker(Width(input))
    {
      assert c[i] == WhitelistEntry(input[i], m, Width(input));
    }
  }

  /** When every input is a key and maps to an input, every mapped value fits
      the inputs' width, so the whitelist-mode list is the plain lookup. */
  lemma WhitelistCorrectedFits(input: seq<string>, m: map<string, string>)
    requires AllMapped(input, m)
    requires forall s :: s in m ==> m[s] in input
    ensures WhitelistCorrected(input, m) == Corrected(input, m)
  {
    var c := WhitelistCorrected(input, m);
    forall i | 0 <= i < |input| ensures c[i] == m[input[i]] {
      assert c[i] == WhitelistEntry(input[i], m, Width(input));
      var k :| 0 <= k < |input| && input[k] == m[input[i]];
    }
  }

  /** A pool of width 1 is compared with a longer whitelist entry character
      by character: "A" is within 2 of "AAA" and maps to it, "C" differs
      from it in 3 positions and is no key. The corrected list is written
      into the inputs' array of width 1, so "A" gets "AAA" cut to "A", and
      "C" gets "nan" cut to "n". */
  lemma WhitelistBroadcastExample(input: seq<string>, wl: seq<string>,
                                  align: (string, string) -> int, cluster: (seq<(string, nat)>, int) -> seq<seq<string>>)
    requires input == ["A", "C"] && wl == ["AAA"]
    ensures var r := DenoiseSpec(input, None, 2, "Hamming", Some(wl), align, cluster);
            r.Success? && r.value.mapping == map["A" := "AAA"] && r.value.corrected == ["A", "n"]
  {
    assert AllOfLength(input, 1) && AllOfLength(wl, 3);
    WhitelistDenoise(input, None, 2, wl, 1, 3, align, cluster);
    var r := DenoiseSpec(input, None, 2, "Hamming", Some(wl), align, cluster);
    ExampleMapping(input, wl, r.value.mapping);
    ExampleCorrected(input, wl, r.value.corrected);
  }

  /** The first-match mapping of the example. */
  lemma ExampleMapping(input: seq<string>, wl: seq<string>, m: map<string, string>)
    requires input == ["A", "C"] && wl == ["AAA"]
    requires forall s :: s in m <==> s in input && Matches(wl, s, 2)
    requires forall s :: s in m ==> m[s] == wl[FirstMatch(wl, s, 2)]
    ensures m == map["A" := "AAA"]
  {
    ExampleMatches();
    assert m.Keys == {"A"} by {
      forall s ensures s in m <==> s == "A" {
        assert s in input <==> s == "A" || s == "C";
      }
    }
  }

  /** The corrected list of the example. */
  lemma ExampleCorrected(input: seq<string>, wl: seq<string>, c: seq<string>)
    requires input == ["A", "C"] && wl == ["AAA"]
    requires |c| == |input| && Width(input) == 1
    requires forall i :: 0 <= i < |input| ==>
               c[i] == if Matches(wl, input[i], 2) then Fit(wl[FirstMatch(wl, input[i], 2)], Width(input))
                       else NanMarker(Width(input))
    ensures c == ["A", "n"]
  {
    ExampleMatches();
    assert "AAA"[..1] == "A" && "nan"[..1] == "n";
    assert c[0] == "A" && c[1] == "n";
  }

  lemma ExampleMatches()
    ensures Fits(["AAA"], 1)
    ensures Matches(["AAA"], "A", 2) && FirstMatch(["AAA"], "A", 2) == 0
    ensures !Matches(["AAA"], "C", 2)
  {
    assert "AAA"[..2] == "AA" && "AA"[..1] == "A" && "A"[..0] == "";
    assert CountOther("A", 'C') == 1 && CountOther("AA", 'C') == 2;
    assert BroadcastMismatches("A", "AAA") == 0;
    assert BroadcastMismatches("C", "AAA") == 3;
    assert ["AAA"][0] == "AAA";
  }

  /** Whitelist mode with a threshold of zero or below: the mapping is the
      identity on the whitelist, so an input keeps its value exactly when it
      is a whitelist entry itself; every other input gets the marker "nan"
      cut to the inputs' width. */
  lemma WhitelistZeroThreshold(input: seq<string>, readCount: Option<seq<nat>>, t: int, wl: seq<string>,
                               align: (string, string) -> int, cluster: (seq<(string, nat)>, int) -> seq<seq<string>>)
    requires ReadCountsFit(input, readCount) && Rectangular(input) && Rectangular(wl) && t <= 0
    ensures var r := DenoiseSpec(input, readCount, t, "Hamming", Some(wl), align, cluster);
            && r.Success?
            && r.value.mapping == IdentityMap(wl)
            && |r.value.corrected| == |input|
            && (forall i :: 0 <= i < |input| ==>
                  r.value.corrected[i] == if input[i] in wl then input[i] else NanMarker(Width(input)))
  {
    var rc := ReadCounts(input, readCount);
    PoolOfLength(input, rc, CommonLength(input));
  }

  /** A length difference beyond the threshold alone rules a sequence out
      of the alignment strategy's clusters. */
  lemma LengthGapRulesOut(x: string, y: string, t: int, align: (string, string) -> int)
    requires LengthGap(x, y) > t
    ensures AlignDistance(x, y, t, align) > t
  {
  }

  /** Alignment strategy: every distinct input is a key; a seed is mapped to
      itself; any other sequence goes to a seed with at least ten times its
      summed reads, within the threshold by the alignment distance and by the
      length difference. */
  lemma AlignmentDenoise(input: seq<string>, readCount: Option<seq<nat>>, t: int, whitelist: Option<seq<string>>,
                         align: (string, string) -> int, cluster: (seq<(string, nat)>, int) -> seq<seq<string>>)
    requires ReadCountsFit(input, readCount)
    ensures var r := DenoiseSpec(input, readCount, t, "alignment", whitelist, align, cluster);
            var rc := ReadCounts(input, readCount);
            && r.Success?
            && CorrectsEvery(input, r.value)
            && (forall s :: s in r.value.mapping && r.value.mapping[s] != s ==>
                  && 10 * SumWhere(input, rc, s) <= SumWhere(input, rc, r.value.mapping[s])
                  && AlignDistance(r.value.mapping[s], s, t, align) <= t
                  && LengthGap(r.value.mapping[s], s) <= t)
  {
    var rc := ReadCounts(input, readCount);
    var ranked := Ranked(input, rc);
    var pool := Firsts(ranked);
    RankingOfRanked(input, rc);
    assert ParseMethod("alignment") == Some(AlignmentStrategy);
    AlignCanonFacts(input, rc, pool, Seconds(ranked), t, align);
    var m := CanonMap(pool, AlignRule(pool, Seconds(ranked), t, align));
    assert StrategyMapping(ranked, t, AlignmentStrategy, whitelist, align, cluster) == Success(m);
    assert AllMapped(input, m);
    var r := DenoiseSpec(input, readCount, t, "alignment", whitelist, align, cluster);
    if whitelist.Some? {
      assert r == Success(Denoised(m, WhitelistCorrected(input, m)));
      WhitelistCorrectedFits(input, m);
    } else {
      assert r == Success(Denoised(m, Corrected(input, m)));
    }
    CorrectedThrough(input, m);
  }

  /** The greedy alignment mapping of a ranked pool: its keys are the
      inputs, it is idempotent, and a sequence sent elsewhere goes to one
      with at least ten times its summed reads, within the threshold by the
      alignment distance and by the length difference. */
  lemma AlignCanonFacts(input: seq<string>, rc: seq<nat>, pool: seq<string>, counts: seq<nat>, t: int,
                        align: (string, string) -> int)
    requires |input| == |rc| && IsRanking(input, rc, pool, counts)
    ensures var m := CanonMap(pool, AlignRule(pool, counts, t, align));
            && (forall s :: s in m <==> s in input)
            && (forall s :: s in m ==> m[s] in m && m[m[s]] == m[s])
            && (forall s :: s in m && m[s] != s ==>
                  && 10 * SumWhere(input, rc, s) <= SumWhere(input, rc, m[s])
                  && AlignDistance(m[s], s, t, align) <= t
                  && LengthGap(m[s], s) <= t)
  {
    var rule := AlignRule(pool, counts, t, align);
    AlignRuleReflexive(pool, counts, t, align);
    var m := CanonMap(pool, rule);
    forall s | s in input ensures s in m {
      CanonMapKeys(pool, rule, s);
    }
    forall s | s in m
      ensures s in input
      ensures m[s] in m && m[m[s]] == m[s]
      ensures m[s] != s ==>
                && 10 * SumWhere(input, rc, s) <= SumWhere(input, rc, m[s])
                && AlignDistance(m[s], s, t, align) <= t
                && LengthGap(m[s], s) <= t
    {
      CanonMapKeys(pool, rule, s);
      var i := IndexOf(pool, s);
      CanonMapFacts(pool, rule, i);
      var c := Canon(rule, i);
      assert m[s] == pool[c];
      if m[s] != s {
        assert c != i;
        assert rule(c, i);
      }
    }
  }

  /** Every input is a key of the cluster mapping exactly when every input
      lies in some cluster. */
  lemma ClusterMapCovers(input: seq<string>, cs: seq<seq<string>>)
    ensures AllMapped(input, ClusterMap(cs)) <==> forall i :: 0 <= i < |input| ==> InCluster(cs, input[i])
  {
    forall i | 0 <= i < |input| ensures input[i] in ClusterMap(cs) <==> InCluster(cs, input[i]) {
      ClusterMapKeys(cs, input[i]);
    }
  }

  /** UMI_tools strategy: a whitelist is refused; an empty input gives an
      empty mapping; otherwise the mapping is the one the clusters define,
      and it succeeds exactly when every input lies in some cluster. */
  lemma UmiToolsDenoise(input: seq<string>, readCount: Option<seq<nat>>, t: int, whitelist: Option<seq<string>>,
                        align: (string, string) -> int, cluster: (seq<(string, nat)>, int) -> seq<seq<string>>)
    requires ReadCountsFit(input, readCount)
    ensures whitelist.Some? ==>
              DenoiseSpec(input, readCount, t, "UMI_tools", whitelist, align, cluster) == Failure(IncompatibleWhitelist)
    ensures whitelist.None? && input == [] ==>
              DenoiseSpec(input, readCount, t, "UMI_tools", whitelist, align, cluster) == Success(Denoised(map[], []))
    ensures whitelist.None? && input != [] ==>
              var cs := cluster(Ranked(input, ReadCounts(input, readCount)), t);
              var r := DenoiseSpec(input, readCount, t, "UMI_tools", whitelist, align, cluster);
              && (r.Success? <==> forall i :: 0 <= i < |input| ==> InCluster(cs, input[i]))
              && (r.Success? ==> r.value.mapping == ClusterMap(cs))
  {
    var rc := ReadCounts(input, readCount);
    var ranked := Ranked(input, rc);
    RankedFacts(input, rc);
    assert ParseMethod("UMI_tools") == Some(UmiToolsStrategy);
    var r := DenoiseSpec(input, readCount, t, "UMI_tools", whitelist, align, cluster);
    if whitelist.Some? {
      assert StrategyMapping(ranked, t, UmiToolsStrategy, whitelist, align, cluster) == Failure(IncompatibleWhitelist);
    } else if input == [] {
      assert GroupSum(input, rc) == [];
      assert StrategyMapping(ranked, t, UmiToolsStrategy, whitelist, align, cluster) == Success(map[]);
      assert Corrected(input, map[]) == [];
    } else {
      assert input[0] in Firsts(ranked);
      var cs := cluster(ranked, t);
      var m := ClusterMap(cs);
      assert StrategyMapping(ranked, t, UmiToolsStrategy, whitelist, align, cluster) == Success(m);
      assert r == if AllMapped(input, m) then Success(Denoised(m, Corrected(input, m))) else Failure(Unmapped);
      ClusterMapCovers(input, cs);
    }
  }
}
