/** Whitelist mode of the Hamming denoiser. The whitelist entries are the
    seeds, taken in whitelist order. With a positive threshold every still
    unassigned barcode of the pool within the threshold of the current entry
    is mapped to that entry and marked assigned, so the first matching entry
    wins. With a threshold of zero or below the mapping is the identity on the
    whitelist entries and the pool is not consulted. */
module Whitelist {
  import opened Collections
  import opened Distance

  /** Every barcode of `xs` has length `len`. */
  predicate AllOfLength(xs: seq<string>, len: nat)
  {
    forall i :: 0 <= i < |xs| ==> |xs[i]| == len
  }

  /** Every barcode of `xs` can be compared with a barcode of width `n`. */
  predicate Fits(xs: seq<string>, n: nat)
  {
    forall i :: 0 <= i < |xs| ==> Broadcastable(|xs[i]|, n)
  }

  /** Every pool barcode can be compared with every whitelist entry. */
  predicate Comparable(pool: seq<string>, wl: seq<string>)
  {
    forall i :: 0 <= i < |pool| ==> Fits(wl, |pool[i]|)
  }

  /** Some entry of `wl` is within `t` of `s`. */
  predicate Matches(wl: seq<string>, s: string, t: int)
    requires Fits(wl, |s|)
  {
    exists j :: 0 <= j < |wl| && BroadcastMismatches(s, wl[j]) <= t
  }

  /** The first entry of `wl` within `t` of `s`. */
  function FirstMatch(wl: seq<string>, s: string, t: int): (r: nat)
    requires Fits(wl, |s|) && Matches(wl, s, t)
    ensures r < |wl| && BroadcastMismatches(s, wl[r]) <= t
    ensures forall k :: 0 <= k < r ==> BroadcastMismatches(s, wl[k]) > t
  {
    if BroadcastMismatches(s, wl[0]) <= t then 0
    else
      assert Matches(wl[1..], s, t) by {
        var j :| 0 <= j < |wl| && BroadcastMismatches(s, wl[j]) <= t;
        assert wl[1..][j - 1] == wl[j];
      }
      1 + FirstMatch(wl[1..], s, t)
  }

  /** The mapping of whitelist mode with a positive threshold: each pool
      barcode that some entry matches goes to the first entry that matches
      it; the others are not keys. */
  function WhitelistMap(pool: seq<string>, wl: seq<string>, t: int): (m: map<string, string>)
    requires Comparable(pool, wl)
    ensures forall s :: s in m ==> s in pool
  {
    map s | s in pool && Matches(wl, s, t) :: wl[FirstMatch(wl, s, t)]
  }

  /** The mapping of whitelist mode with a threshold of zero or below. */
  function IdentityMap(wl: seq<string>): (m: map<string, string>)
    ensures m.Keys == set s | s in wl
    ensures forall s :: s in m ==> m[s] == s
  {
    map s | s in wl :: s
  }

  /** Extending the whitelist by one entry: a barcode already matched keeps its
      first match; one not yet matched that the new entry matches goes to the
      new entry. */
  lemma FirstMatchExtend(wl: seq<string>, w: string, s: string, t: int)
    requires Fits(wl, |s|) && Broadcastable(|w|, |s|)
    ensures Fits(wl + [w], |s|)
    ensures Matches(wl + [w], s, t) <==> Matches(wl, s, t) || BroadcastMismatches(s, w) <= t
    ensures Matches(wl, s, t) ==> FirstMatch(wl + [w], s, t) == FirstMatch(wl, s, t)
    ensures !Matches(wl, s, t) && BroadcastMismatches(s, w) <= t ==> FirstMatch(wl + [w], s, t) == |wl|
  {
    var e := wl + [w];
    assert forall k :: 0 <= k < |wl| ==> e[k] == wl[k];
    assert e[|wl|] == w;
    if Matches(wl, s, t) {
      var j :| 0 <= j < |wl| && BroadcastMismatches(s, wl[j]) <= t;
      assert e[j] == wl[j];
      var c := FirstMatch(wl, s, t);
      assert e[c] == wl[c];
    }
    if Matches(e, s, t) {
      var j :| 0 <= j < |e| && BroadcastMismatches(s, e[j]) <= t;
      if j < |wl| {
        assert e[j] == wl[j];
      }
    }
  }

  /** The loop state of one pool barcode `s` after the entries `wl`: it is
      unassigned (`r`) exactly when no entry of `wl` matches it, and once
      assigned it is a key mapped to its first match. */
  ghost predicate ProcessedAt(wl: seq<string>, t: int, s: string, r: bool, mapping: map<string, string>)
    requires Fits(wl, |s|)
  {
    && (r <==> !Matches(wl, s, t))
    && (!r ==> s in mapping && mapping[s] == wl[FirstMatch(wl, s, t)])
  }

  /** The state of the whitelist loop after the entries `wl`: every pool
      barcode is processed as `ProcessedAt` says, and nothing but assigned
      pool barcodes is a key. */
  ghost predicate WhitelistProcessed(pool: seq<string>, wl: seq<string>, t: int,
                                     remaining: seq<bool>, mapping: map<string, string>)
    requires Comparable(pool, wl) && Distinct(pool)
  {
    && |remaining| == |pool|
    && (forall i :: 0 <= i < |pool| ==> ProcessedAt(wl, t, pool[i], remaining[i], mapping))
    && (forall s :: s in mapping ==> s in pool && !remaining[IndexOf(pool, s)])
  }

  /** The state of a round for entry `w` after the first `k` pool barcodes,
      from flags `rem0` and mapping `map0`: those barcodes within `t` of `w`
      that were unassigned are now assigned, the later flags are as they
      were, every assigned barcode is mapped to `w` if this round assigned it
      and as before otherwise, and only assigned pool barcodes are keys. */
  ghost predicate RoundUpTo(pool: seq<string>, w: string, t: int, rem0: seq<bool>, map0: map<string, string>,
                            rem: seq<bool>, mapping: map<string, string>, k: int)
    requires |rem0| == |pool| == |rem| && Fits(pool, |w|)
    requires forall i :: 0 <= i < |pool| && !rem0[i] ==> pool[i] in map0
  {
    && (forall i :: 0 <= i < k && i < |pool| ==> rem[i] == (rem0[i] && BroadcastMismatches(pool[i], w) > t))
    && (forall i :: k <= i < |pool| && 0 <= i ==> rem[i] == rem0[i])
    && (forall i :: 0 <= i < |pool| && !rem[i] ==>
          pool[i] in mapping && mapping[pool[i]] == (if rem0[i] then w else map0[pool[i]]))
    && (forall s :: s in mapping ==> s in pool && !rem[IndexOf(pool, s)])
  }

  /** Looking at barcode `k` keeps the round's state. */
  lemma RoundStep(pool: seq<string>, w: string, t: int, rem0: seq<bool>, map0: map<string, string>,
                  rem: seq<bool>, mapping: map<string, string>, k: nat)
    requires |rem0| == |pool| == |rem| && Fits(pool, |w|) && Distinct(pool) && k < |pool|
    requires forall i :: 0 <= i < |pool| && !rem0[i] ==> pool[i] in map0
    requires RoundUpTo(pool, w, t, rem0, map0, rem, mapping, k)
    ensures rem[k] && BroadcastMismatches(pool[k], w) <= t ==>
              RoundUpTo(pool, w, t, rem0, map0, rem[k := false], mapping[pool[k] := w], k + 1)
    ensures !(rem[k] && BroadcastMismatches(pool[k], w) <= t) ==>
              RoundUpTo(pool, w, t, rem0, map0, rem, mapping, k + 1)
  {
    if rem[k] && BroadcastMismatches(pool[k], w) <= t {
      RoundHit(pool, w, t, rem0, map0, rem, mapping, k);
    }
  }

  /** Assigning barcode `k` to `w` keeps the round's state. */
  lemma RoundHit(pool: seq<string>, w: string, t: int, rem0: seq<bool>, map0: map<string, string>,
                 rem: seq<bool>, mapping: map<string, string>, k: nat)
    requires |rem0| == |pool| == |rem| && Fits(pool, |w|) && Distinct(pool) && k < |pool|
    requires forall i :: 0 <= i < |pool| && !rem0[i] ==> pool[i] in map0
    requires RoundUpTo(pool, w, t, rem0, map0, rem, mapping, k)
    requires rem[k] && BroadcastMismatches(pool[k], w) <= t
    ensures RoundUpTo(pool, w, t, rem0, map0, rem[k := false], mapping[pool[k] := w], k + 1)
  {
    HitFlags(pool, w, t, rem0, rem, k);
    AssignMapped(pool, w, rem0, map0, rem, mapping, k);
    AssignKeys(pool, w, rem, mapping, k);
  }

  /** After assigning barcode `k`, the flags up to `k` are as the round makes
      them and the later ones as they were. */
  lemma HitFlags(pool: seq<string>, w: string, t: int, rem0: seq<bool>, rem: seq<bool>, k: nat)
    requires |rem0| == |pool| == |rem| && Fits(pool, |w|) && k < |pool|
    requires forall i :: 0 <= i < k ==> rem[i] == (rem0[i] && BroadcastMismatches(pool[i], w) > t)
    requires forall i :: k <= i < |pool| ==> rem[i] == rem0[i]
    requires rem[k] && BroadcastMismatches(pool[k], w) <= t
    ensures forall i :: 0 <= i < k + 1 && i < |pool| ==> rem[k := false][i] == (rem0[i] && BroadcastMismatches(pool[i], w) > t)
    ensures forall i :: k + 1 <= i < |pool| && 0 <= i ==> rem[k := false][i] == rem0[i]
  {
  }

  /** One whitelist entry's round: every unassigned pool barcode within `t`
      of `w` is mapped to `w` and marked assigned. */
  method MatchRound(pool: seq<string>, w: string, t: int, remaining: array<bool>,
                    mapping0: map<string, string>) returns (mapping: map<string, string>)
    requires Distinct(pool) && remaining.Length == |pool| && Fits(pool, |w|)
    requires forall i :: 0 <= i < |pool| && !remaining[i] ==> pool[i] in mapping0
    requires forall s :: s in mapping0 ==> s in pool && !remaining[IndexOf(pool, s)]
    modifies remaining
    ensures forall i :: 0 <= i < |pool| ==> remaining[i] == (old(remaining[i]) && BroadcastMismatches(pool[i], w) > t)
    ensures forall i :: 0 <= i < |pool| && !remaining[i] ==>
              pool[i] in mapping && mapping[pool[i]] == (if old(remaining[i]) then w else mapping0[pool[i]])
    ensures forall s :: s in mapping ==> s in pool && !remaining[IndexOf(pool, s)]
  {
    ghost var rem0 := remaining[..];
    mapping := mapping0;
    for k := 0 to |pool|
      invariant RoundUpTo(pool, w, t, rem0, mapping0, remaining[..], mapping, k)
    {
      RoundStep(pool, w, t, rem0, mapping0, remaining[..], mapping, k);
      if remaining[k] && BroadcastMismatches(pool[k], w) <= t {
        ghost var before := remaining[..];
        mapping := mapping[pool[k] := w];
        remaining[k] := false;
        assert remaining[..] == before[k := false];
      }
    }
  }

  /** A positive-threshold round for entry `w` takes the loop state for the
      whitelist prefix `wl` to the state for `wl + [w]`. */
  lemma WhitelistStep(pool: seq<string>, wl: seq<string>, w: string, t: int,
                      rem0: seq<bool>, map0: map<string, string>, rem1: seq<bool>, map1: map<string, string>)
    requires Distinct(pool) && Comparable(pool, wl) && Fits(pool, |w|)
    requires WhitelistProcessed(pool, wl, t, rem0, map0)
    requires |rem1| == |pool|
    requires forall i :: 0 <= i < |pool| ==> rem1[i] == (rem0[i] && BroadcastMismatches(pool[i], w) > t)
    requires forall i :: 0 <= i < |pool| && !rem1[i] ==>
               pool[i] in map1 && map1[pool[i]] == (if rem0[i] then w else map0[pool[i]])
    requires forall s :: s in map1 ==> s in pool && !rem1[IndexOf(pool, s)]
    ensures Comparable(pool, wl + [w])
    ensures WhitelistProcessed(pool, wl + [w], t, rem1, map1)
  {
    forall i | 0 <= i < |pool| ensures Fits(wl + [w], |pool[i]|) {
      FitsSnoc(wl, w, |pool[i]|);
    }
    forall i | 0 <= i < |pool|
      ensures ProcessedAt(wl + [w], t, pool[i], rem1[i], map1)
    {
      StepAt(wl, w, t, pool[i], rem0[i], map0, rem1[i], map1);
    }
  }

  /** Appending a barcode that fits width `n` keeps the list fitting it. */
  lemma FitsSnoc(wl: seq<string>, w: string, n: nat)
    requires Fits(wl, n) && Broadcastable(|w|, n)
    ensures Fits(wl + [w], n)
  {
    assert forall k :: 0 <= k < |wl| ==> (wl + [w])[k] == wl[k];
  }

  /** `WhitelistStep` for one pool barcode `s`, whose flag goes from `r0`
      to `r1`. */
  lemma StepAt(wl: seq<string>, w: string, t: int, s: string,
               r0: bool, map0: map<string, string>, r1: bool, map1: map<string, string>)
    requires Fits(wl, |s|) && Broadcastable(|w|, |s|)
    requires ProcessedAt(wl, t, s, r0, map0)
    requires r1 == (r0 && BroadcastMismatches(s, w) > t)
    requires !r1 ==> s in map1 && map1[s] == (if r0 then w else map0[s])
    requires Fits(wl + [w], |s|)
    ensures ProcessedAt(wl + [w], t, s, r1, map1)
  {
    FirstMatchExtend(wl, w, s, t);
    if !r0 {
      assert (wl + [w])[FirstMatch(wl, s, t)] == wl[FirstMatch(wl, s, t)];
    }
  }

  /** When the loop has seen the whole whitelist its mapping is
      `WhitelistMap`. */
  lemma WhitelistDone(pool: seq<string>, wl: seq<string>, t: int,
                      rem: seq<bool>, mapping: map<string, string>)
    requires Distinct(pool) && Comparable(pool, wl)
    requires WhitelistProcessed(pool, wl, t, rem, mapping)
    ensures mapping == WhitelistMap(pool, wl, t)
  {
    var target := WhitelistMap(pool, wl, t);
    forall s | s in mapping || s in target
      ensures s in mapping && s in target && mapping[s] == target[s]
    {
      var i := IndexOf(pool, s);
      IndexOfDistinct(pool, i);
    }
  }

  /** The whitelist loop. For a positive threshold the result is
      `WhitelistMap`; otherwise it is the identity on the whitelist. */
  method WhitelistAssign(pool: seq<string>, wl: seq<string>, t: int) returns (mapping: map<string, string>)
    requires Distinct(pool)
    requires t > 0 ==> Comparable(pool, wl)
    ensures t > 0 ==> mapping == WhitelistMap(pool, wl, t)
    ensures t <= 0 ==> mapping == IdentityMap(wl)
  {
    var n := |pool|;
    var remaining := new bool[n](_ => true);
    mapping := map[];
    for j := 0 to |wl|
      invariant t > 0 ==> Comparable(pool, wl[..j])
      invariant t > 0 ==> WhitelistProcessed(pool, wl[..j], t, remaining[..], mapping)
      invariant t <= 0 ==> mapping == IdentityMap(wl[..j])
    {
      assert wl[..j + 1] == wl[..j] + [wl[j]];
      if t > 0 {
        ghost var rem0 := remaining[..];
        ghost var map0 := mapping;
        mapping := MatchRound(pool, wl[j], t, remaining, mapping);
        WhitelistStep(pool, wl[..j], wl[j], t, rem0, map0, remaining[..], mapping);
      } else {
        mapping := mapping[wl[j] := wl[j]];
      }
    }
    assert wl[..|wl|] == wl;
    if t > 0 {
      WhitelistDone(pool, wl, t, remaining[..], mapping);
    }
  }
}
