/** The greedy seed-and-absorb clustering shared by the Hamming and the
    alignment strategies. The pool is a ranked list of distinct barcodes;
    `absorbs(s, m)` says whether the seed at rank `s` takes the barcode at
    rank `m` into its cluster. Repeatedly, the best-ranked barcode not yet
    assigned becomes a seed and every still unassigned barcode it absorbs is
    mapped to it.

    The declarative reference: a rank is a seed when no earlier seed absorbs
    it, and the canonical rank of `i` is the first seed that absorbs it. */
module Greedy {
  import opened Collections

  /** Rank `i` is a seed: no earlier seed absorbs it. */
  ghost predicate Seeded(absorbs: (nat, nat) -> bool, i: nat)
    decreases i
  {
    forall j: nat :: j < i ==> (Seeded(absorbs, j) ==> !absorbs(j, i))
  }

  /** Some seed ranked before `b` absorbs rank `i`. */
  ghost predicate Covered(absorbs: (nat, nat) -> bool, b: nat, i: nat)
  {
    exists j: nat :: j < b && Seeded(absorbs, j) && absorbs(j, i)
  }

  /** The first seed at a rank in `[j, i)` that absorbs `i`, or `i` itself. */
  ghost function CanonFrom(absorbs: (nat, nat) -> bool, i: nat, j: nat): (r: nat)
    requires j <= i
    ensures j <= r <= i
    ensures r < i ==> Seeded(absorbs, r) && absorbs(r, i)
    ensures forall k: nat :: j <= k < r ==> !(Seeded(absorbs, k) && absorbs(k, i))
    decreases i - j
  {
    if j == i then i
    else if Seeded(absorbs, j) && absorbs(j, i) then j
    else CanonFrom(absorbs, i, j + 1)
  }

  /** The canonical rank of `i`: the first seed that absorbs it, or `i` itself
      when it is a seed. */
  ghost function Canon(absorbs: (nat, nat) -> bool, i: nat): (c: nat)
    ensures c <= i
    ensures c < i ==> Seeded(absorbs, c) && absorbs(c, i)
  {
    CanonFrom(absorbs, i, 0)
  }

  /** Every rank below `n` absorbs itself. */
  ghost predicate Reflexive(absorbs: (nat, nat) -> bool, n: nat)
  {
    forall i: nat :: i < n ==> absorbs(i, i)
  }

  /** No rank below `n` absorbs any rank below `n`. */
  ghost predicate Never(absorbs: (nat, nat) -> bool, n: nat)
  {
    forall i: nat, j: nat :: i < n && j < n ==> !absorbs(i, j)
  }

  /** For a reflexive rule the canonical rank is an earlier-or-equal seed that
      absorbs the rank, no earlier seed absorbs it, and a canonical rank is its
      own canonical rank. */
  lemma CanonProperties(absorbs: (nat, nat) -> bool, n: nat, i: nat)
    requires Reflexive(absorbs, n) && i < n
    ensures Canon(absorbs, i) <= i
    ensures Seeded(absorbs, Canon(absorbs, i))
    ensures absorbs(Canon(absorbs, i), i)
    ensures forall j: nat :: j < Canon(absorbs, i) && Seeded(absorbs, j) ==> !absorbs(j, i)
    ensures Canon(absorbs, Canon(absorbs, i)) == Canon(absorbs, i)
  {
    var c := Canon(absorbs, i);
    if c == i {
      assert Seeded(absorbs, i);
    }
    CanonOfSeed(absorbs, c);
  }

  /** A seed is its own canonical rank. */
  lemma CanonOfSeed(absorbs: (nat, nat) -> bool, i: nat)
    requires Seeded(absorbs, i)
    ensures Canon(absorbs, i) == i
  {
    assert forall k: nat :: k < i ==> !(Seeded(absorbs, k) && absorbs(k, i));
  }

  /** When no rank absorbs another one, every rank is a seed and its own
      canonical rank. */
  lemma {:induction false} AllSeeds(absorbs: (nat, nat) -> bool, n: nat, i: nat)
    requires forall j: nat, k: nat :: j < n && k < n && j != k ==> !absorbs(j, k)
    requires i < n
    ensures Seeded(absorbs, i) && Canon(absorbs, i) == i
  {
    forall j: nat | j < i ensures Seeded(absorbs, j) ==> !absorbs(j, i) {
    }
    CanonOfSeed(absorbs, i);
  }

  /** The step of the greedy loop. When every rank before `b` is covered by a
      seed before `b`, `id0` is the first uncovered rank and each rank in
      `[b, id0)` is covered, then `id0` is a seed, the ranks covered before
      `id0 + 1` are those covered before `b` or absorbed by `id0`, and an
      uncovered rank that `id0` absorbs has `id0` as its canonical rank. */
  lemma AdvanceSeed(absorbs: (nat, nat) -> bool, b: nat, id0: nat)
    requires b <= id0
    requires !Covered(absorbs, b, id0)
    requires forall j: nat :: b <= j < id0 ==> Covered(absorbs, b, j)
    ensures Seeded(absorbs, id0)
    ensures forall i: nat :: Covered(absorbs, id0 + 1, i) <==> Covered(absorbs, b, i) || absorbs(id0, i)
    ensures forall i: nat :: id0 <= i && !Covered(absorbs, b, i) && absorbs(id0, i) ==> Canon(absorbs, i) == id0
  {
    forall j: nat | b <= j < id0 ensures !Seeded(absorbs, j) {
      assert Covered(absorbs, b, j);
      var w: nat :| w < b && Seeded(absorbs, w) && absorbs(w, j);
    }
    forall i: nat ensures Covered(absorbs, id0 + 1, i) <==> Covered(absorbs, b, i) || absorbs(id0, i) {
      if Covered(absorbs, id0 + 1, i) {
        var w: nat :| w < id0 + 1 && Seeded(absorbs, w) && absorbs(w, i);
        assert w < b || w == id0;
      }
      if Covered(absorbs, b, i) {
        var w: nat :| w < b && Seeded(absorbs, w) && absorbs(w, i);
        assert w < id0 + 1;
      }
      if absorbs(id0, i) {
        assert id0 < id0 + 1 && Seeded(absorbs, id0);
      }
    }
    forall i: nat | id0 <= i && !Covered(absorbs, b, i) && absorbs(id0, i) ensures Canon(absorbs, i) == id0 {
      var c := Canon(absorbs, i);
      assert forall j: nat :: j < id0 ==> !(Seeded(absorbs, j) && absorbs(j, i));
      assert c >= id0;
    }
  }

  /** The mapping the greedy clustering produces: each barcode to the barcode
      at its canonical rank. */
  ghost function CanonMap(pool: seq<string>, absorbs: (nat, nat) -> bool): (m: map<string, string>)
    requires Distinct(pool)
    ensures forall s :: s in m <==> s in pool
  {
    map s | s in pool :: pool[CanonIndex(pool, absorbs, s)]
  }

  ghost function CanonIndex(pool: seq<string>, absorbs: (nat, nat) -> bool, s: string): (c: nat)
    requires s in pool && Distinct(pool)
    ensures c < |pool| || c == IndexOf(pool, s)
  {
    var i := IndexOf(pool, s);
    CanonFromBound(absorbs, i);
    Canon(absorbs, i)
  }

  lemma CanonFromBound(absorbs: (nat, nat) -> bool, i: nat)
    ensures Canon(absorbs, i) <= i
  {
  }

  /** The greedy mapping is defined exactly on the pool and sends the barcode
      at rank `i` to the barcode at rank `Canon(i)`. */
  lemma CanonMapAt(pool: seq<string>, absorbs: (nat, nat) -> bool, i: nat)
    requires Distinct(pool) && i < |pool|
    ensures pool[i] in CanonMap(pool, absorbs)
    ensures Canon(absorbs, i) <= i
    ensures CanonMap(pool, absorbs)[pool[i]] == pool[Canon(absorbs, i)]
  {
    IndexOfDistinct(pool, i);
  }

  /** For a reflexive rule, the barcode at rank `i` is sent to the barcode at
      an earlier-or-equal rank whose seed absorbs it, and that barcode is sent
      to itself. */
  lemma CanonMapFacts(pool: seq<string>, absorbs: (nat, nat) -> bool, i: nat)
    requires Distinct(pool) && Reflexive(absorbs, |pool|) && i < |pool|
    ensures Canon(absorbs, i) <= i
    ensures absorbs(Canon(absorbs, i), i)
    ensures pool[i] in CanonMap(pool, absorbs) && CanonMap(pool, absorbs)[pool[i]] == pool[Canon(absorbs, i)]
    ensures CanonMap(pool, absorbs)[pool[Canon(absorbs, i)]] == pool[Canon(absorbs, i)]
  {
    CanonProperties(absorbs, |pool|, i);
    CanonMapAt(pool, absorbs, i);
    CanonMapAt(pool, absorbs, Canon(absorbs, i));
  }

  /** The greedy mapping is defined on the pool and maps into it. */
  lemma CanonMapKeys(pool: seq<string>, absorbs: (nat, nat) -> bool, s: string)
    requires Distinct(pool)
    ensures s in CanonMap(pool, absorbs) <==> s in pool
    ensures s in pool ==> CanonMap(pool, absorbs)[s] in pool
  {
  }

  /** The state of the greedy loop once every seed before `b` has been
      processed: a rank is still unassigned exactly when no seed before `b`
      absorbs it, every rank before `b` is assigned, and the assigned
      barcodes are the keys of the mapping, each sent to its canonical
      barcode. */
  ghost predicate Processed(pool: seq<string>, absorbs: (nat, nat) -> bool, b: nat,
                            remaining: seq<bool>, mapping: map<string, string>)
    requires Distinct(pool)
  {
    && |remaining| == |pool| && b <= |pool|
    && (forall i :: 0 <= i < |pool| ==> (remaining[i] <==> !Covered(absorbs, b, i)))
    && (forall i :: 0 <= i < b ==> !remaining[i])
    && (forall i :: 0 <= i < |pool| && !remaining[i] ==>
          pool[i] in mapping && Canon(absorbs, i) < |pool| && mapping[pool[i]] == pool[Canon(absorbs, i)])
    && (forall s :: s in mapping ==> s in pool && !remaining[IndexOf(pool, s)])
  }

  /** The first unassigned position. */
  method FirstRemaining(remaining: array<bool>) returns (i: nat)
    requires exists j :: 0 <= j < remaining.Length && remaining[j]
    ensures i < remaining.Length && remaining[i]
    ensures forall j :: 0 <= j < i ==> !remaining[j]
  {
    i := 0;
    while !remaining[i]
      invariant i < remaining.Length
      invariant forall j :: 0 <= j < i ==> !remaining[j]
      invariant exists j :: i <= j < remaining.Length && remaining[j]
      decreases remaining.Length - i
    {
      i := i + 1;
    }
  }

  /** Whether any position is still unassigned. */
  method AnyRemaining(remaining: array<bool>) returns (any: bool)
    ensures any <==> exists j :: 0 <= j < remaining.Length && remaining[j]
  {
    any := false;
    for i := 0 to remaining.Length
      invariant any <==> exists j :: 0 <= j < i && remaining[j]
    {
      if remaining[i] {
        any := true;
      }
    }
  }

  /** The effect of a round for the seed at rank `id0`, from flags `rem0` and
      mapping `map0` to `rem1` and `map1`: the unassigned ranks the seed
      absorbs are now assigned, every assigned barcode is mapped to the seed
      if this round assigned it and as before otherwise, and only assigned
      pool barcodes are keys. */
  ghost predicate Absorbed(pool: seq<string>, absorbs: (nat, nat) -> bool, id0: nat,
                           rem0: seq<bool>, map0: map<string, string>, rem1: seq<bool>, map1: map<string, string>)
    requires |rem0| == |pool| && |rem1| == |pool| && id0 < |pool|
    requires forall i :: 0 <= i < |pool| && !rem0[i] ==> pool[i] in map0
  {
    && (forall i :: 0 <= i < |pool| ==> rem1[i] == (rem0[i] && !absorbs(id0, i)))
    && (forall i :: 0 <= i < |pool| && !rem1[i] ==>
          pool[i] in map1 && map1[pool[i]] == (if rem0[i] then pool[id0] else map0[pool[i]]))
    && (forall s :: s in map1 ==> s in pool && !rem1[IndexOf(pool, s)])
  }

  /** One round of the greedy loop: every unassigned barcode that the seed
      at rank `id0` absorbs is mapped to the seed and marked assigned; the
      other entries are left as they were. */
  method AbsorbRound(pool: seq<string>, absorbs: (nat, nat) -> bool, remaining: array<bool>,
                     mapping0: map<string, string>, id0: nat) returns (mapping: map<string, string>)
    requires Distinct(pool) && remaining.Length == |pool| && id0 < |pool|
    requires forall i :: 0 <= i < |pool| && !remaining[i] ==> pool[i] in mapping0
    requires forall s :: s in mapping0 ==> s in pool && !remaining[IndexOf(pool, s)]
    modifies remaining
    ensures Absorbed(pool, absorbs, id0, old(remaining[..]), mapping0, remaining[..], mapping)
  {
    ghost var rem0 := remaining[..];
    mapping := mapping0;
    for k := 0 to |pool|
      invariant AbsorbedUpTo(pool, absorbs, id0, rem0, mapping0, remaining[..], mapping, k)
    {
      AbsorbStep(pool, absorbs, id0, rem0, mapping0, remaining[..], mapping, k);
      if remaining[k] && absorbs(id0, k) {
        ghost var before := remaining[..];
        mapping := mapping[pool[k] := pool[id0]];
        remaining[k] := false;
        assert remaining[..] == before[k := false];
      }
    }
  }

  /** The state of a round after the first `k` ranks: `Absorbed` for the
      ranks before `k`, with the later flags as they were. */
  ghost predicate AbsorbedUpTo(pool: seq<string>, absorbs: (nat, nat) -> bool, id0: nat,
                               rem0: seq<bool>, map0: map<string, string>,
                               rem: seq<bool>, mapping: map<string, string>, k: int)
    requires |rem0| == |pool| && |rem| == |pool| && id0 < |pool|
    requires forall i :: 0 <= i < |pool| && !rem0[i] ==> pool[i] in map0
  {
    && (forall i :: 0 <= i < k && i < |pool| ==> rem[i] == (rem0[i] && !absorbs(id0, i)))
    && (forall i :: k <= i < |pool| && 0 <= i ==> rem[i] == rem0[i])
    && (forall i :: 0 <= i < |pool| && !rem[i] ==>
          pool[i] in mapping && mapping[pool[i]] == (if rem0[i] then pool[id0] else map0[pool[i]]))
    && (forall s :: s in mapping ==> s in pool && !rem[IndexOf(pool, s)])
  }

  /** Looking at rank `k` keeps the round's state. */
  lemma AbsorbStep(pool: seq<string>, absorbs: (nat, nat) -> bool, id0: nat,
                   rem0: seq<bool>, map0: map<string, string>,
                   rem: seq<bool>, mapping: map<string, string>, k: nat)
    requires |rem0| == |pool| && |rem| == |pool| && id0 < |pool| && Distinct(pool) && k < |pool|
    requires forall i :: 0 <= i < |pool| && !rem0[i] ==> pool[i] in map0
    requires AbsorbedUpTo(pool, absorbs, id0, rem0, map0, rem, mapping, k)
    ensures rem[k] && absorbs(id0, k) ==>
              AbsorbedUpTo(pool, absorbs, id0, rem0, map0, rem[k := false], mapping[pool[k] := pool[id0]], k + 1)
    ensures !(rem[k] && absorbs(id0, k)) ==>
              AbsorbedUpTo(pool, absorbs, id0, rem0, map0, rem, mapping, k + 1)
  {
    if rem[k] && absorbs(id0, k) {
      AbsorbHit(pool, absorbs, id0, rem0, map0, rem, mapping, k);
    }
  }

  /** Assigning rank `k` to the seed keeps the round's state. */
  lemma AbsorbHit(pool: seq<string>, absorbs: (nat, nat) -> bool, id0: nat,
                  rem0: seq<bool>, map0: map<string, string>,
                  rem: seq<bool>, mapping: map<string, string>, k: nat)
    requires |rem0| == |pool| && |rem| == |pool| && id0 < |pool| && Distinct(pool) && k < |pool|
    requires forall i :: 0 <= i < |pool| && !rem0[i] ==> pool[i] in map0
    requires AbsorbedUpTo(pool, absorbs, id0, rem0, map0, rem, mapping, k)
    requires rem[k] && absorbs(id0, k)
    ensures AbsorbedUpTo(pool, absorbs, id0, rem0, map0, rem[k := false], mapping[pool[k] := pool[id0]], k + 1)
  {
    AbsorbFlags(absorbs, id0, rem0, rem, k);
    AssignMapped(pool, pool[id0], rem0, map0, rem, mapping, k);
    AssignKeys(pool, pool[id0], rem, mapping, k);
  }

  /** Assigning rank `k` leaves the flags up to `k` as the round makes them
      and the later ones as they were. */
  lemma AbsorbFlags(absorbs: (nat, nat) -> bool, id0: nat, rem0: seq<bool>, rem: seq<bool>, k: nat)
    requires |rem0| == |rem| && k < |rem|
    requires forall i :: 0 <= i < k ==> rem[i] == (rem0[i] && !absorbs(id0, i))
    requires forall i :: k <= i < |rem| ==> rem[i] == rem0[i]
    requires rem[k] && absorbs(id0, k)
    ensures forall i :: 0 <= i < k + 1 && i < |rem| ==> rem[k := false][i] == (rem0[i] && !absorbs(id0, i))
    ensures forall i :: k + 1 <= i < |rem| && 0 <= i ==> rem[k := false][i] == rem0[i]
  {
  }

  /** The conjuncts of `Processed`, one by one. */
  lemma ProcessedIntro(pool: seq<string>, absorbs: (nat, nat) -> bool, b: nat,
                       remaining: seq<bool>, mapping: map<string, string>)
    requires Distinct(pool) && |remaining| == |pool| && b <= |pool|
    requires forall i :: 0 <= i < |pool| ==> (remaining[i] <==> !Covered(absorbs, b, i))
    requires forall i :: 0 <= i < b ==> !remaining[i]
    requires forall i :: 0 <= i < |pool| && !remaining[i] ==>
               pool[i] in mapping && Canon(absorbs, i) < |pool| && mapping[pool[i]] == pool[Canon(absorbs, i)]
    requires forall s :: s in mapping ==> s in pool && !remaining[IndexOf(pool, s)]
    ensures Processed(pool, absorbs, b, remaining, mapping)
  {
  }

  /** The facts about the seed of a round: it is not before `b`, and every
      rank between `b` and the seed is already covered. */
  lemma SeedAfterProcessed(pool: seq<string>, absorbs: (nat, nat) -> bool, b: nat, id0: nat,
                           rem0: seq<bool>, map0: map<string, string>)
    requires Distinct(pool)
    requires Processed(pool, absorbs, b, rem0, map0)
    requires id0 < |pool| && rem0[id0] && forall j :: 0 <= j < id0 ==> !rem0[j]
    ensures b <= id0
    ensures !Covered(absorbs, b, id0)
    ensures forall j: nat :: b <= j < id0 ==> Covered(absorbs, b, j)
    ensures forall i :: 0 <= i < |pool| ==> (rem0[i] <==> !Covered(absorbs, b, i))
  {
    assert b <= id0;
    forall j: nat | b <= j < id0 ensures Covered(absorbs, b, j) {
      assert !rem0[j];
    }
  }

  /** After a round the unassigned ranks are those no seed before `id0 + 1`
      covers. */
  lemma StepRemaining(absorbs: (nat, nat) -> bool, n: nat, b: nat, id0: nat, rem0: seq<bool>, rem1: seq<bool>)
    requires |rem0| == n && |rem1| == n
    requires forall i :: 0 <= i < n ==> (rem0[i] <==> !Covered(absorbs, b, i))
    requires forall i :: 0 <= i < n ==> rem1[i] == (rem0[i] && !absorbs(id0, i))
    requires forall i: nat :: Covered(absorbs, id0 + 1, i) <==> Covered(absorbs, b, i) || absorbs(id0, i)
    ensures forall i :: 0 <= i < n ==> (rem1[i] <==> !Covered(absorbs, id0 + 1, i))
  {
    forall i | 0 <= i < n
      ensures rem1[i] <==> !Covered(absorbs, id0 + 1, i)
    {
    }
  }

  /** After a round every rank up to the seed is assigned. */
  lemma StepAssigned(absorbs: (nat, nat) -> bool, n: nat, id0: nat, rem0: seq<bool>, rem1: seq<bool>)
    requires |rem0| == n && |rem1| == n && id0 < n && Reflexive(absorbs, n)
    requires forall j :: 0 <= j < id0 ==> !rem0[j]
    requires forall i :: 0 <= i < n ==> rem1[i] == (rem0[i] && !absorbs(id0, i))
    ensures forall i :: 0 <= i < id0 + 1 ==> !rem1[i]
  {
    assert absorbs(id0, id0);
  }

  /** After a round every assigned barcode is mapped to its canonical one. */
  lemma StepMapping(pool: seq<string>, absorbs: (nat, nat) -> bool, b: nat, id0: nat,
                    rem0: seq<bool>, map0: map<string, string>, rem1: seq<bool>, map1: map<string, string>)
    requires |rem0| == |pool| && |rem1| == |pool| && id0 < |pool|
    requires forall j :: 0 <= j < id0 ==> !rem0[j]
    requires forall i :: 0 <= i < |pool| ==> (rem0[i] <==> !Covered(absorbs, b, i))
    requires forall i :: 0 <= i < |pool| && !rem0[i] ==>
               pool[i] in map0 && Canon(absorbs, i) < |pool| && map0[pool[i]] == pool[Canon(absorbs, i)]
    requires forall i :: 0 <= i < |pool| ==> rem1[i] == (rem0[i] && !absorbs(id0, i))
    requires forall i :: 0 <= i < |pool| && !rem1[i] ==>
               pool[i] in map1 && map1[pool[i]] == (if rem0[i] then pool[id0] else map0[pool[i]])
    requires forall i: nat :: id0 <= i && !Covered(absorbs, b, i) && absorbs(id0, i) ==> Canon(absorbs, i) == id0
    ensures forall i :: 0 <= i < |pool| && !rem1[i] ==>
              pool[i] in map1 && Canon(absorbs, i) < |pool| && map1[pool[i]] == pool[Canon(absorbs, i)]
  {
    forall i | 0 <= i < |pool| && !rem1[i]
      ensures pool[i] in map1 && Canon(absorbs, i) < |pool| && map1[pool[i]] == pool[Canon(absorbs, i)]
    {
      if rem0[i] {
        assert i >= id0 && absorbs(id0, i);
        assert Canon(absorbs, i) == id0;
      }
    }
  }

  /** A round started at the first unassigned rank takes the loop state from
      "seeds before `b` processed" to "seeds before `id0 + 1` processed". */
  lemma ProcessedStep(pool: seq<string>, absorbs: (nat, nat) -> bool, b: nat, id0: nat,
                      rem0: seq<bool>, map0: map<string, string>, rem1: seq<bool>, map1: map<string, string>)
    requires Distinct(pool) && Reflexive(absorbs, |pool|)
    requires Processed(pool, absorbs, b, rem0, map0)
    requires id0 < |pool| && rem0[id0] && forall j :: 0 <= j < id0 ==> !rem0[j]
    requires |rem1| == |pool|
    requires forall i :: 0 <= i < |pool| ==> rem1[i] == (rem0[i] && !absorbs(id0, i))
    requires forall i :: 0 <= i < |pool| && !rem1[i] ==>
               pool[i] in map1 && map1[pool[i]] == (if rem0[i] then pool[id0] else map0[pool[i]])
    requires forall s :: s in map1 ==> s in pool && !rem1[IndexOf(pool, s)]
    ensures b <= id0
    ensures Processed(pool, absorbs, id0 + 1, rem1, map1)
  {
    var n := |pool|;
    SeedAfterProcessed(pool, absorbs, b, id0, rem0, map0);
    AdvanceSeed(absorbs, b, id0);
    StepRemaining(absorbs, n, b, id0, rem0, rem1);
    StepAssigned(absorbs, n, id0, rem0, rem1);
    StepMapping(pool, absorbs, b, id0, rem0, map0, rem1, map1);
    ProcessedIntro(pool, absorbs, id0 + 1, rem1, map1);
  }

  /** Once every rank is assigned, the mapping is the greedy mapping. */
  lemma ProcessedDone(pool: seq<string>, absorbs: (nat, nat) -> bool, b: nat,
                      rem: seq<bool>, mapping: map<string, string>)
    requires Distinct(pool)
    requires Processed(pool, absorbs, b, rem, mapping)
    requires forall i :: 0 <= i < |pool| ==> !rem[i]
    ensures mapping == CanonMap(pool, absorbs)
  {
    var cm := CanonMap(pool, absorbs);
    DoneKeys(pool, absorbs, b, rem, mapping);
    DoneValues(pool, absorbs, b, rem, mapping);
    SameEntries(mapping, cm);
  }

  /** Once every rank is assigned, each key is mapped as the greedy mapping
      maps it. */
  lemma DoneValues(pool: seq<string>, absorbs: (nat, nat) -> bool, b: nat,
                   rem: seq<bool>, mapping: map<string, string>)
    requires Distinct(pool)
    requires Processed(pool, absorbs, b, rem, mapping)
    requires forall i :: 0 <= i < |pool| ==> !rem[i]
    ensures forall s :: s in mapping ==> s in CanonMap(pool, absorbs) && mapping[s] == CanonMap(pool, absorbs)[s]
  {
    forall s | s in mapping ensures s in CanonMap(pool, absorbs) && mapping[s] == CanonMap(pool, absorbs)[s] {
      CanonMapAt(pool, absorbs, IndexOf(pool, s));
    }
  }

  /** Two maps with the same keys and the same value at each key are equal. */
  lemma SameEntries(m1: map<string, string>, m2: map<string, string>)
    requires forall s :: s in m1 <==> s in m2
    requires forall s :: s in m1 ==> m1[s] == m2[s]
    ensures m1 == m2
  {
  }

  /** Once every rank is assigned, the keys of the mapping are the pool. */
  lemma DoneKeys(pool: seq<string>, absorbs: (nat, nat) -> bool, b: nat,
                 rem: seq<bool>, mapping: map<string, string>)
    requires Distinct(pool)
    requires Processed(pool, absorbs, b, rem, mapping)
    requires forall i :: 0 <= i < |pool| ==> !rem[i]
    ensures forall s :: s in mapping <==> s in pool
  {
    forall s | s in pool ensures s in mapping {
      assert !rem[IndexOf(pool, s)];
    }
  }

  /** The loop state before a round satisfies what a round needs. */
  lemma RoundReady(pool: seq<string>, absorbs: (nat, nat) -> bool, refl: bool, b: nat,
                   rem0: seq<bool>, map0: map<string, string>)
    requires Distinct(pool) && |rem0| == |pool|
    requires refl ==> Processed(pool, absorbs, b, rem0, map0)
    requires !refl ==> (forall i :: 0 <= i < |pool| ==> rem0[i]) && map0 == map[]
    ensures forall i :: 0 <= i < |pool| && !rem0[i] ==> pool[i] in map0
    ensures forall s :: s in map0 ==> s in pool && !rem0[IndexOf(pool, s)]
  {
  }

  /** The loop state after a round: for a reflexive rule the processed
      boundary moves past the seed; for a rule that absorbs nothing the round
      changes nothing. */
  lemma RoundStep(pool: seq<string>, absorbs: (nat, nat) -> bool, refl: bool, b: nat, id0: nat,
                  rem0: seq<bool>, map0: map<string, string>, rem1: seq<bool>, map1: map<string, string>)
    requires Distinct(pool) && refl == Reflexive(absorbs, |pool|) && (refl || Never(absorbs, |pool|))
    requires |rem0| == |pool|
    requires refl ==> Processed(pool, absorbs, b, rem0, map0)
    requires !refl ==> (forall i :: 0 <= i < |pool| ==> rem0[i]) && map0 == map[]
    requires id0 < |pool| && rem0[id0] && forall j :: 0 <= j < id0 ==> !rem0[j]
    requires |rem1| == |pool|
    requires forall i :: 0 <= i < |pool| && !rem0[i] ==> pool[i] in map0
    requires Absorbed(pool, absorbs, id0, rem0, map0, rem1, map1)
    ensures refl ==> b < id0 + 1 && Processed(pool, absorbs, id0 + 1, rem1, map1)
    ensures !refl ==> (forall i :: 0 <= i < |pool| ==> rem1[i]) && map1 == map[]
  {
    if refl {
      ProcessedStep(pool, absorbs, b, id0, rem0, map0, rem1, map1);
    } else {
      assert forall i :: 0 <= i < |pool| ==> rem1[i];
      assert forall s :: s !in map1;
    }
  }

  /** One round of the greedy loop with its bookkeeping; also reports whether
      any rank is still unassigned. */
  method GreedyRound(pool: seq<string>, absorbs: (nat, nat) -> bool, remaining: array<bool>,
                     mapping0: map<string, string>, ghost refl: bool, ghost b: nat)
    returns (mapping: map<string, string>, ghost b1: nat, any: bool)
    requires Distinct(pool) && remaining.Length == |pool|
    requires refl == Reflexive(absorbs, |pool|) && (refl || Never(absorbs, |pool|))
    requires exists i :: 0 <= i < |pool| && remaining[i]
    requires refl ==> Processed(pool, absorbs, b, remaining[..], mapping0)
    requires !refl ==> (forall i :: 0 <= i < |pool| ==> remaining[i]) && mapping0 == map[]
    modifies remaining
    ensures refl ==> b < b1 && Processed(pool, absorbs, b1, remaining[..], mapping)
    ensures !refl ==> (forall i :: 0 <= i < |pool| ==> remaining[i]) && mapping == map[]
    ensures any <==> exists i :: 0 <= i < |pool| && remaining[i]
  {
    var id0 := FirstRemaining(remaining);
    ghost var rem0 := remaining[..];
    RoundReady(pool, absorbs, refl, b, rem0, mapping0);
    mapping := AbsorbRound(pool, absorbs, remaining, mapping0, id0);
    RoundStep(pool, absorbs, refl, b, id0, rem0, mapping0, remaining[..], mapping);
    b1 := if refl then id0 + 1 else b;
    any := AnyRemaining(remaining);
  }

  /** The greedy loop. At most `|pool|` rounds: each round takes the first
      unassigned rank as the seed, maps every unassigned barcode the seed
      absorbs to the seed, marks them assigned, and stops when nothing is
      left. For a reflexive rule the result is the declarative greedy
      mapping; for a rule that absorbs nothing (the Hamming rule with a
      negative threshold) no round makes progress and the mapping stays
      empty. */
  method SeedAndAbsorb(pool: seq<string>, absorbs: (nat, nat) -> bool) returns (mapping: map<string, string>)
    requires Distinct(pool)
    requires Reflexive(absorbs, |pool|) || Never(absorbs, |pool|)
    ensures Reflexive(absorbs, |pool|) ==> mapping == CanonMap(pool, absorbs)
    ensures Never(absorbs, |pool|) ==> mapping == map[]
  {
    var n := |pool|;
    var remaining := new bool[n](_ => true);
    mapping := map[];
    ghost var refl := Reflexive(absorbs, n);
    ghost var b: nat := 0;
    ghost var finished := false;
    assert n > 0 ==> remaining[0];
    for it := 0 to n
      invariant refl ==> it <= b && Processed(pool, absorbs, b, remaining[..], mapping)
      invariant !refl ==> (forall i :: 0 <= i < n ==> remaining[i]) && mapping == map[]
      invariant it < n ==> exists i :: 0 <= i < n && remaining[i]
      invariant !finished
    {
      var any;
      mapping, b, any := GreedyRound(pool, absorbs, remaining, mapping, refl, b);
      if !any {
        if refl {
          ProcessedDone(pool, absorbs, b, remaining[..], mapping);
        }
        finished := true;
        break;
      }
    }
    if refl && !finished {
      ghost var rem := remaining[..];
      assert b == n && Processed(pool, absorbs, b, rem, mapping);
      ProcessedDone(pool, absorbs, b, rem, mapping);
    }
  }
}
