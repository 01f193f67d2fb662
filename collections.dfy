/** Sequence helpers shared by the table transforms: sums, distinctness,
    first-occurrence de-duplication and group-by sums (the model of a
    pandas `groupby(...).sum()`). */
module Collections {

  /** Sum of a sequence of counts. */
  function Sum(xs: seq<nat>): nat
  {
    if |xs| == 0 then 0 else Sum(xs[..|xs| - 1]) + xs[|xs| - 1]
  }

  lemma SumAppend(xs: seq<nat>, x: nat)
    ensures Sum(xs + [x]) == Sum(xs) + x
  {
    assert (xs + [x])[..|xs|] == xs;
  }

  lemma {:induction false} SumConcat(xs: seq<nat>, ys: seq<nat>)
    ensures Sum(xs + ys) == Sum(xs) + Sum(ys)
  {
    if |ys| == 0 {
      assert xs + ys == xs;
    } else {
      var ys' := ys[..|ys| - 1];
      assert xs + ys == (xs + ys') + [ys[|ys| - 1]];
      SumAppend(xs + ys', ys[|ys| - 1]);
      SumConcat(xs, ys');
      SumAppend(ys', ys[|ys| - 1]);
      assert ys == ys' + [ys[|ys| - 1]];
    }
  }

  /** No element occurs twice. */
  predicate Distinct<T(==)>(xs: seq<T>)
  {
    forall i, j :: 0 <= i < j < |xs| ==> xs[i] != xs[j]
  }

  /** An element occurs at most once in a duplicate-free sequence. */
  lemma {:induction false} DistinctCount<T>(xs: seq<T>, x: T)
    requires Distinct(xs)
    ensures multiset(xs)[x] <= 1
  {
    if |xs| > 0 {
      assert xs == [xs[0]] + xs[1..];
      assert Distinct(xs[1..]);
      DistinctCount(xs[1..], x);
      assert x == xs[0] ==> x !in xs[1..];
    }
  }

  /** A permutation of a duplicate-free sequence is duplicate-free. */
  lemma DistinctPermutation<T>(xs: seq<T>, ys: seq<T>)
    requires Distinct(xs) && multiset(xs) == multiset(ys)
    ensures Distinct(ys)
  {
    forall a, b | 0 <= a < b < |ys| ensures ys[a] != ys[b] {
      var x := ys[b];
      assert ys == ys[..b] + [x] + ys[b + 1..];
      assert ys[..b][a] == ys[a];
      assert multiset(ys[..b])[x] >= (if ys[a] == x then 1 else 0);
      assert multiset(ys)[x] >= 1 + (if ys[a] == x then 1 else 0);
      DistinctCount(xs, x);
    }
  }

  /** A sequence without repetitions has as many elements as its set. */
  lemma {:induction false} DistinctCard<T>(xs: seq<T>)
    requires Distinct(xs)
    ensures |set x | x in xs| == |xs|
  {
    if |xs| > 0 {
      var n := |xs| - 1;
      var init := xs[..n];
      assert Distinct(init);
      DistinctCard(init);
      assert xs == init + [xs[n]];
      assert (set x | x in xs) == (set x | x in init) + {xs[n]};
      assert xs[n] !in init;
    }
  }

  /** A subset is no larger than the set containing it. */
  lemma SubsetCard<T>(a: set<T>, b: set<T>)
    requires a <= b
    ensures |a| <= |b|
  {
    assert b == a + (b - a);
    assert a * (b - a) == {};
  }

  /** The elements that `keep` accepts, in their order. */
  function Filter<T(==)>(xs: seq<T>, keep: T -> bool): (r: seq<T>)
    ensures |r| <= |xs|
    ensures forall j :: 0 <= j < |r| ==> keep(r[j]) && r[j] in xs
    ensures forall i :: 0 <= i < |xs| && keep(xs[i]) ==> xs[i] in r
  {
    if |xs| == 0 then []
    else
      var init := Filter(xs[..|xs| - 1], keep);
      var last := xs[|xs| - 1];
      assert forall i :: 0 <= i < |xs| - 1 ==> xs[..|xs| - 1][i] == xs[i];
      if keep(last) then init + [last] else init
  }

  /** The elements of `xs` without repetitions, in order of first occurrence. */
  function Uniques<T(==)>(xs: seq<T>): (u: seq<T>)
    ensures Distinct(u)
    ensures forall i :: 0 <= i < |xs| ==> xs[i] in u
    ensures forall i :: 0 <= i < |u| ==> u[i] in xs
    ensures |u| <= |xs|
  {
    if |xs| == 0 then []
    else
      var p := Uniques(xs[..|xs| - 1]);
      var x := xs[|xs| - 1];
      assert xs == xs[..|xs| - 1] + [x];
      if x in p then p else p + [x]
  }

  /** Position of `x` in `xs`, the first one when `x` occurs more than once. */
  function IndexOf<T(==)>(xs: seq<T>, x: T): (i: nat)
    requires x in xs
    ensures i < |xs| && xs[i] == x
    ensures forall j :: 0 <= j < i ==> xs[j] != x
  {
    if xs[0] == x then 0 else 1 + IndexOf(xs[1..], x)
  }

  lemma IndexOfDistinct<T>(xs: seq<T>, i: nat)
    requires Distinct(xs) && i < |xs|
    ensures IndexOf(xs, xs[i]) == i
  {
  }

  /** A pool of distinct elements, flags `rem` that are set while an element
      is unassigned, and a mapping of the assigned ones: assigning the
      element at `k` to `w` keeps every assigned element mapped to `w` when
      it was unassigned at the start (`rem0`) and as in `map0` otherwise. */
  lemma AssignMapped<T>(pool: seq<T>, w: T, rem0: seq<bool>, map0: map<T, T>,
                        rem: seq<bool>, mapping: map<T, T>, k: nat)
    requires |rem0| == |pool| == |rem| && Distinct(pool) && k < |pool| && rem0[k]
    requires forall i :: 0 <= i < |pool| && !rem0[i] ==> pool[i] in map0
    requires forall i :: 0 <= i < |pool| && !rem[i] ==>
               pool[i] in mapping && mapping[pool[i]] == (if rem0[i] then w else map0[pool[i]])
    ensures forall i :: 0 <= i < |pool| && !rem[k := false][i] ==>
              pool[i] in mapping[pool[k] := w] && mapping[pool[k] := w][pool[i]] == (if rem0[i] then w else map0[pool[i]])
  {
    forall i | 0 <= i < |pool| && i != k ensures pool[i] != pool[k] {
    }
  }

  /** Assigning the element at `k` keeps only assigned elements as keys. */
  lemma AssignKeys<T>(pool: seq<T>, w: T, rem: seq<bool>, mapping: map<T, T>, k: nat)
    requires |rem| == |pool| && Distinct(pool) && k < |pool|
    requires forall s :: s in mapping ==> s in pool && !rem[IndexOf(pool, s)]
    ensures forall s :: s in mapping[pool[k] := w] ==> s in pool && !rem[k := false][IndexOf(pool, s)]
  {
    IndexOfDistinct(pool, k);
  }

  /** Sum of the values `vs[i]` whose key `ks[i]` equals `k`. */
  function SumWhere<K(==)>(ks: seq<K>, vs: seq<nat>, k: K): nat
    requires |ks| == |vs|
  {
    if |ks| == 0 then 0
    else
      SumWhere(ks[..|ks| - 1], vs[..|vs| - 1], k)
      + (if ks[|ks| - 1] == k then vs[|vs| - 1] else 0)
  }

  lemma SumWhereAppend<K>(ks: seq<K>, vs: seq<nat>, x: K, v: nat, k: K)
    requires |ks| == |vs|
    ensures SumWhere(ks + [x], vs + [v], k) == SumWhere(ks, vs, k) + (if x == k then v else 0)
  {
    assert (ks + [x])[..|ks|] == ks;
    assert (vs + [v])[..|vs|] == vs;
  }

  lemma {:induction false} SumWhereAbsent<K>(ks: seq<K>, vs: seq<nat>, k: K)
    requires |ks| == |vs| && k !in ks
    ensures SumWhere(ks, vs, k) == 0
  {
    if |ks| > 0 {
      assert ks == ks[..|ks| - 1] + [ks[|ks| - 1]];
      SumWhereAbsent(ks[..|ks| - 1], vs[..|vs| - 1], k);
    }
  }

  /** Sum over the keys `ds` of the group sums `SumWhere(ks, vs, d)`. */
  function TotalOver<K(==)>(ds: seq<K>, ks: seq<K>, vs: seq<nat>): nat
    requires |ks| == |vs|
  {
    if |ds| == 0 then 0
    else TotalOver(ds[..|ds| - 1], ks, vs) + SumWhere(ks, vs, ds[|ds| - 1])
  }

  lemma TotalOverAppendKey<K>(ds: seq<K>, d: K, ks: seq<K>, vs: seq<nat>)
    requires |ks| == |vs|
    ensures TotalOver(ds + [d], ks, vs) == TotalOver(ds, ks, vs) + SumWhere(ks, vs, d)
  {
    assert (ds + [d])[..|ds|] == ds;
  }

  /** Adding one keyed value to the input adds it to exactly one group of a
      distinct key list that contains its key. */
  lemma {:induction false} TotalOverAppendValue<K>(ds: seq<K>, ks: seq<K>, vs: seq<nat>, x: K, v: nat)
    requires |ks| == |vs| && Distinct(ds)
    ensures TotalOver(ds, ks + [x], vs + [v]) == TotalOver(ds, ks, vs) + (if x in ds then v else 0)
  {
    if |ds| > 0 {
      var ds' := ds[..|ds| - 1];
      var d := ds[|ds| - 1];
      assert ds == ds' + [d];
      assert Distinct(ds');
      TotalOverAppendValue(ds', ks, vs, x, v);
      SumWhereAppend(ks, vs, x, v, d);
      assert x in ds <==> x in ds' || x == d;
      assert x in ds' ==> x != d;
    }
  }

  /** Grouping conserves the total: the group sums over the distinct keys add
      up to the sum of all values. */
  lemma {:induction false} GroupSumConserves<K>(ks: seq<K>, vs: seq<nat>)
    requires |ks| == |vs|
    ensures TotalOver(Uniques(ks), ks, vs) == Sum(vs)
  {
    if |ks| > 0 {
      var ks', vs' := ks[..|ks| - 1], vs[..|vs| - 1];
      var x, v := ks[|ks| - 1], vs[|vs| - 1];
      assert ks == ks' + [x] && vs == vs' + [v];
      var p := Uniques(ks');
      GroupSumConserves(ks', vs');
      TotalOverAppendValue(p, ks', vs', x, v);
      assert Sum(vs) == Sum(vs') + v;
      if x !in p {
        TotalOverAppendKey(p, x, ks', vs');
        SumWhereAbsent(ks', vs', x);
        SumWhereAppend(ks', vs', x, v, x);
      }
      UniquesSnoc(ks', x);
    }
  }

  /** One more element extends the de-duplicated sequence exactly when it is
      new. */
  lemma UniquesSnoc<T>(xs: seq<T>, x: T)
    ensures Uniques(xs + [x]) == if x in Uniques(xs) then Uniques(xs) else Uniques(xs) + [x]
  {
    assert (xs + [x])[..|xs|] == xs;
  }

  /** The group sums of the keys `ds`, one per key. */
  function GroupSums<K(==)>(ds: seq<K>, ks: seq<K>, vs: seq<nat>): (r: seq<nat>)
    requires |ks| == |vs|
    ensures |r| == |ds| && forall i :: 0 <= i < |ds| ==> r[i] == SumWhere(ks, vs, ds[i])
  {
    seq(|ds|, i requires 0 <= i < |ds| => SumWhere(ks, vs, ds[i]))
  }

  /** Adding up the group sums gives `TotalOver`. */
  lemma {:induction false} GroupSumsTotal<K>(ds: seq<K>, ks: seq<K>, vs: seq<nat>)
    requires |ks| == |vs|
    ensures Sum(GroupSums(ds, ks, vs)) == TotalOver(ds, ks, vs)
  {
    if |ds| > 0 {
      var ds' := ds[..|ds| - 1];
      GroupSumsTotal(ds', ks, vs);
      assert GroupSums(ds, ks, vs)[..|ds| - 1] == GroupSums(ds', ks, vs);
    }
  }

  /** The group-by sum: one entry per distinct key, in order of first
      occurrence, carrying the sum of the values of that key. */
  function GroupSum<K(==)>(ks: seq<K>, vs: seq<nat>): (g: seq<(K, nat)>)
    requires |ks| == |vs|
    ensures |g| == |Uniques(ks)|
    ensures forall i :: 0 <= i < |g| ==> g[i].0 == Uniques(ks)[i]
    ensures forall i :: 0 <= i < |g| ==> g[i].1 == SumWhere(ks, vs, g[i].0)
  {
    var u := Uniques(ks);
    seq(|u|, i requires 0 <= i < |u| => (u[i], SumWhere(ks, vs, u[i])))
  }

  /** The first components of a sequence of pairs. */
  function Firsts<A, B>(ps: seq<(A, B)>): (r: seq<A>)
    ensures |r| == |ps| && forall i :: 0 <= i < |ps| ==> r[i] == ps[i].0
  {
    seq(|ps|, i requires 0 <= i < |ps| => ps[i].0)
  }

  /** The second components of a sequence of pairs. */
  function Seconds<A, B>(ps: seq<(A, B)>): (r: seq<B>)
    ensures |r| == |ps| && forall i :: 0 <= i < |ps| ==> r[i] == ps[i].1
  {
    seq(|ps|, i requires 0 <= i < |ps| => ps[i].1)
  }

  /** A sequence of `n` ones. */
  function Ones(n: nat): (r: seq<nat>)
    ensures |r| == n && forall i :: 0 <= i < n ==> r[i] == 1
  {
    seq(n, _ => 1)
  }
}
