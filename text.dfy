/** The Python string operations the CARLIN read processing relies on:
    substring membership (`p in s`), `str.find`, the first and second pieces
    of `str.split(sep)`, and slicing with negative and out-of-range bounds. */
module Text {
  import opened Wrappers

  /** `p` occurs in `s` starting at position `i`. */
  predicate OccursAt(s: string, p: string, i: int)
  {
    0 <= i && i + |p| <= |s| && s[i..i + |p|] == p
  }

  /** Python's `p in s`; the empty text occurs in every text. */
  predicate Contains(s: string, p: string)
  {
    exists i :: 0 <= i <= |s| && OccursAt(s, p, i)
  }

  /** The first occurrence of `p` in `s` at or after `k`. */
  function FindFrom(s: string, p: string, k: nat): (r: Option<nat>)
    requires k <= |s|
    ensures r.Some? ==> k <= r.value <= |s| && OccursAt(s, p, r.value)
    ensures r.Some? ==> forall j :: k <= j < r.value ==> !OccursAt(s, p, j)
    ensures r.None? ==> forall j :: k <= j <= |s| ==> !OccursAt(s, p, j)
    decreases |s| - k
  {
    if OccursAt(s, p, k) then Some(k)
    else if k == |s| then None
    else FindFrom(s, p, k + 1)
  }

  /** Python's `s.find(p)`, with `None` for -1: the first occurrence, found
      exactly when `p in s`. */
  function Find(s: string, p: string): (r: Option<nat>)
    ensures r.Some? <==> Contains(s, p)
    ensures r.Some? ==> OccursAt(s, p, r.value) && forall j :: 0 <= j < r.value ==> !OccursAt(s, p, j)
  {
    FindFrom(s, p, 0)
  }

  /** An occurrence with none before it is the one `find` returns. */
  lemma FindFirst(s: string, p: string, i: nat)
    requires OccursAt(s, p, i) && forall j :: 0 <= j < i ==> !OccursAt(s, p, j)
    ensures Find(s, p) == Some(i)
  {
  }

  /** With no occurrence before `n`, `find` returns none or one at `n` or after. */
  lemma FindNotBefore(s: string, p: string, n: nat)
    requires forall j :: 0 <= j < n ==> !OccursAt(s, p, j)
    ensures Find(s, p).Some? ==> Find(s, p).value >= n
  {
  }

  /** `s.split(sep)[0]`: the text before the first occurrence of `sep`, or the
      whole text when there is none. */
  function SplitFirst(s: string, sep: string): (r: string)
    requires sep != ""
    ensures r <= s
    ensures r == s <==> !Contains(s, sep)
  {
    match Find(s, sep)
    case Some(i) => s[..i]
    case None => s
  }

  /** With no occurrence of `sep` starting before `n`, `s.split(sep)[0]` is
      a prefix of `s` at least `n` long. */
  lemma SplitFirstKeeps(s: string, sep: string, n: nat)
    requires sep != "" && n <= |s|
    requires forall j :: 0 <= j < n ==> !OccursAt(s, sep, j)
    ensures SplitFirst(s, sep) <= s && |SplitFirst(s, sep)| >= n
  {
    FindNotBefore(s, sep, n);
  }

  /** `s.split(sep)[1]`: the piece after the first occurrence of `sep`, up to
      the next one; `None` when `sep` does not occur, where Python raises
      `IndexError`. */
  function SplitSecond(s: string, sep: string): (r: Option<string>)
    requires sep != ""
    ensures r.Some? <==> Contains(s, sep)
    ensures r.Some? ==> |r.value| + |sep| <= |s|
  {
    match Find(s, sep)
    case Some(i) => Some(SplitFirst(s[i + |sep|..], sep))
    case None => None
  }

  /** With the first occurrence of `p` ending where `a` ends, the second
      piece of the split of `a + r` is the first piece of the split of `r`. */
  lemma SecondAfter(a: string, r: string, p: string)
    requires p != "" && |p| <= |a| && Find(a + r, p) == Some(|a| - |p|)
    ensures SplitSecond(a + r, p) == Some(SplitFirst(r, p))
  {
    assert (a + r)[|a|..] == r;
  }

  /** `s.split(sep)[0]` is the prefix of `s` that ends where `sep` first
      starts or at the end, and no occurrence of `sep` starts inside it; this
      pins it down: any prefix ending that way is it. */
  lemma SplitFirstIff(s: string, sep: string, q: string)
    requires sep != ""
    ensures q == SplitFirst(s, sep) <==>
              && q <= s
              && (forall k :: 0 <= k < |q| ==> !OccursAt(s, sep, k))
              && (|q| == |s| || OccursAt(s, sep, |q|))
  {
    if q <= s && (forall k :: 0 <= k < |q| ==> !OccursAt(s, sep, k)) && (|q| == |s| || OccursAt(s, sep, |q|)) {
      if |q| < |s| {
        FindFirst(s, sep, |q|);
      }
    }
  }

  /** Occurrences in a suffix are the occurrences in the whole text, shifted. */
  lemma OccursInSuffix(s: string, p: string, n: nat, k: int)
    requires n <= |s|
    ensures OccursAt(s[n..], p, k) <==> k >= 0 && OccursAt(s, p, n + k)
  {
    if k >= 0 && k + |p| <= |s| - n {
      assert s[n..][k..k + |p|] == s[n + k..n + k + |p|];
    }
  }

  /** Occurrences in a prefix are the occurrences that end inside it. */
  lemma OccursInPrefix(s: string, p: string, n: nat, k: int)
    requires n <= |s|
    ensures OccursAt(s[..n], p, k) <==> OccursAt(s, p, k) && k + |p| <= n
  {
    if 0 <= k && k + |p| <= n {
      assert s[..n][k..k + |p|] == s[k..k + |p|];
    }
  }

  /** A text with no occurrence of `p` starting at any of its positions does
      not contain `p` unless `p` is empty. */
  lemma NotContains(s: string, p: string)
    requires p != "" && forall k :: 0 <= k < |s| ==> !OccursAt(s, p, k)
    ensures !Contains(s, p)
  {
  }

  /** A Python slice bound normalised against a length: a negative bound
      counts from the end, and the result is clamped to `0..len`. */
  function SliceBound(b: int, len: nat): (r: nat)
    ensures r <= len
    ensures 0 <= b <= len ==> r == b
    ensures b > len ==> r == len
    ensures b < 0 && b + len >= 0 ==> r == b + len
    ensures b + len < 0 ==> r == 0
  {
    if b < 0 then (if b + len < 0 then 0 else b + len)
    else if b > len then len
    else b
  }

  /** Python's `s[start:stop]`, empty when the bounds cross: the piece of
      `s` from the normalised start up to the normalised stop. */
  function Slice(s: string, start: int, stop: int): (r: string)
    ensures var i, j := SliceBound(start, |s|), SliceBound(stop, |s|);
            && |r| == (if i <= j then j - i else 0)
            && i + |r| <= |s|
            && forall k :: 0 <= k < |r| ==> r[k] == s[i + k]
  {
    var i := SliceBound(start, |s|);
    var j := SliceBound(stop, |s|);
    if i <= j then s[i..j] else ""
  }

  /** `s[-n:]`: the last `n` characters for `0 < n`, all of them when `n` is
      at least the length, the whole text for `n == 0` (since `-0 == 0`),
      and the text without its first `-n` characters for negative `n`; it is
      always a suffix. */
  lemma SliceLastFacts(s: string, n: int)
    ensures var r := Slice(s, -n, |s|);
            && r == s[|s| - |r|..]
            && (0 < n <= |s| ==> |r| == n)
            && (n > |s| ==> r == s)
            && (n == 0 ==> r == s)
            && (n < 0 ==> |r| == (if -n >= |s| then 0 else |s| + n))
  {
  }

  /** `s[:n]`: the first `n` characters for `0 <= n`, all of them when `n`
      is at least the length, and the text without its last `-n` characters
      for negative `n`; it is always a prefix. */
  lemma SliceFirstFacts(s: string, n: int)
    ensures var r := Slice(s, 0, n);
            && r <= s
            && (0 <= n <= |s| ==> |r| == n)
            && (n > |s| ==> r == s)
            && (n < 0 ==> |r| == (if -n >= |s| then 0 else |s| + n))
  {
  }

  /** The pieces joined back with the separator. */
  function JoinWith(pieces: seq<string>, sep: char): string
  {
    if |pieces| == 0 then ""
    else if |pieces| == 1 then pieces[0]
    else pieces[0] + [sep] + JoinWith(pieces[1..], sep)
  }

  /** Python's `s.split(sep)` for a one-character separator: the pieces
      between the separators, one more than there are separators, so the
      empty text gives one empty piece. */
  function SplitOn(s: string, sep: char): (r: seq<string>)
    ensures |r| >= 1
    ensures forall i :: 0 <= i < |r| ==> sep !in r[i]
  {
    if |s| == 0 then [""]
    else
      var rest := SplitOn(s[1..], sep);
      if s[0] == sep then [""] + rest
      else [[s[0]] + rest[0]] + rest[1..]
  }

  /** Joining the pieces of a split gives the text back. */
  lemma {:induction false} SplitJoin(s: string, sep: char)
    ensures JoinWith(SplitOn(s, sep), sep) == s
  {
    if |s| > 0 {
      var rest := SplitOn(s[1..], sep);
      SplitJoin(s[1..], sep);
      if s[0] == sep {
        assert ([""] + rest)[1..] == rest;
        assert s == [s[0]] + s[1..];
      } else {
        var r := [[s[0]] + rest[0]] + rest[1..];
        if |rest| == 1 {
          assert s == [s[0]] + s[1..];
        } else {
          assert r[1..] == rest[1..];
          assert JoinWith(rest, sep) == rest[0] + [sep] + JoinWith(rest[1..], sep);
          assert s == [s[0]] + s[1..];
        }
      }
    }
  }

  /** Splitting the join of pieces free of the separator gives the pieces
      back. */
  lemma {:induction false} JoinSplit(pieces: seq<string>, sep: char)
    requires |pieces| >= 1 && forall i :: 0 <= i < |pieces| ==> sep !in pieces[i]
    ensures SplitOn(JoinWith(pieces, sep), sep) == pieces
    decreases |JoinWith(pieces, sep)|, |pieces|
  {
    var j := JoinWith(pieces, sep);
    if |pieces| == 1 {
      PieceSplit(pieces[0], sep);
    } else {
      var tail := pieces[1..];
      JoinSplit(tail, sep);
      SplitPrefix(pieces[0], JoinWith(tail, sep), sep);
      assert pieces == [pieces[0]] + tail;
    }
  }

  /** A piece free of the separator splits into itself. */
  lemma {:induction false} PieceSplit(p: string, sep: char)
    requires sep !in p
    ensures SplitOn(p, sep) == [p]
  {
    if |p| > 0 {
      PieceSplit(p[1..], sep);
      assert p == [p[0]] + p[1..];
    }
  }

  /** Splitting a piece, the separator and more text starts with the piece. */
  lemma {:induction false} SplitPrefix(p: string, rest: string, sep: char)
    requires sep !in p
    ensures SplitOn(p + [sep] + rest, sep) == [p] + SplitOn(rest, sep)
  {
    var s := p + [sep] + rest;
    if |p| == 0 {
      assert s[1..] == rest;
    } else {
      SplitPrefix(p[1..], rest, sep);
      assert s[1..] == p[1..] + [sep] + rest;
      assert p == [p[0]] + p[1..];
    }
  }
}
