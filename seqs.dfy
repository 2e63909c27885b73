/**
 * Sequence operations the components use through JavaScript's array methods:
 * `filter`, `find`, `map`-with-replacement, and a caller-supplied reordering
 * that stands for the random `sort` shuffle.
 */
module Seqs {

  datatype Option<T> = None | Some(value: T)

  /** The elements of `s` that satisfy `keep`, in their original order (`Array.prototype.filter`). */
  function Filter<T(!new)>(s: seq<T>, keep: T -> bool): (r: seq<T>)
    ensures |r| <= |s|
    ensures forall x :: x in r <==> x in s && keep(x)
  {
    if s == [] then []
    else if keep(s[0]) then [s[0]] + Filter(s[1..], keep)
    else Filter(s[1..], keep)
  }

  /** Filtering distributes over concatenation, so order across the two halves is kept. */
  lemma {:induction false} FilterConcat<T(!new)>(a: seq<T>, b: seq<T>, keep: T -> bool)
    ensures Filter(a + b, keep) == Filter(a, keep) + Filter(b, keep)
  {
    if a == [] {
      assert a + b == b;
    } else {
      assert (a + b)[0] == a[0];
      assert (a + b)[1..] == a[1..] + b;
      FilterConcat(a[1..], b, keep);
    }
  }

  /** When every element is kept, filtering changes nothing. */
  lemma {:induction false} FilterKeepsAll<T(!new)>(s: seq<T>, keep: T -> bool)
    requires forall i :: 0 <= i < |s| ==> keep(s[i])
    ensures Filter(s, keep) == s
  {
    if s != [] {
      FilterKeepsAll(s[1..], keep);
    }
  }

  /** When no element is kept, filtering yields the empty sequence. */
  lemma {:induction false} FilterKeepsNone<T(!new)>(s: seq<T>, keep: T -> bool)
    requires forall i :: 0 <= i < |s| ==> !keep(s[i])
    ensures Filter(s, keep) == []
  {
    if s != [] {
      FilterKeepsNone(s[1..], keep);
    }
  }

  /** Filtering twice by the same test is filtering once. */
  lemma {:induction false} FilterIdempotent<T(!new)>(s: seq<T>, keep: T -> bool)
    ensures Filter(Filter(s, keep), keep) == Filter(s, keep)
  {
    var r := Filter(s, keep);
    forall i | 0 <= i < |r| ensures keep(r[i]) {
      assert r[i] in r;
    }
    FilterKeepsAll(r, keep);
  }

  /** A test and its negation split a sequence: the two filtered parts add up to the whole. */
  lemma {:induction false} FilterComplement<T(!new)>(s: seq<T>, keep: T -> bool, drop: T -> bool)
    requires forall x :: drop(x) <==> !keep(x)
    ensures |Filter(s, keep)| + |Filter(s, drop)| == |s|
  {
    if s != [] {
      FilterComplement(s[1..], keep, drop);
    }
  }

  /** Replacing one element changes the number of kept elements by what the old and new element contribute. */
  lemma {:induction false} FilterCountUpdate<T(!new)>(s: seq<T>, i: nat, y: T, keep: T -> bool)
    requires i < |s|
    ensures |Filter(s[i := y], keep)|
         == |Filter(s, keep)| - (if keep(s[i]) then 1 else 0) + (if keep(y) then 1 else 0)
  {
    var t := s[i := y];
    if i == 0 {
      assert t[1..] == s[1..];
    } else {
      assert t[0] == s[0];
      assert t[1..] == s[1..][i - 1 := y];
      FilterCountUpdate(s[1..], i - 1, y, keep);
    }
  }

  /** Index of the first element that satisfies `matches` (the search behind `Array.prototype.find`). */
  function FirstIndex<T(!new)>(s: seq<T>, matches: T -> bool): (r: Option<nat>)
    ensures r.Some? ==> r.value < |s| && matches(s[r.value])
    ensures r.Some? ==> forall j :: 0 <= j < r.value ==> !matches(s[j])
    ensures r.None? <==> forall j :: 0 <= j < |s| ==> !matches(s[j])
  {
    if s == [] then None
    else if matches(s[0]) then Some(0)
    else match FirstIndex(s[1..], matches)
      case None => None
      case Some(k) => Some(k + 1)
  }

  /** The first element that satisfies `matches`, or None (`Array.prototype.find` returning `undefined`). */
  function Find<T(!new)>(s: seq<T>, matches: T -> bool): (r: Option<T>)
    ensures r.None? <==> forall x :: x in s ==> !matches(x)
    ensures r.Some? ==> exists k :: 0 <= k < |s| && s[k] == r.value && matches(s[k])
                                  && forall j :: 0 <= j < k ==> !matches(s[j])
  {
    match FirstIndex(s, matches)
    case None => None
    case Some(k) => Some(s[k])
  }

  /** A search over `a + b` that finds nothing in `a` is the search over `b`. */
  lemma {:induction false} FindSkipsPrefix<T(!new)>(a: seq<T>, b: seq<T>, matches: T -> bool)
    requires forall x :: x in a ==> !matches(x)
    ensures Find(a + b, matches) == Find(b, matches)
  {
    if a == [] {
      assert a + b == b;
    } else {
      assert (a + b)[0] == a[0];
      assert (a + b)[1..] == a[1..] + b;
      FindSkipsPrefix(a[1..], b, matches);
      FindSkipsHead(a + b, matches);
    }
  }

  lemma FindSkipsHead<T(!new)>(s: seq<T>, matches: T -> bool)
    requires s != [] && !matches(s[0])
    ensures Find(s, matches) == Find(s[1..], matches)
  {
    match FirstIndex(s[1..], matches)
    case None =>
    case Some(k) =>
      assert s[k + 1] == s[1..][k];
  }

  /** Removing elements that fail a test leaves the search for that test unchanged. */
  lemma {:induction false} FindIgnoresRemoved<T(!new)>(s: seq<T>, keep: T -> bool, matches: T -> bool)
    requires forall x :: matches(x) ==> keep(x)
    ensures Find(Filter(s, keep), matches) == Find(s, matches)
  {
    if s != [] {
      var rest := Filter(s[1..], keep);
      FindIgnoresRemoved(s[1..], keep, matches);
      if !matches(s[0]) {
        FindSkipsHead(s, matches);
        if keep(s[0]) {
          assert ([s[0]] + rest)[1..] == rest;
          FindSkipsHead([s[0]] + rest, matches);
        }
      }
    }
  }

  /** Filtering by a stricter test after a looser one is filtering by the stricter test alone. */
  lemma {:induction false} FilterNarrower<T(!new)>(s: seq<T>, keep: T -> bool, narrow: T -> bool)
    requires forall x :: narrow(x) ==> keep(x)
    ensures Filter(Filter(s, keep), narrow) == Filter(s, narrow)
  {
    if s != [] {
      FilterNarrower(s[1..], keep, narrow);
    }
  }

  /** Searching `s + [x]` finds what `s` holds first, and `x` only when `s` holds no match. */
  lemma {:induction false} FindAppend<T(!new)>(s: seq<T>, x: T, matches: T -> bool)
    ensures Find(s + [x], matches) == match Find(s, matches)
      case Some(y) => Some(y)
      case None => if matches(x) then Some(x) else None
  {
    if s == [] {
      assert s + [x] == [x];
    } else {
      assert (s + [x])[1..] == s[1..] + [x];
      FindAppend(s[1..], x, matches);
      if !matches(s[0]) {
        FindSkipsHead(s + [x], matches);
        FindSkipsHead(s, matches);
      }
    }
  }

  /** Every element that matches `selects` becomes `x`, the others stay (`array.map(e => cond ? x : e)`). */
  function ReplaceWhere<T(!new)>(s: seq<T>, selects: T -> bool, x: T): (r: seq<T>)
    ensures |r| == |s|
  {
    seq(|s|, i requires 0 <= i < |s| => if selects(s[i]) then x else s[i])
  }

  /** After a replacement, searching for a key that the replacement covers finds the new element. */
  lemma FindAfterReplace<T(!new)>(s: seq<T>, selects: T -> bool, x: T, matches: T -> bool)
    requires forall y :: matches(y) <==> selects(y)
    requires matches(x)
    requires exists y :: y in s && matches(y)
    ensures Find(ReplaceWhere(s, selects, x), matches) == Some(x)
  {
    var r := ReplaceWhere(s, selects, x);
    var k :| 0 <= k < |s| && matches(s[k]);
    assert r[k] == x;
    assert x in r;
    forall i | 0 <= i < |r| && matches(r[i]) ensures r[i] == x {
    }
  }

  /** A replacement does not disturb searches for elements it leaves in place. */
  lemma {:induction false} FindUnaffectedByReplace<T(!new)>(s: seq<T>, selects: T -> bool, x: T, matches: T -> bool)
    requires !matches(x)
    requires forall y :: matches(y) ==> !selects(y)
    ensures Find(ReplaceWhere(s, selects, x), matches) == Find(s, matches)
  {
    if s != [] {
      var r := ReplaceWhere(s, selects, x);
      assert r[1..] == ReplaceWhere(s[1..], selects, x);
      FindUnaffectedByReplace(s[1..], selects, x, matches);
    }
  }

  /** No two positions of `s` carry the same key. */
  ghost predicate DistinctKeys<T(!new), K>(s: seq<T>, key: T -> K) {
    forall i, j :: 0 <= i < j < |s| ==> key(s[i]) != key(s[j])
  }

  /** Two key-distinct sequences whose keys do not meet concatenate to a key-distinct sequence. */
  lemma DistinctKeysConcat<T(!new), K>(a: seq<T>, b: seq<T>, key: T -> K)
    requires DistinctKeys(a, key) && DistinctKeys(b, key)
    requires forall i, j :: 0 <= i < |a| && 0 <= j < |b| ==> key(a[i]) != key(b[j])
    ensures DistinctKeys(a + b, key)
  {
    var s := a + b;
    forall i, j | 0 <= i < j < |s| ensures key(s[i]) != key(s[j]) {
      if j < |a| {
        assert s[i] == a[i] && s[j] == a[j];
      } else if i < |a| {
        assert s[i] == a[i] && s[j] == b[j - |a|];
      } else {
        assert s[i] == b[i - |a|] && s[j] == b[j - |a|];
      }
    }
  }

  /** The key of each element, in order (`array.map(x => x.key)`). */
  function Keys<T(!new), K>(s: seq<T>, key: T -> K): (r: seq<K>)
    ensures |r| == |s|
  {
    seq(|s|, i requires 0 <= i < |s| => key(s[i]))
  }

  /** Taking keys commutes with reordering. */
  lemma KeysPermute<T(!new), K(!new)>(s: seq<T>, p: seq<nat>, key: T -> K)
    requires InRange(p, |s|)
    ensures InRange(p, |Keys(s, key)|)
    ensures Keys(Permute(s, p), key) == Permute(Keys(s, key), p)
  {
  }

  /** Filtering keeps keys distinct: the result is a subsequence. */
  lemma {:induction false} FilterDistinctKeys<T(!new), K>(s: seq<T>, keep: T -> bool, key: T -> K)
    requires DistinctKeys(s, key)
    ensures DistinctKeys(Filter(s, keep), key)
  {
    if s != [] {
      FilterDistinctKeys(s[1..], keep, key);
      if keep(s[0]) {
        var r := Filter(s, keep);
        var t := Filter(s[1..], keep);
        assert r == [s[0]] + t;
        forall j | 0 < j < |r| ensures key(r[0]) != key(r[j]) {
          assert r[j] == t[j - 1];
          assert t[j - 1] in s[1..];
          var m :| 0 <= m < |s[1..]| && s[1..][m] == t[j - 1];
          assert s[m + 1] == r[j];
        }
      }
    }
  }

  /** Indices 0 .. n-1 in increasing order. */
  function Indices(n: nat): (r: seq<nat>)
    ensures |r| == n
  {
    seq(n, i => i)
  }

  /** `p` is a rearrangement of 0 .. n-1: the index order a shuffle of n elements produces. */
  ghost predicate IsPermutation(p: seq<nat>, n: nat) {
    multiset(p) == multiset(Indices(n))
  }

  /** Every entry of `p` indexes a sequence of length n. */
  ghost predicate InRange(p: seq<nat>, n: nat) {
    forall i :: 0 <= i < |p| ==> p[i] < n
  }

  /** `s` read in the order `p` gives: the i-th element is s[p[i]]. */
  function Permute<T(!new)>(s: seq<T>, p: seq<nat>): (r: seq<T>)
    requires InRange(p, |s|)
    ensures |r| == |p|
  {
    seq(|p|, i requires 0 <= i < |p| => s[p[i]])
  }

  lemma {:induction false} IndicesCount(n: nat, v: nat)
    ensures multiset(Indices(n))[v] == if v < n then 1 else 0
  {
    if n > 0 {
      assert Indices(n) == Indices(n - 1) + [n - 1];
      IndicesCount(n - 1, v);
    }
  }

  /** A permutation of 0 .. n-1 has length n, stays in range and repeats no index. */
  lemma PermutationFacts(p: seq<nat>, n: nat)
    requires IsPermutation(p, n)
    ensures |p| == n
    ensures InRange(p, n)
    ensures forall i, j :: 0 <= i < j < |p| ==> p[i] != p[j]
  {
    assert |p| == |multiset(p)| == |multiset(Indices(n))| == n;
    forall i | 0 <= i < |p| ensures p[i] < n {
      assert p[i] in multiset(p);
      IndicesCount(n, p[i]);
    }
    forall i, j | 0 <= i < j < |p| ensures p[i] != p[j] {
      if p[i] == p[j] {
        var v := p[i];
        assert p == p[..i] + [v] + p[i + 1..j] + [v] + p[j + 1..];
        assert multiset(p)[v] >= 2;
        IndicesCount(n, v);
        assert false;
      }
    }
  }

  lemma PermuteConcat<T(!new)>(s: seq<T>, u: seq<nat>, v: seq<nat>)
    requires InRange(u, |s|) && InRange(v, |s|)
    ensures InRange(u + v, |s|)
    ensures Permute(s, u + v) == Permute(s, u) + Permute(s, v)
  {
  }

  /** Moving one index from the front to the middle keeps the multiset of selected elements. */
  lemma PermuteMoveOne<T(!new)>(s: seq<T>, x: nat, a1: seq<nat>, b1: seq<nat>, b2: seq<nat>)
    requires x < |s| && InRange(a1, |s|) && InRange(b1, |s|) && InRange(b2, |s|)
    requires multiset(Permute(s, a1)) == multiset(Permute(s, b1 + b2))
    ensures InRange([x] + a1, |s|) && InRange(b1 + [x] + b2, |s|)
    ensures multiset(Permute(s, [x] + a1)) == multiset(Permute(s, b1 + [x] + b2))
  {
    assert Permute(s, [x]) == [s[x]];
    PermuteConcat(s, [x], a1);
    PermuteConcat(s, b1, [x]);
    PermuteConcat(s, b1 + [x], b2);
    PermuteConcat(s, b1, b2);
    var pa1, pb1, pb2 := Permute(s, a1), Permute(s, b1), Permute(s, b2);
    calc {
      multiset(Permute(s, [x] + a1));
      multiset([s[x]] + pa1);
      multiset{s[x]} + multiset(pb1) + multiset(pb2);
      multiset(pb1 + [s[x]] + pb2);
    }
  }

  /** Cuts `b` around one occurrence of `x`. */
  lemma SplitAround(b: seq<nat>, x: nat, n: nat) returns (b1: seq<nat>, b2: seq<nat>)
    requires x in b && InRange(b, n)
    ensures b == b1 + [x] + b2 && InRange(b1, n) && InRange(b2, n)
    ensures multiset(b1 + b2) == multiset(b) - multiset{x}
  {
    var j :| 0 <= j < |b| && b[j] == x;
    b1, b2 := b[..j], b[j + 1..];
    assert b == b1 + [x] + b2;
    assert forall i :: 0 <= i < |b2| ==> b2[i] == b[j + 1 + i];
  }

  lemma InRangeSameMultiset(a: seq<nat>, b: seq<nat>, n: nat)
    requires multiset(a) == multiset(b) && InRange(a, n)
    ensures InRange(b, n)
  {
    forall i | 0 <= i < |b| ensures b[i] < n {
      assert b[i] in multiset(a);
    }
  }

  /** Reading `s` in two index orders with the same multiset of indices yields the same multiset of elements. */
  lemma {:induction false} PermuteSameMultiset<T(!new)>(s: seq<T>, a: seq<nat>, b: seq<nat>)
    requires multiset(a) == multiset(b)
    requires InRange(a, |s|)
    ensures InRange(b, |s|)
    ensures multiset(Permute(s, a)) == multiset(Permute(s, b))
  {
    InRangeSameMultiset(a, b, |s|);
    if |a| == 0 {
      assert |b| == |multiset(b)| == 0;
    } else {
      var x, a1 := a[0], a[1..];
      assert a == [x] + a1;
      assert x in multiset(b);
      var b1, b2 := SplitAround(b, x, |s|);
      assert multiset(a1) == multiset(a) - multiset{x};
      PermuteSameMultiset(s, a1, b1 + b2);
      PermuteMoveOne(s, x, a1, b1, b2);
    }
  }

  /** A permutation reorders `s` without adding or dropping anything. */
  lemma PermuteIsRearrangement<T(!new)>(s: seq<T>, p: seq<nat>)
    requires IsPermutation(p, |s|)
    ensures InRange(p, |s|)
    ensures multiset(Permute(s, p)) == multiset(s)
  {
    PermutationFacts(p, |s|);
    var id := Indices(|s|);
    PermuteSameMultiset(s, p, id);
    assert Permute(s, id) == s;
  }

  /** A permutation keeps keys distinct. */
  lemma PermuteDistinctKeys<T(!new), K>(s: seq<T>, p: seq<nat>, key: T -> K)
    requires IsPermutation(p, |s|)
    requires DistinctKeys(s, key)
    ensures InRange(p, |s|)
    ensures DistinctKeys(Permute(s, p), key)
  {
    PermutationFacts(p, |s|);
  }
}
