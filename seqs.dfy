/** Generic sequence helpers: filtering, mapping, leading and trailing runs, subsequences. */
module Seqs {

  /** The elements of `s` that satisfy `p`, in their original order. */
  function Filter<T>(s: seq<T>, p: T -> bool): (r: seq<T>)
    ensures |r| <= |s|
    ensures forall x :: x in r ==> x in s && p(x)
    decreases |s|
  {
    if s == [] then [] else (if p(s[0]) then [s[0]] else []) + Filter(s[1..], p)
  }

  /** `f` applied to every element of `s`. */
  function Map<T, U>(s: seq<T>, f: T -> U): (r: seq<U>)
    ensures |r| == |s|
    ensures forall i :: 0 <= i < |s| ==> r[i] == f(s[i])
  {
    seq(|s|, i requires 0 <= i < |s| => f(s[i]))
  }

  /** Mapping one more element of a prefix appends its image. */
  lemma MapSnoc<T, U>(s: seq<T>, f: T -> U, k: nat)
    requires k < |s|
    ensures Map(s[..k + 1], f) == Map(s[..k], f) + [f(s[k])]
  {
  }

  /** Filtering the images of `s` under `f` by `q` keeps as many elements as
      filtering `s` by the pulled-back predicate `p`. */
  lemma {:induction false} FilterMapLength<T, U>(s: seq<T>, f: T -> U, p: T -> bool, q: U -> bool)
    requires forall x :: p(x) == q(f(x))
    ensures |Filter(Map(s, f), q)| == |Filter(s, p)|
    decreases |s|
  {
    if s != [] {
      var m := Map(s, f);
      assert m[0] == f(s[0]);
      assert m[1..] == Map(s[1..], f);
      FilterMapLength(s[1..], f, p, q);
    }
  }

  /** The elements of `s` whose flag in `mask` is set, in order: boolean indexing. */
  function Select<T>(s: seq<T>, mask: seq<bool>): (r: seq<T>)
    requires |mask| == |s|
    ensures |r| <= |s|
    decreases |s|
  {
    if s == [] then [] else (if mask[0] then [s[0]] else []) + Select(s[1..], mask[1..])
  }

  /** Selecting by a mask computed from `p` is filtering by `p`. */
  lemma {:induction false} SelectIsFilter<T>(s: seq<T>, mask: seq<bool>, p: T -> bool)
    requires |mask| == |s|
    requires forall i :: 0 <= i < |s| ==> mask[i] == p(s[i])
    ensures Select(s, mask) == Filter(s, p)
    decreases |s|
  {
    if s != [] {
      forall i | 0 <= i < |s[1..]|
        ensures mask[1..][i] == p(s[1..][i])
      {
        assert mask[1..][i] == mask[i + 1] && s[1..][i] == s[i + 1];
      }
      SelectIsFilter(s[1..], mask[1..], p);
    }
  }

  /** `a` can be obtained from `b` by deleting elements. */
  predicate IsSubseq<T(==)>(a: seq<T>, b: seq<T>)
    decreases |b|
  {
    a == [] || (b != [] && ((a[0] == b[0] && IsSubseq(a[1..], b[1..])) || IsSubseq(a, b[1..])))
  }

  /** Length of the longest prefix of `s` whose elements all satisfy `p`. */
  function LeadRun<T>(p: T -> bool, s: seq<T>): (k: nat)
    ensures k <= |s|
    ensures forall i :: 0 <= i < k ==> p(s[i])
    ensures k < |s| ==> !p(s[k])
  {
    if s == [] || !p(s[0]) then 0 else 1 + LeadRun(p, s[1..])
  }

  /** The leading run is the only length with the run property. */
  lemma LeadRunUnique<T>(p: T -> bool, s: seq<T>, k: nat)
    requires k <= |s|
    requires forall i :: 0 <= i < k ==> p(s[i])
    requires k < |s| ==> !p(s[k])
    ensures LeadRun(p, s) == k
  {
  }

  /** A prefix whose elements all satisfy `p` lies within the leading run. */
  lemma LeadRunAtLeast<T>(p: T -> bool, s: seq<T>, k: nat)
    requires k <= |s|
    requires forall i :: 0 <= i < k ==> p(s[i])
    ensures k <= LeadRun(p, s)
  {
  }

  /** Appending after a run that already stopped, or before an element that stops
      it, leaves the leading run as it was. */
  lemma LeadRunAppend<T>(p: T -> bool, a: seq<T>, z: seq<T>)
    requires LeadRun(p, a) < |a| || z == [] || !p(z[0])
    ensures LeadRun(p, a + z) == LeadRun(p, a)
  {
    var k := LeadRun(p, a);
    var s := a + z;
    forall i | 0 <= i < k
      ensures p(s[i])
    {
      assert s[i] == a[i];
    }
    if k < |a| {
      assert s[k] == a[k];
    } else if z != [] {
      assert s[k] == z[0];
    }
    LeadRunUnique(p, s, k);
  }

  /** Length of the longest suffix of `s` whose elements all satisfy `p`. */
  function TrailRun<T>(p: T -> bool, s: seq<T>): (k: nat)
    ensures k <= |s|
    ensures forall i :: |s| - k <= i < |s| ==> p(s[i])
    ensures k < |s| ==> !p(s[|s| - 1 - k])
  {
    if s == [] || !p(s[|s| - 1]) then 0 else 1 + TrailRun(p, s[..|s| - 1])
  }

  /** The trailing run is the only length with the run property. */
  lemma {:induction false} TrailRunUnique<T>(p: T -> bool, s: seq<T>, k: nat)
    requires k <= |s|
    requires forall i :: |s| - k <= i < |s| ==> p(s[i])
    requires k < |s| ==> !p(s[|s| - 1 - k])
    ensures TrailRun(p, s) == k
    decreases |s|
  {
    if k > 0 {
      var init := s[..|s| - 1];
      forall i | |init| - (k - 1) <= i < |init|
        ensures p(init[i])
      {
        assert init[i] == s[i];
      }
      if k - 1 < |init| {
        assert init[|init| - 1 - (k - 1)] == s[|s| - 1 - k];
      }
      TrailRunUnique(p, init, k - 1);
    }
  }

  /** Cutting the trailing run off `t` leaves its first `m` elements when the
      last of those fails `p` and every later one satisfies it. */
  lemma TrailCut<T>(p: T -> bool, t: seq<T>, m: nat)
    requires 0 < m <= |t| && !p(t[m - 1])
    requires forall i :: m <= i < |t| ==> p(t[i])
    ensures t[..|t| - TrailRun(p, t)] == t[..m]
  {
    TrailRunUnique(p, t, |t| - m);
  }
  /** Trimming the leading and the trailing run of `p` keeps exactly the slice
      between a `p`-prefix and a `p`-suffix that cannot be extended. */
  lemma TrimUnique<T>(p: T -> bool, s: seq<T>, a: nat, b: nat)
    requires a <= b <= |s|
    requires forall i :: 0 <= i < a ==> p(s[i])
    requires forall i :: b <= i < |s| ==> p(s[i])
    requires a < b ==> !p(s[a]) && !p(s[b - 1])
    ensures var t := s[LeadRun(p, s)..]; t[..|t| - TrailRun(p, t)] == s[a..b]
  {
    if a < b {
      LeadRunUnique(p, s, a);
      var t := s[a..];
      forall i | b - a <= i < |t|
        ensures p(t[i])
      {
        assert t[i] == s[a + i];
      }
      assert t[b - a - 1] == s[b - 1];
      TrailCut(p, t, b - a);
      assert t[..b - a] == s[a..b];
    } else {
      LeadRunUnique(p, s, |s|);
    }
  }


  lemma {:induction false} FilterAppend<T>(a: seq<T>, b: seq<T>, p: T -> bool)
    ensures Filter(a + b, p) == Filter(a, p) + Filter(b, p)
    decreases |a|
  {
    if a == [] {
      assert a + b == b;
    } else {
      assert (a + b)[0] == a[0];
      assert (a + b)[1..] == a[1..] + b;
      FilterAppend(a[1..], b, p);
    }
  }

  /** Filtering a sequence cut in two at `n`. */
  lemma FilterSplitAt<T>(s: seq<T>, n: nat, p: T -> bool)
    requires n <= |s|
    ensures Filter(s, p) == Filter(s[..n], p) + Filter(s[n..], p)
  {
    assert s == s[..n] + s[n..];
    FilterAppend(s[..n], s[n..], p);
  }

  /** Filtering one element more: the step a filtering loop takes. */
  lemma FilterSnoc<T>(s: seq<T>, x: T, p: T -> bool)
    ensures Filter(s + [x], p) == Filter(s, p) + (if p(x) then [x] else [])
  {
    FilterAppend(s, [x], p);
    assert Filter([x], p) == (if p(x) then [x] else []) + Filter([], p);
  }

  /** Every element of `s` that satisfies `p` is kept. */
  lemma {:induction false} FilterKeeps<T>(s: seq<T>, p: T -> bool, x: T)
    requires x in s && p(x)
    ensures x in Filter(s, p)
    decreases |s|
  {
    if s[0] != x {
      assert x in s[1..];
      FilterKeeps(s[1..], p, x);
    }
  }

  /** Exactly the elements of `s` that satisfy `p` are kept. */
  lemma FilterMembers<T>(s: seq<T>, p: T -> bool)
    ensures forall x :: x in Filter(s, p) <==> x in s && p(x)
  {
    forall x | x in s && p(x)
      ensures x in Filter(s, p)
    {
      FilterKeeps(s, p, x);
    }
  }

  /** Filtering keeps every occurrence of an element that satisfies `p` and none
      of one that does not. */
  lemma {:induction false} FilterMultiset<T>(s: seq<T>, p: T -> bool)
    ensures forall x :: multiset(Filter(s, p))[x] == if p(x) then multiset(s)[x] else 0
    decreases |s|
  {
    if s != [] {
      FilterMultiset(s[1..], p);
      assert s == [s[0]] + s[1..];
      assert Filter(s, p) == (if p(s[0]) then [s[0]] else []) + Filter(s[1..], p);
    }
  }

  /** A filter that rejects every element yields nothing. */
  lemma {:induction false} FilterNone<T>(s: seq<T>, p: T -> bool)
    requires forall i :: 0 <= i < |s| ==> !p(s[i])
    ensures Filter(s, p) == []
    decreases |s|
  {
    if s != [] {
      FilterNone(s[1..], p);
    }
  }

  /** Two successive filters are one filter by the conjunction. */
  lemma {:induction false} FilterFilter<T>(s: seq<T>, p: T -> bool, q: T -> bool, pq: T -> bool)
    requires forall x :: pq(x) == (p(x) && q(x))
    ensures Filter(Filter(s, p), q) == Filter(s, pq)
    decreases |s|
  {
    if s != [] {
      var head := if p(s[0]) then [s[0]] else [];
      FilterAppend(head, Filter(s[1..], p), q);
      FilterFilter(s[1..], p, q, pq);
      assert Filter(head, q) == (if pq(s[0]) then [s[0]] else []) by {
        if p(s[0]) {
          assert Filter(head, q) == (if q(s[0]) then [s[0]] else []) + Filter([], q);
        }
      }
    }
  }

  /** Filtering by `p` and by its negation splits `s` in two. */
  lemma {:induction false} FilterPartition<T>(s: seq<T>, p: T -> bool, notP: T -> bool)
    requires forall x :: notP(x) == !p(x)
    ensures |Filter(s, p)| + |Filter(s, notP)| == |s|
    decreases |s|
  {
    if s != [] {
      FilterPartition(s[1..], p, notP);
    }
  }

  lemma {:induction false} FilterIsSubseq<T>(s: seq<T>, p: T -> bool)
    ensures IsSubseq(Filter(s, p), s)
    decreases |s|
  {
    if s != [] {
      FilterIsSubseq(s[1..], p);
      if p(s[0]) {
        assert ([s[0]] + Filter(s[1..], p))[1..] == Filter(s[1..], p);
      } else {
        assert Filter(s, p) == Filter(s[1..], p);
        SubseqEmptyOrSkip(Filter(s[1..], p), s);
      }
    }
  }

  /** A subsequence of the tail is a subsequence of the whole. */
  lemma SubseqEmptyOrSkip<T>(a: seq<T>, b: seq<T>)
    requires b != [] && IsSubseq(a, b[1..])
    ensures IsSubseq(a, b)
  {
  }

  /** A subsequence of a suffix is a subsequence of the whole. */
  lemma {:induction false} SubseqOfSuffix<T>(a: seq<T>, b: seq<T>, k: nat)
    requires k <= |b| && IsSubseq(a, b[k..])
    ensures IsSubseq(a, b)
    decreases k
  {
    if k > 0 {
      assert b[1..][k - 1..] == b[k..];
      SubseqOfSuffix(a, b[1..], k - 1);
    }
  }

  /** Keeping the first element on both sides preserves being a subsequence. */
  lemma SubseqCons<T>(x: T, a: seq<T>, b: seq<T>)
    requires IsSubseq(a, b)
    ensures IsSubseq([x] + a, [x] + b)
  {
    assert ([x] + a)[1..] == a;
    assert ([x] + b)[1..] == b;
  }

  /** A run at the front of `[c] + a` reaching past index `h` covers the first
      `h` elements of `a`. */
  lemma ConsRunTail<T>(p: T -> bool, c: T, a: seq<T>, h: nat)
    requires h < |a| + 1
    requires forall i :: 0 <= i < h ==> p(([c] + a)[i])
    requires p(([c] + a)[h])
    ensures h <= |a| && forall k :: 0 <= k < h ==> p(a[k])
  {
    forall k | 0 <= k < h
      ensures p(a[k])
    {
      assert a[k] == ([c] + a)[k + 1];
    }
  }

  lemma ConsTake<T>(c: T, a: seq<T>, m: nat)
    requires m <= |a|
    ensures ([c] + a)[..m + 1] == [c] + a[..m]
  {
  }

  /** Putting the same element in front of two sequences that agree on a prefix
      gives sequences that agree on a prefix one longer. */
  lemma ConsPrefix<T>(c: T, a: seq<T>, b: seq<T>, h: nat)
    requires h <= |a| && h <= |b| && a[..h] == b[..h]
    ensures ([c] + a)[..h + 1] == ([c] + b)[..h + 1]
  {
    assert ([c] + a)[..h + 1] == [c] + a[..h];
    assert ([c] + b)[..h + 1] == [c] + b[..h];
  }

  /** Cutting a sequence at two points and gluing the pieces back gives it back. */
  lemma SliceSplit<T>(s: seq<T>, a: nat, b: nat)
    requires a <= b <= |s|
    ensures s == s[..a] + (s[a..b] + s[b..])
  {
    assert s[a..] == s[a..b] + s[b..];
    assert s == s[..a] + s[a..];
  }

  /** A non-empty sequence is its initial part followed by its last element. */
  lemma InitLast<T>(s: seq<T>)
    requires s != []
    ensures s == s[..|s| - 1] + [s[|s| - 1]]
  {
  }

  /** A slice reaching across both joins of `p + m + q`. */
  lemma SliceAcrossJoin<T>(p: seq<T>, m: seq<T>, q: seq<T>, a: nat, b: nat)
    requires a <= |p| && b <= |q|
    ensures (p + m + q)[a..|p| + |m| + b] == p[a..|p|] + m + q[0..b]
  {
  }

  lemma ConcatAssoc<T>(a: seq<T>, b: seq<T>, c: seq<T>)
    ensures a + (b + c) == (a + b) + c
  {
  }

  lemma {:induction false} SubseqRefl<T>(s: seq<T>)
    ensures IsSubseq(s, s)
    decreases |s|
  {
    if s != [] {
      SubseqRefl(s[1..]);
    }
  }
}
