/** The nearest-rank percentile of a latency sample
    (`cqlite-core/benches/read_while_write.rs`), in exact arithmetic. */
module Percentile {
  import opened Sorting

  function Ceil(x: real): int { -((-x).Floor) }

  function Portion(pct: real, n: nat): real { pct / 100.0 * n as real }

  /** ceil(pct/100 * n), clamped to 1..n. */
  function Rank(pct: real, n: nat): (r: nat)
    requires n > 0
    ensures 1 <= r <= n
  {
    var c := Ceil(Portion(pct, n));
    if c < 1 then 1 else if c > n then n else c
  }

  predicate IntLeq(a: int, b: int) { a <= b }

  lemma {:induction false} IntOrder()
    ensures TotalPreorder(IntLeq)
  {
  }

  /** How many samples do not exceed v. */
  function NotAbove(s: seq<int>, v: int): (n: nat)
    ensures n <= |s|
  {
    if s == [] then 0 else NotAbove(s[..|s| - 1], v) + (if s[|s| - 1] <= v then 1 else 0)
  }

  /** r is the least sample with at least k samples not above it. */
  predicate IsNearestRank(s: seq<int>, k: nat, r: int) {
    r in s && NotAbove(s, r) >= k && forall v :: v in s && NotAbove(s, v) >= k ==> r <= v
  }

  /** Sorts in place, as the standard library's `sort_unstable` does. */
  method SortInPlace(a: array<int>)
    modifies a
    ensures a[..] == Sort(old(a[..]), IntLeq)
  {
    hide Sort;
    var s := Sort(a[..], IntLeq);
    SortLength(a[..], IntLeq);
    var i := 0;
    while i < a.Length
      invariant i <= a.Length == |s| && a[..i] == s[..i]
    {
      a[i] := s[i];
      i := i + 1;
    }
    assert a[..i] == a[..] && s[..i] == s;
  }

  lemma {:induction false} SortLength<T>(s: seq<T>, leq: (T, T) -> bool)
    ensures |Sort(s, leq)| == |s|
  {
    SortMultiset(s, leq);
    assert |multiset(s)| == |s| && |multiset(Sort(s, leq))| == |Sort(s, leq)|;
  }

  lemma {:induction false} NotAboveAppend(a: seq<int>, b: seq<int>, v: int)
    ensures NotAbove(a + b, v) == NotAbove(a, v) + NotAbove(b, v)
  {
    if b == [] {
      assert a + b == a;
    } else {
      assert (a + b)[..|a + b| - 1] == a + b[..|b| - 1];
      NotAboveAppend(a, b[..|b| - 1], v);
    }
  }

  lemma {:induction false} NotAboveReordered(a: seq<int>, b: seq<int>, v: int)
    requires multiset(a) == multiset(b)
    ensures NotAbove(a, v) == NotAbove(b, v)
  {
    if a == [] {
      assert |b| == |multiset(b)| == 0;
    } else {
      var n := |a| - 1;
      assert a[n] in multiset(a) && a[n] in multiset(b);
      var i :| 0 <= i < |b| && b[i] == a[n];
      MultisetLast(a);
      MultisetWithout(b, i);
      Cancel(multiset(a[..n]), multiset(b[..i] + b[i + 1..]), a[n]);
      NotAboveReordered(a[..n], b[..i] + b[i + 1..], v);
      NotAboveAppend(b[..i], b[i + 1..], v);
      NotAboveAppend(b[..i], [b[i]], v);
      NotAboveAppend(b[..i] + [b[i]], b[i + 1..], v);
      assert b == b[..i] + [b[i]] + b[i + 1..];
      assert [b[i]][..0] == [];
    }
  }

  lemma {:induction false} AllNotAbove(s: seq<int>, v: int)
    requires forall i :: 0 <= i < |s| ==> s[i] <= v
    ensures NotAbove(s, v) == |s|
  {
    if s != [] { AllNotAbove(s[..|s| - 1], v); }
  }

  lemma {:induction false} NoneNotAbove(s: seq<int>, v: int)
    requires forall i :: 0 <= i < |s| ==> s[i] > v
    ensures NotAbove(s, v) == 0
  {
    if s != [] { NoneNotAbove(s[..|s| - 1], v); }
  }

  /** The k-th smallest sample is the nearest rank. */
  lemma {:induction false} SortedNearestRank(s: seq<int>, k: nat)
    requires Sorted(s, IntLeq) && 1 <= k <= |s|
    ensures IsNearestRank(s, k, s[k - 1])
  {
    var r := s[k - 1];
    assert s == s[..k] + s[k..];
    forall i | 0 <= i < k ensures s[i] <= r { assert i < k - 1 ==> IntLeq(s[i], s[k - 1]); }
    AllNotAbove(s[..k], r);
    NotAboveAppend(s[..k], s[k..], r);
    forall v | v in s && NotAbove(s, v) >= k ensures r <= v {
      if v < r {
        assert s == s[..k - 1] + s[k - 1..];
        forall i | k - 1 <= i < |s| ensures s[i] > v { assert i > k - 1 ==> IntLeq(s[k - 1], s[i]); }
        NoneNotAbove(s[k - 1..], v);
        NotAboveAppend(s[..k - 1], s[k - 1..], v);
      }
    }
  }

  lemma {:induction false} NearestRankReordered(a: seq<int>, b: seq<int>, k: nat, r: int)
    requires multiset(a) == multiset(b) && IsNearestRank(a, k, r)
    ensures IsNearestRank(b, k, r)
  {
    assert r in multiset(a) && r in multiset(b);
    NotAboveReordered(a, b, r);
    forall v | v in b && NotAbove(b, v) >= k ensures r <= v {
      assert v in multiset(b) && v in multiset(a);
      NotAboveReordered(a, b, v);
    }
  }

  /** Zero for an empty sample; otherwise the least sample that is not below the
      rank's share of samples.  The array is left sorted. */
  method Percentile(samples: array<int>, pct: real) returns (r: int)
    modifies samples
    ensures multiset(samples[..]) == multiset(old(samples[..])) && Sorted(samples[..], IntLeq)
    ensures samples.Length == 0 ==> r == 0
    ensures samples.Length > 0 ==> IsNearestRank(old(samples[..]), Rank(pct, samples.Length), r)
  {
    hide Sort, IsNearestRank, Rank;
    ghost var was := samples[..];
    if samples.Length == 0 { return 0; }
    SortInPlace(samples);
    SortMultiset(was, IntLeq);
    IntOrder();
    SortSorted(was, IntLeq);
    var k := Rank(pct, samples.Length);
    r := samples[k - 1];
    SortedNearestRank(samples[..], k);
    NearestRankReordered(samples[..], was, k, r);
  }

  // ----- the percentile depends on the sample alone and grows with the rank -----

  lemma {:induction false} NearestRankUnique(a: seq<int>, b: seq<int>, k: nat, r: int, q: int)
    requires multiset(a) == multiset(b) && IsNearestRank(a, k, r) && IsNearestRank(b, k, q)
    ensures r == q
  {
    NearestRankReordered(b, a, k, q);
  }

  lemma {:induction false} NearestRankMonotone(s: seq<int>, j: nat, k: nat, r: int, q: int)
    requires j <= k && IsNearestRank(s, j, r) && IsNearestRank(s, k, q)
    ensures r <= q
  {
  }

  lemma {:induction false} RankMonotone(p: real, q: real, n: nat)
    requires p <= q && n > 0
    ensures Rank(p, n) <= Rank(q, n)
  {
    hide Ceil, Portion;
    Share(p, q, n);
    CeilMonotone(Portion(p, n), Portion(q, n));
  }

  lemma {:induction false} CeilMonotone(x: real, y: real)
    requires x <= y
    ensures Ceil(x) <= Ceil(y)
  {
    var a, b := (-x).Floor, (-y).Floor;
    assert a as real <= -x < a as real + 1.0 && b as real <= -y < b as real + 1.0;
  }

  lemma {:induction false} Share(p: real, q: real, n: nat)
    requires p <= q
    ensures Portion(p, n) <= Portion(q, n)
  {
    var d, m := q / 100.0 - p / 100.0, n as real;
    assert d >= 0.0 && m >= 0.0;
    assert d * m >= 0.0;
    assert Portion(q, n) - Portion(p, n) == d * m;
  }

  /** Between 0 and 100 the clamp never lowers the rank, so at least ceil(pct*N/100)
      samples are not above the result. */
  lemma {:induction false} RankCovers(pct: real, n: nat)
    requires 0.0 <= pct <= 100.0 && n > 0
    ensures Rank(pct, n) >= Ceil(Portion(pct, n))
    ensures pct > 0.0 ==> Rank(pct, n) == Ceil(Portion(pct, n))
  {
    Share(pct, 100.0, n);
    assert Portion(100.0, n) == n as real;
    if pct > 0.0 { Positive(pct, n); }
    hide Portion;
  }

  lemma {:induction false} Positive(p: real, n: nat)
    requires p > 0.0 && n > 0
    ensures Portion(p, n) > 0.0
  {
    var a, b := p / 100.0, n as real;
    assert a > 0.0 && b > 0.0;
    assert a * b > 0.0;
  }

  lemma {:induction false} CeilBounds(x: real)
    ensures Ceil(x) as real - 1.0 < x <= Ceil(x) as real
  {
    var f := (-x).Floor;
    assert f as real <= -x < f as real + 1.0;
  }

  /** The rank in whole numbers: the least k of 1..n with 100 k >= pct n; the first below
      0 per cent and the last above 100. */
  lemma {:induction false} RankExactly(pct: real, n: nat)
    requires n > 0
    ensures var k := Rank(pct, n) as real;
            && (0.0 < pct <= 100.0 ==> 100.0 * (k - 1.0) < pct * n as real <= 100.0 * k)
            && (pct <= 0.0 ==> Rank(pct, n) == 1)
            && (pct >= 100.0 ==> Rank(pct, n) == n)
  {
    hide Rank, Ceil;
    var x := Portion(pct, n);
    PortionExactly(pct, n);
    CeilBounds(x);
    RankOfCeil(pct, n);
    if 0.0 < pct <= 100.0 {
      RankCovers(pct, n);
      assert 100.0 * (Ceil(x) as real - 1.0) < 100.0 * x <= 100.0 * Ceil(x) as real;
    } else if pct <= 0.0 {
      Share(pct, 0.0, n);
      assert Portion(0.0, n) == 0.0;
    } else {
      Share(100.0, pct, n);
      assert Portion(100.0, n) == n as real;
    }
  }

  lemma {:induction false} PortionExactly(pct: real, n: nat)
    ensures 100.0 * Portion(pct, n) == pct * n as real
  {
    var a, m := pct / 100.0, n as real;
    assert 100.0 * a == pct;
    assert 100.0 * (a * m) == (100.0 * a) * m;
  }

  lemma {:induction false} RankOfCeil(pct: real, n: nat)
    requires n > 0
    ensures Rank(pct, n) == var c := Ceil(Portion(pct, n)); if c < 1 then 1 else if c > n then n else c
  {
  }

  /** At least pct per cent of the samples are not above the percentile, and fewer are
      not above any smaller sample. */
  lemma {:induction false} PercentileCovers(s: seq<int>, pct: real, r: int)
    requires s != [] && 0.0 < pct <= 100.0 && IsNearestRank(s, Rank(pct, |s|), r)
    ensures 100.0 * NotAbove(s, r) as real >= pct * |s| as real
    ensures forall v :: v in s && v < r ==> 100.0 * NotAbove(s, v) as real < pct * |s| as real
  {
    hide Rank, NotAbove;
    var k, x := Rank(pct, |s|), pct * |s| as real;
    RankExactly(pct, |s|);
    Reaches(x, k, NotAbove(s, r));
    forall v | v in s && v < r ensures 100.0 * NotAbove(s, v) as real < x {
      Reaches(x, k, NotAbove(s, v));
    }
  }

  lemma {:induction false} Reaches(x: real, k: nat, a: nat)
    requires 100.0 * (k as real - 1.0) < x <= 100.0 * k as real
    ensures 100.0 * a as real >= x <==> a >= k
  {
    if a >= k { assert a as real >= k as real; } else { assert a as real <= k as real - 1.0; }
  }

  /** Earlier calls, which sort the sample, do not change what a later one returns,
      and a larger percentage never gives a smaller value. */
  method TwoPercentiles(samples: array<int>, p: real, q: real) returns (a: int, b: int)
    requires samples.Length > 0
    modifies samples
    ensures IsNearestRank(old(samples[..]), Rank(p, samples.Length), a)
    ensures IsNearestRank(old(samples[..]), Rank(q, samples.Length), b)
    ensures p <= q ==> a <= b
  {
    hide IsNearestRank, Rank, Sorted;
    ghost var was := samples[..];
    a := Percentile(samples, p);
    ghost var sorted := samples[..];
    b := Percentile(samples, q);
    NearestRankReordered(sorted, was, Rank(q, samples.Length), b);
    if p <= q {
      RankMonotone(p, q, samples.Length);
      NearestRankMonotone(was, Rank(p, samples.Length), Rank(q, samples.Length), a, b);
    }
  }
}
