/** Truncating means, rank statistics and the paired bootstrap (hosted_ranking_qualification.rs). */
module Statistics {
  import opened Prelude
  import opened Ordering
  import opened Shuffle

  const RESAMPLES: nat := 10_000
  const LOWER_RANK: nat := 500

  /** Division of machine integers, which rounds toward zero. */
  function TruncDiv(a: int, n: int): int
    requires n > 0
  {
    if a >= 0 then a / n else -((-a) / n)
  }

  lemma DivBetween(lo: int, a: int, hi: int, n: int)
    requires n > 0 && lo * n <= a <= hi * n
    ensures lo <= a / n <= hi
  {
    if a / n < lo { TimesGrows(a / n, lo, n); }
    if a / n > hi { TimesGrows(hi, a / n, n); }
  }

  lemma TimesGrows(a: int, b: int, n: int)
    requires a < b && n > 0
    ensures a * n + n <= b * n
  {
    var d := b - a - 1;
    assert d * n >= 0;
    assert b * n == (a + 1 + d) * n == a * n + n + d * n;
  }

  lemma TruncDivBetween(lo: int, a: int, hi: int, n: int)
    requires n > 0 && lo * n <= a <= hi * n
    ensures lo <= TruncDiv(a, n) <= hi
  {
    if a >= 0 {
      DivBetween(lo, a, hi, n);
    } else {
      assert (-hi) * n == -(hi * n) && (-lo) * n == -(lo * n);
      DivBetween(-hi, -a, -lo, n);
    }
  }

  function Sum(s: seq<int>): int {
    if s == [] then 0 else s[0] + Sum(s[1..])
  }

  ghost predicate Within(s: seq<int>, lo: int, hi: int) {
    forall i :: 0 <= i < |s| ==> lo <= s[i] <= hi
  }

  lemma {:induction false} SumBetween(s: seq<int>, lo: int, hi: int)
    requires Within(s, lo, hi)
    ensures lo * |s| <= Sum(s) <= hi * |s|
  {
    if s != [] {
      SumBetween(s[1..], lo, hi);
      assert lo * |s| == lo + lo * (|s| - 1) && hi * |s| == hi + hi * (|s| - 1);
    }
  }

  /** `mean_i64_v1`. */
  function Mean(s: seq<int>): int {
    if s == [] then 0 else TruncDiv(Sum(s), |s|)
  }

  lemma MeanBetween(s: seq<int>, lo: int, hi: int)
    requires s != [] && Within(s, lo, hi)
    ensures lo <= Mean(s) <= hi
  {
    SumBetween(s, lo, hi);
    TruncDivBetween(lo, Sum(s), hi, |s|);
  }

  // ---- Ranks ----------------------------------------------------------------------------------------------

  ghost predicate Ascending(s: seq<int>) {
    forall i, j :: 0 <= i < j < |s| ==> s[i] <= s[j]
  }

  function Place(x: int, s: seq<int>): (r: seq<int>) {
    if s == [] then [x] else if x <= s[0] then [x] + s else [s[0]] + Place(x, s[1..])
  }

  lemma {:induction false} PlaceSorted(x: int, s: seq<int>)
    requires Ascending(s)
    ensures Ascending(Place(x, s)) && multiset(Place(x, s)) == multiset(s) + multiset{x}
  {
    if s != [] && x > s[0] {
      var rest := Place(x, s[1..]);
      PlaceSorted(x, s[1..]);
      LeadSorted(s, x, rest);
    } else {
      assert multiset([x] + s) == multiset(s) + multiset{x};
    }
  }

  lemma LeadSorted(s: seq<int>, x: int, rest: seq<int>)
    requires s != [] && Ascending(s) && x > s[0] && Ascending(rest) && multiset(rest) == multiset(s[1..]) + multiset{x}
    ensures Ascending([s[0]] + rest) && multiset([s[0]] + rest) == multiset(s) + multiset{x}
  {
    assert s == [s[0]] + s[1..];
    forall j | 0 <= j < |rest| ensures s[0] <= rest[j] {
      assert rest[j] in multiset(rest);
      assert rest[j] in s[1..] || rest[j] == x;
    }
  }

  function SortInts(s: seq<int>): (r: seq<int>) {
    if s == [] then [] else Place(s[0], SortInts(s[1..]))
  }

  lemma {:induction false} SortIntsSorted(s: seq<int>)
    ensures Ascending(SortInts(s)) && multiset(SortInts(s)) == multiset(s) && |SortInts(s)| == |s|
  {
    if s != [] {
      SortIntsSorted(s[1..]);
      PlaceSorted(s[0], SortInts(s[1..]));
      assert s == [s[0]] + s[1..];
      SameElements(SortInts(s), s);
    }
  }

  function AtMost(t: int): int -> nat {
    x => if x <= t then 1 else 0
  }

  /** How many values are at most `t`. */
  function CountAtMost(s: seq<int>, t: int): nat {
    SumBy(AtMost(t), s)
  }

  lemma {:induction false} CountAboveAll(s: seq<int>, t: int)
    requires forall i :: 0 <= i < |s| ==> s[i] > t
    ensures CountAtMost(s, t) == 0
  {
    if s != [] { CountAboveAll(s[1..], t); }
  }

  lemma {:induction false} RankInSorted(s: seq<int>, k: nat, t: int)
    requires Ascending(s) && k < |s|
    ensures s[k] > t <==> CountAtMost(s, t) <= k
  {
    if s[0] > t {
      CountAboveAll(s, t);
    } else if k > 0 {
      RankInSorted(s[1..], k - 1, t);
    }
  }

  /** What it means for the value of rank `k` to exceed `t`, said of the unsorted values. */
  lemma RankMeaning(s: seq<int>, k: nat, t: int)
    requires k < |s|
    ensures |SortInts(s)| == |s|
    ensures SortInts(s)[k] > t <==> CountAtMost(s, t) <= k
  {
    SortIntsSorted(s);
    RankInSorted(SortInts(s), k, t);
    SumIgnoresOrder(AtMost(t), SortInts(s), s);
  }

  function CeilDiv(a: nat, n: nat): nat
    requires n > 0
  {
    (a + n - 1) / n
  }

  /** The position a percentile is read at. */
  function PercentileRank(n: nat, percent: nat): (k: nat)
    requires n > 0
    ensures k < n
  {
    var up := CeilDiv(percent * n, 100);
    var rank := if up == 0 then 0 else up - 1;
    if rank < n - 1 then rank else n - 1
  }

  /** `percentile_u64_v1`. */
  function Percentile(s: seq<int>, percent: nat): Option<int> {
    if s == [] then None
    else
      SortIntsSorted(s);
      Some(SortInts(s)[PercentileRank(|s|, percent)])
  }

  /** The 95th percentile is under a ceiling exactly when at least 95 of every 100 values are. */
  lemma P95Meaning(s: seq<int>, ceiling: int)
    requires s != []
    ensures Percentile(s, 95).value < ceiling <==> 100 * CountAtMost(s, ceiling - 1) >= 95 * |s|
  {
    var k := PercentileRank(|s|, 95);
    RankMeaning(s, k, ceiling - 1);
    assert k + 1 == CeilDiv(95 * |s|, 100);
  }

  // ---- The bootstrap --------------------------------------------------------------------------------------

  /** The sum of `n` values drawn with replacement. */
  function ResampleSum(values: seq<int>, state: bv64, n: nat): int
    requires values != []
    decreases n
  {
    if n == 0 then 0
    else values[ToIndex(Advance(state), |values|)] + ResampleSum(values, Advance(state), n - 1)
  }

  function Resamples(values: seq<int>, state: bv64, k: nat): (r: seq<int>)
    requires values != []
    ensures |r| == k
    decreases k
  {
    if k == 0 then []
    else [TruncDiv(ResampleSum(values, state, |values|), |values|)] + Resamples(values, Draws(state, |values|), k - 1)
  }

  function LowerBound(values: seq<int>, seed: bv64): int {
    if |values| < 2 then 0
    else
      SortIntsSorted(Resamples(values, SeedState(seed), RESAMPLES));
      SortInts(Resamples(values, SeedState(seed), RESAMPLES))[LOWER_RANK]
  }

  /** One resample: as many draws as there are values. */
  method DrawResample(values: seq<int>, random: Random) returns (sum: int)
    requires values != [] && random.Valid()
    modifies random
    ensures random.Valid() && random.state == Draws(old(random.state), |values|)
    ensures sum == ResampleSum(values, old(random.state), |values|)
  {
    sum := 0;
    for j := 0 to |values|
      invariant random.Valid() && Draws(random.state, |values| - j) == Draws(old(random.state), |values|)
      invariant sum + ResampleSum(values, random.state, |values| - j)
          == ResampleSum(values, old(random.state), |values|)
    {
      var index := random.Index(|values|);
      sum := sum + values[index];
    }
  }

  method CollectResamples(values: seq<int>, seed: bv64, count: nat) returns (distribution: seq<int>)
    requires values != []
    ensures distribution == Resamples(values, SeedState(seed), count)
  {
    var random := new Random(seed);
    distribution := [];
    for i := 0 to count
      invariant random.Valid() && fresh(random)
      invariant distribution + Resamples(values, random.state, count - i) == Resamples(values, SeedState(seed), count)
    {
      ghost var state := random.state;
      var sum := DrawResample(values, random);
      ResamplesStep(distribution, values, state, count - i);
      distribution := distribution + [TruncDiv(sum, |values|)];
    }
    assert distribution + [] == distribution;
  }

  /** `paired_bootstrap_lower_bound_v1`. */
  method PairedBootstrapLowerBound(values: seq<int>, seed: bv64) returns (r: int)
    ensures r == LowerBound(values, seed)
  {
    if |values| < 2 { return 0; }
    var distribution := CollectResamples(values, seed, RESAMPLES);
    SortIntsSorted(distribution);
    var sorted := SortInts(distribution);
    return sorted[RESAMPLES / 20];
  }

  lemma ResamplesStep(done: seq<int>, values: seq<int>, state: bv64, k: nat)
    requires values != [] && k > 0
    ensures done + Resamples(values, state, k)
         == done + [TruncDiv(ResampleSum(values, state, |values|), |values|)]
            + Resamples(values, Draws(state, |values|), k - 1)
  {
  }

  lemma {:induction false} ResampleSumBetween(values: seq<int>, state: bv64, n: nat, lo: int, hi: int)
    requires values != [] && Within(values, lo, hi)
    ensures lo * n <= ResampleSum(values, state, n) <= hi * n
    decreases n
  {
    if n > 0 {
      ResampleSumBetween(values, Advance(state), n - 1, lo, hi);
      assert lo * n == lo + lo * (n - 1) && hi * n == hi + hi * (n - 1);
    }
  }

  lemma {:induction false} ResamplesBetween(values: seq<int>, state: bv64, k: nat, lo: int, hi: int)
    requires values != [] && Within(values, lo, hi)
    ensures Within(Resamples(values, state, k), lo, hi)
    decreases k
  {
    if k > 0 {
      ResampleSumBetween(values, state, |values|, lo, hi);
      TruncDivBetween(lo, ResampleSum(values, state, |values|), hi, |values|);
      ResamplesBetween(values, Draws(state, |values|), k - 1, lo, hi);
    }
  }

  /** The bound is never outside the values it is drawn from, whatever the seed. */
  lemma LowerBoundBetween(values: seq<int>, seed: bv64, lo: int, hi: int)
    requires |values| >= 2 && Within(values, lo, hi)
    ensures lo <= LowerBound(values, seed) <= hi
  {
    var all := Resamples(values, SeedState(seed), RESAMPLES);
    ResamplesBetween(values, SeedState(seed), RESAMPLES, lo, hi);
    RankBetween(all, LOWER_RANK, lo, hi);
  }

  lemma RankBetween(s: seq<int>, k: nat, lo: int, hi: int)
    requires Within(s, lo, hi) && k < |s|
    ensures |SortInts(s)| == |s| && lo <= SortInts(s)[k] <= hi
  {
    SortIntsSorted(s);
    SameElements(SortInts(s), s);
    var x := SortInts(s)[k];
    assert x in SortInts(s);
    var i :| 0 <= i < |s| && s[i] == x;
  }

  // ---- The samples, draw by draw --------------------------------------------------------------------------

  /** The `k`-th resample: each of its values is the one that the generator's next output points at. */
  function Sample(values: seq<int>, seed: bv64, k: nat): (sample: seq<int>)
    requires values != []
    ensures |sample| == |values|
  {
    seq(|values|, j requires 0 <= j < |values| =>
      values[Draws(if seed == 0 then 1 else seed, k * |values| + j + 1) as nat % |values|])
  }

  /** The means of all resamples. */
  function SampleMeans(values: seq<int>, seed: bv64): (means: seq<int>)
    requires values != []
    ensures |means| == 10_000
  {
    seq(10_000, k requires 0 <= k < 10_000 => Mean(Sample(values, seed, k)))
  }

  lemma {:induction false} DrawsCompose(x: bv64, m: nat, n: nat)
    ensures Draws(Draws(x, m), n) == Draws(x, m + n)
    decreases m
  {
    if m > 0 { DrawsCompose(Advance(x), m - 1, n); }
  }

  lemma NextDraw(state: bv64, offset: nat)
    ensures Draws(state, offset + 1) == Advance(Draws(state, offset))
  {
    DrawsCompose(state, offset, 1);
    assert Draws(Draws(state, offset), 1) == Draws(Advance(Draws(state, offset)), 0);
  }

  /** The value that an output of the generator points at. */
  function Pick(values: seq<int>, output: bv64): int
    requires values != []
  {
    values[output as nat % |values|]
  }

  lemma PickIsIndexed(values: seq<int>, output: bv64)
    requires values != []
    ensures values[ToIndex(output, |values|)] == Pick(values, output)
  {
  }

  /** The values drawn after `offset` draws, `n` of them. */
  function DrawnFrom(values: seq<int>, state: bv64, offset: nat, n: nat): (drawn: seq<int>)
    requires values != []
    ensures |drawn| == n
  {
    seq(n, j requires 0 <= j < n => Pick(values, Draws(state, offset + j + 1)))
  }

  lemma DrawnApart(values: seq<int>, state: bv64, offset: nat, n: nat)
    requires values != [] && n > 0
    ensures DrawnFrom(values, state, offset, n)
         == [Pick(values, Draws(state, offset + 1))] + DrawnFrom(values, state, offset + 1, n - 1)
  {
    var drawn, rest := DrawnFrom(values, state, offset, n), DrawnFrom(values, state, offset + 1, n - 1);
    forall j | 0 <= j < n - 1 ensures drawn[j + 1] == rest[j] {
      assert offset + (j + 1) + 1 == (offset + 1) + j + 1;
    }
  }

  lemma {:induction false} ResampleSumsDraws(values: seq<int>, state: bv64, offset: nat, n: nat)
    requires values != []
    ensures ResampleSum(values, Draws(state, offset), n) == Sum(DrawnFrom(values, state, offset, n))
    decreases n
  {
    if n > 0 {
      NextDraw(state, offset);
      PickIsIndexed(values, Draws(state, offset + 1));
      ResampleSumsDraws(values, state, offset + 1, n - 1);
      DrawnApart(values, state, offset, n);
      var rest := DrawnFrom(values, state, offset + 1, n - 1);
      assert ([Pick(values, Draws(state, offset + 1))] + rest)[1..] == rest;
    }
  }

  lemma {:induction false} ResamplesAreSamples(values: seq<int>, state: bv64, offset: nat, count: nat, k: nat)
    requires values != [] && k < count
    ensures Resamples(values, Draws(state, offset), count)[k]
         == Mean(DrawnFrom(values, state, offset + k * |values|, |values|))
    decreases k
  {
    var n := |values|;
    if k == 0 {
      ResampleSumsDraws(values, state, offset, n);
      assert offset + 0 * n == offset;
    } else {
      DrawsCompose(state, offset, n);
      ResamplesAreSamples(values, state, offset + n, count - 1, k - 1);
      assert offset + n + (k - 1) * n == offset + k * n;
    }
  }

  lemma MeansAreResamples(values: seq<int>, seed: bv64)
    requires values != []
    ensures Resamples(values, SeedState(seed), RESAMPLES) == SampleMeans(values, seed)
  {
    forall k | 0 <= k < RESAMPLES
      ensures Resamples(values, SeedState(seed), RESAMPLES)[k] == Mean(Sample(values, seed, k))
    {
      ResamplesAreSamples(values, SeedState(seed), 0, RESAMPLES, k);
      SampleIsDrawn(values, seed, k);
    }
  }

  lemma SampleIsDrawn(values: seq<int>, seed: bv64, k: nat)
    requires values != []
    ensures Sample(values, seed, k) == DrawnFrom(values, SeedState(seed), 0 + k * |values|, |values|)
  {
    var start, offset := SeedState(seed), k * |values|;
    assert start == if seed == 0 then 1 else seed;
    var sample, drawn := Sample(values, seed, k), DrawnFrom(values, start, 0 + offset, |values|);
    forall j | 0 <= j < |values| ensures sample[j] == drawn[j] {
      assert sample[j] == values[Draws(start, offset + j + 1) as nat % |values|];
      assert drawn[j] == Pick(values, Draws(start, offset + j + 1));
    }
  }

  /** The bound exceeds `t` exactly when at most 500 of the 10000 means of the samples do not. */
  lemma LowerBoundMeaning(values: seq<int>, seed: bv64, t: int)
    requires |values| >= 2
    ensures LowerBound(values, seed) > t <==> CountAtMost(SampleMeans(values, seed), t) <= 500
  {
    MeansAreResamples(values, seed);
    RankMeaning(Resamples(values, SeedState(seed), RESAMPLES), LOWER_RANK, t);
  }

  /** Rounding is toward zero: the quotient falls short of the exact value by less than one. */
  lemma TruncDivExactly(a: int, n: int)
    requires n > 0
    ensures a >= 0 ==> TruncDiv(a, n) * n <= a < (TruncDiv(a, n) + 1) * n
    ensures a <= 0 ==> (TruncDiv(a, n) - 1) * n < a <= TruncDiv(a, n) * n
  {
    var q := (if a >= 0 then a else -a) / n;
    assert (q + 1) * n == q * n + n && (-q) * n == -(q * n) && (-q - 1) * n == -(q * n) - n;
  }

  // ---- Monotonicity ---------------------------------------------------------------------------------------

  /** Nowhere smaller. */
  ghost predicate Dominates(b: seq<int>, a: seq<int>) {
    |a| == |b| && forall i :: 0 <= i < |a| ==> a[i] <= b[i]
  }

  lemma TruncDivGrows(a: int, b: int, n: int)
    requires n > 0 && a <= b
    ensures TruncDiv(a, n) <= TruncDiv(b, n)
  {
    if a >= 0 {
      DivGrows(a, b, n);
    } else if b < 0 {
      DivGrows(-b, -a, n);
    } else {
      DivGrows(0, -a, n);
      DivGrows(0, b, n);
    }
  }

  lemma DivGrows(a: int, b: int, n: int)
    requires n > 0 && 0 <= a <= b
    ensures 0 <= a / n <= b / n
  {
    if b / n < a / n { TimesGrows(b / n, a / n, n); }
  }

  lemma {:induction false} ResampleSumGrows(a: seq<int>, b: seq<int>, state: bv64, n: nat)
    requires a != [] && Dominates(b, a)
    ensures ResampleSum(a, state, n) <= ResampleSum(b, state, n)
    decreases n
  {
    if n > 0 { ResampleSumGrows(a, b, Advance(state), n - 1); }
  }

  lemma {:induction false} ResamplesGrow(a: seq<int>, b: seq<int>, state: bv64, k: nat)
    requires a != [] && Dominates(b, a)
    ensures Dominates(Resamples(b, state, k), Resamples(a, state, k))
    decreases k
  {
    if k > 0 {
      ResampleSumGrows(a, b, state, |a|);
      TruncDivGrows(ResampleSum(a, state, |a|), ResampleSum(b, state, |a|), |a|);
      ResamplesGrow(a, b, Draws(state, |a|), k - 1);
    }
  }

  lemma {:induction false} CountShrinks(a: seq<int>, b: seq<int>, t: int)
    requires Dominates(b, a)
    ensures CountAtMost(b, t) <= CountAtMost(a, t)
  {
    if a != [] { CountShrinks(a[1..], b[1..], t); }
  }

  /** Raising values never lowers the bound, seed for seed. */
  lemma LowerBoundMonotone(a: seq<int>, b: seq<int>, seed: bv64)
    requires Dominates(b, a)
    ensures LowerBound(a, seed) <= LowerBound(b, seed)
  {
    if |a| >= 2 {
      var t := LowerBound(a, seed) - 1;
      ResamplesGrow(a, b, SeedState(seed), RESAMPLES);
      CountShrinks(Resamples(a, SeedState(seed), RESAMPLES), Resamples(b, SeedState(seed), RESAMPLES), t);
      MeansAreResamples(a, seed);
      MeansAreResamples(b, seed);
      LowerBoundMeaning(a, seed, t);
      LowerBoundMeaning(b, seed, t);
    }
  }
}
