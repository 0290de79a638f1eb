/** The exact one-sided sign test (score-connected-repair-study.py), over the reals. */
module SignTest {
  import opened Ordering

  /** `math.comb`. */
  function Comb(n: nat, k: nat): nat {
    if k == 0 then 1 else if n == 0 then 0 else Comb(n - 1, k - 1) + Comb(n - 1, k)
  }

  function Factorial(n: nat): nat {
    if n == 0 then 1 else n * Factorial(n - 1)
  }

  function Pow2(n: nat): (p: nat)
    ensures p > 0
  {
    if n == 0 then 1 else 2 * Pow2(n - 1)
  }

  lemma {:induction false} CombBeyond(n: nat, k: nat)
    requires k > n
    ensures Comb(n, k) == 0
    decreases n
  {
    if n > 0 {
      CombBeyond(n - 1, k - 1);
      CombBeyond(n - 1, k);
    }
  }

  /** The recurrence computes the binomial coefficient. */
  lemma {:induction false} CombIsBinomial(n: nat, k: nat)
    requires k <= n
    ensures Comb(n, k) * (Factorial(k) * Factorial(n - k)) == Factorial(n)
    decreases n
  {
    if n > 0 && k == 0 {
      assert Comb(n, 0) * (Factorial(0) * Factorial(n)) == Factorial(n);
    } else if n > 0 && k == n {
      CombBeyond(n - 1, n);
      CombIsBinomial(n - 1, n - 1);
      var a, f := Comb(n - 1, n - 1), Factorial(n - 1);
      assert a * (f * 1) == f;
      assert a * (n * f * 1) == n * (a * (f * 1)) by { Swap(a, n, f); }
    } else if n > 0 {
      CombIsBinomial(n - 1, k - 1);
      CombIsBinomial(n - 1, k);
      var a, b := Comb(n - 1, k - 1), Comb(n - 1, k);
      var f, g := Factorial(k - 1), Factorial(n - k - 1);
      PascalStep(a, b, k, n - k, f, g, Factorial(n - 1));
    }
  }

  lemma Swap(a: nat, n: nat, f: nat)
    ensures a * (n * f * 1) == n * (a * (f * 1))
  {
  }

  /** `k` and `m = n - k` successes and failures: the two halves of the recurrence share one factorial. */
  lemma PascalStep(a: nat, b: nat, k: nat, m: nat, f: nat, g: nat, h: nat)
    requires a * (f * (m * g)) == h && b * ((k * f) * g) == h
    ensures (a + b) * ((k * f) * (m * g)) == (k + m) * h
  {
    calc {
      (a + b) * ((k * f) * (m * g));
      == a * ((k * f) * (m * g)) + b * ((k * f) * (m * g));
      == { Rearrange(a, k, f, m * g); Rearrange2(b, k * f, m, g); }
      k * (a * (f * (m * g))) + m * (b * ((k * f) * g));
      == k * h + m * h;
      == (k + m) * h;
    }
  }

  lemma Rearrange(a: nat, k: nat, f: nat, g: nat)
    ensures a * ((k * f) * g) == k * (a * (f * g))
  {
    assert (k * f) * g == k * (f * g);
    var x := f * g;
    assert a * (k * x) == k * (a * x);
  }

  lemma Rearrange2(b: nat, f: nat, m: nat, g: nat)
    ensures b * (f * (m * g)) == m * (b * (f * g))
  {
    assert f * (m * g) == m * (f * g);
    var x := f * g;
    assert b * (m * x) == m * (b * x);
  }

  /** `sum(comb(n, k) for k in range(c, n + 1))`. */
  function Tail(n: nat, c: nat): nat
    decreases n + 1 - c
  {
    if c > n then 0 else Comb(n, c) + Tail(n, c + 1)
  }

  /** `one_sided_exact_p`. */
  function ExactP(targetOnly: nat, baselineOnly: nat): (p: real) {
    var discordant := targetOnly + baselineOnly;
    if discordant == 0 then 1.0
    else Tail(discordant, targetOnly) as real / Pow2(discordant) as real
  }

  // ---- The reference: fair coin flips ---------------------------------------------------------------------

  function Heads(flips: seq<bool>): nat {
    if flips == [] then 0 else (if flips[0] then 1 else 0) + Heads(flips[1..])
  }

  /** The outcomes of `n` flips. */
  function Outcomes(n: nat): (os: seq<seq<bool>>)
    ensures os != []
  {
    if n == 0 then [[]] else Flip(true, Outcomes(n - 1)) + Flip(false, Outcomes(n - 1))
  }

  function Flip(b: bool, os: seq<seq<bool>>): (r: seq<seq<bool>>)
    ensures |r| == |os| && forall i :: 0 <= i < |os| ==> r[i] == [b] + os[i]
  {
    if os == [] then [] else [[b] + os[0]] + Flip(b, os[1..])
  }

  lemma FlipMembers(b: bool, os: seq<seq<bool>>, o: seq<bool>)
    ensures o in Flip(b, os) <==> o != [] && o[0] == b && o[1..] in os
  {
    var r := Flip(b, os);
    if o in r {
      var i :| 0 <= i < |r| && r[i] == o;
      assert o[1..] == os[i];
    }
    if o != [] && o[0] == b && o[1..] in os {
      var i :| 0 <= i < |os| && os[i] == o[1..];
      assert r[i] == [b] + o[1..] == o;
    }
  }

  lemma FlipDistinct(b: bool, os: seq<seq<bool>>)
    requires Distinct(os)
    ensures Distinct(Flip(b, os))
  {
    var r := Flip(b, os);
    forall i, j | 0 <= i < j < |r| ensures r[i] != r[j] { assert r[i][1..] == os[i] && r[j][1..] == os[j]; }
  }

  /** `os` lists the sequences of `n` flips, each once. */
  ghost predicate ListsAll(os: seq<seq<bool>>, n: nat) {
    Distinct(os) && forall o :: ListedIfLong(os, n, o)
  }

  ghost predicate ListedIfLong(os: seq<seq<bool>>, n: nat, o: seq<bool>) {
    o in os <==> |o| == n
  }

  /** The outcomes are all the sequences of `n` flips, each listed once. */
  lemma {:induction false} OutcomesExactly(n: nat)
    ensures ListsAll(Outcomes(n), n)
  {
    if n == 0 {
      NoFlips();
    } else {
      OutcomesExactly(n - 1);
      NextOutcomes(n);
    }
  }

  lemma NextOutcomes(n: nat)
    requires n > 0 && ListsAll(Outcomes(n - 1), n - 1)
    ensures ListsAll(Outcomes(n), n)
  {
    FlippedListsAll(Outcomes(n - 1), n - 1);
  }

  lemma NoFlips()
    ensures ListsAll(Outcomes(0), 0)
  {
    var os := Outcomes(0);
    forall o ensures ListedIfLong(os, 0, o) {
      assert os[0] in os;
      if |o| == 0 { assert o == os[0]; }
    }
  }

  lemma FlippedListsAll(os: seq<seq<bool>>, n: nat)
    requires ListsAll(os, n)
    ensures ListsAll(Flip(true, os) + Flip(false, os), n + 1)
  {
    var yes, no := Flip(true, os), Flip(false, os);
    FlipDistinct(true, os);
    FlipDistinct(false, os);
    forall i, j | 0 <= i < |yes| && 0 <= j < |no| ensures yes[i] != no[j] { assert yes[i][0] != no[j][0]; }
    TwoListsDistinct(yes, no);
    var both, length := yes + no, n + 1;
    forall o ensures ListedIfLong(both, length, o) { FlippedMembers(os, n, o); }
  }

  lemma FlippedMembers(os: seq<seq<bool>>, n: nat, o: seq<bool>)
    requires ListsAll(os, n)
    ensures o in Flip(true, os) + Flip(false, os) <==> |o| == n + 1
  {
    FlipMembers(true, os, o);
    FlipMembers(false, os, o);
    if o != [] { assert ListedIfLong(os, n, o[1..]); }
  }

  lemma TwoListsDistinct<T>(a: seq<T>, b: seq<T>)
    requires Distinct(a) && Distinct(b) && forall i, j :: 0 <= i < |a| && 0 <= j < |b| ==> a[i] != b[j]
    ensures Distinct(a + b)
  {
  }

  /** How many of the outcomes show at least `c` heads. */
  function CountAtLeast(os: seq<seq<bool>>, c: int): nat {
    if os == [] then 0 else (if Heads(os[0]) >= c then 1 else 0) + CountAtLeast(os[1..], c)
  }

  lemma {:induction false} CountOfBoth(a: seq<seq<bool>>, b: seq<seq<bool>>, c: int)
    ensures CountAtLeast(a + b, c) == CountAtLeast(a, c) + CountAtLeast(b, c)
  {
    if a == [] {
      assert a + b == b;
    } else {
      assert (a + b)[1..] == a[1..] + b;
      CountOfBoth(a[1..], b, c);
    }
  }

  lemma {:induction false} CountFlipped(b: bool, os: seq<seq<bool>>, c: int)
    ensures CountAtLeast(Flip(b, os), c) == CountAtLeast(os, if b then c - 1 else c)
  {
    if os != [] {
      var r := Flip(b, os);
      assert r[1..] == Flip(b, os[1..]);
      assert r[0][1..] == os[0];
      CountFlipped(b, os[1..], c);
    }
  }

  lemma {:induction false} CountEverything(os: seq<seq<bool>>, c: int)
    requires c <= 0
    ensures CountAtLeast(os, c) == |os|
  {
    if os != [] { CountEverything(os[1..], c); }
  }

  lemma {:induction false} OutcomeCount(n: nat)
    ensures |Outcomes(n)| == Pow2(n)
  {
    if n > 0 { OutcomeCount(n - 1); }
  }

  lemma {:induction false} TailPascal(n: nat, c: nat)
    requires c > 0
    ensures Tail(n + 1, c) == Tail(n, c - 1) + Tail(n, c)
    decreases n + 1 - c
  {
    if c <= n + 1 {
      TailPascal(n, c + 1);
      if c == n + 1 { CombBeyond(n, n + 1); }
    }
  }

  lemma {:induction false} TailOfAll(n: nat)
    ensures Tail(n, 0) == Pow2(n)
  {
    if n > 0 {
      TailOfAll(n - 1);
      TailPascal(n - 1, 1);
      assert Tail(n, 0) == 1 + Tail(n, 1);
      assert Tail(n - 1, 0) == 1 + Tail(n - 1, 1);
    }
  }

  lemma CountByFirstFlip(n: nat, c: int)
    ensures CountAtLeast(Outcomes(n + 1), c) == CountAtLeast(Outcomes(n), c - 1) + CountAtLeast(Outcomes(n), c)
  {
    var os := Outcomes(n);
    CountOfBoth(Flip(true, os), Flip(false, os), c);
    CountFlipped(true, os, c);
    CountFlipped(false, os, c);
  }

  lemma {:induction false} TailCountsOutcomes(n: nat, c: nat)
    ensures CountAtLeast(Outcomes(n), c) == Tail(n, c)
    decreases n
  {
    if c == 0 {
      CountEverything(Outcomes(n), 0);
      OutcomeCount(n);
      TailOfAll(n);
    } else if n > 0 {
      CountByFirstFlip(n - 1, c);
      TailCountsOutcomes(n - 1, c - 1);
      TailCountsOutcomes(n - 1, c);
      TailPascal(n - 1, c);
    } else {
      assert Outcomes(0)[1..] == [];
    }
  }

  /** The test's value is the chance that fair flips of the discordant cases favour the target at least as much. */
  lemma ExactPIsFairCoinChance(c: nat, b: nat)
    ensures ExactP(c, b) == CountAtLeast(Outcomes(c + b), c) as real / |Outcomes(c + b)| as real
    ensures ListsAll(Outcomes(c + b), c + b)
  {
    OutcomesExactly(c + b);
    ShareOfOutcomes(c, b);
  }

  lemma ShareOfOutcomes(c: nat, b: nat)
    ensures ExactP(c, b) == CountAtLeast(Outcomes(c + b), c) as real / |Outcomes(c + b)| as real
  {
    TailCountsOutcomes(c + b, c);
    OutcomeCount(c + b);
    if c + b == 0 { assert Outcomes(0) == [[]]; }
  }

  lemma {:induction false} ExactPNoWins(b: nat)
    ensures ExactP(0, b) == 1.0
  {
    TailOfAll(b);
    WholeOf(Pow2(b));
    assert ExactP(0, b) == if b == 0 then 1.0 else Tail(b, 0) as real / Pow2(b) as real;
  }

  lemma WholeOf(p: nat)
    requires p > 0
    ensures p as real / p as real == 1.0
  {
  }

  lemma ExactPNoLosses(c: nat)
    ensures ExactP(c, 0) == 1.0 / Pow2(c) as real
  {
    CombOfAll(c);
    assert Tail(c, c + 1) == 0;
  }

  lemma {:induction false} CombOfAll(n: nat)
    ensures Comb(n, n) == 1
  {
    if n > 0 {
      CombOfAll(n - 1);
      CombBeyond(n - 1, n);
    }
  }

  /** One more win never raises the value; one more loss never lowers it. */
  lemma ExactPMonotone(c: nat, b: nat)
    ensures ExactP(c + 1, b) <= ExactP(c, b) <= ExactP(c, b + 1)
  {
    var n := c + b;
    var t, p := Tail(n, c), Pow2(n);
    TailPascal(n, c + 1);
    assert Tail(n, c) == Tail(n, c + 1) + if c <= n then Comb(n, c) else 0;
    HalfOf(Tail(n + 1, c + 1), t, p);
    if c == 0 {
      ExactPNoWins(b);
      ExactPNoWins(b + 1);
    } else {
      TailPascal(n, c);
      assert Tail(n, c - 1) == Comb(n, c - 1) + Tail(n, c);
      HalfOf(Tail(n + 1, c), t, p);
    }
    assert ExactP(c, b) == t as real / p as real by { if n == 0 { assert t == 1; } }
  }

  lemma HalfOf(x: nat, t: nat, p: nat)
    requires p > 0
    ensures x <= 2 * t ==> x as real / (2 * p) as real <= t as real / p as real
    ensures x >= 2 * t ==> x as real / (2 * p) as real >= t as real / p as real
  {
    var r := 1.0 / p as real;
    assert x as real / (2 * p) as real == x as real * r / 2.0;
    assert t as real / p as real == t as real * r;
    if x <= 2 * t { assert x as real * r <= (2 * t) as real * r; }
    if x >= 2 * t { assert x as real * r >= (2 * t) as real * r; }
  }

  /** The 1% gate with no losses is a count of wins. */
  lemma GateIsSevenWins(c: nat)
    ensures ExactP(c, 0) <= 0.01 <==> c >= 7
  {
    ExactPNoLosses(c);
    assert Pow2(6) == 64 && Pow2(7) == 128;
    if c >= 7 { Pow2Grows(7, c); } else { Pow2Grows(c, 6); }
  }

  lemma {:induction false} Pow2Grows(a: nat, b: nat)
    requires a <= b
    ensures Pow2(a) <= Pow2(b)
    decreases b - a
  {
    if a < b { Pow2Grows(a, b - 1); }
  }
}
