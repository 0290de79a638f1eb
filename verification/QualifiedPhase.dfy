/** A qualification phase read from its runs: exactly when its report passes, and which consumer it prefers. */
module QualifiedPhase {
  import opened Prelude
  import opened Ordering
  import opened Counting
  import opened Statistics
  import opened Qualification
  import opened QualificationMeaning

  // ---- Means over attempts --------------------------------------------------------------------------------

  ghost function RecallOf(m: Measured, c: Consumer): nat {
    if c == ModelOrder then m.consumers.modelOrder.recall
    else if c == ReciprocalRankFusion then m.consumers.fusion.recall
    else m.consumers.affinity.recall
  }

  /** The sum of what `f` reads from the first `n` attempts. */
  ghost function Total(f: Attempt -> Option<int>, s: seq<Attempt>, n: nat): int
    requires n <= |s|
  {
    if n == 0 then 0 else Total(f, s, n - 1) + if f(s[n - 1]).Some? then f(s[n - 1]).value else 0
  }

  /** The positions that `f` reads something from. */
  ghost function ReadAt(f: Attempt -> Option<int>, s: seq<Attempt>): set<nat> {
    set i: nat | i < |s| && f(s[i]).Some?
  }

  /** The mean of what is read, rounded toward zero; zero where nothing is. */
  ghost function MeanOf(f: Attempt -> Option<int>, s: seq<Attempt>): int {
    if |ReadAt(f, s)| == 0 then 0 else TruncDiv(Total(f, s, |s|), |ReadAt(f, s)|)
  }

  lemma {:induction false} SumOfAppend(s: seq<int>, x: int)
    ensures Sum(s + [x]) == Sum(s) + x
  {
    if s == [] {
      assert s + [x] == [x] && Sum([x][1..]) == 0;
    } else {
      assert (s + [x])[0] == s[0] && (s + [x])[1..] == s[1..] + [x];
      SumOfAppend(s[1..], x);
    }
  }

  lemma {:induction false} CollectTotals(f: Attempt -> Option<int>, g: Attempt -> Option<int>, s: seq<Attempt>, n: nat)
    requires n <= |s| && forall a :: f(a) == g(a)
    ensures Sum(Collect(f, s[..n])) == Total(g, s, n) && |Collect(f, s[..n])| == |ReadAt(g, s[..n])|
  {
    if n == 0 {
      assert ReadAt(g, s[..0]) == {};
    } else {
      CollectTotals(f, g, s, n - 1);
      var a := s[n - 1];
      assert s[..n] == s[..n - 1] + [a] && f(a) == g(a);
      CollectAppend(f, s[..n - 1], a);
      ReadOneMore(g, s[..n - 1], a);
      if f(a).Some? {
        SumOfAppend(Collect(f, s[..n - 1]), f(a).value);
      } else {
        assert Collect(f, s[..n]) == Collect(f, s[..n - 1]);
      }
    }
  }

  lemma ReadOneMore(g: Attempt -> Option<int>, s: seq<Attempt>, a: Attempt)
    ensures |ReadAt(g, s + [a])| == |ReadAt(g, s)| + if g(a).Some? then 1 else 0
  {
    if g(a).Some? {
      assert ReadAt(g, s + [a]) == ReadAt(g, s) + {|s|};
    } else {
      assert ReadAt(g, s + [a]) == ReadAt(g, s);
    }
  }

  lemma MeanExactly(f: Attempt -> Option<int>, g: Attempt -> Option<int>, s: seq<Attempt>)
    requires forall a :: f(a) == g(a)
    ensures Mean(Collect(f, s)) == MeanOf(g, s)
  {
    CollectTotals(f, g, s, |s|);
    assert s[..|s|] == s;
  }

  // ---- The cases ------------------------------------------------------------------------------------------

  /** The gain in recall of an attempt at this case. */
  ghost function GainAt(id: string, c: Consumer): Attempt -> Option<int> {
    (a: Attempt) => if a.m.caseId == id then Some(RecallOf(a.m, c) - a.m.deterministic.recall) else None
  }

  lemma {:induction false} CaseIdsExactly(attempts: seq<Attempt>)
    ensures Distinct(CaseIds(attempts))
    ensures forall id :: id in CaseIds(attempts) <==> exists a :: a in attempts && a.m.caseId == id
  {
    if attempts != [] {
      var last := |attempts| - 1;
      CaseIdsExactly(attempts[..last]);
      assert attempts == attempts[..last] + [attempts[last]];
      assert attempts[last] in attempts;
    }
  }

  /** One value for every case that has an attempt, in the order of the identifiers: its mean gain. */
  lemma CaseDeltasExactly(attempts: seq<Attempt>, c: Consumer) returns (ids: seq<string>)
    ensures SortedBy(Itself, ids) && Distinct(ids)
    ensures forall id :: id in ids <==> exists a :: a in attempts && a.m.caseId == id
    ensures |CaseDeltas(attempts, c)| == |ids|
    ensures forall i :: 0 <= i < |ids| ==> CaseDeltas(attempts, c)[i] == MeanOf(GainAt(ids[i], c), attempts)
  {
    ids := SortedIds(attempts);
    CaseDeltasAreMeans(attempts, c, ids);
  }

  lemma CaseDeltasAreMeans(attempts: seq<Attempt>, c: Consumer, ids: seq<string>)
    requires ids == Sort(Itself, CaseIds(attempts))
    ensures |CaseDeltas(attempts, c)| == |ids|
    ensures forall i :: 0 <= i < |ids| ==> CaseDeltas(attempts, c)[i] == MeanOf(GainAt(ids[i], c), attempts)
  {
    forall i | 0 <= i < |ids| ensures CaseDeltas(attempts, c)[i] == MeanOf(GainAt(ids[i], c), attempts) {
      CaseMean(attempts, c, ids[i]);
    }
  }

  lemma CaseMean(attempts: seq<Attempt>, c: Consumer, id: string)
    ensures Mean(DeltasOf(attempts, id, c)) == MeanOf(GainAt(id, c), attempts)
  {
    MeanExactly(DeltaFor(id, c), GainAt(id, c), attempts);
  }

  lemma SortedIds(attempts: seq<Attempt>) returns (ids: seq<string>)
    ensures ids == Sort(Itself, CaseIds(attempts)) && SortedBy(Itself, ids) && Distinct(ids)
    ensures forall id :: id in ids <==> exists a :: a in attempts && a.m.caseId == id
  {
    CaseIdsExactly(attempts);
    ids := Sort(Itself, CaseIds(attempts));
    SameElements(ids, CaseIds(attempts));
    DistinctSorted(CaseIds(attempts), ids);
  }

  lemma DistinctSorted(ids: seq<string>, sorted: seq<string>)
    requires Distinct(ids) && multiset(sorted) == multiset(ids)
    ensures Distinct(sorted)
  {
    DistinctIsCardinality(ids);
    DistinctIsCardinality(sorted);
    SameElements(sorted, ids);
    assert Elements(sorted) == Elements(ids);
    assert |sorted| == |multiset(sorted)| == |ids|;
  }

  // ---- What the selection prefers -------------------------------------------------------------------------

  ghost function RecallAt(family: Family, c: Consumer): Attempt -> Option<int> {
    (a: Attempt) => if a.m.family == family then Some(RecallOf(a.m, c)) else None
  }

  ghost function AnyRecall(c: Consumer): Attempt -> Option<int> {
    (a: Attempt) => Some(RecallOf(a.m, c))
  }

  ghost predicate Succeeded(a: Attempt, c: Consumer) {
    a.diagnoses.Some?
    && if c == ModelOrder then a.diagnoses.value.consumers.modelOrder.successful
       else if c == ReciprocalRankFusion then a.diagnoses.value.consumers.fusion.successful
       else a.diagnoses.value.consumers.affinity.successful
  }

  ghost function SuccessesOf(attempts: seq<Attempt>, c: Consumer): set<nat> {
    set i: nat | i < |attempts| && Succeeded(attempts[i], c)
  }

  /** `w` is the lowest mean recall of a family. */
  ghost predicate IsWorstFamily(attempts: seq<Attempt>, c: Consumer, w: int) {
    (forall f: Family :: MeanOf(RecallAt(f, c), attempts) >= w)
    && exists f: Family :: MeanOf(RecallAt(f, c), attempts) == w
  }

  lemma {:induction false} LeastIsIn(s: seq<int>)
    requires s != []
    ensures Least(s) in s && forall x :: x in s ==> Least(s) <= x
  {
    if |s| > 1 {
      LeastIsIn(s[1..]);
      assert s == [s[0]] + s[1..];
    }
  }

  lemma WorstFamilyExactly(attempts: seq<Attempt>, c: Consumer)
    ensures IsWorstFamily(attempts, c, WorstFamily(attempts, c))
  {
    var means := seq(|FAMILIES|, i requires 0 <= i < |FAMILIES| => Mean(Collect(RecallIn(FAMILIES[i], c), attempts)));
    LeastIsIn(means);
    forall f: Family ensures Mean(Collect(RecallIn(f, c), attempts)) == MeanOf(RecallAt(f, c), attempts) {
      MeanExactly(RecallIn(f, c), RecallAt(f, c), attempts);
    }
    var k :| 0 <= k < |means| && means[k] == Least(means);
    assert MeanOf(RecallAt(FAMILIES[k], c), attempts) == Least(means);
    forall f: Family ensures MeanOf(RecallAt(f, c), attempts) >= Least(means) {
      var i := PlaceOfFamily(f);
      assert means[i] in means;
    }
  }

  lemma PlaceOfFamily(f: Family) returns (i: nat)
    ensures i < |FAMILIES| && FAMILIES[i] == f
  {
    i := match f case Database => 0 case Authentication => 1 case Queue => 2 case Deployment => 3 case Cache => 4
                 case Dependency => 5;
  }

  /** Ahead of `d` when all is equal: affinity, then fusion, then model order. */
  ghost predicate GoesFirst(c: Consumer, d: Consumer) {
    (c == BoundedFourthAffinity && d != BoundedFourthAffinity) || (c == ReciprocalRankFusion && d == ModelOrder)
  }

  /** The preference: worst family, then successful diagnoses, then mean recall, then the fixed order. */
  ghost predicate Preferred(attempts: seq<Attempt>, c: Consumer, d: Consumer, worstC: int, worstD: int) {
    var successC, successD := |SuccessesOf(attempts, c)|, |SuccessesOf(attempts, d)|;
    var recallC, recallD := MeanOf(AnyRecall(c), attempts), MeanOf(AnyRecall(d), attempts);
    || worstC > worstD
    || (worstC == worstD && successC > successD)
    || (worstC == worstD && successC == successD && recallC > recallD)
    || (worstC == worstD && successC == successD && recallC == recallD && GoesFirst(c, d))
  }

  lemma SuccessesCounted(attempts: seq<Attempt>, c: Consumer)
    ensures Count(AssistedDiagnosed(c), attempts) == |SuccessesOf(attempts, c)|
  {
    CountIsWhere(AssistedDiagnosed(c), attempts);
    assert Where(AssistedDiagnosed(c), attempts) == SuccessesOf(attempts, c);
  }

  lemma MicrosOrder(x: nat, y: nat, n: nat)
    requires n == 18 || n == 72
    requires x <= n && y <= n
    ensures x > y <==> SaturatingMul(x, MICROS) / n > SaturatingMul(y, MICROS) / n
    ensures x == y <==> SaturatingMul(x, MICROS) / n == SaturatingMul(y, MICROS) / n
  {
    assert SaturatingMul(x, MICROS) == x * MICROS && SaturatingMul(y, MICROS) == y * MICROS;
  }

  /** The consumer selected is preferred to every other eligible one. */
  lemma SelectedIsPreferred(ctx: Context, attempts: seq<Attempt>, d: Consumer)
    requires FromPhase(ctx, attempts) && Selected(ctx, attempts).Some?
    requires Eligible(ctx, attempts, d) && d != Selected(ctx, attempts).value
    ensures var c := Selected(ctx, attempts).value;
            exists worstC, worstD :: IsWorstFamily(attempts, c, worstC) && IsWorstFamily(attempts, d, worstD)
                                     && Preferred(attempts, c, d, worstC, worstD)
  {
    var c := Selected(ctx, attempts).value;
    SelectedIsBest(ctx, attempts);
    assert EligibleIn(ctx, attempts)(d);
    WorstFamilyExactly(attempts, c);
    WorstFamilyExactly(attempts, d);
    KeyIsPreference(ctx, attempts, c, d);
  }

  lemma KeyIsPreference(ctx: Context, attempts: seq<Attempt>, c: Consumer, d: Consumer)
    requires FromPhase(ctx, attempts) && Eligible(ctx, attempts, d) && c != d
    requires KeyLeq(SelectionKey(attempts, d), SelectionKey(attempts, c))
    ensures Preferred(attempts, c, d, WorstFamily(attempts, c), WorstFamily(attempts, d))
  {
    MeanExactly(Recall(c), AnyRecall(c), attempts);
    MeanExactly(Recall(d), AnyRecall(d), attempts);
    EligibleExactly(ctx, attempts, d);
    SuccessOrder(ctx, attempts, c, d);
  }

  /** When everything is diagnosed, comparing the rates of success is comparing the successes. */
  lemma SuccessOrder(ctx: Context, attempts: seq<Attempt>, c: Consumer, d: Consumer)
    requires FromPhase(ctx, attempts) && forall a :: a in attempts ==> FullyDiagnosed(a)
    ensures AssistedMicros(attempts, c).Some? && AssistedMicros(attempts, d).Some?
    ensures |SuccessesOf(attempts, c)| > |SuccessesOf(attempts, d)|
       <==> AssistedMicros(attempts, c).value > AssistedMicros(attempts, d).value
    ensures |SuccessesOf(attempts, c)| == |SuccessesOf(attempts, d)|
       <==> AssistedMicros(attempts, c).value == AssistedMicros(attempts, d).value
  {
    SuccessesCounted(attempts, c);
    SuccessesCounted(attempts, d);
    forall a | a in attempts ensures Diagnosed(a) { assert FullyDiagnosed(a); }
    CountIsAll(Diagnosed, attempts);
    MicrosOrder(|SuccessesOf(attempts, c)|, |SuccessesOf(attempts, d)|, |attempts|);
  }

  // ---- When a phase passes --------------------------------------------------------------------------------

  ghost predicate AnswerInOrder(arm: Arm) {
    arm.valid && arm.cost.Some? && arm.cost.value <= 10_000
  }

  /** A run that nothing is wrong with: its own identity, the five arms' integrity and the four answers. */
  ghost predicate InOrder(r: Result<Measured, QualificationError>) {
    r.Ok?
    && var m := r.value;
       && m.accepted && m.identityIntact && m.shadowIdentical && m.cost.Some?
       && m.deterministic.integrity && m.consumers.modelOrder.integrity && m.consumers.fusion.integrity
       && m.consumers.affinity.integrity
       && AnswerInOrder(m.answers.deterministic) && AnswerInOrder(m.answers.consumers.modelOrder)
       && AnswerInOrder(m.answers.consumers.fusion) && AnswerInOrder(m.answers.consumers.affinity)
  }

  /** Nothing is wrong with any of the three runs of any case. */
  ghost predicate AllInOrder(run: Runner, cases: nat) {
    forall i: nat, r: nat :: i < cases && r < 3 ==> InOrder(run(i, r))
  }

  ghost function Cases(phase: Phase): nat {
    if phase == Pilot then 6 else 24
  }

  /** Which of the first `n` runs, three to a case, have the property. */
  ghost function RunsWhere(run: Runner, n: nat, p: Measured -> bool): set<nat> {
    set k: nat | k < n && run(k / 3, k % 3).Ok? && p(run(k / 3, k % 3).value)
  }

  ghost function SufficientWith(c: Consumer): Measured -> bool {
    (m: Measured) => if c == ModelOrder then m.consumers.modelOrder.sufficient
                     else if c == ReciprocalRankFusion then m.consumers.fusion.sufficient
                     else m.consumers.affinity.sufficient
  }

  ghost function SolvedWith(c: Consumer): Measured -> bool {
    (m: Measured) => if c == ModelOrder then m.answers.consumers.modelOrder.successful
                     else if c == ReciprocalRankFusion then m.answers.consumers.fusion.successful
                     else m.answers.consumers.affinity.successful
  }

  ghost function SeedOf(c: Consumer): bv64 {
    if c == ModelOrder then 0x4254_5354_0000_0000
    else if c == ReciprocalRankFusion then 0x4254_5354_0000_0001 else 0x4254_5354_0000_0002
  }

  /** At most 500 of the 10,000 resampled means of the case gains are not positive. */
  ghost predicate SurelyGains(attempts: seq<Attempt>, c: Consumer) {
    var gains := CaseDeltas(attempts, c);
    |gains| >= 2 && CountAtMost(SampleMeans(gains, SeedOf(c)), 0) <= 500
  }

  /** No run in the protected slice loses more than 10,000 micros of recall. */
  ghost predicate Protects(run: Runner, n: nat, c: Consumer) {
    forall k: nat :: k < n && run(k / 3, k % 3).Ok? && run(k / 3, k % 3).value.protectedSlice ==>
      RecallOf(run(k / 3, k % 3).value, c) + 10_000 >= run(k / 3, k % 3).value.deterministic.recall
  }

  /** What the consumer has to achieve over the runs. */
  ghost predicate Wins(run: Runner, n: nat, c: Consumer, attempts: seq<Attempt>) {
    && SurelyGains(attempts, c) && Protects(run, n, c)
    && |RunsWhere(run, n, SufficientWith(c))| >= |RunsWhere(run, n, (m: Measured) => m.deterministic.sufficient)|
    && |RunsWhere(run, n, SolvedWith(c))| >= |RunsWhere(run, n, (m: Measured) => m.answers.deterministic.successful)|
  }

  /** 95 in 100 runs take less than a second, and 95 in 100 cost at most 10,000. */
  ghost predicate Quick(run: Runner, n: nat) {
    && 100 * |RunsWhere(run, n, (m: Measured) => m.nanos < 1_000_000_000)| >= 95 * n
    && 100 * |RunsWhere(run, n, (m: Measured) => m.cost.Some? && m.cost.value <= 10_000)| >= 95 * n
  }

  /** The attempts are those of the runs. */
  ghost predicate Ran(run: Runner, reader: bool, n: nat, attempts: seq<Attempt>) {
    AllRan(run, n) && attempts == AttemptsOf(run, reader, n)
  }

  lemma RunAt(run: Runner, reader: bool, n: nat, attempts: seq<Attempt>, k: nat)
    requires Ran(run, reader, n, attempts) && k < n
    ensures run(k / 3, k % 3).Ok? && attempts[k] == FinishAttempt(run(k / 3, k % 3).value, reader)
  {
    assert Outcome(run, k).Ok?;
  }

  /** A count over the attempts is a count over the runs. */
  lemma CountOverRuns(run: Runner, reader: bool, n: nat, attempts: seq<Attempt>, p: Attempt -> bool,
                      q: Measured -> bool)
    requires Ran(run, reader, n, attempts) && forall m :: p(FinishAttempt(m, reader)) == q(m)
    ensures Count(p, attempts) == |RunsWhere(run, n, q)|
  {
    CountIsWhere(p, attempts);
    forall k: nat | k < n ensures run(k / 3, k % 3).Ok? && p(attempts[k]) == q(run(k / 3, k % 3).value) {
      RunAt(run, reader, n, attempts, k);
    }
    assert Where(p, attempts) == RunsWhere(run, n, q);
  }

  lemma {:induction false} CountOfCollected(f: Attempt -> Option<int>, t: int, p: Attempt -> bool,
                                            attempts: seq<Attempt>)
    requires forall a :: p(a) <==> f(a).Some? && f(a).value <= t
    ensures CountAtMost(Collect(f, attempts), t) == Count(p, attempts)
  {
    if attempts != [] {
      CountOfCollected(f, t, p, attempts[1..]);
      var a, rest := attempts[0], Collect(f, attempts[1..]);
      if f(a).Some? {
        assert ([f(a).value] + rest)[1..] == rest;
      } else {
        assert [] + rest == rest;
      }
    }
  }

  lemma GainsExactly(attempts: seq<Attempt>, c: Consumer)
    ensures RecallGate(attempts, c) <==> SurelyGains(attempts, c)
  {
    var gains := CaseDeltas(attempts, c);
    assert ConsumerSeed(c) == SeedOf(c);
    if |gains| >= 2 { LowerBoundMeaning(gains, SeedOf(c), 0); }
  }

  lemma ProtectsExactly(run: Runner, reader: bool, n: nat, attempts: seq<Attempt>, c: Consumer)
    requires Ran(run, reader, n, attempts)
    ensures (forall a :: a in attempts && a.m.protectedSlice ==> Delta(a, c) >= -REGRESSION) <==> Protects(run, n, c)
  {
    forall k: nat | k < n ensures run(k / 3, k % 3).Ok? && attempts[k].m == run(k / 3, k % 3).value {
      RunAt(run, reader, n, attempts, k);
    }
    if forall a :: a in attempts && a.m.protectedSlice ==> Delta(a, c) >= -REGRESSION {
      forall k: nat | k < n && run(k / 3, k % 3).value.protectedSlice
        ensures RecallOf(run(k / 3, k % 3).value, c) + 10_000 >= run(k / 3, k % 3).value.deterministic.recall
      {
        assert attempts[k] in attempts;
      }
    }
    if Protects(run, n, c) {
      forall a | a in attempts && a.m.protectedSlice ensures Delta(a, c) >= -REGRESSION {
        var k :| 0 <= k < |attempts| && attempts[k] == a;
        assert run(k / 3, k % 3).Ok?;
      }
    }
  }

  lemma SufficientExactly(run: Runner, reader: bool, n: nat, attempts: seq<Attempt>, c: Consumer)
    requires Ran(run, reader, n, attempts)
    ensures Count(AssistedSufficient(c), attempts) == |RunsWhere(run, n, SufficientWith(c))|
    ensures Count(DeterministicSufficient, attempts)
         == |RunsWhere(run, n, (m: Measured) => m.deterministic.sufficient)|
  {
    CountOverRuns(run, reader, n, attempts, AssistedSufficient(c), SufficientWith(c));
    CountOverRuns(run, reader, n, attempts, DeterministicSufficient, (m: Measured) => m.deterministic.sufficient);
  }

  lemma SolvedExactly(run: Runner, n: nat, attempts: seq<Attempt>, c: Consumer)
    requires Ran(run, true, n, attempts) && forall a :: a in attempts ==> a.m.accepted
    ensures Count(AssistedDiagnosed(c), attempts) == |RunsWhere(run, n, SolvedWith(c))|
    ensures Count(DeterministicDiagnosed, attempts)
         == |RunsWhere(run, n, (m: Measured) => m.answers.deterministic.successful)|
  {
    CountIsWhere(AssistedDiagnosed(c), attempts);
    CountIsWhere(DeterministicDiagnosed, attempts);
    forall k: nat | k < n
      ensures run(k / 3, k % 3).Ok? && AssistedDiagnosed(c)(attempts[k]) == SolvedWith(c)(run(k / 3, k % 3).value)
      ensures DeterministicDiagnosed(attempts[k]) == run(k / 3, k % 3).value.answers.deterministic.successful
    {
      RunAt(run, true, n, attempts, k);
      assert attempts[k] in attempts;
    }
    assert Where(AssistedDiagnosed(c), attempts) == RunsWhere(run, n, SolvedWith(c));
    assert Where(DeterministicDiagnosed, attempts)
        == RunsWhere(run, n, (m: Measured) => m.answers.deterministic.successful);
  }

  lemma MeetsIsWinning(run: Runner, n: nat, attempts: seq<Attempt>, c: Consumer)
    requires Ran(run, true, n, attempts) && forall a :: a in attempts ==> a.m.accepted
    ensures Meets(attempts, c) <==> Wins(run, n, c, attempts)
  {
    GainsExactly(attempts, c);
    ProtectsExactly(run, true, n, attempts, c);
    SufficientExactly(run, true, n, attempts, c);
    SolvedExactly(run, n, attempts, c);
  }

  lemma QuickExactly(run: Runner, reader: bool, n: nat, attempts: seq<Attempt>)
    requires Ran(run, reader, n, attempts)
    ensures FastAndCheap(attempts) <==> Quick(run, n) && forall a :: a in attempts ==> a.m.cost.Some?
  {
    var fast := (a: Attempt) => a.m.nanos < 1_000_000_000;
    var cheap := (a: Attempt) => a.m.cost.Some? && a.m.cost.value <= 10_000;
    CountOfCollected(Nanos, P95_NANOS_CEILING - 1, fast, attempts);
    CountOfCollected(Cost, P95_COST_CEILING, cheap, attempts);
    CountOverRuns(run, reader, n, attempts, fast, (m: Measured) => m.nanos < 1_000_000_000);
    CountOverRuns(run, reader, n, attempts, cheap, (m: Measured) => m.cost.Some? && m.cost.value <= 10_000);
  }

  /** What the checks on every single attempt ask of a run. */
  lemma AttemptInOrder(r: Result<Measured, QualificationError>, reader: bool)
    requires r.Ok?
    ensures var a := FinishAttempt(r.value, reader);
            a.integrity && a.m.shadowIdentical && a.m.cost.Some? && FullyDiagnosed(a) <==> reader && InOrder(r)
  {
  }

  ghost predicate AttemptsInOrder(attempts: seq<Attempt>) {
    forall a :: a in attempts ==> a.integrity && a.m.shadowIdentical && a.m.cost.Some? && FullyDiagnosed(a)
  }

  lemma PassedByAttempts(ctx: Context, attempts: seq<Attempt>)
    requires FromPhase(ctx, attempts)
    ensures Evaluate(ctx, attempts).passed
       <==> ctx.eligiblePolicy && ctx.preflight && AttemptsInOrder(attempts) && FastAndCheap(attempts)
            && exists c :: Meets(attempts, c)
  {
    PassedExactly(ctx, attempts);
    InOrderParts(attempts);
  }

  lemma InOrderParts(attempts: seq<Attempt>)
    ensures IntegrityGate(attempts) && (forall a :: a in attempts ==> FullyDiagnosed(a)) && FastAndCheap(attempts)
       <==> AttemptsInOrder(attempts) && FastAndCheap(attempts)
  {
    if FastAndCheap(attempts) {
      forall a | a in attempts ensures a.m.cost.Some? {}
    }
  }

  lemma InOrderExactly(run: Runner, reader: bool, n: nat, attempts: seq<Attempt>, cases: nat)
    requires Ran(run, reader, n, attempts) && n == 3 * cases && cases > 0
    ensures AttemptsInOrder(attempts) <==> reader && AllInOrder(run, cases)
  {
    if AttemptsInOrder(attempts) {
      forall i: nat, r: nat | i < cases && r < 3 ensures reader && InOrder(run(i, r)) {
        var k := 3 * i + r;
        RunAt(run, reader, n, attempts, k);
        assert k / 3 == i && k % 3 == r && attempts[k] in attempts;
        AttemptInOrder(run(i, r), reader);
      }
      assert InOrder(run(0, 0));
    }
    if reader && AllInOrder(run, cases) {
      forall a | a in attempts ensures a.integrity && a.m.shadowIdentical && a.m.cost.Some? && FullyDiagnosed(a) {
        var k :| 0 <= k < |attempts| && attempts[k] == a;
        RunAt(run, reader, n, attempts, k);
        assert InOrder(run(k / 3, k % 3));
        AttemptInOrder(run(k / 3, k % 3), reader);
      }
    }
  }

  /**
   * The report of a phase passes if and only if policy and preflight allow it, there is a reader, nothing is wrong with
   * any run, the runs are quick, and one single consumer wins.
   */
  lemma PhasePassesExactly(phase: Phase, run: Runner, reader: bool, ctx: Context, attempts: seq<Attempt>)
    requires PhaseOf(phase, run, reader, ctx, attempts)
    ensures Evaluate(ctx, attempts).passed
       <==> && ctx.eligiblePolicy && ctx.preflight && reader
            && AllInOrder(run, Cases(phase)) && Quick(run, 3 * Cases(phase))
            && exists c :: Wins(run, 3 * Cases(phase), c, attempts)
  {
    PhaseIsFromPhase(phase, run, reader, ctx, attempts);
    PassedByAttempts(ctx, attempts);
    RunsDecide(ctx, run, reader, Cases(phase), attempts);
  }

  /** The conditions on the attempts, said of the runs. */
  lemma RunsDecide(ctx: Context, run: Runner, reader: bool, cases: nat, attempts: seq<Attempt>)
    requires Ran(run, reader, 3 * cases, attempts) && cases > 0 && FromPhase(ctx, attempts)
    ensures AttemptsInOrder(attempts) && FastAndCheap(attempts) && (exists c :: Meets(attempts, c))
       <==> reader && AllInOrder(run, cases) && Quick(run, 3 * cases) && exists c :: Wins(run, 3 * cases, c, attempts)
  {
    InOrderExactly(run, reader, 3 * cases, attempts, cases);
    if AttemptsInOrder(attempts) {
      WinnersDecide(ctx, run, 3 * cases, attempts);
      InOrderIsPriced(run, reader, 3 * cases, attempts);
    }
  }

  lemma InOrderIsPriced(run: Runner, reader: bool, n: nat, attempts: seq<Attempt>)
    requires Ran(run, reader, n, attempts) && AttemptsInOrder(attempts)
    ensures FastAndCheap(attempts) <==> Quick(run, n)
  {
    QuickExactly(run, reader, n, attempts);
  }

  lemma WinnersDecide(ctx: Context, run: Runner, n: nat, attempts: seq<Attempt>)
    requires Ran(run, true, n, attempts) && FromPhase(ctx, attempts) && AttemptsInOrder(attempts)
    ensures (exists c :: Meets(attempts, c)) <==> exists c :: Wins(run, n, c, attempts)
  {
    FullyDiagnosedAccepted(ctx, attempts);
    forall c ensures Meets(attempts, c) <==> Wins(run, n, c, attempts) { MeetsIsWinning(run, n, attempts, c); }
  }

  /** The run has a strictly better recall with the consumer than without. */
  ghost predicate Gains(r: Result<Measured, QualificationError>, c: Consumer) {
    r.Ok? && RecallOf(r.value, c) > r.value.deterministic.recall
  }

  /** After a pass nothing was wrong with any run, the selected consumer wins, and some run gained with it. */
  lemma PassedPhaseMeans(phase: Phase, run: Runner, reader: bool, ctx: Context, attempts: seq<Attempt>)
    requires PhaseOf(phase, run, reader, ctx, attempts) && Evaluate(ctx, attempts).passed
    ensures reader && AllInOrder(run, Cases(phase))
    ensures Evaluate(ctx, attempts).selected.Some?
    ensures Wins(run, 3 * Cases(phase), Evaluate(ctx, attempts).selected.value, attempts)
    ensures SomeRunGains(run, Cases(phase), Evaluate(ctx, attempts).selected.value)
  {
    PhasePassesExactly(phase, run, reader, ctx, attempts);
    PhaseIsFromPhase(phase, run, reader, ctx, attempts);
    PassedMeans(ctx, attempts);
    var c := Evaluate(ctx, attempts).selected.value;
    MeetsIsWinning(run, 3 * Cases(phase), attempts, c);
    GainingRun(run, reader, Cases(phase), attempts, c);
  }

  ghost predicate SomeRunGains(run: Runner, cases: nat, c: Consumer) {
    exists i: nat, r: nat :: i < cases && r < 3 && Gains(run(i, r), c)
  }

  lemma GainingRun(run: Runner, reader: bool, cases: nat, attempts: seq<Attempt>, c: Consumer)
    requires Ran(run, reader, 3 * cases, attempts) && exists a :: a in attempts && Delta(a, c) > 0
    ensures SomeRunGains(run, cases, c)
  {
    var a :| a in attempts && Delta(a, c) > 0;
    var k :| 0 <= k < |attempts| && attempts[k] == a;
    RunAt(run, reader, 3 * cases, attempts, k);
    assert Gains(run(k / 3, k % 3), c);
  }
}
