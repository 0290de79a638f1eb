/** What a passed qualification report implies, and exactly when a report passes. */
module QualificationMeaning {
  import opened Prelude
  import opened Ordering
  import opened Counting
  import opened Statistics
  import opened Qualification

  // ---- Unanimity ------------------------------------------------------------------------------------------

  /** Asked four times, four valid answers, each at a known and bounded cost. */
  ghost predicate FullyDiagnosed(a: Attempt) {
    a.diagnoses.Some? && ValidArms(a) == 4 && BoundedArms(a.diagnoses.value)
  }

  /** The validity of all diagnoses is unanimity: no attempt of the phase may lack one. */
  lemma DiagnosisExact(ctx: Context, attempts: seq<Attempt>)
    requires FromPhase(ctx, attempts)
    ensures DiagnosisAllValid(ctx, attempts) <==> forall a :: a in attempts ==> FullyDiagnosed(a)
  {
    forall a | a in attempts ensures CallsOf(a) <= 4 && ValidArms(a) <= 4 { assert Finished(a); }
    SumAtCeiling(CallsOf, 4, attempts);
    SumAtCeiling(ValidArms, 4, attempts);
    assert SaturatingMul(|attempts|, 4) == 4 * |attempts|;
    forall a | a in attempts ensures CallsOf(a) == 4 <==> a.diagnoses.Some? { assert Finished(a); }
  }

  lemma FullyDiagnosedAccepted(ctx: Context, attempts: seq<Attempt>)
    requires FromPhase(ctx, attempts) && forall a :: a in attempts ==> FullyDiagnosed(a)
    ensures forall a :: a in attempts ==> a.m.accepted
  {
    forall a | a in attempts ensures a.m.accepted { assert Finished(a) && FullyDiagnosed(a); }
  }

  /** With the attempts a phase has, 99 in 100 means every one. */
  lemma ValidResponseIsUnanimity(ctx: Context, attempts: seq<Attempt>)
    requires FromPhase(ctx, attempts)
    ensures ValidResponseGate(attempts) <==> forall a :: a in attempts ==> a.m.accepted
  {
    CountIsAll(Accepted, attempts);
    var n := Count(Accepted, attempts);
    assert SaturatingMul(n, MICROS) == n * MICROS;
    assert |attempts| == 18 || |attempts| == 72;
  }

  // ---- Thresholds -----------------------------------------------------------------------------------------

  /** With the attempts a phase has, a regression of up to one in a hundred means none. */
  lemma SufficiencyIsNoLoss(ctx: Context, attempts: seq<Attempt>, c: Consumer)
    requires FromPhase(ctx, attempts)
    ensures SufficiencyGate(attempts, c)
       <==> Count(AssistedSufficient(c), attempts) >= Count(DeterministicSufficient, attempts)
  {
    var d := Count(AssistedSufficient(c), attempts) - Count(DeterministicSufficient, attempts);
    assert SaturatingMulSigned(d, MICROS) == d * MICROS;
    assert |attempts| == 18 || |attempts| == 72;
  }

  lemma DiagnosisIsNoLoss(ctx: Context, attempts: seq<Attempt>, c: Consumer)
    requires FromPhase(ctx, attempts) && forall a :: a in attempts ==> FullyDiagnosed(a)
    ensures DiagnosisGate(attempts, c)
       <==> Count(AssistedDiagnosed(c), attempts) >= Count(DeterministicDiagnosed, attempts)
  {
    forall a | a in attempts ensures Diagnosed(a) { assert FullyDiagnosed(a); }
    CountIsAll(Diagnosed, attempts);
    assert |attempts| == 18 || |attempts| == 72;
    var x, y := Count(AssistedDiagnosed(c), attempts), Count(DeterministicDiagnosed, attempts);
    assert SaturatingMul(x, MICROS) == x * MICROS && SaturatingMul(y, MICROS) == y * MICROS;
  }

  lemma {:induction false} LeastExact(s: seq<int>, bound: int)
    requires bound <= 0
    ensures Least(s) >= bound <==> forall x :: x in s ==> x >= bound
  {
    if |s| > 1 {
      LeastExact(s[1..], bound);
      assert s == [s[0]] + s[1..];
      assert (forall x :: x in s ==> x >= bound) <==> s[0] >= bound && forall x :: x in s[1..] ==> x >= bound by {
        assert s[0] in s && forall x :: x in s[1..] ==> x in s;
      }
    } else if |s| == 1 {
      assert s[0] in s && forall x :: x in s ==> x == s[0];
    }
  }

  /** The protected slice gate looks at every protected attempt. */
  lemma ProtectedExact(attempts: seq<Attempt>, c: Consumer)
    ensures ProtectedGate(attempts, c)
       <==> forall a :: a in attempts && a.m.protectedSlice ==> Delta(a, c) >= -REGRESSION
  {
    var f := ProtectedDelta(c);
    CollectFrom(f, attempts);
    LeastExact(Collect(f, attempts), -REGRESSION);
    forall a | a in attempts && a.m.protectedSlice ensures Delta(a, c) in Collect(f, attempts) {
      assert f(a) == Some(Delta(a, c));
    }
  }

  // ---- Improvement ----------------------------------------------------------------------------------------

  lemma {:induction false} SomeFloor(s: seq<int>) returns (lo: int)
    ensures forall i :: 0 <= i < |s| ==> lo <= s[i]
  {
    lo := 0;
    if s != [] {
      var rest := SomeFloor(s[1..]);
      lo := if rest < s[0] then rest else s[0];
      forall i | 0 <= i < |s| ensures lo <= s[i] {
        if i > 0 { assert s[i] == s[1..][i - 1]; }
      }
    }
  }

  lemma {:induction false} CaseIdsHaveAttempts(attempts: seq<Attempt>)
    ensures forall id :: id in CaseIds(attempts) ==> exists a :: a in attempts && a.m.caseId == id
  {
    if attempts != [] {
      var last := |attempts| - 1;
      CaseIdsHaveAttempts(attempts[..last]);
      assert attempts == attempts[..last] + [attempts[last]];
      assert attempts[last] in attempts;
    }
  }

  lemma GroupBounded(attempts: seq<Attempt>, c: Consumer, id: string)
    requires id in CaseIds(attempts) && forall a :: a in attempts ==> Delta(a, c) <= 0
    ensures Mean(DeltasOf(attempts, id, c)) <= 0
  {
    var group := DeltasOf(attempts, id, c);
    CollectFrom(DeltaFor(id, c), attempts);
    CaseIdsHaveAttempts(attempts);
    var a :| a in attempts && a.m.caseId == id;
    assert DeltaFor(id, c)(a) == Some(Delta(a, c));
    var lo := SomeFloor(group);
    forall i | 0 <= i < |group| ensures group[i] <= 0 { assert group[i] in group; }
    MeanBetween(group, lo, 0);
  }

  /** Where no attempt beats the deterministic order, the bootstrap cannot claim an improvement. */
  lemma NoGainNoBound(attempts: seq<Attempt>, c: Consumer)
    requires forall a :: a in attempts ==> Delta(a, c) <= 0
    ensures !RecallGate(attempts, c)
  {
    var ids, deltas := Sort(Itself, CaseIds(attempts)), CaseDeltas(attempts, c);
    SameElements(ids, CaseIds(attempts));
    forall i | 0 <= i < |deltas| ensures deltas[i] <= 0 {
      assert ids[i] in CaseIds(attempts);
      GroupBounded(attempts, c, ids[i]);
    }
    if |deltas| >= 2 {
      var lo := SomeFloor(deltas);
      LowerBoundBetween(deltas, ConsumerSeed(c), lo, 0);
    }
  }

  lemma {:induction false} SomeCeiling(s: seq<int>) returns (hi: int)
    ensures forall i :: 0 <= i < |s| ==> s[i] <= hi
  {
    hi := 0;
    if s != [] {
      var rest := SomeCeiling(s[1..]);
      hi := if rest < s[0] then s[0] else rest;
      forall i | 0 <= i < |s| ensures s[i] <= hi {
        if i > 0 { assert s[i] == s[1..][i - 1]; }
      }
    }
  }

  lemma GroupGains(attempts: seq<Attempt>, c: Consumer, id: string, gain: int)
    requires id in CaseIds(attempts) && forall a :: a in attempts ==> Delta(a, c) >= gain
    ensures Mean(DeltasOf(attempts, id, c)) >= gain
  {
    var group := DeltasOf(attempts, id, c);
    CollectFrom(DeltaFor(id, c), attempts);
    CaseIdsHaveAttempts(attempts);
    var a :| a in attempts && a.m.caseId == id;
    assert DeltaFor(id, c)(a) == Some(Delta(a, c));
    var hi := SomeCeiling(group);
    forall i | 0 <= i < |group| ensures gain <= group[i] { assert group[i] in group; }
    MeanBetween(group, gain, hi);
  }

  /** Where every attempt gains at least `gain`, so does the bootstrap bound, as soon as there are two cases. */
  lemma GainGivesBound(attempts: seq<Attempt>, c: Consumer, gain: int)
    requires |CaseIds(attempts)| >= 2 && forall a :: a in attempts ==> Delta(a, c) >= gain
    ensures Lower(attempts, c) >= gain
  {
    var ids, deltas := Sort(Itself, CaseIds(attempts)), CaseDeltas(attempts, c);
    SameElements(ids, CaseIds(attempts));
    forall i | 0 <= i < |deltas| ensures gain <= deltas[i] {
      assert ids[i] in CaseIds(attempts);
      GroupGains(attempts, c, ids[i], gain);
    }
    var hi := SomeCeiling(deltas);
    LowerBoundBetween(deltas, ConsumerSeed(c), gain, hi);
  }

  // ---- Selection ------------------------------------------------------------------------------------------

  /** Some consumer is selected exactly when one is eligible; it is eligible and beats every other eligible one. */
  lemma SelectedIsBest(ctx: Context, attempts: seq<Attempt>)
    ensures Selected(ctx, attempts).Some? <==> exists c :: EligibleIn(ctx, attempts)(c)
    ensures Selected(ctx, attempts).Some? ==> Eligible(ctx, attempts, Selected(ctx, attempts).value)
    ensures Selected(ctx, attempts).Some? ==>
      forall c :: EligibleIn(ctx, attempts)(c) && c != Selected(ctx, attempts).value ==>
        KeyLeq(KeyIn(attempts)(c), KeyIn(attempts)(Selected(ctx, attempts).value))
        && KeyIn(attempts)(c) != KeyIn(attempts)(Selected(ctx, attempts).value)
  {
    ChooseIsBest(EligibleIn(ctx, attempts), KeyIn(attempts));
  }

  lemma ChooseIsBest(eligible: Consumer -> bool, key: Consumer -> Key)
    requires forall c :: key(c).3 == -Preference(c)
    ensures Choose(eligible, key).Some? <==> exists c :: eligible(c)
    ensures Choose(eligible, key).Some? ==> eligible(Choose(eligible, key).value)
    ensures Choose(eligible, key).Some? ==> forall c :: eligible(c) && c != Choose(eligible, key).value ==>
      KeyLeq(key(c), key(Choose(eligible, key).value)) && key(c) != key(Choose(eligible, key).value)
  {
    var first := Better(eligible, key, None, ModelOrder);
    var second := Better(eligible, key, first, ReciprocalRankFusion);
    if c :| eligible(c) { assert c == ModelOrder || c == ReciprocalRankFusion || c == BoundedFourthAffinity; }
    assert key(ModelOrder).3 == -2 && key(ReciprocalRankFusion).3 == -1 && key(BoundedFourthAffinity).3 == 0;
  }

  // ---- The report -----------------------------------------------------------------------------------------

  /** What one consumer has to achieve, without percentages. */
  ghost predicate Meets(attempts: seq<Attempt>, c: Consumer) {
    && RecallGate(attempts, c)
    && (forall a :: a in attempts && a.m.protectedSlice ==> Delta(a, c) >= -REGRESSION)
    && Count(AssistedSufficient(c), attempts) >= Count(DeterministicSufficient, attempts)
    && Count(AssistedDiagnosed(c), attempts) >= Count(DeterministicDiagnosed, attempts)
  }

  /** Eligibility of a consumer is unanimity of the diagnoses and the consumer's own four conditions. */
  lemma EligibleExactly(ctx: Context, attempts: seq<Attempt>, c: Consumer)
    requires FromPhase(ctx, attempts)
    ensures Eligible(ctx, attempts, c) <==> (forall a :: a in attempts ==> FullyDiagnosed(a)) && Meets(attempts, c)
  {
    DiagnosisExact(ctx, attempts);
    if forall a :: a in attempts ==> FullyDiagnosed(a) { GatesExactly(ctx, attempts, c); }
  }

  lemma GatesExactly(ctx: Context, attempts: seq<Attempt>, c: Consumer)
    requires FromPhase(ctx, attempts) && forall a :: a in attempts ==> FullyDiagnosed(a)
    ensures RecallGate(attempts, c) && ProtectedGate(attempts, c) && SufficiencyGate(attempts, c)
            && DiagnosisGate(attempts, c)
       <==> Meets(attempts, c)
  {
    ProtectedExact(attempts, c);
    SufficiencyIsNoLoss(ctx, attempts, c);
    DiagnosisIsNoLoss(ctx, attempts, c);
  }

  lemma {:induction false} CollectSameLength(attempts: seq<Attempt>)
    ensures |Collect(Nanos, attempts)| == |attempts|
  {
    if attempts != [] { CollectSameLength(attempts[1..]); }
  }

  /** Latency and cost as counts of attempts: at least 95 in 100 fast, and every cost known, 95 in 100 of them low. */
  ghost predicate FastAndCheap(attempts: seq<Attempt>) {
    && 100 * CountAtMost(Collect(Nanos, attempts), P95_NANOS_CEILING - 1) >= 95 * |attempts|
    && (forall a :: a in attempts ==> a.m.cost.Some?)
    && 100 * CountAtMost(Collect(Cost, attempts), P95_COST_CEILING) >= 95 * |attempts|
  }

  lemma FastAndCheapExactly(attempts: seq<Attempt>)
    requires attempts != [] && forall a :: a in attempts ==> a.m.accepted
    ensures LatencyGate(attempts) && CostGate(attempts) <==> FastAndCheap(attempts)
  {
    CollectSameLength(attempts);
    P95Meaning(Collect(Nanos, attempts), P95_NANOS_CEILING);
    CountIsAll(Accepted, attempts);
    var costs := Collect(Cost, attempts);
    CollectFrom(Cost, attempts);
    if costs != [] { P95Meaning(costs, P95_COST_CEILING + 1); }
    forall a | a in attempts ensures Cost(a).Some? <==> a.m.cost.Some? {}
  }

  /**
   * A report passes exactly when the policy, the preflight and the integrity checks allow it, every attempt was fully
   * diagnosed, latency and cost are in order, and one single consumer meets all of its conditions.
   */
  lemma PassedExactly(ctx: Context, attempts: seq<Attempt>)
    requires FromPhase(ctx, attempts)
    ensures Evaluate(ctx, attempts).passed
       <==> ctx.eligiblePolicy && ctx.preflight && IntegrityGate(attempts) && FastAndCheap(attempts)
            && (forall a :: a in attempts ==> FullyDiagnosed(a)) && exists c :: Meets(attempts, c)
  {
    SelectedIsBest(ctx, attempts);
    forall c
      ensures EligibleIn(ctx, attempts)(c) <==> (forall a :: a in attempts ==> FullyDiagnosed(a)) && Meets(attempts, c)
    {
      EligibleExactly(ctx, attempts, c);
    }
    DiagnosisExact(ctx, attempts);
    if forall a :: a in attempts ==> FullyDiagnosed(a) {
      FullyDiagnosedAccepted(ctx, attempts);
      ValidResponseIsUnanimity(ctx, attempts);
      FastAndCheapExactly(attempts);
      if c :| Meets(attempts, c) { EligibleOpensGates(ctx, attempts, c); }
    }
  }

  /** The four gates that ask for any consumer ask nothing more once one consumer is eligible. */
  lemma EligibleOpensGates(ctx: Context, attempts: seq<Attempt>, c: Consumer)
    requires Eligible(ctx, attempts, c)
    ensures var r := Evaluate(ctx, attempts); r.recall && r.protectedSlice && r.sufficiency && r.diagnosis
  {
  }

  /** What a reader may conclude from a passed report about the selected consumer and about every attempt. */
  lemma PassedMeans(ctx: Context, attempts: seq<Attempt>)
    requires FromPhase(ctx, attempts) && Evaluate(ctx, attempts).passed
    ensures Evaluate(ctx, attempts).selected.Some? && Meets(attempts, Evaluate(ctx, attempts).selected.value)
    ensures exists a :: a in attempts && Delta(a, Evaluate(ctx, attempts).selected.value) > 0
    ensures forall a :: a in attempts ==> a.m.accepted && FullyDiagnosed(a)
  {
    var c := Evaluate(ctx, attempts).selected.value;
    SelectedIsBest(ctx, attempts);
    EligibleExactly(ctx, attempts, c);
    FullyDiagnosedAccepted(ctx, attempts);
    if forall a :: a in attempts ==> Delta(a, c) <= 0 { NoGainNoBound(attempts, c); }
  }
}
