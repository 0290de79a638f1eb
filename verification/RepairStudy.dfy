/** Eligibility of a repair route, and the memory ablation (score-connected-repair-study.py,
    score-learning-route.py). */
module RepairStudy {
  import opened Prelude
  import opened SignTest
  import opened Statistics
  import opened Counting

  type CaseId = nat

  datatype Arm = NoLogs | FirstId | Severity | Current | Challenger | ChallengerNoMemory

  datatype Case = Case(id: CaseId, project: string, family: string, heldOut: bool)

  datatype Row = Row(repaired: bool, elapsedMs: nat, modelCalls: nat)

  datatype Study = Study(cases: seq<Case>, rows: map<(CaseId, Arm), Row>)

  function HeldOut(cases: seq<Case>): (held: seq<Case>)
    ensures forall c :: c in held ==> c in cases && c.heldOut
  {
    if cases == [] then []
    else (if cases[0].heldOut then [cases[0]] else []) + HeldOut(cases[1..])
  }

  /** `read_study` has already refused a study in which some case lacks a row for some arm. */
  predicate Repaired(s: Study, c: Case, arm: Arm) {
    (c.id, arm) in s.rows && s.rows[(c.id, arm)].repaired
  }

  /** `counts[arm]`. */
  function Repairs(s: Study, held: seq<Case>, arm: Arm): nat {
    if held == [] then 0 else (if Repaired(s, held[0], arm) then 1 else 0) + Repairs(s, held[1..], arm)
  }

  /** Cases that `a` repairs and `b` does not. */
  function Only(s: Study, held: seq<Case>, a: Arm, b: Arm): nat {
    if held == [] then 0
    else (if Repaired(s, held[0], a) && !Repaired(s, held[0], b) then 1 else 0) + Only(s, held[1..], a, b)
  }

  function Calls(s: Study, held: seq<Case>, arm: Arm): nat {
    if held == [] then 0
    else (if (held[0].id, arm) in s.rows then s.rows[(held[0].id, arm)].modelCalls else 0) + Calls(s, held[1..], arm)
  }

  /** `paired(target, baseline)` read through the gate that every comparison faces. */
  predicate PassesGate(s: Study, held: seq<Case>, target: Arm, baseline: Arm) {
    Only(s, held, baseline, target) == 0
    && ExactP(Only(s, held, target, baseline), Only(s, held, baseline, target)) <= 0.01
  }

  function ProjectOf(c: Case): string {
    c.project
  }

  function FamilyOf(c: Case): string {
    c.family
  }

  predicate SufficientlyIndependent(held: seq<Case>) {
    |held| >= 10 && |Elements(Each(ProjectOf, held))| >= 3 && |Elements(Each(FamilyOf, held))| >= 3
  }

  function AtLeastOne(x: real): real {
    if x < 1.0 then 1.0 else x
  }

  function Elapsed(s: Study, held: seq<Case>, arm: Arm): (ms: seq<int>) {
    seq(|held|, i requires 0 <= i < |held| =>
      if (held[i].id, arm) in s.rows then s.rows[(held[i].id, arm)].elapsedMs else 0)
  }

  /** `percentile_95` of an arm's elapsed times; it is only taken of held-out cases that exist. */
  function P95(s: Study, held: seq<Case>, arm: Arm): int {
    var p := Percentile(Elapsed(s, held, arm), 95);
    if p.Some? then p.value else 0
  }

  /** Time and call ceilings relative to the current route. */
  predicate WithinCost(s: Study, held: seq<Case>) {
    P95(s, held, Challenger) as real <= 1.25 * AtLeastOne(P95(s, held, Current) as real)
    && Calls(s, held, Challenger) as real <= 1.25 * AtLeastOne(Calls(s, held, Current) as real)
  }

  /** `challenger_eligible_for_human_review`. */
  predicate ChallengerEligible(s: Study) {
    var held := HeldOut(s.cases);
    && SufficientlyIndependent(held)
    && Repairs(s, held, Challenger) > Repairs(s, held, Current)
    && PassesGate(s, held, Challenger, NoLogs) && PassesGate(s, held, Challenger, FirstId)
    && PassesGate(s, held, Challenger, Severity) && PassesGate(s, held, Challenger, Current)
    && WithinCost(s, held)
  }

  /** `current_eligible_for_human_review`. */
  predicate CurrentEligible(s: Study) {
    var held := HeldOut(s.cases);
    && SufficientlyIndependent(held)
    && Repairs(s, held, Current) > Repairs(s, held, NoLogs)
    && PassesGate(s, held, Current, NoLogs) && PassesGate(s, held, Current, FirstId)
    && PassesGate(s, held, Current, Severity)
  }

  /** `score_ablation(..)["qualified"]`. */
  predicate AblationQualified(s: Study) {
    var held := HeldOut(s.cases);
    && Repairs(s, held, Challenger) > Repairs(s, held, ChallengerNoMemory)
    && Only(s, held, ChallengerNoMemory, Challenger) == 0
    && ExactP(Only(s, held, Challenger, ChallengerNoMemory), Only(s, held, ChallengerNoMemory, Challenger)) <= 0.01
  }

  /** Two arms' totals differ by their discordant cases. */
  lemma {:induction false} RepairsDiffer(s: Study, held: seq<Case>, a: Arm, b: Arm)
    ensures Repairs(s, held, a) - Repairs(s, held, b) == Only(s, held, a, b) - Only(s, held, b, a)
  {
    if held != [] { RepairsDiffer(s, held[1..], a, b); }
  }

  lemma {:induction false} NoneLost(s: Study, held: seq<Case>, a: Arm, b: Arm)
    ensures Only(s, held, b, a) == 0 <==> forall c :: c in held && Repaired(s, c, b) ==> Repaired(s, c, a)
  {
    if held != [] {
      NoneLost(s, held[1..], a, b);
      assert held == [held[0]] + held[1..];
    }
  }

  // ---- The gate as dominance ------------------------------------------------------------------------------

  /** What passing means case by case: nothing lost, at least seven won, hence at least seven more repairs. */
  ghost predicate Dominates(s: Study, held: seq<Case>, target: Arm, baseline: Arm) {
    && (forall c :: c in held && Repaired(s, c, baseline) ==> Repaired(s, c, target))
    && Repairs(s, held, target) >= Repairs(s, held, baseline) + 7
  }

  lemma GateIsDominance(s: Study, held: seq<Case>, target: Arm, baseline: Arm)
    ensures PassesGate(s, held, target, baseline) <==> Dominates(s, held, target, baseline)
  {
    NoneLost(s, held, target, baseline);
    RepairsDiffer(s, held, target, baseline);
    GateIsSevenWins(Only(s, held, target, baseline));
  }

  // ---- The held-out cases of the study --------------------------------------------------------------------

  /** The positions of the study at which a held-out case has the property. */
  ghost function Places(cases: seq<Case>, p: Case -> bool): set<nat> {
    set i: nat | i < |cases| && cases[i].heldOut && p(cases[i])
  }

  lemma {:induction false} HeldOutAppend(cases: seq<Case>, c: Case)
    ensures HeldOut(cases + [c]) == if c.heldOut then HeldOut(cases) + [c] else HeldOut(cases)
  {
    if cases == [] {
      assert cases + [c] == [c] && HeldOut([c][1..]) == [];
    } else {
      assert (cases + [c])[0] == cases[0] && (cases + [c])[1..] == cases[1..] + [c];
      HeldOutAppend(cases[1..], c);
      if c.heldOut { Regroup(if cases[0].heldOut then [cases[0]] else [], HeldOut(cases[1..]), [c]); }
    }
  }

  /** Whatever is counted over the scored list is counted over the held-out positions of the study. */
  lemma {:induction false} CountHeld(cases: seq<Case>, p: Case -> bool)
    ensures Count(p, HeldOut(cases)) == |Places(cases, p)|
    decreases |cases|
  {
    if cases == [] {
      assert Places(cases, p) == {};
    } else {
      var last := |cases| - 1;
      var c, rest := cases[last], cases[..last];
      assert cases == rest + [c];
      HeldOutAppend(rest, c);
      if c.heldOut { CountAppend(p, HeldOut(rest), c); }
      CountHeld(rest, p);
      PlacesAppend(rest, c, p);
    }
  }

  lemma PlacesAppend(cases: seq<Case>, c: Case, p: Case -> bool)
    ensures |Places(cases + [c], p)| == |Places(cases, p)| + if c.heldOut && p(c) then 1 else 0
  {
    var more := cases + [c];
    forall i: nat | i < |cases| ensures more[i] == cases[i] {}
    if c.heldOut && p(c) {
      assert Places(more, p) == Places(cases, p) + {|cases|};
    } else {
      assert Places(more, p) == Places(cases, p);
    }
  }

  /** The scored list is the study's held-out cases: the same members as often, in the same order. */
  lemma {:induction false} HeldOutExactly(cases: seq<Case>, c: Case)
    ensures c in HeldOut(cases) <==> c in cases && c.heldOut
    ensures multiset(HeldOut(cases))[c] == if c.heldOut then multiset(cases)[c] else 0
  {
    if cases != [] {
      HeldOutExactly(cases[1..], c);
      assert cases == [cases[0]] + cases[1..];
      var head := if cases[0].heldOut then [cases[0]] else [];
      assert multiset(head + HeldOut(cases[1..]))[c] == multiset(head)[c] + multiset(HeldOut(cases[1..]))[c];
    }
  }

  lemma {:induction false} HeldOutInOrder(before: seq<Case>, after: seq<Case>)
    ensures HeldOut(before + after) == HeldOut(before) + HeldOut(after)
  {
    if before == [] {
      assert before + after == after;
    } else {
      assert (before + after)[0] == before[0] && (before + after)[1..] == before[1..] + after;
      HeldOutInOrder(before[1..], after);
      Regroup(if before[0].heldOut then [before[0]] else [], HeldOut(before[1..]), HeldOut(after));
    }
  }

  /** The held-out positions of the study that an arm repaired. */
  ghost function RepairedPlaces(s: Study, arm: Arm): set<nat> {
    set i: nat | i < |s.cases| && s.cases[i].heldOut
                 && (s.cases[i].id, arm) in s.rows && s.rows[(s.cases[i].id, arm)].repaired
  }

  ghost function HeldPlaces(s: Study): set<nat> {
    set i: nat | i < |s.cases| && s.cases[i].heldOut
  }

  /** The held-out positions on which an arm took at most this many quarters of a millisecond. */
  ghost function TimedPlaces(s: Study, arm: Arm, quarters: int): set<nat> {
    set i: nat | i < |s.cases| && s.cases[i].heldOut
                 && 4 * (if (s.cases[i].id, arm) in s.rows then s.rows[(s.cases[i].id, arm)].elapsedMs else 0)
                    <= quarters
  }

  /** The model calls of an arm on the held-out ones of the first `n` cases. */
  ghost function HeldCalls(s: Study, arm: Arm, n: nat): nat
    requires n <= |s.cases|
  {
    if n == 0 then 0
    else
      HeldCalls(s, arm, n - 1)
      + if s.cases[n - 1].heldOut && (s.cases[n - 1].id, arm) in s.rows
        then s.rows[(s.cases[n - 1].id, arm)].modelCalls else 0
  }

  function RepairedBy(s: Study, arm: Arm): Case -> bool {
    (c: Case) => Repaired(s, c, arm)
  }

  lemma {:induction false} RepairsAreCounted(s: Study, held: seq<Case>, arm: Arm)
    ensures Repairs(s, held, arm) == Count(RepairedBy(s, arm), held)
  {
    if held != [] { RepairsAreCounted(s, held[1..], arm); }
  }

  lemma RepairsArePlaces(s: Study, arm: Arm)
    ensures Repairs(s, HeldOut(s.cases), arm) == |RepairedPlaces(s, arm)|
  {
    RepairsAreCounted(s, HeldOut(s.cases), arm);
    CountHeld(s.cases, RepairedBy(s, arm));
    assert RepairedPlaces(s, arm) == Places(s.cases, RepairedBy(s, arm));
  }

  lemma HeldArePlaces(s: Study)
    ensures |HeldOut(s.cases)| == |HeldPlaces(s)|
  {
    CountIsAll((c: Case) => true, HeldOut(s.cases));
    CountHeld(s.cases, (c: Case) => true);
    assert HeldPlaces(s) == Places(s.cases, (c: Case) => true);
  }

  /** Over the study itself: the target repairs whatever held-out case the baseline repairs, and seven more. */
  ghost predicate Beats(s: Study, target: Arm, baseline: Arm) {
    RepairedPlaces(s, baseline) <= RepairedPlaces(s, target)
    && |RepairedPlaces(s, target)| >= |RepairedPlaces(s, baseline)| + 7
  }

  lemma NoneLostAtPlaces(s: Study, target: Arm, baseline: Arm)
    requires forall c :: c in HeldOut(s.cases) && Repaired(s, c, baseline) ==> Repaired(s, c, target)
    ensures RepairedPlaces(s, baseline) <= RepairedPlaces(s, target)
  {
    forall i | i in RepairedPlaces(s, baseline) ensures i in RepairedPlaces(s, target) {
      HeldOutExactly(s.cases, s.cases[i]);
    }
  }

  lemma NoneLostAmongCases(s: Study, target: Arm, baseline: Arm, c: Case)
    requires RepairedPlaces(s, baseline) <= RepairedPlaces(s, target)
    requires c in HeldOut(s.cases) && Repaired(s, c, baseline)
    ensures Repaired(s, c, target)
  {
    HeldOutExactly(s.cases, c);
    var i: nat :| i < |s.cases| && s.cases[i] == c;
    assert i in RepairedPlaces(s, baseline);
  }

  lemma DominanceIsBeating(s: Study, target: Arm, baseline: Arm)
    ensures Dominates(s, HeldOut(s.cases), target, baseline) <==> Beats(s, target, baseline)
  {
    RepairsArePlaces(s, target);
    RepairsArePlaces(s, baseline);
    if Dominates(s, HeldOut(s.cases), target, baseline) { NoneLostAtPlaces(s, target, baseline); }
    if Beats(s, target, baseline) {
      forall c | c in HeldOut(s.cases) && Repaired(s, c, baseline) ensures Repaired(s, c, target) {
        NoneLostAmongCases(s, target, baseline, c);
      }
    }
  }

  // ---- Independence and cost over the study ---------------------------------------------------------------

  ghost predicate ThreeDiffer(names: seq<string>, places: set<nat>) {
    exists i, j, k :: i in places && j in places && k in places && i < |names| && j < |names| && k < |names|
                      && names[i] != names[j] && names[j] != names[k] && names[i] != names[k]
  }

  lemma ThreeOfSet(names: set<string>)
    ensures |names| >= 3 <==> exists a, b, c :: a in names && b in names && c in names && a != b && b != c && a != c
  {
    if |names| >= 3 {
      var a :| a in names;
      assert |names - {a}| >= 2;
      var b :| b in names - {a};
      assert |names - {a} - {b}| >= 1;
      var c :| c in names - {a} - {b};
      assert a in names && b in names && c in names && a != b && b != c && a != c;
    }
    if a, b, c :| a in names && b in names && c in names && a != b && b != c && a != c {
      SubsetSize({a, b, c}, names);
      assert |{a, b, c}| == 3;
    }
  }

  lemma ThreeKinds(s: Study, of: Case -> string)
    ensures |Elements(Each(of, HeldOut(s.cases)))| >= 3 <==> ThreeDiffer(Each(of, s.cases), HeldPlaces(s))
  {
    var names, all := Elements(Each(of, HeldOut(s.cases))), Each(of, s.cases);
    ThreeOfSet(names);
    if |names| >= 3 {
      var a, b, c :| a in names && b in names && c in names && a != b && b != c && a != c;
      var i := PlaceOf(s, of, a);
      var j := PlaceOf(s, of, b);
      var k := PlaceOf(s, of, c);
      assert all[i] != all[j] && all[j] != all[k] && all[i] != all[k];
    }
    if ThreeDiffer(all, HeldPlaces(s)) {
      var i, j, k :| i in HeldPlaces(s) && j in HeldPlaces(s) && k in HeldPlaces(s)
                     && all[i] != all[j] && all[j] != all[k] && all[i] != all[k];
      NameAt(s, of, i);
      NameAt(s, of, j);
      NameAt(s, of, k);
    }
  }

  lemma NameAt(s: Study, of: Case -> string, i: nat)
    requires i in HeldPlaces(s)
    ensures Each(of, s.cases)[i] in Elements(Each(of, HeldOut(s.cases)))
  {
    HeldOutExactly(s.cases, s.cases[i]);
    EachExactly(of, HeldOut(s.cases), of(s.cases[i]));
  }

  lemma PlaceOf(s: Study, of: Case -> string, name: string) returns (i: nat)
    requires name in Elements(Each(of, HeldOut(s.cases)))
    ensures i in HeldPlaces(s) && Each(of, s.cases)[i] == name
  {
    EachExactly(of, HeldOut(s.cases), name);
    var c :| c in HeldOut(s.cases) && of(c) == name;
    HeldOutExactly(s.cases, c);
    i :| 0 <= i < |s.cases| && s.cases[i] == c;
  }

  /** Ten held-out cases from three projects and three fault families. */
  ghost predicate Independent(s: Study) {
    |HeldPlaces(s)| >= 10 && ThreeDiffer(Each(ProjectOf, s.cases), HeldPlaces(s))
    && ThreeDiffer(Each(FamilyOf, s.cases), HeldPlaces(s))
  }

  lemma IndependentExactly(s: Study)
    ensures SufficientlyIndependent(HeldOut(s.cases)) <==> Independent(s)
  {
    HeldArePlaces(s);
    ThreeKinds(s, ProjectOf);
    ThreeKinds(s, FamilyOf);
  }

  lemma {:induction false} HeldCallsAreCalls(s: Study, arm: Arm, n: nat)
    requires n <= |s.cases|
    ensures HeldCalls(s, arm, n) == Calls(s, HeldOut(s.cases[..n]), arm)
  {
    if n > 0 {
      HeldCallsAreCalls(s, arm, n - 1);
      var c := s.cases[n - 1];
      assert s.cases[..n] == s.cases[..n - 1] + [c];
      HeldOutAppend(s.cases[..n - 1], c);
      if c.heldOut { CallsAppend(s, HeldOut(s.cases[..n - 1]), c, arm); }
    }
  }

  lemma {:induction false} CallsAppend(s: Study, held: seq<Case>, c: Case, arm: Arm)
    ensures Calls(s, held + [c], arm)
         == Calls(s, held, arm) + if (c.id, arm) in s.rows then s.rows[(c.id, arm)].modelCalls else 0
  {
    if held == [] {
      assert held + [c] == [c] && Calls(s, [c][1..], arm) == 0;
    } else {
      assert (held + [c])[0] == held[0] && (held + [c])[1..] == held[1..] + [c];
      CallsAppend(s, held[1..], c, arm);
    }
  }

  function TimedBy(s: Study, arm: Arm, t: int): Case -> bool {
    (c: Case) => (if (c.id, arm) in s.rows then s.rows[(c.id, arm)].elapsedMs else 0) <= t
  }

  lemma {:induction false} TimesAreCounted(s: Study, held: seq<Case>, arm: Arm, t: int)
    ensures CountAtMost(Elapsed(s, held, arm), t) == Count(TimedBy(s, arm, t), held)
  {
    if held != [] {
      TimesAreCounted(s, held[1..], arm, t);
      assert Elapsed(s, held, arm)[1..] == Elapsed(s, held[1..], arm);
    }
  }

  lemma TimesArePlaces(s: Study, arm: Arm, t: int, quarters: int)
    requires 4 * t <= quarters < 4 * t + 4
    ensures CountAtMost(Elapsed(s, HeldOut(s.cases), arm), t) == |TimedPlaces(s, arm, quarters)|
  {
    TimesAreCounted(s, HeldOut(s.cases), arm, t);
    CountHeld(s.cases, TimedBy(s, arm, t));
    assert TimedPlaces(s, arm, quarters) == Places(s.cases, TimedBy(s, arm, t));
  }

  /** The 95th percentile of an arm is at most so many quarters exactly when 95 in 100 held-out cases are. */
  lemma ArmP95(s: Study, arm: Arm, quarters: int)
    requires HeldOut(s.cases) != []
    ensures 4 * P95(s, HeldOut(s.cases), arm) <= quarters
       <==> 100 * |TimedPlaces(s, arm, quarters)| >= 95 * |HeldPlaces(s)|
  {
    HeldArePlaces(s);
    var times := Elapsed(s, HeldOut(s.cases), arm);
    var t := quarters / 4;
    P95Meaning(times, t + 1);
    TimesArePlaces(s, arm, t, quarters);
  }

  /** `m` is a time that the current route's percentile reaches and the challenger's stays within a quarter above. */
  ghost predicate TimeWitness(s: Study, m: nat) {
    && 100 * |TimedPlaces(s, Current, 4 * m - 1)| < 95 * |HeldPlaces(s)|
    && 100 * |TimedPlaces(s, Challenger, 5 * (if m < 1 then 1 else m))| >= 95 * |HeldPlaces(s)|
  }

  /** Both ceilings over the study's own rows. */
  ghost predicate Affordable(s: Study) {
    var mine, theirs := HeldCalls(s, Challenger, |s.cases|), HeldCalls(s, Current, |s.cases|);
    (exists m: nat :: TimeWitness(s, m)) && 4 * mine <= 5 * (if theirs < 1 then 1 else theirs)
  }

  lemma P95NotNegative(s: Study, held: seq<Case>, arm: Arm)
    ensures P95(s, held, arm) >= 0
  {
    if held != [] {
      var times := Elapsed(s, held, arm);
      P95Meaning(times, 0);
      CountAboveAll(times, -1);
    }
  }

  /** A quarter above, in whole numbers. */
  lemma QuarterAbove(p: int, m: int)
    ensures p as real <= 1.25 * AtLeastOne(m as real) <==> 4 * p <= 5 * if m < 1 then 1 else m
  {
  }

  lemma WitnessExactly(s: Study, m: nat)
    requires HeldOut(s.cases) != []
    ensures TimeWitness(s, m)
       <==> m <= P95(s, HeldOut(s.cases), Current)
            && 4 * P95(s, HeldOut(s.cases), Challenger) <= 5 * if m < 1 then 1 else m
  {
    ArmP95(s, Challenger, 5 * (if m < 1 then 1 else m));
    ArmP95(s, Current, 4 * m - 1);
  }

  lemma TimeExactly(s: Study)
    requires HeldOut(s.cases) != []
    ensures P95(s, HeldOut(s.cases), Challenger) as real <= 1.25 * AtLeastOne(P95(s, HeldOut(s.cases), Current) as real)
       <==> exists m: nat :: TimeWitness(s, m)
  {
    var held := HeldOut(s.cases);
    P95NotNegative(s, held, Current);
    QuarterAbove(P95(s, held, Challenger), P95(s, held, Current));
    WitnessExactly(s, P95(s, held, Current));
    if m: nat :| TimeWitness(s, m) { WitnessExactly(s, m); }
  }

  lemma AffordableExactly(s: Study)
    requires HeldOut(s.cases) != []
    ensures WithinCost(s, HeldOut(s.cases)) <==> Affordable(s)
  {
    TimeExactly(s);
    QuarterAbove(Calls(s, HeldOut(s.cases), Challenger), Calls(s, HeldOut(s.cases), Current));
    assert s.cases[..|s.cases|] == s.cases;
    HeldCallsAreCalls(s, Challenger, |s.cases|);
    HeldCallsAreCalls(s, Current, |s.cases|);
  }

  // ---- Eligibility over the study -------------------------------------------------------------------------

  lemma GateIsBeating(s: Study, target: Arm, baseline: Arm)
    ensures PassesGate(s, HeldOut(s.cases), target, baseline) <==> Beats(s, target, baseline)
  {
    GateIsDominance(s, HeldOut(s.cases), target, baseline);
    DominanceIsBeating(s, target, baseline);
  }

  lemma MoreRepairs(s: Study, target: Arm, baseline: Arm)
    requires Beats(s, target, baseline)
    ensures Repairs(s, HeldOut(s.cases), target) > Repairs(s, HeldOut(s.cases), baseline)
  {
    RepairsArePlaces(s, target);
    RepairsArePlaces(s, baseline);
  }

  /** Eligibility, restated over the study without any probability: the challenger beats all four baselines on the
      held-out cases, within the ceilings. The strict-improvement test in the gate adds nothing. */
  lemma EligibleExactlyWhenDominant(s: Study)
    ensures ChallengerEligible(s)
       <==> && Independent(s)
            && (forall b :: b in {NoLogs, FirstId, Severity, Current} ==> Beats(s, Challenger, b))
            && Affordable(s)
  {
    IndependentExactly(s);
    GateIsBeating(s, Challenger, NoLogs);
    GateIsBeating(s, Challenger, FirstId);
    GateIsBeating(s, Challenger, Severity);
    GateIsBeating(s, Challenger, Current);
    if Beats(s, Challenger, Current) { MoreRepairs(s, Challenger, Current); }
    if HeldOut(s.cases) != [] { AffordableExactly(s); }
  }

  lemma CurrentEligibleExactlyWhenDominant(s: Study)
    ensures CurrentEligible(s)
       <==> Independent(s) && forall b :: b in {NoLogs, FirstId, Severity} ==> Beats(s, Current, b)
  {
    IndependentExactly(s);
    GateIsBeating(s, Current, NoLogs);
    GateIsBeating(s, Current, FirstId);
    GateIsBeating(s, Current, Severity);
    if Beats(s, Current, NoLogs) { MoreRepairs(s, Current, NoLogs); }
  }

  lemma AblationQualifiedExactlyWhenDominant(s: Study)
    ensures AblationQualified(s) <==> Beats(s, Challenger, ChallengerNoMemory)
  {
    GateIsBeating(s, Challenger, ChallengerNoMemory);
    if Beats(s, Challenger, ChallengerNoMemory) { MoreRepairs(s, Challenger, ChallengerNoMemory); }
  }

  /** If both routes are eligible the challenger is ahead of every plain baseline by at least fourteen repairs. */
  lemma MarginsAddUp(s: Study, b: Arm)
    requires ChallengerEligible(s) && CurrentEligible(s) && b in {NoLogs, FirstId, Severity}
    ensures |RepairedPlaces(s, Challenger)| >= |RepairedPlaces(s, b)| + 14 && |HeldPlaces(s)| >= 14
  {
    EligibleExactlyWhenDominant(s);
    CurrentEligibleExactlyWhenDominant(s);
    assert Beats(s, Challenger, Current) && Beats(s, Current, b);
    SubsetSize(RepairedPlaces(s, Challenger), HeldPlaces(s));
  }
}
