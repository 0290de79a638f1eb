/** The hosted-ranking qualification: one phase of attempts and the gates on its report
    (hosted_ranking_qualification.rs). */
module Qualification {
  import opened Prelude
  import opened Ordering
  import opened Counting
  import opened Statistics

  const REPEATS: nat := 3
  const PILOT_CASES: nat := 6
  const SCORED_CASES: nat := 24
  const PILOT_COST_CAP: nat := 1_000_000
  const SCORED_COST_CAP: nat := 10_000_000
  const ATTEMPT_GUARD: nat := 10_000
  const DIAGNOSIS_GUARD: nat := 10_000
  const VALID_RESPONSE_FLOOR: nat := 990_000
  const P95_NANOS_CEILING: nat := 1_000_000_000
  const P95_COST_CEILING: nat := 10_000
  const REGRESSION: int := 10_000
  const MICROS: nat := 1_000_000

  datatype Phase = Pilot | Scored

  function CaseCount(phase: Phase): nat {
    if phase.Pilot? then PILOT_CASES else SCORED_CASES
  }

  function CostCap(phase: Phase): nat {
    if phase.Pilot? then PILOT_COST_CAP else SCORED_COST_CAP
  }

  datatype Family = Database | Authentication | Queue | Deployment | Cache | Dependency

  const FAMILIES: seq<Family> := [Database, Authentication, Queue, Deployment, Cache, Dependency]

  datatype Consumer = ModelOrder | ReciprocalRankFusion | BoundedFourthAffinity

  datatype PerConsumer<T> = PerConsumer(modelOrder: T, fusion: T, affinity: T) {
    function At(c: Consumer): T {
      match c
      case ModelOrder => modelOrder
      case ReciprocalRankFusion => fusion
      case BoundedFourthAffinity => affinity
    }
  }

  datatype Measure = Measure(recall: nat, sufficient: bool, integrity: bool)

  datatype Arm = Arm(valid: bool, successful: bool, cost: Option<nat>)

  datatype Diagnoses = Diagnoses(deterministic: Arm, consumers: PerConsumer<Arm>)

  datatype QualificationError = CorpusInvariant | ProductExecution | MissingDiagnostic | Arithmetic | CostGuard

  /** What the product and the ranker yield for one attempt, and what the reader would answer if it were asked. */
  datatype Measured = Measured(caseId: string, family: Family, protectedSlice: bool, accepted: bool, nanos: nat,
                               cost: Option<nat>, identityIntact: bool, shadowIdentical: bool,
                               deterministic: Measure, consumers: PerConsumer<Measure>, answers: Diagnoses)

  datatype Attempt = Attempt(m: Measured, integrity: bool, diagnoses: Option<Diagnoses>, diagnosisCalls: nat)

  /** The end of `run_attempt_v1`: the reader is asked only about accepted rankings, four times. */
  function FinishAttempt(m: Measured, reader: bool): Attempt {
    var diagnoses := if reader && m.accepted then Some(m.answers) else None;
    var c := m.consumers;
    Attempt(m,
            m.identityIntact && m.deterministic.integrity && c.modelOrder.integrity && c.fusion.integrity
              && c.affinity.integrity,
            diagnoses,
            if diagnoses.Some? then 4 else 0)
  }

  // ---- One phase ------------------------------------------------------------------------------------------

  datatype Context = Context(phase: Phase, preflight: bool, eligiblePolicy: bool, providerCalls: nat,
                             diagnosisCalls: nat)

  /** The outside world: what becomes of the attempt for a case and a repetition. */
  type Runner = (nat, nat) -> Result<Measured, QualificationError>

  /** The `k`-th attempt in the order of the loops. */
  function Outcome(run: Runner, k: nat): Result<Measured, QualificationError> {
    run(k / REPEATS, k % REPEATS)
  }

  ghost predicate AllRan(run: Runner, n: nat) {
    forall k: nat :: k < n ==> Outcome(run, k).Ok?
  }

  ghost function AttemptsOf(run: Runner, reader: bool, n: nat): (attempts: seq<Attempt>)
    requires AllRan(run, n)
    ensures |attempts| == n
  {
    seq(n, k requires 0 <= k < n => FinishAttempt(Outcome(run, k).value, reader))
  }

  function CallsOf(a: Attempt): nat {
    a.diagnosisCalls
  }

  /** What a phase hands to the evaluation. */
  ghost predicate FromPhase(ctx: Context, attempts: seq<Attempt>) {
    && |attempts| == REPEATS * CaseCount(ctx.phase)
    && ctx.diagnosisCalls == SumBy(CallsOf, attempts)
    && forall a :: a in attempts ==> Finished(a)
  }

  ghost predicate Finished(a: Attempt) {
    (a.diagnoses.Some? ==> a.m.accepted) && a.diagnosisCalls == if a.diagnoses.Some? then 4 else 0
  }

  /** What is known after `n` attempts. */
  ghost predicate Progress(run: Runner, reader: bool, n: nat, attempts: seq<Attempt>, diagnosisCalls: nat) {
    AllRan(run, n) && attempts == AttemptsOf(run, reader, n) && diagnosisCalls == SumBy(CallsOf, attempts)
    && diagnosisCalls <= 4 * n
  }

  ghost predicate FailsWith(run: Runner, n: nat, error: QualificationError) {
    exists k: nat :: k < n && Outcome(run, k) == Err(error)
  }

  /** The two loops of `run_phase_v1`: only an attempt's own failure stops them, never the cost guard or an overflow. */
  method RunAttempts(phase: Phase, run: Runner, reader: bool)
    returns (r: Result<(seq<Attempt>, nat, nat), QualificationError>)
    ensures r.Ok? ==> r.value.1 == REPEATS * CaseCount(phase)
                      && Progress(run, reader, r.value.1, r.value.0, r.value.2)
    ensures r.Err? ==> FailsWith(run, REPEATS * CaseCount(phase), r.error)
  {
    var attempts: seq<Attempt> := [];
    var providerCalls: nat, diagnosisCalls: nat := 0, 0;
    for index := 0 to CaseCount(phase)
      invariant providerCalls == REPEATS * index && Progress(run, reader, providerCalls, attempts, diagnosisCalls)
    {
      for repetition := 0 to REPEATS
        invariant providerCalls == REPEATS * index + repetition
        invariant Progress(run, reader, providerCalls, attempts, diagnosisCalls)
      {
        var guarded := GuardedCost(providerCalls, diagnosisCalls, reader);
        if guarded.None? { return Err(Arithmetic); }
        if guarded.value > CostCap(phase) { return Err(CostGuard); }
        OutcomeAt(run, index, repetition);
        var outcome := run(index, repetition);
        if outcome.Err? { return Err(outcome.error); }
        var attempt := FinishAttempt(outcome.value, reader);
        NextProgress(run, reader, providerCalls, attempts, diagnosisCalls, attempt);
        attempts := attempts + [attempt];
        providerCalls := providerCalls + 1;
        diagnosisCalls := diagnosisCalls + attempt.diagnosisCalls;
      }
    }
    return Ok((attempts, providerCalls, diagnosisCalls));
  }

  lemma OutcomeAt(run: Runner, index: nat, repetition: nat)
    requires repetition < REPEATS
    ensures Outcome(run, REPEATS * index + repetition) == run(index, repetition)
  {
  }

  lemma NextProgress(run: Runner, reader: bool, n: nat, attempts: seq<Attempt>, diagnosisCalls: nat, attempt: Attempt)
    requires Progress(run, reader, n, attempts, diagnosisCalls) && Outcome(run, n).Ok?
    requires attempt == FinishAttempt(Outcome(run, n).value, reader)
    ensures Progress(run, reader, n + 1, attempts + [attempt], diagnosisCalls + attempt.diagnosisCalls)
  {
    SumAppend(CallsOf, attempts, attempt);
  }

  /** The attempts of a phase in which nothing failed, and what the evaluation is told of it. */
  ghost predicate PhaseOf(phase: Phase, run: Runner, reader: bool, ctx: Context, attempts: seq<Attempt>) {
    ctx.phase == phase && ctx.providerCalls == REPEATS * CaseCount(phase)
    && Progress(run, reader, ctx.providerCalls, attempts, ctx.diagnosisCalls)
  }

  lemma PhaseIsFromPhase(phase: Phase, run: Runner, reader: bool, ctx: Context, attempts: seq<Attempt>)
    requires PhaseOf(phase, run, reader, ctx, attempts)
    ensures FromPhase(ctx, attempts)
  {
  }

  /** `run_phase_v1`. It fails only where the outside world fails. */
  method RunPhase(phase: Phase, run: Runner, reader: bool, preflight: Result<bool, QualificationError>,
                  eligiblePolicy: bool)
    returns (r: Result<Report, QualificationError>)
    ensures r.Ok? <==> preflight.Ok? && AllRan(run, REPEATS * CaseCount(phase))
    ensures r.Ok? ==>
      exists ctx, attempts :: PhaseOf(phase, run, reader, ctx, attempts) && ctx.preflight == preflight.value
                              && ctx.eligiblePolicy == eligiblePolicy && r.value == Evaluate(ctx, attempts)
    ensures r.Err? ==> preflight == Err(r.error) || FailsWith(run, REPEATS * CaseCount(phase), r.error)
  {
    if preflight.Err? { return Err(preflight.error); }
    var done := RunAttempts(phase, run, reader);
    if done.Err? { return Err(done.error); }
    var ctx := Context(phase, preflight.value, eligiblePolicy, done.value.1, done.value.2);
    assert PhaseOf(phase, run, reader, ctx, done.value.0);
    return Ok(Evaluate(ctx, done.value.0));
  }

  function CheckedMul(a: nat, b: nat): Option<nat> {
    if a * b <= U64_MAX then Some(a * b) else None
  }

  /** The cost that the next attempt could bring the phase to; `None` where 64-bit arithmetic overflows. */
  function GuardedCost(providerCalls: nat, diagnosisCalls: nat, reader: bool): (cost: Option<nat>)
    ensures providerCalls < 72 && diagnosisCalls <= 4 * providerCalls ==>
      cost.Some? && cost.value <= 50_000 * (providerCalls + 1)
  {
    var calls := CheckedAdd(providerCalls, 1);
    if calls.None? then None else
    var ranking := CheckedMul(calls.value, ATTEMPT_GUARD);
    if ranking.None? then None else
    var asked := if reader then CheckedAdd(diagnosisCalls, 4) else Some(diagnosisCalls);
    if asked.None? then None else
    var diagnosis := CheckedMul(asked.value, DIAGNOSIS_GUARD);
    if diagnosis.None? then None else CheckedAdd(ranking.value, diagnosis.value)
  }

  // ---- Case aggregation -----------------------------------------------------------------------------------

  function Delta(a: Attempt, c: Consumer): int {
    a.m.consumers.At(c).recall - a.m.deterministic.recall
  }

  /** The cases in the order of their first attempts. */
  function CaseIds(attempts: seq<Attempt>): (ids: seq<string>) {
    if attempts == [] then []
    else
      var last := |attempts| - 1;
      var ids := CaseIds(attempts[..last]);
      if attempts[last].m.caseId in ids then ids else ids + [attempts[last].m.caseId]
  }

  function DeltaFor(id: string, c: Consumer): Attempt -> Option<int> {
    (a: Attempt) => if a.m.caseId == id then Some(Delta(a, c)) else None
  }

  function DeltasOf(attempts: seq<Attempt>, id: string, c: Consumer): seq<int> {
    Collect(DeltaFor(id, c), attempts)
  }

  /** The mean improvement of each case, cases in the order of their identifiers. */
  function CaseDeltas(attempts: seq<Attempt>, c: Consumer): (deltas: seq<int>) {
    var ids := Sort(Itself, CaseIds(attempts));
    seq(|ids|, i requires 0 <= i < |ids| => Mean(DeltasOf(attempts, ids[i], c)))
  }

  /** `case_aggregated_deltas_v1`. */
  method CaseAggregatedDeltas(attempts: seq<Attempt>, c: Consumer) returns (deltas: seq<int>)
    ensures deltas == CaseDeltas(attempts, c)
  {
    var grouped: map<string, seq<int>> := map[];
    var ids: seq<string> := [];
    for i := 0 to |attempts|
      invariant ids == CaseIds(attempts[..i])
      invariant forall id :: id in grouped <==> id in ids
      invariant forall id :: id in grouped ==> grouped[id] == DeltasOf(attempts[..i], id, c)
      invariant forall id :: id !in grouped ==> DeltasOf(attempts[..i], id, c) == []
    {
      var id := attempts[i].m.caseId;
      NextAttempt(attempts, i, c);
      if id !in grouped {
        ids := ids + [id];
        grouped := grouped[id := []];
      }
      grouped := grouped[id := grouped[id] + [Delta(attempts[i], c)]];
    }
    assert attempts[..|attempts|] == attempts;
    deltas := MeansInOrder(attempts, c, grouped, ids);
  }

  /** `into_values` and the mean of each group. */
  method MeansInOrder(attempts: seq<Attempt>, c: Consumer, grouped: map<string, seq<int>>, ids: seq<string>)
    returns (deltas: seq<int>)
    requires ids == CaseIds(attempts)
    requires forall id :: id in ids ==> id in grouped && grouped[id] == DeltasOf(attempts, id, c)
    ensures deltas == CaseDeltas(attempts, c)
  {
    var sorted := Sort(Itself, ids);
    SameElements(sorted, ids);
    deltas := [];
    for i := 0 to |sorted|
      invariant deltas == CaseDeltas(attempts, c)[..i]
    {
      MeanAt(attempts, c, sorted, i);
      deltas := deltas + [Mean(grouped[sorted[i]])];
    }
  }

  lemma MeanAt(attempts: seq<Attempt>, c: Consumer, sorted: seq<string>, i: nat)
    requires sorted == Sort(Itself, CaseIds(attempts)) && i < |sorted|
    ensures |CaseDeltas(attempts, c)| == |sorted|
    ensures CaseDeltas(attempts, c)[..i + 1] == CaseDeltas(attempts, c)[..i] + [Mean(DeltasOf(attempts, sorted[i], c))]
  {
    NextSlice(CaseDeltas(attempts, c), i);
  }

  lemma NextSlice(s: seq<int>, i: nat)
    requires i < |s|
    ensures s[..i + 1] == s[..i] + [s[i]]
  {
  }

  lemma NextAttempt(attempts: seq<Attempt>, i: nat, c: Consumer)
    requires i < |attempts|
    ensures attempts[..i + 1][..i] == attempts[..i]
    ensures forall id :: DeltasOf(attempts[..i + 1], id, c)
                      == DeltasOf(attempts[..i], id, c)
                         + (if attempts[i].m.caseId == id then [Delta(attempts[i], c)] else [])
  {
    assert attempts[..i + 1] == attempts[..i] + [attempts[i]];
    forall id ensures DeltasOf(attempts[..i + 1], id, c) == DeltasOf(attempts[..i], id, c)
                         + (if attempts[i].m.caseId == id then [Delta(attempts[i], c)] else [])
    {
      CollectAppend(DeltaFor(id, c), attempts[..i], attempts[i]);
    }
  }

  // ---- The gates ------------------------------------------------------------------------------------------

  function Max(a: int, b: int): int {
    if a < b then b else a
  }

  function SaturatingMul(a: nat, b: nat): nat {
    if a * b <= U64_MAX then a * b else U64_MAX
  }

  /** `count` out of `total`, in millionths. */
  function Rate(count: nat, total: nat): nat {
    SaturatingMul(count, MICROS) / Max(total, 1)
  }

  const I64_MAX: int := 0x7FFF_FFFF_FFFF_FFFF

  function SaturatingMulSigned(a: int, b: int): int {
    if a * b > I64_MAX then I64_MAX else if a * b < -I64_MAX - 1 then -I64_MAX - 1 else a * b
  }

  predicate Accepted(a: Attempt) {
    a.m.accepted
  }

  function Nanos(a: Attempt): Option<int> {
    Some(a.m.nanos)
  }

  function Cost(a: Attempt): Option<int> {
    if a.m.cost.Some? then Some(a.m.cost.value as int) else None
  }

  function One(b: bool): nat {
    if b then 1 else 0
  }

  function ValidArms(a: Attempt): (n: nat)
    ensures n <= 4
  {
    if a.diagnoses.None? then 0
    else
      var d := a.diagnoses.value;
      One(d.deterministic.valid) + One(d.consumers.modelOrder.valid) + One(d.consumers.fusion.valid)
      + One(d.consumers.affinity.valid)
  }

  predicate BoundedArm(arm: Arm) {
    arm.cost.Some? && arm.cost.value <= DIAGNOSIS_GUARD
  }

  predicate BoundedArms(d: Diagnoses) {
    BoundedArm(d.deterministic) && BoundedArm(d.consumers.modelOrder) && BoundedArm(d.consumers.fusion)
    && BoundedArm(d.consumers.affinity)
  }

  predicate DiagnosisAllValid(ctx: Context, attempts: seq<Attempt>) {
    ctx.diagnosisCalls == SaturatingMul(|attempts|, 4) && SumBy(ValidArms, attempts) == ctx.diagnosisCalls
    && forall a | a in attempts :: a.diagnoses.Some? ==> BoundedArms(a.diagnoses.value)
  }

  function ProtectedDelta(c: Consumer): Attempt -> Option<int> {
    (a: Attempt) => if a.m.protectedSlice then Some(Delta(a, c)) else None
  }

  function Least(s: seq<int>): int {
    if |s| == 0 then 0 else if |s| == 1 then s[0] else
    var rest := Least(s[1..]);
    if s[0] <= rest then s[0] else rest
  }

  predicate DeterministicSufficient(a: Attempt) {
    a.m.deterministic.sufficient
  }

  function AssistedSufficient(c: Consumer): Attempt -> bool {
    (a: Attempt) => a.m.consumers.At(c).sufficient
  }

  predicate Diagnosed(a: Attempt) {
    a.diagnoses.Some?
  }

  predicate DeterministicDiagnosed(a: Attempt) {
    a.diagnoses.Some? && a.diagnoses.value.deterministic.successful
  }

  function AssistedDiagnosed(c: Consumer): Attempt -> bool {
    (a: Attempt) => a.diagnoses.Some? && a.diagnoses.value.consumers.At(c).successful
  }

  function SufficiencyDelta(attempts: seq<Attempt>, c: Consumer): int {
    var gained := Count(AssistedSufficient(c), attempts) - Count(DeterministicSufficient, attempts);
    TruncDiv(SaturatingMulSigned(gained, MICROS), Max(|attempts|, 1))
  }

  function SuccessMicros(successes: nat, attempts: seq<Attempt>): Option<nat> {
    var n := Count(Diagnosed, attempts);
    if n > 0 then Some(SaturatingMul(successes, MICROS) / n) else None
  }

  function AssistedMicros(attempts: seq<Attempt>, c: Consumer): Option<nat> {
    SuccessMicros(Count(AssistedDiagnosed(c), attempts), attempts)
  }

  function DiagnosisDelta(attempts: seq<Attempt>, c: Consumer): Option<int> {
    var baseline := SuccessMicros(Count(DeterministicDiagnosed, attempts), attempts);
    var candidate := AssistedMicros(attempts, c);
    if baseline.Some? && candidate.Some? then Some(candidate.value - baseline.value) else None
  }

  function ConsumerSeed(c: Consumer): bv64 {
    match c
    case ModelOrder => 0x4254_5354_0000_0000
    case ReciprocalRankFusion => 0x4254_5354_0000_0001
    case BoundedFourthAffinity => 0x4254_5354_0000_0002
  }

  function Lower(attempts: seq<Attempt>, c: Consumer): int {
    LowerBound(CaseDeltas(attempts, c), ConsumerSeed(c))
  }

  function ProtectedWorst(attempts: seq<Attempt>, c: Consumer): int {
    Least(Collect(ProtectedDelta(c), attempts))
  }

  function RecallIn(family: Family, c: Consumer): Attempt -> Option<int> {
    (a: Attempt) => if a.m.family == family then Some(a.m.consumers.At(c).recall as int) else None
  }

  function Recall(c: Consumer): Attempt -> Option<int> {
    (a: Attempt) => Some(a.m.consumers.At(c).recall as int)
  }

  function WorstFamily(attempts: seq<Attempt>, c: Consumer): int {
    Least(seq(|FAMILIES|, i requires 0 <= i < |FAMILIES| => Mean(Collect(RecallIn(FAMILIES[i], c), attempts))))
  }

  predicate RecallGate(attempts: seq<Attempt>, c: Consumer) {
    Lower(attempts, c) > 0
  }

  predicate ProtectedGate(attempts: seq<Attempt>, c: Consumer) {
    ProtectedWorst(attempts, c) >= -REGRESSION
  }

  predicate SufficiencyGate(attempts: seq<Attempt>, c: Consumer) {
    SufficiencyDelta(attempts, c) >= -REGRESSION
  }

  predicate DiagnosisGate(attempts: seq<Attempt>, c: Consumer) {
    DiagnosisDelta(attempts, c).Some? && DiagnosisDelta(attempts, c).value >= -REGRESSION
  }

  predicate Eligible(ctx: Context, attempts: seq<Attempt>, c: Consumer) {
    RecallGate(attempts, c) && ProtectedGate(attempts, c) && SufficiencyGate(attempts, c)
    && DiagnosisAllValid(ctx, attempts) && DiagnosisGate(attempts, c)
  }

  // ---- Choosing the consumer ------------------------------------------------------------------------------

  /** Smaller is preferred when everything measured is equal. */
  function Preference(c: Consumer): int {
    match c
    case BoundedFourthAffinity => 0
    case ReciprocalRankFusion => 1
    case ModelOrder => 2
  }

  type Key = (int, int, int, int)

  function SelectionKey(attempts: seq<Attempt>, c: Consumer): Key {
    var assisted := AssistedMicros(attempts, c);
    (WorstFamily(attempts, c), if assisted.Some? then assisted.value else 0, Mean(Collect(Recall(c), attempts)),
     -Preference(c))
  }

  predicate KeyLeq(a: Key, b: Key) {
    a.0 < b.0 || (a.0 == b.0 && (a.1 < b.1 || (a.1 == b.1 && (a.2 < b.2 || (a.2 == b.2 && a.3 <= b.3)))))
  }

  /** `max_by_key` over one more candidate: the later of equal candidates wins. */
  function Better(eligible: Consumer -> bool, key: Consumer -> Key, best: Option<Consumer>,
                  c: Consumer): Option<Consumer> {
    if !eligible(c) then best
    else if best.Some? && !KeyLeq(key(best.value), key(c)) then best
    else Some(c)
  }

  function Choose(eligible: Consumer -> bool, key: Consumer -> Key): Option<Consumer> {
    var first := Better(eligible, key, None, ModelOrder);
    var second := Better(eligible, key, first, ReciprocalRankFusion);
    Better(eligible, key, second, BoundedFourthAffinity)
  }

  function EligibleIn(ctx: Context, attempts: seq<Attempt>): Consumer -> bool {
    (c: Consumer) => Eligible(ctx, attempts, c)
  }

  function KeyIn(attempts: seq<Attempt>): Consumer -> Key {
    (c: Consumer) => SelectionKey(attempts, c)
  }

  function Selected(ctx: Context, attempts: seq<Attempt>): Option<Consumer> {
    Choose(EligibleIn(ctx, attempts), KeyIn(attempts))
  }

  datatype Report = Report(integrity: bool, validResponse: bool, latency: bool, cost: bool, recall: bool,
                           protectedSlice: bool, sufficiency: bool, diagnosis: bool, selected: Option<Consumer>,
                           passed: bool)

  predicate LatencyGate(attempts: seq<Attempt>) {
    var p95 := Percentile(Collect(Nanos, attempts), 95);
    p95.Some? && p95.value < P95_NANOS_CEILING
  }

  predicate CostGate(attempts: seq<Attempt>) {
    var costs := Collect(Cost, attempts);
    var p95 := Percentile(costs, 95);
    |costs| == Count(Accepted, attempts) && p95.Some? && p95.value <= P95_COST_CEILING
  }

  predicate IntegrityGate(attempts: seq<Attempt>) {
    forall a | a in attempts :: a.integrity && a.m.shadowIdentical
  }

  predicate ValidResponseGate(attempts: seq<Attempt>) {
    Rate(Count(Accepted, attempts), |attempts|) >= VALID_RESPONSE_FLOOR
  }

  /** `evaluate_report_v1`. */
  function Evaluate(ctx: Context, attempts: seq<Attempt>): Report {
    var integrity := IntegrityGate(attempts);
    var validResponse := ValidResponseGate(attempts);
    var latency := LatencyGate(attempts);
    var cost := CostGate(attempts);
    var recall := exists c :: RecallGate(attempts, c);
    var protectedSlice := exists c :: ProtectedGate(attempts, c);
    var sufficiency := exists c :: SufficiencyGate(attempts, c);
    var diagnosis := DiagnosisAllValid(ctx, attempts) && exists c :: DiagnosisGate(attempts, c);
    var selected := Selected(ctx, attempts);
    Report(integrity, validResponse, latency, cost, recall, protectedSlice, sufficiency, diagnosis, selected,
           ctx.eligiblePolicy && integrity && ctx.preflight && validResponse && latency && cost && recall
           && protectedSlice && sufficiency && diagnosis && selected.Some?)
  }
}
