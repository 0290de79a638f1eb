/** The reduction receipt of a corpus of compact views (compact_agent_view.rs). */
module CorpusReceipt {
  import opened Prelude
  import opened Ordering
  import opened Counting

  const MICROS: nat := 1_000_000

  datatype ReceiptError = InvalidCorpusMeasurement | ArithmeticOverflow

  /** One case: byte counts are 64-bit unsigned integers. */
  datatype Reduction = Reduction(caseDigest: string, config: string, canonical: nat, compact: nat, saved: nat)

  datatype Receipt = Receipt(corpus: string, schedule: string, config: string, expected: nat, rendered: nat,
                             needsMore: nat, cases: seq<Reduction>, canonical: nat, compact: nat, saved: nat,
                             minimumSaved: nat, reductionMicros: nat)

  function CaseDigest(c: Reduction): string {
    c.caseDigest
  }

  function CanonicalOf(c: Reduction): nat {
    c.canonical
  }

  function CompactOf(c: Reduction): nat {
    c.compact
  }

  function SavedOf(c: Reduction): nat {
    c.saved
  }

  ghost predicate Words(cases: seq<Reduction>) {
    forall c :: c in cases ==> c.canonical <= U64_MAX && c.compact <= U64_MAX && c.saved <= U64_MAX
  }

  predicate CaseHolds(c: Reduction, config: string) {
    c.config == config && c.saved > 0 && CheckedAdd(c.compact, c.saved) == Some(c.canonical)
  }

  /** `saved` out of `canonical` in millionths, rounded down. */
  function Ratio(saved: nat, canonical: nat): nat
    requires canonical > 0
  {
    saved * MICROS / canonical
  }

  /** A single case's reduction. */
  function CaseMicros(c: Reduction): nat
    requires c.canonical > 0
  {
    Ratio(c.saved, c.canonical)
  }

  /** What a corpus has to be, without regard to order. */
  ghost predicate Acceptable(expected: nat, needsMore: nat, cases: seq<Reduction>) {
    && expected != 0 && cases != [] && |cases| + needsMore == expected && expected <= U64_MAX
    && Distinct(cases) && KeyedBy(CaseDigest, cases)
    && (exists config :: OneConfig(cases, config))
    && SumBy(CanonicalOf, cases) <= U64_MAX
  }

  ghost predicate OneConfig(cases: seq<Reduction>, config: string) {
    forall c :: c in cases ==> CaseHolds(c, config)
  }

  // ---- Totals ---------------------------------------------------------------------------------------------

  /** Compact and saved bytes make up the canonical bytes, in total as in every case. */
  lemma {:induction false} TotalsAddUp(cases: seq<Reduction>, config: string)
    requires OneConfig(cases, config)
    ensures SumBy(CompactOf, cases) + SumBy(SavedOf, cases) == SumBy(CanonicalOf, cases)
    ensures cases != [] ==> SumBy(SavedOf, cases) > 0
  {
    if cases != [] {
      assert cases[0] in cases;
      assert OneConfig(cases[1..], config) by { assert forall c :: c in cases[1..] ==> c in cases; }
      TotalsAddUp(cases[1..], config);
    }
  }

  /** `saved` is at least, or less than, `micros` millionths of `canonical`. */
  ghost predicate AtLeast(saved: nat, canonical: nat, micros: nat) {
    micros * canonical <= saved * MICROS
  }

  ghost predicate LessThan(saved: nat, canonical: nat, micros: nat) {
    saved * MICROS < micros * canonical
  }

  lemma AtLeastAdds(s: nat, c: nat, s': nat, c': nat, micros: nat)
    ensures AtLeast(s, c, micros) && AtLeast(s', c', micros) ==> AtLeast(s + s', c + c', micros)
    ensures LessThan(s, c, micros) && LessThan(s', c', micros) ==> LessThan(s + s', c + c', micros)
  {
    assert micros * (c + c') == micros * c + micros * c';
  }

  lemma {:induction false} TotalAtLeast(cases: seq<Reduction>, lo: nat)
    requires forall c :: c in cases ==> AtLeast(c.saved, c.canonical, lo)
    ensures AtLeast(SumBy(SavedOf, cases), SumBy(CanonicalOf, cases), lo)
  {
    if cases != [] {
      assert cases[0] in cases && forall c :: c in cases[1..] ==> c in cases;
      TotalAtLeast(cases[1..], lo);
      AtLeastAdds(cases[0].saved, cases[0].canonical, SumBy(SavedOf, cases[1..]), SumBy(CanonicalOf, cases[1..]), lo);
    }
  }

  lemma {:induction false} TotalLessThan(cases: seq<Reduction>, hi: nat)
    requires cases != [] && forall c :: c in cases ==> LessThan(c.saved, c.canonical, hi)
    ensures LessThan(SumBy(SavedOf, cases), SumBy(CanonicalOf, cases), hi)
  {
    assert cases[0] in cases && forall c :: c in cases[1..] ==> c in cases;
    if |cases| > 1 {
      TotalLessThan(cases[1..], hi);
      AtLeastAdds(cases[0].saved, cases[0].canonical, SumBy(SavedOf, cases[1..]), SumBy(CanonicalOf, cases[1..]), hi);
    } else {
      assert cases[1..] == [];
    }
  }

  lemma FloorAtLeast(a: nat, n: nat, lo: nat)
    requires n > 0
    ensures lo <= a / n <==> lo * n <= a
  {
    var q := a / n;
    assert q * n <= a < q * n + n;
    if lo <= q { Times(lo, q, n); } else { Times(q + 1, lo, n); }
  }

  lemma Times(a: nat, b: nat, n: nat)
    requires a <= b
    ensures a * n <= b * n
  {
    assert b * n == a * n + (b - a) * n;
  }

  // ---- Construction ---------------------------------------------------------------------------------------

  function Smallest(cases: seq<Reduction>): nat {
    if cases == [] then U64_MAX
    else
      var rest := Smallest(cases[..|cases| - 1]);
      if rest < cases[|cases| - 1].saved then rest else cases[|cases| - 1].saved
  }

  /** The receipt of an acceptable corpus. */
  function ReceiptOf(corpus: string, schedule: string, expected: nat, needsMore: nat, cases: seq<Reduction>): Receipt
    requires cases != [] && SumBy(CanonicalOf, cases) > 0
  {
    var sorted := Sort(CaseDigest, cases);
    Receipt(corpus, schedule, sorted[0].config, expected, |cases|, needsMore, sorted, SumBy(CanonicalOf, cases),
            SumBy(CompactOf, cases), SumBy(SavedOf, cases), Smallest(sorted),
            Ratio(SumBy(SavedOf, cases), SumBy(CanonicalOf, cases)))
  }

  ghost predicate NoRepeat(cases: seq<Reduction>) {
    forall i, j :: 0 <= i < j < |cases| ==> cases[i].caseDigest != cases[j].caseDigest
  }

  lemma NoRepeatIsKeyed(cases: seq<Reduction>)
    ensures NoRepeat(cases) <==> Distinct(cases) && KeyedBy(CaseDigest, cases)
  {
    if NoRepeat(cases) {
      forall x, y | x in cases && y in cases && CaseDigest(x) == CaseDigest(y) ensures x == y {
        var i :| 0 <= i < |cases| && cases[i] == x;
        var j :| 0 <= j < |cases| && cases[j] == y;
      }
    }
    if Distinct(cases) && KeyedBy(CaseDigest, cases) {
      forall i, j | 0 <= i < j < |cases| ensures cases[i].caseDigest != cases[j].caseDigest {
        assert cases[i] != cases[j] && CaseDigest(cases[i]) != CaseDigest(cases[j]);
      }
    }
  }

  datatype Totals = Totals(canonical: nat, compact: nat, saved: nat, minimum: nat)

  ghost predicate TotalsOf(cases: seq<Reduction>, config: string, t: Totals) {
    && NoRepeat(cases) && OneConfig(cases, config) && t.canonical == SumBy(CanonicalOf, cases) <= U64_MAX
    && t.compact == SumBy(CompactOf, cases) && t.saved == SumBy(SavedOf, cases) && t.minimum == Smallest(cases)
  }

  ghost predicate Summable(cases: seq<Reduction>, config: string) {
    NoRepeat(cases) && OneConfig(cases, config) && SumBy(CanonicalOf, cases) <= U64_MAX
  }

  lemma {:induction false} SumPrefix<T>(f: T -> nat, s: seq<T>, i: nat)
    requires i <= |s|
    ensures SumBy(f, s[..i]) <= SumBy(f, s)
    decreases |s| - i
  {
    if i < |s| {
      assert s[..i + 1] == s[..i] + [s[i]];
      SumAppend(f, s[..i], s[i]);
      SumPrefix(f, s, i + 1);
    } else {
      assert s[..i] == s;
    }
  }

  lemma SummablePrefix(cases: seq<Reduction>, config: string, i: nat)
    requires i <= |cases| && Summable(cases, config)
    ensures Summable(cases[..i], config)
  {
    SumPrefix(CanonicalOf, cases, i);
    forall c | c in cases[..i] ensures CaseHolds(c, config) { assert c in cases; }
  }

  function Add(t: Totals, c: Reduction): Totals {
    Totals(t.canonical + c.canonical, t.compact + c.compact, t.saved + c.saved,
           if t.minimum < c.saved then t.minimum else c.saved)
  }

  predicate HasDigest(cases: seq<Reduction>, digest: string) {
    exists x | x in cases :: x.caseDigest == digest
  }

  /** `seen` holds the digests of `cases`. */
  ghost predicate SeenIn(cases: seq<Reduction>, seen: set<string>) {
    forall d :: d in seen <==> HasDigest(cases, d)
  }

  lemma SeenNext(done: seq<Reduction>, c: Reduction, seen: set<string>)
    requires SeenIn(done, seen)
    ensures SeenIn(done + [c], seen + {c.caseDigest})
  {
    forall d ensures HasDigest(done + [c], d) <==> HasDigest(done, d) || d == c.caseDigest {
      assert c in done + [c] && forall x :: x in done + [c] <==> x in done || x == c;
    }
  }

  /** One more case: when the cases can still be summed, and what the totals are then. */
  lemma TotalsNext(done: seq<Reduction>, c: Reduction, config: string, t: Totals, seen: set<string>)
    requires TotalsOf(done, config, t) && SeenIn(done, seen)
    ensures Summable(done + [c], config)
       <==> c.caseDigest !in seen && CaseHolds(c, config) && t.canonical + c.canonical <= U64_MAX
    ensures Summable(done + [c], config) ==>
      TotalsOf(done + [c], config, Add(t, c))
  {
    var all := done + [c];
    SumAppend(CanonicalOf, done, c);
    SumAppend(CompactOf, done, c);
    SumAppend(SavedOf, done, c);
    assert all[..|done|] == done && all[|done|] == c && c in all;
    assert OneConfig(all, config) <==> CaseHolds(c, config);
    NoRepeatNext(done, c);
    assert c.caseDigest in seen <==> HasDigest(done, c.caseDigest);
  }

  lemma NoRepeatNext(done: seq<Reduction>, c: Reduction)
    requires NoRepeat(done)
    ensures NoRepeat(done + [c]) <==> forall x :: x in done ==> x.caseDigest != c.caseDigest
  {
    var all := done + [c];
    if NoRepeat(all) {
      forall x | x in done ensures x.caseDigest != c.caseDigest {
        var i :| 0 <= i < |done| && done[i] == x;
        assert all[i].caseDigest != all[|done|].caseDigest;
      }
    }
  }

  /** The first complaint about the cases from position `i` on. */
  function Complaint(cases: seq<Reduction>, config: string, i: nat): Option<ReceiptError>
    requires i <= |cases|
    decreases |cases| - i
  {
    if i == |cases| then None
    else if HasDigest(cases[..i], cases[i].caseDigest) || !CaseHolds(cases[i], config)
        then Some(InvalidCorpusMeasurement)
    else if SumBy(CanonicalOf, cases[..i]) + cases[i].canonical > U64_MAX then Some(ArithmeticOverflow)
    else Complaint(cases, config, i + 1)
  }

  /** The error of a corpus that is refused when its cases are taken in this order. */
  function RefusalIn(expected: nat, needsMore: nat, arranged: seq<Reduction>): Option<ReceiptError> {
    if expected == 0 || arranged == [] then Some(InvalidCorpusMeasurement)
    else if |arranged| + needsMore > U64_MAX then Some(ArithmeticOverflow)
    else if |arranged| + needsMore != expected then Some(InvalidCorpusMeasurement)
    else Complaint(arranged, arranged[0].config, 0)
  }

  /** An order that sorting by digest may produce; the sort is unstable, so it is open how equal digests lie. */
  ghost predicate Arranges(arranged: seq<Reduction>, cases: seq<Reduction>) {
    SortedBy(CaseDigest, arranged) && multiset(arranged) == multiset(cases)
  }

  ghost predicate MayFailWith(expected: nat, needsMore: nat, cases: seq<Reduction>, error: ReceiptError) {
    exists arranged :: Arranges(arranged, cases) && RefusalIn(expected, needsMore, arranged) == Some(error)
  }

  /** Without repeated digests there is only one order, and so only one error. */
  lemma OneArrangement(cases: seq<Reduction>, arranged: seq<Reduction>)
    requires NoRepeat(cases) && Arranges(arranged, cases)
    ensures arranged == Sort(CaseDigest, cases)
  {
    NoRepeatIsKeyed(cases);
    SameElements(cases, arranged);
    KeyedWithin(CaseDigest, cases, arranged);
    SortedUnique(CaseDigest, arranged, Sort(CaseDigest, cases));
  }

  /** With a repeated digest the order of the tie may decide: a repetition found first, or an overflow before it. */
  lemma TiesDecideTheError(first: Reduction, small: Reduction, large: Reduction)
    requires first.caseDigest == "a" && small.caseDigest == large.caseDigest == "b"
    requires CaseHolds(first, first.config) && CaseHolds(small, first.config) && CaseHolds(large, first.config)
    requires first.canonical + small.canonical <= U64_MAX < first.canonical + large.canonical
    ensures MayFailWith(3, 0, [first, small, large], InvalidCorpusMeasurement)
    ensures MayFailWith(3, 0, [first, small, large], ArithmeticOverflow)
  {
    var cases, other := [first, small, large], [first, large, small];
    TieFacts(first, small, large);
    TieFacts(first, large, small);
    assert multiset(other) == multiset(cases);
    assert Arranges(cases, cases) && Arranges(other, cases);
    ComplaintsOfThree(first, small, large);
    ComplaintsOfThree(first, large, small);
  }

  lemma TieFacts(x: Reduction, y: Reduction, z: Reduction)
    requires x.caseDigest == "a" && y.caseDigest == z.caseDigest == "b"
    ensures SortedBy(CaseDigest, [x, y, z])
  {
  }

  lemma ComplaintsOfThree(x: Reduction, y: Reduction, z: Reduction)
    requires x.caseDigest == "a" && y.caseDigest == z.caseDigest == "b"
    requires CaseHolds(x, x.config) && CaseHolds(y, x.config) && x.canonical <= U64_MAX
    ensures RefusalIn(3, 0, [x, y, z])
         == Some(if x.canonical + y.canonical > U64_MAX then ArithmeticOverflow else InvalidCorpusMeasurement)
  {
    var s := [x, y, z];
    assert s[..0] == [] && s[..1] == [x] && s[..2] == [x, y];
    assert !HasDigest([x], "b") && HasDigest([x, y], "b") by { assert y in [x, y]; }
    assert SumBy(CanonicalOf, [x]) == x.canonical by { assert [x][1..] == []; }
    ComplaintStep(s, x.config, 0);
    ComplaintStep(s, x.config, 1);
    ComplaintStep(s, x.config, 2);
  }

  /** What the loop over the sorted cases knows after `i` of them. */
  ghost predicate SummedSoFar(cases: seq<Reduction>, config: string, i: nat, t: Totals, seen: set<string>) {
    && i <= |cases| && TotalsOf(cases[..i], config, t)
    && SeenIn(cases[..i], seen) && Complaint(cases, config, 0) == Complaint(cases, config, i)
  }

  lemma SumStep(cases: seq<Reduction>, config: string, i: nat, t: Totals, seen: set<string>)
    requires i < |cases| && SummedSoFar(cases, config, i, t, seen)
    ensures var c := cases[i];
            if c.caseDigest in seen || !CaseHolds(c, config)
            then !Summable(cases, config) && Complaint(cases, config, 0) == Some(InvalidCorpusMeasurement)
            else if t.canonical + c.canonical > U64_MAX
            then !Summable(cases, config) && Complaint(cases, config, 0) == Some(ArithmeticOverflow)
            else SummedSoFar(cases, config, i + 1, Add(t, c), seen + {c.caseDigest})
                 && t.compact + c.compact <= U64_MAX && t.saved + c.saved <= U64_MAX
  {
    var c := cases[i];
    assert cases[..i + 1] == cases[..i] + [c];
    TotalsNext(cases[..i], c, config, t, seen);
    TotalsAddUp(cases[..i], config);
    SeenNext(cases[..i], c, seen);
    if Summable(cases, config) { SummablePrefix(cases, config, i + 1); }
    ComplaintStep(cases, config, i);
    assert c.caseDigest in seen <==> HasDigest(cases[..i], c.caseDigest);
  }

  lemma ComplaintStep(cases: seq<Reduction>, config: string, i: nat)
    requires i < |cases|
    ensures var c := cases[i];
            Complaint(cases, config, i)
            == if HasDigest(cases[..i], c.caseDigest) || !CaseHolds(c, config) then Some(InvalidCorpusMeasurement)
               else if SumBy(CanonicalOf, cases[..i]) + c.canonical > U64_MAX then Some(ArithmeticOverflow)
               else Complaint(cases, config, i + 1)
  {
  }

  /** The loop over the sorted cases. */
  method SumCases(cases: seq<Reduction>, config: string) returns (r: Result<Totals, ReceiptError>)
    requires Words(cases)
    ensures r.Ok? <==> Summable(cases, config)
    ensures r.Ok? ==> TotalsOf(cases, config, r.value)
    ensures r.Err? ==> Complaint(cases, config, 0) == Some(r.error)
  {
    var t := Totals(0, 0, 0, U64_MAX);
    var seen: set<string> := {};
    for i := 0 to |cases|
      invariant SummedSoFar(cases, config, i, t, seen)
    {
      var c := cases[i];
      SumStep(cases, config, i, t, seen);
      if c.caseDigest in seen || !CaseHolds(c, config) { return Err(InvalidCorpusMeasurement); }
      seen := seen + {c.caseDigest};
      var canonical := CheckedAdd(t.canonical, c.canonical);
      if canonical.None? { return Err(ArithmeticOverflow); }
      var compact, saved := CheckedAdd(t.compact, c.compact), CheckedAdd(t.saved, c.saved);
      if compact.None? || saved.None? { return Err(ArithmeticOverflow); }
      t := Add(t, c);
    }
    assert cases[..|cases|] == cases;
    return Ok(t);
  }

  /** `CompactAgentViewCorpusReductionReceiptV1::try_new`; a corpus is refused exactly when it is not acceptable. */
  method NewReceipt(corpus: string, schedule: string, expected: nat, needsMore: nat, cases: seq<Reduction>)
    returns (r: Result<Receipt, ReceiptError>)
    requires Words(cases) && expected <= U64_MAX && needsMore <= U64_MAX
    ensures r.Ok? <==> Sound(expected, needsMore, cases)
    ensures r.Err? ==> Faulty(expected, needsMore, cases, r.error)
    ensures r.Ok? ==> IsReceipt(r.value, corpus, schedule, expected, needsMore, cases)
    ensures r.Ok? <==> Acceptable(expected, needsMore, cases)
    ensures r.Err? ==> MayFailWith(expected, needsMore, cases, r.error)
    ensures r.Err? && NoRepeat(cases) ==> RefusalIn(expected, needsMore, Sort(CaseDigest, cases)) == Some(r.error)
    ensures r.Ok? ==> SumBy(CanonicalOf, cases) > 0
    ensures r.Ok? ==> r.value == ReceiptOf(corpus, schedule, expected, needsMore, cases)
  {
    ghost var arranged := Sort(CaseDigest, cases);
    assert Arranges(arranged, cases);
    AcceptableExactly(expected, needsMore, cases);
    RefusalIsTrue(expected, needsMore, cases, arranged);
    if expected == 0 || cases == [] { return Err(InvalidCorpusMeasurement); }
    var count := CheckedAdd(|cases|, needsMore);
    if count.None? { return Err(ArithmeticOverflow); }
    if count.value != expected { return Err(InvalidCorpusMeasurement); }
    SortedReceipt(cases, Sort(CaseDigest, cases));
    var sorted := Sort(CaseDigest, cases);
    var config := sorted[0].config;
    var totals := SumCases(sorted, config);
    if totals.Err? { return Err(totals.error); }
    var t := totals.value;
    ReceiptIsRight(corpus, schedule, expected, needsMore, cases);
    return Ok(Receipt(corpus, schedule, config, expected, |sorted|, needsMore, sorted, t.canonical, t.compact, t.saved,
                      t.minimum, Ratio(t.saved, t.canonical)));
  }

  /** What the sorted cases have in common with the cases as given. */
  lemma SortedReceipt(cases: seq<Reduction>, sorted: seq<Reduction>)
    requires cases != [] && sorted == Sort(CaseDigest, cases)
    ensures Words(cases) ==> Words(sorted)
    ensures Summable(sorted, sorted[0].config)
       <==> Distinct(cases) && KeyedBy(CaseDigest, cases) && (exists any :: OneConfig(cases, any))
            && SumBy(CanonicalOf, cases) <= U64_MAX
    ensures Summable(sorted, sorted[0].config) ==> SumBy(CanonicalOf, sorted) > 0
    ensures SumBy(CanonicalOf, sorted) == SumBy(CanonicalOf, cases)
            && SumBy(CompactOf, sorted) == SumBy(CompactOf, cases)
    ensures SumBy(SavedOf, sorted) == SumBy(SavedOf, cases)
  {
    SameElements(sorted, cases);
    SortedSummable(cases, sorted[0].config);
    SortedTotals(cases);
    if Summable(sorted, sorted[0].config) { TotalsAddUp(sorted, sorted[0].config); }
  }

  lemma SortedTotals(cases: seq<Reduction>)
    ensures var sorted := Sort(CaseDigest, cases);
            SumBy(CanonicalOf, sorted) == SumBy(CanonicalOf, cases)
                && SumBy(CompactOf, sorted) == SumBy(CompactOf, cases)
            && SumBy(SavedOf, sorted) == SumBy(SavedOf, cases)
  {
    var sorted := Sort(CaseDigest, cases);
    SumIgnoresOrder(CanonicalOf, sorted, cases);
    SumIgnoresOrder(CompactOf, sorted, cases);
    SumIgnoresOrder(SavedOf, sorted, cases);
  }

  lemma SortedSummable(cases: seq<Reduction>, config: string)
    requires cases != [] && config == Sort(CaseDigest, cases)[0].config
    ensures Summable(Sort(CaseDigest, cases), config)
       <==> Distinct(cases) && KeyedBy(CaseDigest, cases) && (exists any :: OneConfig(cases, any))
            && SumBy(CanonicalOf, cases) <= U64_MAX
    ensures Summable(Sort(CaseDigest, cases), config) ==> OneConfig(cases, config)
  {
    var sorted := Sort(CaseDigest, cases);
    SameElements(sorted, cases);
    SortedTotals(cases);
    NoRepeatIsKeyed(sorted);
    DistinctIgnoresOrder(sorted, cases);
    if any :| OneConfig(cases, any) {
      assert sorted[0] in cases && CaseHolds(sorted[0], any);
      assert any == config;
    }
    assert OneConfig(sorted, config) <==> OneConfig(cases, config);
  }

  // ---- What a receipt says --------------------------------------------------------------------------------

  lemma AcceptableIgnoresOrder(expected: nat, needsMore: nat, cases: seq<Reduction>, other: seq<Reduction>)
    requires multiset(cases) == multiset(other) && Acceptable(expected, needsMore, cases)
    ensures Acceptable(expected, needsMore, other)
  {
    SameElements(cases, other);
    DistinctIgnoresOrder(cases, other);
    SumIgnoresOrder(CanonicalOf, cases, other);
    var config :| OneConfig(cases, config);
    assert OneConfig(other, config);
  }

  /** The order in which the cases are given reaches neither the verdict nor the receipt. */
  lemma ReceiptIgnoresOrder(corpus: string, schedule: string, expected: nat, needsMore: nat, cases: seq<Reduction>,
                            other: seq<Reduction>)
    requires multiset(cases) == multiset(other)
    ensures Acceptable(expected, needsMore, cases) <==> Acceptable(expected, needsMore, other)
    ensures Acceptable(expected, needsMore, cases) && SumBy(CanonicalOf, cases) > 0 && SumBy(CanonicalOf, other) > 0 ==>
      ReceiptOf(corpus, schedule, expected, needsMore, cases) == ReceiptOf(corpus, schedule, expected, needsMore, other)
  {
    if Acceptable(expected, needsMore, cases) {
      AcceptableIgnoresOrder(expected, needsMore, cases, other);
      SortIgnoresOrder(CaseDigest, cases, other);
      SameElements(cases, other);
      SumIgnoresOrder(CanonicalOf, cases, other);
      SumIgnoresOrder(CompactOf, cases, other);
      SumIgnoresOrder(SavedOf, cases, other);
    }
    if Acceptable(expected, needsMore, other) { AcceptableIgnoresOrder(expected, needsMore, other, cases); }
  }

  /** The totals of a receipt balance, and its reduction lies between the smallest and the largest of its cases. */
  lemma ReceiptIsBalanced(corpus: string, schedule: string, expected: nat, needsMore: nat, cases: seq<Reduction>,
                          lo: nat, hi: nat)
    requires Acceptable(expected, needsMore, cases)
    requires forall c :: c in cases ==> c.canonical > 0 && lo <= CaseMicros(c) <= hi
    ensures SumBy(CanonicalOf, cases) > 0
    ensures var r := ReceiptOf(corpus, schedule, expected, needsMore, cases);
            && r.compact + r.saved == r.canonical
            && r.reductionMicros * r.canonical <= r.saved * MICROS < (r.reductionMicros + 1) * r.canonical
            && lo <= r.reductionMicros <= hi && r.reductionMicros <= MICROS
  {
    var config :| OneConfig(cases, config);
    TotalsAddUp(cases, config);
    TotalBetween(cases, lo, hi);
    RatioBetween(SumBy(SavedOf, cases), SumBy(CanonicalOf, cases), lo, hi);
    RatioExactly(SumBy(SavedOf, cases), SumBy(CanonicalOf, cases));
  }

  lemma TotalBetween(cases: seq<Reduction>, lo: nat, hi: nat)
    requires cases != [] && forall c :: c in cases ==> c.canonical > 0 && lo <= CaseMicros(c) <= hi
    ensures AtLeast(SumBy(SavedOf, cases), SumBy(CanonicalOf, cases), lo)
    ensures LessThan(SumBy(SavedOf, cases), SumBy(CanonicalOf, cases), hi + 1)
  {
    forall c | c in cases
      ensures AtLeast(c.saved, c.canonical, lo)
      ensures LessThan(c.saved, c.canonical, hi + 1)
    {
      CaseBetween(c, lo, hi);
    }
    TotalAtLeast(cases, lo);
    TotalLessThan(cases, hi + 1);
  }

  lemma CaseBetween(c: Reduction, lo: nat, hi: nat)
    requires c.canonical > 0 && lo <= CaseMicros(c) <= hi
    ensures AtLeast(c.saved, c.canonical, lo) && LessThan(c.saved, c.canonical, hi + 1)
  {
    FloorAtLeast(c.saved * MICROS, c.canonical, lo);
    FloorAtLeast(c.saved * MICROS, c.canonical, hi + 1);
  }

  lemma RatioBetween(saved: nat, canonical: nat, lo: nat, hi: nat)
    requires 0 < canonical && saved <= canonical
    requires AtLeast(saved, canonical, lo) && LessThan(saved, canonical, hi + 1)
    ensures lo <= Ratio(saved, canonical) <= hi && Ratio(saved, canonical) <= MICROS
  {
    FloorAtLeast(saved * MICROS, canonical, lo);
    FloorAtLeast(saved * MICROS, canonical, hi + 1);
    FloorAtLeast(saved * MICROS, canonical, MICROS + 1);
  }

  // ---- The corpus and the receipt, field by field ---------------------------------------------------------

  ghost function Total(f: Reduction -> nat, cases: seq<Reduction>, n: nat): nat
    requires n <= |cases|
  {
    if n == 0 then 0 else Total(f, cases, n - 1) + f(cases[n - 1])
  }

  lemma {:induction false} TotalIsSum(f: Reduction -> nat, g: Reduction -> nat, cases: seq<Reduction>, n: nat)
    requires n <= |cases| && forall c :: f(c) == g(c)
    ensures SumBy(f, cases[..n]) == Total(g, cases, n)
  {
    if n > 0 {
      TotalIsSum(f, g, cases, n - 1);
      assert cases[..n] == cases[..n - 1] + [cases[n - 1]];
      SumAppend(f, cases[..n - 1], cases[n - 1]);
    }
  }

  ghost function TotalOf(f: Reduction -> nat, cases: seq<Reduction>): nat {
    Total(f, cases, |cases|)
  }

  lemma TotalsExactly(cases: seq<Reduction>)
    ensures SumBy(CanonicalOf, cases) == TotalOf((c: Reduction) => c.canonical, cases)
    ensures SumBy(CompactOf, cases) == TotalOf((c: Reduction) => c.compact, cases)
    ensures SumBy(SavedOf, cases) == TotalOf((c: Reduction) => c.saved, cases)
  {
    assert cases[..|cases|] == cases;
    TotalIsSum(CanonicalOf, (c: Reduction) => c.canonical, cases, |cases|);
    TotalIsSum(CompactOf, (c: Reduction) => c.compact, cases, |cases|);
    TotalIsSum(SavedOf, (c: Reduction) => c.saved, cases, |cases|);
  }

  /** The case saves something and its bytes add up. */
  ghost predicate CaseSound(c: Reduction) {
    c.saved > 0 && c.compact + c.saved == c.canonical
  }

  /** A sound corpus: every case accounted for, none twice, all sound under one configuration, countable bytes. */
  ghost predicate Sound(expected: nat, needsMore: nat, cases: seq<Reduction>) {
    && expected > 0 && |cases| > 0 && |cases| + needsMore == expected
    && (forall i, j :: 0 <= i < j < |cases| ==> cases[i].caseDigest != cases[j].caseDigest)
    && (forall i :: 0 <= i < |cases| ==> CaseSound(cases[i]) && cases[i].config == cases[0].config)
    && TotalOf((c: Reduction) => c.canonical, cases) <= 0xFFFF_FFFF_FFFF_FFFF
  }

  lemma AcceptableExactly(expected: nat, needsMore: nat, cases: seq<Reduction>)
    requires Words(cases) && expected <= U64_MAX
    ensures Acceptable(expected, needsMore, cases) <==> Sound(expected, needsMore, cases)
  {
    NoRepeatIsKeyed(cases);
    TotalsExactly(cases);
    if Acceptable(expected, needsMore, cases) {
      var config :| OneConfig(cases, config);
      forall i | 0 <= i < |cases| ensures CaseSound(cases[i]) && cases[i].config == cases[0].config {
        assert CaseHolds(cases[i], config) && CaseHolds(cases[0], config);
      }
    }
    if Sound(expected, needsMore, cases) {
      forall c | c in cases ensures CaseHolds(c, cases[0].config) {
        var i :| 0 <= i < |cases| && cases[i] == c;
        assert CaseSound(cases[i]);
      }
      assert OneConfig(cases, cases[0].config);
    }
  }

  /** What the receipt of a corpus says, field by field. */
  ghost predicate IsReceipt(r: Receipt, corpus: string, schedule: string, expected: nat, needsMore: nat,
                            cases: seq<Reduction>)
  {
    && r.corpus == corpus && r.schedule == schedule && r.expected == expected && r.needsMore == needsMore
    && r.rendered == |cases| && (forall c :: c in cases ==> r.config == c.config)
    && multiset(r.cases) == multiset(cases)
    && (forall i, j :: 0 <= i < j < |r.cases| ==> Leq(r.cases[i].caseDigest, r.cases[j].caseDigest))
    && r.canonical == TotalOf((c: Reduction) => c.canonical, cases)
    && r.compact == TotalOf((c: Reduction) => c.compact, cases)
    && r.saved == TotalOf((c: Reduction) => c.saved, cases)
    && (forall c :: c in cases ==> r.minimumSaved <= c.saved) && (exists c :: c in cases && c.saved == r.minimumSaved)
    && r.reductionMicros * r.canonical <= r.saved * 1_000_000 < (r.reductionMicros + 1) * r.canonical
  }

  lemma ReceiptIsRight(corpus: string, schedule: string, expected: nat, needsMore: nat, cases: seq<Reduction>)
    requires Words(cases) && Acceptable(expected, needsMore, cases)
    ensures SumBy(CanonicalOf, cases) > 0
    ensures IsReceipt(ReceiptOf(corpus, schedule, expected, needsMore, cases), corpus, schedule, expected, needsMore,
                      cases)
  {
    var config :| OneConfig(cases, config);
    TotalsAddUp(cases, config);
    var sorted := Sort(CaseDigest, cases);
    SameElements(sorted, cases);
    SmallestExactly(sorted, config);
    TotalsExactly(cases);
    RatioExactly(SumBy(SavedOf, cases), SumBy(CanonicalOf, cases));
    forall i, j | 0 <= i < j < |sorted| ensures Leq(sorted[i].caseDigest, sorted[j].caseDigest) {
      assert Leq(CaseDigest(sorted[i]), CaseDigest(sorted[j]));
    }
  }

  lemma RatioExactly(saved: nat, canonical: nat)
    requires canonical > 0
    ensures Ratio(saved, canonical) * canonical <= saved * 1_000_000 < (Ratio(saved, canonical) + 1) * canonical
  {
    FloorAtLeast(saved * MICROS, canonical, Ratio(saved, canonical));
    FloorAtLeast(saved * MICROS, canonical, Ratio(saved, canonical) + 1);
  }

  /** The error names a fault that is there. */
  ghost predicate Faulty(expected: nat, needsMore: nat, cases: seq<Reduction>, error: ReceiptError) {
    match error
    case ArithmeticOverflow =>
      |cases| + needsMore > 0xFFFF_FFFF_FFFF_FFFF
      || TotalOf((c: Reduction) => c.canonical, cases) > 0xFFFF_FFFF_FFFF_FFFF
    case InvalidCorpusMeasurement =>
      expected == 0 || |cases| == 0 || |cases| + needsMore != expected
      || (exists i, j :: 0 <= i < j < |cases| && cases[i].caseDigest == cases[j].caseDigest)
      || (exists c, d :: c in cases && d in cases && (!CaseSound(c) || c.config != d.config))
  }

  lemma {:induction false} ComplaintIsTrue(arranged: seq<Reduction>, config: string, i: nat)
    requires i <= |arranged| && Words(arranged) && Complaint(arranged, config, i).Some?
    ensures Complaint(arranged, config, i).value == ArithmeticOverflow ==> SumBy(CanonicalOf, arranged) > U64_MAX
    ensures Complaint(arranged, config, i).value == InvalidCorpusMeasurement ==>
      !NoRepeat(arranged) || !OneConfig(arranged, config)
    decreases |arranged| - i
  {
    var c := arranged[i];
    assert c in arranged;
    ComplaintStep(arranged, config, i);
    if HasDigest(arranged[..i], c.caseDigest) {
      var x :| x in arranged[..i] && x.caseDigest == c.caseDigest;
      var j :| 0 <= j < i && arranged[j] == x;
      assert arranged[j].caseDigest == arranged[i].caseDigest;
    } else if CaseHolds(c, config) {
      assert arranged[..i + 1] == arranged[..i] + [c];
      SumAppend(CanonicalOf, arranged[..i], c);
      SumPrefix(CanonicalOf, arranged, i + 1);
      if SumBy(CanonicalOf, arranged[..i]) + c.canonical <= U64_MAX { ComplaintIsTrue(arranged, config, i + 1); }
    }
  }

  lemma RefusalIsTrue(expected: nat, needsMore: nat, cases: seq<Reduction>, arranged: seq<Reduction>)
    requires Words(cases) && Arranges(arranged, cases)
    ensures var refusal := RefusalIn(expected, needsMore, arranged);
            refusal.Some? ==> Faulty(expected, needsMore, cases, refusal.value)
  {
    SameElements(arranged, cases);
    if arranged != [] && Complaint(arranged, arranged[0].config, 0).Some? {
      if Complaint(arranged, arranged[0].config, 0).value == ArithmeticOverflow {
        OverflowIsTrue(cases, arranged);
      } else {
        MismatchIsTrue(cases, arranged);
      }
    }
  }

  lemma OverflowIsTrue(cases: seq<Reduction>, arranged: seq<Reduction>)
    requires Words(cases) && Arranges(arranged, cases) && arranged != []
    requires Complaint(arranged, arranged[0].config, 0) == Some(ArithmeticOverflow)
    ensures TotalOf((c: Reduction) => c.canonical, cases) > U64_MAX
  {
    SameElements(arranged, cases);
    ComplaintIsTrue(arranged, arranged[0].config, 0);
    TotalsExactly(cases);
    SumIgnoresOrder(CanonicalOf, arranged, cases);
  }

  lemma MismatchIsTrue(cases: seq<Reduction>, arranged: seq<Reduction>)
    requires Words(cases) && Arranges(arranged, cases) && arranged != []
    requires Complaint(arranged, arranged[0].config, 0) == Some(InvalidCorpusMeasurement)
    ensures (exists i, j :: 0 <= i < j < |cases| && cases[i].caseDigest == cases[j].caseDigest)
            || exists c, d :: c in cases && d in cases && (!CaseSound(c) || c.config != d.config)
  {
    SameElements(arranged, cases);
    ComplaintIsTrue(arranged, arranged[0].config, 0);
    if !NoRepeat(arranged) {
      RepeatIsThere(cases, arranged);
    } else {
      BadCaseIsThere(cases, arranged);
    }
  }

  lemma RepeatIsThere(cases: seq<Reduction>, arranged: seq<Reduction>)
    requires Arranges(arranged, cases) && !NoRepeat(arranged)
    ensures exists i, j :: 0 <= i < j < |cases| && cases[i].caseDigest == cases[j].caseDigest
  {
    NoRepeatIsKeyed(arranged);
    NoRepeatIsKeyed(cases);
    SameElements(arranged, cases);
    DistinctIgnoresOrder(arranged, cases);
    if KeyedBy(CaseDigest, cases) { KeyedWithin(CaseDigest, cases, arranged); }
    assert !NoRepeat(cases);
  }

  lemma BadCaseIsThere(cases: seq<Reduction>, arranged: seq<Reduction>)
    requires Words(cases) && arranged != [] && Arranges(arranged, cases) && !OneConfig(arranged, arranged[0].config)
    ensures exists c, d :: c in cases && d in cases && (!CaseSound(c) || c.config != d.config)
  {
    SameElements(arranged, cases);
    var c :| c in arranged && !CaseHolds(c, arranged[0].config);
    assert c in cases && arranged[0] in cases && (!CaseSound(c) || c.config != arranged[0].config);
  }

  lemma {:induction false} SmallestExactly(cases: seq<Reduction>, config: string)
    requires OneConfig(cases, config) && Words(cases)
    ensures forall c :: c in cases ==> Smallest(cases) <= c.saved
    ensures cases != [] ==> exists c :: c in cases && c.saved == Smallest(cases)
  {
    if cases != [] {
      var front, last := cases[..|cases| - 1], cases[|cases| - 1];
      assert cases == front + [last] && last in cases;
      assert forall c :: c in front ==> c in cases;
      SmallestExactly(front, config);
    }
  }
}
