/** Drain memberships: validation against the ledger and grouping (constrained_producer_universe.rs). */
module DrainGroups {
  import opened Prelude
  import opened Ordering
  import opened Counting

  datatype Membership = Membership(index: nat, ordinal: nat, event: string, group: nat, pattern: string)

  datatype Retained = Retained(ordinal: nat, event: string)

  datatype Transformed = Transformed(index: nat, ordinal: nat, event: string, group: nat)

  datatype LedgerEvent = LedgerEvent(id: string, raw: string)

  datatype DrainError = LedgerPartitionMismatch | OccurrenceMismatch | GroupPatternMismatch | AccountingOverflow
    | AccountingMismatch

  datatype Case = Case(ledger: seq<LedgerEvent>, records: seq<Retained>, transformed: seq<Transformed>, charged: nat)

  // ---- Lists ----------------------------------------------------------------------------------------------

  function IndexOf(m: Membership): nat {
    m.index
  }

  function EventOf(m: Membership): string {
    m.event
  }

  function RetainedEvent(r: Retained): string {
    r.event
  }

  function IdOf(e: LedgerEvent): string {
    e.id
  }

  function RawSize(e: LedgerEvent): nat {
    |e.raw|
  }

  lemma DistinctPrefix<T>(s: seq<T>, i: nat)
    requires i <= |s| && Distinct(s)
    ensures Distinct(s[..i])
  {
  }

  // ---- Validation -----------------------------------------------------------------------------------------

  /** The membership of position `k` is the one the retained record and the transformed sample there describe. */
  predicate Describes(c: Case, k: nat, m: Membership)
    requires k < |c.records| && k < |c.transformed|
  {
    var record, sample := c.records[k], c.transformed[k];
    m.index == k && m.ordinal == record.ordinal && m.event == record.event
    && sample == Transformed(k, record.ordinal, record.event, m.group)
  }

  ghost predicate SameCounts(c: Case, ms: seq<Membership>) {
    |c.records| == |c.ledger| && |ms| == |c.records| && |c.transformed| == |ms|
  }

  ghost predicate Described(c: Case, ms: seq<Membership>, k: nat)
    requires SameCounts(c, ms) && k < |ms|
  {
    exists m :: m in ms && Describes(c, k, m)
  }

  ghost predicate AllDescribed(c: Case, ms: seq<Membership>, n: nat)
    requires SameCounts(c, ms) && n <= |ms|
  {
    forall k: nat :: k < n ==> Described(c, ms, k)
  }

  /** Exactly what validation demands. */
  ghost predicate OccurrencesHold(c: Case, ms: seq<Membership>) {
    && SameCounts(c, ms) && Distinct(Each(IndexOf, ms)) && AllDescribed(c, ms, |ms|)
    && Distinct(Each(RetainedEvent, c.records))
    && Elements(Each(RetainedEvent, c.records)) == Elements(Each(IdOf, c.ledger))
    && SumBy(RawSize, c.ledger) == c.charged <= U64_MAX
  }

  /** The first demand that is not met, in the order of the checks. */
  ghost function OccurrencesVerdict(c: Case, ms: seq<Membership>): Option<DrainError> {
    if !SameCounts(c, ms) then Some(LedgerPartitionMismatch)
    else if !Distinct(Each(IndexOf, ms)) || !AllDescribed(c, ms, |ms|) || !Distinct(Each(RetainedEvent, c.records))
         then Some(OccurrenceMismatch)
    else if Elements(Each(RetainedEvent, c.records)) != Elements(Each(IdOf, c.ledger))
        then Some(LedgerPartitionMismatch)
    else if SumBy(RawSize, c.ledger) > U64_MAX then Some(AccountingOverflow)
    else if SumBy(RawSize, c.ledger) != c.charged then Some(AccountingMismatch)
    else None
  }

  /** The first loop: memberships by their retained index. */
  method ByIndex(ms: seq<Membership>) returns (r: Option<map<nat, Membership>>)
    ensures r.Some? <==> Distinct(Each(IndexOf, ms))
    ensures r.Some? ==> forall m :: m in ms ==> m.index in r.value && r.value[m.index] == m
    ensures r.Some? ==> forall k :: k in r.value ==> r.value[k] in ms && r.value[k].index == k
  {
    var byIndex: map<nat, Membership> := map[];
    for i := 0 to |ms|
      invariant Distinct(Each(IndexOf, ms)[..i])
      invariant forall k :: 0 <= k < i ==> ms[k].index in byIndex && byIndex[ms[k].index] == ms[k]
      invariant forall k :: k in byIndex ==> byIndex[k] in ms[..i] && byIndex[k].index == k
    {
      var indices := Each(IndexOf, ms);
      assert indices[..i + 1] == indices[..i] + [ms[i].index];
      DistinctNext(indices[..i], ms[i].index);
      if ms[i].index in byIndex {
        assert byIndex[ms[i].index] in ms[..i];
        RepeatedIndex(ms, i);
        return None;
      }
      FreshIndex(ms, i, byIndex);
      byIndex := byIndex[ms[i].index := ms[i]];
    }
    assert Each(IndexOf, ms)[..|ms|] == Each(IndexOf, ms);
    return Some(byIndex);
  }

  lemma RepeatedIndex(ms: seq<Membership>, i: nat)
    requires i < |ms| && exists m :: m in ms[..i] && m.index == ms[i].index
    ensures !Distinct(Each(IndexOf, ms))
  {
    var m :| m in ms[..i] && m.index == ms[i].index;
    var k :| 0 <= k < i && ms[k] == m;
    assert Each(IndexOf, ms)[k] == Each(IndexOf, ms)[i];
  }

  lemma FreshIndex(ms: seq<Membership>, i: nat, byIndex: map<nat, Membership>)
    requires i < |ms| && ms[i].index !in byIndex && forall k :: 0 <= k < i ==> ms[k].index in byIndex
    ensures ms[i].index !in Each(IndexOf, ms)[..i]
  {
    forall k | 0 <= k < i ensures Each(IndexOf, ms)[..i][k] != ms[i].index {
      assert Each(IndexOf, ms)[k] == ms[k].index;
    }
  }

  /** `validate_drain_occurrences_v1`. */
  method ValidateOccurrences(c: Case, ms: seq<Membership>) returns (error: Option<DrainError>)
    ensures error.None? <==> OccurrencesHold(c, ms)
    ensures error == OccurrencesVerdict(c, ms)
  {
    if |c.records| != |c.ledger| || |ms| != |c.records| || |c.transformed| != |ms| {
      return Some(LedgerPartitionMismatch);
    }
    var byIndex := ByIndex(ms);
    if byIndex.None? { return Some(OccurrenceMismatch); }
    var events := CheckPositions(c, ms, byIndex.value);
    if events.None? { return Some(OccurrenceMismatch); }
    if events.value != Elements(Each(IdOf, c.ledger)) { return Some(LedgerPartitionMismatch); }
    var total := LedgerBytes(c.ledger);
    if total.None? { return Some(AccountingOverflow); }
    if total.value != c.charged { return Some(AccountingMismatch); }
    return None;
  }

  /** The second loop: every retained record, its membership and its sample agree, and no event repeats. */
  method CheckPositions(c: Case, ms: seq<Membership>, byIndex: map<nat, Membership>) returns (r: Option<set<string>>)
    requires SameCounts(c, ms)
    requires forall m :: m in ms ==> m.index in byIndex && byIndex[m.index] == m
    requires forall k :: k in byIndex ==> byIndex[k] in ms && byIndex[k].index == k
    ensures r.Some? <==> AllDescribed(c, ms, |ms|) && Distinct(Each(RetainedEvent, c.records))
    ensures r.Some? ==> r.value == Elements(Each(RetainedEvent, c.records))
  {
    var seen: set<string> := {};
    ghost var all := Each(RetainedEvent, c.records);
    for k := 0 to |c.records|
      invariant AllDescribed(c, ms, k) && Distinct(all[..k]) && seen == Elements(all[..k])
    {
      assert all[..k + 1] == all[..k] + [c.records[k].event];
      DistinctNext(all[..k], c.records[k].event);
      ElementsAppend(all[..k], c.records[k].event);
      if AllDescribed(c, ms, |ms|) { assert Described(c, ms, k); }
      if Distinct(all) { DistinctPrefix(all, k + 1); }
      if k !in byIndex || !Describes(c, k, byIndex[k]) { return None; }
      assert Described(c, ms, k) by { assert byIndex[k] in ms; }
      if byIndex[k].event in seen { return None; }
      seen := seen + {byIndex[k].event};
    }
    assert all[..|all|] == all;
    return Some(seen);
  }

  method LedgerBytes(ledger: seq<LedgerEvent>) returns (total: Option<nat>)
    ensures total == if SumBy(RawSize, ledger) <= U64_MAX then Some(SumBy(RawSize, ledger)) else None
  {
    var sum: nat := 0;
    for i := 0 to |ledger|
      invariant sum + SumBy(RawSize, ledger[i..]) == SumBy(RawSize, ledger) && sum <= U64_MAX
    {
      assert ledger[i..][1..] == ledger[i + 1..];
      var next := CheckedAdd(sum, |ledger[i].raw|);
      if next.None? { return None; }
      sum := next.value;
    }
    return Some(sum);
  }

  /** By counting: the retained indices of valid memberships are exactly the positions. */
  lemma IndicesAreThePositions(c: Case, ms: seq<Membership>)
    requires OccurrencesHold(c, ms)
    ensures forall k: nat :: k < |ms| <==> k in Each(IndexOf, ms)
  {
    var indices := Each(IndexOf, ms);
    BelowExact(|ms|);
    forall k: nat | k < |ms| ensures k in indices {
      assert Described(c, ms, k);
      var m :| m in ms && Describes(c, k, m);
      var i :| 0 <= i < |ms| && ms[i] == m;
      assert indices[i] == k;
    }
    DistinctIsCardinality(indices);
    SubsetSize(Below(|ms|), Elements(indices));
    forall k: nat | k in indices ensures k < |ms| { assert k in Elements(indices); }
  }

  /** Each membership is the one described at the position its index names. */
  lemma MembershipAtItsPosition(c: Case, ms: seq<Membership>, i: nat)
    requires OccurrencesHold(c, ms) && i < |ms|
    ensures ms[i].index < |ms| && Describes(c, ms[i].index, ms[i])
  {
    var indices := Each(IndexOf, ms);
    IndicesAreThePositions(c, ms);
    assert indices[i] in indices;
    assert Described(c, ms, ms[i].index);
    var m :| m in ms && Describes(c, ms[i].index, m);
    var j :| 0 <= j < |ms| && ms[j] == m;
    assert indices[i] == indices[j];
  }

  /** Valid memberships are in bijection with the ledger: no event twice, none missing, none foreign. */
  lemma MembershipsMatchLedger(c: Case, ms: seq<Membership>)
    requires OccurrencesHold(c, ms)
    ensures Distinct(Each(EventOf, ms)) && |ms| == |c.ledger|
    ensures Elements(Each(EventOf, ms)) == Elements(Each(IdOf, c.ledger))
  {
    var events, kept := Each(EventOf, ms), Each(RetainedEvent, c.records);
    forall i | 0 <= i < |ms| ensures ms[i].index < |ms| && events[i] == kept[ms[i].index] {
      MembershipAtItsPosition(c, ms, i);
    }
    forall i, j | 0 <= i < j < |ms| ensures events[i] != events[j] {
      assert Each(IndexOf, ms)[i] != Each(IndexOf, ms)[j];
      assert kept[ms[i].index] != kept[ms[j].index];
    }
    DistinctIsCardinality(events);
    DistinctIsCardinality(kept);
    SubsetSize(Elements(events), Elements(kept));
  }

  // ---- What validation demands, field by field ------------------------------------------------------------

  /** Record, sample and some membership tell the same about position `k`. */
  ghost predicate Agrees(c: Case, ms: seq<Membership>, k: nat)
    requires k < |c.records| && k < |c.transformed|
  {
    && c.transformed[k].index == k && c.transformed[k].ordinal == c.records[k].ordinal
    && c.transformed[k].event == c.records[k].event
    && exists m :: m in ms && m.index == k && m.ordinal == c.records[k].ordinal && m.event == c.records[k].event
                   && m.group == c.transformed[k].group
  }

  ghost function RawBytes(ledger: seq<LedgerEvent>, n: nat): nat
    requires n <= |ledger|
  {
    if n == 0 then 0 else RawBytes(ledger, n - 1) + |ledger[n - 1].raw|
  }

  ghost predicate IsRecorded(c: Case, e: string) {
    exists r :: r in c.records && r.event == e
  }

  ghost predicate IsInLedger(c: Case, e: string) {
    exists l :: l in c.ledger && l.id == e
  }

  ghost predicate PositionsAgree(c: Case, ms: seq<Membership>) {
    && |c.ledger| == |c.records| == |c.transformed| == |ms|
    && (forall k :: 0 <= k < |c.records| ==> Agrees(c, ms, k))
    && forall i, j :: 0 <= i < j < |c.records| ==> c.records[i].event != c.records[j].event
  }

  lemma {:induction false} RawBytesAdd(ledger: seq<LedgerEvent>, n: nat)
    requires n <= |ledger|
    ensures SumBy(RawSize, ledger[..n]) == RawBytes(ledger, n)
  {
    if n > 0 {
      RawBytesAdd(ledger, n - 1);
      assert ledger[..n] == ledger[..n - 1] + [ledger[n - 1]];
      SumAppend(RawSize, ledger[..n - 1], ledger[n - 1]);
    }
  }

  lemma AgreesExactly(c: Case, ms: seq<Membership>, k: nat)
    requires SameCounts(c, ms) && k < |ms|
    ensures Described(c, ms, k) <==> Agrees(c, ms, k)
  {
    if Described(c, ms, k) {
      var m :| m in ms && Describes(c, k, m);
      assert m.index == k && m.group == c.transformed[k].group;
    }
    if Agrees(c, ms, k) {
      var m :| m in ms && m.index == k && m.ordinal == c.records[k].ordinal && m.event == c.records[k].event
               && m.group == c.transformed[k].group;
      assert Describes(c, k, m);
    }
  }

  /** Where every position has its membership, no two memberships have the same index. */
  lemma IndicesDistinct(c: Case, ms: seq<Membership>)
    requires SameCounts(c, ms) && AllDescribed(c, ms, |ms|)
    ensures Distinct(Each(IndexOf, ms))
  {
    var indices := Each(IndexOf, ms);
    BelowExact(|ms|);
    forall k: nat | k < |ms| ensures k in indices {
      assert Described(c, ms, k);
      var m :| m in ms && Describes(c, k, m);
      var i :| 0 <= i < |ms| && ms[i] == m;
      assert indices[i] == k;
    }
    DistinctIsCardinality(indices);
    SubsetSize(Below(|ms|), Elements(indices));
  }

  lemma RecordsApart(c: Case)
    ensures Distinct(Each(RetainedEvent, c.records))
       <==> forall i, j :: 0 <= i < j < |c.records| ==> c.records[i].event != c.records[j].event
  {
    var events := Each(RetainedEvent, c.records);
    if Distinct(events) {
      forall i, j | 0 <= i < j < |c.records| ensures c.records[i].event != c.records[j].event {
        assert events[i] != events[j];
      }
    }
  }

  lemma SameEvents(c: Case)
    ensures Elements(Each(RetainedEvent, c.records)) == Elements(Each(IdOf, c.ledger))
       <==> forall e :: IsRecorded(c, e) <==> IsInLedger(c, e)
  {
    var kept, ids := Each(RetainedEvent, c.records), Each(IdOf, c.ledger);
    forall e ensures (e in kept <==> IsRecorded(c, e)) && (e in ids <==> IsInLedger(c, e)) { EventIsThere(c, e); }
    if Elements(kept) == Elements(ids) {
      forall e ensures IsRecorded(c, e) <==> IsInLedger(c, e) { assert e in Elements(kept) <==> e in Elements(ids); }
    }
  }

  lemma EventIsThere(c: Case, e: string)
    ensures e in Each(RetainedEvent, c.records) <==> IsRecorded(c, e)
    ensures e in Each(IdOf, c.ledger) <==> IsInLedger(c, e)
  {
    EachExactly(RetainedEvent, c.records, e);
    EachExactly(IdOf, c.ledger, e);
    if r :| r in c.records && r.event == e { assert RetainedEvent(r) == e; }
    if l :| l in c.ledger && l.id == e { assert IdOf(l) == e; }
  }

  lemma PositionsExactly(c: Case, ms: seq<Membership>)
    ensures PositionsAgree(c, ms)
       <==> SameCounts(c, ms) && AllDescribed(c, ms, |ms|) && Distinct(Each(RetainedEvent, c.records))
  {
    RecordsApart(c);
    if SameCounts(c, ms) {
      forall k: nat | k < |ms| ensures Described(c, ms, k) <==> Agrees(c, ms, k) { AgreesExactly(c, ms, k); }
    }
  }

  /**
   * Validation succeeds if and only if the counts agree, record, sample and membership agree at every position, no
   * event is recorded twice, exactly the ledger's events are recorded, and the ledger's bytes are those charged. That
   * no two memberships have the same index follows.
   */
  lemma OccurrencesExactly(c: Case, ms: seq<Membership>)
    ensures OccurrencesHold(c, ms)
       <==> && PositionsAgree(c, ms) && (forall e :: IsRecorded(c, e) <==> IsInLedger(c, e))
            && RawBytes(c.ledger, |c.ledger|) == c.charged <= 0xFFFF_FFFF_FFFF_FFFF
  {
    PositionsExactly(c, ms);
    SameEvents(c);
    RawBytesAdd(c.ledger, |c.ledger|);
    assert c.ledger[..|c.ledger|] == c.ledger;
    if PositionsAgree(c, ms) { IndicesDistinct(c, ms); }
  }

  /** What each error of validation says is so. */
  lemma OccurrenceErrorsAreTrue(c: Case, ms: seq<Membership>)
    ensures OccurrencesVerdict(c, ms) == Some(OccurrenceMismatch) ==> !PositionsAgree(c, ms)
    ensures OccurrencesVerdict(c, ms) == Some(LedgerPartitionMismatch) ==>
      !(|c.ledger| == |c.records| == |c.transformed| == |ms|) || exists e :: IsRecorded(c, e) != IsInLedger(c, e)
    ensures OccurrencesVerdict(c, ms) == Some(AccountingOverflow) ==>
      RawBytes(c.ledger, |c.ledger|) > 0xFFFF_FFFF_FFFF_FFFF
    ensures OccurrencesVerdict(c, ms) == Some(AccountingMismatch) ==> RawBytes(c.ledger, |c.ledger|) != c.charged
    ensures OccurrencesVerdict(c, ms) != Some(GroupPatternMismatch)
  {
    PositionsExactly(c, ms);
    SameEvents(c);
    RawBytesAdd(c.ledger, |c.ledger|);
    assert c.ledger[..|c.ledger|] == c.ledger;
    if PositionsAgree(c, ms) { IndicesDistinct(c, ms); }
  }

  // ---- Grouping -------------------------------------------------------------------------------------------

  datatype Group = Group(pattern: string, events: seq<string>)

  function EventIn(g: nat): Membership -> Option<string> {
    (m: Membership) => if m.group == g then Some(m.event) else None
  }

  /** The events of a group in input order. */
  function GroupEvents(ms: seq<Membership>, g: nat): seq<string> {
    Collect(EventIn(g), ms)
  }

  ghost predicate OnePattern(ms: seq<Membership>) {
    forall m, n :: m in ms && n in ms && m.group == n.group ==> m.pattern == n.pattern
  }

  /** `groups` is what `ms` are grouped into. */
  ghost predicate IsGrouping(ms: seq<Membership>, groups: map<nat, Group>) {
    KeysRight(ms, groups) && EventsRight(ms, groups) && PatternsRight(ms, groups)
  }

  ghost predicate KeysRight(ms: seq<Membership>, groups: map<nat, Group>) {
    forall g :: g in groups <==> HasGroup(ms, g)
  }

  ghost predicate EventsRight(ms: seq<Membership>, groups: map<nat, Group>) {
    forall g :: g in groups ==> groups[g].events == GroupEvents(ms, g)
  }

  ghost predicate PatternsRight(ms: seq<Membership>, groups: map<nat, Group>) {
    forall m :: m in ms ==> m.group in groups && groups[m.group].pattern == m.pattern
  }

  ghost predicate HasGroup(ms: seq<Membership>, g: nat) {
    exists m :: m in ms && m.group == g
  }

  /** `group_drain_memberships_v1`: it fails exactly on no input, a repeated event or two patterns in one group. */
  method GroupMemberships(ms: seq<Membership>) returns (r: Result<map<nat, Group>, DrainError>)
    ensures r.Ok? <==> ms != [] && Distinct(Each(EventOf, ms)) && OnePattern(ms)
    ensures r.Ok? ==> IsGrouping(ms, r.value)
    ensures r == Err(LedgerPartitionMismatch) ==> ms == []
    ensures r == Err(OccurrenceMismatch) ==> !Distinct(Each(EventOf, ms))
    ensures r == Err(GroupPatternMismatch) ==> !OnePattern(ms)
  {
    var groups: map<nat, Group> := map[];
    var seen: set<string> := {};
    for i := 0 to |ms|
      invariant GroupedSoFar(ms, i, seen, groups)
    {
      GroupStep(ms, i, seen, groups);
      if ms[i].event in seen { return Err(OccurrenceMismatch); }
      seen := seen + {ms[i].event};
      if ms[i].group in groups && groups[ms[i].group].pattern != ms[i].pattern { return Err(GroupPatternMismatch); }
      groups := Joined(groups, ms[i]);
    }
    AllGrouped(ms, seen, groups);
    if groups == map[] { return Err(LedgerPartitionMismatch); }
    return Ok(groups);
  }

  ghost predicate GroupedSoFar(ms: seq<Membership>, i: nat, seen: set<string>, groups: map<nat, Group>) {
    SeenSoFar(ms, i, seen) && OnePattern(ms[..i]) && IsGrouping(ms[..i], groups)
  }

  lemma GroupStep(ms: seq<Membership>, i: nat, seen: set<string>, groups: map<nat, Group>)
    requires i < |ms| && GroupedSoFar(ms, i, seen, groups)
    ensures var m := ms[i];
            if m.event in seen then !Distinct(Each(EventOf, ms))
            else if m.group in groups && groups[m.group].pattern != m.pattern then !OnePattern(ms)
            else GroupedSoFar(ms, i + 1, seen + {m.event}, Joined(groups, m))
  {
    SeenNext(ms, i, seen);
    PatternNext(ms, i, groups);
    if ms[i].group !in groups || groups[ms[i].group].pattern == ms[i].pattern { GroupingNext(ms, i, groups); }
  }

  lemma AllGrouped(ms: seq<Membership>, seen: set<string>, groups: map<nat, Group>)
    requires GroupedSoFar(ms, |ms|, seen, groups)
    ensures Distinct(Each(EventOf, ms)) && OnePattern(ms) && IsGrouping(ms, groups)
    ensures groups == map[] <==> ms == []
  {
    assert ms[..|ms|] == ms;
    if ms != [] { assert ms[0].group in groups; }
  }

  /** A membership joins its group, or opens it. */
  function Joined(groups: map<nat, Group>, m: Membership): map<nat, Group> {
    if m.group in groups then groups[m.group := Group(groups[m.group].pattern, groups[m.group].events + [m.event])]
    else groups[m.group := Group(m.pattern, [m.event])]
  }

  ghost predicate SeenSoFar(ms: seq<Membership>, i: nat, seen: set<string>) {
    i <= |ms| && Distinct(Each(EventOf, ms)[..i]) && seen == Elements(Each(EventOf, ms)[..i])
    && (i == |ms| ==> Distinct(Each(EventOf, ms)))
  }

  lemma SeenNext(ms: seq<Membership>, i: nat, seen: set<string>)
    requires i < |ms| && SeenSoFar(ms, i, seen)
    ensures ms[i].event in seen ==> !Distinct(Each(EventOf, ms))
    ensures ms[i].event !in seen ==> SeenSoFar(ms, i + 1, seen + {ms[i].event})
  {
    var events := Each(EventOf, ms);
    assert events[..i + 1] == events[..i] + [ms[i].event];
    DistinctNext(events[..i], ms[i].event);
    ElementsAppend(events[..i], ms[i].event);
    if Distinct(events) { DistinctPrefix(events, i + 1); }
    assert i + 1 == |ms| ==> events[..i + 1] == events;
  }

  lemma PatternNext(ms: seq<Membership>, i: nat, groups: map<nat, Group>)
    requires i < |ms| && OnePattern(ms[..i]) && IsGrouping(ms[..i], groups)
    ensures var m := ms[i]; OnePattern(ms[..i + 1]) <==> m.group !in groups || groups[m.group].pattern == m.pattern
    ensures OnePattern(ms) ==> OnePattern(ms[..i + 1])
  {
    assert ms[..i + 1] == ms[..i] + [ms[i]];
  }

  lemma GroupingNext(ms: seq<Membership>, i: nat, groups: map<nat, Group>)
    requires i < |ms| && IsGrouping(ms[..i], groups)
    requires ms[i].group in groups ==> groups[ms[i].group].pattern == ms[i].pattern
    ensures IsGrouping(ms[..i + 1], Joined(groups, ms[i]))
  {
    assert ms[..i + 1] == ms[..i] + [ms[i]];
    KeysNext(ms[..i], ms[i], groups);
    PatternsNext(ms[..i], ms[i], groups);
    forall g | g in Joined(groups, ms[i]) ensures Joined(groups, ms[i])[g].events == GroupEvents(ms[..i + 1], g) {
      EventsNext(ms[..i], ms[i], groups, g);
    }
  }

  lemma KeysNext(ms: seq<Membership>, m: Membership, groups: map<nat, Group>)
    requires KeysRight(ms, groups)
    ensures KeysRight(ms + [m], Joined(groups, m))
  {
    forall g: nat ensures HasGroup(ms + [m], g) <==> HasGroup(ms, g) || g == m.group { HasGroupNext(ms, m, g); }
  }

  lemma PatternsNext(ms: seq<Membership>, m: Membership, groups: map<nat, Group>)
    requires PatternsRight(ms, groups) && (m.group in groups ==> groups[m.group].pattern == m.pattern)
    ensures PatternsRight(ms + [m], Joined(groups, m))
  {
    forall n | n in ms + [m] ensures n.group in Joined(groups, m) && Joined(groups, m)[n.group].pattern == n.pattern {
      assert n in ms || n == m;
    }
  }

  lemma HasGroupNext(ms: seq<Membership>, m: Membership, g: nat)
    ensures HasGroup(ms + [m], g) <==> HasGroup(ms, g) || g == m.group
  {
    assert m in ms + [m] && forall n :: n in ms + [m] <==> n in ms || n == m;
  }

  lemma EventsNext(ms: seq<Membership>, m: Membership, groups: map<nat, Group>, g: nat)
    requires IsGrouping(ms, groups) && g in Joined(groups, m)
    ensures Joined(groups, m)[g].events == GroupEvents(ms + [m], g)
  {
    CollectAppend(EventIn(g), ms, m);
    if g !in groups {
      CollectEmpty(EventIn(g), ms);
      forall n | n in ms ensures EventIn(g)(n).None? { assert HasGroup(ms, n.group); }
    }
  }

  ghost predicate InGroup(ms: seq<Membership>, g: nat, e: string) {
    exists m :: m in ms && m.group == g && m.event == e
  }

  lemma GroupMembers(ms: seq<Membership>, groups: map<nat, Group>, g: nat)
    requires IsGrouping(ms, groups) && g in groups
    ensures groups[g].events != []
    ensures forall e :: e in groups[g].events <==> InGroup(ms, g, e)
  {
    var f := EventIn(g);
    assert HasGroup(ms, g);
    CollectEmpty(f, ms);
    CollectFrom(f, ms);
    forall m | m in ms ensures f(m) == if m.group == g then Some(m.event) else None {}
  }

  lemma OneGroupEach(ms: seq<Membership>, g: nat, h: nat, e: string)
    requires Distinct(Each(EventOf, ms)) && InGroup(ms, g, e) && InGroup(ms, h, e)
    ensures g == h
  {
    var m :| m in ms && m.group == g && m.event == e;
    var n :| n in ms && n.group == h && n.event == e;
    var i :| 0 <= i < |ms| && ms[i] == m;
    var j :| 0 <= j < |ms| && ms[j] == n;
    assert Each(EventOf, ms)[i] == Each(EventOf, ms)[j];
  }

  lemma EventsAreGrouped(ms: seq<Membership>, e: string)
    ensures e in Each(EventOf, ms) <==> exists g :: InGroup(ms, g, e)
  {
    if e in Each(EventOf, ms) {
      var i :| 0 <= i < |ms| && Each(EventOf, ms)[i] == e;
      assert InGroup(ms, ms[i].group, e) by { assert ms[i] in ms; }
    }
    if g :| InGroup(ms, g, e) {
      var m :| m in ms && m.group == g && m.event == e;
      var i :| 0 <= i < |ms| && ms[i] == m;
      assert Each(EventOf, ms)[i] == e;
    }
  }

  /** The groups partition the events: none is empty, every event is in a group, and in no second one. */
  lemma GroupsPartition(ms: seq<Membership>, groups: map<nat, Group>)
    requires Distinct(Each(EventOf, ms)) && IsGrouping(ms, groups)
    ensures forall g :: g in groups ==> groups[g].events != []
    ensures forall g, h, e :: g in groups && h in groups && e in groups[g].events && e in groups[h].events ==> g == h
    ensures forall e :: e in Each(EventOf, ms) <==> exists g :: g in groups && e in groups[g].events
  {
    forall g | g in groups ensures groups[g].events != [] { GroupMembers(ms, groups, g); }
    forall g, h, e | g in groups && h in groups && e in groups[g].events && e in groups[h].events ensures g == h {
      GroupMembers(ms, groups, g);
      GroupMembers(ms, groups, h);
      OneGroupEach(ms, g, h, e);
    }
    forall e ensures e in Each(EventOf, ms) <==> exists g :: g in groups && e in groups[g].events {
      GroupedSomewhere(ms, groups, e);
    }
  }

  lemma GroupedSomewhere(ms: seq<Membership>, groups: map<nat, Group>, e: string)
    requires IsGrouping(ms, groups)
    ensures e in Each(EventOf, ms) <==> exists g :: g in groups && e in groups[g].events
  {
    EventsAreGrouped(ms, e);
    if g :| InGroup(ms, g, e) {
      assert HasGroup(ms, g);
      GroupMembers(ms, groups, g);
    }
    if g :| g in groups && e in groups[g].events { GroupMembers(ms, groups, g); }
  }

  /** Validation and grouping together: every ledger event is in exactly one group, and nothing else is in any. */
  lemma GroupsPartitionLedger(c: Case, ms: seq<Membership>, groups: map<nat, Group>)
    requires OccurrencesHold(c, ms) && IsGrouping(ms, groups)
    ensures forall e :: e in Each(IdOf, c.ledger) <==> exists g :: g in groups && e in groups[g].events
    ensures forall g, h, e :: g in groups && h in groups && e in groups[g].events && e in groups[h].events ==> g == h
    ensures forall g :: g in groups ==> groups[g].events != []
  {
    MembershipsMatchLedger(c, ms);
    GroupsPartition(ms, groups);
    forall e ensures e in Each(IdOf, c.ledger) <==> e in Each(EventOf, ms) {
      assert e in Elements(Each(IdOf, c.ledger)) <==> e in Elements(Each(EventOf, ms));
    }
  }

  /** A group's events come in the order of the memberships: each one adds its event to the end of its own group. */
  lemma GroupsInOrder(ms: seq<Membership>, m: Membership, g: nat)
    ensures GroupEvents([], g) == []
    ensures GroupEvents(ms + [m], g) == if m.group == g then GroupEvents(ms, g) + [m.event] else GroupEvents(ms, g)
  {
    CollectAppend(EventIn(g), ms, m);
  }
}
