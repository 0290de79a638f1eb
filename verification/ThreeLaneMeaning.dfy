/** What the three-lane audit accepts, said of the fields of its inputs alone. */
module ThreeLaneMeaning {
  import opened Prelude
  import opened Ordering
  import opened Octets
  import opened Counting
  import opened FramedBlocks
  import opened ThreeLaneAudit

  // ---- Arrangements ---------------------------------------------------------------------------------------

  /** `s` lists the members of `t`, as often, in ascending order. */
  ghost predicate Arranged(s: seq<string>, t: seq<string>) {
    SortedBy(Itself, s) && multiset(s) == multiset(t)
  }

  lemma SortExactly(s: seq<string>, t: seq<string>)
    ensures Sort(Itself, t) == s <==> Arranged(s, t)
  {
    if Arranged(s, t) { SortedUnique(Itself, Sort(Itself, t), s); }
  }

  /** Lists laid end to end repeat nothing when none repeats anything and no two share anything. */
  lemma {:induction false} FlatDistinct<T(!new), U(!new)>(f: T -> seq<U>, s: seq<T>)
    ensures Distinct(Flat(f, s))
       <==> (forall k :: 0 <= k < |s| ==> Distinct(f(s[k])))
            && forall k, l :: 0 <= k < l < |s| ==> Apart(f(s[k]), f(s[l]))
  {
    if s != [] {
      FlatDistinct(f, s[1..]);
      DistinctBoth(f(s[0]), Flat(f, s[1..]));
      FlatMembers(f, s[1..]);
      if Distinct(f(s[0])) && Distinct(Flat(f, s[1..])) && Apart(f(s[0]), Flat(f, s[1..])) { FlatApart(f, s); }
      if (forall k :: 0 <= k < |s| ==> Distinct(f(s[k])))
        && forall k, l :: 0 <= k < l < |s| ==> Apart(f(s[k]), f(s[l])) { ApartFlat(f, s); }
    }
  }

  /** Nothing is in both. */
  ghost predicate Apart<U(!new)>(s: seq<U>, t: seq<U>) {
    forall e :: !(e in s && e in t)
  }

  lemma DistinctBoth<U(!new)>(s: seq<U>, t: seq<U>)
    ensures Distinct(s + t) <==> Distinct(s) && Distinct(t) && Apart(s, t)
  {
    var all := s + t;
    if Distinct(all) {
      forall i, j | 0 <= i < j < |s| ensures s[i] != s[j] { assert all[i] != all[j]; }
      forall i, j | 0 <= i < j < |t| ensures t[i] != t[j] { assert all[|s| + i] != all[|s| + j]; }
      forall i, j | 0 <= i < |s| && 0 <= j < |t| ensures s[i] != t[j] { assert all[i] != all[|s| + j]; }
    }
    if Distinct(s) && Distinct(t) && Apart(s, t) {
      forall i, j | 0 <= i < j < |all| ensures all[i] != all[j] {
        assert i < |s| <= j ==> s[i] in s && t[j - |s|] in t;
      }
    }
  }

  lemma FlatApart<T(!new), U(!new)>(f: T -> seq<U>, s: seq<T>)
    requires s != [] && Distinct(f(s[0])) && Distinct(Flat(f, s[1..])) && Apart(f(s[0]), Flat(f, s[1..]))
    requires forall k :: 0 <= k < |s[1..]| ==> Distinct(f(s[1..][k]))
    requires forall k, l :: 0 <= k < l < |s[1..]| ==> Apart(f(s[1..][k]), f(s[1..][l]))
    ensures forall k :: 0 <= k < |s| ==> Distinct(f(s[k]))
    ensures forall k, l :: 0 <= k < l < |s| ==> Apart(f(s[k]), f(s[l]))
  {
    FlatMembers(f, s[1..]);
    forall k | 0 <= k < |s| ensures Distinct(f(s[k])) {
      if k > 0 { assert s[k] == s[1..][k - 1]; }
    }
    forall k, l | 0 <= k < l < |s| ensures Apart(f(s[k]), f(s[l])) {
      assert s[l] == s[1..][l - 1] && s[l] in s[1..];
      if k > 0 { assert s[k] == s[1..][k - 1]; }
    }
  }

  lemma ApartFlat<T(!new), U(!new)>(f: T -> seq<U>, s: seq<T>)
    requires s != [] && forall k :: 0 <= k < |s| ==> Distinct(f(s[k]))
    requires forall k, l :: 0 <= k < l < |s| ==> Apart(f(s[k]), f(s[l]))
    ensures Apart(f(s[0]), Flat(f, s[1..]))
    ensures forall k :: 0 <= k < |s[1..]| ==> Distinct(f(s[1..][k]))
    ensures forall k, l :: 0 <= k < l < |s[1..]| ==> Apart(f(s[1..][k]), f(s[1..][l]))
  {
    FlatMembers(f, s[1..]);
    forall e ensures !(e in f(s[0]) && e in Flat(f, s[1..])) {
      if e in Flat(f, s[1..]) {
        var x :| x in s[1..] && e in f(x);
        var l :| 0 <= l < |s[1..]| && s[1..][l] == x;
        assert Apart(f(s[0]), f(s[l + 1]));
      }
    }
  }

  // ---- Entries and the ledger -----------------------------------------------------------------------------

  ghost predicate InLedger(ledger: seq<LedgerEvent>, id: string) {
    exists l :: l in ledger && l.id == id
  }

  lemma InLedgerExactly(ledger: seq<LedgerEvent>, id: string)
    ensures id in IdsOf(ledger) <==> InLedger(ledger, id)
  {
    if id in IdsOf(ledger) {
      var i :| 0 <= i < |ledger| && IdsOf(ledger)[i] == id;
      assert ledger[i] in ledger;
    }
    if InLedger(ledger, id) {
      var l :| l in ledger && l.id == id;
      var i :| 0 <= i < |ledger| && ledger[i] == l;
      assert IdsOf(ledger)[i] == id;
    }
  }

  ghost predicate InEntry(ms: seq<Metadata>, id: string) {
    exists m :: m in ms && id in m.orderedIds
  }

  /** Entries have their own packets, blocks and events, at least one each, and hold exactly the ledger's events. */
  ghost predicate EntriesSound(a: Audit) {
    && (forall k, l :: 0 <= k < l < |a.metadata| ==>
          a.metadata[k].packetId != a.metadata[l].packetId && a.metadata[k].blockId != a.metadata[l].blockId
          && Apart(a.metadata[k].orderedIds, a.metadata[l].orderedIds))
    && (forall k :: 0 <= k < |a.metadata| ==> a.metadata[k].orderedIds != [] && Distinct(a.metadata[k].orderedIds))
    && forall id :: InEntry(a.metadata, id) <==> InLedger(a.ledger, id)
  }

  lemma InEntryExactly(ms: seq<Metadata>, id: string)
    ensures id in Flat(MetadataEvents, ms) <==> InEntry(ms, id)
  {
    FlatMembers(MetadataEvents, ms);
    if id in Flat(MetadataEvents, ms) {
      var m :| m in ms && id in MetadataEvents(m);
      assert id in m.orderedIds;
    }
    if InEntry(ms, id) {
      var m :| m in ms && id in m.orderedIds;
      assert id in MetadataEvents(m);
    }
  }

  /** Distinct events that fill the ledger by their number are all of its events. */
  lemma FillsLedger(ledger: seq<LedgerEvent>, all: seq<string>)
    requires ValidLedger(ledger) && Distinct(all)
    ensures (forall id :: id in all ==> id in IdsOf(ledger)) && |all| == |ledger|
       <==> forall id :: id in all <==> id in IdsOf(ledger)
  {
    var ids := IdsOf(ledger);
    DistinctIsCardinality(all);
    DistinctIsCardinality(ids);
    if (forall id :: id in all ==> id in ids) && |all| == |ledger| {
      Pigeonhole(all, Elements(ids));
      forall id ensures id in all <==> id in ids { assert id in Elements(all) <==> id in Elements(ids); }
    }
    if forall id :: id in all <==> id in ids { assert Elements(all) == Elements(ids); }
  }

  lemma EntriesExactly(a: Audit)
    requires ValidLedger(a.ledger)
    ensures MetadataHolds(a.ledger, a.metadata) && |AllEvents(a)| == |a.ledger|
       <==> EntriesSound(a) && SumBy(SizeIn(a.ledger), AllEvents(a)) <= U64_MAX
  {
    var ms := a.metadata;
    FlatDistinct(MetadataEvents, ms);
    EntriesApart(ms);
    if Distinct(AllEvents(a)) { FillsLedger(a.ledger, AllEvents(a)); }
    forall id ensures id in AllEvents(a) <==> InEntry(ms, id) { InEntryExactly(ms, id); }
    forall id ensures id in IdsOf(a.ledger) <==> InLedger(a.ledger, id) { InLedgerExactly(a.ledger, id); }
    EntriesNotEmpty(ms);
  }

  lemma EntriesNotEmpty(ms: seq<Metadata>)
    ensures (forall m :: m in ms ==> m.orderedIds != []) <==> forall k :: 0 <= k < |ms| ==> ms[k].orderedIds != []
  {
    if forall k :: 0 <= k < |ms| ==> ms[k].orderedIds != [] {
      forall m | m in ms ensures m.orderedIds != [] { var k :| 0 <= k < |ms| && ms[k] == m; }
    }
  }

  lemma EntriesApart(ms: seq<Metadata>)
    ensures Distinct(Each(MetadataPacket, ms))
       <==> forall k, l :: 0 <= k < l < |ms| ==> ms[k].packetId != ms[l].packetId
    ensures Distinct(Each(MetadataBlock, ms)) <==> forall k, l :: 0 <= k < l < |ms| ==> ms[k].blockId != ms[l].blockId
  {
    var packets, blocks := Each(MetadataPacket, ms), Each(MetadataBlock, ms);
    if Distinct(packets) {
      forall k, l | 0 <= k < l < |ms| ensures ms[k].packetId != ms[l].packetId { assert packets[k] != packets[l]; }
    }
    if Distinct(blocks) {
      forall k, l | 0 <= k < l < |ms| ensures ms[k].blockId != ms[l].blockId { assert blocks[k] != blocks[l]; }
    }
  }

  // ---- Proposals ------------------------------------------------------------------------------------------

  /** The events of the packet's entry in ascending order, at a certified cost. */
  ghost predicate ProposalSound(a: Audit, p: Packet) {
    (exists m :: m in a.metadata && m.packetId == p.id && Arranged(p.eventIds, m.orderedIds))
    && a.cost(p.id, p.eventIds) == Some(p.upperBound)
  }

  ghost predicate ProposalsSound(a: Audit) {
    (forall i, j :: 0 <= i < j < |a.proposals| ==> a.proposals[i].id != a.proposals[j].id)
    && forall p :: p in a.proposals ==> ProposalSound(a, p)
  }

  lemma ProposalExactly(a: Audit, p: Packet)
    requires Distinct(Each(MetadataPacket, a.metadata)) && p in a.proposals
    ensures PacketHolds(a, p) <==> ProposalSound(a, p)
  {
    assert ProposalMetadata(a, p.id) == FindMetadata(a.metadata, p.id);
    if PacketHolds(a, p) {
      var m := ProposalMetadata(a, p.id).value;
      SortExactly(p.eventIds, m.orderedIds);
      assert m in a.metadata && m.packetId == p.id && Arranged(p.eventIds, m.orderedIds);
    }
    if ProposalSound(a, p) {
      var m :| m in a.metadata && m.packetId == p.id && Arranged(p.eventIds, m.orderedIds);
      SamePacketSameEntry(a.metadata, m, FindMetadata(a.metadata, p.id).value);
      SortExactly(p.eventIds, m.orderedIds);
    }
  }

  lemma ProposalIdsApart(a: Audit)
    ensures Distinct(ProposalIds(a))
       <==> forall i, j :: 0 <= i < j < |a.proposals| ==> a.proposals[i].id != a.proposals[j].id
  {
    var ids := ProposalIds(a);
    if Distinct(ids) {
      forall i, j | 0 <= i < j < |a.proposals| ensures a.proposals[i].id != a.proposals[j].id {
        assert ids[i] != ids[j];
      }
    }
  }

  /** The place of the entry that a proposal lists. */
  lemma EntryPlace(a: Audit, p: Packet) returns (k: nat)
    requires ProposalSound(a, p)
    ensures k < |a.metadata| && a.metadata[k].packetId == p.id
    ensures multiset(p.eventIds) == multiset(a.metadata[k].orderedIds)
    ensures forall e :: e in p.eventIds <==> e in a.metadata[k].orderedIds
  {
    var m :| m in a.metadata && m.packetId == p.id && Arranged(p.eventIds, m.orderedIds);
    k :| 0 <= k < |a.metadata| && a.metadata[k] == m;
    SameElements(p.eventIds, m.orderedIds);
  }

  lemma ProposedEventsDistinct(a: Audit)
    requires EntriesSound(a) && ProposalsSound(a)
    ensures Distinct(ProposalEvents(a))
  {
    var ps := a.proposals;
    forall i | 0 <= i < |ps| ensures Distinct(PacketEvents(ps[i])) {
      assert ps[i] in ps;
      var k := EntryPlace(a, ps[i]);
      DistinctIgnoresOrder(ps[i].eventIds, a.metadata[k].orderedIds);
    }
    forall i, j | 0 <= i < j < |ps| ensures Apart(PacketEvents(ps[i]), PacketEvents(ps[j])) {
      assert ps[i] in ps && ps[j] in ps;
      var k := EntryPlace(a, ps[i]);
      var l := EntryPlace(a, ps[j]);
      EntriesDiffer(a, k, l);
    }
    FlatDistinct(PacketEvents, ps);
  }

  lemma EntriesDiffer(a: Audit, k: nat, l: nat)
    requires EntriesSound(a) && k < |a.metadata| && l < |a.metadata| && k != l
    ensures Apart(a.metadata[k].orderedIds, a.metadata[l].orderedIds)
  {
    if k < l {
      assert Apart(a.metadata[k].orderedIds, a.metadata[l].orderedIds);
    } else {
      assert Apart(a.metadata[l].orderedIds, a.metadata[k].orderedIds);
    }
  }

  lemma ProposedInLedger(a: Audit)
    requires EntriesSound(a) && ProposalsSound(a)
    ensures forall e :: e in ProposalEvents(a) ==> e in IdsOf(a.ledger)
  {
    FlatMembers(PacketEvents, a.proposals);
    forall e | e in ProposalEvents(a) ensures e in IdsOf(a.ledger) {
      var p :| p in a.proposals && e in PacketEvents(p);
      var k := EntryPlace(a, p);
      assert a.metadata[k] in a.metadata && InEntry(a.metadata, e);
      InLedgerExactly(a.ledger, e);
    }
  }

  // ---- Bytes ----------------------------------------------------------------------------------------------

  /** The bytes of those of the first `n` events of the ledger that are among `ids`. */
  ghost function BytesAmong(ledger: seq<LedgerEvent>, ids: set<string>, n: nat): nat
    requires n <= |ledger|
  {
    if n == 0 then 0 else BytesAmong(ledger, ids, n - 1) + if ledger[n - 1].id in ids then |ledger[n - 1].bytes| else 0
  }

  lemma {:induction false} BytesAdd(ledger: seq<LedgerEvent>, ids: set<string>, i: nat, n: nat)
    requires ValidLedger(ledger) && i < |ledger| && ledger[i].id !in ids && n <= |ledger|
    ensures BytesAmong(ledger, ids + {ledger[i].id}, n)
         == BytesAmong(ledger, ids, n) + if i < n then |ledger[i].bytes| else 0
    decreases n
  {
    if n > 0 {
      BytesAdd(ledger, ids, i, n - 1);
      assert IdsOf(ledger)[i] == ledger[i].id && IdsOf(ledger)[n - 1] == ledger[n - 1].id;
    }
  }

  lemma {:induction false} BytesMonotone(ledger: seq<LedgerEvent>, ids: set<string>, more: set<string>, n: nat)
    requires ids <= more && n <= |ledger|
    ensures BytesAmong(ledger, ids, n) <= BytesAmong(ledger, more, n)
    decreases n
  {
    if n > 0 { BytesMonotone(ledger, ids, more, n - 1); }
  }

  lemma {:induction false} NoBytes(ledger: seq<LedgerEvent>, n: nat)
    requires n <= |ledger|
    ensures BytesAmong(ledger, {}, n) == 0
    decreases n
  {
    if n > 0 { NoBytes(ledger, n - 1); }
  }

  lemma {:induction false} BytesExactly(ledger: seq<LedgerEvent>, ids: seq<string>)
    requires ValidLedger(ledger) && Distinct(ids) && forall id :: id in ids ==> id in IdsOf(ledger)
    ensures SumBy(SizeIn(ledger), ids) == BytesAmong(ledger, Elements(ids), |ledger|)
    decreases |ids|
  {
    if ids == [] {
      assert Elements(ids) == {};
      NoBytes(ledger, |ledger|);
    } else {
      BytesExactly(ledger, ids[1..]);
      DistinctByHead(ids);
      assert ids[0] in ids;
      var i :| 0 <= i < |ledger| && IdsOf(ledger)[i] == ids[0];
      ExactBytesAt(ledger, i);
      BytesAdd(ledger, Elements(ids[1..]), i, |ledger|);
      assert ids == [ids[0]] + ids[1..];
      assert Elements(ids) == Elements(ids[1..]) + {ledger[i].id};
    }
  }

  /** Local checks and coverage together, said of the fields. */
  lemma LocalExactly(a: Audit)
    requires ValidLedger(a.ledger)
    ensures LocalChecks(a) && |AllEvents(a)| == |a.ledger|
       <==> EntriesSound(a) && ProposalsSound(a) && LedgerBytes(a) <= U64_MAX
            && SumBy(Affinities, a.proposals) <= U64_MAX
  {
    EntriesExactly(a);
    if EntriesSound(a) { LocalOfEntries(a); }
  }

  ghost function LedgerBytes(a: Audit): nat {
    BytesAmong(a.ledger, set l | l in a.ledger :: l.id, |a.ledger|)
  }

  lemma AllEventsAreLedger(a: Audit)
    requires ValidLedger(a.ledger) && EntriesSound(a)
    ensures Distinct(AllEvents(a)) && Elements(AllEvents(a)) == (set l | l in a.ledger :: l.id)
    ensures forall id :: id in AllEvents(a) <==> id in IdsOf(a.ledger)
    ensures SumBy(SizeIn(a.ledger), AllEvents(a)) == LedgerBytes(a)
  {
    FlatDistinct(MetadataEvents, a.metadata);
    forall id
      ensures (id in AllEvents(a) <==> id in IdsOf(a.ledger)) && (id in AllEvents(a) <==> InLedger(a.ledger, id))
    {
      InEntryExactly(a.metadata, id);
      InLedgerExactly(a.ledger, id);
    }
    BytesExactly(a.ledger, AllEvents(a));
  }

  lemma LocalOfEntries(a: Audit)
    requires ValidLedger(a.ledger) && EntriesSound(a)
    ensures LocalChecks(a) && |AllEvents(a)| == |a.ledger|
       <==> ProposalsSound(a) && LedgerBytes(a) <= U64_MAX && SumBy(Affinities, a.proposals) <= U64_MAX
  {
    EntriesExactly(a);
    AllEventsAreLedger(a);
    EntriesApart(a.metadata);
    ProposalIdsApart(a);
    forall p | p in a.proposals ensures PacketHolds(a, p) <==> ProposalSound(a, p) { ProposalExactly(a, p); }
    if ProposalsSound(a) && LedgerBytes(a) <= U64_MAX { ProposedCountable(a); }
  }

  lemma ProposedCountable(a: Audit)
    requires ValidLedger(a.ledger) && EntriesSound(a) && ProposalsSound(a) && LedgerBytes(a) <= U64_MAX
    ensures Countable(a.ledger, ProposalEvents(a))
  {
    ProposedEventsDistinct(a);
    ProposedInLedger(a);
    BytesExactly(a.ledger, ProposalEvents(a));
    forall e | e in ProposalEvents(a) ensures InLedger(a.ledger, e) { InLedgerExactly(a.ledger, e); }
    BytesMonotone(a.ledger, Elements(ProposalEvents(a)), set l | l in a.ledger :: l.id, |a.ledger|);
  }

  // ---- The declared accounting ----------------------------------------------------------------------------

  ghost function ProposedEvents(a: Audit): set<string> {
    set p, e | p in a.proposals && e in p.eventIds :: e
  }

  ghost function UnproposedEvents(a: Audit): set<string> {
    set l | l in a.ledger && l.id !in ProposedEvents(a) :: l.id
  }

  ghost predicate IsProposed(a: Audit, id: string) {
    exists p :: p in a.proposals && p.id == id
  }

  ghost function UnproposedEntries(ms: seq<Metadata>, a: Audit): set<nat> {
    set k: nat | k < |ms| && !IsProposed(a, ms[k].packetId)
  }

  ghost function AffinityTotal(ps: seq<Packet>, n: nat): nat
    requires n <= |ps|
  {
    if n == 0 then 0 else AffinityTotal(ps, n - 1) + |ps[n - 1].affinities|
  }

  /** Every declared number is the actual one. */
  ghost predicate Declares(a: Audit) {
    && a.declared.blocks == |a.metadata| && a.declared.events == |a.ledger| && a.declared.bytes == LedgerBytes(a)
    && a.declared.proposalPackets == |a.proposals| && a.declared.proposalEvents == |ProposedEvents(a)|
    && a.declared.proposalBytes == BytesAmong(a.ledger, ProposedEvents(a), |a.ledger|)
    && a.declared.retainedBlocks == |UnproposedEntries(a.metadata, a)|
    && a.declared.retainedEvents == |UnproposedEvents(a)|
    && a.declared.retainedBytes == BytesAmong(a.ledger, UnproposedEvents(a), |a.ledger|)
    && a.declared.affinities == AffinityTotal(a.proposals, |a.proposals|)
    && a.declared.mandatory == |a.mandatory| && a.declared.facets == |a.facets|
  }

  lemma {:induction false} AffinitiesAdd(ps: seq<Packet>, n: nat)
    requires n <= |ps|
    ensures SumBy(Affinities, ps[..n]) == AffinityTotal(ps, n)
  {
    if n > 0 {
      AffinitiesAdd(ps, n - 1);
      assert ps[..n] == ps[..n - 1] + [ps[n - 1]];
      SumAppend(Affinities, ps[..n - 1], ps[n - 1]);
    }
  }

  lemma {:induction false} RetainedEntries(ms: seq<Metadata>, a: Audit)
    ensures |Lane(ms, Elements(ProposalIds(a)), false)| == |UnproposedEntries(ms, a)|
    decreases |ms|
  {
    if ms == [] {
      assert UnproposedEntries(ms, a) == {};
    } else {
      var last := |ms| - 1;
      var rest, m := ms[..last], ms[last];
      assert ms == rest + [m];
      RetainedEntries(rest, a);
      LaneAppend(rest, m, Elements(ProposalIds(a)), false);
      ProposedHasPacket(a, m.packetId);
      if IsProposed(a, m.packetId) {
        assert UnproposedEntries(ms, a) == UnproposedEntries(rest, a);
      } else {
        assert UnproposedEntries(ms, a) == UnproposedEntries(rest, a) + {last};
      }
    }
  }

  lemma ProposedEventsExactly(a: Audit)
    ensures Elements(ProposalEvents(a)) == ProposedEvents(a)
  {
    FlatMembers(PacketEvents, a.proposals);
    forall e ensures e in ProposalEvents(a) <==> e in ProposedEvents(a) {
      if e in ProposalEvents(a) { var p :| p in a.proposals && e in PacketEvents(p); }
      if e in ProposedEvents(a) {
        var p :| p in a.proposals && e in p.eventIds;
        assert e in PacketEvents(p);
      }
    }
  }

  lemma RetainedEventsExactly(a: Audit)
    requires ValidLedger(a.ledger) && EntriesSound(a) && LocalChecks(a)
    ensures Elements(RetainedEvents(a)) == UnproposedEvents(a)
    ensures Countable(a.ledger, RetainedEvents(a))
  {
    LanesAddUp(a);
    LanesAreParts(a.ledger, a.metadata, Elements(ProposalIds(a)));
    AllEventsAreLedger(a);
    ProposedEventsExactly(a);
    forall e ensures e in RetainedEvents(a) <==> e in UnproposedEvents(a) {
      assert e in Elements(ProposalEvents(a)) <==> e in ProposedEvents(a);
      assert e in Elements(AllEvents(a)) <==> e in (set l | l in a.ledger :: l.id);
    }
  }

  lemma ActualExactly(a: Audit)
    requires ValidLedger(a.ledger) && EntriesSound(a) && LocalChecks(a)
    ensures a.declared == Actual(a) <==> Declares(a)
  {
    ActualTotals(a);
    ActualProposals(a);
    ActualRetained(a);
  }

  lemma ActualTotals(a: Audit)
    requires ValidLedger(a.ledger) && EntriesSound(a) && LocalChecks(a)
    ensures |AllEvents(a)| == |a.ledger| && SumBy(SizeIn(a.ledger), AllEvents(a)) == LedgerBytes(a)
    ensures SumBy(Affinities, a.proposals) == AffinityTotal(a.proposals, |a.proposals|)
  {
    AllEventsAreLedger(a);
    EntriesExactly(a);
    AffinitiesAdd(a.proposals, |a.proposals|);
    assert a.proposals[..|a.proposals|] == a.proposals;
  }

  lemma ActualProposals(a: Audit)
    requires ValidLedger(a.ledger) && LocalChecks(a)
    ensures |ProposalEvents(a)| == |ProposedEvents(a)|
    ensures SumBy(SizeIn(a.ledger), ProposalEvents(a)) == BytesAmong(a.ledger, ProposedEvents(a), |a.ledger|)
  {
    ProposedEventsExactly(a);
    CountedSizes(a, ProposalEvents(a), ProposedEvents(a));
  }

  lemma ActualRetained(a: Audit)
    requires ValidLedger(a.ledger) && EntriesSound(a) && LocalChecks(a)
    ensures |RetainedEvents(a)| == |UnproposedEvents(a)|
    ensures SumBy(SizeIn(a.ledger), RetainedEvents(a)) == BytesAmong(a.ledger, UnproposedEvents(a), |a.ledger|)
    ensures |Lane(a.metadata, Elements(ProposalIds(a)), false)| == |UnproposedEntries(a.metadata, a)|
  {
    RetainedEventsExactly(a);
    CountedSizes(a, RetainedEvents(a), UnproposedEvents(a));
    RetainedEntries(a.metadata, a);
  }

  lemma CountedSizes(a: Audit, ids: seq<string>, members: set<string>)
    requires ValidLedger(a.ledger) && Countable(a.ledger, ids) && Elements(ids) == members
    ensures |ids| == |members| && SumBy(SizeIn(a.ledger), ids) == BytesAmong(a.ledger, members, |a.ledger|)
  {
    DistinctIsCardinality(ids);
    BytesExactly(a.ledger, ids);
  }

  // ---- Framing and facets ---------------------------------------------------------------------------------

  /** Entries and freshly framed blocks are the same, member for member, and no block comes twice. */
  ghost predicate FramingSound(a: Audit) {
    && a.framed.Some?
    && (forall i, j :: 0 <= i < j < |a.framed.value| ==> a.framed.value[i].id != a.framed.value[j].id)
    && (forall m :: m in a.metadata ==> IsFramed(a.framed.value, m))
    && (forall b :: b in a.framed.value ==> IsEntered(a.metadata, b))
  }

  ghost predicate IsFramed(bs: seq<Block>, m: Metadata) {
    exists b :: b in bs && b.id == m.blockId && b.members == m.orderedIds
  }

  ghost predicate IsEntered(ms: seq<Metadata>, b: Block) {
    exists m :: m in ms && m.blockId == b.id && m.orderedIds == b.members
  }

  lemma {:induction false} EntryKeys(ms: seq<Metadata>, id: string)
    requires id in MembersByBlock(ms)
    ensures exists m :: m in ms && m.blockId == id && m.orderedIds == MembersByBlock(ms)[id]
    decreases |ms|
  {
    var last := |ms| - 1;
    if ms[last].blockId == id {
      assert ms[last] in ms;
    } else {
      EntryKeys(ms[..last], id);
      var m :| m in ms[..last] && m.blockId == id && m.orderedIds == MembersByBlock(ms[..last])[id];
      assert m in ms;
    }
  }

  lemma {:induction false} MembersOfFramed(bs: seq<Block>, b: Block)
    requires Distinct(Each(BlockKey, bs)) && b in bs
    ensures b.id in FramedMembers(bs) && FramedMembers(bs)[b.id] == b.members
    decreases |bs|
  {
    var last := |bs| - 1;
    var front := bs[..last];
    assert bs == front + [bs[last]];
    EachAppend(BlockKey, front, bs[last]);
    DistinctApart(Each(BlockKey, front), [bs[last].id]);
    if b in front {
      var i :| 0 <= i < last && front[i] == b;
      assert Each(BlockKey, bs)[i] != Each(BlockKey, bs)[last];
      MembersOfFramed(front, b);
    }
  }

  lemma BlocksApart(bs: seq<Block>)
    ensures Distinct(Each(BlockKey, bs)) <==> forall i, j :: 0 <= i < j < |bs| ==> bs[i].id != bs[j].id
  {
    var ids := Each(BlockKey, bs);
    if Distinct(ids) {
      forall i, j | 0 <= i < j < |bs| ensures bs[i].id != bs[j].id { assert ids[i] != ids[j]; }
    }
  }

  lemma FramingExactly(a: Audit)
    requires Distinct(Each(MetadataBlock, a.metadata))
    ensures FramedHolds(a) <==> FramingSound(a)
  {
    if a.framed.Some? { BlocksApart(a.framed.value); }
    if FramedHolds(a) { FramingHolds(a); }
    if FramingSound(a) { SameMembers(a); }
  }

  lemma FramingHolds(a: Audit)
    requires FramedHolds(a) && Distinct(Each(MetadataBlock, a.metadata))
    ensures FramingSound(a)
  {
    var bs := a.framed.value;
    BlocksApart(bs);
    forall m | m in a.metadata ensures IsFramed(bs, m) {
      MembersOfBlock(a.metadata, m);
      FramedKeys(bs, m.blockId);
    }
    forall b | b in bs ensures IsEntered(a.metadata, b) {
      MembersOfFramed(bs, b);
      EntryKeys(a.metadata, b.id);
    }
  }

  lemma SameMembers(a: Audit)
    requires FramingSound(a) && Distinct(Each(MetadataBlock, a.metadata))
    ensures MembersByBlock(a.metadata) == FramedMembers(a.framed.value)
  {
    BlocksApart(a.framed.value);
    forall id | id in MembersByBlock(a.metadata)
      ensures id in FramedMembers(a.framed.value) && FramedMembers(a.framed.value)[id] == MembersByBlock(a.metadata)[id]
    {
      EntryKeyIsFramed(a.metadata, a.framed.value, id);
    }
    forall id | id in FramedMembers(a.framed.value) ensures id in MembersByBlock(a.metadata) {
      FramedKeyIsEntered(a.metadata, a.framed.value, id);
    }
  }

  lemma EntryKeyIsFramed(ms: seq<Metadata>, bs: seq<Block>, id: string)
    requires Distinct(Each(BlockKey, bs)) && id in MembersByBlock(ms) && forall m :: m in ms ==> IsFramed(bs, m)
    ensures id in FramedMembers(bs) && FramedMembers(bs)[id] == MembersByBlock(ms)[id]
  {
    EntryKeys(ms, id);
    var m :| m in ms && m.blockId == id && m.orderedIds == MembersByBlock(ms)[id];
    assert IsFramed(bs, m);
    var b :| b in bs && b.id == m.blockId && b.members == m.orderedIds;
    MembersOfFramed(bs, b);
  }

  lemma FramedKeyIsEntered(ms: seq<Metadata>, bs: seq<Block>, id: string)
    requires Distinct(Each(MetadataBlock, ms)) && id in FramedMembers(bs) && forall b :: b in bs ==> IsEntered(ms, b)
    ensures id in MembersByBlock(ms)
  {
    FramedKeys(bs, id);
    var b :| b in bs && b.id == id && b.members == FramedMembers(bs)[id];
    assert IsEntered(ms, b);
    var m :| m in ms && m.blockId == b.id && m.orderedIds == b.members;
    MembersOfBlock(ms, m);
  }

  ghost predicate FacetsSound(a: Audit) {
    forall i, j :: 0 <= i < j < |a.facets| ==> a.facets[i].id != a.facets[j].id
  }

  lemma FacetsExactly(a: Audit)
    ensures Distinct(Each(FacetId, a.facets)) <==> FacetsSound(a)
  {
    var ids := Each(FacetId, a.facets);
    if Distinct(ids) {
      forall i, j | 0 <= i < j < |a.facets| ensures a.facets[i].id != a.facets[j].id { assert ids[i] != ids[j]; }
    }
  }

  /** The bounds name the proposals in ascending order. */
  ghost predicate BoundsSound(a: Audit) {
    Arranged(a.bounds, seq(|a.proposals|, i requires 0 <= i < |a.proposals| => a.proposals[i].id))
  }

  lemma BoundsExactly(a: Audit)
    ensures a.bounds == Sort(Itself, ProposalIds(a)) <==> BoundsSound(a)
  {
    SortExactly(a.bounds, ProposalIds(a));
    assert ProposalIds(a) == seq(|a.proposals|, i requires 0 <= i < |a.proposals| => a.proposals[i].id);
  }

  /** The lanes: entries, proposals, framing, bounds, facets and the declared numbers. */
  ghost predicate LanesSound(a: Audit) {
    && EntriesSound(a) && ProposalsSound(a) && BoundsSound(a) && FramingSound(a) && FacetsSound(a) && Declares(a)
    && LedgerBytes(a) <= U64_MAX && AffinityTotal(a.proposals, |a.proposals|) <= U64_MAX
  }

  lemma LanesExactly(a: Audit)
    requires ValidLedger(a.ledger)
    ensures LanesHold(a) <==> LanesSound(a)
  {
    LocalExactly(a);
    AffinitiesAdd(a.proposals, |a.proposals|);
    assert a.proposals[..|a.proposals|] == a.proposals;
    if LocalChecks(a) && EntriesSound(a) { RestExactly(a); }
  }

  /** What the audit compares once the local checks hold. */
  lemma RestExactly(a: Audit)
    requires ValidLedger(a.ledger) && EntriesSound(a) && LocalChecks(a)
    ensures a.bounds == Sort(Itself, ProposalIds(a)) && FramedHolds(a) && Distinct(Each(FacetId, a.facets))
            && a.declared == Actual(a)
       <==> BoundsSound(a) && FramingSound(a) && FacetsSound(a) && Declares(a)
  {
    BoundsExactly(a);
    FacetsExactly(a);
    FramingExactly(a);
    ActualExactly(a);
  }

  // ---- Mandatory identifiers ------------------------------------------------------------------------------

  /** No entry gives the same UUID reason twice. */
  ghost predicate ReasonsSound(m: Metadata) {
    forall i, j :: 0 <= i < j < |m.reasons| && m.reasons[i].uuid && m.reasons[j].uuid ==>
      m.reasons[i].facet != m.reasons[j].facet
  }

  /** The facet is validated, and the packet is a proposal that bears on it. */
  ghost predicate MandatorySound(a: Audit, x: Mandatory) {
    (exists f :: f in a.facets && f.id == x.facet && f.validatedQuery)
    && exists p :: p in a.proposals && p.id == x.packetId && x.facet in p.affinities
  }

  ghost predicate IsReason(a: Audit, packetId: string, facet: string) {
    exists m :: m in a.metadata && m.packetId == packetId && HasUuidReason(m, facet)
  }

  /** The mandatory entries are the UUID reasons, at least one, each once. */
  ghost predicate IdentifiersSound(a: Audit) {
    && a.mandatory != [] && Distinct(a.mandatory)
    && (forall packetId, facet :: Mandatory(packetId, facet) in a.mandatory <==> IsReason(a, packetId, facet))
    && (forall m :: m in a.metadata ==> ReasonsSound(m))
    && forall x :: x in a.mandatory ==> MandatorySound(a, x)
  }

  lemma {:induction false} ReasonsDistinct(packetId: string, reasons: seq<Reason>)
    ensures Distinct(UuidPairsFrom(packetId, reasons))
       <==> forall i, j :: 0 <= i < j < |reasons| && reasons[i].uuid && reasons[j].uuid ==>
              reasons[i].facet != reasons[j].facet
  {
    if reasons != [] {
      var rest := reasons[1..];
      ReasonsDistinct(packetId, rest);
      var tail := UuidPairsFrom(packetId, rest);
      ReasonsHead(reasons);
      if reasons[0].uuid {
        var pair := (packetId, reasons[0].facet);
        UuidPairsFromReasons(packetId, rest, pair);
        DistinctByHead([pair] + tail);
        assert ([pair] + tail)[1..] == tail;
      } else {
        assert [] + tail == tail;
      }
    }
  }

  /** No UUID reason repeats the first one, and none after it repeats another. */
  lemma ReasonsHead(reasons: seq<Reason>)
    requires reasons != []
    ensures (forall i, j :: 0 <= i < j < |reasons| && reasons[i].uuid && reasons[j].uuid ==>
               reasons[i].facet != reasons[j].facet)
       <==> (reasons[0].uuid ==> !exists r :: r in reasons[1..] && r.uuid && r.facet == reasons[0].facet)
            && forall i, j :: 0 <= i < j < |reasons[1..]| && reasons[1..][i].uuid && reasons[1..][j].uuid ==>
                 reasons[1..][i].facet != reasons[1..][j].facet
  {
    var rest := reasons[1..];
    forall i | 0 < i < |reasons| ensures reasons[i] == rest[i - 1] {}
    if exists r :: r in rest && r.uuid && r.facet == reasons[0].facet {
      var r :| r in rest && r.uuid && r.facet == reasons[0].facet;
      var j :| 0 <= j < |rest| && rest[j] == r;
      assert reasons[j + 1] == r;
    }
    forall j | 0 < j < |reasons| ensures reasons[j] in rest { assert rest[j - 1] == reasons[j]; }
    forall i | 0 <= i < |rest| ensures rest[i] == reasons[i + 1] {}
  }

  lemma {:induction false} FindsFacet(fs: seq<Facet>, f: Facet)
    requires (forall i, j :: 0 <= i < j < |fs| ==> fs[i].id != fs[j].id) && f in fs
    ensures FindFacet(fs, f.id) == Some(f)
  {
    if fs[0] != f {
      assert f in fs[1..];
      var j :| 0 <= j < |fs[1..]| && fs[1..][j] == f;
      assert fs[j + 1] == f;
      FindsFacet(fs[1..], f);
    }
  }

  lemma {:induction false} FindsPacket(ps: seq<Packet>, p: Packet)
    requires (forall i, j :: 0 <= i < j < |ps| ==> ps[i].id != ps[j].id) && p in ps
    ensures FindPacket(ps, p.id) == Some(p)
  {
    if ps[0] != p {
      assert p in ps[1..];
      var j :| 0 <= j < |ps[1..]| && ps[1..][j] == p;
      assert ps[j + 1] == p;
      FindsPacket(ps[1..], p);
    }
  }

  lemma PairExactly(a: Audit, x: Mandatory)
    requires FacetsSound(a) && ProposalsSound(a)
    ensures PairHolds(a, (x.packetId, x.facet)) <==> MandatorySound(a, x)
  {
    if MandatorySound(a, x) {
      var f :| f in a.facets && f.id == x.facet && f.validatedQuery;
      FindsFacet(a.facets, f);
      var p :| p in a.proposals && p.id == x.packetId && x.facet in p.affinities;
      FindsPacket(a.proposals, p);
    }
  }

  lemma UuidPairsDistinct(a: Audit)
    requires EntriesSound(a)
    ensures Distinct(UuidPairs(a)) <==> forall m :: m in a.metadata ==> ReasonsSound(m)
  {
    var ms := a.metadata;
    FlatDistinct(UuidPairsOf, ms);
    forall m ensures Distinct(UuidPairsOf(m)) <==> ReasonsSound(m) { ReasonsDistinct(m.packetId, m.reasons); }
    forall k, l | 0 <= k < l < |ms| ensures Apart(UuidPairsOf(ms[k]), UuidPairsOf(ms[l])) {
      PairsApart(ms[k], ms[l]);
    }
    if forall k :: 0 <= k < |ms| ==> Distinct(UuidPairsOf(ms[k])) {
      forall m | m in ms ensures ReasonsSound(m) { var k :| 0 <= k < |ms| && ms[k] == m; }
    }
  }

  lemma PairsApart(m: Metadata, n: Metadata)
    requires m.packetId != n.packetId
    ensures Apart(UuidPairsOf(m), UuidPairsOf(n))
  {
    forall pair ensures !(pair in UuidPairsOf(m) && pair in UuidPairsOf(n)) {
      UuidPairsFromReasons(m.packetId, m.reasons, pair);
      UuidPairsFromReasons(n.packetId, n.reasons, pair);
    }
  }

  lemma MandatoryDistinct(a: Audit)
    ensures Distinct(MandatoryPairs(a)) <==> Distinct(a.mandatory)
  {
    var pairs := MandatoryPairs(a);
    if Distinct(pairs) {
      forall i, j | 0 <= i < j < |a.mandatory| ensures a.mandatory[i] != a.mandatory[j] {
        assert pairs[i] != pairs[j];
      }
    }
  }

  /** The two lists of pairs agree exactly when the mandatory entries are the UUID reasons. */
  lemma PairsAgree(a: Audit)
    ensures Elements(MandatoryPairs(a)) == Elements(UuidPairs(a))
       <==> forall packetId, facet :: Mandatory(packetId, facet) in a.mandatory <==> IsReason(a, packetId, facet)
  {
    forall pair: Pair
      ensures pair in MandatoryPairs(a) <==> Mandatory(pair.0, pair.1) in a.mandatory
      ensures pair in UuidPairs(a) <==> IsReason(a, pair.0, pair.1)
    {
      MandatoryPairIn(a, pair.0, pair.1);
      UuidPairIn(a, pair.0, pair.1);
    }
    if Elements(MandatoryPairs(a)) == Elements(UuidPairs(a)) {
      forall packetId, facet ensures Mandatory(packetId, facet) in a.mandatory <==> IsReason(a, packetId, facet) {
        var pair := (packetId, facet);
        assert pair in Elements(MandatoryPairs(a)) <==> pair in Elements(UuidPairs(a));
      }
    }
  }

  lemma EachPairHolds(a: Audit)
    requires FacetsSound(a) && ProposalsSound(a)
    ensures (forall pair :: pair in MandatoryPairs(a) ==> PairHolds(a, pair))
       <==> forall x :: x in a.mandatory ==> MandatorySound(a, x)
  {
    forall x: Mandatory ensures x in a.mandatory <==> (x.packetId, x.facet) in MandatoryPairs(a) {
      MandatoryPairIn(a, x.packetId, x.facet);
    }
    forall x: Mandatory ensures PairHolds(a, (x.packetId, x.facet)) <==> MandatorySound(a, x) { PairExactly(a, x); }
    if forall x :: x in a.mandatory ==> MandatorySound(a, x) {
      forall pair | pair in MandatoryPairs(a) ensures PairHolds(a, pair) {
        var x := Mandatory(pair.0, pair.1);
        assert x in a.mandatory && MandatorySound(a, x);
      }
    }
  }

  lemma IdentifiersExactly(a: Audit)
    requires EntriesSound(a) && FacetsSound(a) && ProposalsSound(a)
    ensures IdentifiersHold(a) <==> IdentifiersSound(a)
  {
    UuidPairsDistinct(a);
    MandatoryDistinct(a);
    PairsAgree(a);
    EachPairHolds(a);
    SameNumber(UuidPairs(a), MandatoryPairs(a));
    assert |MandatoryPairs(a)| == |a.mandatory|;
  }

  lemma SameNumber<T>(s: seq<T>, t: seq<T>)
    ensures Distinct(s) && Distinct(t) && Elements(t) == Elements(s) ==> |s| == |t|
  {
    DistinctIsCardinality(s);
    DistinctIsCardinality(t);
  }

  // ---- The rendered packets -------------------------------------------------------------------------------

  /** The packet is a proposal and shows its entry's events, each once, with the ledger's bytes, at a certified cost. */
  ghost predicate ShownSound(a: Audit, p: Rendered) {
    && IsProposed(a, p.packetId)
    && (exists m :: m in a.metadata && m.packetId == p.packetId && Arranged(p.canonicalIds, m.orderedIds))
    && multiset(seq(|p.events|, i requires 0 <= i < |p.events| => p.events[i].id)) == multiset(p.canonicalIds)
    && (forall e :: e in p.events ==> LedgerEvent(e.id, e.bytes) in a.ledger)
    && a.cost(p.packetId, p.canonicalIds) == Some(p.upperBound)
  }

  /** At least one packet is shown, none twice, and the selection names them in ascending order. */
  ghost predicate RenderedSound(a: Audit) {
    && a.rendered != [] && (forall p :: p in a.rendered ==> ShownSound(a, p))
    && (forall i, j :: 0 <= i < j < |a.rendered| ==> a.rendered[i].packetId != a.rendered[j].packetId)
    && Arranged(a.selected, seq(|a.rendered|, i requires 0 <= i < |a.rendered| => a.rendered[i].packetId))
  }

  lemma BytesAreLedger(ledger: seq<LedgerEvent>, id: string, bytes: string)
    requires ValidLedger(ledger)
    ensures ExactBytes(ledger, id) == Some(bytes) <==> LedgerEvent(id, bytes) in ledger
  {
    if ExactBytes(ledger, id) == Some(bytes) {
      var i :| 0 <= i < |ledger| && IdsOf(ledger)[i] == id;
      ExactBytesAt(ledger, i);
      assert ledger[i] == LedgerEvent(id, bytes);
    }
    if LedgerEvent(id, bytes) in ledger {
      var i :| 0 <= i < |ledger| && ledger[i] == LedgerEvent(id, bytes);
      ExactBytesAt(ledger, i);
    }
  }

  /** The entry a proposed packet is looked up at. */
  lemma LookedUp(a: Audit, id: string, ids: seq<string>)
    requires EntriesSound(a)
    ensures ProposalMetadata(a, id).Some? && ids == Sort(Itself, ProposalMetadata(a, id).value.orderedIds)
       <==> IsProposed(a, id) && exists m :: m in a.metadata && m.packetId == id && Arranged(ids, m.orderedIds)
  {
    EntriesApart(a.metadata);
    var found := ProposalMetadata(a, id);
    if found.Some? { SortExactly(ids, found.value.orderedIds); }
    if IsProposed(a, id) && exists m :: m in a.metadata && m.packetId == id && Arranged(ids, m.orderedIds) {
      var m :| m in a.metadata && m.packetId == id && Arranged(ids, m.orderedIds);
      SamePacketSameEntry(a.metadata, m, FindMetadata(a.metadata, id).value);
      SortExactly(ids, m.orderedIds);
    }
  }

  /** The entry's events are distinct, so is any arrangement of them. */
  lemma CanonicalDistinct(a: Audit, id: string, ids: seq<string>)
    requires EntriesSound(a) && exists m :: m in a.metadata && m.packetId == id && Arranged(ids, m.orderedIds)
    ensures Distinct(ids)
  {
    var m :| m in a.metadata && m.packetId == id && Arranged(ids, m.orderedIds);
    var k :| 0 <= k < |a.metadata| && a.metadata[k] == m;
    DistinctIgnoresOrder(ids, m.orderedIds);
  }

  lemma EventsExactly(p: Rendered)
    requires Distinct(p.canonicalIds) && SortedBy(Itself, p.canonicalIds)
    ensures |p.events| == |p.canonicalIds| && |Elements(Each(EventKey, p.events))| == |p.events|
            && Sort(Itself, Each(EventKey, p.events)) == p.canonicalIds
       <==> multiset(seq(|p.events|, i requires 0 <= i < |p.events| => p.events[i].id)) == multiset(p.canonicalIds)
  {
    var ids := Each(EventKey, p.events);
    assert ids == seq(|p.events|, i requires 0 <= i < |p.events| => p.events[i].id);
    SortExactly(p.canonicalIds, ids);
    if multiset(ids) == multiset(p.canonicalIds) {
      SameElements(ids, p.canonicalIds);
      DistinctIgnoresOrder(ids, p.canonicalIds);
      DistinctIsCardinality(ids);
    }
  }

  lemma ShownExactly(a: Audit, p: Rendered)
    requires ValidLedger(a.ledger) && EntriesSound(a)
    ensures RenderedPacketHolds(a, p) <==> ShownSound(a, p)
  {
    LookedUp(a, p.packetId, p.canonicalIds);
    forall e: RenderedEvent
      ensures ExactBytes(a.ledger, e.id) == Some(e.bytes) <==> LedgerEvent(e.id, e.bytes) in a.ledger
    {
      BytesAreLedger(a.ledger, e.id, e.bytes);
    }
    if exists m :: m in a.metadata && m.packetId == p.packetId && Arranged(p.canonicalIds, m.orderedIds) {
      CanonicalDistinct(a, p.packetId, p.canonicalIds);
      EventsExactly(p);
    }
  }

  lemma RenderedApart(a: Audit)
    ensures Distinct(Each(RenderedId, a.rendered))
       <==> forall i, j :: 0 <= i < j < |a.rendered| ==> a.rendered[i].packetId != a.rendered[j].packetId
  {
    var ids := Each(RenderedId, a.rendered);
    if Distinct(ids) {
      forall i, j | 0 <= i < j < |a.rendered| ensures a.rendered[i].packetId != a.rendered[j].packetId {
        assert ids[i] != ids[j];
      }
    }
  }

  /** That no event is shown twice needs no check of its own. */
  lemma ShownOnce(a: Audit)
    requires EntriesSound(a) && RenderedSound(a)
    ensures Distinct(Flat(Canonical, a.rendered))
  {
    var ps := a.rendered;
    forall i | 0 <= i < |ps| ensures Distinct(Canonical(ps[i])) {
      assert ShownSound(a, ps[i]);
      CanonicalDistinct(a, ps[i].packetId, ps[i].canonicalIds);
    }
    forall i, j | 0 <= i < j < |ps| ensures Apart(Canonical(ps[i]), Canonical(ps[j])) {
      assert ShownSound(a, ps[i]) && ShownSound(a, ps[j]);
      var k := ShownPlace(a, ps[i]);
      var l := ShownPlace(a, ps[j]);
      EntriesDiffer(a, k, l);
    }
    FlatDistinct(Canonical, ps);
  }

  lemma ShownPlace(a: Audit, p: Rendered) returns (k: nat)
    requires ShownSound(a, p)
    ensures k < |a.metadata| && a.metadata[k].packetId == p.packetId
    ensures forall e :: e in p.canonicalIds <==> e in a.metadata[k].orderedIds
  {
    var m :| m in a.metadata && m.packetId == p.packetId && Arranged(p.canonicalIds, m.orderedIds);
    k :| 0 <= k < |a.metadata| && a.metadata[k] == m;
    SameElements(p.canonicalIds, m.orderedIds);
  }

  lemma RenderedSoundExactly(a: Audit)
    requires ValidLedger(a.ledger) && EntriesSound(a)
    ensures RenderedHolds(a) <==> RenderedSound(a)
  {
    AllShownExactly(a);
    RenderedApart(a);
    SelectionExactly(a);
    if RenderedSound(a) { ShownOnce(a); }
  }

  lemma AllShownExactly(a: Audit)
    requires ValidLedger(a.ledger) && EntriesSound(a)
    ensures PacketsHold(a, a.rendered) <==> forall p :: p in a.rendered ==> ShownSound(a, p)
  {
    forall p ensures RenderedPacketHolds(a, p) <==> ShownSound(a, p) { ShownExactly(a, p); }
  }

  lemma SelectionExactly(a: Audit)
    ensures Sort(Itself, Each(RenderedId, a.rendered)) == a.selected
       <==> Arranged(a.selected, seq(|a.rendered|, i requires 0 <= i < |a.rendered| => a.rendered[i].packetId))
  {
    SortExactly(a.selected, Each(RenderedId, a.rendered));
    assert Each(RenderedId, a.rendered)
        == seq(|a.rendered|, i requires 0 <= i < |a.rendered| => a.rendered[i].packetId);
  }

  // ---- The failure block ----------------------------------------------------------------------------------

  /** The block was reconstructed and some payload of it contains the identifier. */
  ghost predicate Carries(b: Block) {
    b.reconstructed && b.expansion.Some?
    && exists e, k :: e in b.expansion.value && IdentifierAt(e.payload, k)
  }

  ghost predicate IdentifierAt(payload: string, k: int) {
    0 <= k <= |payload| - 36 && payload[k..k + 36] == "550e8400-e29b-41d4-a716-446655440000"
  }

  lemma CarriesExactly(b: Block)
    ensures Matches(b) <==> Carries(b)
  {
    assert |IDENTIFIER| == 36;
    if Matches(b) {
      var e :| e in b.expansion.value && Occurs(IDENTIFIER, e.payload);
      var k :| 0 <= k <= |e.payload| - |IDENTIFIER| && At(e.payload, IDENTIFIER, k);
      assert IdentifierAt(e.payload, k);
    }
    if Carries(b) {
      var e, k :| e in b.expansion.value && IdentifierAt(e.payload, k);
      assert At(e.payload, IDENTIFIER, k);
    }
  }

  lemma {:induction false} MatchingNone(bs: seq<Block>)
    ensures Matching(bs) == [] <==> forall j :: 0 <= j < |bs| ==> !Matches(bs[j])
  {
    if bs != [] {
      MatchingNone(bs[1..]);
      forall j | 0 < j < |bs| ensures bs[j] == bs[1..][j - 1] {}
      forall j | 0 <= j < |bs[1..]| ensures bs[1..][j] == bs[j + 1] {}
    }
  }

  ghost predicate OnlyAt(bs: seq<Block>, i: nat) {
    i < |bs| && forall j :: 0 <= j < |bs| ==> (Matches(bs[j]) <==> j == i)
  }

  lemma {:induction false} MatchingOne(bs: seq<Block>, i: nat)
    requires OnlyAt(bs, i)
    ensures Matching(bs) == [bs[i]]
  {
    var rest := bs[1..];
    forall j | 0 <= j < |rest| ensures rest[j] == bs[j + 1] {}
    if i == 0 {
      MatchingNone(rest);
    } else {
      assert !Matches(bs[0]);
      MatchingOne(rest, i - 1);
    }
  }

  lemma {:induction false} OneMatching(bs: seq<Block>) returns (i: nat)
    requires |Matching(bs)| == 1
    ensures OnlyAt(bs, i)
  {
    var rest := bs[1..];
    forall j | 0 < j < |bs| ensures bs[j] == rest[j - 1] {}
    if Matches(bs[0]) {
      assert |Matching(rest)| == 0;
      MatchingNone(rest);
      i := 0;
    } else {
      assert Matching(bs) == Matching(rest);
      var k := OneMatching(rest);
      i := k + 1;
    }
  }

  /** Four events in consecutive places of the lane, none beyond 64 bits. */
  ghost predicate FourInARow(es: seq<Expanded>) {
    |es| == 4 && es[1].lane == es[0].lane + 1 && es[2].lane == es[0].lane + 2 && es[3].lane == es[0].lane + 3
    && es[3].lane <= U64_MAX
  }

  lemma FourExactly(es: seq<Expanded>)
    ensures |es| == 4 && Consecutive(es) <==> FourInARow(es)
  {
    if |es| == 4 && Consecutive(es) {
      assert CheckedAdd(es[0].lane, 1) == Some(es[1].lane) && CheckedAdd(es[1].lane, 1) == Some(es[2].lane)
          && CheckedAdd(es[2].lane, 1) == Some(es[3].lane);
    }
  }

  /** The one block that carries the identifier is the entry's, is shown whole and is mandatory. */
  ghost predicate FailureEntry(a: Audit, b: Block, m: Metadata) {
    && b.expansion.Some? && FourInARow(b.expansion.value)
    && m.blockId == b.id && |m.orderedIds| == 4
    && (forall i :: 0 <= i < 4 ==> m.orderedIds[i] == b.expansion.value[i].id)
    && (exists p :: p in a.rendered && p.packetId == m.packetId)
    && exists r :: r in m.reasons && r.uuid
  }

  ghost predicate FailureSound(a: Audit) {
    && a.framed.Some?
    && exists i: nat, m :: i < |a.framed.value| && m in a.metadata && FailureEntry(a, a.framed.value[i], m)
         && forall j :: 0 <= j < |a.framed.value| ==> (Carries(a.framed.value[j]) <==> j == i)
  }

  lemma FoundExactly(bs: seq<Block>, i: nat)
    requires OnlyAt(bs, i)
    ensures FindFailureBlock(bs).Some? <==> bs[i].expansion.Some? && FourInARow(bs[i].expansion.value)
    ensures FindFailureBlock(bs).Some? ==>
      FindFailureBlock(bs).value == FailureBlock(bs[i].id, ExpandedIds(bs[i].expansion.value))
  {
    MatchingOne(bs, i);
    if bs[i].expansion.Some? { FourExactly(bs[i].expansion.value); }
  }

  lemma SameBlockSameEntry(a: Audit, m: Metadata, n: Metadata)
    requires EntriesSound(a) && m in a.metadata && n in a.metadata && m.blockId == n.blockId
    ensures m == n
  {
    var i :| 0 <= i < |a.metadata| && a.metadata[i] == m;
    var j :| 0 <= j < |a.metadata| && a.metadata[j] == n;
    assert i < j || j < i || i == j;
  }

  lemma {:induction false} FindsBlock(ms: seq<Metadata>, block: string)
    ensures FindBlock(ms, block).Some? <==> exists m :: m in ms && m.blockId == block
  {
    if ms != [] {
      FindsBlock(ms[1..], block);
      assert ms == [ms[0]] + ms[1..];
    }
  }

  /** The last three conditions on the entry of the failure block. */
  lemma EntryExactly(a: Audit, b: Block, m: Metadata)
    requires RenderedSound(a) && IdentifiersSound(a) && m in a.metadata
    requires b.expansion.Some? && FourInARow(b.expansion.value) && m.blockId == b.id
    ensures FailureEntry(a, b, m)
       <==> m.orderedIds == ExpandedIds(b.expansion.value) && m.packetId in a.selected
            && m.packetId in Each(RenderedId, a.rendered)
            && exists pair | pair in UuidPairsOf(m) :: pair in MandatoryPairs(a)
  {
    ShownIsSelected(a, m.packetId);
    MandatoryReason(a, m);
    assert m.orderedIds == ExpandedIds(b.expansion.value)
      <==> |m.orderedIds| == 4 && forall i :: 0 <= i < 4 ==> m.orderedIds[i] == b.expansion.value[i].id;
  }

  lemma ShownIsSelected(a: Audit, id: string)
    requires RenderedSound(a)
    ensures id in Each(RenderedId, a.rendered) <==> exists p :: p in a.rendered && p.packetId == id
    ensures id in Each(RenderedId, a.rendered) <==> id in a.selected
  {
    EachExactly(RenderedId, a.rendered, id);
    assert Each(RenderedId, a.rendered)
        == seq(|a.rendered|, i requires 0 <= i < |a.rendered| => a.rendered[i].packetId);
    SameElements(a.selected, Each(RenderedId, a.rendered));
    if p :| p in a.rendered && p.packetId == id { assert RenderedId(p) == id; }
    if p :| p in a.rendered && RenderedId(p) == id { assert p.packetId == id; }
  }

  lemma MandatoryReason(a: Audit, m: Metadata)
    requires IdentifiersSound(a) && m in a.metadata
    ensures (exists pair | pair in UuidPairsOf(m) :: pair in MandatoryPairs(a))
       <==> exists r :: r in m.reasons && r.uuid
  {
    forall facet
      ensures (m.packetId, facet) in UuidPairsOf(m) <==> HasUuidReason(m, facet)
      ensures HasUuidReason(m, facet) ==> (m.packetId, facet) in MandatoryPairs(a)
    {
      UuidPairsFromReasons(m.packetId, m.reasons, (m.packetId, facet));
      MandatoryPairIn(a, m.packetId, facet);
      if HasUuidReason(m, facet) { assert IsReason(a, m.packetId, facet); }
    }
    if pair :| pair in UuidPairsOf(m) { UuidPairsFromReasons(m.packetId, m.reasons, pair); }
    if r :| r in m.reasons && r.uuid { assert HasUuidReason(m, r.facet); }
  }

  lemma FailureIsSound(a: Audit)
    requires EntriesSound(a) && RenderedSound(a) && IdentifiersSound(a) && FailureBlockHolds(a)
    ensures FailureSound(a)
  {
    var bs := a.framed.value;
    var i := OneMatching(bs);
    FoundExactly(bs, i);
    var m := FindBlock(a.metadata, bs[i].id).value;
    EntryExactly(a, bs[i], m);
    forall j | 0 <= j < |bs| ensures Carries(bs[j]) <==> j == i { CarriesExactly(bs[j]); }
  }

  lemma SoundIsFailure(a: Audit)
    requires EntriesSound(a) && RenderedSound(a) && IdentifiersSound(a) && FailureSound(a)
    ensures FailureBlockHolds(a)
  {
    var bs := a.framed.value;
    var i: nat, m :| i < |bs| && m in a.metadata && FailureEntry(a, bs[i], m)
                     && forall j :: 0 <= j < |bs| ==> (Carries(bs[j]) <==> j == i);
    forall j | 0 <= j < |bs| ensures Matches(bs[j]) <==> j == i { CarriesExactly(bs[j]); }
    FoundExactly(bs, i);
    FindsBlock(a.metadata, bs[i].id);
    SameBlockSameEntry(a, m, FindBlock(a.metadata, bs[i].id).value);
    EntryExactly(a, bs[i], m);
  }

  // ---- The whole audit ------------------------------------------------------------------------------------

  /**
   * The audit validates if and only if, said of its inputs alone: the bindings agree; entries, proposals, framing,
   * bounds, facets and the declared numbers are sound; the mandatory entries are the UUID reasons; the packets shown
   * are proposals shown whole; and the one block with the identifier is among them.
   */
  lemma AuditExactly(a: Audit)
    requires ValidLedger(a.ledger)
    ensures AuditHolds(a)
       <==> && a.bindings && a.proposals != [] && LanesSound(a) && IdentifiersSound(a) && RenderedSound(a)
            && FailureSound(a)
  {
    LanesExactly(a);
    if LanesSound(a) {
      IdentifiersExactly(a);
      RenderedSoundExactly(a);
      if RenderedSound(a) { SelectionNotEmpty(a); }
      if RenderedSound(a) && IdentifiersSound(a) {
        if FailureBlockHolds(a) { FailureIsSound(a); }
        if FailureSound(a) { SoundIsFailure(a); }
      }
    }
  }

  lemma SelectionNotEmpty(a: Audit)
    requires RenderedSound(a)
    ensures a.selected != []
  {
    SameElements(a.selected, seq(|a.rendered|, i requires 0 <= i < |a.rendered| => a.rendered[i].packetId));
  }

  /** The receipt's number of selected events is the number of different events shown. */
  lemma SelectedEventsExactly(a: Audit)
    requires AuditHolds(a)
    ensures |Flat(Canonical, a.rendered)| == |set p, e | p in a.rendered && e in p.events :: e.id|
  {
    forall p | p in a.rendered ensures SameIds(p) { assert RenderedPacketHolds(a, p); }
    ShownIds(a.rendered);
    DistinctIsCardinality(Flat(Canonical, a.rendered));
  }

  ghost predicate SameIds(p: Rendered) {
    Sort(Itself, Each(EventKey, p.events)) == p.canonicalIds
  }

  lemma CanonicalId(p: Rendered, id: string)
    requires SameIds(p)
    ensures id in p.canonicalIds <==> exists e :: e in p.events && e.id == id
  {
    SameElements(p.canonicalIds, Each(EventKey, p.events));
    EachExactly(EventKey, p.events, id);
    if e :| e in p.events && e.id == id { assert EventKey(e) == id; }
  }

  lemma ShownIds(ps: seq<Rendered>)
    requires forall p :: p in ps ==> SameIds(p)
    ensures Elements(Flat(Canonical, ps)) == set p, e | p in ps && e in p.events :: e.id
  {
    FlatMembers(Canonical, ps);
    forall id ensures id in Flat(Canonical, ps) <==> exists p, e :: p in ps && e in p.events && e.id == id {
      if id in Flat(Canonical, ps) {
        var p :| p in ps && id in Canonical(p);
        CanonicalId(p, id);
      }
      if p, e :| p in ps && e in p.events && e.id == id {
        CanonicalId(p, id);
        assert id in Canonical(p);
      }
    }
  }
}
