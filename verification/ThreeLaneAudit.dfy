/** The three-lane proposal audit, whose local checks add up to a partition of the ledger
    (constrained_matched_case.rs). */
module ThreeLaneAudit {
  import opened Prelude
  import opened Ordering
  import opened Octets
  import opened Counting
  import opened FramedBlocks

  datatype LedgerEvent = LedgerEvent(id: string, bytes: string)

  /** A proposal; its affinities are the facets it bears on. */
  datatype Packet = Packet(id: string, eventIds: seq<string>, upperBound: nat, affinities: seq<string>)

  /** Why a packet is mandatory: an identifier of the question, canonical UUID or other, and its facet. */
  datatype Reason = Reason(uuid: bool, facet: string)

  datatype Metadata = Metadata(packetId: string, blockId: string, orderedIds: seq<string>, reasons: seq<Reason>)

  datatype Mandatory = Mandatory(packetId: string, facet: string)

  datatype Facet = Facet(id: string, validatedQuery: bool)

  datatype RenderedEvent = RenderedEvent(id: string, bytes: string)

  datatype Rendered = Rendered(packetId: string, canonicalIds: seq<string>, events: seq<RenderedEvent>, upperBound: nat)

  datatype Accounting = Accounting(
    blocks: nat, events: nat, bytes: nat,
    proposalPackets: nat, proposalEvents: nat, proposalBytes: nat,
    retainedBlocks: nat, retainedEvents: nat, retainedBytes: nat,
    affinities: nat, mandatory: nat, facets: nat)

  datatype AuditError = BindingMismatch | MembershipMismatch | AccountingMismatch | CertificationMismatch
    | IdentifierNotMandatory | ArtifactBindingMismatch | FailureBlockNotSelected

  /** Everything the audit looks at; `bindings` is the verdict of its comparisons of digests and identities. */
  datatype Audit = Audit(
    ledger: seq<LedgerEvent>, proposals: seq<Packet>, metadata: seq<Metadata>, mandatory: seq<Mandatory>,
    facets: seq<Facet>, rendered: seq<Rendered>, selected: seq<string>, bounds: seq<string>,
    cost: (string, seq<string>) -> Option<nat>, framed: Option<seq<Block>>, declared: Accounting, bindings: bool)

  // ---- The ledger -----------------------------------------------------------------------------------------

  function IdsOf(ledger: seq<LedgerEvent>): (ids: seq<string>)
    ensures |ids| == |ledger|
  {
    seq(|ledger|, i requires 0 <= i < |ledger| => ledger[i].id)
  }

  /** Event identifiers are unique in a ledger. */
  ghost predicate ValidLedger(ledger: seq<LedgerEvent>) {
    Distinct(IdsOf(ledger))
  }

  function ExactBytes(ledger: seq<LedgerEvent>, id: string): (bytes: Option<string>)
    ensures bytes.Some? <==> id in IdsOf(ledger)
  {
    if ledger == [] then None
    else
      assert IdsOf(ledger) == [ledger[0].id] + IdsOf(ledger[1..]);
      if ledger[0].id == id then Some(ledger[0].bytes) else ExactBytes(ledger[1..], id)
  }

  function SizeIn(ledger: seq<LedgerEvent>): string -> nat {
    (id: string) => var bytes := ExactBytes(ledger, id); if bytes.Some? then |bytes.value| else 0
  }

  function Size(e: LedgerEvent): nat {
    |e.bytes|
  }

  lemma {:induction false} ExactBytesAt(ledger: seq<LedgerEvent>, i: nat)
    requires ValidLedger(ledger) && i < |ledger|
    ensures ExactBytes(ledger, ledger[i].id) == Some(ledger[i].bytes)
    decreases |ledger|
  {
    var ids := IdsOf(ledger);
    if i > 0 {
      assert ids[0] != ids[i];
      assert IdsOf(ledger[1..]) == ids[1..];
      ExactBytesAt(ledger[1..], i - 1);
    }
  }

  lemma {:induction false} LedgerBytesFrom(ledger: seq<LedgerEvent>, i: nat)
    requires ValidLedger(ledger) && i <= |ledger|
    ensures SumBy(SizeIn(ledger), IdsOf(ledger)[i..]) == SumBy(Size, ledger[i..])
    decreases |ledger| - i
  {
    if i < |ledger| {
      LedgerBytesFrom(ledger, i + 1);
      ExactBytesAt(ledger, i);
      assert IdsOf(ledger)[i..][1..] == IdsOf(ledger)[i + 1..] && ledger[i..][1..] == ledger[i + 1..];
    }
  }

  // ---- Lists of event identifiers -------------------------------------------------------------------------

  function Flat<T, U>(f: T -> seq<U>, s: seq<T>): seq<U> {
    if s == [] then [] else f(s[0]) + Flat(f, s[1..])
  }

  lemma {:induction false} FlatAppend<T, U>(f: T -> seq<U>, s: seq<T>, t: seq<T>)
    ensures Flat(f, s + t) == Flat(f, s) + Flat(f, t)
  {
    if s == [] {
      assert s + t == t;
    } else {
      assert (s + t)[1..] == s[1..] + t;
      FlatAppend(f, s[1..], t);
    }
  }

  lemma {:induction false} FlatOne<T, U>(f: T -> seq<U>, x: T)
    ensures Flat(f, [x]) == f(x)
  {
    assert [x][1..] == [];
  }

  lemma {:induction false} FlatMembers<T, U>(f: T -> seq<U>, s: seq<T>)
    ensures forall e :: e in Flat(f, s) <==> exists x :: x in s && e in f(x)
  {
    if s != [] {
      FlatMembers(f, s[1..]);
      assert s == [s[0]] + s[1..];
    }
  }

  /** No event twice, every event in the ledger, and their bytes countable in 64 bits. */
  ghost predicate Countable(ledger: seq<LedgerEvent>, ids: seq<string>) {
    Distinct(ids) && (forall id :: id in ids ==> id in IdsOf(ledger)) && SumBy(SizeIn(ledger), ids) <= U64_MAX
  }

  /** `seen` and `bytes` are what the audit has gathered from `ids`. */
  ghost predicate Tally(ledger: seq<LedgerEvent>, ids: seq<string>, seen: set<string>, bytes: nat) {
    Countable(ledger, ids) && seen == Elements(ids) && bytes == SumBy(SizeIn(ledger), ids)
  }

  lemma CountablePrefix(ledger: seq<LedgerEvent>, ids: seq<string>, more: seq<string>)
    requires Countable(ledger, ids + more)
    ensures Countable(ledger, ids)
  {
    DistinctApart(ids, more);
    SumApart(SizeIn(ledger), ids, more);
    forall id | id in ids ensures id in IdsOf(ledger) { assert id in ids + more; }
  }

  lemma CountableNext(ledger: seq<LedgerEvent>, ids: seq<string>, seen: set<string>, bytes: nat, id: string)
    requires Tally(ledger, ids, seen, bytes)
    ensures Countable(ledger, ids + [id])
       <==> id !in seen && ExactBytes(ledger, id).Some? && bytes + SizeIn(ledger)(id) <= U64_MAX
    ensures Countable(ledger, ids + [id]) ==> Tally(ledger, ids + [id], seen + {id}, bytes + SizeIn(ledger)(id))
  {
    DistinctNext(ids, id);
    SumApart(SizeIn(ledger), ids, [id]);
    assert SumBy(SizeIn(ledger), [id]) == SizeIn(ledger)(id) by { assert [id][1..] == []; }
    assert id in ids + [id];
  }

  /** The inner loops of the audit: insert each identifier, look it up, add its size. */
  method AddEvents(ledger: seq<LedgerEvent>, ghost before: seq<string>, seen: set<string>, bytes: nat, ids: seq<string>)
    returns (r: Option<(set<string>, nat)>)
    requires Tally(ledger, before, seen, bytes)
    ensures r.Some? <==> Countable(ledger, before + ids)
    ensures r.Some? ==> Tally(ledger, before + ids, r.value.0, r.value.1)
  {
    var seen', bytes' := seen, bytes;
    assert before + ids[..0] == before;
    for i := 0 to |ids|
      invariant Tally(ledger, before + ids[..i], seen', bytes')
    {
      ghost var done := before + ids[..i];
      CountableNext(ledger, done, seen', bytes', ids[i]);
      assert before + ids[..i + 1] == done + [ids[i]];
      assert before + ids == (done + [ids[i]]) + ids[i + 1..];
      if Countable(ledger, before + ids) { CountablePrefix(ledger, done + [ids[i]], ids[i + 1..]); }
      if ids[i] in seen' { return None; }
      var exact := ExactBytes(ledger, ids[i]);
      if exact.None? { return None; }
      var sum := CheckedAdd(bytes', |exact.value|);
      if sum.None? { return None; }
      seen', bytes' := seen' + {ids[i]}, sum.value;
    }
    assert before + ids[..|ids|] == before + ids;
    return Some((seen', bytes'));
  }

  // ---- Proposals ------------------------------------------------------------------------------------------

  function PacketEvents(p: Packet): seq<string> {
    p.eventIds
  }

  function MetadataEvents(m: Metadata): seq<string> {
    m.orderedIds
  }

  function Affinities(p: Packet): nat {
    |p.affinities|
  }

  function FindMetadata(ms: seq<Metadata>, id: string): (m: Option<Metadata>)
    ensures m.Some? ==> m.value in ms && m.value.packetId == id
    ensures m.None? ==> forall x :: x in ms ==> x.packetId != id
  {
    if ms == [] then None else if ms[0].packetId == id then Some(ms[0]) else FindMetadata(ms[1..], id)
  }

  /** `proposal_metadata`: only proposals have any. */
  function ProposalMetadata(a: Audit, id: string): (m: Option<Metadata>) {
    if exists p | p in a.proposals :: p.id == id then FindMetadata(a.metadata, id) else None
  }

  function PacketId(p: Packet): string {
    p.id
  }

  function ProposalIds(a: Audit): (ids: seq<string>) {
    Each(PacketId, a.proposals)
  }

  predicate PacketHolds(a: Audit, p: Packet) {
    var m := ProposalMetadata(a, p.id);
    m.Some? && Sort(Itself, m.value.orderedIds) == p.eventIds && a.cost(p.id, p.eventIds) == Some(p.upperBound)
  }

  function ProposalEvents(a: Audit): seq<string> {
    Flat(PacketEvents, a.proposals)
  }

  ghost predicate ProposalsHold(a: Audit) {
    (forall p :: p in a.proposals ==> PacketHolds(a, p)) && Countable(a.ledger, ProposalEvents(a))
    && SumBy(Affinities, a.proposals) <= U64_MAX
  }

  /** What the loop over the proposals knows after `i` of them. */
  ghost predicate ProposalProgress(a: Audit, i: nat, ids: seq<string>, seen: set<string>, bytes: nat, affinities: nat) {
    && i <= |a.proposals| && ids == ProposalIds(a)[..i]
    && (forall k :: 0 <= k < i ==> PacketHolds(a, a.proposals[k]))
    && Tally(a.ledger, Flat(PacketEvents, a.proposals[..i]), seen, bytes)
    && affinities == SumBy(Affinities, a.proposals[..i]) <= U64_MAX
  }

  method AuditProposals(a: Audit) returns (r: Option<(seq<string>, set<string>, nat, nat)>)
    ensures r.Some? <==> ProposalsHold(a)
    ensures r.Some? ==> r.value.0 == ProposalIds(a) && Tally(a.ledger, ProposalEvents(a), r.value.1, r.value.2)
                        && r.value.3 == SumBy(Affinities, a.proposals)
  {
    var ids: seq<string>, seen: set<string>, bytes: nat, affinities: nat := [], {}, 0, 0;
    for i := 0 to |a.proposals|
      invariant ProposalProgress(a, i, ids, seen, bytes, affinities)
    {
      var p := a.proposals[i];
      ProposalStep(a, i);
      if !PacketHolds(a, p) { return None; }
      var sum := CheckedAdd(affinities, |p.affinities|);
      if sum.None? { return None; }
      var tally := AddEvents(a.ledger, Flat(PacketEvents, a.proposals[..i]), seen, bytes, p.eventIds);
      if tally.None? { return None; }
      ProposalNext(a, i, ids, seen, bytes, affinities, tally.value.0, tally.value.1);
      ids, affinities := ids + [p.id], sum.value;
      seen, bytes := tally.value.0, tally.value.1;
    }
    AllProposals(a, ids, seen, bytes, affinities);
    return Some((ids, seen, bytes, affinities));
  }

  lemma ProposalNext(a: Audit, i: nat, ids: seq<string>, seen: set<string>, bytes: nat, affinities: nat,
                     seen': set<string>, bytes': nat)
    requires ProposalProgress(a, i, ids, seen, bytes, affinities) && i < |a.proposals| && PacketHolds(a, a.proposals[i])
    requires affinities + |a.proposals[i].affinities| <= U64_MAX
    requires Tally(a.ledger, Flat(PacketEvents, a.proposals[..i]) + a.proposals[i].eventIds, seen', bytes')
    ensures ProposalProgress(a, i + 1, ids + [a.proposals[i].id], seen', bytes',
            affinities + |a.proposals[i].affinities|)
  {
    ProposalStep(a, i);
    IdsNext(a, i);
  }

  lemma IdsNext(a: Audit, i: nat)
    requires i < |a.proposals|
    ensures ProposalIds(a)[..i + 1] == ProposalIds(a)[..i] + [a.proposals[i].id]
  {
  }

  lemma AllProposals(a: Audit, ids: seq<string>, seen: set<string>, bytes: nat, affinities: nat)
    requires ProposalProgress(a, |a.proposals|, ids, seen, bytes, affinities)
    ensures ProposalsHold(a) && ids == ProposalIds(a) && Tally(a.ledger, ProposalEvents(a), seen, bytes)
    ensures affinities == SumBy(Affinities, a.proposals)
  {
    assert a.proposals[..|a.proposals|] == a.proposals && ProposalIds(a)[..|a.proposals|] == ProposalIds(a);
  }

  /** Splitting the proposals at `i`, and what failing at `i` says of all of them. */
  lemma ProposalStep(a: Audit, i: nat)
    requires i < |a.proposals|
    ensures var p, done := a.proposals[i], a.proposals[..i];
            && Flat(PacketEvents, a.proposals[..i + 1]) == Flat(PacketEvents, done) + p.eventIds
            && SumBy(Affinities, a.proposals[..i + 1]) == SumBy(Affinities, done) + |p.affinities|
            && (ProposalsHold(a) ==> PacketHolds(a, p) && Countable(a.ledger, Flat(PacketEvents, done) + p.eventIds)
                                     && SumBy(Affinities, done) + |p.affinities| <= U64_MAX)
  {
    var p, done, rest := a.proposals[i], a.proposals[..i], a.proposals[i + 1..];
    assert a.proposals[..i + 1] == done + [p] && a.proposals == a.proposals[..i + 1] + rest;
    FlatAppend(PacketEvents, done, [p]);
    FlatOne(PacketEvents, p);
    SumApart(Affinities, done, [p]);
    assert SumBy(Affinities, [p]) == |p.affinities| by { assert [p][1..] == []; }
    if ProposalsHold(a) {
      assert p in a.proposals;
      FlatAppend(PacketEvents, a.proposals[..i + 1], rest);
      CountablePrefix(a.ledger, Flat(PacketEvents, a.proposals[..i + 1]), Flat(PacketEvents, rest));
      SumApart(Affinities, a.proposals[..i + 1], rest);
    }
  }

  // ---- Metadata -------------------------------------------------------------------------------------------

  function MetadataPacket(m: Metadata): string {
    m.packetId
  }

  function MetadataBlock(m: Metadata): string {
    m.blockId
  }

  function BlockKey(b: Block): string {
    b.id
  }

  /** The entries of packets that are proposed, or of those that are not. */
  function Lane(ms: seq<Metadata>, ids: set<string>, proposed: bool): seq<Metadata> {
    if ms == [] then []
    else (if (ms[0].packetId in ids) == proposed then [ms[0]] else []) + Lane(ms[1..], ids, proposed)
  }

  /** The map that inserting entry after entry leaves. */
  function MembersByBlock(ms: seq<Metadata>): map<string, seq<string>> {
    if ms == [] then map[]
    else MembersByBlock(ms[..|ms| - 1])[ms[|ms| - 1].blockId := ms[|ms| - 1].orderedIds]
  }

  function FramedMembers(bs: seq<Block>): map<string, seq<string>> {
    if bs == [] then map[] else FramedMembers(bs[..|bs| - 1])[bs[|bs| - 1].id := bs[|bs| - 1].members]
  }

  ghost predicate MetadataHolds(ledger: seq<LedgerEvent>, ms: seq<Metadata>) {
    && (forall m :: m in ms ==> m.orderedIds != [])
    && Distinct(Each(MetadataPacket, ms)) && Distinct(Each(MetadataBlock, ms))
    && Countable(ledger, Flat(MetadataEvents, ms))
  }

  datatype Gathered = Gathered(blocks: map<string, seq<string>>, packets: set<string>, all: set<string>, allBytes: nat,
                               retained: set<string>, retainedBytes: nat, retainedBlocks: nat)

  /** What the loop over the metadata knows of the entries it has seen. */
  ghost predicate Gathers(ledger: seq<LedgerEvent>, ms: seq<Metadata>, ids: set<string>, g: Gathered) {
    && MetadataHolds(ledger, ms)
    && g.blocks == MembersByBlock(ms) && g.packets == Elements(Each(MetadataPacket, ms))
    && (forall block :: block in g.blocks <==> block in Each(MetadataBlock, ms))
    && Tally(ledger, Flat(MetadataEvents, ms), g.all, g.allBytes)
    && Tally(ledger, Flat(MetadataEvents, Lane(ms, ids, false)), g.retained, g.retainedBytes)
    && g.retainedBlocks == |Lane(ms, ids, false)|
  }

  lemma {:induction false} LaneAppend(ms: seq<Metadata>, m: Metadata, ids: set<string>, proposed: bool)
    ensures var more := if (m.packetId in ids) == proposed then [m] else [];
            Lane(ms + [m], ids, proposed) == Lane(ms, ids, proposed) + more
  {
    if ms == [] {
      assert ms + [m] == [m] && [m][1..] == [];
    } else {
      assert (ms + [m])[1..] == ms[1..] + [m];
      LaneAppend(ms[1..], m, ids, proposed);
    }
  }

  lemma {:induction false} LaneMembers(ms: seq<Metadata>, ids: set<string>, proposed: bool)
    ensures forall m :: m in Lane(ms, ids, proposed) <==> m in ms && (m.packetId in ids) == proposed
  {
    if ms != [] {
      LaneMembers(ms[1..], ids, proposed);
      assert ms == [ms[0]] + ms[1..];
    }
  }

  /** The two lanes share out the entries, and so the events. */
  lemma {:induction false} LanesShareOut(ms: seq<Metadata>, ids: set<string>)
    ensures |ms| == |Lane(ms, ids, true)| + |Lane(ms, ids, false)|
    ensures multiset(Flat(MetadataEvents, ms))
         == multiset(Flat(MetadataEvents, Lane(ms, ids, true))) + multiset(Flat(MetadataEvents, Lane(ms, ids, false)))
  {
    if ms != [] {
      LanesShareOut(ms[1..], ids);
      LaneHead(ms, ids, true);
      LaneHead(ms, ids, false);
    }
  }

  lemma LaneHead(ms: seq<Metadata>, ids: set<string>, proposed: bool)
    requires ms != []
    ensures var rest := Lane(ms[1..], ids, proposed);
            Flat(MetadataEvents, Lane(ms, ids, proposed))
            == (if (ms[0].packetId in ids) == proposed then ms[0].orderedIds else []) + Flat(MetadataEvents, rest)
  {
    var rest := Lane(ms[1..], ids, proposed);
    if (ms[0].packetId in ids) == proposed {
      assert ([ms[0]] + rest)[1..] == rest;
    } else {
      assert [] + rest == rest;
    }
  }

  lemma LanesAreParts(ledger: seq<LedgerEvent>, ms: seq<Metadata>, ids: set<string>)
    requires Countable(ledger, Flat(MetadataEvents, ms))
    ensures var yes, no := Flat(MetadataEvents, Lane(ms, ids, true)), Flat(MetadataEvents, Lane(ms, ids, false));
            && Countable(ledger, yes) && Countable(ledger, no)
            && (forall e :: e in Flat(MetadataEvents, ms) <==> e in yes || e in no)
            && (forall e :: !(e in yes && e in no))
            && SumBy(SizeIn(ledger), Flat(MetadataEvents, ms)) == SumBy(SizeIn(ledger), yes) + SumBy(SizeIn(ledger), no)
            && |Flat(MetadataEvents, ms)| == |yes| + |no|
  {
    LanesShareOut(ms, ids);
    PartsOfDistinct(Flat(MetadataEvents, ms), Flat(MetadataEvents, Lane(ms, ids, true)),
                    Flat(MetadataEvents, Lane(ms, ids, false)), SizeIn(ledger));
  }

  lemma PartsOfDistinct<T>(all: seq<T>, yes: seq<T>, no: seq<T>, f: T -> nat)
    requires multiset(all) == multiset(yes) + multiset(no) && Distinct(all)
    ensures Distinct(yes) && Distinct(no) && |all| == |yes| + |no|
    ensures forall e :: e in all <==> e in yes || e in no
    ensures forall e :: !(e in yes && e in no)
    ensures SumBy(f, all) == SumBy(f, yes) + SumBy(f, no)
  {
    assert multiset(all) == multiset(yes + no);
    PartsApart(all, yes, no);
    SameElements(all, yes + no);
    SumIgnoresOrder(f, all, yes + no);
    SumApart(f, yes, no);
  }

  lemma PartsApart<T>(all: seq<T>, yes: seq<T>, no: seq<T>)
    requires multiset(all) == multiset(yes) + multiset(no) && Distinct(all)
    ensures Distinct(yes) && Distinct(no)
    ensures forall e :: !(e in yes && e in no)
  {
    DistinctIsCounting(all);
    DistinctIsCounting(yes);
    DistinctIsCounting(no);
    forall e ensures multiset(yes)[e] + multiset(no)[e] <= 1 {
      assert multiset(all)[e] == multiset(yes)[e] + multiset(no)[e];
    }
    forall e ensures !(e in yes && e in no) {
      assert e in yes <==> e in multiset(yes);
      assert e in no <==> e in multiset(no);
    }
  }

  lemma MetadataPrefix(ledger: seq<LedgerEvent>, ms: seq<Metadata>, more: seq<Metadata>)
    requires MetadataHolds(ledger, ms + more)
    ensures MetadataHolds(ledger, ms)
  {
    FlatAppend(MetadataEvents, ms, more);
    CountablePrefix(ledger, Flat(MetadataEvents, ms), Flat(MetadataEvents, more));
    EachApart(MetadataPacket, ms, more);
    EachApart(MetadataBlock, ms, more);
    DistinctApart(Each(MetadataPacket, ms), Each(MetadataPacket, more));
    DistinctApart(Each(MetadataBlock, ms), Each(MetadataBlock, more));
    forall m | m in ms ensures m.orderedIds != [] { assert m in ms + more; }
  }

  /** One more entry: when the whole still holds. */
  lemma MetadataNext(ledger: seq<LedgerEvent>, ms: seq<Metadata>, m: Metadata, ids: set<string>, g: Gathered)
    requires Gathers(ledger, ms, ids, g)
    ensures MetadataHolds(ledger, ms + [m])
       <==> m.orderedIds != [] && m.packetId !in g.packets && m.blockId !in g.blocks
            && Countable(ledger, Flat(MetadataEvents, ms) + m.orderedIds)
  {
    FlatAppend(MetadataEvents, ms, [m]);
    FlatOne(MetadataEvents, m);
    EachAppend(MetadataPacket, ms, m);
    EachAppend(MetadataBlock, ms, m);
    DistinctNext(Each(MetadataPacket, ms), m.packetId);
    DistinctNext(Each(MetadataBlock, ms), m.blockId);
    assert m in ms + [m];
  }

  /** One more entry: what has been gathered then. */
  lemma GatherNext(ledger: seq<LedgerEvent>, ms: seq<Metadata>, m: Metadata, ids: set<string>, g: Gathered, h: Gathered)
    requires Gathers(ledger, ms, ids, g) && MetadataHolds(ledger, ms + [m])
    requires h.blocks == g.blocks[m.blockId := m.orderedIds] && h.packets == g.packets + {m.packetId}
    requires Tally(ledger, Flat(MetadataEvents, ms) + m.orderedIds, h.all, h.allBytes)
    requires var more := if m.packetId in ids then [] else m.orderedIds;
             Tally(ledger, Flat(MetadataEvents, Lane(ms, ids, false)) + more, h.retained, h.retainedBytes)
    requires h.retainedBlocks == g.retainedBlocks + if m.packetId in ids then 0 else 1
    ensures Gathers(ledger, ms + [m], ids, h)
  {
    FlatAppend(MetadataEvents, ms, [m]);
    FlatOne(MetadataEvents, m);
    BlocksNext(ms, m, g.blocks);
    EachAppend(MetadataPacket, ms, m);
    LaneAppend(ms, m, ids, false);
    var lane := Lane(ms, ids, false);
    if m.packetId in ids {
      assert lane + [] == lane && Flat(MetadataEvents, lane) + [] == Flat(MetadataEvents, lane);
    } else {
      FlatAppend(MetadataEvents, lane, [m]);
    }
  }

  lemma BlocksNext(ms: seq<Metadata>, m: Metadata, blocks: map<string, seq<string>>)
    requires blocks == MembersByBlock(ms) && forall block :: block in blocks <==> block in Each(MetadataBlock, ms)
    ensures var after := blocks[m.blockId := m.orderedIds];
            && after == MembersByBlock(ms + [m])
            && forall block :: block in after <==> block in Each(MetadataBlock, ms + [m])
  {
    assert (ms + [m])[..|ms|] == ms;
    EachAppend(MetadataBlock, ms, m);
  }

  lemma RetainedCountable(ledger: seq<LedgerEvent>, ms: seq<Metadata>, m: Metadata, ids: set<string>)
    requires MetadataHolds(ledger, ms + [m]) && m.packetId !in ids
    ensures Countable(ledger, Flat(MetadataEvents, Lane(ms, ids, false)) + m.orderedIds)
  {
    LanesAreParts(ledger, ms + [m], ids);
    LaneAppend(ms, m, ids, false);
    FlatAppend(MetadataEvents, Lane(ms, ids, false), [m]);
    FlatOne(MetadataEvents, m);
  }

  method AuditMetadata(a: Audit, ids: set<string>) returns (r: Option<Gathered>)
    ensures r.Some? <==> MetadataHolds(a.ledger, a.metadata)
    ensures r.Some? ==> Gathers(a.ledger, a.metadata, ids, r.value)
  {
    var g := Gathered(map[], {}, {}, 0, {}, 0, 0);
    for i := 0 to |a.metadata|
      invariant Gathers(a.ledger, a.metadata[..i], ids, g)
    {
      var m := a.metadata[i];
      ghost var done := a.metadata[..i];
      MetadataStep(a.ledger, a.metadata, i);
      var next := AuditEntry(a.ledger, done, m, ids, g);
      if next.None? { return None; }
      g := next.value;
    }
    assert a.metadata[..|a.metadata|] == a.metadata;
    return Some(g);
  }

  lemma MetadataStep(ledger: seq<LedgerEvent>, ms: seq<Metadata>, i: nat)
    requires i < |ms|
    ensures ms[..i + 1] == ms[..i] + [ms[i]]
    ensures MetadataHolds(ledger, ms) ==> MetadataHolds(ledger, ms[..i] + [ms[i]])
  {
    assert ms == (ms[..i] + [ms[i]]) + ms[i + 1..];
    if MetadataHolds(ledger, ms) { MetadataPrefix(ledger, ms[..i] + [ms[i]], ms[i + 1..]); }
  }

  /** The body of the loop over the metadata. */
  method AuditEntry(ledger: seq<LedgerEvent>, ghost done: seq<Metadata>, m: Metadata, ids: set<string>, g: Gathered)
    returns (r: Option<Gathered>)
    requires Gathers(ledger, done, ids, g)
    ensures r.Some? <==> MetadataHolds(ledger, done + [m])
    ensures r.Some? ==> Gathers(ledger, done + [m], ids, r.value)
  {
    MetadataNext(ledger, done, m, ids, g);
    if m.orderedIds == [] || m.packetId in g.packets || m.blockId in g.blocks { return None; }
    var blocks, packets := g.blocks[m.blockId := m.orderedIds], g.packets + {m.packetId};
    var all := AddEvents(ledger, Flat(MetadataEvents, done), g.all, g.allBytes, m.orderedIds);
    if all.None? { return None; }
    var kept, keptBytes, keptBlocks := g.retained, g.retainedBytes, g.retainedBlocks;
    ghost var lane := Flat(MetadataEvents, Lane(done, ids, false));
    assert lane + [] == lane;
    if m.packetId !in ids {
      RetainedCountable(ledger, done, m, ids);
      var retained := AddEvents(ledger, lane, g.retained, g.retainedBytes, m.orderedIds);
      if retained.None? { return None; }
      kept, keptBytes, keptBlocks := retained.value.0, retained.value.1, keptBlocks + 1;
    }
    var h := Gathered(blocks, packets, all.value.0, all.value.1, kept, keptBytes, keptBlocks);
    GatherNext(ledger, done, m, ids, g, h);
    return Some(h);
  }

  /** Framing the ledger afresh: each block once. */
  method FrameMembers(bs: seq<Block>) returns (r: Option<map<string, seq<string>>>)
    ensures r.Some? <==> Distinct(Each(BlockKey, bs))
    ensures r.Some? ==> r.value == FramedMembers(bs)
  {
    var members: map<string, seq<string>> := map[];
    for i := 0 to |bs|
      invariant members == FramedMembers(bs[..i]) && Distinct(Each(BlockKey, bs[..i]))
      invariant forall block :: block in members <==> block in Each(BlockKey, bs[..i])
    {
      assert bs[..i + 1] == bs[..i] + [bs[i]] && bs[..i + 1][..i] == bs[..i];
      EachAppend(BlockKey, bs[..i], bs[i]);
      DistinctNext(Each(BlockKey, bs[..i]), bs[i].id);
      if bs[i].id in members {
        EachApart(BlockKey, bs[..i + 1], bs[i + 1..]);
        assert bs == bs[..i + 1] + bs[i + 1..];
        if Distinct(Each(BlockKey, bs)) { DistinctApart(Each(BlockKey, bs[..i + 1]), Each(BlockKey, bs[i + 1..])); }
        return None;
      }
      members := members[bs[i].id := bs[i].members];
    }
    assert bs[..|bs|] == bs;
    return Some(members);
  }

  // ---- The rendered packets -------------------------------------------------------------------------------

  function RenderedId(p: Rendered): string {
    p.packetId
  }

  function Canonical(p: Rendered): seq<string> {
    p.canonicalIds
  }

  function EventKey(e: RenderedEvent): string {
    e.id
  }

  predicate RenderedPacketHolds(a: Audit, p: Rendered) {
    var m, ids := ProposalMetadata(a, p.packetId), Each(EventKey, p.events);
    && m.Some? && p.canonicalIds == Sort(Itself, m.value.orderedIds)
    && |p.events| == |p.canonicalIds| && |Elements(ids)| == |p.events| && Sort(Itself, ids) == p.canonicalIds
    && (forall e | e in p.events :: ExactBytes(a.ledger, e.id) == Some(e.bytes))
    && a.cost(p.packetId, p.canonicalIds) == Some(p.upperBound)
  }

  predicate AdjacentEqual(s: seq<string>) {
    exists i :: 0 <= i < |s| - 1 && s[i] == s[i + 1]
  }

  lemma AdjacentIsRepetition(s: seq<string>)
    ensures AdjacentEqual(Sort(Itself, s)) <==> !Distinct(s)
  {
    AdjacentSuffices(Itself, Sort(Itself, s));
    DistinctIgnoresOrder(s, Sort(Itself, s));
  }

  ghost predicate PacketsHold(a: Audit, ps: seq<Rendered>) {
    forall p :: p in ps ==> RenderedPacketHolds(a, p)
  }

  lemma PacketsHoldNext(a: Audit, ps: seq<Rendered>, p: Rendered)
    requires PacketsHold(a, ps) && RenderedPacketHolds(a, p)
    ensures PacketsHold(a, ps + [p])
  {
    forall q | q in ps + [p] ensures RenderedPacketHolds(a, q) { assert q in ps || q == p; }
  }

  ghost predicate RenderedHolds(a: Audit) {
    && PacketsHold(a, a.rendered) && Distinct(Flat(Canonical, a.rendered))
    && a.rendered != [] && Sort(Itself, Each(RenderedId, a.rendered)) == a.selected
    && Distinct(Each(RenderedId, a.rendered))
  }

  /** Inserts identifiers until one is there already. */
  method InsertAll<T(==)>(ghost before: seq<T>, seen: set<T>, ids: seq<T>) returns (r: Option<set<T>>)
    requires Distinct(before) && seen == Elements(before)
    ensures r.Some? <==> Distinct(before + ids)
    ensures r.Some? ==> r.value == Elements(before + ids)
  {
    var seen' := seen;
    assert before + ids[..0] == before;
    for i := 0 to |ids|
      invariant Distinct(before + ids[..i]) && seen' == Elements(before + ids[..i])
    {
      ghost var done := before + ids[..i];
      DistinctNext(done, ids[i]);
      assert before + ids[..i + 1] == done + [ids[i]];
      assert before + ids == (done + [ids[i]]) + ids[i + 1..];
      if Distinct(before + ids) { DistinctApart(done + [ids[i]], ids[i + 1..]); }
      if ids[i] in seen' { return None; }
      seen' := seen' + {ids[i]};
    }
    assert before + ids[..|ids|] == before + ids;
    return Some(seen');
  }

  /** What the loop over the rendered packets knows after `i` of them. */
  ghost predicate RenderedProgress(a: Audit, i: nat, ids: seq<string>, seen: set<string>) {
    && i <= |a.rendered| && ids == Each(RenderedId, a.rendered[..i])
    && PacketsHold(a, a.rendered[..i])
    && Distinct(Flat(Canonical, a.rendered[..i])) && seen == Elements(Flat(Canonical, a.rendered[..i]))
  }

  method AuditRendered(a: Audit) returns (r: Option<set<string>>)
    ensures r.Some? <==> RenderedHolds(a)
    ensures r.Some? ==> r.value == Elements(Flat(Canonical, a.rendered))
  {
    var ids: seq<string>, seen: set<string> := [], {};
    for i := 0 to |a.rendered|
      invariant RenderedProgress(a, i, ids, seen)
    {
      var p := a.rendered[i];
      if RenderedHolds(a) { RenderedStep(a, i); }
      if !RenderedPacketHolds(a, p) { return None; }
      var inserted := InsertAll(Flat(Canonical, a.rendered[..i]), seen, p.canonicalIds);
      if inserted.None? { return None; }
      RenderedNext(a, i, ids, seen, inserted.value);
      ids, seen := ids + [p.packetId], inserted.value;
    }
    assert a.rendered[..|a.rendered|] == a.rendered;
    var sorted := Sort(Itself, ids);
    AdjacentIsRepetition(ids);
    if sorted == [] || sorted != a.selected || AdjacentEqual(sorted) { return None; }
    return Some(seen);
  }

  lemma RenderedNext(a: Audit, i: nat, ids: seq<string>, seen: set<string>, seen': set<string>)
    requires i < |a.rendered| && RenderedProgress(a, i, ids, seen) && RenderedPacketHolds(a, a.rendered[i])
    requires var events := Flat(Canonical, a.rendered[..i]) + a.rendered[i].canonicalIds;
             Distinct(events) && seen' == Elements(events)
    ensures RenderedProgress(a, i + 1, ids + [a.rendered[i].packetId], seen')
  {
    RenderedSplit(a, i);
    PacketsHoldNext(a, a.rendered[..i], a.rendered[i]);
  }

  lemma RenderedSplit(a: Audit, i: nat)
    requires i < |a.rendered|
    ensures a.rendered[..i + 1] == a.rendered[..i] + [a.rendered[i]]
    ensures Each(RenderedId, a.rendered[..i + 1]) == Each(RenderedId, a.rendered[..i]) + [a.rendered[i].packetId]
    ensures Flat(Canonical, a.rendered[..i + 1]) == Flat(Canonical, a.rendered[..i]) + a.rendered[i].canonicalIds
  {
    var p, done := a.rendered[i], a.rendered[..i];
    assert a.rendered[..i + 1] == done + [p];
    EachAppend(RenderedId, done, p);
    FlatAppend(Canonical, done, [p]);
    FlatOne(Canonical, p);
  }

  lemma RenderedStep(a: Audit, i: nat)
    requires i < |a.rendered| && RenderedHolds(a)
    ensures RenderedPacketHolds(a, a.rendered[i])
    ensures Distinct(Flat(Canonical, a.rendered[..i]) + a.rendered[i].canonicalIds)
  {
    RenderedSplit(a, i);
    var rest := a.rendered[i + 1..];
    assert a.rendered == a.rendered[..i + 1] + rest;
    FlatAppend(Canonical, a.rendered[..i + 1], rest);
    DistinctApart(Flat(Canonical, a.rendered[..i + 1]), Flat(Canonical, rest));
    assert a.rendered[i] in a.rendered;
  }

  // ---- Mandatory identifiers ------------------------------------------------------------------------------

  type Pair = (string, string)

  function UuidPairsFrom(packetId: string, reasons: seq<Reason>): seq<Pair> {
    if reasons == [] then []
    else (if reasons[0].uuid then [(packetId, reasons[0].facet)] else []) + UuidPairsFrom(packetId, reasons[1..])
  }

  /** The packet and facet of every UUID reason of an entry. */
  function UuidPairsOf(m: Metadata): seq<Pair> {
    UuidPairsFrom(m.packetId, m.reasons)
  }

  function UuidPairs(a: Audit): seq<Pair> {
    Flat(UuidPairsOf, a.metadata)
  }

  function MandatoryPair(e: Mandatory): Pair {
    (e.packetId, e.facet)
  }

  function MandatoryPairs(a: Audit): seq<Pair> {
    Each(MandatoryPair, a.mandatory)
  }

  function FacetId(f: Facet): string {
    f.id
  }

  function FindFacet(fs: seq<Facet>, id: string): (f: Option<Facet>)
    ensures f.Some? ==> f.value in fs && f.value.id == id
  {
    if fs == [] then None else if fs[0].id == id then Some(fs[0]) else FindFacet(fs[1..], id)
  }

  function FindPacket(ps: seq<Packet>, id: string): (p: Option<Packet>)
    ensures p.Some? ==> p.value in ps && p.value.id == id
  {
    if ps == [] then None else if ps[0].id == id then Some(ps[0]) else FindPacket(ps[1..], id)
  }

  /** The facet is a validated identifier of the question, and the packet is a proposal that bears on it. */
  predicate PairHolds(a: Audit, pair: Pair) {
    var facet, packet := FindFacet(a.facets, pair.1), FindPacket(a.proposals, pair.0);
    facet.Some? && facet.value.validatedQuery && packet.Some? && pair.1 in packet.value.affinities
  }

  ghost predicate IdentifiersHold(a: Audit) {
    && Distinct(UuidPairs(a)) && UuidPairs(a) != [] && |UuidPairs(a)| == |a.mandatory|
    && Distinct(MandatoryPairs(a)) && Elements(MandatoryPairs(a)) == Elements(UuidPairs(a))
    && forall pair :: pair in MandatoryPairs(a) ==> PairHolds(a, pair)
  }

  /** The part of the metadata loop that gathers UUID reasons. */
  method AuditReasons(a: Audit) returns (r: Option<(set<Pair>, nat)>)
    ensures r.Some? <==> Distinct(UuidPairs(a))
    ensures r.Some? ==> r.value == (Elements(UuidPairs(a)), |UuidPairs(a)|)
  {
    var pairs: set<Pair>, count := {}, 0;
    for i := 0 to |a.metadata|
      invariant var done := Flat(UuidPairsOf, a.metadata[..i]);
                Distinct(done) && pairs == Elements(done) && count == |done|
    {
      ReasonsStep(a, i);
      var inserted := InsertAll(Flat(UuidPairsOf, a.metadata[..i]), pairs, UuidPairsOf(a.metadata[i]));
      if inserted.None? { return None; }
      pairs, count := inserted.value, count + |UuidPairsOf(a.metadata[i])|;
    }
    assert a.metadata[..|a.metadata|] == a.metadata;
    return Some((pairs, count));
  }

  lemma ReasonsStep(a: Audit, i: nat)
    requires i < |a.metadata|
    ensures var done := Flat(UuidPairsOf, a.metadata[..i]) + UuidPairsOf(a.metadata[i]);
            Flat(UuidPairsOf, a.metadata[..i + 1]) == done && (Distinct(UuidPairs(a)) ==> Distinct(done))
  {
    var m, rest := a.metadata[i], a.metadata[i + 1..];
    assert a.metadata[..i + 1] == a.metadata[..i] + [m] && a.metadata == a.metadata[..i + 1] + rest;
    FlatAppend(UuidPairsOf, a.metadata[..i], [m]);
    FlatOne(UuidPairsOf, m);
    FlatAppend(UuidPairsOf, a.metadata[..i + 1], rest);
    if Distinct(UuidPairs(a)) {
      DistinctApart(Flat(UuidPairsOf, a.metadata[..i + 1]), Flat(UuidPairsOf, rest));
    }
  }

  /** The comparison of mandatory entries with UUID reasons. */
  method AuditIdentifiers(a: Audit) returns (ok: bool)
    ensures ok <==> IdentifiersHold(a)
  {
    var reasons := AuditReasons(a);
    if reasons.None? { return false; }
    var pairs := Elements(MandatoryPairs(a));
    DistinctIsCardinality(MandatoryPairs(a));
    ok := reasons.value.1 != 0 && reasons.value.1 == |a.mandatory| && |pairs| == |a.mandatory|
          && pairs == reasons.value.0 && forall pair | pair in MandatoryPairs(a) :: PairHolds(a, pair);
  }

  // ---- The failure block ----------------------------------------------------------------------------------

  function FindBlock(ms: seq<Metadata>, block: string): (m: Option<Metadata>)
    ensures m.Some? ==> m.value in ms && m.value.blockId == block
  {
    if ms == [] then None else if ms[0].blockId == block then Some(ms[0]) else FindBlock(ms[1..], block)
  }

  predicate FailureBlockHolds(a: Audit) {
    && a.framed.Some?
    && var failure := FindFailureBlock(a.framed.value);
    && failure.Some?
    && var entry := FindBlock(a.metadata, failure.value.block);
    && entry.Some? && entry.value.orderedIds == failure.value.members
    && entry.value.packetId in a.selected && entry.value.packetId in Each(RenderedId, a.rendered)
    && exists pair | pair in UuidPairsOf(entry.value) :: pair in MandatoryPairs(a)
  }

  // ---- The partition --------------------------------------------------------------------------------------

  function AllEvents(a: Audit): seq<string> {
    Flat(MetadataEvents, a.metadata)
  }

  function RetainedEvents(a: Audit): seq<string> {
    Flat(MetadataEvents, Lane(a.metadata, Elements(ProposalIds(a)), false))
  }

  /** The checks on single packets, single entries and their identifiers. */
  ghost predicate LocalChecks(a: Audit) {
    ProposalsHold(a) && Distinct(ProposalIds(a)) && MetadataHolds(a.ledger, a.metadata)
  }

  lemma SamePacketSameEntry(ms: seq<Metadata>, m: Metadata, n: Metadata)
    requires Distinct(Each(MetadataPacket, ms)) && m in ms && n in ms && m.packetId == n.packetId
    ensures m == n
  {
    var i :| 0 <= i < |ms| && ms[i] == m;
    var j :| 0 <= j < |ms| && ms[j] == n;
    assert Each(MetadataPacket, ms)[i] == Each(MetadataPacket, ms)[j];
  }

  lemma ProposedHasPacket(a: Audit, id: string)
    ensures id in ProposalIds(a) <==> exists p :: p in a.proposals && p.id == id
  {
    EachExactly(PacketId, a.proposals, id);
    forall p | p in a.proposals ensures PacketId(p) == p.id {}
  }

  /** Proposals and proposed entries have the same events. */
  lemma ProposedEventsAgree(a: Audit)
    requires LocalChecks(a)
    ensures var lane := Lane(a.metadata, Elements(ProposalIds(a)), true);
            forall e :: e in ProposalEvents(a) <==> e in Flat(MetadataEvents, lane)
  {
    var ids := Elements(ProposalIds(a));
    var lane := Lane(a.metadata, ids, true);
    LaneMembers(a.metadata, ids, true);
    FlatMembers(PacketEvents, a.proposals);
    FlatMembers(MetadataEvents, lane);
    forall e | e in ProposalEvents(a) ensures e in Flat(MetadataEvents, lane) {
      var p :| p in a.proposals && e in PacketEvents(p);
      ProposedHasPacket(a, p.id);
      ProposalEntry(a, p);
      var m := ProposalMetadata(a, p.id).value;
      assert m in lane && e in MetadataEvents(m);
    }
    forall e | e in Flat(MetadataEvents, lane) ensures e in ProposalEvents(a) {
      var m :| m in lane && e in MetadataEvents(m);
      ProposedHasPacket(a, m.packetId);
      var p :| p in a.proposals && p.id == m.packetId;
      ProposalEntry(a, p);
      SamePacketSameEntry(a.metadata, m, ProposalMetadata(a, p.id).value);
      assert e in PacketEvents(p);
    }
  }

  lemma ProposalEntry(a: Audit, p: Packet)
    requires LocalChecks(a) && p in a.proposals
    ensures var m := ProposalMetadata(a, p.id);
            m.Some? && m.value in a.metadata && m.value.packetId == p.id
            && multiset(m.value.orderedIds) == multiset(p.eventIds)
            && forall e :: e in m.value.orderedIds <==> e in p.eventIds
  {
    assert PacketHolds(a, p);
    SameElements(p.eventIds, ProposalMetadata(a, p.id).value.orderedIds);
  }

  lemma SameDistinctSameContents<T>(s: seq<T>, t: seq<T>)
    requires Distinct(s) && Distinct(t) && forall e :: e in s <==> e in t
    ensures multiset(s) == multiset(t)
  {
    DistinctIsCounting(s);
    DistinctIsCounting(t);
    forall e ensures multiset(s)[e] == multiset(t)[e] {
      assert e in s <==> e in multiset(s);
      assert e in t <==> e in multiset(t);
    }
  }

  lemma ProposedEntriesAreProposals(a: Audit)
    requires LocalChecks(a)
    ensures |Lane(a.metadata, Elements(ProposalIds(a)), true)| == |a.proposals|
  {
    var ids := Elements(ProposalIds(a));
    var lane := Lane(a.metadata, ids, true);
    LaneMembers(a.metadata, ids, true);
    LaneDistinct(a.metadata, ids);
    var packets := Each(MetadataPacket, lane);
    forall id ensures id in packets <==> id in ProposalIds(a) { EntryOfProposal(a, id); }
    SameDistinctSameContents(packets, ProposalIds(a));
    SameElements(packets, ProposalIds(a));
  }

  lemma EntryOfProposal(a: Audit, id: string)
    requires LocalChecks(a)
    ensures id in Each(MetadataPacket, Lane(a.metadata, Elements(ProposalIds(a)), true)) <==> id in ProposalIds(a)
  {
    var lane := Lane(a.metadata, Elements(ProposalIds(a)), true);
    LaneMembers(a.metadata, Elements(ProposalIds(a)), true);
    EachExactly(MetadataPacket, lane, id);
    if id in ProposalIds(a) {
      ProposedHasPacket(a, id);
      var p :| p in a.proposals && p.id == id;
      ProposalEntry(a, p);
      var m := ProposalMetadata(a, id).value;
      assert m in lane && MetadataPacket(m) == id;
    }
  }

  lemma {:induction false} LaneDistinct(ms: seq<Metadata>, ids: set<string>)
    requires Distinct(Each(MetadataPacket, ms))
    ensures Distinct(Each(MetadataPacket, Lane(ms, ids, true)))
  {
    if ms != [] {
      var lane := Lane(ms[1..], ids, true);
      assert Each(MetadataPacket, ms) == [ms[0].packetId] + Each(MetadataPacket, ms[1..]);
      DistinctByHead(Each(MetadataPacket, ms));
      assert Each(MetadataPacket, ms)[1..] == Each(MetadataPacket, ms[1..]);
      LaneDistinct(ms[1..], ids);
      LaneMembers(ms[1..], ids, true);
      if ms[0].packetId in ids {
        HeadApart(ms, lane);
      } else {
        assert [] + lane == lane;
      }
    }
  }

  lemma HeadApart(ms: seq<Metadata>, lane: seq<Metadata>)
    requires ms != [] && ms[0].packetId !in Each(MetadataPacket, ms[1..]) && forall m :: m in lane ==> m in ms[1..]
    requires Distinct(Each(MetadataPacket, lane))
    ensures Distinct(Each(MetadataPacket, [ms[0]] + lane))
  {
    var packets := Each(MetadataPacket, [ms[0]] + lane);
    assert packets[1..] == Each(MetadataPacket, lane) && packets[0] == ms[0].packetId;
    forall k | 0 <= k < |lane| ensures MetadataPacket(lane[k]) != ms[0].packetId {
      assert lane[k] in ms[1..];
      EachExactly(MetadataPacket, ms[1..], MetadataPacket(lane[k]));
    }
    DistinctByHead(packets);
  }

  /**
   * From the local checks alone: the proposal and the retained lane are disjoint, make up all events of the
   * metadata, and their blocks, events and bytes add up. The audit's own tests of these can therefore never fail
   * by themselves.
   */
  lemma LanesAddUp(a: Audit)
    requires LocalChecks(a)
    ensures forall e :: !(e in ProposalEvents(a) && e in RetainedEvents(a))
    ensures forall e :: e in AllEvents(a) <==> e in ProposalEvents(a) || e in RetainedEvents(a)
    ensures |AllEvents(a)| == |ProposalEvents(a)| + |RetainedEvents(a)|
    ensures SumBy(SizeIn(a.ledger), AllEvents(a))
         == SumBy(SizeIn(a.ledger), ProposalEvents(a)) + SumBy(SizeIn(a.ledger), RetainedEvents(a))
    ensures |a.metadata| == |a.proposals| + |Lane(a.metadata, Elements(ProposalIds(a)), false)|
  {
    var ids := Elements(ProposalIds(a));
    var proposed := Flat(MetadataEvents, Lane(a.metadata, ids, true));
    LanesAreParts(a.ledger, a.metadata, ids);
    ProposedEventsAgree(a);
    SameDistinctSameContents(ProposalEvents(a), proposed);
    SameElements(ProposalEvents(a), proposed);
    SumIgnoresOrder(SizeIn(a.ledger), ProposalEvents(a), proposed);
    LanesShareOut(a.metadata, ids);
    ProposedEntriesAreProposals(a);
  }

  // ---- The whole audit ------------------------------------------------------------------------------------

  function Actual(a: Audit): Accounting {
    Accounting(|a.metadata|, |AllEvents(a)|, SumBy(SizeIn(a.ledger), AllEvents(a)),
               |a.proposals|, |ProposalEvents(a)|, SumBy(SizeIn(a.ledger), ProposalEvents(a)),
               |Lane(a.metadata, Elements(ProposalIds(a)), false)|, |RetainedEvents(a)|,
               SumBy(SizeIn(a.ledger), RetainedEvents(a)),
               SumBy(Affinities, a.proposals), |a.mandatory|, |a.facets|)
  }

  ghost predicate FramedHolds(a: Audit) {
    a.framed.Some? && Distinct(Each(BlockKey, a.framed.value))
        && MembersByBlock(a.metadata) == FramedMembers(a.framed.value)
  }

  /** What the audit demands of proposals, metadata, ledger and declared accounting. */
  ghost predicate LanesHold(a: Audit) {
    && LocalChecks(a) && a.bounds == Sort(Itself, ProposalIds(a))
    && FramedHolds(a) && |AllEvents(a)| == |a.ledger| && Distinct(Each(FacetId, a.facets)) && a.declared == Actual(a)
  }

  /** Exactly what the audit demands. */
  ghost predicate AuditHolds(a: Audit) {
    && a.bindings && a.selected != [] && a.proposals != []
    && LanesHold(a) && IdentifiersHold(a) && RenderedHolds(a) && FailureBlockHolds(a)
  }

  /** The comparisons after the metadata loop. */
  predicate Adds(a: Audit, ids: set<string>, proposals: set<string>, bytes: nat, affinities: nat, g: Gathered) {
    && |g.packets| == |a.metadata| && ids <= g.packets && |g.all| == |a.ledger|
    && proposals * g.retained == {} && proposals + g.retained == g.all
    && |a.proposals| + g.retainedBlocks == |g.packets|
    && |proposals| + |g.retained| == |g.all|
    && CheckedAdd(bytes, g.retainedBytes) == Some(g.allBytes)
    && |Elements(Each(FacetId, a.facets))| == |a.facets|
    && a.declared == Accounting(|g.packets|, |g.all|, g.allBytes, |a.proposals|, |proposals|, bytes,
                                g.retainedBlocks, |g.retained|, g.retainedBytes, affinities,
                                |a.mandatory|, |Elements(Each(FacetId, a.facets))|)
  }

  /** What was gathered, against the lists it was gathered from. */
  ghost predicate Sizes(a: Audit, ids: set<string>, proposals: set<string>, bytes: nat, g: Gathered) {
    && |g.packets| == |a.metadata| && ids <= g.packets && proposals * g.retained == {}
    && proposals + g.retained == g.all && |g.all| == |AllEvents(a)| && |proposals| == |ProposalEvents(a)|
    && |g.retained| == |RetainedEvents(a)| && g.retainedBlocks == |Lane(a.metadata, Elements(ProposalIds(a)), false)|
    && bytes == SumBy(SizeIn(a.ledger), ProposalEvents(a))
    && g.retainedBytes == SumBy(SizeIn(a.ledger), RetainedEvents(a))
    && g.allBytes == SumBy(SizeIn(a.ledger), AllEvents(a)) <= U64_MAX
  }

  lemma SizesAgree(a: Audit, proposals: set<string>, bytes: nat, g: Gathered)
    requires LocalChecks(a) && Tally(a.ledger, ProposalEvents(a), proposals, bytes)
    requires Gathers(a.ledger, a.metadata, Elements(ProposalIds(a)), g)
    ensures Sizes(a, Elements(ProposalIds(a)), proposals, bytes, g)
  {
    LanesAddUp(a);
    DistinctIsCardinality(ProposalEvents(a));
    DistinctIsCardinality(AllEvents(a));
    DistinctIsCardinality(RetainedEvents(a));
    DistinctIsCardinality(Each(MetadataPacket, a.metadata));
    forall id | id in ProposalIds(a) ensures id in g.packets { ProposedIsEntered(a, id); }
    assert proposals * g.retained == {} && proposals + g.retained == g.all;
  }

  lemma AddsExactly(a: Audit, ids: set<string>, proposals: set<string>, bytes: nat, affinities: nat, g: Gathered)
    requires Sizes(a, ids, proposals, bytes, g) && affinities == SumBy(Affinities, a.proposals)
    requires |AllEvents(a)| == |ProposalEvents(a)| + |RetainedEvents(a)| && bytes + g.retainedBytes == g.allBytes
    requires |a.metadata| == |a.proposals| + g.retainedBlocks
    ensures Adds(a, ids, proposals, bytes, affinities, g)
       <==> |AllEvents(a)| == |a.ledger| && Distinct(Each(FacetId, a.facets)) && a.declared == Actual(a)
  {
    DistinctIsCardinality(Each(FacetId, a.facets));
  }

  lemma ProposedIsEntered(a: Audit, id: string)
    requires LocalChecks(a) && id in ProposalIds(a)
    ensures id in Each(MetadataPacket, a.metadata)
  {
    ProposedHasPacket(a, id);
    var p :| p in a.proposals && p.id == id;
    ProposalEntry(a, p);
    EachExactly(MetadataPacket, a.metadata, id);
    assert MetadataPacket(ProposalMetadata(a, id).value) == id;
  }

  /** The loops over proposals and metadata, and the comparisons that follow them. */
  method AuditLanes(a: Audit) returns (error: Option<AuditError>)
    ensures error.None? <==> LanesHold(a)
  {
    var proposals := AuditProposals(a);
    if proposals.None? { return Some(MembershipMismatch); }
    var sorted := Sort(Itself, proposals.value.0);
    AdjacentIsRepetition(proposals.value.0);
    if AdjacentEqual(sorted) || a.bounds != sorted { return Some(CertificationMismatch); }
    if a.framed.None? { return Some(MembershipMismatch); }
    var framed := FrameMembers(a.framed.value);
    if framed.None? { return Some(MembershipMismatch); }
    var ids := Elements(proposals.value.0);
    var gathered := AuditMetadata(a, ids);
    if gathered.None? { return Some(MembershipMismatch); }
    var g := gathered.value;
    LanesAddUp(a);
    SizesAgree(a, proposals.value.1, proposals.value.2, g);
    AddsExactly(a, ids, proposals.value.1, proposals.value.2, proposals.value.3, g);
    if g.blocks != framed.value || !Adds(a, ids, proposals.value.1, proposals.value.2, proposals.value.3, g) {
      return Some(AccountingMismatch);
    }
    return None;
  }

  datatype Receipt = Receipt(accounting: Accounting, selectedEvents: nat)

  /** `validate_three_lane_audit_v1`. */
  method Validate(a: Audit) returns (r: Result<Receipt, AuditError>)
    ensures r.Ok? <==> AuditHolds(a)
    ensures r.Ok? ==> r.value == Receipt(Actual(a), |Flat(Canonical, a.rendered)|)
  {
    if a.selected == [] || a.proposals == [] || !a.bindings { return Err(BindingMismatch); }
    var error := AuditLanes(a);
    if error.Some? { return Err(error.value); }
    var identified := AuditIdentifiers(a);
    if !identified { return Err(IdentifierNotMandatory); }
    var rendered := AuditRendered(a);
    if rendered.None? { return Err(ArtifactBindingMismatch); }
    if !FailureBlockHolds(a) { return Err(FailureBlockNotSelected); }
    DistinctIsCardinality(Flat(Canonical, a.rendered));
    return Ok(Receipt(a.declared, |rendered.value|));
  }

  /** A validated audit partitions the ledger, events and bytes alike. */
  lemma ValidatedPartitionsLedger(a: Audit)
    requires ValidLedger(a.ledger) && AuditHolds(a)
    ensures forall e :: !(e in ProposalEvents(a) && e in RetainedEvents(a))
    ensures forall e :: e in IdsOf(a.ledger) <==> e in ProposalEvents(a) || e in RetainedEvents(a)
    ensures a.declared.proposalEvents + a.declared.retainedEvents == |a.ledger|
    ensures a.declared.proposalBytes + a.declared.retainedBytes == SumBy(Size, a.ledger)
  {
    LanesAddUp(a);
    var all, ids := AllEvents(a), IdsOf(a.ledger);
    DistinctIsCardinality(ids);
    Pigeonhole(all, Elements(ids));
    forall e ensures e in all <==> e in ids { assert e in Elements(all) <==> e in Elements(ids); }
    SameDistinctSameContents(all, ids);
    SumIgnoresOrder(SizeIn(a.ledger), all, ids);
    LedgerBytesFrom(a.ledger, 0);
    assert ids[0..] == ids && a.ledger[0..] == a.ledger;
  }

  /** A rendered packet of a validated audit is a proposal and shows its entry's events, each once, with the
      ledger's bytes. */
  lemma RenderedExactly(a: Audit, p: Rendered)
    requires AuditHolds(a) && p in a.rendered
    ensures exists m :: m in a.metadata && m.packetId == p.packetId
                        && multiset(Each(EventKey, p.events)) == multiset(m.orderedIds)
    ensures Distinct(Each(EventKey, p.events))
    ensures forall e :: e in p.events ==> ExactBytes(a.ledger, e.id) == Some(e.bytes)
    ensures p.packetId in ProposalIds(a)
  {
    assert RenderedPacketHolds(a, p);
    DistinctIsCardinality(Each(EventKey, p.events));
    ProposedHasPacket(a, p.packetId);
    var m := ProposalMetadata(a, p.packetId).value;
    assert multiset(Each(EventKey, p.events)) == multiset(m.orderedIds);
  }

  // ---- Blocks ---------------------------------------------------------------------------------------------

  lemma {:induction false} MembersOfBlock(ms: seq<Metadata>, m: Metadata)
    requires Distinct(Each(MetadataBlock, ms)) && m in ms
    ensures m.blockId in MembersByBlock(ms) && MembersByBlock(ms)[m.blockId] == m.orderedIds
    decreases |ms|
  {
    var last := |ms| - 1;
    var front := ms[..last];
    assert ms == front + [ms[last]];
    EachAppend(MetadataBlock, front, ms[last]);
    DistinctApart(Each(MetadataBlock, front), [ms[last].blockId]);
    if m in front {
      var i :| 0 <= i < last && front[i] == m;
      assert Each(MetadataBlock, ms)[i] != Each(MetadataBlock, ms)[last];
      MembersOfBlock(front, m);
    }
  }

  lemma {:induction false} FramedKeys(bs: seq<Block>, id: string)
    requires id in FramedMembers(bs)
    ensures exists b :: b in bs && b.id == id && b.members == FramedMembers(bs)[id]
    decreases |bs|
  {
    var last := |bs| - 1;
    if bs[last].id == id {
      assert bs[last] in bs;
    } else {
      FramedKeys(bs[..last], id);
      var b :| b in bs[..last] && b.id == id && b.members == FramedMembers(bs[..last])[id];
      assert b in bs;
    }
  }

  /** Every entry of a validated audit is a block of the freshly framed ledger, member for member. */
  lemma EntriesAreFramedBlocks(a: Audit, m: Metadata)
    requires AuditHolds(a) && m in a.metadata
    ensures exists b :: b in a.framed.value && b.id == m.blockId && b.members == m.orderedIds
  {
    MembersOfBlock(a.metadata, m);
    FramedKeys(a.framed.value, m.blockId);
  }

  // ---- What the failure block and the identifiers come to -------------------------------------------------

  lemma {:induction false} UuidPairsFromReasons(packetId: string, reasons: seq<Reason>, pair: Pair)
    ensures pair in UuidPairsFrom(packetId, reasons)
       <==> pair.0 == packetId && exists r :: r in reasons && r.uuid && r.facet == pair.1
  {
    if reasons != [] {
      UuidPairsFromReasons(packetId, reasons[1..], pair);
      assert reasons == [reasons[0]] + reasons[1..];
    }
  }

  /** In a validated audit the mandatory entries are exactly the UUID reasons, each of a proposal that bears on
      its facet. */
  lemma MandatoryExactly(a: Audit, packetId: string, facet: string)
    requires AuditHolds(a)
    ensures Mandatory(packetId, facet) in a.mandatory
       <==> exists m :: m in a.metadata && m.packetId == packetId && HasUuidReason(m, facet)
    ensures Mandatory(packetId, facet) in a.mandatory ==> packetId in ProposalIds(a)
  {
    MandatoryPairIn(a, packetId, facet);
    UuidPairIn(a, packetId, facet);
    SamePairs(a, (packetId, facet));
    ProposedHasPacket(a, packetId);
  }

  lemma SamePairs(a: Audit, pair: Pair)
    requires IdentifiersHold(a)
    ensures pair in MandatoryPairs(a) <==> pair in UuidPairs(a)
    ensures pair in MandatoryPairs(a) ==> exists p :: p in a.proposals && p.id == pair.0
  {
    assert pair in Elements(MandatoryPairs(a)) <==> pair in Elements(UuidPairs(a));
    if pair in MandatoryPairs(a) {
      assert PairHolds(a, pair);
      assert FindPacket(a.proposals, pair.0).value in a.proposals;
    }
  }

  lemma UuidPairIn(a: Audit, packetId: string, facet: string)
    ensures (packetId, facet) in UuidPairs(a)
       <==> exists m :: m in a.metadata && m.packetId == packetId && HasUuidReason(m, facet)
  {
    var pair := (packetId, facet);
    FlatMembers(UuidPairsOf, a.metadata);
    forall m | m in a.metadata ensures pair in UuidPairsOf(m) <==> m.packetId == packetId && HasUuidReason(m, facet) {
      UuidPairsFromReasons(m.packetId, m.reasons, pair);
    }
  }

  ghost predicate HasUuidReason(m: Metadata, facet: string) {
    exists r :: r in m.reasons && r.uuid && r.facet == facet
  }

  lemma MandatoryPairIn(a: Audit, packetId: string, facet: string)
    ensures (packetId, facet) in MandatoryPairs(a) <==> Mandatory(packetId, facet) in a.mandatory
  {
    EachExactly(MandatoryPair, a.mandatory, (packetId, facet));
    if e :| e in a.mandatory && MandatoryPair(e) == (packetId, facet) { assert e == Mandatory(packetId, facet); }
    if Mandatory(packetId, facet) in a.mandatory {
      assert MandatoryPair(Mandatory(packetId, facet)) == (packetId, facet);
    }
  }

  ghost predicate ShowsFailureBlock(a: Audit, p: Rendered, f: FailureBlock) {
    && p in a.rendered && multiset(Each(EventKey, p.events)) == multiset(f.members)
    && forall e :: e in p.events ==> ExactBytes(a.ledger, e.id) == Some(e.bytes)
  }

  /** A validated audit shows the whole failure block in one packet: its four events, with the ledger's bytes. */
  lemma FailureBlockIsShown(a: Audit)
    requires AuditHolds(a)
    ensures FindFailureBlock(a.framed.value).Some? && |FindFailureBlock(a.framed.value).value.members| == 4
    ensures exists p :: ShowsFailureBlock(a, p, FindFailureBlock(a.framed.value).value)
  {
    var f := FindFailureBlock(a.framed.value).value;
    var entry := FindBlock(a.metadata, f.block).value;
    EachExactly(RenderedId, a.rendered, entry.packetId);
    var p :| p in a.rendered && RenderedId(p) == entry.packetId;
    RenderedExactly(a, p);
    var m :| m in a.metadata && m.packetId == p.packetId
        && multiset(Each(EventKey, p.events)) == multiset(m.orderedIds);
    SamePacketSameEntry(a.metadata, m, entry);
    assert ShowsFailureBlock(a, p, f);
  }

  /**
   * What framing does: a block expands to the ledger's own events, in member order, and an event's payload is the
   * front of its bytes.
   */
  ghost predicate FromLedger(ledger: seq<LedgerEvent>, bs: seq<Block>) {
    forall b :: b in bs && b.expansion.Some? ==>
      ExpandedIds(b.expansion.value) == b.members && forall e :: e in b.expansion.value ==> PayloadOf(ledger, e)
  }

  ghost predicate PayloadOf(ledger: seq<LedgerEvent>, e: Expanded) {
    ExactBytes(ledger, e.id).Some? && e.payload <= ExactBytes(ledger, e.id).value
  }

  /** A validated audit of blocks framed from its ledger shows an event whose bytes contain the identifier. */
  lemma IdentifierIsShown(a: Audit)
    requires AuditHolds(a) && FromLedger(a.ledger, a.framed.value)
    ensures exists p, e :: p in a.rendered && e in p.events && Occurs(IDENTIFIER, e.bytes)
  {
    var f := FindFailureBlock(a.framed.value).value;
    FailureBlockIsShown(a);
    var p :| ShowsFailureBlock(a, p, f);
    FailureBlockIsIntact(a.framed.value);
    var b :| b in a.framed.value && OnlyMatch(a.framed.value, b) && IsFailureBlock(b, f);
    var x :| x in b.expansion.value && Occurs(IDENTIFIER, x.payload);
    var e := ShownMember(a, p, f, b, x);
    assert PayloadOf(a.ledger, x);
    OccursInFront(IDENTIFIER, x.payload, e.bytes);
  }

  /** An event of the failure block as the packet shows it. */
  lemma ShownMember(a: Audit, p: Rendered, f: FailureBlock, b: Block, x: Expanded) returns (e: RenderedEvent)
    requires ShowsFailureBlock(a, p, f) && IsFailureBlock(b, f) && x in b.expansion.value
    ensures e in p.events && e.id == x.id && ExactBytes(a.ledger, x.id) == Some(e.bytes)
  {
    var i :| 0 <= i < |b.expansion.value| && b.expansion.value[i] == x;
    assert f.members[i] == x.id;
    SameElements(Each(EventKey, p.events), f.members);
    EachExactly(EventKey, p.events, x.id);
    e :| e in p.events && EventKey(e) == x.id;
  }

  lemma OccursInFront(part: string, front: string, s: string)
    requires Occurs(part, front) && front <= s
    ensures Occurs(part, s)
  {
    var i: int :| 0 <= i <= |front| - |part| && At(front, part, i);
    assert s[i..i + |part|] == front[i..i + |part|];
    assert At(s, part, i);
  }
}
