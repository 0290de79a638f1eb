/** Audits that validate: one failure block of four events, proposed, mandatory and shown. */
module ThreeLaneWitness {
  import opened Prelude
  import opened Octets
  import opened Ordering
  import opened Counting
  import opened FramedBlocks
  import opened ThreeLaneAudit

  /** Any four event identifiers, in order. */
  ghost predicate FourIds(ids: seq<string>) {
    |ids| == 4 && Distinct(ids) && SortedBy(Itself, ids)
  }

  function Source(id: string): LedgerEvent {
    LedgerEvent(id, IDENTIFIER)
  }

  function Picture(id: string): RenderedEvent {
    RenderedEvent(id, IDENTIFIER)
  }

  /** The events in the lane from place 7 on; their payloads are all of their bytes, the identifier. */
  function InLane(ids: seq<string>): (es: seq<Expanded>)
    ensures |es| == |ids|
  {
    seq(|ids|, i requires 0 <= i < |ids| => Expanded(ids[i], IDENTIFIER, 7 + i))
  }

  function OnePacket(ids: seq<string>): Packet {
    Packet("p", ids, 1, ["f"])
  }

  function OneEntry(ids: seq<string>): Metadata {
    Metadata("p", "block", ids, [Reason(true, "f")])
  }

  function OneRendered(ids: seq<string>): Rendered {
    Rendered("p", ids, Each(Picture, ids), 1)
  }

  function OneBlock(ids: seq<string>): Block {
    Block("block", ids, true, Some(InLane(ids)))
  }

  function OneBlockAudit(ids: seq<string>): Audit {
    Audit(Each(Source, ids), [OnePacket(ids)], [OneEntry(ids)], [Mandatory("p", "f")], [Facet("f", true)],
          [OneRendered(ids)], ["p"], ["p"], (id: string, events: seq<string>) => Some(1), Some([OneBlock(ids)]),
          Accounting(1, 4, 144, 1, 4, 144, 0, 0, 0, 1, 1, 1), true)
  }

  // ---- Lists of one element -------------------------------------------------------------------------------

  lemma SortOne(id: string)
    ensures Sort(Itself, [id]) == [id]
  {
    SameElements(Sort(Itself, [id]), [id]);
  }

  lemma EachOne<T, U>(f: T -> U, x: T)
    ensures Each(f, [x]) == [f(x)]
  {
  }

  lemma SumOne<T>(f: T -> nat, x: T)
    ensures SumBy(f, [x]) == f(x)
  {
    assert [x][1..] == [];
  }

  // ---- Each demand in turn --------------------------------------------------------------------------------

  lemma IdsSorted(ids: seq<string>)
    requires FourIds(ids)
    ensures Sort(Itself, ids) == ids
  {
    SortedUnique(Itself, ids, Sort(Itself, ids));
  }

  lemma LedgerFacts(ids: seq<string>)
    requires FourIds(ids)
    ensures var ledger := Each(Source, ids);
            && ValidLedger(ledger) && Countable(ledger, ids) && SumBy(SizeIn(ledger), ids) == 144
            && forall i :: 0 <= i < 4 ==> ExactBytes(ledger, ids[i]) == Some(IDENTIFIER)
  {
    var ledger := Each(Source, ids);
    assert IdsOf(ledger) == ids;
    forall i | 0 <= i < 4 ensures ExactBytes(ledger, ids[i]) == Some(IDENTIFIER) { ExactBytesAt(ledger, i); }
    forall id | id in ids ensures SizeIn(ledger)(id) == 36 {
      var i :| 0 <= i < 4 && ids[i] == id;
    }
    SumAtCeiling(SizeIn(ledger), 36, ids);
  }

  lemma EntryFound(ids: seq<string>, a: Audit)
    requires a == OneBlockAudit(ids)
    ensures ProposalMetadata(a, "p") == Some(OneEntry(ids)) && FindBlock(a.metadata, "block") == Some(OneEntry(ids))
  {
    assert OnePacket(ids) in a.proposals;
  }

  lemma ProposalsFacts(ids: seq<string>, a: Audit)
    requires FourIds(ids) && a == OneBlockAudit(ids)
    ensures ProposalsHold(a) && ProposalIds(a) == ["p"] && ProposalEvents(a) == ids && a.bounds == Sort(Itself, ["p"])
    ensures SumBy(Affinities, a.proposals) == 1
  {
    var p := OnePacket(ids);
    LedgerFacts(ids);
    EntryFound(ids, a);
    IdsSorted(ids);
    SortOne("p");
    EachOne(PacketId, p);
    FlatOne(PacketEvents, p);
    SumOne(Affinities, p);
    assert PacketHolds(a, p);
  }

  lemma MetadataFacts(ids: seq<string>, a: Audit)
    requires FourIds(ids) && a == OneBlockAudit(ids)
    ensures MetadataHolds(a.ledger, a.metadata) && FramedHolds(a) && AllEvents(a) == ids
  {
    var m := OneEntry(ids);
    LedgerFacts(ids);
    FlatOne(MetadataEvents, m);
    EachOne(MetadataPacket, m);
    EachOne(MetadataBlock, m);
    EachOne(BlockKey, OneBlock(ids));
    assert a.metadata[..0] == [] && a.framed.value[..0] == [];
  }

  lemma AccountsFacts(ids: seq<string>, a: Audit)
    requires FourIds(ids) && a == OneBlockAudit(ids)
    requires ProposalIds(a) == ["p"] && ProposalEvents(a) == ids && AllEvents(a) == ids
    requires SumBy(Affinities, a.proposals) == 1
    ensures a.declared == Actual(a) && Distinct(Each(FacetId, a.facets))
  {
    LedgerFacts(ids);
    EachOne(FacetId, Facet("f", true));
    assert "p" in Elements(["p"]) && a.metadata[1..] == [];
    assert Lane(a.metadata, Elements(["p"]), false) == [];
  }

  lemma IdentifierFacts(ids: seq<string>, a: Audit)
    requires a == OneBlockAudit(ids)
    ensures IdentifiersHold(a) && MandatoryPairs(a) == [("p", "f")] && UuidPairsOf(OneEntry(ids)) == [("p", "f")]
  {
    assert [Reason(true, "f")][1..] == [];
    FlatOne(UuidPairsOf, OneEntry(ids));
    EachOne(MandatoryPair, Mandatory("p", "f"));
    assert PairHolds(a, ("p", "f"));
  }

  lemma RenderedFacts(ids: seq<string>, a: Audit)
    requires FourIds(ids) && a == OneBlockAudit(ids)
    ensures RenderedHolds(a) && Each(RenderedId, a.rendered) == ["p"]
  {
    var p := OneRendered(ids);
    SortOne("p");
    EachOne(RenderedId, p);
    FlatOne(Canonical, p);
    PictureFacts(ids, a);
    PacketsHoldOne(a, p);
  }

  lemma PacketsHoldOne(a: Audit, p: Rendered)
    requires RenderedPacketHolds(a, p)
    ensures PacketsHold(a, [p])
  {
    PacketsHoldNext(a, [], p);
    assert [] + [p] == [p];
  }

  lemma PictureFacts(ids: seq<string>, a: Audit)
    requires FourIds(ids) && a == OneBlockAudit(ids)
    ensures RenderedPacketHolds(a, OneRendered(ids))
  {
    var p := OneRendered(ids);
    LedgerFacts(ids);
    EntryFound(ids, a);
    IdsSorted(ids);
    DistinctIsCardinality(ids);
    assert Each(EventKey, p.events) == ids;
    forall e | e in p.events ensures ExactBytes(a.ledger, e.id) == Some(e.bytes) {
      var i :| 0 <= i < 4 && p.events[i] == e;
    }
  }

  lemma FailureFacts(ids: seq<string>)
    requires FourIds(ids)
    ensures FindFailureBlock([OneBlock(ids)]) == Some(FailureBlock("block", ids))
  {
    var es, block := InLane(ids), OneBlock(ids);
    assert At(IDENTIFIER, IDENTIFIER, 0);
    assert es[0] in es && Matches(block);
    assert [block][1..] == [] && Matching([block]) == [block];
    assert Consecutive(es) && ExpandedIds(es) == ids;
  }

  lemma FramingFacts(ids: seq<string>)
    requires FourIds(ids)
    ensures FromLedger(Each(Source, ids), [OneBlock(ids)])
  {
    var ledger, es := Each(Source, ids), InLane(ids);
    LedgerFacts(ids);
    assert ExpandedIds(es) == ids;
    forall e | e in es ensures PayloadOf(ledger, e) {
      var i :| 0 <= i < 4 && es[i] == e;
      assert ExactBytes(ledger, ids[i]) == Some(IDENTIFIER);
    }
  }

  /** The demands of the audit can all be met at once, over any four events and blocks framed from them. */
  lemma OneBlockAuditHolds(ids: seq<string>)
    requires FourIds(ids)
    ensures ValidLedger(OneBlockAudit(ids).ledger) && AuditHolds(OneBlockAudit(ids))
    ensures FromLedger(OneBlockAudit(ids).ledger, OneBlockAudit(ids).framed.value)
  {
    FramingFacts(ids);
    var a := OneBlockAudit(ids);
    LedgerFacts(ids);
    LanesFacts(ids, a);
    IdentifierFacts(ids, a);
    RenderedFacts(ids, a);
    FailureBlockFacts(ids, a);
  }

  lemma LanesFacts(ids: seq<string>, a: Audit)
    requires FourIds(ids) && a == OneBlockAudit(ids)
    ensures LanesHold(a)
  {
    ProposalsFacts(ids, a);
    MetadataFacts(ids, a);
    AccountsFacts(ids, a);
  }

  lemma FailureBlockFacts(ids: seq<string>, a: Audit)
    requires FourIds(ids) && a == OneBlockAudit(ids)
    ensures FailureBlockHolds(a)
  {
    FailureFacts(ids);
    EntryFound(ids, a);
    IdentifierFacts(ids, a);
    RenderedFacts(ids, a);
    assert ("p", "f") in UuidPairsOf(OneEntry(ids)) && ("p", "f") in MandatoryPairs(a);
  }

  lemma FourIdsExist()
    ensures FourIds(["a", "b", "c", "d"])
  {
  }
}
