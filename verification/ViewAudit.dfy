/** The auditor of a compact view, and why no view of the renderer fails it (compact_agent_view_admission.rs). */
module ViewAudit {
  import opened Prelude
  import opened Octets
  import opened Ordering
  import opened Counting
  import opened EvidenceEscape
  import opened CompactView
  import opened UnixPaths

  /** One event against its recorded proof; fields may not start before `previous`. */
  predicate EventPasses(text: string, e: Event, p: EventProof, previous: nat) {
    && p.id == e.id && p.basis == e.basis && p.stream == e.stream && p.byteCount == |e.bytes|
    && previous <= p.span.fieldStart <= p.span.dataStart <= p.span.dataEnd <= p.span.fieldEnd
    && p.span.dataEnd <= |text| && Unescape(text[p.span.dataStart..p.span.dataEnd]) == Ok(e.bytes)
  }

  /** The inner loop from event `j`: the end of the last field, or nothing when some event fails. */
  function AuditEvents(text: string, events: seq<Event>, proofs: seq<EventProof>, j: nat, previous: nat): Option<nat>
    requires j <= |events| == |proofs|
    decreases |events| - j
  {
    if j == |events| then Some(previous)
    else if !EventPasses(text, events[j], proofs[j], previous) then None
    else AuditEvents(text, events, proofs, j + 1, proofs[j].span.fieldEnd)
  }

  predicate PacketPasses(p: Packet, a: PacketAudit, c: Citation) {
    && a.alias == c.alias && p.ordinal + 1 == a.alias && |p.events| == |a.events|
    && Elements(Ids(p.events)) == Elements(c.targets)
  }

  /** The outer loop from packet `i`. */
  function AuditPackets(v: View, packets: seq<Packet>, i: nat, previous: nat): Option<nat>
    requires i <= |packets| && |packets| == |v.audits| == |v.citations|
    decreases |packets| - i
  {
    if i == |packets| then Some(previous)
    else if !PacketPasses(packets[i], v.audits[i], v.citations[i]) then None
    else
      var end := AuditEvents(v.text, packets[i].events, v.audits[i].events, 0, previous);
      if end.None? then None else AuditPackets(v, packets, i + 1, end.value)
  }

  /** `InvalidChallengeObservation` is not returned. */
  predicate Passes(b: Brief, v: View) {
    b.canonical == v.canonical && |b.packets| == |v.audits| == |v.citations| && AuditPackets(v, b.packets, 0, 0).Some?
  }

  function EventTotal(packets: seq<Packet>, i: nat): nat
    requires i <= |packets|
  {
    if i == 0 then 0 else EventTotal(packets, i - 1) + |packets[i - 1].events|
  }

  function ByteTotal(events: seq<Event>, j: nat): nat
    requires j <= |events|
  {
    if j == 0 then 0 else ByteTotal(events, j - 1) + |events[j - 1].bytes|
  }

  function PacketByteTotal(packets: seq<Packet>, i: nat): nat
    requires i <= |packets|
  {
    if i == 0 then 0 else PacketByteTotal(packets, i - 1) + ByteTotal(packets[i - 1].events, |packets[i - 1].events|)
  }

  datatype Facts = Facts(eventCount: nat, decodedBytes: nat)

  /** `CompactAgentViewChallengeObservationV1::try_new` up to the end of its loops. */
  method Audit(b: Brief, v: View) returns (r: Option<Facts>)
    ensures r.Some? <==> Passes(b, v)
    ensures r.Some? ==> r.value == Facts(EventTotal(b.packets, |b.packets|), PacketByteTotal(b.packets, |b.packets|))
  {
    if b.canonical != v.canonical || |b.packets| != |v.audits| || |b.packets| != |v.citations| { return None; }
    var eventCount, decodedBytes, previous := 0, 0, 0;
    for i := 0 to |b.packets|
      invariant AuditPackets(v, b.packets, 0, 0) == AuditPackets(v, b.packets, i, previous)
      invariant eventCount == EventTotal(b.packets, i) && decodedBytes == PacketByteTotal(b.packets, i)
    {
      var packet, audit := b.packets[i], v.audits[i];
      if !PacketPasses(packet, audit, v.citations[i]) { return None; }
      var inner := AuditPacketEvents(v.text, packet.events, audit.events, previous);
      if inner.None? { return None; }
      eventCount := eventCount + |packet.events|;
      decodedBytes := decodedBytes + inner.value.1;
      previous := inner.value.0;
    }
    return Some(Facts(eventCount, decodedBytes));
  }

  /** The inner loop: where the last field of the packet ends, and how many octets its events decode to. */
  method AuditPacketEvents(text: string, events: seq<Event>, proofs: seq<EventProof>, start: nat)
    returns (r: Option<(nat, nat)>)
    requires |events| == |proofs|
    ensures r.Some? <==> AuditEvents(text, events, proofs, 0, start).Some?
    ensures r.Some? ==> AuditEvents(text, events, proofs, 0, start) == Some(r.value.0)
    ensures r.Some? ==> r.value.1 == ByteTotal(events, |events|)
  {
    var previous, bytes: nat := start, 0;
    for j := 0 to |events|
      invariant AuditEvents(text, events, proofs, 0, start) == AuditEvents(text, events, proofs, j, previous)
      invariant bytes == ByteTotal(events, j)
    {
      if !EventPasses(text, events[j], proofs[j], previous) { return None; }
      previous := proofs[j].span.fieldEnd;
      bytes := bytes + |events[j].bytes|;
    }
    return Some((previous, bytes));
  }

  // ---- Any view that passes -------------------------------------------------------------------------------

  lemma {:induction false} EventsInOrder(text: string, events: seq<Event>, proofs: seq<EventProof>, j: nat,
                                         previous: nat, k: nat)
    requires j <= k < |events| == |proofs| && AuditEvents(text, events, proofs, j, previous).Some?
    ensures EventPasses(text, events[k], proofs[k], if k == j then previous else proofs[k - 1].span.fieldEnd)
    ensures previous <= proofs[k].span.fieldStart
    ensures proofs[k].span.fieldEnd <= AuditEvents(text, events, proofs, j, previous).value
    decreases |events| - j
  {
    if j < k {
      EventsInOrder(text, events, proofs, j + 1, proofs[j].span.fieldEnd, k);
    } else {
      EndsAfter(text, events, proofs, j + 1, proofs[j].span.fieldEnd);
    }
  }

  lemma {:induction false} EndsAfter(text: string, events: seq<Event>, proofs: seq<EventProof>, j: nat, previous: nat)
    requires j <= |events| == |proofs| && AuditEvents(text, events, proofs, j, previous).Some?
    ensures previous <= AuditEvents(text, events, proofs, j, previous).value
    decreases |events| - j
  {
    if j < |events| { EndsAfter(text, events, proofs, j + 1, proofs[j].span.fieldEnd); }
  }

  /** Where the audit stands when it reaches packet `k`. */
  lemma {:induction false} AuditReaches(v: View, packets: seq<Packet>, i: nat, previous: nat, k: nat) returns (at: nat)
    requires i <= k <= |packets| == |v.audits| == |v.citations| && AuditPackets(v, packets, i, previous).Some?
    ensures previous <= at && AuditPackets(v, packets, k, at).Some?
    decreases k - i
  {
    if i == k {
      at := previous;
    } else {
      EndsAfter(v.text, packets[i].events, v.audits[i].events, 0, previous);
      at := AuditReaches(v, packets, i + 1,
                         AuditEvents(v.text, packets[i].events, v.audits[i].events, 0, previous).value, k);
    }
  }

  lemma PacketReached(b: Brief, v: View, i: nat) returns (at: nat)
    requires Passes(b, v) && i < |b.packets|
    ensures PacketPasses(b.packets[i], v.audits[i], v.citations[i])
    ensures AuditEvents(v.text, b.packets[i].events, v.audits[i].events, 0, at).Some?
    ensures AuditPackets(v, b.packets, i + 1,
                         AuditEvents(v.text, b.packets[i].events, v.audits[i].events, 0, at).value).Some?
  {
    at := AuditReaches(v, b.packets, 0, 0, i);
  }

  /** The proof names the event, its field is a range with the data in it, and the data decode to its octets. */
  ghost predicate EventRight(text: string, e: Event, p: EventProof) {
    && p.id == e.id && p.basis == e.basis && p.stream == e.stream && p.byteCount == |e.bytes|
    && p.span.fieldStart <= p.span.dataStart <= p.span.dataEnd <= p.span.fieldEnd && p.span.dataEnd <= |text|
    && Unescape(text[p.span.dataStart..p.span.dataEnd]) == Ok(e.bytes)
  }

  /** A passing view is right about every event: its identity and the octets its data range decodes to. */
  lemma PassingViewIsRight(b: Brief, v: View, i: nat, j: nat)
    requires Passes(b, v) && i < |b.packets| && j < |b.packets[i].events|
    ensures |v.audits[i].events| == |b.packets[i].events|
    ensures EventRight(v.text, b.packets[i].events[j], v.audits[i].events[j])
  {
    var at := PacketReached(b, v, i);
    EventsInOrder(v.text, b.packets[i].events, v.audits[i].events, 0, at, j);
  }

  /** Fields of a passing view never overlap, within a packet and across packets. */
  lemma PassingFieldsDisjoint(b: Brief, v: View, i: nat, j: nat, k: nat, l: nat)
    requires Passes(b, v) && i < |b.packets| && j < |b.packets[i].events|
    requires k < |b.packets| && l < |b.packets[k].events| && (i < k || (i == k && j < l))
    ensures |v.audits[i].events| == |b.packets[i].events| && |v.audits[k].events| == |b.packets[k].events|
    ensures v.audits[i].events[j].span.fieldEnd <= v.audits[k].events[l].span.fieldStart
  {
    var at := PacketReached(b, v, i);
    var events, proofs := b.packets[i].events, v.audits[i].events;
    if i == k {
      PairInOrder(v.text, events, proofs, 0, at, j, l);
    } else {
      EventsInOrder(v.text, events, proofs, 0, at, j);
      var next := AuditReaches(v, b.packets, i + 1, AuditEvents(v.text, events, proofs, 0, at).value, k);
      EventsInOrder(v.text, b.packets[k].events, v.audits[k].events, 0, next, l);
    }
  }

  lemma {:induction false} PairInOrder(text: string, events: seq<Event>, proofs: seq<EventProof>, j: nat,
                                       previous: nat, a: nat, c: nat)
    requires j <= a < c < |events| == |proofs| && AuditEvents(text, events, proofs, j, previous).Some?
    ensures proofs[a].span.fieldEnd <= proofs[c].span.fieldStart
    decreases |events| - j
  {
    if j == a {
      EventsInOrder(text, events, proofs, j + 1, proofs[j].span.fieldEnd, c);
    } else {
      PairInOrder(text, events, proofs, j + 1, proofs[j].span.fieldEnd, a, c);
    }
  }

  // ---- Exactly the views that pass ------------------------------------------------------------------------

  /** The packet's number is its alias less one, and its citation targets exactly its events. */
  ghost predicate PacketRight(p: Packet, a: PacketAudit, c: Citation) {
    && a.alias == p.ordinal + 1 && c.alias == p.ordinal + 1 && |a.events| == |p.events|
    && forall id :: id in c.targets <==> ShowsEvent(p, id)
  }

  /** The first event comes before the second. */
  ghost predicate Before(i: nat, j: nat, k: nat, l: nat) {
    i < k || (i == k && j < l)
  }

  ghost predicate AllRight(packets: seq<Packet>, v: View) {
    && |v.audits| == |packets| && |v.citations| == |packets|
    && (forall i :: 0 <= i < |packets| ==> PacketRight(packets[i], v.audits[i], v.citations[i]))
    && forall i, j :: 0 <= i < |packets| && 0 <= j < |packets[i].events| ==>
         EventRight(v.text, packets[i].events[j], v.audits[i].events[j])
  }

  /** Every field ends before any later one starts. */
  ghost predicate InOrder(packets: seq<Packet>, v: View)
    requires AllRight(packets, v)
  {
    forall i: nat, j: nat, k: nat, l: nat ::
      i < |packets| && j < |packets[i].events| && k < |packets| && l < |packets[k].events| && Before(i, j, k, l) ==>
        v.audits[i].events[j].span.fieldEnd <= v.audits[k].events[l].span.fieldStart
  }

  lemma PacketRightExactly(p: Packet, a: PacketAudit, c: Citation)
    ensures PacketPasses(p, a, c) <==> PacketRight(p, a, c)
  {
    forall id ensures id in Elements(Ids(p.events)) <==> ShowsEvent(p, id) { ShowsExactly(p, id); }
    if PacketPasses(p, a, c) {
      forall id ensures id in c.targets <==> ShowsEvent(p, id) {
        assert id in Elements(c.targets) <==> id in Elements(Ids(p.events));
      }
    }
  }

  lemma {:induction false} EventsPass(text: string, events: seq<Event>, proofs: seq<EventProof>, j: nat, previous: nat)
    requires j <= |events| == |proofs|
    requires forall k :: j <= k < |events| ==> EventRight(text, events[k], proofs[k])
    requires forall k :: j <= k < |events| ==> previous <= proofs[k].span.fieldStart
    requires forall k, l :: j <= k < l < |events| ==> proofs[k].span.fieldEnd <= proofs[l].span.fieldStart
    ensures AuditEvents(text, events, proofs, j, previous)
         == Some(if j < |events| then proofs[|events| - 1].span.fieldEnd else previous)
    decreases |events| - j
  {
    if j < |events| {
      assert EventPasses(text, events[j], proofs[j], previous);
      EventsPass(text, events, proofs, j + 1, proofs[j].span.fieldEnd);
    }
  }

  /** Nothing from packet `i` on starts before `previous`. */
  ghost predicate NoneBefore(packets: seq<Packet>, v: View, i: nat, previous: nat)
    requires AllRight(packets, v)
  {
    forall k: nat, l: nat :: i <= k < |packets| && l < |packets[k].events| ==>
      previous <= v.audits[k].events[l].span.fieldStart
  }

  lemma PacketEventsPass(packets: seq<Packet>, v: View, i: nat, previous: nat) returns (end: nat)
    requires AllRight(packets, v) && InOrder(packets, v) && i < |packets| && NoneBefore(packets, v, i, previous)
    ensures AuditEvents(v.text, packets[i].events, v.audits[i].events, 0, previous) == Some(end)
    ensures NoneBefore(packets, v, i + 1, end)
  {
    var events, proofs := packets[i].events, v.audits[i].events;
    assert PacketRight(packets[i], v.audits[i], v.citations[i]);
    forall k, l | 0 <= k < l < |events| ensures proofs[k].span.fieldEnd <= proofs[l].span.fieldStart {
      assert Before(i, k, i, l);
    }
    EventsPass(v.text, events, proofs, 0, previous);
    end := if |events| > 0 then proofs[|events| - 1].span.fieldEnd else previous;
    forall k: nat, l: nat | i + 1 <= k < |packets| && l < |packets[k].events|
      ensures end <= v.audits[k].events[l].span.fieldStart
    {
      if |events| > 0 { assert Before(i, |events| - 1, k, l); }
    }
  }

  lemma {:induction false} PacketsPass(packets: seq<Packet>, v: View, i: nat, previous: nat)
    requires AllRight(packets, v) && InOrder(packets, v) && i <= |packets| && NoneBefore(packets, v, i, previous)
    ensures AuditPackets(v, packets, i, previous).Some?
    decreases |packets| - i
  {
    if i < |packets| {
      var end := PacketEventsPass(packets, v, i, previous);
      PacketRightExactly(packets[i], v.audits[i], v.citations[i]);
      PacketsPass(packets, v, i + 1, end);
    }
  }

  /** A view passes if and only if it is of the brief, right about all packets and events, and its fields in order. */
  lemma PassesExactly(b: Brief, v: View)
    ensures Passes(b, v) <==> v.canonical == b.canonical && AllRight(b.packets, v) && InOrder(b.packets, v)
  {
    if Passes(b, v) { PassingIsAllRight(b, v); }
    if v.canonical == b.canonical && AllRight(b.packets, v) && InOrder(b.packets, v) {
      PacketsPass(b.packets, v, 0, 0);
    }
  }

  lemma PassingIsAllRight(b: Brief, v: View)
    requires Passes(b, v)
    ensures AllRight(b.packets, v) && InOrder(b.packets, v)
  {
    forall i | 0 <= i < |b.packets| ensures PacketRight(b.packets[i], v.audits[i], v.citations[i]) {
      var at := PacketReached(b, v, i);
      PacketRightExactly(b.packets[i], v.audits[i], v.citations[i]);
    }
    forall i, j | 0 <= i < |b.packets| && 0 <= j < |b.packets[i].events|
      ensures EventRight(v.text, b.packets[i].events[j], v.audits[i].events[j])
    {
      PassingViewIsRight(b, v, i, j);
    }
    forall i: nat, j: nat, k: nat, l: nat
      | i < |b.packets| && j < |b.packets[i].events| && k < |b.packets| && l < |b.packets[k].events|
        && Before(i, j, k, l)
      ensures v.audits[i].events[j].span.fieldEnd <= v.audits[k].events[l].span.fieldStart
    {
      PassingFieldsDisjoint(b, v, i, j, k, l);
    }
  }

  // ---- Every rendered view passes -------------------------------------------------------------------------

  /** `text` continues with `part` at `offset`. */
  predicate Holds(text: string, offset: nat, part: string) {
    offset + |part| <= |text| && text[offset..offset + |part|] == part
  }

  lemma HoldsSplit(text: string, offset: nat, a: string, b: string)
    requires Holds(text, offset, a + b)
    ensures Holds(text, offset, a) && Holds(text, offset + |a|, b)
  {
    var whole := text[offset..offset + |a| + |b|];
    assert whole[..|a|] == text[offset..offset + |a|] && whole[|a|..] == text[offset + |a|..offset + |a| + |b|];
  }

  lemma PieceHolds(text: string, ps: seq<Piece>, j: nat, offset: nat)
    requires j < |ps| && Holds(text, offset, PieceText(ps[j..]))
    ensures var s := SpanAt(ps[j], offset);
            Holds(text, s.dataStart, ps[j].data) && Holds(text, s.fieldEnd, PieceText(ps[j + 1..]))
  {
    var p, rest := ps[j], PieceText(ps[j + 1..]);
    assert ps[j..][1..] == ps[j + 1..];
    HoldsSplit(text, offset, p.prefix + p.data + "\n", rest);
    HoldsSplit(text, offset, p.prefix + p.data, "\n");
    HoldsSplit(text, offset, p.prefix, p.data);
  }

  lemma SpansTail(ps: seq<Piece>, spans: seq<Span>, j: nat, offset: nat)
    requires j < |ps| == |spans| && spans[j..] == Spans(ps[j..], offset)
    ensures spans[j] == SpanAt(ps[j], offset) && spans[j + 1..] == Spans(ps[j + 1..], spans[j].fieldEnd)
    ensures |PieceText(ps[j..])| == spans[j].fieldEnd - offset + |PieceText(ps[j + 1..])|
  {
    assert ps[j..][1..] == ps[j + 1..] && spans[j..][1..] == spans[j + 1..];
  }

  lemma {:induction false} RenderedEventsPass(text: string, events: seq<Event>, ps: seq<Piece>, spans: seq<Span>,
                                              j: nat, offset: nat, previous: nat)
    requires j <= |events| == |ps| == |spans| && previous <= offset
    requires Holds(text, offset, PieceText(ps[j..])) && spans[j..] == Spans(ps[j..], offset)
    requires forall k :: 0 <= k < |ps| ==> Unescape(ps[k].data) == Ok(events[k].bytes)
    ensures var end := AuditEvents(text, events, ProofsOf(events, spans), j, previous);
            end.Some? && end.value <= offset + |PieceText(ps[j..])|
    decreases |events| - j
  {
    if j < |events| {
      var s := SpanAt(ps[j], offset);
      SpansTail(ps, spans, j, offset);
      PieceHolds(text, ps, j, offset);
      assert EventPasses(text, events[j], ProofsOf(events, spans)[j], previous);
      RenderedEventsPass(text, events, ps, spans, j + 1, s.fieldEnd, s.fieldEnd);
    }
  }

  /** `v` records exactly these places, of blocks that decode to the packets of `b`. */
  ghost predicate Assembled(b: Brief, v: View, blocks: seq<Block>, places: seq<Place>) {
    && |b.packets| == |blocks| == |places|
    && (forall k :: 0 <= k < |blocks| ==> |places[k].spans| == |b.packets[k].events|)
    && v == Assemble(b, v.text, places)
    && forall k :: 0 <= k < |blocks| ==> BlockDecodes(b.packets[k], blocks[k]) && b.packets[k].ordinal == k
  }

  lemma {:induction false} RenderedPacketsPass(b: Brief, v: View, blocks: seq<Block>, places: seq<Place>,
                                               i: nat, offset: nat, previous: nat)
    requires Assembled(b, v, blocks, places) && i <= |blocks| && previous <= offset
    requires Holds(v.text, offset, BlockText(blocks[i..])) && places[i..] == Places(blocks[i..], offset)
    ensures AuditPackets(v, b.packets, i, previous).Some?
    decreases |blocks| - i
  {
    if i < |blocks| {
      var next, end := RenderedPacketStep(b, v, blocks, places, i, offset, previous);
      RenderedPacketsPass(b, v, blocks, places, i + 1, next, end);
    }
  }

  /** One packet passes, and the next one starts after it. */
  lemma RenderedPacketStep(b: Brief, v: View, blocks: seq<Block>, places: seq<Place>, i: nat, offset: nat,
                           previous: nat)
    returns (next: nat, end: nat)
    requires Assembled(b, v, blocks, places) && i < |blocks| && previous <= offset
    requires Holds(v.text, offset, BlockText(blocks[i..])) && places[i..] == Places(blocks[i..], offset)
    ensures end <= next && Holds(v.text, next, BlockText(blocks[i + 1..]))
            && places[i + 1..] == Places(blocks[i + 1..], next)
    ensures AuditPackets(v, b.packets, i, previous) == AuditPackets(v, b.packets, i + 1, end)
  {
    var block := blocks[i];
    var start := offset + |block.head| + 1;
    next := start + |PieceText(block.pieces)|;
    PlacesTail(blocks, places, i, offset, start, next);
    BlockHolds(v.text, blocks, i, offset, start, next);
    AssembledPacketPasses(b, v, blocks, places, i);
    end := RenderedPacketPasses(v.text, b.packets[i], block, places[i].spans, start, previous);
  }

  lemma RenderedPacketPasses(text: string, p: Packet, block: Block, spans: seq<Span>, start: nat, previous: nat)
    returns (end: nat)
    requires BlockDecodes(p, block) && previous <= start && Holds(text, start, PieceText(block.pieces))
    requires spans == Spans(block.pieces, start)
    ensures AuditEvents(text, p.events, ProofsOf(p.events, spans), 0, previous) == Some(end)
    ensures end <= start + |PieceText(block.pieces)|
  {
    assert block.pieces[0..] == block.pieces && spans[0..] == spans;
    RenderedEventsPass(text, p.events, block.pieces, spans, 0, start, previous);
    end := AuditEvents(text, p.events, ProofsOf(p.events, spans), 0, previous).value;
  }

  lemma PlacesTail(blocks: seq<Block>, places: seq<Place>, i: nat, offset: nat, start: nat, next: nat)
    requires i < |blocks| == |places| && places[i..] == Places(blocks[i..], offset)
    requires start == offset + |blocks[i].head| + 1 && next == start + |PieceText(blocks[i].pieces)|
    ensures places[i].spans == Spans(blocks[i].pieces, start)
    ensures places[i + 1..] == Places(blocks[i + 1..], next)
  {
    assert blocks[i..][1..] == blocks[i + 1..] && places[i..][1..] == places[i + 1..];
  }

  lemma AssembledPacketPasses(b: Brief, v: View, blocks: seq<Block>, places: seq<Place>, i: nat)
    requires Assembled(b, v, blocks, places) && i < |blocks|
    ensures PacketPasses(b.packets[i], v.audits[i], v.citations[i])
    ensures v.audits[i].events == ProofsOf(b.packets[i].events, places[i].spans)
  {
    assert v.audits[i] == PacketAudit(i + 1, ProofsOf(b.packets[i].events, places[i].spans));
    assert v.citations[i] == CitationOf(i + 1, b.packets[i], places[i].start);
    BuiltPacketPasses(b.packets[i], i + 1, ProofsOf(b.packets[i].events, places[i].spans), places[i].start);
  }

  lemma BuiltPacketPasses(p: Packet, alias: nat, proofs: seq<EventProof>, start: nat)
    requires p.ordinal + 1 == alias && |proofs| == |p.events|
    ensures PacketPasses(p, PacketAudit(alias, proofs), CitationOf(alias, p, start))
  {
    SameElements(Sort(Itself, Ids(p.events)), Ids(p.events));
  }

  lemma BlockHolds(text: string, bs: seq<Block>, i: nat, offset: nat, start: nat, next: nat)
    requires i < |bs| && Holds(text, offset, BlockText(bs[i..]))
    requires start == offset + |bs[i].head| + 1 && next == start + |PieceText(bs[i].pieces)|
    ensures Holds(text, offset, bs[i].head) && Holds(text, start, PieceText(bs[i].pieces))
    ensures Holds(text, next, BlockText(bs[i + 1..]))
  {
    var b := bs[i];
    assert bs[i..][1..] == bs[i + 1..];
    HoldsSplit(text, offset, b.head + "\n" + PieceText(b.pieces), BlockText(bs[i + 1..]));
    HoldsSplit(text, offset, b.head + "\n", PieceText(b.pieces));
    HoldsSplit(text, offset, b.head, "\n");
  }

  /** The auditor never refuses the renderer's own view of a brief. */
  lemma RenderedViewPasses(b: Brief)
    requires Renderable(b) && forall i :: 0 <= i < |b.packets| ==> OctetEvents(b.packets[i].events)
    ensures Passes(b, ViewOf(b))
  {
    var header, blocks, footer := HeaderText(b), BlocksOf(b.packets), FooterText(b);
    var places := Places(blocks, |header|);
    PlacesFit(blocks, |header|);
    BlocksDecode(b.packets);
    MiddleHolds(header, BlockText(blocks), footer);
    assert blocks[0..] == blocks && places[0..] == places;
    forall k | 0 <= k < |b.packets| ensures b.packets[k].ordinal == k {
      assert PacketOk(b.packets[k], k, Shown(b.packets[..k]));
    }
    RenderedPacketsPass(b, ViewOf(b), blocks, places, 0, |header|, 0);
  }

  lemma MiddleHolds(a: string, b: string, c: string)
    ensures Holds(a + b + c, |a|, b)
  {
  }

  /** A citation names the packet's events in ascending order, and its range slices to its marker `[En]`. */
  ghost predicate SlicesRight(text: string, c: Citation, alias: nat, p: Packet) {
    && c.alias == alias && SortedBy(Itself, c.targets) && multiset(c.targets) == multiset(Ids(p.events))
    && c.markerStart < c.markerEnd <= |text| && text[c.markerStart..c.markerEnd] == "[E" + Decimal(alias) + "]"
  }

  /** Every citation of a view does. */
  lemma MarkersSliceRight(b: Brief, v: View, i: nat)
    requires v == ViewOf(b) && i < |b.packets|
    ensures |v.citations| == |b.packets| && SlicesRight(v.text, v.citations[i], i + 1, b.packets[i])
  {
    var places := Places(BlocksOf(b.packets), |HeaderText(b)|);
    ViewPlaces(b, places);
    MarkerHolds(b, places, i);
    AssembledAt(b, v.text, places, i);
    CitationSlices(v.text, i + 1, b.packets[i], places[i].start);
  }

  lemma ViewPlaces(b: Brief, places: seq<Place>)
    requires places == Places(BlocksOf(b.packets), |HeaderText(b)|)
    ensures |places| == |b.packets| && (forall k :: 0 <= k < |places| ==> |places[k].spans| == |b.packets[k].events|)
    ensures ViewOf(b) == Assemble(b, ViewText(b), places)
  {
    PlacesFit(BlocksOf(b.packets), |HeaderText(b)|);
  }

  lemma AssembledAt(b: Brief, text: string, places: seq<Place>, i: nat)
    requires |places| == |b.packets| && i < |b.packets|
    requires forall k :: 0 <= k < |places| ==> |places[k].spans| == |b.packets[k].events|
    ensures var v := Assemble(b, text, places);
            v.citations[i] == CitationOf(i + 1, b.packets[i], places[i].start)
            && v.audits[i].events == ProofsOf(b.packets[i].events, places[i].spans)
  {
  }

  lemma CitationSlices(text: string, alias: nat, p: Packet, start: nat)
    requires Holds(text, start, Marker(alias)) && |Marker(alias)| > 0
    ensures SlicesRight(text, CitationOf(alias, p, start), alias, p)
  {
  }

  /** The recorded ranges cut an event line into what stands before the data, the data and the line feed. */
  ghost predicate FieldRight(text: string, s: Span, j: nat, e: Event) {
    && s.fieldStart <= s.dataStart <= s.dataEnd <= s.fieldEnd <= |text|
    && text[s.fieldStart..s.dataStart]
       == "event" + Decimal(j + 1) + " basis=" + e.basis + " stream=" + e.stream + " data="
    && text[s.dataStart..s.dataEnd] == Escape(e.bytes) && text[s.dataEnd..s.fieldEnd] == "\n"
  }

  /** Every recorded range of a view does. */
  lemma FieldsSliceRight(b: Brief, v: View, i: nat, j: nat)
    requires v == ViewOf(b) && i < |b.packets| && j < |b.packets[i].events|
    ensures |v.audits| == |b.packets| && |v.audits[i].events| == |b.packets[i].events|
    ensures FieldRight(v.text, v.audits[i].events[j].span, j, b.packets[i].events[j])
  {
    var blocks := BlocksOf(b.packets);
    var places := Places(blocks, |HeaderText(b)|);
    ViewPlaces(b, places);
    BlockPieces(HeaderText(b), blocks, FooterText(b), i);
    PlacedField(b, v.text, places, i, j);
  }

  lemma PlacedField(b: Brief, text: string, places: seq<Place>, i: nat, j: nat)
    requires |places| == |b.packets| && i < |b.packets| && j < |b.packets[i].events|
    requires forall k :: 0 <= k < |places| ==> |places[k].spans| == |b.packets[k].events|
    requires PiecesAt(text, places[i], BlockOf(i + 1, b.packets[i]))
    ensures var v := Assemble(b, text, places);
            |v.audits[i].events| == |b.packets[i].events|
            && FieldRight(text, v.audits[i].events[j].span, j, b.packets[i].events[j])
  {
    AssembledAt(b, text, places, i);
    FieldIsCut(text, places[i], i + 1, b.packets[i], j);
  }

  lemma FieldIsCut(text: string, place: Place, alias: nat, p: Packet, j: nat)
    requires PiecesAt(text, place, BlockOf(alias, p)) && j < |p.events|
    ensures |place.spans| == |p.events| && FieldRight(text, place.spans[j], j, p.events[j])
  {
    var pieces := PiecesOf(p.events);
    assert pieces[0..] == pieces;
    PieceCut(text, pieces, 0, place.start + |CitationLine(alias, p)| + 1, j);
    CutIsRight(text, place.spans[j], j, p.events[j]);
  }

  lemma CutIsRight(text: string, s: Span, j: nat, e: Event)
    requires Cut(text, s, PieceOf(j + 1, e))
    ensures FieldRight(text, s, j, e)
  {
  }

  /** The text cut at a span is the piece. */
  ghost predicate Cut(text: string, s: Span, p: Piece) {
    && s.fieldStart <= s.dataStart <= s.dataEnd <= s.fieldEnd <= |text|
    && text[s.fieldStart..s.dataStart] == p.prefix && text[s.dataStart..s.dataEnd] == p.data
    && text[s.dataEnd..s.fieldEnd] == "\n"
  }

  lemma PieceHere(text: string, p: Piece, offset: nat, rest: string)
    requires Holds(text, offset, p.prefix + p.data + "\n" + rest)
    ensures Cut(text, SpanAt(p, offset), p) && Holds(text, SpanAt(p, offset).fieldEnd, rest)
  {
    HoldsSplit(text, offset, p.prefix + p.data + "\n", rest);
    HoldsSplit(text, offset, p.prefix + p.data, "\n");
    HoldsSplit(text, offset, p.prefix, p.data);
  }

  lemma {:induction false} PieceCut(text: string, ps: seq<Piece>, k: nat, offset: nat, j: nat)
    requires k <= j < |ps| && Holds(text, offset, PieceText(ps[k..]))
    ensures Cut(text, Spans(ps[k..], offset)[j - k], ps[j])
    decreases j - k
  {
    assert ps[k..][1..] == ps[k + 1..];
    PieceHere(text, ps[k], offset, PieceText(ps[k + 1..]));
    if k < j { PieceCut(text, ps, k + 1, SpanAt(ps[k], offset).fieldEnd, j); }
  }

  /** The text has the block's event lines where its place says. */
  ghost predicate PiecesAt(text: string, place: Place, block: Block) {
    Holds(text, place.start + |block.head| + 1, PieceText(block.pieces))
    && place.spans == Spans(block.pieces, place.start + |block.head| + 1)
  }

  lemma BlockPieces(header: string, blocks: seq<Block>, footer: string, i: nat)
    requires i < |blocks|
    ensures PiecesAt(Whole(header, blocks, footer), Places(blocks, |header|)[i], blocks[i])
  {
    MiddleHolds(header, BlockText(blocks), footer);
    assert blocks[0..] == blocks;
    PiecesHold(Whole(header, blocks, footer), blocks, 0, |header|, i);
  }

  lemma {:induction false} PiecesHold(text: string, bs: seq<Block>, k: nat, offset: nat, i: nat)
    requires k <= i < |bs| && Holds(text, offset, BlockText(bs[k..]))
    ensures PiecesAt(text, Places(bs[k..], offset)[i - k], bs[i])
    decreases i - k
  {
    var start := offset + |bs[k].head| + 1;
    var next := start + |PieceText(bs[k].pieces)|;
    BlockHolds(text, bs, k, offset, start, next);
    PlacesFrom(bs, k, offset, next);
    if k < i { PiecesHold(text, bs, k + 1, next, i); }
  }

  lemma PlacesFrom(bs: seq<Block>, k: nat, offset: nat, next: nat)
    requires k < |bs| && next == offset + |bs[k].head| + 1 + |PieceText(bs[k].pieces)|
    ensures Places(bs[k..], offset) == [PlaceAt(bs[k], offset)] + Places(bs[k + 1..], next)
  {
    assert bs[k..][1..] == bs[k + 1..];
  }

  lemma MarkerHolds(b: Brief, places: seq<Place>, i: nat)
    requires places == Places(BlocksOf(b.packets), |HeaderText(b)|) && i < |b.packets| == |places|
    ensures Holds(ViewText(b), places[i].start, Marker(i + 1)) && |Marker(i + 1)| > 0
  {
    var header, blocks := HeaderText(b), BlocksOf(b.packets);
    MiddleHolds(header, BlockText(blocks), FooterText(b));
    assert blocks[0..] == blocks;
    HeadHolds(ViewText(b), blocks, 0, |header|, i);
    MarkerLeads(ViewText(b), places[i].start, i + 1, b.packets[i]);
  }

  lemma MarkerLeads(text: string, start: nat, alias: nat, p: Packet)
    requires Holds(text, start, CitationLine(alias, p))
    ensures Holds(text, start, Marker(alias)) && |Marker(alias)| > 0
  {
    HoldsSplit(text, start, Marker(alias) + " roles=", Join(p.roles, ','));
    HoldsSplit(text, start, Marker(alias), " roles=");
  }

  lemma {:induction false} HeadHolds(text: string, bs: seq<Block>, k: nat, offset: nat, i: nat)
    requires k <= i < |bs| && Holds(text, offset, BlockText(bs[k..]))
    ensures Holds(text, Places(bs[k..], offset)[i - k].start, bs[i].head)
    decreases i - k
  {
    var start := offset + |bs[k].head| + 1;
    var next := start + |PieceText(bs[k].pieces)|;
    BlockHolds(text, bs, k, offset, start, next);
    assert bs[k..][1..] == bs[k + 1..];
    if k < i { HeadHolds(text, bs, k + 1, next, i); }
  }
}
